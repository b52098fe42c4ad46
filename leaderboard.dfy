/** The two leaderboards over today's records: catches per technician, most
    first (`value_counts` on the Technician column), and the longest fish (the
    head of a descending sort on Length), plus the winner line that reads row
    0 of both once today's view is known to be non-empty. */
module Leaderboard {
  import opened Records
  import Ranking
  import Today

  /** One row of the most-fish table: technician and fish caught. */
  datatype FishCount = FishCount(technician: string, caught: nat)

  /** The two winners announced under "Today's Winners". */
  datatype Winners = Winners(mostFish: FishCount, biggest: CatchRecord)

  // ---------------------------------------------------------------- counting

  /** Number of records logged by technician `t`. */
  function Count(recs: seq<CatchRecord>, t: string): nat {
    if recs == [] then 0
    else (if recs[0].technician == t then 1 else 0) + Count(recs[1..], t)
  }

  lemma {:induction false} CountAppend(a: seq<CatchRecord>, b: seq<CatchRecord>, t: string)
    ensures Count(a + b, t) == Count(a, t) + Count(b, t)
  {
    if a == [] {
      assert a + b == b;
    } else {
      assert (a + b)[0] == a[0];
      assert (a + b)[1..] == a[1..] + b;
      CountAppend(a[1..], b, t);
    }
  }

  lemma CountSnoc(recs: seq<CatchRecord>, r: CatchRecord, t: string)
    ensures Count(recs + [r], t) == Count(recs, t) + (if r.technician == t then 1 else 0)
  {
    CountAppend(recs, [r], t);
    assert [r][1..] == [];
  }

  /** A technician has a positive count exactly when some record is theirs. */
  lemma {:induction false} CountPositiveIffPresent(recs: seq<CatchRecord>, t: string)
    ensures Count(recs, t) > 0 <==> exists x :: x in recs && x.technician == t
  {
    if recs != [] {
      CountPositiveIffPresent(recs[1..], t);
      if recs[0].technician != t {
        forall x | x in recs && x.technician == t ensures x in recs[1..] {
          assert x != recs[0];
        }
      }
    }
  }

  // ---------------------------------------------------------- grouping rows

  predicate Listed(rows: seq<FishCount>, t: string) {
    exists row :: row in rows && row.technician == t
  }

  /** No technician has two rows. */
  ghost predicate DistinctNames(rows: seq<FishCount>) {
    forall i, j :: 0 <= i < j < |rows| ==> rows[i].technician != rows[j].technician
  }

  /** Every row carries its technician's true count in `recs`. */
  ghost predicate RowsCount(rows: seq<FishCount>, recs: seq<CatchRecord>) {
    forall i :: 0 <= i < |rows| ==> rows[i].caught == Count(recs, rows[i].technician)
  }

  /** The sum of the "Fish Caught" column. */
  function Total(rows: seq<FishCount>): nat {
    if rows == [] then 0 else rows[0].caught + Total(rows[1..])
  }

  /** `rows` is a correct per-technician tally of `recs`: one row for each
      technician present and for no one else, each with its true count,
      together accounting for every record. */
  ghost predicate Tallies(rows: seq<FishCount>, recs: seq<CatchRecord>) {
    DistinctNames(rows) && RowsCount(rows, recs) &&
    (forall t :: Listed(rows, t) <==> Count(recs, t) > 0) &&
    Total(rows) == |recs|
  }

  /** Counts one more catch for `t`: its row goes up by one, or a new row
      with count 1 is added at the end. */
  function Bump(rows: seq<FishCount>, t: string): seq<FishCount> {
    if rows == [] then [FishCount(t, 1)]
    else if rows[0].technician == t then [FishCount(t, rows[0].caught + 1)] + rows[1..]
    else [rows[0]] + Bump(rows[1..], t)
  }

  /** Groups the records by technician in order of first appearance. */
  function Tally(recs: seq<CatchRecord>): seq<FishCount> {
    if recs == [] then []
    else Bump(Tally(recs[..|recs| - 1]), recs[|recs| - 1].technician)
  }

  lemma {:induction false} BumpTotal(rows: seq<FishCount>, t: string)
    ensures Total(Bump(rows, t)) == Total(rows) + 1
  {
    if rows != [] && rows[0].technician != t {
      BumpTotal(rows[1..], t);
    }
  }

  lemma {:induction false} BumpMembers(rows: seq<FishCount>, t: string)
    ensures forall row :: row in Bump(rows, t) ==> row.technician == t || row in rows
    ensures forall u :: Listed(Bump(rows, t), u) <==> Listed(rows, u) || u == t
  {
    if rows != [] && rows[0].technician != t {
      BumpMembers(rows[1..], t);
      var b := Bump(rows[1..], t);
      assert Bump(rows, t) == [rows[0]] + b;
      forall u ensures Listed(Bump(rows, t), u) <==> Listed(rows, u) || u == t {
        if Listed(rows, u) && u != t {
          var row :| row in rows && row.technician == u;
          if row != rows[0] {
            assert row in rows[1..];
            assert Listed(rows[1..], u);
          }
        }
        if Listed(rows[1..], u) || u == t {
          var w :| w in b && w.technician == u;
          assert w in Bump(rows, t);
        }
        if Listed(Bump(rows, t), u) {
          var w :| w in Bump(rows, t) && w.technician == u;
          if w != rows[0] {
            assert w in b;
            if u != t {
              var k :| 0 <= k < |rows[1..]| && rows[1..][k] == w;
              assert rows[k + 1] == w;
            }
          }
        }
      }
    } else if rows != [] {
      forall u ensures Listed(Bump(rows, t), u) <==> Listed(rows, u) || u == t {
        if Listed(rows, u) {
          var row :| row in rows && row.technician == u;
          if row != rows[0] {
            assert row in rows[1..];
          }
        }
      }
    }
  }

  lemma {:induction false} BumpDistinct(rows: seq<FishCount>, t: string)
    requires DistinctNames(rows)
    ensures DistinctNames(Bump(rows, t))
  {
    if rows != [] && rows[0].technician != t {
      BumpDistinct(rows[1..], t);
      BumpMembers(rows[1..], t);
      var tail := Bump(rows[1..], t);
      forall j | 0 <= j < |tail| ensures rows[0].technician != tail[j].technician {
        assert tail[j] in tail;
        if tail[j].technician != t {
          var k :| 0 <= k < |rows[1..]| && rows[1..][k] == tail[j];
          assert rows[k + 1] == tail[j];
        }
      }
    }
  }

  /** Bumping `r`'s technician turns a correct row set for `recs` into one for
      `recs + [r]`, provided `r`'s technician has a row or no catch yet. */
  lemma {:induction false} BumpCounts(rows: seq<FishCount>, recs: seq<CatchRecord>, r: CatchRecord)
    requires RowsCount(rows, recs) && DistinctNames(rows)
    requires Listed(rows, r.technician) || Count(recs, r.technician) == 0
    ensures RowsCount(Bump(rows, r.technician), recs + [r])
  {
    var t := r.technician;
    forall u ensures Count(recs + [r], u) == Count(recs, u) + (if t == u then 1 else 0) {
      CountSnoc(recs, r, u);
    }
    if rows != [] && rows[0].technician != t {
      if Listed(rows, t) {
        var row :| row in rows && row.technician == t;
        assert row in rows[1..];
      }
      BumpCounts(rows[1..], recs, r);
    }
  }

  lemma {:induction false} TallyCorrect(recs: seq<CatchRecord>)
    ensures Tallies(Tally(recs), recs)
  {
    if recs != [] {
      var n := |recs| - 1;
      var front, r := recs[..n], recs[n];
      assert recs == front + [r];
      TallyCorrect(front);
      var rows := Tally(front);
      BumpTotal(rows, r.technician);
      BumpMembers(rows, r.technician);
      BumpDistinct(rows, r.technician);
      BumpCounts(rows, front, r);
      forall u ensures Count(recs, u) == Count(front, u) + (if r.technician == u then 1 else 0) {
        CountSnoc(front, r, u);
      }
    }
  }

  // -------------------------------------------------------------- most fish

  function CaughtKey(row: FishCount): real {
    row.caught as real
  }

  /** `value_counts()`: the per-technician tally, most catches first. */
  function MostFish(recs: seq<CatchRecord>): seq<FishCount> {
    Ranking.SortDesc(Tally(recs), CaughtKey)
  }

  lemma {:induction false} InsertTotal(x: FishCount, s: seq<FishCount>)
    ensures Total(Ranking.Insert(x, s, CaughtKey)) == x.caught + Total(s)
  {
    if s != [] && CaughtKey(x) < CaughtKey(s[0]) {
      InsertTotal(x, s[1..]);
    }
  }

  lemma {:induction false} SortTotal(s: seq<FishCount>)
    ensures Total(Ranking.SortDesc(s, CaughtKey)) == Total(s)
  {
    if s != [] {
      SortTotal(s[1..]);
      InsertTotal(s[0], Ranking.SortDesc(s[1..], CaughtKey));
    }
  }

  lemma {:induction false} InsertDistinct(x: FishCount, s: seq<FishCount>)
    requires DistinctNames(s) && !Listed(s, x.technician)
    ensures DistinctNames(Ranking.Insert(x, s, CaughtKey))
  {
    if s != [] {
      if CaughtKey(x) >= CaughtKey(s[0]) {
        var r := Ranking.Insert(x, s, CaughtKey);
        forall j | 0 < j < |r| ensures r[0].technician != r[j].technician {
          assert r[j] == s[j - 1] && s[j - 1] in s;
        }
      } else {
        assert !Listed(s[1..], x.technician) by {
          forall row | row in s[1..] ensures row.technician != x.technician {
            assert row in s;
          }
        }
        InsertDistinct(x, s[1..]);
        var tail := Ranking.Insert(x, s[1..], CaughtKey);
        Ranking.InsertPermutes(x, s[1..], CaughtKey);
        forall j | 0 <= j < |tail| ensures s[0].technician != tail[j].technician {
          assert tail[j] in multiset(tail);
          if tail[j] != x {
            var k :| 0 <= k < |s[1..]| && s[1..][k] == tail[j];
            assert s[k + 1] == tail[j];
          }
        }
      }
    }
  }

  lemma {:induction false} SortDistinct(s: seq<FishCount>)
    requires DistinctNames(s)
    ensures DistinctNames(Ranking.SortDesc(s, CaughtKey))
  {
    if s != [] {
      var rest := Ranking.SortDesc(s[1..], CaughtKey);
      SortDistinct(s[1..]);
      Ranking.SortDescMembers(s[1..], CaughtKey);
      forall row | row in rest ensures row.technician != s[0].technician {
        var k :| 0 <= k < |s[1..]| && s[1..][k] == row;
        assert s[k + 1] == row;
      }
      InsertDistinct(s[0], rest);
    }
  }

  /** The most-fish table lists every technician of `recs` exactly once with
      their true count, the counts add up to the number of records, the
      counts never increase down the table, and the table is empty only for
      an empty input. Which of two equal counts comes first is not stated. */
  lemma MostFishCorrect(recs: seq<CatchRecord>)
    ensures Tallies(MostFish(recs), recs)
    ensures forall i, j :: 0 <= i < j < |MostFish(recs)| ==> MostFish(recs)[i].caught >= MostFish(recs)[j].caught
    ensures |MostFish(recs)| > 0 <==> recs != []
  {
    var tally := Tally(recs);
    var rows := MostFish(recs);
    TallyCorrect(recs);
    Ranking.SortDescCorrect(tally, CaughtKey);
    Ranking.SortDescMembers(tally, CaughtKey);
    SortTotal(tally);
    SortDistinct(tally);
    forall i | 0 <= i < |rows| ensures rows[i].caught == Count(recs, rows[i].technician) {
      assert rows[i] in tally;
      var k :| 0 <= k < |tally| && tally[k] == rows[i];
    }
    forall t ensures Listed(rows, t) <==> Listed(tally, t) {
    }
    forall i, j | 0 <= i < j < |rows| ensures rows[i].caught >= rows[j].caught {
      assert CaughtKey(rows[i]) >= CaughtKey(rows[j]);
    }
    if recs != [] {
      assert Count(recs, recs[0].technician) > 0;
    }
  }

  /** Row 0 of the most-fish table has the largest count of all technicians. */
  lemma LeaderHasMost(recs: seq<CatchRecord>)
    requires recs != []
    ensures |MostFish(recs)| > 0
    ensures MostFish(recs)[0].caught == Count(recs, MostFish(recs)[0].technician) > 0
    ensures forall t :: Count(recs, t) <= MostFish(recs)[0].caught
  {
    MostFishCorrect(recs);
    var rows := MostFish(recs);
    forall t | Count(recs, t) > 0 ensures Count(recs, t) <= rows[0].caught {
      assert Listed(rows, t);
      var row :| row in rows && row.technician == t;
      var j :| 0 <= j < |rows| && rows[j] == row;
    }
    assert Listed(rows, rows[0].technician) by { assert rows[0] in rows; }
  }

  // ----------------------------------------------------------- biggest bass

  function LengthKey(r: CatchRecord): real {
    r.length
  }

  /** `sort_values("Length (in)", ascending=False).head(1)`. */
  function Biggest(recs: seq<CatchRecord>): seq<CatchRecord> {
    var sorted := Ranking.SortDesc(recs, LengthKey);
    sorted[..if sorted == [] then 0 else 1]
  }

  /** The biggest-bass table has one row exactly when there are records, and
      that row is one of them and at least as long as every one of them. Any
      of several equally long records may be the one chosen. */
  lemma BiggestIsLongest(recs: seq<CatchRecord>)
    ensures |Biggest(recs)| == if recs == [] then 0 else 1
    ensures recs != [] ==>
              (Biggest(recs)[0] in recs &&
               forall x :: x in recs ==> x.length <= Biggest(recs)[0].length)
  {
    var sorted := Ranking.SortDesc(recs, LengthKey);
    Ranking.SortDescCorrect(recs, LengthKey);
    Ranking.SortDescMembers(recs, LengthKey);
    if recs != [] {
      forall x | x in recs ensures x.length <= sorted[0].length {
        var j :| 0 <= j < |sorted| && sorted[j] == x;
        if j > 0 {
          assert LengthKey(sorted[0]) >= LengthKey(sorted[j]);
        }
      }
    }
  }

  // ---------------------------------------------------------------- winners

  /** The leaderboard section: nothing when no catch is dated today (the
      "no catches logged today yet" branch); otherwise row 0 of the
      most-fish table and row 0 of the biggest-bass table, both of which
      exist there. */
  function TodaysWinners(log: seq<CatchRecord>, today: Day): (w: Option<Winners>)
    ensures w.None? <==> Today.OnDate(log, today) == []
    ensures w.Some? ==>
              var day := Today.OnDate(log, today);
              w.value.mostFish.caught == Count(day, w.value.mostFish.technician) > 0 &&
              (forall t :: Count(day, t) <= w.value.mostFish.caught) &&
              w.value.biggest in day && w.value.biggest.date == today &&
              (forall x :: x in day ==> x.length <= w.value.biggest.length)
  {
    var day := Today.OnDate(log, today);
    if day == [] then None
    else
      LeaderHasMost(day);
      BiggestIsLongest(day);
      Some(Winners(MostFish(day)[0], Biggest(day)[0]))
  }

  /** A catch stamped today lands at the end of today's view and adds one to
      its technician's count; on the other technicians' counts it has no
      effect. */
  lemma LoggedCatchCountsToday(log: seq<CatchRecord>, e: Submission, now: Instant, today: Day)
    ensures var rec := NewRecord(e, now, today);
            Today.OnDate(log + [rec], today) == Today.OnDate(log, today) + [rec] &&
            forall t :: Count(Today.OnDate(log + [rec], today), t) ==
                        Count(Today.OnDate(log, today), t) + (if t == rec.technician then 1 else 0)
  {
    var rec := NewRecord(e, now, today);
    Today.AppendedRecordView(log, rec, today);
    forall t ensures Count(Today.OnDate(log + [rec], today), t) ==
                     Count(Today.OnDate(log, today), t) + (if t == rec.technician then 1 else 0) {
      CountSnoc(Today.OnDate(log, today), rec, t);
    }
  }
}
