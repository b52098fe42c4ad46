/** The "today" view: the log rows whose `Date` equals the current day. */
module Today {
  import opened Records

  /** The boolean-mask selection `data[data["Date"] == day]`. */
  function OnDate(log: seq<CatchRecord>, day: Day): (r: seq<CatchRecord>)
    ensures |r| <= |log|
    ensures forall x :: x in r ==> x in log && x.date == day
  {
    if log == [] then []
    else (if log[0].date == day then [log[0]] else []) + OnDate(log[1..], day)
  }

  /** Positions of the rows the mask keeps, in increasing order. */
  ghost function Kept(log: seq<CatchRecord>, day: Day): seq<int>
  {
    if log == [] then []
    else Kept(log[..|log| - 1], day) + (if log[|log| - 1].date == day then [|log| - 1] else [])
  }

  lemma {:induction false} OnDateAppend(a: seq<CatchRecord>, b: seq<CatchRecord>, day: Day)
    ensures OnDate(a + b, day) == OnDate(a, day) + OnDate(b, day)
  {
    if a == [] {
      assert a + b == b;
    } else {
      assert (a + b)[0] == a[0];
      assert (a + b)[1..] == a[1..] + b;
      OnDateAppend(a[1..], b, day);
    }
  }

  /** The kept positions are positions of the log, increase strictly, and a
      position is kept exactly when its row is dated `day`. */
  lemma {:induction false} KeptPositions(log: seq<CatchRecord>, day: Day)
    ensures forall k :: 0 <= k < |Kept(log, day)| ==> 0 <= Kept(log, day)[k] < |log|
    ensures forall k, l :: 0 <= k < l < |Kept(log, day)| ==> Kept(log, day)[k] < Kept(log, day)[l]
    ensures forall i :: 0 <= i < |log| ==> (i in Kept(log, day) <==> log[i].date == day)
  {
    if log != [] {
      var n := |log| - 1;
      var front := log[..n];
      KeptPositions(front, day);
      assert forall i :: 0 <= i < n ==> log[i] == front[i];
    }
  }

  /** The view keeps exactly the rows dated `day`, in log order: its k-th row
      is the log row at the k-th kept position (see KeptPositions). */
  lemma {:induction false} OnDateSelects(log: seq<CatchRecord>, day: Day)
    ensures |OnDate(log, day)| == |Kept(log, day)|
    ensures forall k :: 0 <= k < |Kept(log, day)| ==>
              0 <= Kept(log, day)[k] < |log| && OnDate(log, day)[k] == log[Kept(log, day)[k]]
  {
    if log != [] {
      var n := |log| - 1;
      var front := log[..n];
      OnDateSelects(front, day);
      assert log == front + [log[n]];
      OnDateAppend(front, [log[n]], day);
      assert [log[n]][1..] == [];
      var v, ks := OnDate(front, day), Kept(front, day);
      var extra := if log[n].date == day then [log[n]] else [];
      assert OnDate(log, day) == v + extra;
      assert Kept(log, day) == ks + (if log[n].date == day then [n] else []);
      forall k | 0 <= k < |Kept(log, day)|
        ensures 0 <= Kept(log, day)[k] < |log| && OnDate(log, day)[k] == log[Kept(log, day)[k]]
      {
        if k < |ks| {
          assert Kept(log, day)[k] == ks[k];
          assert OnDate(log, day)[k] == v[k];
          assert front[ks[k]] == log[ks[k]];
        }
      }
    }
  }

  /** Filtering the view again by the same day changes nothing. */
  lemma {:induction false} OnDateIdempotent(log: seq<CatchRecord>, day: Day)
    ensures OnDate(OnDate(log, day), day) == OnDate(log, day)
  {
    if log != [] {
      var head := if log[0].date == day then [log[0]] else [];
      OnDateAppend(head, OnDate(log[1..], day), day);
      OnDateIdempotent(log[1..], day);
      if log[0].date == day {
        assert [log[0]][1..] == [];
      }
    }
  }

  /** An appended record shows up at the end of the view of its own day and
      not in the view of any other day. */
  lemma AppendedRecordView(log: seq<CatchRecord>, rec: CatchRecord, day: Day)
    ensures OnDate(log + [rec], day) == if rec.date == day then OnDate(log, day) + [rec] else OnDate(log, day)
  {
    OnDateAppend(log, [rec], day);
    assert [rec][1..] == [];
  }
}
