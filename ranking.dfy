/** Sorting rows by a numeric column, largest first, as `sort_values(...,
    ascending=False)` does. The model sorts by insertion; which of two rows
    with equal keys comes first is deliberately left out of every contract. */
module Ranking {

  function Insert<T>(x: T, s: seq<T>, key: T -> real): (r: seq<T>)
    ensures |r| == |s| + 1
  {
    if s == [] then [x]
    else if key(x) >= key(s[0]) then [x] + s
    else [s[0]] + Insert(x, s[1..], key)
  }

  function SortDesc<T>(s: seq<T>, key: T -> real): (r: seq<T>)
    ensures |r| == |s|
  {
    if s == [] then [] else Insert(s[0], SortDesc(s[1..], key), key)
  }

  /** Keys never increase down the sequence. */
  ghost predicate Descending<T>(s: seq<T>, key: T -> real) {
    forall i, j :: 0 <= i < j < |s| ==> key(s[i]) >= key(s[j])
  }

  lemma {:induction false} InsertPermutes<T>(x: T, s: seq<T>, key: T -> real)
    ensures multiset(Insert(x, s, key)) == multiset{x} + multiset(s)
  {
    if s != [] && key(x) < key(s[0]) {
      InsertPermutes(x, s[1..], key);
      assert s == [s[0]] + s[1..];
    }
  }

  lemma {:induction false} InsertKeepsDescending<T>(x: T, s: seq<T>, key: T -> real)
    requires Descending(s, key)
    ensures Descending(Insert(x, s, key), key)
  {
    if s != [] {
      var r := Insert(x, s, key);
      if key(x) >= key(s[0]) {
        assert forall j :: 0 < j < |r| ==> r[j] == s[j - 1];
      } else {
        var tail := Insert(x, s[1..], key);
        InsertKeepsDescending(x, s[1..], key);
        InsertPermutes(x, s[1..], key);
        forall j | 0 <= j < |tail| ensures key(s[0]) >= key(tail[j]) {
          assert tail[j] in multiset(tail);
          if tail[j] != x {
            assert tail[j] in s[1..];
          }
        }
        assert r == [s[0]] + tail;
      }
    }
  }

  /** The sorted rows are a permutation of the input, in descending key order. */
  lemma {:induction false} SortDescCorrect<T>(s: seq<T>, key: T -> real)
    ensures multiset(SortDesc(s, key)) == multiset(s)
    ensures Descending(SortDesc(s, key), key)
  {
    if s != [] {
      SortDescCorrect(s[1..], key);
      InsertPermutes(s[0], SortDesc(s[1..], key), key);
      InsertKeepsDescending(s[0], SortDesc(s[1..], key), key);
      assert s == [s[0]] + s[1..];
    }
  }

  /** Membership is unchanged by sorting. */
  lemma SortDescMembers<T>(s: seq<T>, key: T -> real)
    ensures forall y :: y in SortDesc(s, key) <==> y in s
  {
    SortDescCorrect(s, key);
    forall y ensures y in SortDesc(s, key) <==> y in s {
      assert y in SortDesc(s, key) <==> y in multiset(SortDesc(s, key));
      assert y in s <==> y in multiset(s);
    }
  }
}
