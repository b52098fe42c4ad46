/** Worked examples of the two leaderboards on small tables. */
module LeaderboardExamples {
  import opened Records
  import opened Leaderboard
  import Ranking

  /** Two catches for A and one for B give the table A:2, B:1. */
  lemma MostFishExample()
    ensures MostFish([CatchRecord("A", 12.0, None, false, 0, 1), CatchRecord("B", 15.5, None, false, 1, 1),
                      CatchRecord("A", 15.5, None, true, 2, 1)]) == [FishCount("A", 2), FishCount("B", 1)]
  {
    var a := CatchRecord("A", 12.0, None, false, 0, 1);
    var b := CatchRecord("B", 15.5, None, false, 1, 1);
    var c := CatchRecord("A", 15.5, None, true, 2, 1);
    assert [a, b, c][..2] == [a, b];
    assert [a, b][..1] == [a];
    assert [a][..0] == [];
    assert Tally([a]) == [FishCount("A", 1)];
    assert "A" != "B" by { assert "A"[0] != "B"[0]; }
    assert Bump([FishCount("A", 1)], "B") == [FishCount("A", 1)] + Bump([], "B");
    assert Tally([a, b]) == [FishCount("A", 1), FishCount("B", 1)];
    assert Tally([a, b, c]) == [FishCount("A", 2), FishCount("B", 1)];
    var t := [FishCount("A", 2), FishCount("B", 1)];
    assert t[1..][1..] == [];
    assert Ranking.SortDesc(t[1..], CaughtKey) == [FishCount("B", 1)];
  }

  /** With one longest catch, that catch is the biggest bass. */
  lemma BiggestExample()
    ensures Biggest([CatchRecord("A", 12.0, None, false, 0, 1), CatchRecord("B", 15.5, Some(2.0), false, 1, 1),
                     CatchRecord("A", 13.0, None, true, 2, 1)]) == [CatchRecord("B", 15.5, Some(2.0), false, 1, 1)]
  {
    var recs := [CatchRecord("A", 12.0, None, false, 0, 1), CatchRecord("B", 15.5, Some(2.0), false, 1, 1),
                 CatchRecord("A", 13.0, None, true, 2, 1)];
    BiggestIsLongest(recs);
    var top := Biggest(recs)[0];
    assert top in recs;
    assert top.length >= 15.5 by { assert recs[1] in recs; }
  }
}
