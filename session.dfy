/** The session's catch log (`st.session_state.data`): it starts empty and
    only ever grows by one record per accepted submission. */
module Session {
  import opened Records

  class SessionLog {
    var data: seq<CatchRecord>

    /** Every logged record came through the submit guard. */
    ghost predicate Valid()
      reads this
    {
      forall i :: 0 <= i < |data| ==> WellFormed(data[i])
    }

    /** The empty table of a fresh session. */
    constructor ()
      ensures Valid() && data == []
    {
      data := [];
    }

    /** Validate, then append. A submission that fails the guard leaves the
        log as it was; one that passes adds exactly one record at the end and
        leaves every earlier record where it was. */
    method Submit(e: Submission, now: Instant, today: Day) returns (accepted: bool)
      requires Valid()
      modifies this
      ensures Valid()
      ensures accepted <==> e.name != [] && e.length > 0.0
      ensures !accepted ==> data == old(data)
      ensures accepted ==> |data| == |old(data)| + 1
      ensures accepted ==> data[..|old(data)|] == old(data)
      ensures accepted ==> data[|old(data)|] == NewRecord(e, now, today)
    {
      if Accepts(e) {
        var entry := NewRecord(e, now, today);
        data := data + [entry];
        accepted := true;
      } else {
        accepted := false;
      }
    }
  }
}
