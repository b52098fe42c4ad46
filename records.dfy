/** The catch record, the form submission it is built from, and the check a
    submission has to pass before it is logged. */
module Records {
  import Text

  /** A calendar day (the `Date` column). */
  type Day = int
  /** A capture instant (the `Timestamp` column). */
  type Instant = int

  datatype Option<T> = None | Some(value: T)

  /** One row of the session table. */
  datatype CatchRecord = CatchRecord(
    technician: string,
    length: real,
    weight: Option<real>,
    tagged: bool,
    timestamp: Instant,
    date: Day)

  /** What the form hands over when "Log Catch" is pressed. */
  datatype Submission = Submission(name: string, length: real, weight: real, tagged: bool)

  /** The submit guard: the raw (untrimmed) name is non-empty and the length positive. */
  predicate Accepts(e: Submission) {
    e.name != [] && e.length > 0.0
  }

  /** The weight column: absent unless the submitted weight is positive. */
  function StoredWeight(w: real): (r: Option<real>)
    ensures r.None? <==> w <= 0.0
    ensures r.Some? ==> r.value == w && r.value > 0.0
  {
    if w > 0.0 then Some(w) else None
  }

  /** The facts every logged record keeps. The technician is only known to be
      trimmed: a whitespace-only name passes the guard and is stored as "". */
  ghost predicate WellFormed(r: CatchRecord) {
    r.length > 0.0 && (r.weight.Some? ==> r.weight.value > 0.0) && Text.Stripped(r.technician)
  }

  /** The record built from an accepted submission, stamped with `now` and `today`. */
  function NewRecord(e: Submission, now: Instant, today: Day): (r: CatchRecord)
    ensures r.technician == Text.Strip(e.name) && Text.Stripped(r.technician)
    ensures r.length == e.length && r.tagged == e.tagged
    ensures r.weight.None? <==> e.weight <= 0.0
    ensures r.weight.Some? ==> r.weight.value == e.weight
    ensures r.timestamp == now && r.date == today
    ensures Accepts(e) ==> WellFormed(r)
  {
    Text.StripIsStripped(e.name);
    CatchRecord(Text.Strip(e.name), e.length, StoredWeight(e.weight), e.tagged, now, today)
  }

  /** The guard looks at the raw name, so a name of blanks is accepted and
      logged under the empty technician name. */
  lemma BlankNameLoggedEmpty(e: Submission, now: Instant, today: Day)
    requires e.name != [] && Text.AllSpace(e.name) && e.length > 0.0
    ensures Accepts(e)
    ensures NewRecord(e, now, today).technician == []
  {
    Text.StripEmptyIffAllSpace(e.name);
  }

  /** Conversely, a name that is not all blanks keeps a non-empty technician. */
  lemma VisibleNameLoggedNonEmpty(e: Submission, now: Instant, today: Day)
    requires !Text.AllSpace(e.name)
    ensures NewRecord(e, now, today).technician != []
  {
    Text.StripEmptyIffAllSpace(e.name);
  }
}
