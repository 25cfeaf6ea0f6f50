/**
 * Request and response shapes of the trade journal: the three enumerations, the
 * inputs/outputs/journal parts of a trade, the note's length bound, and the closed field set
 * of a PATCH payload.
 */
module TradeSchema {
  import opened Common

  /** Date-times are modelled as abstract, ordered instants. */
  type Timestamp = int

  const MaxNoteLength: nat := 2000

  datatype StopUnit = Ticks | Pips {
    /** The enum's string value, as stored in the database. */
    function Value(): string {
      match this
      case Ticks => "TICKS"
      case Pips => "PIPS"
    }
  }

  datatype TradeDirection = Long | Short {
    function Value(): string {
      match this
      case Long => "LONG"
      case Short => "SHORT"
    }
  }

  datatype TradeStatus = Planned | Open | Closed | Cancelled {
    function Value(): string {
      match this
      case Planned => "PLANNED"
      case Open => "OPEN"
      case Closed => "CLOSED"
      case Cancelled => "CANCELLED"
    }
  }

  /** Enum validation of a string: accepted exactly when it is one of the values. */
  function ParseStopUnit(s: string): (r: Option<StopUnit>)
    ensures r.Some? <==> s == "TICKS" || s == "PIPS"
    ensures r.Some? ==> r.value.Value() == s
  {
    if s == "TICKS" then Some(Ticks) else if s == "PIPS" then Some(Pips) else None
  }

  function ParseDirection(s: string): (r: Option<TradeDirection>)
    ensures r.Some? <==> s == "LONG" || s == "SHORT"
    ensures r.Some? ==> r.value.Value() == s
  {
    if s == "LONG" then Some(Long) else if s == "SHORT" then Some(Short) else None
  }

  function ParseStatus(s: string): (r: Option<TradeStatus>)
    ensures r.Some? <==> s in {"PLANNED", "OPEN", "CLOSED", "CANCELLED"}
    ensures r.Some? ==> r.value.Value() == s
  {
    if s == "PLANNED" then Some(Planned)
    else if s == "OPEN" then Some(Open)
    else if s == "CLOSED" then Some(Closed)
    else if s == "CANCELLED" then Some(Cancelled)
    else None
  }

  /** Storing an enum as its string value loses nothing: parsing the value gives the enum back. */
  lemma EnumValuesRoundTrip(u: StopUnit, d: TradeDirection, st: TradeStatus)
    ensures ParseStopUnit(u.Value()) == Some(u)
    ensures ParseDirection(d.Value()) == Some(d)
    ensures ParseStatus(st.Value()) == Some(st)
  {
  }

  datatype TradeInputs = TradeInputs(
    balanceChf: Option<real>, riskPct: Option<real>,
    symbol: string, direction: TradeDirection, entryPrice: real,
    stopDistance: real, stopUnit: StopUnit,
    tpRMultiple: Option<real>, lotStep: Option<real>,
    usdchfRate: Option<real>, tickSize: Option<real>, contractSize: Option<real>)

  /** Sizing outputs: the prices, lots and money figures are required, the rest optional. */
  datatype TradeOutputs = TradeOutputs(
    slPrice: real, tpPrice: real,
    riskDistancePrice: Option<real>, rewardDistancePrice: Option<real>,
    lots: real, riskChf: real, rewardChf: real, rewardToRisk: real,
    valuePerUnit1LotChf: Option<real>, stopValue1LotChf: Option<real>, exposureUnits: Option<real>)

  datatype TradeJournal = TradeJournal(
    note: Option<string>, status: TradeStatus,
    openedAt: Option<Timestamp>, closedAt: Option<Timestamp>,
    realizedPnlChf: Option<real>, realizedRMultiple: Option<real>)

  datatype TradeCreate = TradeCreate(inputs: TradeInputs, outputs: TradeOutputs, journal: TradeJournal)

  /** A journal with every field left at its default. */
  function DefaultJournal(): (j: TradeJournal)
    ensures j.status == Planned && j.note.None? && j.openedAt.None? && j.closedAt.None?
    ensures j.realizedPnlChf.None? && j.realizedRMultiple.None?
  {
    TradeJournal(None, Planned, None, None, None, None)
  }

  predicate NoteFits(note: Option<string>) {
    note.None? || |note.value| <= MaxNoteLength
  }

  /** A PATCH field: absent from the body, or present with a value or an explicit null. */
  datatype Patch<T> = Unset | SetTo(value: Option<T>)

  /** The six fields a PATCH may touch. */
  datatype TradeUpdate = TradeUpdate(
    note: Patch<string>, status: Patch<TradeStatus>,
    openedAt: Patch<Timestamp>, closedAt: Patch<Timestamp>,
    realizedPnlChf: Patch<real>, realizedRMultiple: Patch<real>)

  const TradeUpdateFields: set<string> :=
    {"note", "status", "opened_at", "closed_at", "realized_pnl_chf", "realized_r_multiple"}

  /** A value in a JSON request body, already split by kind (date-times already parsed). */
  datatype FieldValue = Null | Text(text: string) | Number(number: real) | Time(instant: Timestamp)

  /** Why a body is refused with 422: the offending field. */
  datatype ValidationError = ExtraFields(fields: set<string>) | WrongType(field: string) | TooLong(field: string)

  function ParseNote(body: map<string, FieldValue>): Result<Patch<string>, ValidationError> {
    if "note" !in body then Success(Unset)
    else match body["note"]
      case Null => Success(SetTo(None))
      case Text(s) => if |s| <= MaxNoteLength then Success(SetTo(Some(s))) else Failure(TooLong("note"))
      case _ => Failure(WrongType("note"))
  }

  function ParseStatusField(body: map<string, FieldValue>): Result<Patch<TradeStatus>, ValidationError> {
    if "status" !in body then Success(Unset)
    else match body["status"]
      case Null => Success(SetTo(None))
      case Text(s) => if ParseStatus(s).Some? then Success(SetTo(Some(ParseStatus(s).value))) else Failure(WrongType("status"))
      case _ => Failure(WrongType("status"))
  }

  function ParseTimeField(body: map<string, FieldValue>, name: string): Result<Patch<Timestamp>, ValidationError> {
    if name !in body then Success(Unset)
    else match body[name]
      case Null => Success(SetTo(None))
      case Time(t) => Success(SetTo(Some(t)))
      case _ => Failure(WrongType(name))
  }

  function ParseNumberField(body: map<string, FieldValue>, name: string): Result<Patch<real>, ValidationError> {
    if name !in body then Success(Unset)
    else match body[name]
      case Null => Success(SetTo(None))
      case Number(x) => Success(SetTo(Some(x)))
      case _ => Failure(WrongType(name))
  }

  /**
   * Validation of a PATCH body against `TradeUpdate` (`extra="forbid"`): any key outside the
   * six fields is refused, a note over 2000 characters is refused, and a field is "set"
   * exactly when its key is present, null included.
   */
  function ParseTradeUpdate(body: map<string, FieldValue>): (r: Result<TradeUpdate, ValidationError>)
    ensures !(body.Keys <= TradeUpdateFields) <==> r == Failure(ExtraFields(body.Keys - TradeUpdateFields))
    ensures r.Success? ==>
      && ("note" in body <==> r.value.note.SetTo?)
      && ("status" in body <==> r.value.status.SetTo?)
      && ("opened_at" in body <==> r.value.openedAt.SetTo?)
      && ("closed_at" in body <==> r.value.closedAt.SetTo?)
      && ("realized_pnl_chf" in body <==> r.value.realizedPnlChf.SetTo?)
      && ("realized_r_multiple" in body <==> r.value.realizedRMultiple.SetTo?)
    ensures r.Success? && r.value.note.SetTo? ==> NoteFits(r.value.note.value)
    ensures r.Success? && r.value.status.SetTo? && r.value.status.value.Some? ==>
      body["status"] == Text(r.value.status.value.value.Value())
  {
    if !(body.Keys <= TradeUpdateFields) then Failure(ExtraFields(body.Keys - TradeUpdateFields))
    else
      match ParseNote(body)
      case Failure(e) => Failure(e)
      case Success(note) =>
      match ParseStatusField(body)
      case Failure(e) => Failure(e)
      case Success(status) =>
      match ParseTimeField(body, "opened_at")
      case Failure(e) => Failure(e)
      case Success(openedAt) =>
      match ParseTimeField(body, "closed_at")
      case Failure(e) => Failure(e)
      case Success(closedAt) =>
      match ParseNumberField(body, "realized_pnl_chf")
      case Failure(e) => Failure(e)
      case Success(pnl) =>
      match ParseNumberField(body, "realized_r_multiple")
      case Failure(e) => Failure(e)
      case Success(rMultiple) =>
        Success(TradeUpdate(note, status, openedAt, closedAt, pnl, rMultiple))
  }

  /** A body that names a non-PATCHable field, such as `symbol`, is refused whatever else it holds. */
  lemma ForeignFieldRejected(body: map<string, FieldValue>, field: string)
    requires field in body && field !in TradeUpdateFields
    ensures ParseTradeUpdate(body).Failure? && ParseTradeUpdate(body).error.ExtraFields?
    ensures field in ParseTradeUpdate(body).error.fields
  {
  }

  /** The keys `model_dump(exclude_unset=True)` yields: the fields the body set. */
  function SetFields(u: TradeUpdate): (r: set<string>)
    ensures r <= TradeUpdateFields
    ensures "note" in r <==> u.note.SetTo?
    ensures "status" in r <==> u.status.SetTo?
    ensures "opened_at" in r <==> u.openedAt.SetTo?
    ensures "closed_at" in r <==> u.closedAt.SetTo?
    ensures "realized_pnl_chf" in r <==> u.realizedPnlChf.SetTo?
    ensures "realized_r_multiple" in r <==> u.realizedRMultiple.SetTo?
  {
    (if u.note.SetTo? then {"note"} else {})
    + (if u.status.SetTo? then {"status"} else {})
    + (if u.openedAt.SetTo? then {"opened_at"} else {})
    + (if u.closedAt.SetTo? then {"closed_at"} else {})
    + (if u.realizedPnlChf.SetTo? then {"realized_pnl_chf"} else {})
    + (if u.realizedRMultiple.SetTo? then {"realized_r_multiple"} else {})
  }

  /** A parsed body sets exactly the fields it names. */
  lemma ParsedSetFieldsAreBodyKeys(body: map<string, FieldValue>)
    requires ParseTradeUpdate(body).Success?
    ensures SetFields(ParseTradeUpdate(body).value) == body.Keys
  {
    var u := ParseTradeUpdate(body).value;
    assert body.Keys <= TradeUpdateFields;
    forall k | k in body.Keys ensures k in SetFields(u) {
    }
  }
}
