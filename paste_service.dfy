/** The service layer between the HTTP routes and the store: validation of the untyped
    request body, turning a TTL into an absolute expiry, and projecting a stored row
    into the response. The store used here is the SQLite class; the Upstash backend is
    proved to agree with the same table-level step (UpstashStore.ScriptRefinesConsume). */
module PasteService {
  import opened Wrappers
  import opened Text
  import opened PasteContract
  import opened SqliteStore

  /** A JavaScript number: an integer, a finite number with a fractional part, or NaN/Infinity. */
  datatype JsNum = IntNum(n: int) | FractionNum | NonFiniteNum

  /** An untyped JavaScript value, as a parsed request body may hold. */
  datatype JsValue =
    | Undefined
    | Null
    | Bool(b: bool)
    | Num(num: JsNum)
    | Str(s: string)
    | Arr(items: seq<JsValue>)
    | Obj(fields: map<string, JsValue>)

  /** `typeof v === "object" && v !== null`; arrays are objects too. */
  predicate IsObject(v: JsValue) {
    v.Obj? || v.Arr?
  }

  /** `v[name]` on an object: `undefined` when there is no such property. */
  function Property(v: JsValue, name: string): JsValue
    requires IsObject(v)
  {
    if v.Obj? && name in v.fields then v.fields[name] else Undefined
  }

  datatype ValidationError = ValidationError(message: string)

  /** What the body must hold for a count such as `ttl_seconds` or `max_views`: nothing,
      or an integer of at least 1. */
  predicate AcceptableCount(v: JsValue) {
    v.Undefined? || v.Null? || (v.Num? && v.num.IntNum? && v.num.n >= 1)
  }

  /** `toPositiveIntOrNull`: absent is null; otherwise it must be a finite number, then an
      integer, then at least 1, and it is returned unchanged. */
  function ToPositiveIntOrNull(v: JsValue, fieldName: string): (r: Result<Option<int>, ValidationError>)
    ensures r.Success? <==> AcceptableCount(v)
    ensures r == Success(None) <==> v.Undefined? || v.Null?
    ensures r.Success? && r.value.Some? ==> v == Num(IntNum(r.value.value)) && r.value.value >= 1
    ensures r.Failure? ==> |r.error.message| > |fieldName| && r.error.message[..|fieldName|] == fieldName
    // one message per cause, checked in this order
    ensures !v.Undefined? && !v.Null? && (!v.Num? || v.num.NonFiniteNum?) ==>
      r == Failure(ValidationError(fieldName + " must be a number"))
    ensures v == Num(FractionNum) ==> r == Failure(ValidationError(fieldName + " must be an integer"))
    ensures v.Num? && v.num.IntNum? && v.num.n < 1 ==> r == Failure(ValidationError(fieldName + " must be >= 1"))
  {
    if v.Undefined? || v.Null? then Success(None)
    else if !v.Num? || v.num.NonFiniteNum? then Failure(ValidationError(fieldName + " must be a number"))
    else if v.num.FractionNum? then Failure(ValidationError(fieldName + " must be an integer"))
    else if v.num.n < 1 then Failure(ValidationError(fieldName + " must be >= 1"))
    else Success(Some(v.num.n))
  }

  datatype CreatePasteValidated = CreatePasteValidated(
    content: string,
    ttlSeconds: Option<int>,
    maxViews: Option<int>)

  /** The validated counts are absent or at least 1. */
  predicate IsValidated(v: CreatePasteValidated) {
    (v.ttlSeconds.None? || v.ttlSeconds.value >= 1) && (v.maxViews.None? || v.maxViews.value >= 1)
  }

  /** The count a body field denotes once accepted. */
  function CountOf(v: JsValue): Option<int>
    requires AcceptableCount(v)
  {
    if v.Num? then Some(v.num.n) else None
  }

  /** `validateCreatePasteInput`: checks, in this order, that the body is an object, that
      `content` is a string with a non-whitespace character, and that `ttl_seconds` and
      `max_views` are acceptable counts; the first failing check decides the error. */
  function ValidateCreatePasteInput(input: JsValue): (r: Result<CreatePasteValidated, ValidationError>)
    ensures r.Success? <==>
      && IsObject(input)
      && Property(input, "content").Str? && !AllWhitespace(Property(input, "content").s)
      && AcceptableCount(Property(input, "ttl_seconds"))
      && AcceptableCount(Property(input, "max_views"))
    // the content kept is the original, untrimmed string
    ensures r.Success? ==>
      && IsValidated(r.value)
      && r.value.content == Property(input, "content").s
      && r.value.ttlSeconds == CountOf(Property(input, "ttl_seconds"))
      && r.value.maxViews == CountOf(Property(input, "max_views"))
    ensures !IsObject(input) ==> r == Failure(ValidationError("Body must be a JSON object"))
    ensures IsObject(input) && !Property(input, "content").Str? ==>
      r == Failure(ValidationError("content must be a string"))
    ensures IsObject(input) && Property(input, "content").Str? && AllWhitespace(Property(input, "content").s) ==>
      r == Failure(ValidationError("content must be non-empty"))
    // then ttl_seconds is checked before max_views
    ensures (&& IsObject(input) && Property(input, "content").Str? && !AllWhitespace(Property(input, "content").s)
             && !AcceptableCount(Property(input, "ttl_seconds"))) ==>
      r == Failure(ToPositiveIntOrNull(Property(input, "ttl_seconds"), "ttl_seconds").error)
    ensures (&& IsObject(input) && Property(input, "content").Str? && !AllWhitespace(Property(input, "content").s)
             && AcceptableCount(Property(input, "ttl_seconds")) && !AcceptableCount(Property(input, "max_views"))) ==>
      r == Failure(ToPositiveIntOrNull(Property(input, "max_views"), "max_views").error)
  {
    if !IsObject(input) then Failure(ValidationError("Body must be a JSON object"))
    else
      var content := Property(input, "content");
      if !content.Str? then Failure(ValidationError("content must be a string"))
      else if |Trim(content.s)| == 0 then
        TrimEmptyIff(content.s);
        Failure(ValidationError("content must be non-empty"))
      else
        TrimEmptyIff(content.s);
        match ToPositiveIntOrNull(Property(input, "ttl_seconds"), "ttl_seconds")
        case Failure(e) => Failure(e)
        case Success(ttlSeconds) =>
          match ToPositiveIntOrNull(Property(input, "max_views"), "max_views")
          case Failure(e) => Failure(e)
          case Success(maxViews) => Success(CreatePasteValidated(content.s, ttlSeconds, maxViews))
  }

  /** The row `createPaste` stores for a validated input, an id and the current time. */
  function NewRow(input: CreatePasteValidated, id: string, nowMs: int): (row: PasteRow)
    ensures row.id == id && row.content == input.content && row.createdAtMs == nowMs
    ensures row.expiresAtMs == if input.ttlSeconds.None? then None else Some(nowMs + input.ttlSeconds.value * 1000)
    ensures row.remainingViews == input.maxViews
  {
    PasteRow(
      id,
      input.content,
      nowMs,
      if input.ttlSeconds.None? then None else Some(nowMs + input.ttlSeconds.value * 1000),
      if input.maxViews.None? then None else input.maxViews)
  }

  /** A freshly created paste is served, with its content as submitted, at every time
      before `now + ttl_seconds * 1000` and at none after; a view-limited one comes back
      with one view fewer. */
  lemma CreatedPasteLifetime(t: Table, input: CreatePasteValidated, id: string, nowMs: int, laterMs: int)
    requires IsValidated(input)
    ensures var s := Consume(t[id := NewRow(input, id, nowMs)], id, laterMs);
      && (s.served.Some? <==> input.ttlSeconds.None? || laterMs < nowMs + input.ttlSeconds.value * 1000)
      && (s.served.Some? ==> s.served.value.content == input.content)
      && (s.served.Some? ==>
            s.served.value.remainingViews == if input.maxViews.None? then None else Some(input.maxViews.value - 1))
  {
  }

  /** `createPaste`, with the id `nanoid(10)` would draw passed in: build the row
      (expiry `now + ttl_seconds * 1000`, view limit `max_views`), insert it, return the id. */
  method CreatePaste(db: SqlitePasteDb, input: CreatePasteValidated, nowMs: int, id: string)
    returns (r: Result<string, SqliteError>)
    requires db.Valid() && |id| == 10
    modifies db
    ensures db.Valid()
    ensures r.Success? <==> id !in old(db.pastes)
    ensures r.Success? ==> r.value == id && |r.value| == 10 && db.pastes == old(db.pastes)[id := NewRow(input, id, nowMs)]
    ensures r.Failure? ==> db.pastes == old(db.pastes)
  {
    var row := NewRow(input, id, nowMs);
    var created := db.CreatePaste(row);
    if created.Fail? {
      return Failure(created.error);
    }
    return Success(id);
  }

  datatype PasteResponse = PasteResponse(
    content: string,
    remainingViews: Option<int>,
    expiresAt: Option<string>)

  /** `new Date(ms).toISOString()` throws "Invalid time value" outside this range. */
  const MaxTimeValueMs: int := 8_640_000_000_000_000

  datatype RangeError = InvalidTimeValue

  /** The response for a served row. `toIso` stands for `toISOString` on a valid time. */
  function Project(row: PasteRow, toIso: int -> string): (r: Result<PasteResponse, RangeError>)
    ensures r.Failure? <==>
      row.expiresAtMs.Some? && (row.expiresAtMs.value > MaxTimeValueMs || row.expiresAtMs.value < -MaxTimeValueMs)
    ensures r.Success? ==>
      && r.value.content == row.content
      && r.value.remainingViews == row.remainingViews
      && (r.value.expiresAt.None? <==> row.expiresAtMs.None?)
      && (row.expiresAtMs.Some? ==> r.value.expiresAt == Some(toIso(row.expiresAtMs.value)))
  {
    match row.expiresAtMs
    case None => Success(PasteResponse(row.content, row.remainingViews, None))
    case Some(e) =>
      if e > MaxTimeValueMs || e < -MaxTimeValueMs then Failure(InvalidTimeValue)
      else Success(PasteResponse(row.content, row.remainingViews, Some(toIso(e))))
  }

  /** `consumePaste`: an empty id is "not found" without asking the store; otherwise one
      consume step, and a served row is projected into the response. */
  method ConsumePaste(db: SqlitePasteDb, id: string, nowMs: int, toIso: int -> string)
    returns (r: Result<Option<PasteResponse>, RangeError>)
    requires db.Valid()
    modifies db
    ensures db.Valid()
    ensures id == "" ==> r == Success(None) && db.pastes == old(db.pastes)
    ensures id != "" ==> var s := Consume(old(db.pastes), id, nowMs);
      && db.pastes == s.table
      && (s.served.None? ==> r == Success(None))
      && (s.served.Some? ==> r == match Project(s.served.value, toIso)
            case Success(resp) => Success(Some(resp))
            case Failure(e) => Failure(e))
  {
    if id == "" {
      return Success(None);
    }
    var row := db.ConsumePasteById(id, nowMs);
    if row.None? {
      return Success(None);
    }
    var response := Project(row.value, toIso);
    if response.Failure? {
      return Failure(response.error);
    }
    return Success(Some(response.value));
  }

  /** Validation accepts any positive integer TTL, so a TTL of 10^13 seconds is stored;
      each later read is served and then fails when the expiry is formatted. */
  lemma HugeTtlFailsOnRead(t: Table, id: string, nowMs: int, toIso: int -> string)
    requires 0 <= nowMs
    ensures var input := Obj(map["content" := Str("x"), "ttl_seconds" := Num(IntNum(10_000_000_000_000))]);
      var v := ValidateCreatePasteInput(input);
      && v.Success?
      && var s := Consume(t[id := NewRow(v.value, id, nowMs)], id, nowMs);
      && s.served.Some?
      && Project(s.served.value, toIso).Failure?
  {
    assert !IsJsWhitespace("x"[0]);
  }

  /** The request `{content: "hello", max_views: 2}` at time T: two reads at T see 1 and
      then 0 views left, the third finds nothing. */
  lemma HelloTwoViews(t: Table, id: string, T: int)
    ensures var input := Obj(map["content" := Str("hello"), "max_views" := Num(IntNum(2))]);
      var v := ValidateCreatePasteInput(input);
      && v.Success?
      && var row := NewRow(v.value, id, T);
      && var tr := Run(t[id := row], Repeat(Call(id, T), 3));
      && tr.served == [Some(row.(remainingViews := Some(1))), Some(row.(remainingViews := Some(0))), None]
  {
    assert !IsJsWhitespace("hello"[0]);
    var input := Obj(map["content" := Str("hello"), "max_views" := Num(IntNum(2))]);
    var v := ValidateCreatePasteInput(input);
    assert v == Success(CreatePasteValidated("hello", None, Some(2)));
    var row := NewRow(v.value, id, T);
    assert row == PasteRow(id, "hello", T, None, Some(2));
    Countdown(t[id := row], id, 2, T);
  }

  /** The request `{content: "x", ttl_seconds: 10}` at time T: a read at T + 9999 is
      served, a read at T + 10000 finds nothing. */
  lemma TenSecondTtl(t: Table, id: string, T: int)
    ensures var input := Obj(map["content" := Str("x"), "ttl_seconds" := Num(IntNum(10))]);
      var v := ValidateCreatePasteInput(input);
      && v.Success?
      && var t' := t[id := NewRow(v.value, id, T)];
      && Consume(t', id, T + 9999).served.Some?
      && Consume(t', id, T + 10000).served.None?
  {
    assert !IsJsWhitespace("x"[0]);
  }

  /** Empty content, a zero TTL and a zero view limit are all rejected. */
  lemma RejectsZeroAndEmpty()
    ensures ValidateCreatePasteInput(Obj(map["content" := Str("")])).Failure?
    ensures ValidateCreatePasteInput(Obj(map["content" := Str("x"), "ttl_seconds" := Num(IntNum(0))])).Failure?
    ensures ValidateCreatePasteInput(Obj(map["content" := Str("x"), "max_views" := Num(IntNum(0))])).Failure?
  {
    assert !IsJsWhitespace("x"[0]);
  }
}
