/** The current time used by create and consume: the wall clock, unless test mode is
    on and the request carries a usable `x-test-now-ms` header. The wall clock and the
    `TEST_MODE` variable are parameters. */
module Time {
  import opened Wrappers
  import opened Text
  import opened Numbers

  /** What `headers.get(name)` returns on a Fetch-style headers object; a name it does not
      hold gives null. */
  datatype GetResult = GStr(s: string) | GNull | GUndefined | GOther

  /** A value of a Node-style headers record; a missing name reads as undefined. */
  datatype RecordValue = RStr(s: string) | RArr(items: seq<string>) | RUndefined

  datatype Headers =
    | NoHeaders
    | GetStyle(entries: map<string, GetResult>)
    | RecordStyle(fields: map<string, RecordValue>)

  function Get(entries: map<string, GetResult>, name: string): GetResult {
    if name in entries then entries[name] else GNull
  }

  function Field(fields: map<string, RecordValue>, name: string): RecordValue {
    if name in fields then fields[name] else RUndefined
  }

  /** `getHeaderValue`: no headers give undefined. A Fetch-style object is asked for the
      name, then (when that is null or undefined) for its lower-case form, and only a
      string answer counts. A record is read at the lower-case name first, then at the
      name itself, and an array value gives its first element. */
  function GetHeaderValue(headers: Headers, name: string): (r: Option<string>)
    ensures headers.NoHeaders? ==> r.None?
    ensures headers.GetStyle? && Get(headers.entries, name).GStr? ==> r == Some(Get(headers.entries, name).s)
    ensures headers.GetStyle? && r.Some? ==>
      Get(headers.entries, name) == GStr(r.value) || Get(headers.entries, AsciiLower(name)) == GStr(r.value)
    ensures headers.GetStyle? && (Get(headers.entries, name).GNull? || Get(headers.entries, name).GUndefined?) ==>
      r == if Get(headers.entries, AsciiLower(name)).GStr? then Some(Get(headers.entries, AsciiLower(name)).s) else None
    ensures headers.GetStyle? && Get(headers.entries, name).GOther? ==> r.None?
    ensures headers.RecordStyle? && Field(headers.fields, AsciiLower(name)).RArr? ==>
      var items := Field(headers.fields, AsciiLower(name)).items;
      r == if items == [] then None else Some(items[0])
    ensures headers.RecordStyle? && Field(headers.fields, AsciiLower(name)).RStr? ==>
      r == Some(Field(headers.fields, AsciiLower(name)).s)
    ensures headers.RecordStyle? && Field(headers.fields, AsciiLower(name)).RUndefined? ==>
      match Field(headers.fields, name)
      case RStr(s) => r == Some(s)
      case RArr(items) => r == if items == [] then None else Some(items[0])
      case RUndefined => r.None?
  {
    match headers
    case NoHeaders => None
    case GetStyle(entries) =>
      var v := Get(entries, name);
      var v' := if v.GNull? || v.GUndefined? then Get(entries, AsciiLower(name)) else v;
      if v'.GStr? then Some(v'.s) else None
    case RecordStyle(fields) =>
      var lowerValue := Field(fields, AsciiLower(name));
      var raw := if lowerValue.RUndefined? then Field(fields, name) else lowerValue;
      match raw
      case RStr(s) => Some(s)
      case RArr(items) => if items == [] then None else Some(items[0])
      case RUndefined => None
  }

  const TestNowHeader: string := "x-test-now-ms"

  /** `nowMsFromHeaders`: with TEST_MODE=1 and a header that reads as a finite number
      that is not negative, the floor of that number; the wall clock in every other case. */
  function NowMsFromHeaders(testMode: Option<string>, headers: Headers, wallClockMs: int): (r: int)
    ensures testMode != Some("1") ==> r == wallClockMs
    ensures GetHeaderValue(headers, TestNowHeader) in {None, Some("")} ==> r == wallClockMs
    ensures r == wallClockMs || r >= 0
    ensures testMode == Some("1") && GetHeaderValue(headers, TestNowHeader).Some? ==>
      var n := ParseNumber(GetHeaderValue(headers, TestNowHeader).value);
      && (n.NotFinite? || n.mantissa < 0 ==> r == wallClockMs)
      && (GetHeaderValue(headers, TestNowHeader) != Some("") && n.Finite? && n.mantissa >= 0 ==>
            r == Floor(n) && r >= 0)
  {
    if testMode != Some("1") then wallClockMs
    else
      var raw := GetHeaderValue(headers, TestNowHeader);
      if raw.None? || raw.value == "" then wallClockMs
      else
        var n := ParseNumber(raw.value);
        if n.NotFinite? || n.mantissa < 0 then wallClockMs
        else Floor(n)
  }

  /** A record holding the test header under its (lower-case) name yields its value. */
  lemma ReadsTestHeader(value: string)
    ensures GetHeaderValue(RecordStyle(map[TestNowHeader := RStr(value)]), TestNowHeader) == Some(value)
  {
    AsciiLowerNoUpper(TestNowHeader);
  }

  /** In test mode a header holding `String(t)` for a time `t >= 0` is read back as `t`,
      whatever the wall clock says. */
  lemma TestHeaderRoundTrip(t: nat, wallClockMs: int)
    ensures NowMsFromHeaders(Some("1"), RecordStyle(map[TestNowHeader := RStr(EncodeInt(t))]), wallClockMs) == t
  {
    ReadsTestHeader(EncodeInt(t));
    ParseEncodedInt(t);
    assert Floor(Finite(t, 0)) == t;
  }
}
