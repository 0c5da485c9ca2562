/** The remote key-value backend: each paste is a hash stored under `paste:{id}` whose
    four fields hold strings, with the empty string for a null number. Consuming runs one
    server-side script that reads the fields, deletes a dead paste or writes back the
    decremented view count, and replies with the fields; the client then decodes the reply.
    The script runs atomically on the server, which is modelled as one method call. */
module UpstashStore {
  import opened Wrappers
  import opened Text
  import opened Numbers
  import opened PasteContract

  /** A Redis hash: field name to string value. */
  type Hash = map<string, string>

  /** The hashes of the Redis keyspace, by key. */
  type Keyspace = map<string, Hash>

  const KeyPrefix: string := "paste:"

  /** The key a paste lives under, both when created and when consumed. */
  function Key(id: string): (k: string)
    ensures |k| == |KeyPrefix| + |id| && k[..|KeyPrefix|] == KeyPrefix && k[|KeyPrefix|..] == id
  {
    KeyPrefix + id
  }

  /** Distinct ids never share a key. */
  lemma KeyInjective(a: string, b: string)
    ensures Key(a) == Key(b) ==> a == b
  {
    if Key(a) == Key(b) {
      assert a == Key(a)[|KeyPrefix|..];
    }
  }

  /** A nullable integer as a hash field: null is the empty string, a number its decimal text. */
  function EncodeNullableInt(o: Option<int>): (s: string)
    ensures s == "" <==> o.None?
  {
    match o
    case None => ""
    case Some(n) => EncodeInt(n)
  }

  /** What `createPaste` writes with HSET: content verbatim, the three numbers as text. */
  function Payload(row: PasteRow): (h: Hash)
    ensures h.Keys == {"content", "created_at_ms", "expires_at_ms", "remaining_views"}
  {
    map[
      "content" := row.content,
      "created_at_ms" := EncodeInt(row.createdAtMs),
      "expires_at_ms" := EncodeNullableInt(row.expiresAtMs),
      "remaining_views" := EncodeNullableInt(row.remainingViews)]
  }

  /** `Math.ceil(x / 1000)` for an integer `x`. */
  function CeilDiv1000(x: int): (q: int)
    ensures q * 1000 >= x > (q - 1) * 1000
  {
    -((-x) / 1000)
  }

  /** The key expiry, in seconds, set when the paste has an expiry:
      `max(1, ceil((expires_at_ms - created_at_ms) / 1000))`, the least positive number of
      whole seconds that covers the paste's lifetime. It is a storage hint only; the
      script's comparison with `expires_at_ms` decides expiry. */
  function TtlHint(createdAtMs: int, expiresAtMs: int): (secs: int)
    ensures secs >= 1
    ensures secs * 1000 >= expiresAtMs - createdAtMs
    ensures secs == 1 || (secs - 1) * 1000 < expiresAtMs - createdAtMs
  {
    var c := CeilDiv1000(expiresAtMs - createdAtMs);
    if c > 1 then c else 1
  }

  /** HGET: the field's value, or nil (`None`) when the hash lacks it. */
  function HGet(h: Hash, field: string): Option<string> {
    if field in h then Some(h[field]) else None
  }

  /** A value in the table the script returns. HGET of a field the hash lacks hands the
      script `false`, not `nil` (Redis converts a nil bulk reply to Lua `false`). */
  datatype LuaValue = LuaString(s: string) | LuaFalse | LuaNil

  /** What HGET hands the script. */
  function HGetLua(h: Hash, field: string): LuaValue {
    if field in h then LuaString(h[field]) else LuaFalse
  }

  /** One entry of an array reply: `false` becomes a nil entry, a string stays. */
  function ReplyEntry(v: LuaValue): Option<string>
    requires !v.LuaNil?
  {
    if v.LuaFalse? then None else Some(v.s)
  }

  /** Redis's conversion of a Lua array into an array reply: entry by entry, ending at the
      first `nil`. */
  function ArrayReply(t: seq<LuaValue>): (r: seq<Option<string>>)
    ensures |r| <= |t|
    ensures forall i :: 0 <= i < |r| ==> !t[i].LuaNil? && r[i] == ReplyEntry(t[i])
    ensures |r| < |t| ==> t[|r|].LuaNil?
  {
    if t == [] || t[0].LuaNil? then []
    else [ReplyEntry(t[0])] + ArrayReply(t[1..])
  }

  /** The table `{content, created_at_ms, expires_at_ms_raw, views}` the script returns. */
  function ReplyTable(h: Hash, views: string): seq<LuaValue> {
    [HGetLua(h, "content"), HGetLua(h, "created_at_ms"), HGetLua(h, "expires_at_ms"), LuaString(views)]
  }

  /** The reply table holds no `nil`, so the client receives all four entries, a missing
      field as a nil entry in its own place. */
  lemma ReplyTableNotCut(h: Hash, views: string)
    ensures ArrayReply(ReplyTable(h, views))
      == [HGet(h, "content"), HGet(h, "created_at_ms"), HGet(h, "expires_at_ms"), Some(views)]
  {
  }

  /** The script's reply: nil, or the four entries of `ReplyTable` as the client receives
      them: the first three copied from the hash (nil when the hash lacks the field) and the
      last the view count after the call, "" for unlimited. */
  datatype Reply =
    | Nil
    | Fields(content: Option<string>, createdAtMs: Option<string>, expiresAtMs: Option<string>, remainingViews: string)

  /** The keyspace after the script and its reply. */
  datatype ScriptStep = ScriptStep(keyspace: Keyspace, reply: Reply)

  /** A hash field read as a number by the script: an absent or empty field is nil. */
  function ScriptNumber(raw: Option<string>): (n: Option<int>)
    ensures raw.None? || raw == Some("") ==> n.None?
  {
    if raw.Some? && raw.value != "" then LuaToNumber(raw.value) else None
  }

  /** The script's expiry test on a stored hash: a numeric expiry that `now` has reached. */
  predicate Expires(h: Hash, nowMs: int) {
    var e := ScriptNumber(HGet(h, "expires_at_ms"));
    e.Some? && nowMs >= e.value
  }

  /** The consume script, evaluated atomically for `KEYS[1] = key` and `ARGV[1] = now`. */
  function ConsumeScript(ks: Keyspace, key: string, nowMs: int): (s: ScriptStep)
  {
    if key !in ks then ScriptStep(ks, Nil)
    else
      var h := ks[key];
      var expiresAtMs := ScriptNumber(HGet(h, "expires_at_ms"));
      if expiresAtMs.Some? && nowMs >= expiresAtMs.value then ScriptStep(ks - {key}, Nil)
      else
        var remainingViews := ScriptNumber(HGet(h, "remaining_views"));
        if remainingViews.Some? then
          if remainingViews.value <= 0 then ScriptStep(ks - {key}, Nil)
          else
            var nextViews := if remainingViews.value - 1 < 0 then 0 else remainingViews.value - 1;
            var text := EncodeInt(nextViews);
            ScriptStep(ks[key := h["remaining_views" := text]],
              Fields(HGet(h, "content"), HGet(h, "created_at_ms"), HGet(h, "expires_at_ms"), text))
        else
          ScriptStep(ks, Fields(HGet(h, "content"), HGet(h, "created_at_ms"), HGet(h, "expires_at_ms"), ""))
  }

  /** The script's four outcomes on an existing key, one per branch, in terms of the two
      numbers it reads from the hash. */
  lemma ScriptBranches(ks: Keyspace, key: string, nowMs: int, e: Option<int>, v: Option<int>)
    requires key in ks
    requires e == ScriptNumber(HGet(ks[key], "expires_at_ms"))
    requires v == ScriptNumber(HGet(ks[key], "remaining_views"))
    ensures e.Some? && nowMs >= e.value ==> ConsumeScript(ks, key, nowMs) == ScriptStep(ks - {key}, Nil)
    ensures !(e.Some? && nowMs >= e.value) && v.Some? && v.value <= 0 ==>
      ConsumeScript(ks, key, nowMs) == ScriptStep(ks - {key}, Nil)
    ensures !(e.Some? && nowMs >= e.value) && v.Some? && v.value > 0 ==>
      var h := ks[key];
      var text := EncodeInt(v.value - 1);
      ConsumeScript(ks, key, nowMs)
        == ScriptStep(ks[key := h["remaining_views" := text]],
             Fields(HGet(h, "content"), HGet(h, "created_at_ms"), HGet(h, "expires_at_ms"), text))
    ensures !(e.Some? && nowMs >= e.value) && v.None? ==>
      var h := ks[key];
      ConsumeScript(ks, key, nowMs)
        == ScriptStep(ks, Fields(HGet(h, "content"), HGet(h, "created_at_ms"), HGet(h, "expires_at_ms"), ""))
  {
  }

  /** What the script guarantees, whatever the hash holds. */
  lemma ConsumeScriptContract(ks: Keyspace, key: string, nowMs: int)
    // a missing key: nil, nothing changes
    ensures key !in ks ==> ConsumeScript(ks, key, nowMs) == ScriptStep(ks, Nil)
    // only the script's own key is touched
    ensures ConsumeScript(ks, key, nowMs).keyspace - {key} == ks - {key}
    // nil for an existing key means the key was deleted
    ensures key in ks && ConsumeScript(ks, key, nowMs).reply.Nil? ==> key !in ConsumeScript(ks, key, nowMs).keyspace
    // an expired paste is deleted whatever its view count
    ensures key in ks && Expires(ks[key], nowMs) ==> ConsumeScript(ks, key, nowMs) == ScriptStep(ks - {key}, Nil)
    // a served reply copies the stored fields
    ensures var s := ConsumeScript(ks, key, nowMs);
      s.reply.Fields? ==>
        && key in ks && key in s.keyspace
        && s.reply.content == HGet(ks[key], "content")
        && s.reply.createdAtMs == HGet(ks[key], "created_at_ms")
        && s.reply.expiresAtMs == HGet(ks[key], "expires_at_ms")
    // without a numeric view count, nothing is written and "" comes back
    ensures var s := ConsumeScript(ks, key, nowMs);
      key in ks && ScriptNumber(HGet(ks[key], "remaining_views")).None? && s.reply.Fields? ==>
        s.keyspace == ks && s.reply.remainingViews == ""
    // with one, the new count is stored, returned, and never negative
    ensures var s := ConsumeScript(ks, key, nowMs);
      s.reply.Fields? && s.reply.remainingViews != "" ==>
        && LuaToNumber(s.reply.remainingViews).Some? && LuaToNumber(s.reply.remainingViews).value >= 0
        && s.keyspace == ks[key := ks[key]["remaining_views" := s.reply.remainingViews]]
    // a live hash with no views left is deleted
    ensures (&& key in ks && !Expires(ks[key], nowMs)
             && ScriptNumber(HGet(ks[key], "remaining_views")).Some?
             && ScriptNumber(HGet(ks[key], "remaining_views")).value <= 0) ==>
      ConsumeScript(ks, key, nowMs) == ScriptStep(ks - {key}, Nil)
    // a live hash with views left is served, and the count it stores and returns is one less
    ensures (&& key in ks && !Expires(ks[key], nowMs)
             && ScriptNumber(HGet(ks[key], "remaining_views")).Some?
             && ScriptNumber(HGet(ks[key], "remaining_views")).value > 0) ==>
      var s := ConsumeScript(ks, key, nowMs);
      && s.reply.Fields?
      && s.reply.remainingViews == EncodeInt(ScriptNumber(HGet(ks[key], "remaining_views")).value - 1)
    // the reply's entries are the script's table as Redis returns it
    ensures var s := ConsumeScript(ks, key, nowMs);
      s.reply.Fields? ==>
        && key in ks
        && ArrayReply(ReplyTable(ks[key], s.reply.remainingViews))
           == [s.reply.content, s.reply.createdAtMs, s.reply.expiresAtMs, Some(s.reply.remainingViews)]
  {
    if key in ks {
      var h := ks[key];
      var e := ScriptNumber(HGet(h, "expires_at_ms"));
      var v := ScriptNumber(HGet(h, "remaining_views"));
      ScriptBranches(ks, key, nowMs, e, v);
      if !(e.Some? && nowMs >= e.value) && v.Some? && v.value > 0 {
        EncodeIntRoundTrip(v.value - 1);
      }
      var s := ConsumeScript(ks, key, nowMs);
      if s.reply.Fields? {
        ReplyTableNotCut(h, s.reply.remainingViews);
      }
    }
  }

  /** `Number(x)` for a reply entry: nil reads as 0, text as `Number(text)`. */
  function ReplyNumber(x: Option<string>): JsNumber {
    match x
    case None => Finite(0, 0)
    case Some(s) => ParseNumber(s)
  }

  /** A nullable number field on the client side: `s ? Number(s) : null`. */
  datatype NullableField = NullField | IntField(n: int) | BadField

  function DecodeNullable(x: Option<string>): (f: NullableField)
    ensures x.None? || x == Some("") ==> f.NullField?
  {
    if x.None? || x.value == "" then NullField
    else match AsInteger(ParseNumber(x.value))
      case Some(n) => IntField(n)
      case None => BadField
  }

  function AsOption(f: NullableField): Option<int>
    requires !f.BadField?
  {
    if f.IntField? then Some(f.n) else None
  }

  /** Decoding the reply into a row: nil is "not found"; so is a reply whose
      `created_at_ms` or present `expires_at_ms` is not a finite number, or whose present
      `remaining_views` is not a finite number or is negative. */
  function DecodeReply(id: string, r: Reply): (row: Option<PasteRow>)
    ensures r.Nil? ==> row.None?
    ensures row.Some? ==> r.Fields? && row.value.id == id && Some(row.value.content) == r.content
    ensures row.Some? ==> ViewsNotNegative(row.value)
    ensures r.Fields? && DecodeNullable(r.expiresAtMs).BadField? ==> row.None?
    ensures r.Fields? && DecodeNullable(Some(r.remainingViews)).BadField? ==> row.None?
    ensures r.Fields? && AsInteger(ReplyNumber(r.createdAtMs)).None? ==> row.None?
    ensures (&& r.Fields? && DecodeNullable(Some(r.remainingViews)).IntField?
             && DecodeNullable(Some(r.remainingViews)).n < 0) ==> row.None?
    ensures r.Fields? && r.content.None? ==> row.None?
    // a well-formed reply decodes to the row its fields spell
    ensures (&& r.Fields? && r.content.Some? && AsInteger(ReplyNumber(r.createdAtMs)).Some?
             && !DecodeNullable(r.expiresAtMs).BadField?
             && (|| DecodeNullable(Some(r.remainingViews)).NullField?
                 || (DecodeNullable(Some(r.remainingViews)).IntField? && DecodeNullable(Some(r.remainingViews)).n >= 0))) ==>
      row == Some(PasteRow(id, r.content.value, AsInteger(ReplyNumber(r.createdAtMs)).value,
        AsOption(DecodeNullable(r.expiresAtMs)), AsOption(DecodeNullable(Some(r.remainingViews)))))
  {
    if r.Nil? then None
    else
      var createdAtMs := AsInteger(ReplyNumber(r.createdAtMs));
      var expiresAtMs := DecodeNullable(r.expiresAtMs);
      var remainingViews := DecodeNullable(Some(r.remainingViews));
      if createdAtMs.None? then None
      else if expiresAtMs.BadField? then None
      else if remainingViews.BadField? || (remainingViews.IntField? && remainingViews.n < 0) then None
      else if r.content.None? then None
      else Some(PasteRow(id, r.content.value, createdAtMs.value, AsOption(expiresAtMs), AsOption(remainingViews)))
  }

  /** A nullable integer survives encoding into a hash field and decoding from the reply:
      null comes back as null, `n` as `n`. */
  lemma NullableRoundTrip(o: Option<int>)
    ensures DecodeNullable(Some(EncodeNullableInt(o))) == (if o.None? then NullField else IntField(o.value))
    ensures ScriptNumber(Some(EncodeNullableInt(o))) == o
  {
    if o.Some? {
      EncodeIntRoundTrip(o.value);
    }
  }

  /** The keyspace holds exactly the table's rows, each encoded under its key
      (keys of other shapes are not constrained). */
  ghost predicate Represents(ks: Keyspace, t: Table) {
    && (forall id {:trigger Key(id)} :: Key(id) in ks <==> id in t)
    && (forall id {:trigger t[id]} :: id in t ==> ks[Key(id)] == Payload(t[id]))
  }

  /** What the script reads from a hash written by `createPaste`. */
  lemma PayloadReads(row: PasteRow)
    ensures HGet(Payload(row), "content") == Some(row.content)
    ensures HGet(Payload(row), "created_at_ms") == Some(EncodeInt(row.createdAtMs))
    ensures HGet(Payload(row), "expires_at_ms") == Some(EncodeNullableInt(row.expiresAtMs))
    ensures ScriptNumber(HGet(Payload(row), "expires_at_ms")) == row.expiresAtMs
    ensures ScriptNumber(HGet(Payload(row), "remaining_views")) == row.remainingViews
  {
    NullableRoundTrip(row.expiresAtMs);
    NullableRoundTrip(row.remainingViews);
  }

  /** Decoding the reply built from a stored row's fields gives the row back. */
  lemma DecodeStoredRow(row: PasteRow, views: string)
    requires views == EncodeNullableInt(row.remainingViews) && ViewsNotNegative(row)
    ensures DecodeReply(row.id, Fields(Some(row.content), Some(EncodeInt(row.createdAtMs)),
      Some(EncodeNullableInt(row.expiresAtMs)), views)) == Some(row)
  {
    EncodeIntRoundTrip(row.createdAtMs);
    NullableRoundTrip(row.expiresAtMs);
    NullableRoundTrip(row.remainingViews);
  }

  lemma RepresentsAfterDelete(ks: Keyspace, t: Table, id: string)
    requires Represents(ks, t)
    ensures Represents(ks - {Key(id)}, t - {id})
  {
    forall other | Key(other) == Key(id) ensures other == id { KeyInjective(other, id); }
  }

  lemma RepresentsAfterStore(ks: Keyspace, t: Table, row: PasteRow)
    requires Represents(ks, t)
    ensures Represents(ks[Key(row.id) := Payload(row)], t[row.id := row])
  {
    forall other | Key(other) == Key(row.id) ensures other == row.id { KeyInjective(other, row.id); }
  }

  /** The script on a hash written by `createPaste` takes the branch the table's consume
      step takes for the same row. */
  lemma ScriptOnPayload(ks: Keyspace, key: string, row: PasteRow, nowMs: int)
    requires key in ks && ks[key] == Payload(row)
    ensures var fields := Fields(Some(row.content), Some(EncodeInt(row.createdAtMs)),
        Some(EncodeNullableInt(row.expiresAtMs)), "");
      ConsumeScript(ks, key, nowMs) ==
        if Expired(row, nowMs) || OutOfViews(row) then ScriptStep(ks - {key}, Nil)
        else if row.remainingViews.Some? then
          var served := row.(remainingViews := Some(row.remainingViews.value - 1));
          ScriptStep(ks[key := Payload(served)], fields.(remainingViews := EncodeNullableInt(served.remainingViews)))
        else ScriptStep(ks, fields)
  {
    PayloadReads(row);
    ScriptBranches(ks, key, nowMs, row.expiresAtMs, row.remainingViews);
    if Expired(row, nowMs) || OutOfViews(row) {
    } else if row.remainingViews.Some? {
      var served := row.(remainingViews := Some(row.remainingViews.value - 1));
      assert Payload(row)["remaining_views" := EncodeInt(row.remainingViews.value - 1)] == Payload(served);
    }
  }

  /** The two backends agree. On a keyspace that encodes a table, the script followed by
      decoding returns exactly what the table's consume step returns, and leaves a keyspace
      that encodes the table after that step. */
  lemma ScriptRefinesConsume(ks: Keyspace, t: Table, id: string, nowMs: int)
    requires Represents(ks, t) && WellKeyed(t)
    ensures var s := ConsumeScript(ks, Key(id), nowMs);
      var c := Consume(t, id, nowMs);
      && DecodeReply(id, s.reply) == c.served
      && Represents(s.keyspace, c.table)
  {
    var key := Key(id);
    var c := Consume(t, id, nowMs);
    if id in t {
      var row := t[id];
      assert row.id == id;
      ScriptOnPayload(ks, key, row, nowMs);
      if c.served.None? {
        RepresentsAfterDelete(ks, t, id);
      } else {
        var served := c.served.value;
        var s := ConsumeScript(ks, key, nowMs);
        if row.remainingViews.Some? {
          RepresentsAfterStore(ks, t, served);
        }
        assert s.reply.remainingViews == EncodeNullableInt(served.remainingViews);
        DecodeStoredRow(served, s.reply.remainingViews);
      }
    } else {
      assert key !in ks;
    }
  }

  /** Creating a fresh paste keeps the keyspace and the table in step. */
  lemma CreateRefinesInsert(ks: Keyspace, t: Table, row: PasteRow)
    requires Represents(ks, t) && row.id !in t
    ensures Represents(ks[Key(row.id) := Payload(row)], t[row.id := row])
  {
    forall other | Key(other) == Key(row.id) ensures other == row.id { KeyInjective(other, row.id); }
  }

  /** A stored view count that the script does not read as a number (absent, empty, or
      text that is not numeric) means "no limit": a live hash is not changed, "" is
      returned, and the client decodes an unlimited paste with the stored fields. */
  lemma NonNumericViewsServedUnlimited(ks: Keyspace, key: string, id: string, nowMs: int)
    requires key in ks && "content" in ks[key] && !Expires(ks[key], nowMs)
    requires ScriptNumber(HGet(ks[key], "remaining_views")).None?
    requires AsInteger(ReplyNumber(HGet(ks[key], "created_at_ms"))).Some?
    requires !DecodeNullable(HGet(ks[key], "expires_at_ms")).BadField?
    ensures ConsumeScript(ks, key, nowMs).keyspace == ks
    ensures DecodeReply(id, ConsumeScript(ks, key, nowMs).reply)
      == Some(PasteRow(id, ks[key]["content"], AsInteger(ReplyNumber(HGet(ks[key], "created_at_ms"))).value,
           AsOption(DecodeNullable(HGet(ks[key], "expires_at_ms"))), None))
  {
    var h := ks[key];
    ScriptBranches(ks, key, nowMs, ScriptNumber(HGet(h, "expires_at_ms")), None);
    var reply := Fields(HGet(h, "content"), HGet(h, "created_at_ms"), HGet(h, "expires_at_ms"), "");
    assert ConsumeScript(ks, key, nowMs) == ScriptStep(ks, reply);
  }

  /** For instance, the count "many". */
  lemma ManyIsNotACount()
    ensures ScriptNumber(Some("many")).None?
  {
    TrimNoWhitespace("many");
  }

  /** A hash lacking `created_at_ms` (not one `createPaste` writes): the reply keeps all
      four entries, the missing one as nil in its own place, and `Number(null)` reads it as
      creation time 0. */
  lemma MissingCreatedAtReadsAsZero(id: string, nowMs: int)
    ensures var h := map["content" := "x", "expires_at_ms" := "", "remaining_views" := ""];
      && ArrayReply(ReplyTable(h, "")) == [Some("x"), None, Some(""), Some("")]
      && DecodeReply(id, ConsumeScript(map[Key(id) := h], Key(id), nowMs).reply)
         == Some(PasteRow(id, "x", 0, None, None))
  {
  }

  class UpstashPasteDb {
    /** The Redis keyspace as seen by this client. */
    var keyspace: Keyspace
    /** Seconds passed to EXPIRE per key; a hint for storage reclamation only. */
    var keyTtl: map<string, int>

    constructor ()
      ensures keyspace == map[] && keyTtl == map[]
    {
      keyspace := map[];
      keyTtl := map[];
    }

    /** `createPaste`: HSET the four fields under `paste:{id}` (merging into any existing
        hash), then EXPIRE the key when the paste has an expiry. */
    method CreatePaste(row: PasteRow)
      modifies this
      ensures keyspace == old(keyspace)[Key(row.id) :=
        (if Key(row.id) in old(keyspace) then old(keyspace)[Key(row.id)] else map[]) + Payload(row)]
      ensures keyTtl == if row.expiresAtMs.None? then old(keyTtl)
        else old(keyTtl)[Key(row.id) := TtlHint(row.createdAtMs, row.expiresAtMs.value)]
    {
      var key := Key(row.id);
      var existing: Hash := if key in keyspace then keyspace[key] else map[];
      keyspace := keyspace[key := existing + Payload(row)];
      if row.expiresAtMs.Some? {
        keyTtl := keyTtl[key := TtlHint(row.createdAtMs, row.expiresAtMs.value)];
      }
    }

    /** The script's `if raw and raw ~= "" then x = tonumber(raw) end`. */
    static method ReadNumber(raw: Option<string>) returns (n: Option<int>)
      ensures n == ScriptNumber(raw)
    {
      n := None;
      if raw.Some? && raw.value != "" {
        n := LuaToNumber(raw.value);
      }
    }

    /** The Lua script, statement by statement. DEL also drops the key's expiry. */
    method RunConsumeScript(key: string, nowMs: int) returns (reply: Reply)
      modifies this
      ensures ScriptStep(keyspace, reply) == ConsumeScript(old(keyspace), key, nowMs)
      ensures keyTtl == if key in old(keyspace) && key !in keyspace then old(keyTtl) - {key} else old(keyTtl)
    {
      if key !in keyspace {
        return Nil;
      }
      var h := keyspace[key];
      var content := HGet(h, "content");
      var createdAtMs := HGet(h, "created_at_ms");
      var expiresAtMsRaw := HGet(h, "expires_at_ms");
      var remainingViewsRaw := HGet(h, "remaining_views");

      var expiresAtMs := ReadNumber(expiresAtMsRaw);
      var remainingViews := ReadNumber(remainingViewsRaw);
      ScriptBranches(keyspace, key, nowMs, expiresAtMs, remainingViews);

      if expiresAtMs.Some? && nowMs >= expiresAtMs.value {
        keyspace := keyspace - {key};
        keyTtl := keyTtl - {key};
        return Nil;
      }
      if remainingViews.Some? {
        if remainingViews.value <= 0 {
          keyspace := keyspace - {key};
          keyTtl := keyTtl - {key};
          return Nil;
        }
        var nextViews := remainingViews.value - 1;
        if nextViews < 0 {
          nextViews := 0;
        }
        keyspace := keyspace[key := h["remaining_views" := EncodeInt(nextViews)]];
        remainingViews := Some(nextViews);
      }
      reply := Fields(content, createdAtMs, expiresAtMsRaw,
        if remainingViews.Some? then EncodeInt(remainingViews.value) else "");
    }

    /** `consumePasteById`: run the script on `paste:{id}` at `now`, then decode its reply. */
    method ConsumePasteById(id: string, nowMs: int) returns (r: Option<PasteRow>)
      modifies this
      ensures var s := ConsumeScript(old(keyspace), Key(id), nowMs);
        keyspace == s.keyspace && r == DecodeReply(id, s.reply)
      ensures keyTtl == if Key(id) in old(keyspace) && Key(id) !in keyspace then old(keyTtl) - {Key(id)} else old(keyTtl)
    {
      var reply := RunConsumeScript(Key(id), nowMs);
      r := DecodeReply(id, reply);
    }
  }
}
