/** The store contract shared by both backends: the paste record, the table of records,
    and the one atomic consume-on-read step, together with what a sequence of such
    steps can and cannot serve. */
module PasteContract {
  import opened Wrappers

  /** One stored paste. `None` stands for SQL NULL: no expiry, or unlimited views. */
  datatype PasteRow = PasteRow(
    id: string,
    content: string,
    createdAtMs: int,
    expiresAtMs: Option<int>,
    remainingViews: Option<int>)

  /** The `pastes` table, keyed by its primary key `id`. */
  type Table = map<string, PasteRow>

  /** Every row is stored under its own id. */
  ghost predicate WellKeyed(t: Table) {
    forall id :: id in t ==> t[id].id == id
  }

  /** The expiry test of the source: expired once `now >= expires_at_ms`. */
  predicate Expired(row: PasteRow, nowMs: int) {
    row.expiresAtMs.Some? && nowMs >= row.expiresAtMs.value
  }

  /** A view-limited row with no views left. */
  predicate OutOfViews(row: PasteRow) {
    row.remainingViews.Some? && row.remainingViews.value <= 0
  }

  /** A row as a caller may see it: its view count, when there is one, is not negative. */
  predicate ViewsNotNegative(row: PasteRow) {
    row.remainingViews.None? || row.remainingViews.value >= 0
  }

  /** The table after one consume call, and the row it served (`None` is "not found"). */
  datatype Step = Step(table: Table, served: Option<PasteRow>)

  /** `consumePasteById(id, now)`: look the row up; an expired row is deleted, then a
      view-limited row with no views left is deleted; otherwise one view is taken from a
      view-limited row and the row after the decrement is returned, and an unlimited row
      is returned as it is. */
  function Consume(t: Table, id: string, nowMs: int): (s: Step)
    // not found exactly when missing, expired or out of views
    ensures s.served.None? <==> id !in t || Expired(t[id], nowMs) || OutOfViews(t[id])
    // what is served is the stored row after one view was taken, never negative
    ensures s.served.Some? ==>
      && s.served.value.(remainingViews := t[id].remainingViews) == t[id]
      && s.served.value.remainingViews ==
           (if t[id].remainingViews.None? then None else Some(t[id].remainingViews.value - 1))
      && ViewsNotNegative(s.served.value)
      && !Expired(s.served.value, nowMs)
    // a dead row is deleted, a served row is stored as served
    ensures id in t ==> s.table == if s.served.None? then t - {id} else t[id := s.served.value]
    ensures id !in t ==> s.table == t
    // every change is keyed by `id`
    ensures s.table - {id} == t - {id}
  {
    if id !in t then Step(t, None)
    else
      var row := t[id];
      if row.expiresAtMs.Some? && nowMs >= row.expiresAtMs.value then Step(t - {id}, None)
      else if row.remainingViews.Some? then
        if row.remainingViews.value <= 0 then Step(t - {id}, None)
        else
          var next := row.(remainingViews := Some(row.remainingViews.value - 1));
          Step(t[id := next], Some(next))
      else Step(t, Some(row))
  }

  /** The boundary of expiry is exact: one millisecond before `expires_at_ms` a live
      row is served, at `expires_at_ms` it is not found and deleted. */
  lemma ExpiryBoundaryIsExact(t: Table, id: string, e: int)
    requires id in t && t[id].expiresAtMs == Some(e) && !OutOfViews(t[id])
    ensures Consume(t, id, e - 1).served.Some?
    ensures Consume(t, id, e).served.None? && id !in Consume(t, id, e).table
  {
  }

  lemma ConsumeKeepsWellKeyed(t: Table, id: string, nowMs: int)
    requires WellKeyed(t)
    ensures WellKeyed(Consume(t, id, nowMs).table)
  {
  }

  /** One consume call against the store, at the time the caller read. */
  datatype Call = Call(id: string, nowMs: int)

  /** The table after a sequence of calls, and what each call was served. */
  datatype Trace = Trace(table: Table, served: seq<Option<PasteRow>>)

  /** Consume calls applied one after another; each is atomic, so any interleaving of
      concurrent callers is one such sequence. */
  function Run(t: Table, calls: seq<Call>): (tr: Trace)
    ensures |tr.served| == |calls|
    decreases |calls|
  {
    if calls == [] then Trace(t, [])
    else
      var s := Consume(t, calls[0].id, calls[0].nowMs);
      var rest := Run(s.table, calls[1..]);
      Trace(rest.table, [s.served] + rest.served)
  }

  /** The rows served to the calls that asked for `id`, in call order. */
  function ServedFor(id: string, calls: seq<Call>, served: seq<Option<PasteRow>>): seq<PasteRow>
    requires |served| == |calls|
  {
    if calls == [] then []
    else
      (if calls[0].id == id && served[0].Some? then [served[0].value] else [])
      + ServedFor(id, calls[1..], served[1..])
  }

  function Repeat(c: Call, k: nat): (cs: seq<Call>)
    ensures |cs| == k && forall i :: 0 <= i < k ==> cs[i] == c
  {
    seq(k, _ => c)
  }

  /** No call is ever served a row that is expired at the call's time, or a negative
      view count. */
  lemma {:induction false} RunServesOnlyLiveRows(t: Table, calls: seq<Call>)
    ensures forall i :: 0 <= i < |calls| && Run(t, calls).served[i].Some? ==>
      !Expired(Run(t, calls).served[i].value, calls[i].nowMs)
      && ViewsNotNegative(Run(t, calls).served[i].value)
    decreases |calls|
  {
    if calls != [] {
      var s := Consume(t, calls[0].id, calls[0].nowMs);
      RunServesOnlyLiveRows(s.table, calls[1..]);
      var tr := Run(t, calls);
      assert tr.served == [s.served] + Run(s.table, calls[1..]).served;
      forall i | 0 <= i < |calls| && tr.served[i].Some?
        ensures !Expired(tr.served[i].value, calls[i].nowMs) && ViewsNotNegative(tr.served[i].value)
      {
        if i > 0 { assert tr.served[i] == Run(s.table, calls[1..]).served[i - 1]; }
      }
    }
  }

  /** A paste that is not in the table is never served again and never comes back:
      consume does not create rows. */
  lemma {:induction false} AbsentNeverServed(t: Table, id: string, calls: seq<Call>)
    requires id !in t
    ensures ServedFor(id, calls, Run(t, calls).served) == []
    ensures id !in Run(t, calls).table
    decreases |calls|
  {
    if calls != [] {
      var s := Consume(t, calls[0].id, calls[0].nowMs);
      AbsentNeverServed(s.table, id, calls[1..]);
      assert Run(t, calls).served[1..] == Run(s.table, calls[1..]).served;
    }
  }

  /** The central safety property. A paste stored with `remaining_views = n` is served at
      most `n` times over any sequence of consume calls (for any ids and times), and the
      i-th time it is served it carries `n - 1 - i` views and its stored fields otherwise
      unchanged: no two callers ever see the same view count, in particular the last view. */
  lemma {:induction false} LimitedServes(t: Table, id: string, n: int, calls: seq<Call>)
    requires id in t && t[id].remainingViews == Some(n)
    ensures var served := ServedFor(id, calls, Run(t, calls).served);
      && |served| <= (if n > 0 then n else 0)
      && forall i :: 0 <= i < |served| ==> served[i] == t[id].(remainingViews := Some(n - 1 - i))
    decreases |calls|
  {
    if calls != [] {
      var c := calls[0];
      var s := Consume(t, c.id, c.nowMs);
      var rest := Run(s.table, calls[1..]);
      assert Run(t, calls).served[1..] == rest.served;
      var served := ServedFor(id, calls, Run(t, calls).served);
      var tail := ServedFor(id, calls[1..], rest.served);
      if c.id != id {
        assert s.table[id] == t[id];
        LimitedServes(s.table, id, n, calls[1..]);
        assert served == tail;
      } else if s.served.None? {
        AbsentNeverServed(s.table, id, calls[1..]);
        assert served == [];
      } else {
        assert n > 0;
        var row' := t[id].(remainingViews := Some(n - 1));
        assert s.table[id] == row';
        LimitedServes(s.table, id, n - 1, calls[1..]);
        assert served == [row'] + tail;
        forall i | 0 <= i < |served| ensures served[i] == t[id].(remainingViews := Some(n - 1 - i)) {
          if i > 0 { assert served[i] == tail[i - 1]; }
        }
      }
    }
  }

  /** Linearisability of the last view: when a paste has one view left and any number of
      callers race for it, the first of them (if the paste has not expired by then) gets it
      with `remaining_views = 0`, and every other caller gets "not found". */
  lemma LastViewServedOnce(t: Table, id: string, calls: seq<Call>)
    requires id in t && t[id].remainingViews == Some(1)
    requires forall i :: 0 <= i < |calls| ==> calls[i].id == id
    requires calls != [] && !Expired(t[id], calls[0].nowMs)
    ensures Run(t, calls).served[0] == Some(t[id].(remainingViews := Some(0)))
    ensures forall i :: 1 <= i < |calls| ==> Run(t, calls).served[i].None?
  {
    var s := Consume(t, id, calls[0].nowMs);
    var rest := Run(s.table, calls[1..]);
    assert Run(t, calls).served == [s.served] + rest.served;
    LimitedServes(s.table, id, 0, calls[1..]);
    ServedForAllSameId(id, calls[1..], rest.served);
    forall i | 1 <= i < |calls| ensures Run(t, calls).served[i].None? {
      assert Run(t, calls).served[i] == rest.served[i - 1];
    }
  }

  /** When every call asks for `id`, what is served to `id` is everything served,
      so an empty `ServedFor` means every call got "not found". */
  lemma {:induction false} ServedForAllSameId(id: string, calls: seq<Call>, served: seq<Option<PasteRow>>)
    requires |served| == |calls|
    requires forall i :: 0 <= i < |calls| ==> calls[i].id == id
    ensures ServedFor(id, calls, served) == [] ==> forall i :: 0 <= i < |served| ==> served[i].None?
    decreases |calls|
  {
    if calls != [] {
      ServedForAllSameId(id, calls[1..], served[1..]);
      if ServedFor(id, calls, served) == [] {
        forall i | 0 <= i < |served| ensures served[i].None? {
          if i > 0 { assert served[i] == served[1..][i - 1]; }
        }
      }
    }
  }

  /** Created with `remaining_views = n` and not expired at `now`: `n` consecutive
      consumes return `n - 1, ..., 0`, the next one returns "not found" and the row is gone. */
  lemma {:induction false} Countdown(t: Table, id: string, n: nat, nowMs: int)
    requires id in t && t[id].remainingViews == Some(n) && !Expired(t[id], nowMs)
    ensures var tr := Run(t, Repeat(Call(id, nowMs), n + 1));
      && (forall i :: 0 <= i < n ==> tr.served[i] == Some(t[id].(remainingViews := Some(n - 1 - i))))
      && tr.served[n].None?
      && tr.table == t - {id}
    decreases n
  {
    var calls := Repeat(Call(id, nowMs), n + 1);
    var s := Consume(t, id, nowMs);
    assert calls[1..] == Repeat(Call(id, nowMs), n);
    if n == 0 {
      assert Run(t, calls).served == [s.served];
    } else {
      var row' := t[id].(remainingViews := Some(n - 1));
      assert s.table == t[id := row'];
      Countdown(s.table, id, n - 1, nowMs);
      var rest := Run(s.table, calls[1..]);
      var tr := Run(t, calls);
      assert tr.served == [s.served] + rest.served;
      assert s.table[id := row'] - {id} == t - {id};
      forall i | 0 <= i < n ensures tr.served[i] == Some(t[id].(remainingViews := Some(n - 1 - i))) {
        if i > 0 { assert tr.served[i] == rest.served[i - 1]; }
      }
      assert tr.served[n] == rest.served[n - 1];
    }
  }

  /** A paste without a view limit that has not expired is served, unchanged, to every
      one of any number of consecutive consumes, and the table is never modified. */
  lemma {:induction false} UnlimitedRepeats(t: Table, id: string, nowMs: int, k: nat)
    requires id in t && t[id].remainingViews.None? && !Expired(t[id], nowMs)
    ensures Run(t, Repeat(Call(id, nowMs), k)).table == t
    ensures forall i :: 0 <= i < k ==> Run(t, Repeat(Call(id, nowMs), k)).served[i] == Some(t[id])
    decreases k
  {
    if k > 0 {
      var calls := Repeat(Call(id, nowMs), k);
      assert calls[1..] == Repeat(Call(id, nowMs), k - 1);
      UnlimitedRepeats(t, id, nowMs, k - 1);
      var tr := Run(t, calls);
      forall i | 0 <= i < k ensures tr.served[i] == Some(t[id]) {
        if i > 0 { assert tr.served[i] == Run(t, calls[1..]).served[i - 1]; }
      }
    }
  }
}
