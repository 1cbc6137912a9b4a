/** The update loop of the watcher process (main.go, processUpdates): it
    consumes service events in order, stops at the first nil event, keeps
    the last converted state and writes the state file only when the new
    state differs from the one it holds. */
module Watcher {
  import opened StateFile
  import opened Service

  /** A slot of the update channel: a service, or None for the nil sentinel. */
  datatype Option<T> = None | Some(value: T)

  /** What HostState.Save returns: nothing, or an error. */
  datatype SaveResult = Saved | Failed(message: string)

  /** One call of HostState.Save: the event that caused it, the path and the
      state written, and what the write returned. */
  datatype SaveAttempt = SaveAttempt(event: nat, path: string, state: HostState, result: SaveResult)

  /** The first n events are all services (none of them is the sentinel). */
  predicate AllServices(updates: seq<Option<Service>>, n: nat)
  {
    n <= |updates| && forall k :: 0 <= k < n ==> updates[k].Some?
  }

  /** The conversions of the first n events, in event order. */
  function Conversions(updates: seq<Option<Service>>, nameLabel: string, n: nat): (states: seq<HostState>)
    requires AllServices(updates, n)
    ensures |states| == n
    decreases n
  {
    if n == 0 then []
    else Conversions(updates, nameLabel, n - 1) + [HostStateOf(updates[n - 1].value, nameLabel)]
  }

  /** The state the loop holds when it receives event k: the zero state
      before the first event, and afterwards the conversion of the previous
      event, whatever became of that event's write. */
  function HeldBefore(states: seq<HostState>, k: nat): HostState
    requires k <= |states|
  {
    if k == 0 then ZeroState() else states[k - 1]
  }

  /** Event k leads to a write: its conversion is not the held state
      (SavesIffDiffers: exactly when Differs reports a change). */
  predicate SavesAt(states: seq<HostState>, k: nat)
    requires k < |states|
  {
    HeldBefore(states, k) != states[k]
  }

  /** The writes made while handling the first n events, whose conversions
      are `states`, in event order; `outcomes[k]` is what the write for
      event k returns. */
  function Attempts(path: string, states: seq<HostState>, outcomes: seq<SaveResult>, n: nat): seq<SaveAttempt>
    requires n <= |states| && n <= |outcomes|
    decreases n
  {
    if n == 0 then []
    else
      var k := n - 1;
      Attempts(path, states, outcomes, k)
        + if SavesAt(states, k) then [SaveAttempt(k, path, states[k], outcomes[k])] else []
  }

  /** The errors sent on the error channel: one per failed write, in order. */
  function FailedMessages(saves: seq<SaveAttempt>): seq<string>
  {
    if saves == [] then []
    else
      var last := saves[|saves| - 1];
      FailedMessages(saves[..|saves| - 1])
        + if last.result.Failed? then [last.result.message] else []
  }

  /** Handles the events in order until the first nil one (or the end of the
      sequence, when the channel is closed). For each service it converts the
      service, replaces the held state by the conversion, and, when the
      conversion differs from the state held before, saves it to `path`; a
      failed save emits its error and the loop goes on. The save outcome of
      event k is `outcomes[k]`. Returns how many events were handled, the
      held state at the end, the writes attempted and the errors emitted. */
  method ProcessUpdates(path: string, nameLabel: string,
                        updates: seq<Option<Service>>, outcomes: seq<SaveResult>)
    returns (processed: nat, held: HostState, saves: seq<SaveAttempt>, errors: seq<string>)
    requires |outcomes| == |updates|
    ensures AllServices(updates, processed)
    ensures processed < |updates| ==> updates[processed].None?
    ensures held == HeldBefore(Conversions(updates, nameLabel, processed), processed)
    ensures saves == Attempts(path, Conversions(updates, nameLabel, processed), outcomes, processed)
    ensures errors == FailedMessages(saves)
  {
    held := ZeroState();
    saves, errors := [], [];
    processed := 0;
    ghost var states: seq<HostState> := [];
    while processed < |updates|
      invariant AllServices(updates, processed)
      invariant states == Conversions(updates, nameLabel, processed)
      invariant held == HeldBefore(states, processed)
      invariant saves == Attempts(path, states, outcomes, processed)
      invariant errors == FailedMessages(saves)
    {
      var svc := updates[processed];
      if svc.None? {
        return;
      }
      var r := Updated(held, svc.value, nameLabel);
      ghost var next := states + [r.0];
      StepOfLoop(path, nameLabel, updates, outcomes, processed);
      var changed;
      held, changed := r.0, r.1;
      if changed {
        var err := outcomes[processed];  // the result of held.Save(path)
        var attempt := SaveAttempt(processed, path, held, err);
        FailedMessagesSnoc(saves, attempt);
        saves := saves + [attempt];
        if err.Failed? {
          errors := errors + [err.message];
        }
      }
      processed := processed + 1;
      states := next;
    }
  }

  /** After n events the held state is the conversion of the last one,
      whether or not its write succeeded; before any event it is the zero
      state. */
  lemma HeldIsLastConversion(updates: seq<Option<Service>>, nameLabel: string, n: nat)
    requires AllServices(updates, n)
    ensures n == 0 ==> HeldBefore(Conversions(updates, nameLabel, n), n) == ZeroState()
    ensures n > 0 ==> HeldBefore(Conversions(updates, nameLabel, n), n) == HostStateOf(updates[n - 1].value, nameLabel)
  {
  }

  /** One turn of the loop on event p: the held state, the comparison
      Updated reports and the next write agree with the specification. */
  lemma StepOfLoop(path: string, nameLabel: string, updates: seq<Option<Service>>,
                   outcomes: seq<SaveResult>, p: nat)
    requires AllServices(updates, p + 1) && |outcomes| == |updates|
    ensures var states := Conversions(updates, nameLabel, p);
      var r := Updated(HeldBefore(states, p), updates[p].value, nameLabel);
      var next := states + [r.0];
      next == Conversions(updates, nameLabel, p + 1)
      && r.1 == SavesAt(next, p)
      && Attempts(path, next, outcomes, p + 1) == Attempts(path, states, outcomes, p)
           + if r.1 then [SaveAttempt(p, path, r.0, outcomes[p])] else []
  {
    var states := Conversions(updates, nameLabel, p);
    var r := Updated(HeldBefore(states, p), updates[p].value, nameLabel);
    var next := states + [r.0];
    assert next == Conversions(updates, nameLabel, p + 1);
    SavesIffDiffers(next, p);
    assert HeldBefore(next, p) == HeldBefore(states, p);
    AttemptsPrefix(path, states, outcomes, next, outcomes, p);
    assert next[p] == r.0;
  }

  /** Conversions holds the conversion of each event at its position. */
  lemma {:induction false} ConversionsAt(updates: seq<Option<Service>>, nameLabel: string, n: nat)
    requires AllServices(updates, n)
    ensures forall k :: 0 <= k < n ==>
      Conversions(updates, nameLabel, n)[k] == HostStateOf(updates[k].value, nameLabel)
    decreases n
  {
    if n > 0 {
      ConversionsAt(updates, nameLabel, n - 1);
    }
  }

  /** Every write made for the first n events belongs to an event whose
      conversion differs from the state held before it, writes that
      conversion to `path` and carries that event's outcome; the writes come
      in strictly increasing event order, at most one per event. */
  lemma {:induction false} AttemptsSound(path: string, states: seq<HostState>,
                                        outcomes: seq<SaveResult>, n: nat)
    requires n <= |states| && n <= |outcomes|
    ensures |Attempts(path, states, outcomes, n)| <= n
    ensures var a := Attempts(path, states, outcomes, n);
      forall j :: 0 <= j < |a| ==>
        a[j].event < n && SavesAt(states, a[j].event)
        && a[j] == SaveAttempt(a[j].event, path, states[a[j].event], outcomes[a[j].event])
    ensures var a := Attempts(path, states, outcomes, n);
      forall i, j :: 0 <= i < j < |a| ==> a[i].event < a[j].event
    decreases n
  {
    if n > 0 {
      var k := n - 1;
      AttemptsSound(path, states, outcomes, k);
      var prev := Attempts(path, states, outcomes, k);
      var a := Attempts(path, states, outcomes, n);
      assert a[..|prev|] == prev;
      if SavesAt(states, k) {
        assert a[|prev|].event == k;
      } else {
        assert a == prev;
      }
    }
  }

  /** Some write in `a` was made for event e. */
  predicate WrittenFor(a: seq<SaveAttempt>, e: nat)
  {
    exists j :: 0 <= j < |a| && a[j].event == e
  }

  lemma WrittenForAppend(p: seq<SaveAttempt>, t: seq<SaveAttempt>, e: nat)
    ensures WrittenFor(p + t, e) <==> WrittenFor(p, e) || WrittenFor(t, e)
  {
    if WrittenFor(p + t, e) {
      var j :| 0 <= j < |p + t| && (p + t)[j].event == e;
      if j < |p| {
        assert p[j] == (p + t)[j];
      } else {
        assert t[j - |p|] == (p + t)[j];
      }
    }
    if WrittenFor(p, e) {
      var j :| 0 <= j < |p| && p[j].event == e;
      assert (p + t)[j] == p[j];
    }
    if WrittenFor(t, e) {
      var j :| 0 <= j < |t| && t[j].event == e;
      assert (p + t)[|p| + j] == t[j];
    }
  }

  /** No write made for the first n events belongs to a later event. */
  lemma {:induction false} AttemptsBefore(path: string, states: seq<HostState>,
                                         outcomes: seq<SaveResult>, n: nat, e: nat)
    requires n <= |states| && n <= |outcomes| && n <= e
    ensures !WrittenFor(Attempts(path, states, outcomes, n), e)
    decreases n
  {
    if n > 0 {
      var k := n - 1;
      AttemptsBefore(path, states, outcomes, k, e);
      var tail := if SavesAt(states, k) then [SaveAttempt(k, path, states[k], outcomes[k])] else [];
      WrittenForAppend(Attempts(path, states, outcomes, k), tail, e);
    }
  }

  /** Among the first n events, a write is made for event k exactly when
      its conversion differs from the state held before it. */
  lemma {:induction false} AttemptsComplete(path: string, states: seq<HostState>,
                                           outcomes: seq<SaveResult>, n: nat)
    requires n <= |states| && n <= |outcomes|
    ensures forall k :: 0 <= k < n ==>
      (SavesAt(states, k) <==> WrittenFor(Attempts(path, states, outcomes, n), k))
    decreases n
  {
    if n > 0 {
      var k := n - 1;
      AttemptsComplete(path, states, outcomes, k);
      var prev := Attempts(path, states, outcomes, k);
      var tail := if SavesAt(states, k) then [SaveAttempt(k, path, states[k], outcomes[k])] else [];
      forall e | 0 <= e < n
        ensures SavesAt(states, e) <==> WrittenFor(Attempts(path, states, outcomes, n), e)
      {
        WrittenForAppend(prev, tail, e);
        if e == k {
          AttemptsBefore(path, states, outcomes, k, e);
          assert SavesAt(states, k) ==> tail[0].event == k;
        }
      }
    }
  }

  /** The writes for the first n events depend only on the first n
      conversions and outcomes. */
  lemma {:induction false} AttemptsPrefix(path: string, s: seq<HostState>, so: seq<SaveResult>,
                                         t: seq<HostState>, to: seq<SaveResult>, n: nat)
    requires n <= |s| && n <= |so| && n <= |t| && n <= |to|
    requires s[..n] == t[..n] && so[..n] == to[..n]
    ensures Attempts(path, s, so, n) == Attempts(path, t, to, n)
    decreases n
  {
    if n > 0 {
      var k := n - 1;
      assert s[..k] == s[..n][..k] && t[..k] == t[..n][..k];
      assert so[..k] == so[..n][..k] && to[..k] == to[..n][..k];
      AttemptsPrefix(path, s, so, t, to, k);
      assert s[k] == s[..n][k] && t[k] == t[..n][k] && so[k] == so[..n][k] && to[k] == to[..n][k];
      if k > 0 {
        assert s[k - 1] == s[..n][k - 1] && t[k - 1] == t[..n][k - 1];
      }
    }
  }

  /** A write adds its own error to the list when it failed, and nothing
      when it succeeded. */
  lemma FailedMessagesSnoc(s: seq<SaveAttempt>, a: SaveAttempt)
    ensures FailedMessages(s + [a]) ==
      FailedMessages(s) + if a.result.Failed? then [a.result.message] else []
  {
    assert (s + [a])[..|s|] == s;
  }

  /** Errors come one per failed write, in order: the error list of two
      runs of writes is the concatenation of theirs. */
  lemma {:induction false} FailedMessagesAppend(s: seq<SaveAttempt>, t: seq<SaveAttempt>)
    ensures FailedMessages(s + t) == FailedMessages(s) + FailedMessages(t)
    decreases |t|
  {
    if t == [] {
      assert s + t == s;
    } else {
      var init, last := t[..|t| - 1], t[|t| - 1];
      var m := if last.result.Failed? then [last.result.message] else [];
      assert t == init + [last];
      calc {
        FailedMessages(s + t);
        { assert s + t == (s + init) + [last]; }
        FailedMessages((s + init) + [last]);
        { FailedMessagesSnoc(s + init, last); }
        FailedMessages(s + init) + m;
        { FailedMessagesAppend(s, init); }
        FailedMessages(s) + FailedMessages(init) + m;
        { FailedMessagesSnoc(init, last); }
        FailedMessages(s) + FailedMessages(t);
      }
    }
  }

  /** There are never more errors than writes, and there are none exactly
      when every write succeeded. */
  lemma {:induction false} FailedMessagesBound(s: seq<SaveAttempt>)
    ensures |FailedMessages(s)| <= |s|
    ensures FailedMessages(s) == [] <==> forall j :: 0 <= j < |s| ==> s[j].result.Saved?
    decreases |s|
  {
    if s != [] {
      var init := s[..|s| - 1];
      FailedMessagesBound(init);
      if FailedMessages(s) == [] {
        forall j | 0 <= j < |s| ensures s[j].result.Saved? {
          if j < |s| - 1 { assert s[j] == init[j]; }
        }
      }
    }
  }

  /** Errors emitted <= writes attempted <= events handled. */
  lemma RunBounds(path: string, states: seq<HostState>, outcomes: seq<SaveResult>, n: nat)
    requires n <= |states| && n <= |outcomes|
    ensures |FailedMessages(Attempts(path, states, outcomes, n))|
      <= |Attempts(path, states, outcomes, n)| <= n
  {
    AttemptsSound(path, states, outcomes, n);
    FailedMessagesBound(Attempts(path, states, outcomes, n));
  }

  /** Event k is written exactly when Differs reports that its conversion
      differs from the state held before it. Whether it is written does not
      depend on any earlier write's outcome: the first event is compared
      with the zero state, a later one with the previous event's
      conversion. */
  lemma SavesIffDiffers(states: seq<HostState>, k: nat)
    requires k < |states|
    ensures SavesAt(states, k) <==>
      Differs(if k == 0 then ZeroState() else states[k - 1], states[k])
  {
    DiffersIsInequality(HeldBefore(states, k), states[k]);
  }

  /** The first event, when it is a service, is always written: no
      converted reference is empty. */
  lemma FirstEventSaves(path: string, nameLabel: string,
                        updates: seq<Option<Service>>, outcomes: seq<SaveResult>)
    requires |updates| > 0 && updates[0].Some? && |outcomes| == |updates|
    ensures AllServices(updates, 1)
    ensures Attempts(path, Conversions(updates, nameLabel, 1), outcomes, 1)
      == [SaveAttempt(0, path, HostStateOf(updates[0].value, nameLabel), outcomes[0])]
  {
    assert AllServices(updates, 1);
    ConvertedDiffersFromZero(updates[0].value, nameLabel);
    DiffersIrreflexive(ZeroState());
    assert Conversions(updates, nameLabel, 1) == [HostStateOf(updates[0].value, nameLabel)];
  }

  /** In a run of consecutive events that convert to the same state, only
      the first can be written; the others are not, whether or not that
      first write failed. */
  lemma SameStateNotResaved(path: string, states: seq<HostState>, outcomes: seq<SaveResult>,
                            first: nat, last: nat)
    requires first <= last < |states| && last < |outcomes|
    requires forall j :: first <= j <= last ==> states[j] == states[first]
    ensures var a := Attempts(path, states, outcomes, last + 1);
      forall j :: 0 <= j < |a| ==> !(first < a[j].event <= last)
  {
    AttemptsSound(path, states, outcomes, last + 1);
    forall k | first < k <= last ensures !SavesAt(states, k) {
      assert states[k - 1] == states[first];
    }
  }

  /** A failed write is not retried: when the write for event k fails and
      event k + 1 converts to the same state, no write is made for event
      k + 1, because the held state was already replaced before the write. */
  lemma FailedSaveNotRetried(path: string, states: seq<HostState>, outcomes: seq<SaveResult>,
                             k: nat, n: nat)
    requires k + 1 < n <= |states| && n <= |outcomes|
    requires outcomes[k].Failed? && states[k + 1] == states[k]
    ensures !WrittenFor(Attempts(path, states, outcomes, n), k + 1)
  {
    AttemptsComplete(path, states, outcomes, n);
  }

  /** The conversions of the first n events depend only on those events. */
  lemma {:induction false} ConversionsPrefix(u: seq<Option<Service>>, v: seq<Option<Service>>,
                                            nameLabel: string, n: nat)
    requires AllServices(u, n) && n <= |v| && u[..n] == v[..n]
    ensures AllServices(v, n)
    ensures Conversions(u, nameLabel, n) == Conversions(v, nameLabel, n)
    decreases n
  {
    forall k | 0 <= k < n ensures u[k] == v[k] {
      assert u[..n][k] == u[k] && v[..n][k] == v[k];
    }
    if n > 0 {
      assert u[..n - 1] == u[..n][..n - 1] && v[..n - 1] == v[..n][..n - 1];
      ConversionsPrefix(u, v, nameLabel, n - 1);
    }
  }

  /** Nothing after the sentinel matters: two event sequences that agree up
      to and including the first nil event, with the same outcomes before
      it, stop at the same place with the same conversions and the same
      writes, whatever events follow. */
  lemma LaterEventsIgnored(path: string, nameLabel: string,
                           u: seq<Option<Service>>, uo: seq<SaveResult>,
                           v: seq<Option<Service>>, vo: seq<SaveResult>, n: nat)
    requires AllServices(u, n) && n < |u| && u[n].None? && |uo| == |u|
    requires n < |v| && |vo| == |v| && u[..n + 1] == v[..n + 1] && uo[..n] == vo[..n]
    ensures AllServices(v, n) && v[n].None?
    ensures Conversions(u, nameLabel, n) == Conversions(v, nameLabel, n)
    ensures Attempts(path, Conversions(u, nameLabel, n), uo, n)
         == Attempts(path, Conversions(v, nameLabel, n), vo, n)
  {
    assert u[..n] == u[..n + 1][..n] && v[..n] == v[..n + 1][..n];
    assert u[..n + 1][n] == u[n] && v[..n + 1][n] == v[n];
    ConversionsPrefix(u, v, nameLabel, n);
    var s := Conversions(u, nameLabel, n);
    AttemptsPrefix(path, s, uo, s, vo, n);
  }
}
