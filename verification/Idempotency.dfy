/** The idempotency store: one handler at a time for a key, one success, and
    replays from then on.

    `Execute` takes the lock twice, to claim the key and to record the outcome;
    each locked section is one step, and any number of calls may be between
    their two steps. The clock is any sequence of readings: a claim reads it once to see
    whether a record has expired and once more for a record's new date, and a purge reads
    it for every record. */
module Idempotency {
  import opened ByteStrings

  datatype Status = InProgress | Completed | Failed

  datatype Reply = Reply(response: Str, statusCode: int)

  datatype Record = Record(fingerprint: Str, status: Status, reply: Reply, createdAt: int)

  /** `running` names the calls whose handler runs; `done` the success of each key. */
  datatype State = State(records: map<Str, Record>, running: map<nat, Str>, done: map<Str, Reply>)

  datatype Claim = KeyRequired | Mismatch | Conflict | Replayed(reply: Reply) | Run

  datatype Handled = HandlerError | Success(reply: Reply)

  datatype Outcome = Vanished | Error | Answer(reply: Reply)

  // ---------------------------------------------------------------------- steps

  predicate Expired(r: Record, ttl: int, now: int) {
    ttl > 0 && now - r.createdAt > ttl
  }

  function Start(s: State, call: nat, key: Str, fingerprint: Str, date: int): State {
    s.(records := s.records[key := Record(fingerprint, InProgress, Reply([], 0), date)],
        running := s.running[call := key])
  }

  /** Forgets a record; what succeeded under it is forgotten with it. */
  function Forget(s: State, keys: set<Str>): State {
    s.(records := s.records - keys, done := s.done - keys)
  }

  function ClaimStep(s: State, ttl: int, now: int, date: int, call: nat, key: Str, fingerprint: Str): (State, Claim) {
    if key == [] then (s, KeyRequired)
    else if key !in s.records then (Start(s, call, key, fingerprint, date), Run)
    else if Expired(s.records[key], ttl, now) then (Start(Forget(s, {key}), call, key, fingerprint, date), Run)
    else if s.records[key].fingerprint != fingerprint then (s, Mismatch)
    else match s.records[key].status
      case InProgress => (s, Conflict)
      case Completed => (s, Replayed(s.records[key].reply))
      case Failed =>
        (s.(records := s.records[key := s.records[key].(status := InProgress, createdAt := date)],
            running := s.running[call := key]), Run)
  }

  function FinishStep(s: State, call: nat, h: Handled): (State, Outcome)
    requires call in s.running
  {
    var key, s' := s.running[call], s.(running := s.running - {call});
    if key !in s.records then (s', Vanished)
    else match h
      case HandlerError => (s'.(records := s.records[key := s.records[key].(status := Failed)]), Error)
      case Success(reply) =>
        (s'.(records := s.records[key := s.records[key].(status := Completed, reply := reply)],
            done := s.done[key := reply]), Answer(reply))
  }

  /** `now(k)` is what the clock says when record k is looked at. */
  ghost function ExpiredKeys(s: State, ttl: int, now: Str -> int): set<Str> {
    set k | k in s.records && Expired(s.records[k], ttl, now(k))
  }

  ghost function PurgeStep(s: State, ttl: int, now: Str -> int): State {
    Forget(s, ExpiredKeys(s, ttl, now))
  }

  // ------------------------------------------------------------------- invariant

  /** No two handlers run for one key. */
  ghost predicate OneRunner(s: State) {
    forall c, d :: c in s.running && d in s.running && c != d ==> s.running[c] != s.running[d]
  }

  ghost predicate IsRunning(s: State, key: Str) {
    exists c :: c in s.running && s.running[c] == key
  }

  ghost predicate Inv(s: State) {
    && OneRunner(s)
    && (forall c :: c in s.running ==> s.running[c] in s.records && s.records[s.running[c]].status == InProgress)
    && (forall k :: k in s.records && s.records[k].status == InProgress ==> IsRunning(s, k))
    && (forall k :: k in s.done ==>
      k in s.records && s.records[k].status == Completed && s.records[k].reply == s.done[k])
    && (forall k :: k in s.records && s.records[k].status == Completed ==> k in s.done)
  }

  /** The record of a running handler has run out. */
  ghost predicate OutlivesItsRecord(s: State, ttl: int, now: int, key: Str) {
    key in s.records && s.records[key].status == InProgress && Expired(s.records[key], ttl, now)
  }

  /** A claim keeps everything exactly when it does not find the record of a running handler expired. */
  lemma ClaimKeepsInv(s: State, ttl: int, now: int, date: int, call: nat, key: Str, fingerprint: Str)
    requires Inv(s) && call !in s.running
    ensures var s' := ClaimStep(s, ttl, now, date, call, key, fingerprint).0;
            && (Inv(s') <==> key == [] || !OutlivesItsRecord(s, ttl, now, key))
            && (OneRunner(s') <==> key == [] || !OutlivesItsRecord(s, ttl, now, key))
  {
    var (s', claim) := ClaimStep(s, ttl, now, date, call, key, fingerprint);
    if key != [] && OutlivesItsRecord(s, ttl, now, key) {
      TwoRunners(s, s', call, key);
    } else if claim == Run {
      RunKeepsInv(s, s', call, key);
    }
  }

  /** With a lifetime of 1, a handler begun at 0 is joined by a second one at 2. */
  lemma ExpiryStartsASecond(fingerprint: Str)
    ensures var s := ClaimStep(INITIAL, 1, 0, 0, 0, [1], fingerprint).0;
            var (s', claim) := ClaimStep(s, 1, 2, 2, 1, [1], fingerprint);
            && Inv(s) && claim == Run && s'.running == map[0 := [1], 1 := [1]] && !OneRunner(s')
  {
    InitialInv();
    ClaimKeepsInv(INITIAL, 1, 0, 0, 0, [1], fingerprint);
    var s := ClaimStep(INITIAL, 1, 0, 0, 0, [1], fingerprint).0;
    assert IsRunning(s, [1]) by { assert 0 in s.running; }
    TwoRunners(s, ClaimStep(s, 1, 2, 2, 1, [1], fingerprint).0, 1, [1]);
  }

  /** A second handler for a key that has one. */
  lemma TwoRunners(s: State, s': State, call: nat, key: Str)
    requires IsRunning(s, key) && call !in s.running && s'.running == s.running[call := key]
    ensures !OneRunner(s')
  {
    var c :| c in s.running && s.running[c] == key;
    assert c in s'.running && call in s'.running && s'.running[c] == s'.running[call];
  }

  /** A first handler for a key, whose record it starts or takes up again. */
  lemma RunKeepsInv(s: State, s': State, call: nat, key: Str)
    requires Inv(s) && call !in s.running && s'.running == s.running[call := key]
    requires key in s.records ==> s.records[key].status != InProgress
    requires key in s'.records && s'.records[key].status == InProgress && s'.done == s.done - {key}
    requires s'.records == s.records[key := s'.records[key]]
    ensures Inv(s')
  {
    StillRunning(s, s', call, key);
  }

  lemma StillRunning(s: State, s': State, call: nat, key: Str)
    requires Inv(s) && call !in s.running && s'.running == s.running[call := key]
    ensures forall k :: IsRunning(s, k) ==> IsRunning(s', k)
    ensures IsRunning(s', key)
  {
    forall k | IsRunning(s, k) ensures IsRunning(s', k) {
      var c :| c in s.running && s.running[c] == k;
      assert c in s'.running && s'.running[c] == k;
    }
    assert call in s'.running && s'.running[call] == key;
  }

  /** The end of a handler finds its record, and is the only success its key can have. */
  lemma FinishKeepsInv(s: State, call: nat, h: Handled)
    requires Inv(s) && call in s.running
    ensures var (s', outcome) := FinishStep(s, call, h);
            && Inv(s') && s.running[call] !in s.done
            && outcome == (if h.Success? then Answer(h.reply) else Error)
            && (h.Success? ==> s'.done == s.done[s.running[call] := h.reply])
            && (h.HandlerError? ==> s'.done == s.done)
  {
    var s' := FinishStep(s, call, h).0;
    forall k | k in s'.records && s'.records[k].status == InProgress ensures IsRunning(s', k) {
      assert IsRunning(s, k);
      var c :| c in s.running && s.running[c] == k;
      assert c in s'.running && s'.running[c] == k;
    }
  }

  /** A purge keeps everything exactly when it finds no running handler's record expired. */
  lemma PurgeKeepsInv(s: State, ttl: int, now: Str -> int)
    requires Inv(s)
    ensures Inv(PurgeStep(s, ttl, now)) <==> forall k :: k in s.records ==> !OutlivesItsRecord(s, ttl, now(k), k)
  {
    var s' := PurgeStep(s, ttl, now);
    forall k | k in s.records && OutlivesItsRecord(s, ttl, now(k), k) ensures !Inv(s') {
      assert IsRunning(s, k);
      var c :| c in s.running && s.running[c] == k;
      assert c in s'.running && s'.running[c] !in s'.records;
    }
    assert forall k :: IsRunning(s, k) <==> IsRunning(s', k);
  }

  // -------------------------------------------------------------------- whole runs

  datatype Action =
    | Claims(call: nat, key: Str, fingerprint: Str, now: int, date: int)
    | Finishes(call: nat, h: Handled)
    | Purges(clock: Str -> int)

  /** Steps that do not meet the expired record of a running handler. */
  ghost predicate Safe(s: State, ttl: int, a: Action) {
    match a
    case Claims(_, key, _, now, _) => key == [] || !OutlivesItsRecord(s, ttl, now, key)
    case Finishes(_, _) => true
    case Purges(clock) => forall k :: k in s.records ==> !OutlivesItsRecord(s, ttl, clock(k), k)
  }

  ghost predicate Enabled(s: State, a: Action) {
    match a
    case Claims(call, _, _, _, _) => call !in s.running
    case Finishes(call, _) => call in s.running
    case Purges(_) => true
  }

  ghost function StepOf(s: State, ttl: int, a: Action): State {
    match a
    case Claims(call, key, fingerprint, now, date) => ClaimStep(s, ttl, now, date, call, key, fingerprint).0
    case Finishes(call, h) => if call in s.running then FinishStep(s, call, h).0 else s
    case Purges(clock) => PurgeStep(s, ttl, clock)
  }

  /** A claim as a step: the new state and the answer. */
  function ClaimOf(s: State, ttl: int, a: Action): (State, Claim)
    requires a.Claims?
  {
    ClaimStep(s, ttl, a.now, a.date, a.call, a.key, a.fingerprint)
  }

  const INITIAL := State(map[], map[], map[])

  /** Steps one after the other, and the states between them. */
  datatype Trace = Trace(actions: seq<Action>, states: seq<State>)

  ghost predicate IsRun(ttl: int, run: Trace) {
    && |run.states| == |run.actions| + 1 && run.states[0] == INITIAL
    && forall n :: 0 <= n < |run.actions| ==> Steps(ttl, run.states[n], run.actions[n], run.states[n + 1])
  }

  ghost predicate Steps(ttl: int, s: State, a: Action, s': State) {
    Enabled(s, a) && s' == StepOf(s, ttl, a)
  }

  /** Up to step n no record expires while its handler runs and is then met. */
  ghost predicate SafeUpto(ttl: int, run: Trace, n: nat)
    requires n <= |run.actions| < |run.states|
  {
    n == 0 || (SafeUpto(ttl, run, n - 1) && Safe(run.states[n - 1], ttl, run.actions[n - 1]))
  }

  ghost predicate InvUpto(run: Trace, n: nat)
    requires n < |run.states|
  {
    Inv(run.states[n]) && (n == 0 || InvUpto(run, n - 1))
  }

  lemma InitialInv()
    ensures Inv(INITIAL)
  {
  }

  lemma StepKeepsInv(ttl: int, s: State, a: Action, s': State)
    requires Inv(s) && Steps(ttl, s, a, s')
    ensures Inv(s') <==> Safe(s, ttl, a)
  {
    match a {
      case Claims(call, key, fingerprint, now, date) => ClaimKeepsInv(s, ttl, now, date, call, key, fingerprint);
      case Finishes(call, h) => FinishKeepsInv(s, call, h);
      case Purges(clock) => PurgeKeepsInv(s, ttl, clock);
    }
  }

  lemma StepAt(ttl: int, run: Trace, n: nat)
    requires IsRun(ttl, run) && n < |run.actions|
    ensures Inv(run.states[n]) ==> (Inv(run.states[n + 1]) <==> Safe(run.states[n], ttl, run.actions[n]))
  {
    if Inv(run.states[n]) {
      StepKeepsInv(ttl, run.states[n], run.actions[n], run.states[n + 1]);
    }
  }

  /** In a run the invariant, and with it one handler a key, holds up to a point exactly
      when no step before met the expired record of a running handler. */
  lemma {:induction false} RunsKeepInv(ttl: int, run: Trace, n: nat)
    requires IsRun(ttl, run) && n <= |run.actions|
    ensures SafeUpto(ttl, run, n) <==> InvUpto(run, n)
  {
    if n == 0 {
      InitialInv();
    } else {
      RunsKeepInv(ttl, run, n - 1);
      StepAt(ttl, run, n - 1);
    }
  }

  lemma InvAt(ttl: int, run: Trace, n: nat)
    requires IsRun(ttl, run) && n <= |run.actions| && SafeUpto(ttl, run, n)
    ensures Inv(run.states[n])
  {
    RunsKeepInv(ttl, run, n);
  }

  lemma {:induction false} SafeBefore(ttl: int, run: Trace, m: nat, n: nat)
    requires m <= n <= |run.actions| < |run.states| && SafeUpto(ttl, run, n)
    ensures SafeUpto(ttl, run, m)
    decreases n
  {
    if m < n {
      SafeBefore(ttl, run, m, n - 1);
    }
  }

  /** The step drops the record of a key because it has expired. */
  ghost predicate Forgets(s: State, ttl: int, a: Action, key: Str) {
    match a
    case Claims(_, k, _, now, _) => k == key && key in s.records && Expired(s.records[key], ttl, now)
    case Finishes(_, _) => false
    case Purges(clock) => key in ExpiredKeys(s, ttl, clock)
  }

  /** No step from i on, before n, drops the record of the key. */
  ghost predicate Remembers(ttl: int, run: Trace, i: nat, n: nat, key: Str)
    requires n <= |run.actions| < |run.states|
  {
    forall j :: i <= j < n ==> !Forgets(run.states[j], ttl, run.actions[j], key)
  }

  /** The record of a key is there still, with its body; and so is a success. */
  ghost predicate KeepsRecord(s: State, s': State, key: Str) {
    && key in s.records && key in s'.records && s'.records[key].fingerprint == s.records[key].fingerprint
    && (key in s.done ==> key in s'.done && s'.done[key] == s.done[key])
  }

  lemma StepRemembers(ttl: int, s: State, a: Action, s': State, key: Str)
    requires Inv(s) && Steps(ttl, s, a, s') && !Forgets(s, ttl, a, key) && key in s.records
    ensures KeepsRecord(s, s', key)
  {
    if a.Finishes? {
      FinishKeepsInv(s, a.call, a.h);
    }
  }

  lemma StepRemembersAt(ttl: int, run: Trace, n: nat, key: Str)
    requires IsRun(ttl, run) && n < |run.actions| && SafeUpto(ttl, run, n)
    requires key in run.states[n].records && !Forgets(run.states[n], ttl, run.actions[n], key)
    ensures KeepsRecord(run.states[n], run.states[n + 1], key)
  {
    InvAt(ttl, run, n);
    StepRemembers(ttl, run.states[n], run.actions[n], run.states[n + 1], key);
  }

  lemma {:induction false} RunRemembers(ttl: int, run: Trace, i: nat, n: nat, key: Str)
    requires IsRun(ttl, run) && i <= n <= |run.actions| && SafeUpto(ttl, run, n)
    requires key in run.states[i].records && Remembers(ttl, run, i, n, key)
    ensures KeepsRecord(run.states[i], run.states[n], key)
    decreases n
  {
    if i < n {
      RunRemembers(ttl, run, i, n - 1, key);
      StepRemembersAt(ttl, run, n - 1, key);
    }
  }

  /** The step is the success of a handler for `key`. */
  ghost predicate IsSuccess(s: State, a: Action, key: Str) {
    a.Finishes? && a.h.Success? && a.call in s.running && s.running[a.call] == key
  }

  ghost predicate Succeeds(run: Trace, i: nat, key: Str)
    requires i < |run.actions| < |run.states|
  {
    IsSuccess(run.states[i], run.actions[i], key)
  }

  lemma SuccessIsNew(ttl: int, s: State, a: Action, s': State, key: Str)
    requires Inv(s) && Steps(ttl, s, a, s') && IsSuccess(s, a, key)
    ensures key !in s.done && KeepsRecord(s, s', key) && key in s'.done && s'.done[key] == a.h.reply
  {
    FinishKeepsInv(s, a.call, a.h);
  }

  lemma SuccessRecorded(ttl: int, run: Trace, i: nat, key: Str)
    requires IsRun(ttl, run) && i < |run.actions| && SafeUpto(ttl, run, i) && Succeeds(run, i, key)
    ensures var s, s' := run.states[i], run.states[i + 1];
            key !in s.done && KeepsRecord(s, s', key) && key in s'.done && s'.done[key] == run.actions[i].h.reply
  {
    InvAt(ttl, run, i);
    SuccessIsNew(ttl, run.states[i], run.actions[i], run.states[i + 1], key);
  }

  /** A success and its body, as long as the record is not dropped. */
  lemma SuccessLasts(ttl: int, run: Trace, i: nat, n: nat, key: Str)
    requires IsRun(ttl, run) && i < n <= |run.actions| && SafeUpto(ttl, run, n)
    requires Succeeds(run, i, key) && Remembers(ttl, run, i + 1, n, key)
    ensures var s, s' := run.states[i], run.states[n];
            KeepsRecord(s, s', key) && key in s'.done && s'.done[key] == run.actions[i].h.reply
  {
    SafeBefore(ttl, run, i, n);
    SuccessRecorded(ttl, run, i, key);
    RunRemembers(ttl, run, i + 1, n, key);
  }

  /** Between two droppings of its record a key succeeds at most once. */
  lemma OneSuccessPerKey(ttl: int, run: Trace, i: nat, j: nat, key: Str)
    requires IsRun(ttl, run) && i < j < |run.actions| && SafeUpto(ttl, run, j)
    requires Succeeds(run, i, key) && Remembers(ttl, run, i + 1, j, key)
    ensures !Succeeds(run, j, key)
  {
    SuccessLasts(ttl, run, i, j, key);
    if Succeeds(run, j, key) {
      SuccessRecorded(ttl, run, j, key);
    }
  }

  lemma AnsweredFromRecord(s: State, ttl: int, now: int, date: int, call: nat, key: Str, fingerprint: Str)
    requires Inv(s) && key in s.done && key != [] && !Expired(s.records[key], ttl, now)
    ensures ClaimStep(s, ttl, now, date, call, key, fingerprint) ==
      (s, if fingerprint == s.records[key].fingerprint then Replayed(s.done[key]) else Mismatch)
  {
  }

  /** After a success, until its record is dropped, a call with the same body is answered
      with that success, one with any other body is refused, and neither runs anything. */
  lemma LaterCallsReplay(ttl: int, run: Trace, i: nat, n: nat, key: Str)
    requires IsRun(ttl, run) && i < n < |run.actions| && SafeUpto(ttl, run, n)
    requires Succeeds(run, i, key) && Remembers(ttl, run, i + 1, n + 1, key)
    requires run.actions[n].Claims? && run.actions[n].key == key != []
    ensures var s, a := run.states[n], run.actions[n];
            && key in run.states[i].records
            && ClaimOf(s, ttl, a) ==
                 (s, if a.fingerprint == run.states[i].records[key].fingerprint
                     then Replayed(run.actions[i].h.reply) else Mismatch)
  {
    var s, a := run.states[n], run.actions[n];
    SuccessLasts(ttl, run, i, n, key);
    InvAt(ttl, run, n);
    assert !Forgets(s, ttl, a, key);
    AnsweredFromRecord(s, ttl, a.now, a.date, a.call, key, a.fingerprint);
  }

  /** From the claim of a key on, until its record is dropped, no other body runs. */
  lemma OtherBodyNeverRuns(ttl: int, run: Trace, i: nat, n: nat, key: Str)
    requires IsRun(ttl, run) && i <= n < |run.actions| && SafeUpto(ttl, run, n)
    requires key in run.states[i].records && Remembers(ttl, run, i, n + 1, key)
    requires run.actions[n].Claims? && run.actions[n].key == key != []
    requires run.actions[n].fingerprint != run.states[i].records[key].fingerprint
    ensures var s, a := run.states[n], run.actions[n];
            ClaimOf(s, ttl, a) == (s, Mismatch)
  {
    RunRemembers(ttl, run, i, n, key);
    assert !Forgets(run.states[n], ttl, run.actions[n], key);
  }

  /** The step is the error of a handler for `key`. */
  ghost predicate IsFailure(s: State, a: Action, key: Str) {
    a.Finishes? && a.h.HandlerError? && a.call in s.running && s.running[a.call] == key
  }

  /** No handler for `key` fails from step i on, before n. */
  ghost predicate NoneFails(run: Trace, i: nat, n: nat, key: Str)
    requires n <= |run.actions| < |run.states|
  {
    forall j :: i <= j < n ==> !IsFailure(run.states[j], run.actions[j], key)
  }

  /** The key has a record, of a handler that runs or has succeeded. */
  ghost predicate IsHeld(s: State, key: Str) {
    key in s.records && s.records[key].status != Failed
  }

  lemma StepHolds(ttl: int, s: State, a: Action, s': State, key: Str)
    requires Steps(ttl, s, a, s') && IsHeld(s, key) && !Forgets(s, ttl, a, key) && !IsFailure(s, a, key)
    ensures IsHeld(s', key)
  {
  }

  lemma {:induction false} StaysHeld(ttl: int, run: Trace, i: nat, n: nat, key: Str)
    requires IsRun(ttl, run) && i <= n <= |run.actions| && IsHeld(run.states[i], key)
    requires Remembers(ttl, run, i, n, key) && NoneFails(run, i, n, key)
    ensures IsHeld(run.states[n], key)
    decreases n
  {
    if i < n {
      StaysHeld(ttl, run, i, n - 1, key);
      StepHolds(ttl, run.states[n - 1], run.actions[n - 1], run.states[n], key);
    }
  }

  /** Once a claim of a key has run its handler, no other claim does, until a handler for the
      key fails or its record is dropped. */
  lemma RunsOnce(ttl: int, run: Trace, i: nat, n: nat, key: Str)
    requires IsRun(ttl, run) && i < n < |run.actions|
    requires run.actions[i].Claims? && run.actions[i].key == key && ClaimOf(run.states[i], ttl, run.actions[i]).1 == Run
    requires run.actions[n].Claims? && run.actions[n].key == key
    requires Remembers(ttl, run, i + 1, n + 1, key) && NoneFails(run, i + 1, n, key)
    ensures ClaimOf(run.states[n], ttl, run.actions[n]).1 != Run
  {
    assert Steps(ttl, run.states[i], run.actions[i], run.states[i + 1]);
    StaysHeld(ttl, run, i + 1, n, key);
    assert !Forgets(run.states[n], ttl, run.actions[n], key);
  }

  /** While a handler for a key runs, every other claim of the key is refused and changes nothing:
      with the same body as a duplicate, with another as a mismatch. */
  lemma DuplicatesAreRefused(ttl: int, run: Trace, n: nat, key: Str)
    requires IsRun(ttl, run) && n < |run.actions| && SafeUpto(ttl, run, n) && IsRunning(run.states[n], key)
    requires run.actions[n].Claims? && run.actions[n].key == key != []
    requires !Forgets(run.states[n], ttl, run.actions[n], key)
    ensures var s, a := run.states[n], run.actions[n];
            && key in s.records
            && ClaimOf(s, ttl, a) == (s, if a.fingerprint == s.records[key].fingerprint then Conflict else Mismatch)
  {
    InvAt(ttl, run, n);
  }

  /** A record stands for its lifetime, counted from its date, and no longer; with no lifetime it
      stands for good. A claim without a key is refused. */
  lemma RecordsLiveTheirTime(ttl: int, now: int, date: int, later: int, key: Str, fingerprint: Str)
    requires key != []
    ensures var s := ClaimStep(INITIAL, ttl, now, date, 0, key, fingerprint).0;
            && ClaimStep(s, ttl, later, later, 1, [], fingerprint) == (s, KeyRequired)
            && ClaimStep(s, ttl, later, later, 1, key, fingerprint).1 ==
                 if ttl <= 0 || later <= date + ttl then Conflict else Run
    ensures var s := FinishStep(ClaimStep(INITIAL, ttl, now, date, 0, key, fingerprint).0, 0, HandlerError).0;
            var again := ClaimStep(s, ttl, now, later, 1, key, fingerprint);
            ttl <= 0 || now <= date + ttl ==>
              again.1 == Run && key in again.0.records && again.0.records[key].createdAt == later
  {
  }

  /** The step is a claim of the key that is told to run. */
  ghost predicate IsStart(s: State, ttl: int, a: Action, key: Str) {
    a.Claims? && a.key == key && ClaimOf(s, ttl, a).1 == Run
  }

  ghost predicate NoneStarts(ttl: int, run: Trace, i: nat, n: nat, key: Str)
    requires n <= |run.actions| < |run.states|
  {
    forall j :: i <= j < n ==> !IsStart(run.states[j], ttl, run.actions[j], key)
  }

  /** A handler for the key has failed, and none has run since. */
  ghost predicate HasFailed(s: State, key: Str, fingerprint: Str) {
    key in s.records && s.records[key].status == Failed && s.records[key].fingerprint == fingerprint
  }

  lemma StepStaysFailed(ttl: int, s: State, a: Action, s': State, key: Str, fingerprint: Str)
    requires Inv(s) && Steps(ttl, s, a, s') && HasFailed(s, key, fingerprint)
    requires !Forgets(s, ttl, a, key) && !IsStart(s, ttl, a, key)
    ensures HasFailed(s', key, fingerprint)
  {
    if a.Finishes? {
      assert s.running[a.call] != key;
    }
  }

  lemma {:induction false} StaysFailed(ttl: int, run: Trace, i: nat, n: nat, key: Str, fingerprint: Str)
    requires IsRun(ttl, run) && i <= n <= |run.actions| && SafeUpto(ttl, run, n)
    requires HasFailed(run.states[i], key, fingerprint)
    requires Remembers(ttl, run, i, n, key) && NoneStarts(ttl, run, i, n, key)
    ensures HasFailed(run.states[n], key, fingerprint)
    decreases n
  {
    if i < n {
      StaysFailed(ttl, run, i, n - 1, key, fingerprint);
      InvAt(ttl, run, n - 1);
      StepStaysFailed(ttl, run.states[n - 1], run.actions[n - 1], run.states[n], key, fingerprint);
    }
  }

  /** The first claim after one that ran, with the same body and the record not dropped, runs
      once more exactly when a handler for the key has failed in between. */
  lemma RunsAgainExactly(ttl: int, run: Trace, i: nat, n: nat, key: Str)
    requires IsRun(ttl, run) && i < n < |run.actions| && SafeUpto(ttl, run, n)
    requires IsStart(run.states[i], ttl, run.actions[i], key) && NoneStarts(ttl, run, i + 1, n, key)
    requires run.actions[n].Claims? && run.actions[n].key == key
    requires run.actions[n].fingerprint == run.actions[i].fingerprint && Remembers(ttl, run, i + 1, n + 1, key)
    ensures ClaimOf(run.states[n], ttl, run.actions[n]).1 == Run <==> !NoneFails(run, i + 1, n, key)
  {
    if NoneFails(run, i + 1, n, key) {
      RunsOnce(ttl, run, i, n, key);
    } else {
      var j :| i + 1 <= j < n && IsFailure(run.states[j], run.actions[j], key);
      var fingerprint := run.actions[i].fingerprint;
      SafeBefore(ttl, run, j, n);
      assert Steps(ttl, run.states[i], run.actions[i], run.states[i + 1]);
      RunRemembers(ttl, run, i + 1, j, key);
      assert Steps(ttl, run.states[j], run.actions[j], run.states[j + 1]);
      StaysFailed(ttl, run, j + 1, n, key, fingerprint);
      assert !Forgets(run.states[n], ttl, run.actions[n], key);
    }
  }

  /** Where a handler failed, the same body runs once more, without any expiry. */
  lemma FailureRunsAgain(ttl: int, now: int, key: Str, fingerprint: Str)
    requires key != []
    ensures var s1 := ClaimStep(INITIAL, ttl, now, now, 0, key, fingerprint).0;
            var s2 := FinishStep(s1, 0, HandlerError).0;
            && !OutlivesItsRecord(s2, ttl, now, key)
            && ClaimStep(INITIAL, ttl, now, now, 0, key, fingerprint).1 == Run
            && ClaimStep(s2, ttl, now, now, 1, key, fingerprint).1 == Run
  {
  }

  /** A run in which no record is ever found expired. */
  ghost predicate NeverExpires(ttl: int, run: Trace)
    requires |run.actions| < |run.states|
  {
    forall n :: 0 <= n < |run.actions| ==> ForgetsNothing(run.states[n], ttl, run.actions[n])
  }

  ghost predicate ForgetsNothing(s: State, ttl: int, a: Action) {
    forall k :: k in s.records ==> !Forgets(s, ttl, a, k)
  }

  /** There all of the above holds without conditions. */
  lemma {:induction false} NeverExpiringIsSafe(ttl: int, run: Trace, i: nat, n: nat, key: Str)
    requires IsRun(ttl, run) && NeverExpires(ttl, run) && i <= n <= |run.actions|
    ensures SafeUpto(ttl, run, n) && Remembers(ttl, run, i, n, key)
    decreases n
  {
    if n == 0 {
    } else {
      NeverExpiringIsSafe(ttl, run, if i < n then i else n - 1, n - 1, key);
      NothingForgottenIsSafe(run.states[n - 1], ttl, run.actions[n - 1], key);
    }
  }

  lemma NothingForgottenIsSafe(s: State, ttl: int, a: Action, key: Str)
    requires ForgetsNothing(s, ttl, a)
    ensures Safe(s, ttl, a) && !Forgets(s, ttl, a, key)
  {
    if a.Claims? && a.key in s.records {
      assert !Forgets(s, ttl, a, a.key);
    }
    if a.Purges? {
      forall k | k in s.records ensures !OutlivesItsRecord(s, ttl, a.clock(k), k) {
        assert !Forgets(s, ttl, a, k);
      }
    }
  }

  // ---------------------------------------------------------------------- the store

  class Store {
    const ttl: int
    var records: map<Str, Record>
    ghost var running: map<nat, Str>
    ghost var done: map<Str, Reply>

    constructor (ttl: int)
      ensures Value() == INITIAL && this.ttl == ttl
    {
      this.ttl, records, running, done := ttl, map[], map[], map[];
    }

    ghost function Value(): State
      reads this
    {
      State(records, running, done)
    }

    /** The first locked section of Execute. */
    method ClaimKey(key: Str, fingerprint: Str, now: int, date: int, ghost call: nat) returns (claim: Claim)
      modifies this
      ensures (Value(), claim) == ClaimStep(old(Value()), ttl, now, date, call, key, fingerprint)
    {
      if key == [] {
        return KeyRequired;
      }
      var found := key in records;
      if found && Expired(records[key], ttl, now) {
        records := records - {key};
        done := done - {key};
        found := false;
      }
      if found {
        var existing := records[key];
        if existing.fingerprint != fingerprint {
          return Mismatch;
        }
        match existing.status {
          case InProgress =>
            return Conflict;
          case Completed =>
            return Replayed(existing.reply);
          case Failed =>
            records := records[key := existing.(status := InProgress, createdAt := date)];
        }
      } else {
        records := records[key := Record(fingerprint, InProgress, Reply([], 0), date)];
      }
      running := running[call := key];
      return Run;
    }

    /** The second locked section, after the handler. */
    method RecordOutcome(key: Str, h: Handled, ghost call: nat) returns (outcome: Outcome)
      requires call in running && running[call] == key
      modifies this
      ensures (Value(), outcome) == FinishStep(old(Value()), call, h)
    {
      running := running - {call};
      if key !in records {
        return Vanished;
      }
      match h {
        case HandlerError =>
          records := records[key := records[key].(status := Failed)];
          return Error;
        case Success(reply) =>
          records := records[key := records[key].(status := Completed, reply := reply)];
          done := done[key := reply];
          return Answer(reply);
      }
    }

    method Purge(now: Str -> int) returns (removed: nat)
      modifies this
      ensures Value() == PurgeStep(old(Value()), ttl, now)
      ensures removed == |ExpiredKeys(old(Value()), ttl, now)|
      ensures forall k :: k in records <==>
        k in old(records) && !(ttl > 0 && now(k) - old(records)[k].createdAt > ttl)
      ensures forall k :: k in records ==> records[k] == old(records)[k]
    {
      removed := 0;
      var todo := records.Keys;
      ghost var gone: set<Str> := {};
      while todo != {}
        invariant todo <= old(records.Keys) && records == old(records) - gone && running == old(running)
        invariant gone == set k | k in old(records) && k !in todo && Expired(old(records)[k], ttl, now(k))
        invariant removed == |gone| && done == old(done)
        decreases |todo|
      {
        var k :| k in todo;
        if Expired(records[k], ttl, now(k)) {
          records := records - {k};
          gone := gone + {k};
          removed := removed + 1;
        }
        todo := todo - {k};
      }
      done := done - gone;
      assert gone == ExpiredKeys(old(Value()), ttl, now);
    }
  }
}
