/** The life of one interposition record as a pure state machine: lazy
    resolution of the original address, and the hook and unhook transitions
    through the rebinding facility. The class `Tackles.Tackle` is proved to
    follow these functions step by step. */
module Lifecycle {
  import opened Base
  import opened Linker

  /** The fields of a `Tackle` record (tackle.h:25-32). */
  datatype Record = Record(
    name: Option<string>,
    original: Addr,
    replacement: Addr,
    lastRebindStatus: int,
    currentlyHooked: bool)

  /** What one hook or unhook does: the record afterwards, the boolean the
      operation returns, and the rebinding request it made, if any. */
  datatype Transition = Transition(rec: Record, ok: bool, call: Option<Rebinding>)

  /** `(int)TackleHook` and `(int)TackleUnhook`: the addresses of the two
      operations, truncated to `int`, which the source stores as the status of
      an attempt that had a NULL address. Their exact values depend on where
      the code is loaded; the model only relies on them being distinct and
      nonzero, so that neither reads as success. */
  const HOOK_PLACEHOLDER_STATUS: int := 0x3f50
  const UNHOOK_PLACEHOLDER_STATUS: int := 0x3fd0

  /** Both addresses a rebinding needs are known. */
  predicate Ready(r: Record)
  {
    r.original != NULL && r.replacement != NULL
  }

  /** `TackleFill`: resolve `original` through dlsym unless it is already known. */
  function Fill(r: Record, exports: map<string, Addr>): (f: Record)
    ensures f.(original := r.original) == r
    ensures r.original != NULL || r.name.None? ==> f == r
    ensures r.original == NULL && r.name.Some? ==> f.original == Dlsym(exports, r.name.value)
  {
    if r.name.None? then r
    else if r.original == NULL then r.(original := Dlsym(exports, r.name.value))
    else r
  }

  /** `TackleHook` on a non-NULL record. */
  function Hook(r: Record, exports: map<string, Addr>, status: int): (o: Transition)
    ensures o.rec.name == r.name && o.rec.replacement == r.replacement
    ensures o.rec.original == Fill(r, exports).original
    ensures o.ok ==> o.rec.currentlyHooked
    ensures o.call.Some? <==> Ready(Fill(r, exports)) && !r.currentlyHooked
    ensures o.call.Some? ==>
      && o.call.value == Rebinding(r.name, r.replacement)
      && o.rec.lastRebindStatus == status
      && (o.ok <==> status == 0)
      && o.rec.currentlyHooked == o.ok
    ensures !Ready(Fill(r, exports)) ==>
      && !o.ok
      && o.rec == Fill(r, exports).(lastRebindStatus := HOOK_PLACEHOLDER_STATUS)
    ensures Ready(Fill(r, exports)) && r.currentlyHooked ==> o.ok && o.rec == Fill(r, exports)
  {
    var f := Fill(r, exports);
    if f.original == NULL || f.replacement == NULL then
      Transition(f.(lastRebindStatus := HOOK_PLACEHOLDER_STATUS), false, None)
    else if f.currentlyHooked then
      Transition(f, true, None)
    else
      Transition(f.(lastRebindStatus := status, currentlyHooked := status == 0),
                 status == 0, Some(Rebinding(f.name, f.replacement)))
  }

  /** `TackleUnhook` on a non-NULL record, as written: it does not resolve first,
      and it stores the rebinding's success itself as the new hooked flag. */
  function Unhook(r: Record, status: int): (o: Transition)
    ensures o.rec.name == r.name && o.rec.replacement == r.replacement
    ensures o.rec.original == r.original
    ensures o.call.Some? <==> Ready(r) && r.currentlyHooked
    ensures o.call.Some? ==>
      && o.call.value == Rebinding(r.name, r.original)
      && o.rec.lastRebindStatus == status
      && (o.ok <==> status == 0)
      && o.rec.currentlyHooked == o.ok
    ensures !Ready(r) ==> !o.ok && o.rec == r.(lastRebindStatus := UNHOOK_PLACEHOLDER_STATUS)
    ensures Ready(r) && !r.currentlyHooked ==> o.ok && o.rec == r
  {
    if r.original == NULL || r.replacement == NULL then
      Transition(r.(lastRebindStatus := UNHOOK_PLACEHOLDER_STATUS), false, None)
    else if !r.currentlyHooked then
      Transition(r, true, None)
    else
      Transition(r.(lastRebindStatus := status, currentlyHooked := status == 0),
                 status == 0, Some(Rebinding(r.name, r.original)))
  }

  /** `TackleUnhook` as evidently intended: a successful unhook clears the
      hooked flag and a failed one leaves it set. */
  function UnhookCorrected(r: Record, status: int): (o: Transition)
    ensures o.rec.name == r.name && o.rec.replacement == r.replacement
    ensures o.rec.original == r.original
    ensures o.ok ==> !o.rec.currentlyHooked
    ensures o.call.Some? <==> Ready(r) && r.currentlyHooked
    ensures o.call.Some? ==>
      && o.call.value == Rebinding(r.name, r.original)
      && o.rec.lastRebindStatus == status
      && (o.ok <==> status == 0)
      && o.rec.currentlyHooked == !o.ok
    ensures !Ready(r) ==> !o.ok && o.rec == r.(lastRebindStatus := UNHOOK_PLACEHOLDER_STATUS)
    ensures Ready(r) && !r.currentlyHooked ==> o.ok && o.rec == r
  {
    if r.original == NULL || r.replacement == NULL then
      Transition(r.(lastRebindStatus := UNHOOK_PLACEHOLDER_STATUS), false, None)
    else if !r.currentlyHooked then
      Transition(r, true, None)
    else
      Transition(r.(lastRebindStatus := status, currentlyHooked := status != 0),
                 status == 0, Some(Rebinding(r.name, r.original)))
  }

  /** The record `TackleCreate` returns for a non-NULL name, as written: the
      status and flag are whatever the fresh allocation held (`status0`,
      `hooked0`), and the record has been filled once. */
  function Created(name: string, replacement: Addr, exports: map<string, Addr>,
                   status0: int, hooked0: bool): (r: Record)
    ensures r.name == Some(name) && r.replacement == replacement
    ensures r.original == Dlsym(exports, name)
    ensures r.lastRebindStatus == status0 && r.currentlyHooked == hooked0
  {
    Fill(Record(Some(name), NULL, replacement, status0, hooked0), exports)
  }

  /** The record `TackleCreate` evidently means to return: not hooked, with a
      zero status, and filled once. */
  function CreatedInitialised(name: string, replacement: Addr, exports: map<string, Addr>): (r: Record)
    ensures r.name == Some(name) && r.replacement == replacement
    ensures r.original == Dlsym(exports, name)
    ensures r.lastRebindStatus == 0 && !r.currentlyHooked
  {
    Created(name, replacement, exports, 0, false)
  }

  // ---------------------------------------------------------------------------
  // A record together with the process's installed overrides, and sequences of
  // calls a client makes on one record.

  datatype World = World(rec: Record, rebound: map<string, Addr>)

  /** One call of the public API on the record, with the status the facility
      answers if the call reaches it. */
  datatype Call = FillCall | HookCall(status: int) | UnhookCall(status: int)

  /** Which definition of unhook a run uses. */
  datatype UnhookRule = AsWritten | Corrected

  /** The overrides after a transition that made `call`, answered with `status`. */
  function AfterCall(rebound: map<string, Addr>, call: Option<Rebinding>, status: int): map<string, Addr>
  {
    match call
    case None => rebound
    case Some(r) => Rebound(rebound, r, status)
  }

  function Step(w: World, exports: map<string, Addr>, c: Call, rule: UnhookRule): World
  {
    match c
    case FillCall => World(Fill(w.rec, exports), w.rebound)
    case HookCall(s) =>
      var o := Hook(w.rec, exports, s);
      World(o.rec, AfterCall(w.rebound, o.call, s))
    case UnhookCall(s) =>
      var o := if rule == AsWritten then Unhook(w.rec, s) else UnhookCorrected(w.rec, s);
      World(o.rec, AfterCall(w.rebound, o.call, s))
  }

  function Run(w: World, exports: map<string, Addr>, cs: seq<Call>, rule: UnhookRule): World
    decreases |cs|
  {
    if cs == [] then w else Run(Step(w, exports, cs[0], rule), exports, cs[1..], rule)
  }

  /** The record's hooked flag matches where calls through its name land:
      the replacement while hooked, the exported original otherwise; and a
      resolved original is the exported one. */
  ghost predicate Agrees(w: World, exports: map<string, Addr>)
  {
    && w.rec.name.Some?
    && (w.rec.original != NULL ==> w.rec.original == Dlsym(exports, w.rec.name.value))
    && (w.rec.currentlyHooked ==>
          Resolve(exports, w.rebound, w.rec.name.value) == w.rec.replacement)
    && (!w.rec.currentlyHooked ==>
          Resolve(exports, w.rebound, w.rec.name.value) == Dlsym(exports, w.rec.name.value))
  }

  // ---------------------------------------------------------------------------
  // Properties of single transitions.

  /** Resolution is memoised: filling twice is filling once. */
  lemma FillIdempotent(r: Record, exports: map<string, Addr>)
    ensures Fill(Fill(r, exports), exports) == Fill(r, exports)
  {
  }

  /** Hooking twice in a row: the second hook makes a rebinding request only
      when the first one made a request that failed; after a successful hook
      the second one succeeds without touching the record. */
  lemma HookTwice(r: Record, exports: map<string, Addr>, s1: int, s2: int)
    ensures var o1 := Hook(r, exports, s1);
            var o2 := Hook(o1.rec, exports, s2);
            && (o2.call.Some? ==> o1.call.Some? && !o1.ok)
            && (o1.ok ==> o2.ok && o2.rec == o1.rec && o2.call.None?)
  {
    FillIdempotent(r, exports);
  }

  /** With the corrected unhook, unhooking twice in a row is idempotent in the
      same way hooking is. */
  lemma UnhookCorrectedTwice(r: Record, s1: int, s2: int)
    ensures var o1 := UnhookCorrected(r, s1);
            var o2 := UnhookCorrected(o1.rec, s2);
            && (o2.call.Some? ==> o1.call.Some? && !o1.ok)
            && (o1.ok ==> o2.ok && o2.rec == o1.rec && o2.call.None?)
  {
  }

  /** As written, a successful unhook leaves the flag set, so a second unhook
      rebinds again, and a hook afterwards reports success without rebinding. */
  lemma UnhookAsWrittenLeavesFlagSet(r: Record, exports: map<string, Addr>, s2: int)
    requires Ready(r) && r.currentlyHooked
    ensures var o1 := Unhook(r, 0);
            && o1.ok && o1.rec.currentlyHooked
            && Unhook(o1.rec, s2).call.Some?
            && Hook(o1.rec, exports, s2).ok && Hook(o1.rec, exports, s2).call.None?
  {
  }

  /** Hook then unhook, both successful, restores where calls through the name
      land, whichever unhook rule is used (the rule only decides the flag). */
  lemma HookUnhookRestoresResolution(w: World, exports: map<string, Addr>, rule: UnhookRule, n: string)
    requires Agrees(w, exports) && !w.rec.currentlyHooked
    requires Ready(Fill(w.rec, exports))
    ensures var w2 := Run(w, exports, [HookCall(0), UnhookCall(0)], rule);
            Resolve(exports, w2.rebound, n) == Resolve(exports, w.rebound, n)
  {
    var w1 := Step(w, exports, HookCall(0), rule);
    var w2 := Step(w1, exports, UnhookCall(0), rule);
    assert [HookCall(0), UnhookCall(0)][1..] == [UnhookCall(0)];
    assert Run(w, exports, [HookCall(0), UnhookCall(0)], rule) == w2;
  }

  // ---------------------------------------------------------------------------
  // Properties of every run.

  /** A record's name and replacement never change. */
  lemma {:induction false} RunKeepsIdentity(w: World, exports: map<string, Addr>, cs: seq<Call>, rule: UnhookRule)
    ensures Run(w, exports, cs, rule).rec.name == w.rec.name
    ensures Run(w, exports, cs, rule).rec.replacement == w.rec.replacement
    decreases |cs|
  {
    if cs != [] {
      RunKeepsIdentity(Step(w, exports, cs[0], rule), exports, cs[1..], rule);
    }
  }

  /** The original address is resolved at most once: it either keeps its
      starting value or goes from NULL to the dlsym answer, and then stays. */
  lemma {:induction false} RunResolvesAtMostOnce(w: World, exports: map<string, Addr>, cs: seq<Call>, rule: UnhookRule)
    ensures var o := Run(w, exports, cs, rule).rec.original;
            || o == w.rec.original
            || (w.rec.original == NULL && w.rec.name.Some? && o == Dlsym(exports, w.rec.name.value))
    decreases |cs|
  {
    if cs != [] {
      var w1 := Step(w, exports, cs[0], rule);
      RunResolvesAtMostOnce(w1, exports, cs[1..], rule);
      RunKeepsIdentity(w1, exports, cs[1..], rule);
    }
  }

  /** One corrected step keeps the flag in agreement with the bindings. */
  lemma StepCorrectedAgrees(w: World, exports: map<string, Addr>, c: Call)
    requires Agrees(w, exports)
    ensures Agrees(Step(w, exports, c, Corrected), exports)
  {
  }

  /** With the corrected unhook, every run keeps the hooked flag in agreement
      with where calls through the name land. */
  lemma {:induction false} CorrectedRunAgrees(w: World, exports: map<string, Addr>, cs: seq<Call>)
    requires Agrees(w, exports)
    ensures Agrees(Run(w, exports, cs, Corrected), exports)
    decreases |cs|
  {
    if cs != [] {
      StepCorrectedAgrees(w, exports, cs[0]);
      CorrectedRunAgrees(Step(w, exports, cs[0], Corrected), exports, cs[1..]);
    }
  }

  /** A record created as evidently intended agrees with a process in which
      nothing has been rebound, so every later run with the corrected unhook
      keeps the flag truthful. */
  lemma InitialisedCreateAgrees(name: string, replacement: Addr, exports: map<string, Addr>, cs: seq<Call>)
    ensures Agrees(Run(World(CreatedInitialised(name, replacement, exports), map[]), exports, cs, Corrected), exports)
  {
    CorrectedRunAgrees(World(CreatedInitialised(name, replacement, exports), map[]), exports, cs);
  }

  // ---------------------------------------------------------------------------
  // Concrete runs that show the two defects of the source.

  const FOPEN: string := "fopen"
  const REAL_FOPEN: Addr := 0x1000
  const MY_FOPEN: Addr := 0x2000

  /** As written: hook then unhook, both successful, leaves the record claiming
      to be hooked while calls reach the original; the next hook then reports
      success and rebinds nothing. */
  lemma AsWrittenUnhookBreaksAgreement()
    ensures var exports := map[FOPEN := REAL_FOPEN];
            var w := World(CreatedInitialised(FOPEN, MY_FOPEN, exports), map[]);
            var w2 := Run(w, exports, [HookCall(0), UnhookCall(0)], AsWritten);
            var w3 := Run(w2, exports, [HookCall(0)], AsWritten);
            && Agrees(w, exports)
            && !Agrees(w2, exports)
            && w3.rec.currentlyHooked
            && Resolve(exports, w3.rebound, FOPEN) == REAL_FOPEN
  {
    var exports := map[FOPEN := REAL_FOPEN];
    var w := World(CreatedInitialised(FOPEN, MY_FOPEN, exports), map[]);
    var w1 := Step(w, exports, HookCall(0), AsWritten);
    var w2 := Step(w1, exports, UnhookCall(0), AsWritten);
    assert [HookCall(0), UnhookCall(0)][1..] == [UnhookCall(0)];
    assert Run(w, exports, [HookCall(0), UnhookCall(0)], AsWritten) == w2;
    assert Run(w2, exports, [HookCall(0)], AsWritten) == Step(w2, exports, HookCall(0), AsWritten);
  }

  /** As written: a fresh record whose allocation happened to hold `true` in
      the hooked flag reports a successful first hook without any rebinding. */
  lemma GarbageFlagSkipsFirstHook()
    ensures var exports := map[FOPEN := REAL_FOPEN];
            var r := Created(FOPEN, MY_FOPEN, exports, 0, true);
            var o := Hook(r, exports, 0);
            && o.ok && o.call.None?
            && !Agrees(World(r, map[]), exports)
  {
  }

  /** As intended: the first hook of a freshly created record with both
      addresses known always makes its rebinding request. */
  lemma InitialisedFirstHookRebinds(name: string, replacement: Addr, exports: map<string, Addr>, status: int)
    requires Dlsym(exports, name) != NULL && replacement != NULL
    ensures Hook(CreatedInitialised(name, replacement, exports), exports, status).call
            == Some(Rebinding(Some(name), replacement))
  {
  }
}
