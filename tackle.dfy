/** The `Tackle` record and the operations that read and update it in place
    (tackle.h:25-32, tackle.c:394-510). Each state-changing method is proved to
    do exactly what the matching function of `Lifecycle` describes. */
module Tackles {
  import opened Base
  import opened Linker
  import opened Lifecycle

  /** One interposed symbol. `name` and `replacement` are set when the record
      is made and never written afterwards, so they are constants here. */
  class Tackle {
    const name: Option<string>
    var original: Addr
    const replacement: Addr
    var lastRebindStatus: int
    var currentlyHooked: bool

    /** A record with no original address yet. `status0` and `hooked0` stand
        for whatever the memory of a fresh allocation holds, since
        `TackleCreate` never writes those two fields (tackle.c:373-376). */
    constructor (name: Option<string>, replacement: Addr, status0: int, hooked0: bool)
      ensures View() == Record(name, NULL, replacement, status0, hooked0)
    {
      this.name := name;
      this.replacement := replacement;
      original := NULL;
      lastRebindStatus := status0;
      currentlyHooked := hooked0;
    }

    /** The record's fields as a value. */
    function View(): Record
      reads this
    {
      Record(name, original, replacement, lastRebindStatus, currentlyHooked)
    }
  }

  /** `TackleGetReplacementRebinding`: the (name, replacement) request that
      hooks `t`; both members NULL for a NULL record. */
  function TackleGetReplacementRebinding(t: Tackle?): (r: Rebinding)
    reads t
    ensures t == null ==> r.name.None? && r.replacement == NULL
    ensures t != null ==> r.name == t.name && r.replacement == t.replacement
  {
    if t != null then Rebinding(t.name, t.replacement) else Rebinding(None, NULL)
  }

  /** `TackleGetOriginalRebinding`: the (name, original) request that undoes
      the hook of `t`. The source reads `t` without a NULL check. */
  function TackleGetOriginalRebinding(t: Tackle?): (r: Rebinding)
    requires t != null
    reads t
    ensures r.name == t.name && r.replacement == t.original
  {
    Rebinding(t.name, t.original)
  }

  /** `TackleGetOriginalFunctionPointer`: the stored original address, NULL
      while unresolved. The source reads `t` without a NULL check. */
  function TackleGetOriginalFunctionPointer(t: Tackle?): (p: Addr)
    requires t != null
    reads t
    ensures p == t.View().original
  {
    t.original
  }

  /** `TackleGetFunctionName`: the stored name. The source reads `t` without a
      NULL check. */
  function TackleGetFunctionName(t: Tackle?): (s: Option<string>)
    requires t != null
    ensures s == t.name
  {
    t.name
  }

  /** `TackleFill`: look up the original address once. Nothing happens for a
      NULL record, a record without a name or one already resolved. */
  method TackleFill(t: Tackle?, dl: DynamicLinker)
    modifies t
    ensures t != null ==> t.View() == Fill(old(t.View()), dl.exports)
  {
    if t == null {
      return;
    }
    if t.name.None? {
      return;
    }
    if t.original == NULL {
      t.original := Dlsym(dl.exports, t.name.value);
    }
  }

  /** `TackleHook`. `status` is what `rebind_symbols` answers if it is called. */
  method TackleHook(t: Tackle?, dl: DynamicLinker, status: int) returns (ok: bool)
    modifies t, dl
    ensures t == null ==> !ok && unchanged(dl)
    ensures t != null ==>
      var o := Hook(old(t.View()), dl.exports, status);
      && t.View() == o.rec
      && ok == o.ok
      && dl.requests == old(dl.requests) + (if o.call.Some? then [o.call.value] else [])
      && dl.rebound == AfterCall(old(dl.rebound), o.call, status)
  {
    if t == null {
      return false;
    }
    TackleFill(t, dl);
    if t.original == NULL || t.replacement == NULL {
      t.lastRebindStatus := HOOK_PLACEHOLDER_STATUS;
      return false;
    }
    if t.currentlyHooked {
      return true;
    }
    var r := TackleGetReplacementRebinding(t);
    var result := dl.RebindSymbols(r, status);
    var success := result == 0;
    t.lastRebindStatus := result;
    t.currentlyHooked := success;
    return success;
  }

  /** `TackleUnhook` as written: no resolution first, and the flag is set to
      the rebinding's success. */
  method TackleUnhook(t: Tackle?, dl: DynamicLinker, status: int) returns (ok: bool)
    modifies t, dl
    ensures t == null ==> !ok && unchanged(dl)
    ensures t != null ==>
      var o := Unhook(old(t.View()), status);
      && t.View() == o.rec
      && ok == o.ok
      && dl.requests == old(dl.requests) + (if o.call.Some? then [o.call.value] else [])
      && dl.rebound == AfterCall(old(dl.rebound), o.call, status)
  {
    if t == null {
      return false;
    }
    if t.original == NULL || t.replacement == NULL {
      t.lastRebindStatus := UNHOOK_PLACEHOLDER_STATUS;
      return false;
    }
    if !t.currentlyHooked {
      return true;
    }
    var r := TackleGetOriginalRebinding(t);
    var result := dl.RebindSymbols(r, status);
    var success := result == 0;
    t.lastRebindStatus := result;
    t.currentlyHooked := success;
    return success;
  }

  /** `TackleUnhook` with the flag update corrected to `!success`. */
  method TackleUnhookCorrected(t: Tackle?, dl: DynamicLinker, status: int) returns (ok: bool)
    modifies t, dl
    ensures t == null ==> !ok && unchanged(dl)
    ensures t != null ==>
      var o := UnhookCorrected(old(t.View()), status);
      && t.View() == o.rec
      && ok == o.ok
      && dl.requests == old(dl.requests) + (if o.call.Some? then [o.call.value] else [])
      && dl.rebound == AfterCall(old(dl.rebound), o.call, status)
  {
    if t == null {
      return false;
    }
    if t.original == NULL || t.replacement == NULL {
      t.lastRebindStatus := UNHOOK_PLACEHOLDER_STATUS;
      return false;
    }
    if !t.currentlyHooked {
      return true;
    }
    var r := TackleGetOriginalRebinding(t);
    var result := dl.RebindSymbols(r, status);
    var success := result == 0;
    t.lastRebindStatus := result;
    t.currentlyHooked := !success;
    return success;
  }
}
