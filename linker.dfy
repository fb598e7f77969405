/** The two collaborators the library calls but does not implement: the dynamic
    symbol lookup `dlsym(RTLD_DEFAULT, name)` and fishhook's `rebind_symbols`.
    Both are oracles here: the export table is a parameter of the process, and
    the status `rebind_symbols` answers is chosen by the caller of the model. */
module Linker {
  import opened Base

  /** fishhook's `struct rebinding` as the library fills it: a symbol name and
      the address that calls through that name should reach. */
  datatype Rebinding = Rebinding(name: Option<string>, replacement: Addr)

  /** The answer of the process-wide symbol lookup for `name`; NULL when the
      symbol is not exported. */
  function Dlsym(exports: map<string, Addr>, name: string): Addr
  {
    if name in exports then exports[name] else NULL
  }

  /** Where a call through the symbol `name` lands: the address most recently
      installed for it by a successful rebinding, or the exported address when
      it was never rebound. */
  function Resolve(exports: map<string, Addr>, rebound: map<string, Addr>, name: string): Addr
  {
    if name in rebound then rebound[name] else Dlsym(exports, name)
  }

  /** The installed overrides after one call of `rebind_symbols` with `r` that
      answered `status`: only a successful call (status 0) for a named symbol
      changes anything, and then only that symbol's resolution. */
  function Rebound(rebound: map<string, Addr>, r: Rebinding, status: int): (b: map<string, Addr>)
    ensures forall exports, n :: r.name != Some(n) ==>
      Resolve(exports, b, n) == Resolve(exports, rebound, n)
    ensures forall exports :: status == 0 && r.name.Some? ==>
      Resolve(exports, b, r.name.value) == r.replacement
    ensures forall exports, n :: status != 0 ==>
      Resolve(exports, b, n) == Resolve(exports, rebound, n)
  {
    if status == 0 && r.name.Some? then rebound[r.name.value := r.replacement] else rebound
  }

  /** The dynamic linker state of the process as far as the library can see it. */
  class DynamicLinker {
    /** What `dlsym(RTLD_DEFAULT, ·)` answers; the export table does not change. */
    const exports: map<string, Addr>
    /** Overrides installed by successful calls of `rebind_symbols`. */
    var rebound: map<string, Addr>
    /** Every rebinding request made so far, in order. */
    ghost var requests: seq<Rebinding>

    /** A process in which nothing has been rebound yet. */
    constructor (exports: map<string, Addr>)
      ensures this.exports == exports && rebound == map[] && requests == []
    {
      this.exports := exports;
      rebound := map[];
      requests := [];
    }

    /** `rebind_symbols(&r, 1)`. The facility's answer is the parameter
        `status`: 0 for success, anything else for a facility-specific failure. */
    method RebindSymbols(r: Rebinding, status: int) returns (result: int)
      modifies this
      ensures result == status
      ensures requests == old(requests) + [r]
      ensures rebound == Rebound(old(rebound), r, status)
    {
      result := status;
      requests := requests + [r];
      rebound := Rebound(rebound, r, status);
    }
  }
}
