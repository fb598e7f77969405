/** The process-wide registry of records: the lazily created list
    `FullTackleList`, lookup by name, creation of records and the by-name
    trampoline (tackle.c:316-383, 512-530). */
module Registry {
  import opened Base
  import opened Seqs
  import opened Linker
  import opened Lifecycle
  import opened Tackles
  import opened TackleLists

  /** The position of the first record in `ts` named `name`, or `|ts|` when
      no record carries that name. */
  function FirstNamed(ts: seq<Tackle>, name: string): (k: nat)
    ensures k <= |ts|
    ensures k < |ts| ==> ts[k].name == Some(name)
    ensures forall j :: 0 <= j < k ==> ts[j].name != Some(name)
  {
    if ts == [] then 0
    else if ts[0].name == Some(name) then 0
    else 1 + FirstNamed(ts[1..], name)
  }

  /** The first record in `ts` named `name`, in insertion order; null if none is. */
  function FindByName(ts: seq<Tackle>, name: string): (t: Tackle?)
    ensures t == null <==> forall j :: 0 <= j < |ts| ==> ts[j].name != Some(name)
    ensures t != null ==> t == ts[FirstNamed(ts, name)] && t.name == Some(name)
  {
    var k := FirstNamed(ts, name);
    if k < |ts| then ts[k] else null
  }

  /** Registering one more record never changes what an earlier record with
      the same name answers: the first registration wins, and a later one is
      found only when no earlier record has that name. */
  lemma {:induction false} FirstRegistrationWins(ts: seq<Tackle>, t: Tackle, name: string)
    ensures FirstNamed(ts, name) < |ts| ==> FindByName(ts + [t], name) == FindByName(ts, name)
    ensures FirstNamed(ts, name) == |ts| ==>
      FindByName(ts + [t], name) == (if t.name == Some(name) then t else null)
  {
    if ts == [] {
      assert [] + [t] == [t];
    } else {
      assert (ts + [t])[1..] == ts[1..] + [t];
      FirstRegistrationWins(ts[1..], t, name);
    }
  }

  /** The process: the global `FullTackleList`, NULL until first used. */
  class Process {
    var fullTackleList: TackleList?

    /** No list yet. */
    constructor ()
      ensures fullTackleList == null && Registered() == []
    {
      fullTackleList := null;
    }

    /** The registered records, in insertion order. */
    ghost function Registered(): seq<Tackle>
      reads this, fullTackleList
    {
      if fullTackleList == null then [] else fullTackleList.Tackles
    }

    /** The nodes of the registry list, the objects its operations may change. */
    ghost function ListNodes(): set<object>
      reads this, fullTackleList
    {
      if fullTackleList == null then {} else set n | n in fullTackleList.Nodes
    }

    /** The list is well formed, no record is registered twice (by identity),
        and every registered record has a name, which `TackleCreate`
        guarantees and `TackleByName` relies on. */
    ghost predicate Valid()
      reads this, fullTackleList, ListNodes()
    {
      fullTackleList != null ==>
        && fullTackleList.Valid()
        && NoDuplicates(fullTackleList.Tackles)
        && forall i :: 0 <= i < |fullTackleList.Tackles| ==> fullTackleList.Tackles[i].name.Some?
    }

    /** `GetTackleList`: the global list, created empty on first use
        (allocation is taken to succeed). */
    method GetTackleList() returns (tl: TackleList)
      requires Valid()
      modifies this
      ensures Valid() && tl == fullTackleList
      ensures old(fullTackleList) != null ==> tl == old(fullTackleList)
      ensures old(fullTackleList) == null ==> fresh(tl)
      ensures Registered() == old(Registered())
    {
      if fullTackleList == null {
        fullTackleList := new TackleList();
      }
      return fullTackleList;
    }

    /** `TackleByName`: NULL for a NULL name, otherwise the first registered
        record, in insertion order, whose name is equal to `name`. The branch
        that would spin forever on a record without a name is unreachable
        because of `Valid`. */
    method TackleByName(name: Option<string>) returns (t: Tackle?)
      requires Valid()
      modifies this
      ensures Valid() && Registered() == old(Registered())
      ensures name.None? ==> t == null && fullTackleList == old(fullTackleList)
      ensures name.Some? ==> t == FindByName(Registered(), name.value)
      ensures old(fullTackleList) != null ==> fullTackleList == old(fullTackleList)
    {
      if name.None? {
        return null;
      }
      var tl := GetTackleList();
      var tln := tl.head;
      ghost var i := 0;
      while tln != null
        invariant 0 <= i <= |tl.Nodes|
        invariant tln == if i < |tl.Nodes| then tl.Nodes[i] else null
        invariant forall j :: 0 <= j < i ==> tl.Tackles[j].name != name
        decreases |tl.Nodes| - i
      {
        var currentTackleName := tln.tackle.name;
        if currentTackleName.None? {
          assert false;
          continue;
        }
        if name.value == currentTackleName.value {
          assert tl.Tackles[i] == tln.tackle;
          return tln.tackle;
        }
        assert i < |tl.Nodes| - 1 ==> tln.nextNode == tl.Nodes[i + 1];
        assert i == |tl.Nodes| - 1 ==> tln == tl.tail;
        tln := tln.nextNode;
        i := i + 1;
      }
      return null;
    }

    /** `TackleCreate` as written: NULL for a NULL name and the registry is
        left alone; otherwise a new record with that name and replacement is
        registered at the end and filled once. `status0` and `hooked0` are
        what the fresh allocation holds in the two fields the source leaves
        unset. */
    method TackleCreate(name: Option<string>, replacement: Addr, dl: DynamicLinker,
                        status0: int, hooked0: bool) returns (t: Tackle?)
      requires Valid()
      modifies this, fullTackleList, ListNodes()
      ensures Valid()
      ensures name.None? ==> t == null && fullTackleList == old(fullTackleList)
      ensures name.None? ==> Registered() == old(Registered())
      ensures name.Some? ==>
        && t != null && fresh(t)
        && Registered() == old(Registered()) + [t]
        && t.View() == Created(name.value, replacement, dl.exports, status0, hooked0)
    {
      if name.None? {
        return null;
      }
      t := new Tackle(name, replacement, status0, hooked0);
      var tl := GetTackleList();
      TackleListAddTackle(tl, t);
      TackleFill(t, dl);
    }

    /** `TackleCreate` with the two unset fields initialised: the record starts
        unhooked with a zero status. */
    method TackleCreateInitialised(name: Option<string>, replacement: Addr, dl: DynamicLinker)
      returns (t: Tackle?)
      requires Valid()
      modifies this, fullTackleList, ListNodes()
      ensures Valid()
      ensures name.None? ==> t == null && Registered() == old(Registered())
      ensures name.Some? ==>
        && t != null && fresh(t)
        && Registered() == old(Registered()) + [t]
        && t.View() == CreatedInitialised(name.value, replacement, dl.exports)
    {
      t := TackleCreate(name, replacement, dl, 0, false);
    }

    /** `TackleGetOriginalPointerForFunctionNamed`: fill the first record with
        that name and return its original address, hooked or not; NULL for a
        NULL name or when no record has the name. */
    method TackleGetOriginalPointerForFunctionNamed(name: Option<string>, dl: DynamicLinker)
      returns (fp: Addr)
      requires Valid()
      modifies this, set t | t in Registered()
      ensures Valid() && Registered() == old(Registered())
      ensures name.None? ==> fp == NULL
      ensures name.Some? ==>
        var t := FindByName(old(Registered()), name.value);
        && (t == null ==> fp == NULL)
        && (t != null ==>
              && t.View() == Fill(old(t.View()), dl.exports)
              && fp == t.View().original)
    ensures forall u :: u in old(Registered()) ==>
      name.None? || u != FindByName(old(Registered()), name.value) ==> unchanged(u)
    {
      if name.None? {
        return NULL;
      }
      fp := NULL;
      var t := TackleByName(name);
      if t != null {
        TackleFill(t, dl);
        fp := TackleGetOriginalFunctionPointer(t);
      }
    }
  }
}
