/** Facts about sequences used by the registry: first occurrences and their removal. */
module Seqs {

  /** No element of `s` occurs twice. */
  ghost predicate NoDuplicates<T>(s: seq<T>)
  {
    forall i, j :: 0 <= i < j < |s| ==> s[i] != s[j]
  }

  /** The position of the first occurrence of `x` in `s`. */
  function IndexOf<T(==)>(s: seq<T>, x: T): (k: nat)
    requires x in s
    ensures k < |s| && s[k] == x && x !in s[..k]
  {
    if s[0] == x then 0 else 1 + IndexOf(s[1..], x)
  }

  /** `s` without its first occurrence of `x`, all other elements in their old order. */
  function RemoveFirst<T(==)>(s: seq<T>, x: T): (r: seq<T>)
    ensures x !in s ==> r == s
    ensures x in s ==> r == s[..IndexOf(s, x)] + s[IndexOf(s, x) + 1..]
  {
    if s == [] then []
    else if s[0] == x then s[1..]
    else
      var r := [s[0]] + RemoveFirst(s[1..], x);
      if x in s then
        assert x in s[1..] && IndexOf(s, x) == 1 + IndexOf(s[1..], x);
        DropAfterHead(s, IndexOf(s, x));
        r
      else r
  }

  /** Taking out a position after the first one keeps the first element in front. */
  lemma DropAfterHead<T>(s: seq<T>, k: nat)
    requires 0 < k < |s|
    ensures s[..k] + s[k + 1..] == [s[0]] + (s[1..][..k - 1] + s[1..][k..])
  {
    assert s[..k] == [s[0]] + s[1..][..k - 1];
    assert s[k + 1..] == s[1..][k..];
  }

  /** A position holding `x` with no `x` before it is the first occurrence. */
  lemma IndexOfFirst<T>(s: seq<T>, x: T, i: nat)
    requires i < |s| && s[i] == x && x !in s[..i]
    ensures IndexOf(s, x) == i
  {
    var k := IndexOf(s, x);
    assert s[..k + 1][k] == x && s[..i + 1][i] == x;
  }

  /** The position in `s` of position `i` of `s` with position `k` taken out. */
  function Skip(i: nat, k: nat): nat
  {
    if i < k then i else i + 1
  }

  /** Taking position `k` out of `s` shifts the later elements down by one and
      keeps a duplicate-free sequence duplicate-free, without `s[k]`. */
  lemma Splice<T>(s: seq<T>, k: nat)
    requires k < |s|
    ensures |s[..k] + s[k + 1..]| == |s| - 1
    ensures forall i :: 0 <= i < |s| - 1 ==> (s[..k] + s[k + 1..])[i] == s[Skip(i, k)]
    ensures NoDuplicates(s) ==> NoDuplicates(s[..k] + s[k + 1..]) && s[k] !in s[..k] + s[k + 1..]
  {
    var r := s[..k] + s[k + 1..];
    forall i | 0 <= i < |r| ensures r[i] == s[Skip(i, k)] {
      if i < k { assert r[i] == s[..k][i]; } else { assert r[i] == s[k + 1..][i - k]; }
    }
    if NoDuplicates(s) {
      forall i | 0 <= i < |r| ensures r[i] != s[k] {
        assert Skip(i, k) != k;
      }
      forall i, j | 0 <= i < j < |r| ensures r[i] != r[j] {
        assert Skip(i, k) < Skip(j, k);
      }
    }
  }

  /** Taking position `k` out of `s` adds no element. */
  lemma SpliceShrinks<T>(s: seq<T>, k: nat)
    requires k < |s|
    ensures forall x :: x in s[..k] + s[k + 1..] ==> x in s
  {
    forall x | x in s[..k] + s[k + 1..] ensures x in s {
      if x in s[..k] {
        var i :| 0 <= i < k && s[..k][i] == x;
        assert s[i] == x;
      } else {
        var i :| 0 <= i < |s| - k - 1 && s[k + 1..][i] == x;
        assert s[k + 1 + i] == x;
      }
    }
  }

  /** Removing an element from a duplicate-free sequence removes it altogether
      and keeps the rest duplicate-free. */
  lemma RemoveFirstFromUnique<T>(s: seq<T>, x: T)
    requires NoDuplicates(s)
    ensures x !in RemoveFirst(s, x)
    ensures NoDuplicates(RemoveFirst(s, x))
  {
    if x in s {
      Splice(s, IndexOf(s, x));
    }
  }

  /** Appending an absent element keeps a sequence duplicate-free. */
  lemma AppendAbsentKeepsUnique<T>(s: seq<T>, x: T)
    requires NoDuplicates(s) && x !in s
    ensures NoDuplicates(s + [x])
  {
    forall i, j | 0 <= i < j < |s + [x]| ensures (s + [x])[i] != (s + [x])[j] {
      assert (s + [x])[i] == s[i];
      if j < |s| {
        assert (s + [x])[j] == s[j];
      }
    }
  }

  /** Appending an absent element and then removing it gives back the original sequence. */
  lemma RemoveAfterAppend<T>(s: seq<T>, x: T)
    requires x !in s
    ensures RemoveFirst(s + [x], x) == s
  {
    assert (s + [x])[|s|] == x;
    var k := IndexOf(s + [x], x);
    assert k == |s|;
    assert (s + [x])[..|s|] == s;
  }
}
