/** Vocabulary shared by every part of the pool model. */
module Common {

  /** A node is identified by its address string (`Cluster.Node.getAddress()`). */
  type Address = string

  /** Java's `null` for an optional reference. */
  datatype Option<+T> = None | Some(value: T)

  /** `Long.MAX_VALUE`, the deadline used when an acquire may wait without bound. */
  const LONG_MAX: int := 0x7FFF_FFFF_FFFF_FFFF

  function Max(x: int, y: int): int
  {
    if x >= y then x else y
  }

  /** The set of addresses listed in `s`. */
  function Elems(s: seq<Address>): set<Address>
  {
    set a | a in s
  }

  /** No address is listed twice, as in the iteration of a map's keys. */
  predicate Distinct(s: seq<Address>)
  {
    forall i, j :: 0 <= i < j < |s| ==> s[i] != s[j]
  }

  /** Extending a prefix of `s` by one element adds that element's address. */
  lemma ElemsGrow(s: seq<Address>, i: int)
    requires 0 <= i < |s|
    ensures Elems(s[..i + 1]) == Elems(s[..i]) + {s[i]}
  {
    assert s[..i + 1] == s[..i] + [s[i]];
  }

  lemma ElemsAll(s: seq<Address>)
    ensures Elems(s[..|s|]) == Elems(s)
  {
    assert s[..|s|] == s;
  }
}
