/** What the components share: optional values, machine words, and lists in which nothing comes twice. */
module Basics {
  datatype Option<T> = None | Some(value: T)

  type byte = x: int | 0 <= x < 256

  const TWO32: nat := 0x1_0000_0000
  const TWO64: nat := 0x1_0000_0000_0000_0000
  const INT_MAX: nat := 0x7FFF_FFFF
  const SSIZE_MAX: nat := 0x7FFF_FFFF_FFFF_FFFF

  /** The address of a structure. */
  type Ptr = nat
  const NULL: Ptr := 0

  function Min(a: int, b: int): (m: int)
  {
    if a < b then a else b
  }

  function Max(a: int, b: int): (m: int)
  {
    if a < b then b else a
  }

  ghost predicate Distinct<T(!new)>(s: seq<T>)
  {
    forall i, j :: 0 <= i < j < |s| ==> s[i] != s[j]
  }

  function IndexIn<T(==)>(s: seq<T>, x: T): (i: nat)
    requires x in s
    ensures i < |s| && s[i] == x
  {
    if s[0] == x then 0 else 1 + IndexIn(s[1..], x)
  }

  function DropAt<T>(s: seq<T>, i: nat): (r: seq<T>)
    requires i < |s|
  {
    s[..i] + s[i + 1..]
  }

  /** TAILQ_REMOVE and LIST_REMOVE */
  function Without<T(==)>(s: seq<T>, x: T): (r: seq<T>)
  {
    if x in s then DropAt(s, IndexIn(s, x)) else s
  }

  lemma DropAtIs<T>(s: seq<T>, k: nat)
    requires k < |s|
    ensures |DropAt(s, k)| == |s| - 1
    ensures forall i :: 0 <= i < |s| - 1 ==> DropAt(s, k)[i] == s[if i < k then i else i + 1]
  {
    var w := s[..k] + s[k + 1..];
    forall i | 0 <= i < |w| ensures w[i] == s[if i < k then i else i + 1] {
      if i < k { assert w[i] == s[..k][i]; } else { assert w[i] == s[k + 1..][i - k]; }
    }
  }

  lemma WithoutAt<T(!new)>(s: seq<T>, x: T)
    requires x in s
    ensures var w, k := Without(s, x), IndexIn(s, x);
      |w| == |s| - 1 && w == DropAt(s, k) && forall i :: 0 <= i < |w| ==> w[i] == s[if i < k then i else i + 1]
  {
    hide DropAt;
    DropAtIs(s, IndexIn(s, x));
  }

  lemma WithoutIs<T(!new)>(s: seq<T>, x: T)
    requires Distinct(s) && x in s
    ensures Distinct(Without(s, x)) && |Without(s, x)| == |s| - 1
    ensures forall y :: y in Without(s, x) <==> y != x && y in s
  {
    hide Without;
    var k, w := IndexIn(s, x), Without(s, x);
    WithoutAt(s, x);
    forall y ensures y in w <==> y != x && y in s {
      if y in s && y != x {
        var i :| 0 <= i < |s| && s[i] == y;
        assert w[if i < k then i else i - 1] == y;
      }
    }
  }
}
