/** Types and helpers shared by the models of the Go and JavaScript sources. */
module Base {

  datatype Option<+T> = None | Some(value: T)

  /** Go's byte (uint8); arithmetic on it is written out where the source wraps or truncates. */
  type byte = x: int | 0 <= x < 256

  /** The largest value of Go's int on a 64-bit platform. */
  const MAX_INT := 0x7FFF_FFFF_FFFF_FFFF

  const TWO64 := 0x1_0000_0000_0000_0000

  /** A result of Go's int arithmetic, which wraps around. */
  function WrapInt(n: int): (r: int)
    ensures -0x8000_0000_0000_0000 <= r <= 0x7FFF_FFFF_FFFF_FFFF && (n - r) % 0x1_0000_0000_0000_0000 == 0
  {
    var u := n % TWO64;
    if u <= MAX_INT then u else u - TWO64
  }

  function Min(a: int, b: int): int {
    if a < b then a else b
  }

  function Max(a: int, b: int): int {
    if a < b then b else a
  }

  /** bytes.IndexByte: the first position of c in s, or -1. */
  function IndexByte(s: seq<byte>, c: byte): (i: int)
    ensures -1 <= i < |s|
    ensures i >= 0 ==> s[i] == c && c !in s[..i]
    ensures i < 0 ==> c !in s
  {
    if s == [] then -1
    else if s[0] == c then 0
    else
      var i := IndexByte(s[1..], c);
      if i < 0 then -1 else i + 1
  }

  /** Go's copy within one slice, where source and destination may overlap. */
  method CopyWithin(a: array<byte>, dst: nat, src: nat, n: nat)
    requires dst + n <= a.Length && src + n <= a.Length
    modifies a
    ensures a[..dst] == old(a[..dst])
    ensures a[dst..dst + n] == old(a[src..src + n])
    ensures a[dst + n..] == old(a[dst + n..])
  {
    ghost var was := a[..];
    forall i | 0 <= i < n {
      a[dst + i] := a[src + i];
    }
    assert forall k | 0 <= k < a.Length && !(dst <= k < dst + n) :: a[k] == was[k];
    assert a[dst..dst + n] == was[src..src + n];
  }

  /** Go's copy between slices that do not overlap. */
  method CopyInto(a: array<byte>, dst: nat, s: seq<byte>)
    requires dst + |s| <= a.Length
    modifies a
    ensures a[..dst] == old(a[..dst])
    ensures a[dst..dst + |s|] == s
    ensures a[dst + |s|..] == old(a[dst + |s|..])
  {
    forall i | 0 <= i < |s| {
      a[dst + i] := s[i];
    }
  }

  /** a[i] = v, behind the elements that have been set. */
  method SetNext<T>(a: array<T>, i: nat, v: T)
    requires i < a.Length
    modifies a
    ensures a[..i + 1] == old(a[..i]) + [v]
  {
    a[i] := v;
  }

  lemma Regroup<T>(a: seq<T>, b: seq<T>, c: seq<T>)
    ensures (a + b) + c == a + (b + c)
  {
  }
}
