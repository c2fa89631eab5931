/** Byte slices taken rune by rune: what package bytes does for an empty separator. */
module Runes {
  import opened Base
  import opened Utf8

  /** The size of the first rune of s; 1 for an invalid encoding. */
  function Width(s: seq<byte>): (w: nat)
    requires s != []
    ensures 1 <= w <= |s|
  {
    DecodeNext(s).1
  }

  /** utf8.RuneCount. */
  function RuneCount(s: seq<byte>): (n: nat)
    ensures n <= |s| && (s != [] ==> n > 0)
  {
    if s == [] then 0 else 1 + RuneCount(s[Width(s)..])
  }

  /** The runes of s, at most n pieces: the last one takes what is left. */
  function Exploded(s: seq<byte>, n: nat): seq<seq<byte>>
    decreases n
  {
    if s == [] then []
    else if n <= 1 then [s]
    else [s[..Width(s)]] + Exploded(s[Width(s)..], n - 1)
  }

  /** The number of pieces explode allows. */
  function Allowed(s: seq<byte>, n: int): nat {
    if n <= 0 || n > |s| then |s| else n
  }

  method Explode(s: seq<byte>, n0: int) returns (r: seq<seq<byte>>)
    ensures r == Exploded(s, Allowed(s, n0))
  {
    hide Width;
    var n := Allowed(s, n0);
    var a := new seq<byte>[n](_ => []);
    var na, rest := 0, s;
    ghost var whole := Exploded(s, n);
    assert a[..0] + whole == whole;
    while |rest| > 0
      invariant na <= n && (|rest| > 0 ==> na < n)
      invariant a[..na] + Exploded(rest, n - na) == whole
      decreases |rest|
    {
      ghost var done := a[..na];
      if na + 1 >= n {
        SetNext(a, na, rest);
        return a[..na + 1];
      }
      var size := Width(rest);
      SetNext(a, na, rest[..size]);
      Regroup(done, [rest[..size]], Exploded(rest[size..], n - na - 1));
      rest := rest[size..];
      na := na + 1;
    }
    assert a[..na] + [] == a[..na];
    return a[..na];
  }

  /** A rune cut out on its own decodes as it did in its place. */
  lemma WidthOfPiece(s: seq<byte>)
    requires s != []
    ensures DecodeNext(s[..Width(s)]) == DecodeNext(s)
  {
  }

  /** As many pieces as there are runes, each one rune of s, if the number allowed is not less. */
  lemma {:induction false} ExplodedRunes(s: seq<byte>, n: nat)
    requires RuneCount(s) <= n
    ensures |Exploded(s, n)| == RuneCount(s)
    ensures forall i | 0 <= i < RuneCount(s) ::
              Exploded(s, n)[i] != [] && Width(Exploded(s, n)[i]) == |Exploded(s, n)[i]|
    decreases n
  {
    if s != [] {
      WidthOfPiece(s);
      if n <= 1 {
        assert s[Width(s)..] == [];
      } else {
        ExplodedRunes(s[Width(s)..], n - 1);
      }
    }
  }
}
