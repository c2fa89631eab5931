/** html.EscapeString and html.UnescapeString, the latter decoding in place. */
module Html {
  import opened Base
  import opened Utf8

  const AMP: byte := 38       // &
  const APOS: byte := 39      // '
  const QUOT: byte := 34      // "
  const LT: byte := 60        // <
  const GT: byte := 62        // >
  const SEMI: byte := 59      // ;
  const HASH: byte := 35      // #
  const LOWER_X: byte := 120
  const UPPER_X: byte := 88

  const LONGEST_ENTITY_WITHOUT_SEMICOLON := 6

  /** replacementTable: what 0x80 to 0x9F stand for in Windows-1252. */
  const REPLACEMENTS: seq<int> :=
    [0x20AC, 0x81, 0x201A, 0x192, 0x201E, 0x2026, 0x2020, 0x2021,
     0x2C6, 0x2030, 0x160, 0x2039, 0x152, 0x8D, 0x17D, 0x8F,
     0x90, 0x2018, 0x2019, 0x201C, 0x201D, 0x2022, 0x2013, 0x2014,
     0x2DC, 0x2122, 0x161, 0x203A, 0x153, 0x9D, 0x17E, 0x178]

  const AMP_NAME: seq<byte> := [97, 109, 112, 59]   // amp;
  const LT_NAME: seq<byte> := [108, 116, 59]        // lt;
  const GT_NAME: seq<byte> := [103, 116, 59]        // gt;

  /** The maps entity and entity2. */
  datatype Tables = Tables(one: map<seq<byte>, int>, two: map<seq<byte>, (int, int)>)

  /** What the package's tests require of the maps: no expansion is longer than its reference; and
      the three entries that EscapeString relies on. */
  ghost predicate TablesOk(t: Tables) {
    && (forall name | name in t.one :: |EncodeRune(t.one[name])| <= |name| + 1)
    && (forall name | name in t.two :: |EncodeRune(t.two[name].0)| + |EncodeRune(t.two[name].1)| <= |name| + 1)
    && AMP_NAME in t.one && t.one[AMP_NAME] == AMP
    && LT_NAME in t.one && t.one[LT_NAME] == LT
    && GT_NAME in t.one && t.one[GT_NAME] == GT
  }

  // ---------------------------------------------------------------- specification

  predicate IsAlnum(c: byte) {
    97 <= c <= 122 || 65 <= c <= 90 || 48 <= c <= 57
  }

  /** The value of a digit of a numeric reference, or -1. */
  function Digit(c: byte, hex: bool): (d: int)
    ensures -1 <= d < if hex then 16 else 10
  {
    if 48 <= c <= 57 then c - 48
    else if hex && 97 <= c <= 102 then c - 97 + 10
    else if hex && 65 <= c <= 70 then c - 65 + 10
    else -1
  }

  /** Go's int32: arithmetic wraps around. */
  function Wrap32(n: int): int {
    (n + 0x8000_0000) % 0x1_0000_0000 - 0x8000_0000
  }

  function DigitsEnd(s: seq<byte>, i: nat, hex: bool): (e: nat)
    requires i <= |s|
    ensures i <= e <= |s|
    decreases |s| - i
  {
    if i < |s| && Digit(s[i], hex) >= 0 then DigitsEnd(s, i + 1, hex) else i
  }

  function NameEnd(s: seq<byte>, i: nat): (e: nat)
    requires i <= |s|
    ensures i <= e <= |s|
    decreases |s| - i
  {
    if i < |s| && IsAlnum(s[i]) then NameEnd(s, i + 1) else i
  }

  /** The number that the digits s[i..e] denote, in the mathematical integers. */
  function Number(s: seq<byte>, i: nat, e: nat, hex: bool): (n: nat)
    requires i <= e <= |s| && forall k | i <= k < e :: Digit(s[k], hex) >= 0
    decreases e
  {
    if i == e then 0 else (if hex then 16 else 10) * Number(s, i, e - 1, hex) + Digit(s[e - 1], hex)
  }

  lemma {:induction false} AllDigits(s: seq<byte>, i: nat, hex: bool)
    requires i <= |s|
    ensures forall k | i <= k < DigitsEnd(s, i, hex) :: Digit(s[k], hex) >= 0
    ensures DigitsEnd(s, i, hex) < |s| ==> Digit(s[DigitsEnd(s, i, hex)], hex) < 0
    decreases |s| - i
  {
    if i < |s| && Digit(s[i], hex) >= 0 {
      AllDigits(s, i + 1, hex);
    }
  }

  /** The rune finally emitted for a numeric reference of value x. */
  function Fixup(x: int): int {
    if 0x80 <= x <= 0x9F then REPLACEMENTS[x - 0x80]
    else if x == 0 || IsSurrogate(x) || x > MAX_RUNE then RUNE_ERROR
    else x
  }

  function PastSemi(s: seq<byte>, e: nat): (i: nat)
    requires e <= |s|
    ensures e <= i <= |s|
  {
    if e < |s| && s[e] == SEMI then e + 1 else e
  }

  predicate IsHex(s: seq<byte>) {
    |s| > 2 && (s[2] == LOWER_X || s[2] == UPPER_X)
  }

  function DigitsStart(s: seq<byte>): nat {
    if IsHex(s) then 3 else 2
  }

  function RefEnd(s: seq<byte>): (e: nat)
    requires |s| > 1
    ensures DigitsStart(s) <= e <= |s|
  {
    DigitsEnd(s, DigitsStart(s), IsHex(s))
  }

  /** The number a numeric reference at the head of s spells out. */
  ghost function RefNumber(s: seq<byte>): nat
    requires |s| > 1
  {
    AllDigits(s, DigitsStart(s), IsHex(s));
    Number(s, DigitsStart(s), RefEnd(s), IsHex(s))
  }

  /** What a numeric reference at the head of s decodes to and how much of s it takes. */
  ghost function Numeric(s: seq<byte>): (seq<byte>, nat)
    requires |s| > 1 && s[0] == AMP && s[1] == HASH
  {
    if |s| <= 3 then ([AMP], 1)
    else
      var i := PastSemi(s, RefEnd(s));
      if i <= 3 then ([AMP], 1) else (EncodeRune(Fixup(Wrap32(RefNumber(s)))), i)
  }

  /** The longest proper prefix of name, of at most m bytes, that is an entity; 0 if there is none. */
  function LongestPrefix(t: Tables, name: seq<byte>, m: int): (j: int)
    requires m <= |name|
    ensures j == 0 || (1 < j <= m && name[..j] in t.one && t.one[name[..j]] != 0)
    ensures forall k | 1 < k <= m && j < k :: name[..k] !in t.one || t.one[name[..k]] == 0
    decreases m
  {
    if m <= 1 then 0
    else if name[..m] in t.one && t.one[name[..m]] != 0 then m
    else LongestPrefix(t, name, m - 1)
  }

  function Get(m: map<seq<byte>, int>, name: seq<byte>): int {
    if name in m then m[name] else 0
  }

  function Get2(m: map<seq<byte>, (int, int)>, name: seq<byte>): (int, int) {
    if name in m then m[name] else (0, 0)
  }

  function Named(t: Tables, s: seq<byte>): (seq<byte>, nat)
    requires |s| > 1 && s[0] == AMP
  {
    var i := PastSemi(s, NameEnd(s, 1));
    var name := s[1..i];
    if Listed(t, name) then (Expansion(t, name), i) else Unlisted(t, s, i)
  }

  /** The name is an entity of either map. */
  predicate Listed(t: Tables, name: seq<byte>) {
    name != [] && (Get(t.one, name) != 0 || Get2(t.two, name).0 != 0)
  }

  /** What becomes of a name of i - 1 bytes that is not an entity: one that begins it, or the text itself. */
  function Unlisted(t: Tables, s: seq<byte>, i: nat): (seq<byte>, nat)
    requires 1 <= i <= |s|
  {
    var name := s[1..i];
    var j := if name == [] then 0 else LongestPrefix(t, name, Min(|name| - 1, LONGEST_ENTITY_WITHOUT_SEMICOLON));
    if j > 0 then (EncodeRune(t.one[name[..j]]), j + 1) else (s[..i], i)
  }

  ghost function Reference(t: Tables, s: seq<byte>): (seq<byte>, nat)
    requires s != [] && s[0] == AMP
  {
    if |s| <= 1 then ([AMP], 1)
    else if s[1] == HASH then Numeric(s)
    else Named(t, s)
  }

  /** A reference takes at least its ampersand and never grows, so decoding in place is possible. */
  lemma ReferenceFits(t: Tables, s: seq<byte>)
    requires TablesOk(t) && s != [] && s[0] == AMP
    ensures var (out, n) := Reference(t, s); 1 <= n <= |s| && |out| <= n
  {
  }

  ghost function Unescaped(t: Tables, s: seq<byte>): seq<byte>
    requires TablesOk(t)
    decreases |s|
  {
    if s == [] then []
    else if s[0] != AMP then [s[0]] + Unescaped(t, s[1..])
    else
      ReferenceFits(t, s);
      var (out, n) := Reference(t, s);
      out + Unescaped(t, s[n..])
  }

  // ---------------------------------------------------------------- the in-place decoder

  /** copy(b[at:], e), and for e an encoded rune also utf8.EncodeRune(b[at:], r). */
  method Put(b: array<byte>, at: nat, e: seq<byte>)
    requires at + |e| <= b.Length
    modifies b
    ensures b[at..at + |e|] == e
    ensures forall k | 0 <= k < at || at + |e| <= k < b.Length :: b[k] == old(b[k])
  {
    forall i | 0 <= i < |e| {
      b[at + i] := e[i];
    }
  }

  /** What decoding the reference s at b[src] into b[dst] does to b. */
  twostate predicate Replaced(b: array<byte>, dst: nat, src: nat, out: seq<byte>, n: nat)
    requires dst + |out| <= src + n <= b.Length
    reads b
  {
    && b[dst..dst + |out|] == out
    && forall k | 0 <= k < dst || src + n <= k < b.Length :: b[k] == old(b[k])
  }

  lemma WrapStep(n: int, base: int, d: int)
    requires base == 10 || base == 16
    ensures Wrap32(base * Wrap32(n) + d) == Wrap32(base * n + d)
  {
    var q := (n + 0x8000_0000) / 0x1_0000_0000;
    assert Wrap32(n) == n - q * 0x1_0000_0000;
    WrapShift(base * n + d, if base == 10 then 10 * q else 16 * q);
  }

  lemma WrapShift(n: int, k: int)
    ensures Wrap32(n - k * 0x1_0000_0000) == Wrap32(n)
  {
  }

  /** The digit loop: i ends behind the digits and an optional semicolon. */
  method ReadDigits(s: seq<byte>, start: nat, hex: bool) returns (x: int, i: nat)
    requires start <= |s|
    ensures var e := DigitsEnd(s, start, hex);
            && i == PastSemi(s, e)
            && (forall k | start <= k < e :: Digit(s[k], hex) >= 0)
            && x == Wrap32(Number(s, start, e, hex))
  {
    i := start;
    AllDigits(s, start, hex);
    x := 0;
    while i < |s|
      invariant start <= i <= DigitsEnd(s, start, hex) && DigitsEnd(s, i, hex) == DigitsEnd(s, start, hex)
      invariant x == Wrap32(Number(s, start, i, hex))
    {
      var c := s[i];
      WrapStep(Number(s, start, i, hex), if hex then 16 else 10, Digit(c, hex));
      i := i + 1;
      if hex {
        if 48 <= c <= 57 {
          x := Wrap32(16 * x + c - 48);
          continue;
        } else if 97 <= c <= 102 {
          x := Wrap32(16 * x + c - 97 + 10);
          continue;
        } else if 65 <= c <= 70 {
          x := Wrap32(16 * x + c - 65 + 10);
          continue;
        }
      } else if 48 <= c <= 57 {
        x := Wrap32(10 * x + c - 48);
        continue;
      }
      if c != SEMI {
        i := i - 1;
      }
      break;
    }
  }

  /** The cases of a numeric reference, in terms of the digits read. */
  lemma NumericCases(s: seq<byte>)
    requires |s| > 1 && s[0] == AMP && s[1] == HASH
    ensures var hex := IsHex(s);
            var e := DigitsEnd(s, if hex then 3 else 2, hex);
            Numeric(s) == if |s| <= 3 || PastSemi(s, e) <= 3 then ([AMP], 1)
                          else (AllDigits(s, if hex then 3 else 2, hex);
                                (EncodeRune(Fixup(Wrap32(Number(s, if hex then 3 else 2, e, hex)))), PastSemi(s, e)))
    ensures |Numeric(s).0| <= Numeric(s).1 <= |s|
  {
    AllDigits(s, if IsHex(s) then 3 else 2, IsHex(s));
  }

  /** The branch of unescapeEntity for references that begin with "&#". */
  method UnescapeNumeric(b: array<byte>, dst: nat, src: nat) returns (dst1: nat, src1: nat)
    requires dst <= src && src + 1 < b.Length && b[src] == AMP && b[src + 1] == HASH
    modifies b
    ensures var (out, n) := Numeric(old(b[src..]));
            && |out| <= n && src + n <= b.Length && dst1 == dst + |out| && src1 == src + n
            && Replaced(b, dst, src, out, n)
  {
    var s := b[src..];
    NumericCases(s);
    assert IsHex(s) == (|s| > 2 && (s[2] == LOWER_X || s[2] == UPPER_X));
    hide *;
    if |s| <= 3 {
      dst1, src1 := UnescapeKnown(b, dst, src, [b[src]], 1);
      return;
    }
    var hex := s[2] == LOWER_X || s[2] == UPPER_X;
    var x, i := ReadDigits(s, if hex then 3 else 2, hex);
    if i <= 3 {
      dst1, src1 := UnescapeKnown(b, dst, src, [b[src]], 1);
      return;
    }
    dst1, src1 := UnescapeKnown(b, dst, src, EncodeRune(Fixup(x)), i);
  }

  /** The name loop: i ends behind the name and an optional semicolon. */
  method ReadName(s: seq<byte>) returns (i: nat)
    requires |s| > 1
    ensures i == PastSemi(s, NameEnd(s, 1))
  {
    i := 1;
    while i < |s|
      invariant 1 <= i <= |s|
      invariant NameEnd(s, i) == NameEnd(s, 1)
    {
      var c := s[i];
      i := i + 1;
      if IsAlnum(c) {
        continue;
      }
      if c != SEMI {
        i := i - 1;
      }
      break;
    }
  }

  /** The loop that looks for an entity without semicolon at the head of name. */
  method FindPrefix(t: Tables, name: seq<byte>) returns (j: int)
    requires name != []
    ensures j == LongestPrefix(t, name, Min(|name| - 1, LONGEST_ENTITY_WITHOUT_SEMICOLON))
  {
    var maxLen := |name| - 1;
    if maxLen > LONGEST_ENTITY_WITHOUT_SEMICOLON {
      maxLen := LONGEST_ENTITY_WITHOUT_SEMICOLON;
    }
    j := maxLen;
    while j > 1
      invariant 0 <= j <= maxLen
      invariant LongestPrefix(t, name, j) == LongestPrefix(t, name, maxLen)
    {
      if Get(t.one, name[..j]) != 0 {
        return j;
      }
      j := j - 1;
    }
    return 0;
  }

  /** unescapeEntity: decodes the reference at b[src] to b[dst], in place. */
  method UnescapeEntity(t: Tables, b: array<byte>, dst: nat, src: nat) returns (dst1: nat, src1: nat)
    requires TablesOk(t) && dst <= src < b.Length && b[src] == AMP
    modifies b
    ensures var (out, n) := Reference(t, old(b[src..]));
            && |out| <= n && src + n <= b.Length && dst1 == dst + |out| && src1 == src + n
            && Replaced(b, dst, src, out, n)
  {
    var s := b[src..];
    ReferenceFits(t, s);
    if |s| <= 1 {
      b[dst] := b[src];
      assert b[dst..dst + 1] == [AMP];
      return dst + 1, src + 1;
    }
    if s[1] == HASH {
      dst1, src1 := UnescapeNumeric(b, dst, src);
    } else {
      dst1, src1 := UnescapeNamed(t, b, dst, src);
    }
  }

  /** copy(b[dst:dst+n], b[src:src+n]). */
  method CopyLiteral(b: array<byte>, dst: nat, src: nat, n: nat)
    requires dst <= src && src + n <= b.Length
    modifies b
    ensures Replaced(b, dst, src, old(b[src..src + n]), n)
  {
    forall k | 0 <= k < n {
      b[dst + k] := b[src + k];
    }
  }

  lemma NamedFits(t: Tables, s: seq<byte>)
    requires TablesOk(t) && |s| > 1 && s[0] == AMP
    ensures var (out, n) := Named(t, s); |out| <= n <= |s|
  {
  }

  /** The branch of unescapeEntity for named references. */
  method UnescapeNamed(t: Tables, b: array<byte>, dst: nat, src: nat) returns (dst1: nat, src1: nat)
    requires TablesOk(t) && dst <= src && src + 1 < b.Length && b[src] == AMP && b[src + 1] != HASH
    modifies b
    ensures var (out, n) := Named(t, old(b[src..]));
            && |out| <= n && src + n <= b.Length && dst1 == dst + |out| && src1 == src + n
            && Replaced(b, dst, src, out, n)
  {
    var s := b[src..];
    NamedFits(t, s);
    NamedCases(t, s);
    hide *;
    var i := ReadName(s);
    if Listed(t, s[1..i]) {
      dst1, src1 := UnescapeKnown(b, dst, src, Expansion(t, s[1..i]), i);
    } else {
      dst1, src1 := UnescapeUnknown(t, b, dst, src, i);
    }
  }

  lemma NamedCases(t: Tables, s: seq<byte>)
    requires |s| > 1 && s[0] == AMP
    ensures var i := PastSemi(s, NameEnd(s, 1));
            Named(t, s) == if Listed(t, s[1..i]) then (Expansion(t, s[1..i]), i) else Unlisted(t, s, i)
  {
    hide NameEnd, PastSemi;
  }

  /** Puts e in place of the n bytes at src. */
  method UnescapeKnown(b: array<byte>, dst: nat, src: nat, e: seq<byte>, n: nat) returns (dst1: nat, src1: nat)
    requires dst <= src && |e| <= n && src + n <= b.Length
    modifies b
    ensures dst1 == dst + |e| && src1 == src + n && Replaced(b, dst, src, e, n)
  {
    Put(b, dst, e);
    return dst + |e|, src + n;
  }

  /** What an entity of either map is replaced by; the map of single runes comes first. */
  function Expansion(t: Tables, name: seq<byte>): seq<byte> {
    if Get(t.one, name) != 0 then EncodeRune(Get(t.one, name))
    else EncodeRune(Get2(t.two, name).0) + EncodeRune(Get2(t.two, name).1)
  }

  /** The end of unescapeEntity: an entity without semicolon at the head of the name, or no entity. */
  method UnescapeUnknown(t: Tables, b: array<byte>, dst: nat, src: nat, i: nat) returns (dst1: nat, src1: nat)
    requires TablesOk(t) && dst <= src && 1 <= i && src + i <= b.Length
    modifies b
    ensures var (out, n) := Unlisted(t, old(b[src..]), i);
            && |out| <= n && src + n <= b.Length && dst1 == dst + |out| && src1 == src + n
            && Replaced(b, dst, src, out, n)
  {
    hide LongestPrefix, EncodeRune;
    var s := b[src..];
    var entityName := s[1..i];
    if |entityName| > 0 {
      var j := FindPrefix(t, entityName);
      if j > 0 {
        Put(b, dst, EncodeRune(t.one[entityName[..j]]));
        return dst + |EncodeRune(t.one[entityName[..j]])|, src + j + 1;
      }
    }
    assert b[src..src + i] == s[..i];
    CopyLiteral(b, dst, src, i);
    return dst + i, src + i;
  }

  // ---------------------------------------------------------------- the whole string

  lemma {:induction false} UnescapedPlain(t: Tables, p: seq<byte>, q: seq<byte>)
    requires TablesOk(t) && AMP !in p
    ensures Unescaped(t, p + q) == p + Unescaped(t, q)
  {
    hide TablesOk, Reference;
    if p == [] {
      assert p + q == q;
    } else {
      assert (p + q)[1..] == p[1..] + q && (p + q)[0] == p[0];
      UnescapedByte(t, p + q);
      UnescapedPlain(t, p[1..], q);
      hide Unescaped;
      assert [p[0]] + (p[1..] + Unescaped(t, q)) == p + Unescaped(t, q);
    }
  }

  lemma UnescapedByte(t: Tables, s: seq<byte>)
    requires TablesOk(t) && s != [] && s[0] != AMP
    ensures Unescaped(t, s) == [s[0]] + Unescaped(t, s[1..])
  {
  }

  lemma UnescapedNoAmp(t: Tables, p: seq<byte>)
    requires TablesOk(t) && AMP !in p
    ensures Unescaped(t, p) == p
  {
    UnescapedPlain(t, p, []);
    assert p + [] == p;
  }

  /** i plain bytes and then a reference. */
  lemma UnescapedNext(t: Tables, s: seq<byte>, i: nat)
    requires TablesOk(t) && i < |s| && s[i] == AMP && AMP !in s[..i]
    ensures var (out, n) := Reference(t, s[i..]);
            && 1 <= n <= |s| - i && |out| <= n
            && Unescaped(t, s) == s[..i] + out + Unescaped(t, s[i + n..])
  {
    hide Reference, TablesOk, Unescaped;
    var (out, n) := Reference(t, s[i..]);
    ReferenceFits(t, s[i..]);
    UnescapedPlain(t, s[..i], s[i..]);
    UnescapedReference(t, s[i..]);
    assert s[..i] + s[i..] == s;
    assert s[i..][n..] == s[i + n..];
    Base.Regroup(s[..i], out, Unescaped(t, s[i + n..]));
  }

  lemma UnescapedReference(t: Tables, s: seq<byte>)
    requires TablesOk(t) && s != [] && s[0] == AMP
    ensures var (out, n) := Reference(t, s);
            1 <= n <= |s| && Unescaped(t, s) == out + Unescaped(t, s[n..])
  {
    hide Reference, TablesOk;
    ReferenceFits(t, s);
  }

  lemma UnescapedFrom(t: Tables, s: seq<byte>, src: nat, i: nat)
    requires TablesOk(t) && src + i < |s| && s[src + i] == AMP && AMP !in s[src..][..i]
    ensures var (out, n) := Reference(t, s[src + i..]);
            && 1 <= n <= |s| - src - i && |out| <= n
            && Unescaped(t, s[src..]) == s[src..src + i] + out + Unescaped(t, s[src + i + n..])
  {
    hide Reference, Unescaped, TablesOk;
    UnescapedNext(t, s[src..], i);
    assert s[src..][i..] == s[src + i..];
    assert s[src..][..i] == s[src..src + i];
    var (out, n) := Reference(t, s[src + i..]);
    assert s[src..][i + n..] == s[src + i + n..];
  }

  lemma Regroup(a: seq<byte>, b: seq<byte>, c: seq<byte>, d: seq<byte>)
    ensures a + (b + c + d) == a + b + c + d
  {
    var x, y := a + (b + c + d), a + b + c + d;
    forall k | 0 <= k < |x|
      ensures x[k] == y[k]
    {
    }
  }

  /** The end of the loop body: moves the i plain bytes at src down and decodes the reference. */
  method DecodeNext(t: Tables, b: array<byte>, s: seq<byte>, dst: nat, src: nat, i: nat) returns (dst1: nat, src1: nat)
    requires TablesOk(t) && b.Length == |s| && dst <= src && src + i < |s|
    requires b[src..] == s[src..] && s[src + i] == AMP
    modifies b
    ensures var (out, n) := Reference(t, s[src + i..]);
            && |out| <= n && src + i + n <= |s|
            && dst1 == dst + i + |out| && src1 == src + i + n
            && b[..dst1] == old(b[..dst]) + s[src..src + i] + out
    ensures b[src1..] == s[src1..]
  {
    hide Reference, Unescaped, TablesOk;
    ghost var b0 := b[..];
    if i > 0 {
      Put(b, dst, s[src..src + i]);
    }
    ghost var b1 := b[..];
    SameTail(b0, b1, s, src, src + i);
    dst1, src1 := UnescapeEntity(t, b, dst + i, src + i);
    assert b1[dst..dst + i] == s[src..src + i];
    TwoWrites(b0, b1, b[..], dst, s[src..src + i], Reference(t, s[src + i..]).0, src1);
    SameTail(b0, b[..], s, src, src1);
  }

  /** The decoding of the first reference, before the loop. */
  method DecodeFirst(t: Tables, b: array<byte>, s: seq<byte>, i: nat) returns (dst: nat, src: nat)
    requires TablesOk(t) && b[..] == s && i < |s| && s[i] == AMP
    modifies b
    ensures var (out, n) := Reference(t, s[i..]);
            && |out| <= n && i + n <= |s|
            && dst == i + |out| && src == i + n
            && b[..dst] == s[..i] + out
    ensures b[src..] == s[src..]
  {
    hide Reference, TablesOk;
    ghost var b0 := b[..];
    assert b[i..] == s[i..] && b0[0..] == s[0..];
    dst, src := UnescapeEntity(t, b, i, i);
    TwoWrites(b0, b0, b[..], 0, s[..i], Reference(t, s[i..]).0, src);
    SameTail(b0, b[..], s, 0, src);
  }

  lemma SameTail(b0: seq<byte>, b1: seq<byte>, s: seq<byte>, from: nat, to: nat)
    requires |b0| == |b1| == |s| && from <= to <= |s| && b0[from..] == s[from..]
    requires forall k | to <= k < |s| :: b1[k] == b0[k]
    ensures b1[to..] == s[to..]
  {
    forall k | to <= k < |s|
      ensures b1[k] == s[k]
    {
      assert b0[from..][k - from] == s[from..][k - from];
    }
  }

  /** Two writes side by side, the second one touching nothing behind end. */
  lemma TwoWrites(b0: seq<byte>, b1: seq<byte>, b2: seq<byte>, at: nat, p: seq<byte>, out: seq<byte>, end: nat)
    requires |b0| == |b1| == |b2| && at + |p| + |out| <= end <= |b0|
    requires b1[at..at + |p|] == p && forall k | 0 <= k < at || at + |p| <= k < |b0| :: b1[k] == b0[k]
    requires b2[at + |p|..at + |p| + |out|] == out
    requires forall k | 0 <= k < at + |p| || end <= k < |b0| :: b2[k] == b1[k]
    ensures b2[..at + |p| + |out|] == b0[..at] + p + out
    ensures forall k | end <= k < |b0| :: b2[k] == b0[k]
  {
    assert b2[at..at + |p|] == p;
    assert b2[..at + |p| + |out|] == b2[..at] + b2[at..at + |p|] + b2[at + |p|..at + |p| + |out|];
  }

  /** The end of the string: dst += copy(b[dst:], tail) and b[:dst]. */
  method CopyTail(b: array<byte>, dst: nat, tail: seq<byte>) returns (r: seq<byte>)
    requires dst + |tail| <= b.Length
    modifies b
    ensures r == old(b[..dst]) + tail
  {
    Put(b, dst, tail);
    r := b[..dst + |tail|];
  }

  /** done is the decoding of s up to src. */
  ghost predicate Decoded(t: Tables, s: seq<byte>, done: seq<byte>, src: nat)
    requires TablesOk(t) && src <= |s|
  {
    done + Unescaped(t, s[src..]) == Unescaped(t, s)
  }

  lemma DecodedNext(t: Tables, s: seq<byte>, done: seq<byte>, src: nat, i: nat)
    requires TablesOk(t) && src + i < |s| && s[src + i] == AMP && AMP !in s[src..][..i]
    requires Decoded(t, s, done, src)
    ensures var (out, n) := Reference(t, s[src + i..]);
            && 1 <= n <= |s| - src - i && |out| <= n
            && Decoded(t, s, done + s[src..src + i] + out, src + i + n)
  {
    hide Reference, Unescaped, TablesOk;
    UnescapedFrom(t, s, src, i);
    var (out, n) := Reference(t, s[src + i..]);
    Regroup(done, s[src..src + i], out, Unescaped(t, s[src + i + n..]));
  }

  lemma DecodedEnd(t: Tables, s: seq<byte>, done: seq<byte>, src: nat)
    requires TablesOk(t) && src <= |s| && AMP !in s[src..] && Decoded(t, s, done, src)
    ensures done + s[src..] == Unescaped(t, s)
  {
    UnescapedNoAmp(t, s[src..]);
  }

  /** UnescapeString: one pass over a copy b of s. The write cursor dst never overtakes the read
      cursor src, and what has not been read yet is still what s has there. */
  method UnescapeString(t: Tables, s: seq<byte>) returns (r: seq<byte>)
    requires TablesOk(t)
    ensures r == Unescaped(t, s)
  {
    hide *;
    var i := IndexByte(s, AMP);
    if i < 0 {
      UnescapedNoAmp(t, s);
      return s;
    }
    var b := new byte[|s|](k requires 0 <= k < |s| => s[k]);
    assert b[..] == s && s[0..] == s && s[0..][..i] == s[..i];
    DecodedStart(t, s);
    DecodedNext(t, s, [], 0, i);
    assert [] + s[0..0 + i] == s[..i];
    var dst: nat, src: nat := DecodeFirst(t, b, s, i);
    while src < |s|
      invariant dst <= src <= |s| && b.Length == |s|
      invariant b[src..] == s[src..]
      invariant Decoded(t, s, b[..dst], src)
    {
      if s[src] == AMP {
        i := 0;
      } else {
        i := IndexByte(s[src..], AMP);
      }
      if i < 0 {
        DecodedEnd(t, s, b[..dst], src);
        r := CopyTail(b, dst, s[src..]);
        return;
      }
      DecodedNext(t, s, b[..dst], src, i);
      dst, src := DecodeNext(t, b, s, dst, src, i);
    }
    DecodedEnd(t, s, b[..dst], src);
    assert b[..dst] + s[src..] == b[..dst];
    return b[..dst];
  }

  lemma DecodedStart(t: Tables, s: seq<byte>)
    requires TablesOk(t)
    ensures Decoded(t, s, [], 0)
  {
    assert s[0..] == s;
  }

  // ---------------------------------------------------------------- the round trip

  /** The five replacements of htmlEscaper. */
  function EscapeByte(c: byte): (e: seq<byte>)
    ensures |e| > 0
  {
    if c == AMP then [AMP] + AMP_NAME
    else if c == APOS then [AMP, HASH, 51, 57, SEMI]
    else if c == LT then [AMP] + LT_NAME
    else if c == GT then [AMP] + GT_NAME
    else if c == QUOT then [AMP, HASH, 51, 52, SEMI]
    else [c]
  }

  /** EscapeString. */
  function Escaped(s: seq<byte>): seq<byte> {
    if s == [] then [] else EscapeByte(s[0]) + Escaped(s[1..])
  }

  lemma NamedEscape(t: Tables, name: seq<byte>, c: byte, rest: seq<byte>)
    requires TablesOk(t) && (name == AMP_NAME || name == LT_NAME || name == GT_NAME)
    requires t.one[name] == c != 0 && c <= 0x7F
    ensures Reference(t, [AMP] + name + rest) == ([c], |name| + 1)
  {
    var s := [AMP] + name + rest;
    var e := |name|;
    assert s[e] == SEMI && s[1..e + 1] == name;
    assert NameEnd(s, e) == e;
    assert NameEnd(s, e - 1) == e;
    assert NameEnd(s, e - 2) == e;
    assert NameEnd(s, 1) == e;
  }

  lemma TwoDigits(s: seq<byte>)
    requires |s| >= 5 && 48 <= s[2] <= 57 && 48 <= s[3] <= 57 && s[4] == SEMI
    ensures !IsHex(s) && RefEnd(s) == 4 && RefNumber(s) == 10 * (s[2] - 48) + (s[3] - 48)
    ensures PastSemi(s, 4) == 5
  {
    assert DigitsEnd(s, 4, false) == 4;
    assert DigitsEnd(s, 3, false) == 4;
    AllDigits(s, 2, false);
    assert Number(s, 2, 3, false) == Digit(s[2], false);
  }

  lemma NumericEscape(t: Tables, digit: byte, rest: seq<byte>)
    requires 48 <= digit <= 57
    ensures Reference(t, [AMP, HASH, 51, digit, SEMI] + rest) == ([30 + digit - 48], 5)
  {
    var s := [AMP, HASH, 51, digit, SEMI] + rest;
    assert s[0] == AMP && s[1] == HASH && s[2] == 51 && s[3] == digit && s[4] == SEMI;
    hide *;
    TwoDigitsValue(s);
    NumericReference(t, s);
  }

  lemma NumericReference(t: Tables, s: seq<byte>)
    requires |s| > 1 && s[0] == AMP && s[1] == HASH
    ensures Reference(t, s) == Numeric(s)
  {
    hide Numeric, Named;
  }

  lemma TwoDigitsValue(s: seq<byte>)
    requires |s| >= 5 && s[0] == AMP && s[1] == HASH && s[2] == 51 && 48 <= s[3] <= 57 && s[4] == SEMI
    ensures Numeric(s) == ([30 + s[3] - 48], 5)
  {
    hide *;
    TwoDigits(s);
    NumericValue(s);
    EncodedAscii(RefNumber(s), 30 + s[3] - 48);
  }

  /** A number that wraps to an ASCII character is encoded as it. */
  lemma EncodedAscii(number: nat, c: byte)
    requires 0 < c <= 0x7F && number % 0x1_0000_0000 == c
    ensures EncodeRune(Fixup(Wrap32(number))) == [c]
  {
    hide Fixup, EncodeRune;
    WrapSmall(number, c);
    PlainRune(c);
  }

  lemma WrapSmall(number: nat, c: byte)
    requires 0 < c <= 0x7F && number % 0x1_0000_0000 == c
    ensures Wrap32(number) == c
  {
  }

  lemma PlainRune(c: byte)
    requires 0 < c <= 0x7F
    ensures Fixup(c) == c && EncodeRune(c) == [c]
  {
  }

  lemma EscapedReference(t: Tables, c: byte, rest: seq<byte>)
    requires TablesOk(t) && (c == AMP || c == APOS || c == LT || c == GT || c == QUOT)
    ensures Reference(t, EscapeByte(c) + rest) == ([c], |EscapeByte(c)|)
  {
    if c == AMP {
      NamedEscape(t, AMP_NAME, c, rest);
    } else if c == LT {
      NamedEscape(t, LT_NAME, c, rest);
    } else if c == GT {
      NamedEscape(t, GT_NAME, c, rest);
    } else if c == APOS {
      NumericEscape(t, 57, rest);
    } else {
      NumericEscape(t, 52, rest);
    }
  }

  /** The law the package documents: UnescapeString(EscapeString(s)) == s, for every byte string. */
  lemma {:induction false} RoundTrip(t: Tables, s: seq<byte>)
    requires TablesOk(t)
    ensures Unescaped(t, Escaped(s)) == s
  {
    hide Reference, TablesOk;
    if s != [] {
      var c, rest := s[0], Escaped(s[1..]);
      RoundTrip(t, s[1..]);
      if c == AMP || c == APOS || c == LT || c == GT || c == QUOT {
        EscapedReference(t, c, rest);
        assert (EscapeByte(c) + rest)[|EscapeByte(c)|..] == rest;
      } else {
        UnescapedPlain(t, [c], rest);
      }
      assert [c] + s[1..] == s;
    }
  }

  predicate Special(c: byte) {
    c == LT || c == GT || c == QUOT || c == APOS
  }

  /** No character that means something in HTML is left, except the ampersands of the escapes; and a text
      without any of the five is not changed. */
  lemma {:induction false} EscapedIsSafe(s: seq<byte>)
    ensures forall c | c in Escaped(s) :: !Special(c)
    ensures (forall c | c in s :: !Special(c) && c != AMP) <==> Escaped(s) == s
  {
    if s != [] {
      hide Special;
      EscapedIsSafe(s[1..]);
      EscapedIsLonger(s[1..]);
      ByteIsSafe(s[0]);
      assert s == [s[0]] + s[1..];
      assert (forall c | c in s :: !Special(c) && c != AMP) <==>
             !Special(s[0]) && s[0] != AMP && forall c | c in s[1..] :: !Special(c) && c != AMP;
    }
  }

  lemma ByteIsSafe(c: byte)
    ensures forall d | d in EscapeByte(c) :: !Special(d)
    ensures if !Special(c) && c != AMP then EscapeByte(c) == [c] else |EscapeByte(c)| > 1
  {
  }

  lemma {:induction false} EscapedIsLonger(s: seq<byte>)
    ensures |Escaped(s)| >= |s|
  {
    if s != [] {
      EscapedIsLonger(s[1..]);
    }
  }

  // ---------------------------------------------------------------- numeric references and the standard

  /** The table of section 13.2.5.80 of the WHATWG HTML Standard. */
  function StandardTable(number: nat): int {
    match number
    case 0x80 => 0x20AC
    case 0x82 => 0x201A
    case 0x83 => 0x0192
    case 0x84 => 0x201E
    case 0x85 => 0x2026
    case 0x86 => 0x2020
    case 0x87 => 0x2021
    case 0x88 => 0x02C6
    case 0x89 => 0x2030
    case 0x8A => 0x0160
    case 0x8B => 0x2039
    case 0x8C => 0x0152
    case 0x8E => 0x017D
    case 0x91 => 0x2018
    case 0x92 => 0x2019
    case 0x93 => 0x201C
    case 0x94 => 0x201D
    case 0x95 => 0x2022
    case 0x96 => 0x2013
    case 0x97 => 0x2014
    case 0x98 => 0x02DC
    case 0x99 => 0x2122
    case 0x9A => 0x0161
    case 0x9B => 0x203A
    case 0x9C => 0x0153
    case 0x9E => 0x017E
    case 0x9F => 0x0178
    case _ => number
  }

  /** The character that this section gives for a number. */
  function StandardChar(number: nat): int {
    if number == 0 || number > 0x10FFFF || 0xD800 <= number <= 0xDFFF then 0xFFFD
    else StandardTable(number)
  }

  lemma FixupConforms(number: nat)
    ensures Fixup(number) == StandardChar(number)
  {
  }

  lemma IsHexMeans(s: seq<byte>)
    ensures IsHex(s) <==> |s| > 2 && (s[2] as char == 'x' || s[2] as char == 'X')
  {
  }

  /** The digits of the two bases. */
  lemma DigitTable(k: nat)
    ensures k < 10 ==> Digit("0123456789"[k] as int, false) == k
    ensures k < 16 ==> Digit("0123456789abcdef"[k] as int, true) == k == Digit("0123456789ABCDEF"[k] as int, true)
  {
  }

  lemma NoOtherDigits(c: byte)
    ensures Digit(c, false) >= 0 ==> c as char in "0123456789"
    ensures Digit(c, true) >= 0 ==> c as char in "0123456789abcdefABCDEF"
  {
    if Digit(c, false) >= 0 {
      DigitTable(Digit(c, false));
      assert c as char == "0123456789"[Digit(c, false)];
    }
    if Digit(c, true) >= 0 {
      DigitTable(Digit(c, true));
      assert c as char == "0123456789abcdef"[Digit(c, true)] || c as char == "0123456789ABCDEF"[Digit(c, true)];
      assert forall k | 0 <= k < 16 :: "0123456789ABCDEF"[k] in "0123456789abcdefABCDEF";
    }
  }

  /** A numeric reference as sections 13.2.5.75 to 13.2.5.80 of the WHATWG HTML Standard read it. */
  ghost function Standard(s: seq<byte>): (seq<byte>, nat)
    requires |s| > 1 && s[0] == AMP && s[1] == HASH
  {
    if RefEnd(s) == DigitsStart(s) then ([AMP], 1)
    else (EncodeRune(StandardChar(RefNumber(s))), PastSemi(s, RefEnd(s)))
  }

  lemma EncodeInjective(a: int, b: int)
    requires EncodeRune(a) == EncodeRune(b)
    ensures (if IsScalar(a) then a else RUNE_ERROR) == (if IsScalar(b) then b else RUNE_ERROR)
  {
    EncodeDecode(a, []);
    EncodeDecode(b, []);
    assert EncodeRune(a) + [] == EncodeRune(b) + [];
  }

  /** An int32 value for which something other than U+FFFD is emitted. */
  predicate IsVisible(x: int) {
    IsScalar(x) && x != 0 && x != RUNE_ERROR
  }

  lemma FixupVisible(x: int)
    ensures IsVisible(x) <==> EncodeRune(Fixup(x)) != EncodeRune(RUNE_ERROR)
  {
    if EncodeRune(Fixup(x)) == EncodeRune(RUNE_ERROR) {
      EncodeInjective(Fixup(x), RUNE_ERROR);
    }
  }

  lemma EmptyNumber(s: seq<byte>)
    requires |s| > 1
    ensures RefEnd(s) == DigitsStart(s) ==> RefNumber(s) == 0
  {
  }

  /** unescapeEntity departs from the standard in exactly three cases: a single decimal digit without
      semicolon is taken literally, "&#x;" yields U+FFFD, and a number beyond U+10FFFF yields the
      scalar value that its low 32 bits happen to be. */
  lemma NumericConforms(s: seq<byte>)
    requires |s| > 1 && s[0] == AMP && s[1] == HASH
    ensures Numeric(s) == Standard(s) <==>
            && !(!IsHex(s) && RefEnd(s) == 3 && PastSemi(s, 3) == 3)
            && !(IsHex(s) && RefEnd(s) == 3 && PastSemi(s, 3) == 4)
            && !(RefNumber(s) > MAX_RUNE && IsVisible(Wrap32(RefNumber(s))))
  {
    hide DigitsEnd, EncodeRune, RefNumber, Fixup, StandardChar;
    EmptyNumber(s);
    if RefEnd(s) > DigitsStart(s) {
      ValueConforms(RefNumber(s));
    }
  }

  lemma ValueConforms(number: nat)
    ensures EncodeRune(Fixup(Wrap32(number))) == EncodeRune(StandardChar(number)) <==>
            !(number > MAX_RUNE && IsVisible(Wrap32(number)))
  {
    FixupConforms(number);
    FixupVisible(number);
    FixupVisible(Wrap32(number));
    hide EncodeRune;
    if number <= MAX_RUNE {
      assert Wrap32(number) == number;
    } else {
      assert Fixup(number) == RUNE_ERROR;
    }
  }

  const OVERFLOWING: seq<byte> := [AMP, HASH, LOWER_X, 49, 48, 48, 48, 48, 48, 48, 52, 49, SEMI]

  lemma OverflowingNumber(s: seq<byte>)
    requires s == OVERFLOWING
    ensures RefEnd(s) == 12 && RefNumber(s) == 0x1_0000_0041
  {
    var i: nat := 12;
    while i > 3
      invariant 3 <= i <= 12 && DigitsEnd(s, i, true) == 12
    {
      i := i - 1;
    }
    assert Number(s, 3, 5, true) == 0x10;
    assert Number(s, 3, 7, true) == 0x1000;
    assert Number(s, 3, 9, true) == 0x10_0000;
    assert Number(s, 3, 11, true) == 0x1000_0004;
  }

  /** "&#x100000041;" yields "A". */
  lemma OverflowExample(s: seq<byte>)
    requires s == OVERFLOWING
    ensures Numeric(s) == ([65], 13)
  {
    OverflowingNumber(s);
    NumericValue(s);
    EncodedAscii(0x1_0000_0041, 65);
    hide Numeric, RefNumber, RefEnd, DigitsEnd, Wrap32, Fixup, EncodeRune;
  }

  lemma NumericValue(s: seq<byte>)
    requires |s| > 3 && s[0] == AMP && s[1] == HASH && RefEnd(s) > 3
    ensures Numeric(s) == (EncodeRune(Fixup(Wrap32(RefNumber(s)))), PastSemi(s, RefEnd(s)))
  {
  }

  /** "&#7 " stays as it is, and "&#x;" yields U+FFFD. */
  lemma DigitExamples()
    ensures Numeric([AMP, HASH, 55, 32]) == ([AMP], 1)
    ensures Numeric([AMP, HASH, LOWER_X, SEMI]) == (EncodeRune(RUNE_ERROR), 4)
  {
    hide EncodeRune;
    LoneDigit([AMP, HASH, 55, 32]);
    LoneX([AMP, HASH, LOWER_X, SEMI]);
  }

  lemma LoneDigit(s: seq<byte>)
    requires s == [AMP, HASH, 55, 32]
    ensures Numeric(s) == ([AMP], 1)
  {
    hide EncodeRune;
    assert DigitsEnd(s, 3, false) == 3;
  }

  lemma LoneX(s: seq<byte>)
    requires s == [AMP, HASH, LOWER_X, SEMI]
    ensures Numeric(s) == (EncodeRune(RUNE_ERROR), 4)
  {
    hide EncodeRune;
    assert DigitsEnd(s, 3, true) == 3;
    assert RefNumber(s) == 0;
  }

  // ---------------------------------------------------------------- named references and the standard

  /** A letter or digit of ASCII. */
  predicate IsNameChar(c: byte) {
    'a' <= c as char <= 'z' || 'A' <= c as char <= 'Z' || '0' <= c as char <= '9'
  }

  predicate IsEntity(t: Tables, name: seq<byte>) {
    (name in t.one && t.one[name] != 0) || (name in t.two && t.two[name].0 != 0)
  }

  /** The names of the standard's table: letters and digits, and mostly a semicolon behind them. Those
      without are short (as the package's tests check) and stand for one character. */
  ghost predicate NamesOk(t: Tables) {
    forall name | IsEntity(t, name) ::
      && |name| >= 2 && (forall k | 0 <= k < |name| - 1 :: IsNameChar(name[k]))
      && (name[|name| - 1] == SEMI
          || (IsNameChar(name[|name| - 1]) && |name| <= 6 && name in t.one && t.one[name] != 0))
  }

  /** The k bytes behind the ampersand are an entity. */
  predicate Matches(t: Tables, s: seq<byte>, k: nat) {
    0 < k < |s| && IsEntity(t, s[1..1 + k])
  }

  /** What the standard has for an entity. */
  function Meaning(t: Tables, name: seq<byte>): seq<byte>
    requires IsEntity(t, name)
  {
    if name in t.one && t.one[name] != 0 then EncodeRune(t.one[name])
    else EncodeRune(t.two[name].0) + EncodeRune(t.two[name].1)
  }

  lemma {:induction false} NameRun(s: seq<byte>, i: nat)
    requires i <= |s|
    ensures forall k | i <= k < NameEnd(s, i) :: IsAlnum(s[k])
    ensures NameEnd(s, i) < |s| ==> !IsAlnum(s[NameEnd(s, i)])
    decreases |s| - i
  {
    if i < |s| && IsAlnum(s[i]) {
      NameRun(s, i + 1);
    }
  }

  /** An entity that does not end where the name that is read does. */
  lemma MatchWithin(t: Tables, s: seq<byte>, k: nat)
    requires NamesOk(t) && |s| > 1 && Matches(t, s, k)
    ensures var i := PastSemi(s, NameEnd(s, 1));
            k <= i - 1 && (k < i - 1 ==> 2 <= k <= 6 && s[1..1 + k] in t.one && t.one[s[1..1 + k]] != 0)
  {
    hide IsEntity, NameEnd;
    var name := s[1..1 + k];
    NameRun(s, 1);
    assert forall m | 0 <= m < k :: name[m] == s[m + 1];
    EntityShape(t, name);
    ShapeWithin(s, k, NameEnd(s, 1));
  }

  lemma EntityShape(t: Tables, name: seq<byte>)
    requires NamesOk(t) && IsEntity(t, name)
    ensures |name| >= 2 && (forall k | 0 <= k < |name| - 1 :: IsAlnum(name[k]))
    ensures name[|name| - 1] == SEMI || IsAlnum(name[|name| - 1])
    ensures name[|name| - 1] != SEMI ==> |name| <= 6 && name in t.one && t.one[name] != 0
  {
    hide IsEntity;
    assert forall c: byte :: IsNameChar(c) == IsAlnum(c);
  }

  /** Letters and digits, and perhaps a semicolon, in front of what follows the run of them. */
  lemma ShapeWithin(s: seq<byte>, k: nat, e: nat)
    requires 0 < k < |s| && 1 <= e <= |s|
    requires (forall m | 1 <= m < e :: IsAlnum(s[m])) && (e < |s| ==> !IsAlnum(s[e]))
    requires (forall m | 1 <= m < k :: IsAlnum(s[m])) && (s[k] == SEMI || IsAlnum(s[k]))
    ensures k <= PastSemi(s, e) - 1 && (k < PastSemi(s, e) - 1 ==> s[k] != SEMI)
  {
  }

  /** A named reference is decoded as section 13.2.5.73 of the WHATWG HTML Standard says: the longest run of
      characters that is an entity is replaced by what the entity means; if there is none, the text
      stays. */
  lemma NamedConforms(t: Tables, s: seq<byte>)
    requires NamesOk(t) && |s| > 1 && s[0] == AMP
    ensures forall k: nat | Matches(t, s, k) && (forall j: nat | j > k :: !Matches(t, s, j)) ::
              Named(t, s) == (Meaning(t, s[1..1 + k]), k + 1)
    ensures (forall k: nat :: !Matches(t, s, k)) ==>
              var (out, n) := Named(t, s); 1 <= n <= |s| && out == s[..n] && AMP !in s[1..n]
  {
    hide NamesOk, Meaning, IsEntity;
    var i := PastSemi(s, NameEnd(s, 1));
    var name := s[1..i];
    NamedLongest(t, s);
    NamePlain(s);
    forall k: nat | Matches(t, s, k) && (forall j: nat | j > k :: !Matches(t, s, j))
      ensures Named(t, s) == (Meaning(t, s[1..1 + k]), k + 1)
    {
    }
  }

  lemma NamePlain(s: seq<byte>)
    requires |s| > 1
    ensures AMP !in s[1..PastSemi(s, NameEnd(s, 1))]
  {
    NameRun(s, 1);
  }

  /** What Named takes is a match that no other one exceeds, or there is none. */
  lemma NamedLongest(t: Tables, s: seq<byte>)
    requires NamesOk(t) && |s| > 1 && s[0] == AMP
    ensures var (out, n) := Named(t, s);
            if Matches(t, s, n - 1) && out == Meaning(t, s[1..1 + (n - 1)])
            then forall k: nat | Matches(t, s, k) :: k <= n - 1
            else (forall k: nat :: !Matches(t, s, k)) && n == PastSemi(s, NameEnd(s, 1)) && out == s[..n]
  {
    hide NamesOk, NameEnd, PastSemi, EncodeRune, LongestPrefix;
    var i := PastSemi(s, NameEnd(s, 1));
    forall k: nat | Matches(t, s, k)
      ensures k <= i - 1 && (k < i - 1 ==> 2 <= k <= 6 && s[1..1 + k] in t.one && t.one[s[1..1 + k]] != 0)
    {
      MatchWithin(t, s, k);
    }
    var name := s[1..i];
    if Listed(t, name) {
      assert Matches(t, s, i - 1);
    } else {
      UnlistedLongest(t, s, i);
    }
  }

  lemma UnlistedLongest(t: Tables, s: seq<byte>, i: nat)
    requires 1 <= i <= |s| && !Listed(t, s[1..i])
    requires forall k: nat | Matches(t, s, k) ::
               k <= i - 1 && (k < i - 1 ==> 2 <= k <= 6 && s[1..1 + k] in t.one && t.one[s[1..1 + k]] != 0)
    ensures var (out, n) := Unlisted(t, s, i);
            if Matches(t, s, n - 1) && out == Meaning(t, s[1..1 + (n - 1)])
            then forall k: nat | Matches(t, s, k) :: k <= n - 1
            else (forall k: nat :: !Matches(t, s, k)) && n == i && out == s[..n]
  {
    hide EncodeRune;
    var name := s[1..i];
    forall k: nat | Matches(t, s, k)
      ensures k < |name| && name[..k] == s[1..1 + k] && 2 <= k <= 6 && name[..k] in t.one && t.one[name[..k]] != 0
    {
    }
    if name != [] {
      var m := Min(|name| - 1, LONGEST_ENTITY_WITHOUT_SEMICOLON);
      var j := LongestPrefix(t, name, m);
      if j > 0 {
        assert name[..j] == s[1..1 + j];
        assert Matches(t, s, j);
      }
    }
  }
}
