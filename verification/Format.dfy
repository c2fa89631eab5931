/** fmt.fmtInteger: integers formatted right to left into a fixed buffer, then padded. */
module Format {
  import opened Base

  const LDIGITS := "0123456789abcdefx"
  const UDIGITS := "0123456789ABCDEFX"

  /** A uint64. */
  type u64 = x: int | 0 <= x < TWO64

  predicate IsBase(base: int) {
    base == 2 || base == 8 || base == 10 || base == 16
  }

  // ---------------------------------------------------------------- digits and their value

  /** n in the given base, most significant digit first. */
  function Digits(n: nat, base: nat, digits: string): (s: string)
    requires 2 <= base <= 16 && |digits| == 17
    ensures |s| > 0
  {
    if n < base then [digits[n]] else Digits(n / base, base, digits) + [digits[n % base]]
  }

  lemma DigitsStep(u: nat, base: nat, digits: string)
    requires 2 <= base <= 16 && |digits| == 17 && u >= base
    ensures Digits(u, base, digits) == Digits(u / base, base, digits) + [digits[u % base]]
  {
  }

  lemma FirstDigit(u: nat, base: nat, digits: string)
    requires 2 <= base <= 16 && |digits| == 17 && u < base
    ensures Digits(u, base, digits) == [digits[u]]
  {
  }

  function DigitValue(c: char): int {
    if '0' <= c <= '9' then c as int - '0' as int
    else if 'a' <= c <= 'f' then c as int - 'a' as int + 10
    else if 'A' <= c <= 'F' then c as int - 'A' as int + 10
    else -1
  }

  /** The number that a digit string denotes. */
  function Value(s: string, base: nat): int {
    if s == "" then 0 else Value(s[..|s| - 1], base) * base + DigitValue(s[|s| - 1])
  }

  function Repeat(c: char, n: int): (s: string)
    ensures |s| == Max(n, 0)
  {
    seq(Max(n, 0), _ => c)
  }

  function Zeros(n: int): (s: string)
    ensures |s| == Max(n, 0)
  {
    Repeat('0', n)
  }

  lemma DigitTables(k: nat)
    requires k < 16
    ensures DigitValue(LDIGITS[k]) == k && DigitValue(UDIGITS[k]) == k
    ensures k < 10 ==> LDIGITS[k] == UDIGITS[k] == ('0' as int + k) as char
  {
  }

  lemma DivMod(n: nat, base: nat)
    requires base > 0
    ensures n / base * base + n % base == n
  {
  }

  lemma ValueSnoc(s: string, c: char, base: nat)
    ensures Value(s + [c], base) == Value(s, base) * base + DigitValue(c)
    ensures Value("", base) == 0
  {
    assert (s + [c])[..|s|] == s;
  }

  /** Both digit strings of the package. */
  predicate IsDigits(digits: string) {
    digits == LDIGITS || digits == UDIGITS
  }

  lemma DigitOf(digits: string, k: nat)
    requires IsDigits(digits) && k < 16
    ensures |digits| == 17 && DigitValue(digits[k]) == k
    ensures k < 10 ==> digits[k] == ('0' as int + k) as char
  {
    DigitTables(k);
  }

  lemma {:induction false} DigitsValue(n: nat, base: nat, digits: string)
    requires 2 <= base <= 16 && |digits| == 17 && IsDigits(digits)
    ensures Value(Digits(n, base, digits), base) == n
  {
    hide Value, IsDigits;
    if n < base {
      ValueSnoc("", digits[n], base);
      assert "" + [digits[n]] == [digits[n]];
      DigitOf(digits, n);
    } else {
      var q, m := n / base, n % base;
      DivMod(n, base);
      DigitsValue(q, base, digits);
      ValueSnoc(Digits(q, base, digits), digits[m], base);
      DigitOf(digits, m);
    }
  }

  lemma {:induction false} ZerosValue(k: nat, s: string, base: nat)
    ensures Value(Zeros(k) + s, base) == Value(s, base)
    decreases |s|, k
  {
    var t := Zeros(k) + s;
    if s != "" {
      assert t[..|t| - 1] == Zeros(k) + s[..|s| - 1];
      ZerosValue(k, s[..|s| - 1], base);
    } else if k > 0 {
      assert t[..|t| - 1] == Zeros(k - 1) + "";
      ZerosValue(k - 1, "", base);
    }
  }

  function Pow2(k: nat): nat {
    if k == 0 then 1 else 2 * Pow2(k - 1)
  }

  lemma Shrinks(n: nat, base: nat)
    requires base >= 2
    ensures 2 * (n / base) <= n
  {
    DivMod(n, base);
    var q := n / base;
    assert q * base >= q * 2;
  }

  lemma {:induction false} DigitsLength(n: nat, base: nat, digits: string, k: nat)
    requires 2 <= base <= 16 && |digits| == 17 && 1 <= k && n < Pow2(k)
    ensures |Digits(n, base, digits)| <= k
  {
    if n < base {
      FirstDigit(n, base, digits);
    } else {
      DigitsStep(n, base, digits);
      hide Digits;
      Shrinks(n, base);
      assert k > 1;
      DigitsLength(n / base, base, digits, k - 1);
    }
  }

  lemma Double(x: nat, y: nat)
    ensures 2 * (x * y) == (2 * x) * y
  {
  }

  lemma {:induction false} Pow2Add(a: nat, b: nat)
    ensures Pow2(a + b) == Pow2(a) * Pow2(b)
  {
    if a > 0 {
      Pow2Add(a - 1, b);
      Double(Pow2(a - 1), Pow2(b));
    }
  }

  lemma Pow64()
    ensures Pow2(64) == TWO64
  {
    assert Pow2(2) == 4;
    assert Pow2(4) == 16;
    Pow2Add(4, 4);
    Pow2Add(8, 8);
    Pow2Add(16, 16);
    Pow2Add(32, 32);
  }

  lemma DigitsFit(u: u64, base: nat, digits: string)
    requires 2 <= base <= 16 && |digits| == 17
    ensures |Digits(u, base, digits)| <= 64
  {
    Pow64();
    DigitsLength(u, base, digits, 64);
  }

  // ---------------------------------------------------------------- the text

  datatype Flags = Flags(
    widPresent: bool, precPresent: bool, minus: bool, plus: bool, sharp: bool, space: bool, zero: bool,
    wid: nat, prec: nat)

  /** The minimal number of digits that %.nd or %0nd ask for. */
  function MinDigits(f: Flags, negative: bool): int {
    if f.precPresent then f.prec
    else if f.zero && !f.minus && f.widPresent then f.wid - (if negative || f.plus || f.space then 1 else 0)
    else 0
  }

  function Body(f: Flags, negative: bool, u: u64, base: nat, digits: string): (s: string)
    requires 2 <= base <= 16 && |digits| == 17
    ensures |s| > 0
  {
    var d := Digits(u, base, digits);
    Zeros(MinDigits(f, negative) - |d|) + d
  }

  function Sharp(f: Flags, base: nat, digits: string, body: string): string
    requires |digits| == 17 && |body| > 0
  {
    if !f.sharp then ""
    else if base == 2 then "0b"
    else if base == 8 then (if body[0] != '0' then "0" else "")
    else if base == 16 then ['0', digits[16]]
    else ""
  }

  function Sign(f: Flags, negative: bool): string {
    if negative then "-" else if f.plus then "+" else if f.space then " " else ""
  }

  /** Sign, base prefix, leading zeros and digits. */
  function Text(f: Flags, negative: bool, u: u64, base: nat, verbO: bool, digits: string): string
    requires 2 <= base <= 16 && |digits| == 17
  {
    var body := Body(f, negative, u, base, digits);
    Sign(f, negative) + (if verbO then "0o" else "") + Sharp(f, base, digits, body) + body
  }

  function Spaces(n: int): (s: string)
    ensures |s| == Max(n, 0)
  {
    Repeat(' ', n)
  }

  /** Padded with spaces to the width. */
  function Padded(f: Flags, text: string): string {
    Filled(f, text, ' ')
  }

  function Filled(f: Flags, text: string, c: char): string {
    if !f.widPresent then text
    else if f.minus then text + Repeat(c, f.wid - |text|)
    else Repeat(c, f.wid - |text|) + text
  }

  /** What padding is made of, given the flags as they are. */
  function PadChar(f: Flags): char {
    if f.zero && !f.minus then '0' else ' '
  }

  /** The size of the buffer. */
  function BufferSize(f: Flags): nat {
    if f.widPresent || f.precPresent then Max(68, 3 + f.wid + f.prec) else 68
  }

  /** No text is longer than the buffer. */
  lemma TextFits(f: Flags, negative: bool, u: u64, base: nat, verbO: bool, digits: string)
    requires IsBase(base) && (verbO ==> base == 8) && |digits| == 17
    ensures |Text(f, negative, u, base, verbO, digits)| <= BufferSize(f)
  {
    DigitsFit(u, base, digits);
  }

  /** The bound is tight: sign, prefix and 65 digits fill the 68 bytes. */
  lemma BoundIsAttained(f: Flags, u: u64)
    requires f.precPresent && f.prec == 65 && f.wid == 0 && f.sharp && f.plus && u < 2
    ensures |Text(f, false, u, 2, false, LDIGITS)| == 68 == BufferSize(f)
  {
    FirstDigit(u, 2, LDIGITS);
  }

  // ---------------------------------------------------------------- formatting into the buffer

  /** i--; buf[i] = c. */
  method Push(a: array<char>, i: nat, c: char) returns (j: nat)
    requires 0 < i <= a.Length
    modifies a
    ensures j == i - 1 && a[j..] == [c] + old(a[i..])
  {
    j := i - 1;
    a[j] := c;
  }

  /** What separating the last digit does. */
  lemma LastDigit(u: nat, base: nat, digits: string, tail: string)
    requires IsBase(base) && |digits| == 17 && u >= base
    ensures Digits(u / base, base, digits) + ([digits[u % base]] + tail) == Digits(u, base, digits) + tail
    ensures |Digits(u, base, digits)| == |Digits(u / base, base, digits)| + 1
  {
    hide Digits;
    DigitsStep(u, base, digits);
    Regroup(Digits(u / base, base, digits), digits[u % base], tail);
  }

  /** The switch over the base: the digits of n, right to left, ending at the end of the buffer. */
  method PutDigits(a: array<char>, n: u64, base: nat, digits: string) returns (i: nat)
    requires IsBase(base) && |digits| == 17 && IsDigits(digits)
    requires |Digits(n, base, digits)| <= a.Length
    modifies a
    ensures i == a.Length - |Digits(n, base, digits)| && a[i..] == Digits(n, base, digits)
  {
    hide Digits, IsDigits;
    var u := n;
    i := a.Length;
    assert a[i..] == "";
    while u >= base
      invariant 0 <= u && |Digits(u, base, digits)| <= i <= a.Length
      invariant Digits(u, base, digits) + a[i..] == Digits(n, base, digits)
    {
      var next := u / base;
      DigitOf(digits, u % base);
      LastDigit(u, base, digits, a[i..]);
      i := Push(a, i, if base == 16 then digits[u % base] else ('0' as int + u % base) as char);
      u := next;
    }
    FirstDigit(u, base, digits);
    i := Push(a, i, digits[u]);
  }

  lemma Regroup(s: string, c: char, t: string)
    ensures (s + [c]) + t == s + ([c] + t)
  {
  }

  /** Leading zeros until the requested number of digits is reached. */
  method PutZeros(a: array<char>, i0: nat, prec: int) returns (i: nat)
    requires i0 <= a.Length && prec <= a.Length
    modifies a
    ensures i == i0 - Max(prec - (a.Length - i0), 0) && a[i..] == Zeros(prec - (a.Length - i0)) + old(a[i0..])
  {
    hide Repeat;
    i := i0;
    assert Zeros(0) + a[i..] == a[i..];
    while i > 0 && prec > a.Length - i
      invariant 0 <= i <= i0 && (i < i0 ==> a.Length - i <= prec)
      invariant a[i..] == Zeros(i0 - i) + old(a[i0..])
    {
      MoreZeros(i0 - i, old(a[i0..]));
      i := Push(a, i, '0');
    }
  }

  lemma MoreZeros(k: nat, tail: string)
    ensures ['0'] + (Zeros(k) + tail) == Zeros(k + 1) + tail
  {
  }

  /** The prefix that the flag # asks for. */
  method PutSharp(a: array<char>, i0: nat, f: Flags, base: nat, digits: string) returns (i: nat)
    requires i0 < a.Length && |digits| == 17 && |Sharp(f, base, digits, a[i0..])| <= i0
    modifies a
    ensures i <= a.Length && a[i..] == Sharp(f, base, digits, old(a[i0..])) + old(a[i0..])
  {
    i := i0;
    if f.sharp {
      match base {
        case 2 =>
          i := Push(a, i, 'b');
          i := Push(a, i, '0');
        case 8 =>
          if a[i] != '0' {
            i := Push(a, i, '0');
          }
        case 16 =>
          i := Push(a, i, digits[16]);
          i := Push(a, i, '0');
        case _ =>
      }
    }
  }

  method PutVerb(a: array<char>, i0: nat, verbO: bool) returns (i: nat)
    requires i0 <= a.Length && (if verbO then 2 else 0) <= i0
    modifies a
    ensures i <= a.Length && a[i..] == (if verbO then "0o" else "") + old(a[i0..])
  {
    i := i0;
    if verbO {
      i := Push(a, i, 'o');
      i := Push(a, i, '0');
    }
  }

  method PutSign(a: array<char>, i0: nat, f: Flags, negative: bool) returns (i: nat)
    requires |Sign(f, negative)| <= i0 <= a.Length
    modifies a
    ensures i <= a.Length && a[i..] == Sign(f, negative) + old(a[i0..])
  {
    i := i0;
    if negative {
      i := Push(a, i, '-');
    } else if f.plus {
      i := Push(a, i, '+');
    } else if f.space {
      i := Push(a, i, ' ');
    }
  }

  /** The body of fmtInteger between the choice of the buffer and the padding. */
  method PutText(a: array<char>, f: Flags, prec: int, negative: bool, u: u64, base: nat, verbO: bool, digits: string)
    returns (i: nat)
    requires IsBase(base) && (verbO ==> base == 8) && |digits| == 17 && IsDigits(digits)
    requires a.Length >= BufferSize(f) && prec == MinDigits(f, negative)
    modifies a
    ensures i <= a.Length && a[i..] == Text(f, negative, u, base, verbO, digits)
  {
    TextFits(f, negative, u, base, verbO, digits);
    hide Digits, IsDigits, Sharp, Sign;
    ghost var body := Body(f, negative, u, base, digits);
    i := PutDigits(a, u, base, digits);
    i := PutZeros(a, i, prec);
    assert a[i..] == body;
    i := PutSharp(a, i, f, base, digits);
    i := PutVerb(a, i, verbO);
    i := PutSign(a, i, f, negative);
    Regroup4(Sign(f, negative), if verbO then "0o" else "", Sharp(f, base, digits, body), body);
  }

  lemma Regroup4(a: string, b: string, c: string, d: string)
    ensures a + (b + (c + d)) == a + b + c + d
  {
  }

  class Fmt {
    var buf: string
    var flags: Flags
    const intbuf: array<char>

    constructor (flags: Flags)
      ensures buf == "" && this.flags == flags && intbuf.Length == 68 && fresh(intbuf)
    {
      buf, this.flags := "", flags;
      intbuf := new char[68](_ => '\0');
    }

    method WritePadding(n: int)
      modifies `buf
      ensures buf == old(buf) + Repeat(PadChar(flags), n)
    {
      if n <= 0 {
        return;
      }
      var padByte := if flags.zero && !flags.minus then '0' else ' ';
      buf := buf + Repeat(padByte, n);
    }

    /** pad, for text that is all ASCII: its rune count is its length. */
    method Pad(b: string)
      modifies `buf
      ensures buf == old(buf) + Filled(flags, b, PadChar(flags))
    {
      if !flags.widPresent || flags.wid == 0 {
        buf := buf + b;
        return;
      }
      var width := flags.wid - |b|;
      if !flags.minus {
        WritePadding(width);
        buf := buf + b;
      } else {
        buf := buf + b;
        WritePadding(width);
      }
    }

    /** fmtInteger. The verb %O is only used with base 8. */
    method FmtInteger(u: u64, base: nat, isSigned: bool, verbO: bool, digits: string)
      requires IsBase(base) && (verbO ==> base == 8) && |digits| == 17 && IsDigits(digits)
      requires intbuf.Length == 68
      modifies `buf, `flags, intbuf
      ensures flags == old(flags)
      ensures var negative := isSigned && u >= TWO64 / 2;
              var magnitude := if negative then TWO64 - u else u;
              buf == old(buf) + if flags.precPresent && flags.prec == 0 && magnitude == 0 then Spaces(flags.wid)
                                else Padded(flags, Text(flags, negative, magnitude, base, verbO, digits))
    {
      hide Text, Filled, MinDigits;
      var negative := isSigned && u >= TWO64 / 2;
      var mag: u64 := if negative then TWO64 - u else u;
      var a := intbuf;
      if flags.widPresent || flags.precPresent {
        var width := 3 + flags.wid + flags.prec;
        if width > a.Length {
          a := new char[width](_ => '\0');
        }
      }
      if flags.precPresent && flags.prec == 0 && mag == 0 {
        var oldZero := flags.zero;
        flags := flags.(zero := false);
        WritePadding(flags.wid);
        flags := flags.(zero := oldZero);
        return;
      }
      var prec := Precision(negative);
      var i := PutText(a, flags, prec, negative, mag, base, verbO, digits);
      PadUnzeroed(a[i..]);
    }

    /** The least number of digits: from the precision, or from the width under the zero flag. */
    method Precision(negative: bool) returns (prec: int)
      ensures prec == MinDigits(flags, negative)
    {
      prec := 0;
      if flags.precPresent {
        prec := flags.prec;
      } else if flags.zero && !flags.minus && flags.widPresent {
        prec := flags.wid;
        if negative || flags.plus || flags.space {
          prec := prec - 1;
        }
      }
    }

    /** Padding with the flag 0 out of force, since it has been handled like a precision. */
    method PadUnzeroed(text: string)
      modifies `buf, `flags
      ensures flags == old(flags) && buf == old(buf) + Padded(flags, text)
    {
      var oldZero := flags.zero;
      flags := flags.(zero := false);
      Pad(text);
      flags := flags.(zero := oldZero);
    }
  }

  // ---------------------------------------------------------------- reading the text back

  /** The letter of a base prefix; no digit of the base is written with it. */
  predicate IsBaseLetter(c: char, base: nat) {
    (base == 2 && c == 'b') || (base == 8 && c == 'o') || (base == 16 && (c == 'x' || c == 'X'))
  }

  function WithoutSign(s: string): string {
    if |s| > 0 && (s[0] == '-' || s[0] == '+' || s[0] == ' ') then s[1..] else s
  }

  function WithoutPrefix(s: string, base: nat): string {
    if |s| > 1 && s[0] == '0' && IsBaseLetter(s[1], base) then s[2..] else s
  }

  /** A reader of integers: optional sign, optional base prefix, digits. */
  function Parse(s: string, base: nat): int {
    var magnitude := Value(WithoutPrefix(WithoutSign(s), base), base);
    Signed(|s| > 0 && s[0] == '-', magnitude)
  }

  function Signed(negative: bool, magnitude: int): int {
    if negative then -magnitude else magnitude
  }

  predicate AllDigits(s: string, base: nat) {
    forall i | 0 <= i < |s| :: 0 <= DigitValue(s[i]) < base
  }

  lemma {:induction false} DigitsAreDigits(n: nat, base: nat, digits: string)
    requires 2 <= base <= 16 && |digits| == 17 && IsDigits(digits)
    ensures AllDigits(Digits(n, base, digits), base)
  {
    hide IsDigits, Digits;
    if n < base {
      FirstDigit(n, base, digits);
      DigitOf(digits, n);
    } else {
      DigitsStep(n, base, digits);
      DigitOf(digits, n % base);
      DigitsAreDigits(n / base, base, digits);
    }
  }

  lemma BodyValue(f: Flags, negative: bool, u: u64, base: nat, digits: string)
    requires 2 <= base <= 16 && |digits| == 17 && IsDigits(digits)
    ensures var body := Body(f, negative, u, base, digits);
            AllDigits(body, base) && Value(body, base) == u && |body| >= MinDigits(f, negative)
  {
    var d := Digits(u, base, digits);
    hide IsDigits, Digits, Value;
    DigitsAreDigits(u, base, digits);
    DigitsValue(u, base, digits);
    ZerosValue(Max(MinDigits(f, negative) - |d|, 0), d, base);
    assert Zeros(Max(MinDigits(f, negative) - |d|, 0)) == Zeros(MinDigits(f, negative) - |d|);
  }

  /** Whatever prefix is written, taking it off leaves digits with the value of the body. */
  lemma PrefixParses(f: Flags, base: nat, verbO: bool, digits: string, body: string)
    requires IsBase(base) && (verbO ==> base == 8) && |digits| == 17 && IsDigits(digits)
    requires |body| > 0 && AllDigits(body, base)
    ensures var s := (if verbO then "0o" else "") + Sharp(f, base, digits, body) + body;
            && Value(WithoutPrefix(s, base), base) == Value(body, base)
            && s[0] != '-' && s[0] != '+' && s[0] != ' '
  {
    hide Value;
    var s := (if verbO then "0o" else "") + Sharp(f, base, digits, body) + body;
    assert digits[16] == 'x' || digits[16] == 'X';
    ZerosValue(1, body, base);
    assert Zeros(1) == "0";
    assert 0 <= DigitValue(body[0]) < base;
    if |body| > 1 {
      assert 0 <= DigitValue(body[1]) < base;
    }
    assert WithoutPrefix(s, base) == body || WithoutPrefix(s, base) == "0" + body;
  }

  function Tail(f: Flags, base: nat, verbO: bool, digits: string, body: string): string
    requires |digits| == 17 && |body| > 0
  {
    (if verbO then "0o" else "") + Sharp(f, base, digits, body) + body
  }

  lemma TextIsSignAndTail(f: Flags, negative: bool, u: u64, base: nat, verbO: bool, digits: string)
    requires IsBase(base) && |digits| == 17
    ensures Text(f, negative, u, base, verbO, digits) ==
            Sign(f, negative) + Tail(f, base, verbO, digits, Body(f, negative, u, base, digits))
  {
    hide Digits, Sharp, Sign;
  }

  /** Formatting and reading back is the identity, and at least prec digits are written. */
  lemma FormatParses(f: Flags, negative: bool, u: u64, base: nat, verbO: bool, digits: string)
    requires IsBase(base) && (verbO ==> base == 8) && |digits| == 17 && IsDigits(digits)
    ensures Parse(Text(f, negative, u, base, verbO, digits), base) == Signed(negative, u)
    ensures |Body(f, negative, u, base, digits)| >= MinDigits(f, negative)
  {
    hide Value, IsDigits, Body, Text, WithoutPrefix, WithoutSign, Sign;
    var body := Body(f, negative, u, base, digits);
    BodyValue(f, negative, u, base, digits);
    PrefixParses(f, base, verbO, digits, body);
    TextIsSignAndTail(f, negative, u, base, verbO, digits);
    SignParses(f, negative, Tail(f, base, verbO, digits, body));
  }

  /** Padding only adds the padding character, on the right with the flag minus and else on the left, and
      yields at least wid characters. */
  lemma FilledWidth(f: Flags, text: string, c: char)
    ensures var p := Filled(f, text, c);
            && |p| == (if f.widPresent then Max(f.wid, |text|) else |text|)
            && p == Repeat(c, if f.minus then 0 else |p| - |text|) + text
                    + Repeat(c, if f.minus then |p| - |text| else 0)
    ensures forall n: nat, i | 0 <= i < n :: Repeat(c, n)[i] == c
  {
    assert Repeat(c, 0) + text == text && text + Repeat(c, 0) == text;
  }

  /** Integers are padded with spaces only. */
  lemma PaddedWidth(f: Flags, text: string)
    ensures var p := Padded(f, text);
            && |p| == (if f.widPresent then Max(f.wid, |text|) else |text|)
            && p == Repeat(' ', if f.minus then 0 else |p| - |text|) + text
                    + Repeat(' ', if f.minus then |p| - |text| else 0)
  {
    FilledWidth(f, text, ' ');
  }

  lemma SignParses(f: Flags, negative: bool, tail: string)
    requires |tail| > 0 && tail[0] != '-' && tail[0] != '+' && tail[0] != ' '
    ensures var text := Sign(f, negative) + tail;
            WithoutSign(text) == tail && (text[0] == '-' <==> negative)
  {
  }

  // ---------------------------------------------------------------- what the text looks like

  /** s is the numeral of n: without leading zeros, in the given digits. */
  predicate IsNumeral(s: string, n: nat, base: nat, digits: string)
    requires |digits| == 17
  {
    && |s| > 0 && Value(s, base) == n && AllDigits(s, base)
    && (|s| == 1 || s[0] != '0') && FromTable(s, digits)
  }

  predicate FromTable(s: string, digits: string)
    requires |digits| == 17
  {
    forall i | 0 <= i < |s| :: s[i] in digits[..16]
  }

  lemma FromTableSnoc(s: string, k: nat, digits: string)
    requires |digits| == 17 && k < 16 && FromTable(s, digits)
    ensures FromTable(s + [digits[k]], digits)
  {
    assert digits[..16][k] == digits[k];
  }

  lemma {:induction false} DigitsAreNumeral(n: nat, base: nat, digits: string)
    requires 2 <= base <= 16 && IsDigits(digits)
    ensures |digits| == 17
    ensures var s := Digits(n, base, digits); (|s| == 1 || s[0] != '0') && FromTable(s, digits)
  {
    hide IsDigits, Digits, FromTable;
    DigitOf(digits, 0);
    if n < base {
      FirstDigit(n, base, digits);
      NothingFromTable(digits);
      FromTableSnoc("", n, digits);
      assert "" + [digits[n]] == [digits[n]];
    } else {
      DigitsStep(n, base, digits);
      DigitsAreNumeral(n / base, base, digits);
      FromTableSnoc(Digits(n / base, base, digits), n % base, digits);
      NoLeadingZero(n, base, digits);
    }
  }

  lemma {:induction false} NoLeadingZero(n: nat, base: nat, digits: string)
    requires 2 <= base <= 16 && IsDigits(digits) && |digits| == 17 && n > 0
    ensures Digits(n, base, digits)[0] != '0'
  {
    hide IsDigits, Digits;
    if n < base {
      FirstDigit(n, base, digits);
      DigitOf(digits, n);
    } else {
      DigitsStep(n, base, digits);
      Quotient(n, base);
      NoLeadingZero(n / base, base, digits);
    }
  }

  lemma Quotient(n: nat, base: nat)
    requires n >= base > 1
    ensures 0 < n / base < n
  {
    DivMod(n, base);
    Shrinks(n, base);
  }

  lemma NothingFromTable(digits: string)
    requires |digits| == 17
    ensures FromTable("", digits)
  {
  }

  /** The sign that the flags ask for. */
  predicate IsSign(s: string, f: Flags, negative: bool) {
    && (s == "-" <==> negative) && (s == "+" <==> !negative && f.plus)
    && (s == " " <==> !negative && !f.plus && f.space) && |s| <= 1
    && (s != "" ==> s == "-" || s == "+" || s == " ")
  }

  /** The prefix that %O and the flag # ask for; in base 8 a leading zero that is there will do. */
  predicate IsPrefix(s: string, f: Flags, base: nat, verbO: bool, upper: bool, leadingZero: bool) {
    var o := if verbO then "0o" else "";
    match base
    case 2 => s == o + if f.sharp then "0b" else ""
    case 8 => s == o + if f.sharp && !leadingZero then "0" else ""
    case 16 => s == o + if f.sharp then (if upper then "0X" else "0x") else ""
    case _ => s == o
  }

  /** A formatted integer is a sign, a prefix, zeros and the numeral. There are as many zeros as it takes
      for the digits that the precision asks for; without a precision, the flag 0 asks for as many as fill
      the width together with the sign. */
  lemma TextShape(f: Flags, negative: bool, u: u64, base: nat, verbO: bool, digits: string)
    returns (sign: string, prefix: string, zeros: nat, numeral: string)
    requires IsBase(base) && (verbO ==> base == 8) && IsDigits(digits)
    ensures |digits| == 17 && Text(f, negative, u, base, verbO, digits) == sign + prefix + Repeat('0', zeros) + numeral
    ensures IsSign(sign, f, negative) && IsNumeral(numeral, u, base, digits)
    ensures IsPrefix(prefix, f, base, verbO, digits == UDIGITS, (Repeat('0', zeros) + numeral)[0] == '0')
    ensures var most := Max(|numeral|,
                            if f.precPresent then f.prec
                            else if f.zero && f.widPresent && !f.minus then f.wid - |sign| else 0);
            zeros + |numeral| == most
  {
    hide Digits, Value, Text, Sharp, Sign, IsSign, IsPrefix, AllDigits, MinDigits, Repeat;
    DigitsAreNumeral(u, base, digits);
    DigitsAreDigits(u, base, digits);
    DigitsValue(u, base, digits);
    sign, numeral := Sign(f, negative), Digits(u, base, digits);
    zeros := Max(MinDigits(f, negative) - |numeral|, 0);
    var body := Repeat('0', zeros) + numeral;
    prefix := (if verbO then "0o" else "") + Sharp(f, base, digits, body);
    SignIsSign(f, negative);
    PrefixIsPrefix(f, base, verbO, digits, body);
    TextIsShaped(f, negative, u, base, verbO, digits, body);
    Base.Regroup(sign + prefix, Repeat('0', zeros), numeral);
  }

  lemma SignIsSign(f: Flags, negative: bool)
    ensures IsSign(Sign(f, negative), f, negative)
    ensures MinDigits(f, negative) ==
            if f.precPresent then f.prec
            else if f.zero && f.widPresent && !f.minus then f.wid - |Sign(f, negative)| else 0
  {
  }

  lemma PrefixIsPrefix(f: Flags, base: nat, verbO: bool, digits: string, body: string)
    requires IsBase(base) && (verbO ==> base == 8) && IsDigits(digits) && |digits| == 17 && |body| > 0
    ensures IsPrefix((if verbO then "0o" else "") + Sharp(f, base, digits, body), f, base, verbO,
                     digits == UDIGITS, body[0] == '0')
  {
    assert digits[16] == if digits == UDIGITS then 'X' else 'x';
    assert LDIGITS[0] == UDIGITS[0] && LDIGITS[16] != UDIGITS[16];
  }

  lemma TextIsShaped(f: Flags, negative: bool, u: u64, base: nat, verbO: bool, digits: string, body: string)
    requires IsBase(base) && |digits| == 17 && |body| > 0
    requires body == Repeat('0', Max(MinDigits(f, negative) - |Digits(u, base, digits)|, 0)) + Digits(u, base, digits)
    ensures Text(f, negative, u, base, verbO, digits) ==
            Sign(f, negative) + ((if verbO then "0o" else "") + Sharp(f, base, digits, body)) + body
  {
    hide Digits, Sharp, Sign, MinDigits;
    var o, sharp := if verbO then "0o" else "", Sharp(f, base, digits, body);
    assert body == Body(f, negative, u, base, digits);
    assert Sign(f, negative) + (o + sharp) + body == Sign(f, negative) + o + sharp + body;
  }
}
