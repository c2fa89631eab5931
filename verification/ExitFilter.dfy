/**
 exitCodeFilter of go_android_exec: passes a stream through while holding back exactly the bytes
 that could belong to a trailing "exitcode=N". Bytes are modelled as characters.
 */
module ExitFilter {
  import opened Base
  import opened Concatenation

  const EXIT_STR := "exitcode="

  // ---------------------------------------------------------------- the regular expression

  predicate IsDigits(s: string) {
    |s| > 0 && forall i | 0 <= i < |s| :: '0' <= s[i] <= '9'
  }

  /** s is the exit string and a number, the alternative with the group. */
  predicate IsFull(s: string) {
    |s| > |EXIT_STR| && s[..|EXIT_STR|] == EXIT_STR && IsDigits(s[|EXIT_STR|..])
  }

  /** s, taken to the end of the input, matches one of the alternatives. */
  predicate Matches(s: string) {
    (0 < |s| <= |EXIT_STR| && s == EXIT_STR[..|s|]) || IsFull(s)
  }

  /** FindIndex: every alternative ends in $, so a match is a suffix; the leftmost one is found. */
  function FindFrom(b: string, i: nat): (m: nat)
    requires i <= |b|
    ensures i <= m <= |b| && (m < |b| ==> Matches(b[m..]))
    ensures forall k | i <= k < m :: !Matches(b[k..])
    decreases |b| - i
  {
    if i == |b| || Matches(b[i..]) then i else FindFrom(b, i + 1)
  }

  /** Where the held part of b begins; |b| if there is no match. */
  function Hold(b: string): (m: nat)
    ensures m <= |b|
  {
    FindFrom(b, 0)
  }

  lemma HoldUnique(b: string, m: nat)
    requires m <= |b| && (m < |b| ==> Matches(b[m..])) && forall k | 0 <= k < m :: !Matches(b[k..])
    ensures Hold(b) == m
  {
    var h := Hold(b);
    assert h < |b| ==> Matches(b[h..]);
  }

  lemma HoldFound(b: string)
    ensures Hold(b) < |b| ==> Matches(b[Hold(b)..])
    ensures forall k | 0 <= k < Hold(b) :: !Matches(b[k..])
  {
  }

  /** Every non-empty prefix of a match is a match. */
  lemma MatchesPrefix(s: string, n: nat)
    requires Matches(s) && 0 < n <= |s|
    ensures Matches(s[..n])
  {
    var p := s[..n];
    if n <= |EXIT_STR| {
      assert p == EXIT_STR[..n];
    } else {
      assert p[|EXIT_STR|..] == s[|EXIT_STR|..n];
      assert p[..|EXIT_STR|] == s[..|EXIT_STR|];
    }
  }

  lemma NoMatchExtends(total: string, data: string, k: nat)
    requires k < |total| && !Matches(total[k..])
    ensures !Matches((total + data)[k..])
  {
    var s := (total + data)[k..];
    assert s[..|total| - k] == total[k..];
    if Matches(s) {
      MatchesPrefix(s, |total| - k);
    }
  }

  lemma SuffixOf(a: string, b: string, k: nat)
    requires k <= |b|
    ensures (a + b)[|a| + k..] == b[k..]
  {
  }

  lemma NoMatchBehind(a: string, b: string, m: nat)
    requires m <= |b| && forall k | 0 <= k < m :: !Matches(b[k..])
    ensures forall k | |a| <= k < |a| + m :: !Matches((a + b)[k..])
  {
    hide Matches;
    forall k | |a| <= k < |a| + m
      ensures !Matches((a + b)[k..])
    {
      SuffixOf(a, b, k - |a|);
    }
  }

  /** What was passed on stays passed on: later input only moves the held part to the right. */
  lemma HoldExtends(total: string, data: string)
    ensures Hold(total + data) == Hold(total) + Hold(total[Hold(total)..] + data)
  {
    hide Matches, Hold;
    var h := Hold(total);
    var rest := total[h..] + data;
    HoldFound(total);
    HoldFound(rest);
    assert total + data == total[..h] + rest;
    NoMatchBehind(total[..h], rest, Hold(rest));
    forall k: nat | k < h
      ensures !Matches((total + data)[k..])
    {
      NoMatchExtends(total, data, k);
    }
    SuffixOf(total[..h], rest, Hold(rest));
    HoldUnique(total + data, h + Hold(rest));
  }

  /** What is held is what more input may turn into the exit string and a number, and nothing else. */
  lemma MatchesMayBecomeFull(s: string)
    ensures s != "" ==> (Matches(s) <==> exists more: string :: IsFull(s + more))
  {
    if Matches(s) {
      var more := if |s| <= |EXIT_STR| then EXIT_STR[|s|..] + "0" else "";
      if |s| <= |EXIT_STR| {
        assert s + more == EXIT_STR + "0";
        assert IsDigits((s + more)[|EXIT_STR|..]);
      } else {
        assert s + more == s;
      }
      assert IsFull(s + more);
    }
    if s != "" {
      forall more: string | IsFull(s + more)
        ensures Matches(s)
      {
        MatchesPrefix(s + more, |s|);
        assert (s + more)[..|s|] == s;
      }
    }
  }

  /** In an input that ends in the exit string and a number, exactly these are held. */
  lemma HoldFull(d: string, number: string)
    requires IsDigits(number)
    ensures Hold(d + "exitcode=" + number) == |d|
  {
    var b := d + EXIT_STR + number;
    assert b[|d|..] == EXIT_STR + number;
    assert IsFull(b[|d|..]);
    forall k | 0 <= k < |d|
      ensures !Matches(b[k..])
    {
      NoEarlierMatch(b[k..], |d| - k);
    }
    HoldUnique(b, |d|);
  }

  /** The '=' of the later exit string is in the way of an earlier number. */
  lemma NoEarlierMatch(s: string, at: nat)
    requires 0 < at && at + |EXIT_STR| < |s| && s[at + |EXIT_STR| - 1] == '='
    ensures !Matches(s)
  {
    assert s[|EXIT_STR|..][at - 1] == '=';
  }

  // ---------------------------------------------------------------- strconv.Atoi on digits

  function Number(s: string): nat
    requires forall i | 0 <= i < |s| :: '0' <= s[i] <= '9'
  {
    if s == "" then 0 else Number(s[..|s| - 1]) * 10 + (s[|s| - 1] as int - '0' as int)
  }

  /** n as it is usually written. */
  function Decimal(n: nat): (s: string)
    ensures IsDigits(s)
  {
    (if n < 10 then "" else Decimal(n / 10)) + ["0123456789"[n % 10]]
  }

  /** Number reads decimal numbers, and leading zeros change nothing. */
  lemma {:induction false} NumberReadsDecimal(n: nat)
    ensures Number(Decimal(n)) == n
  {
    var c := "0123456789"[n % 10];
    assert c as int - '0' as int == n % 10;
    if n >= 10 {
      NumberReadsDecimal(n / 10);
      NumberSnoc(Decimal(n / 10), c);
    } else {
      assert "" + [c] == [c];
      NumberSnoc("", c);
    }
  }

  lemma NumberSnoc(s: string, c: char)
    requires (forall i | 0 <= i < |s| :: '0' <= s[i] <= '9') && '0' <= c <= '9'
    ensures Number(s + [c]) == Number(s) * 10 + (c as int - '0' as int)
  {
    assert (s + [c])[..|s|] == s;
  }

  lemma {:induction false} LeadingZero(s: string)
    requires forall i | 0 <= i < |s| :: '0' <= s[i] <= '9'
    ensures Number("0" + s) == Number(s)
  {
    if s == "" {
      assert "0" + s == "" + ['0'];
      NumberSnoc("", '0');
    } else {
      var n := |s| - 1;
      LeadingZero(s[..n]);
      assert "0" + s == ("0" + s[..n]) + [s[n]];
      NumberSnoc("0" + s[..n], s[n]);
    }
  }

  // ---------------------------------------------------------------- the filter

  datatype Error = NoExitCode | BadExitCode | WriteError(code: int)

  /** What the writer will do in one call: take at most room bytes, and report an error if fails, or
      if it has not taken all. */
  datatype Turn = Turn(room: nat, fails: bool)

  /** How many of n bytes the next call does not take. */
  function Refused(script: seq<Turn>, n: nat): (k: nat)
    ensures k <= n
  {
    if script == [] then 0 else n - Min(n, script[0].room)
  }

  /** The writer behind the filter. Any behaviour is one of these: script says what it does in its next
      calls, and after that it takes everything. */
  class Output {
    var taken: string
    var script: seq<Turn>

    constructor (script: seq<Turn>)
      ensures taken == "" && this.script == script
    {
      taken, this.script := "", script;
    }

    /** How many of n bytes the next call takes. */
    function Accepts(n: nat): nat
      reads this
    {
      n - Refused(script, n)
    }

    method Write(p: string) returns (n: nat, err: Option<Error>)
      modifies this
      ensures n == old(Accepts(|p|)) && taken == old(taken) + p[..n]
      ensures n < |p| ==> err.Some?
      ensures old(script) != [] ==> script == old(script)[1..] && (err.Some? <==> n < |p| || old(script)[0].fails)
      ensures old(script) == [] ==> script == [] && err.None?
    {
      n := Accepts(|p|);
      var fails := n < |p| || (script != [] && script[0].fails);
      if script != [] {
        script := script[1..];
      }
      var code: int := *;
      err := if fails then Some(WriteError(code)) else None;
      taken := taken + p[..n];
    }
  }

  class ExitCodeFilter {
    const w: Output
    var buf: string
    /** All the data passed to Write so far, and how many bytes the writer did not take. */
    ghost var total: string
    ghost var lost: nat

    /** However the data was cut up, what is held depends on the whole input only, and so does what
        has been passed on if nothing was lost. */
    ghost predicate Valid()
      reads this, w
    {
      && buf == total[Hold(total)..]
      && |w.taken| + |buf| + lost == |total|
      && (lost == 0 ==> w.taken == total[..Hold(total)])
    }

    constructor (w: Output)
      requires w.taken == ""
      ensures Valid() && this.w == w && total == "" && lost == 0
    {
      this.w := w;
      buf, total, lost := "", "", 0;
    }

    /** Passes p on; the filter does not look at how much of it was taken. */
    method Forward(p: string) returns (err: Option<Error>)
      modifies w, `lost
      ensures lost == old(lost) + |p| - old(w.Accepts(|p|)) && (lost > old(lost) ==> err.Some?)
      ensures w.taken == old(w.taken) + p[..|p| - (lost - old(lost))]
    {
      var n, e := w.Write(p);
      lost := lost + (|p| - n);
      return e;
    }

    /** Nothing of the input is missing from what was passed on and what is held, if and only if no
        byte was lost; which takes a writer that fails. */
    method Write(data: string) returns (n: nat, err: Option<Error>)
      requires Valid()
      modifies this, w
      ensures Valid() && total == old(total) + data && n == |data|
      ensures w.taken + buf == total <==> lost == 0
      ensures lost > old(lost) ==> err.Some?
      ensures |buf| <= |old(buf)| + |data| && lost == old(lost) + Refused(old(w.script), |old(buf)| + |data| - |buf|)
    {
      hide Hold;
      n := |data|;
      HoldExtends(total, data);
      ghost var before := total[..Hold(total)];
      assert total == before + buf;
      buf := buf + data;
      total := total + data;
      assert total == before + buf;
      var m := Hold(buf);
      if m == |buf| {
        err := Forward(buf);
        assert total[..Hold(total)] == before + buf;
        buf := "";
      } else {
        err := Forward(buf[..m]);
        assert total[..Hold(total)] == before + buf[..m];
        buf := buf[m..];
      }
      assert total == total[..Hold(total)] + buf;
    }

    /** Finish: the exit code if the whole input ends in one that fits an int; otherwise everything
        held is passed on and an error returned. */
    method Finish() returns (code: nat, err: Option<Error>)
      requires Valid()
      modifies this, w
      ensures buf == "" && total == old(total) && old(lost) <= lost
      ensures var held := old(buf);
              if IsFull(held) && Number(held[|EXIT_STR|..]) <= MAX_INT then
                err.None? && code == Number(held[|EXIT_STR|..]) && w.taken == old(w.taken) && lost == old(lost)
              else
                && err.Some? && lost - old(lost) <= |held|
                && w.taken == old(w.taken) + held[..|held| - (lost - old(lost))] && (w.taken == total <==> lost == 0)
    {
      hide Hold, Number;
      var b := buf;
      buf := "";
      assert total == total[..Hold(total)] + b;
      if !IsFull(b) {
        var e := Forward(b);
        if e.Some? {
          return 0, e;
        }
        return 0, Some(NoExitCode);
      }
      var n := Number(b[|EXIT_STR|..]);
      if n > MAX_INT {
        var e := Forward(b);
        if e.Some? {
          return 0, e;
        }
        return 0, Some(BadExitCode);
      }
      return n, None;
    }
  }

  /** A held part that is a full match is an exit string and a number at the end of the input, and by
      HoldFull any such ending is held. */
  lemma HeldIsEnding(total: string)
    requires IsFull(total[Hold(total)..])
    ensures var number := total[Hold(total)..][|EXIT_STR|..];
            IsDigits(number) && total == total[..Hold(total)] + EXIT_STR + number
  {
    var held := total[Hold(total)..];
    assert held == EXIT_STR + held[|EXIT_STR|..];
  }

  /** A whole run of the filter. For every way of cutting the input, if it ends in the exit string and
      a number that fits an int, the number is returned and exactly what precedes them is passed on;
      otherwise an error is returned and everything passed on. What is passed on falls short of that
      if and only if the writer has refused bytes. */
  method Filter(f: ExitCodeFilter, chunks: seq<string>) returns (code: nat, err: Option<Error>)
    requires f.Valid() && f.total == "" && f.lost == 0 && f.w.taken == ""
    modifies f, f.w
    ensures var total := Concat(chunks);
            var held := total[Hold(total)..];
            if IsFull(held) && Number(held[|EXIT_STR|..]) <= MAX_INT then
              err.None? && code == Number(held[|EXIT_STR|..]) && (f.w.taken == total[..Hold(total)] <==> f.lost == 0)
            else err.Some? && (f.w.taken == total <==> f.lost == 0)
  {
    hide Hold, IsFull, Number;
    for i := 0 to |chunks|
      invariant f.Valid() && f.total == Concat(chunks[..i])
    {
      ConcatNext(chunks, i);
      var _, _ := f.Write(chunks[i]);
    }
    assert chunks[..|chunks|] == chunks;
    assert f.total == f.total[..Hold(f.total)] + f.buf;
    code, err := f.Finish();
  }

  /** A writer that refuses its first byte: of the input "x" nothing is passed on and nothing held. */
  method ByteIsLost() returns (f: ExitCodeFilter, n: nat, err: Option<Error>)
    ensures n == 1 && err.Some? && f.total == "x" && f.w.taken == "" && f.buf == ""
  {
    var w := new Output([Turn(0, false)]);
    f := new ExitCodeFilter(w);
    assert "x"[0..] == "x" && EXIT_STR[..1] == "e";
    HoldUnique("x", 1);
    n, err := f.Write("x");
    assert f.total == "x" && f.total[1..] == "";
  }
}
