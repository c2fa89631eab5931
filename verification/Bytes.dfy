/** Searching, splitting, joining and replacing in package bytes. */
module Bytes {
  import opened Base
  import opened Runes

  // ---------------------------------------------------------------- searching

  predicate IsAt(s: seq<byte>, sep: seq<byte>, i: int) {
    0 <= i && i + |sep| <= |s| && s[i..i + |sep|] == sep
  }

  ghost predicate NoneBefore(s: seq<byte>, sep: seq<byte>, n: int) {
    forall i | i < n :: !IsAt(s, sep, i)
  }

  /** The leftmost occurrence of sep in s at or after i, or -1. */
  function IndexFrom(s: seq<byte>, sep: seq<byte>, i: nat): int
    decreases |s| - i
  {
    if i + |sep| > |s| then -1
    else if s[i..i + |sep|] == sep then i
    else IndexFrom(s, sep, i + 1)
  }

  function IndexOf(s: seq<byte>, sep: seq<byte>): int {
    IndexFrom(s, sep, 0)
  }

  lemma {:induction false} IndexFromLeftmost(s: seq<byte>, sep: seq<byte>, i: nat)
    requires NoneBefore(s, sep, i)
    ensures var m := IndexFrom(s, sep, i);
            -1 <= m && (if m < 0 then forall k :: !IsAt(s, sep, k) else IsAt(s, sep, m) && NoneBefore(s, sep, m))
    decreases |s| - i
  {
    if i + |sep| <= |s| && s[i..i + |sep|] != sep {
      IndexFromLeftmost(s, sep, i + 1);
    }
  }

  /** IndexOf is the leftmost occurrence. */
  lemma IndexOfLeftmost(s: seq<byte>, sep: seq<byte>)
    ensures var m := IndexOf(s, sep);
            -1 <= m && (if m < 0 then forall k :: !IsAt(s, sep, k) else IsAt(s, sep, m) && NoneBefore(s, sep, m))
  {
    IndexFromLeftmost(s, sep, 0);
  }

  lemma IndexOfUnique(s: seq<byte>, sep: seq<byte>, m: int)
    requires if m < 0 then m == -1 && forall k :: !IsAt(s, sep, k) else IsAt(s, sep, m) && NoneBefore(s, sep, m)
    ensures IndexOf(s, sep) == m
  {
    IndexOfLeftmost(s, sep);
  }

  /** What depends on the processor in bytealg. */
  datatype Arch = Arch(maxLen: nat, maxBruteForce: nat, cutover: int -> int)

  /** Searching on behind the first i bytes, which hold no occurrence. */
  lemma IndexOfSuffix(s: seq<byte>, sep: seq<byte>, i: nat)
    requires i <= |s| && NoneBefore(s, sep, i)
    ensures var r := IndexOf(s[i..], sep); IndexOf(s, sep) == if r >= 0 then r + i else -1
  {
    IndexOfLeftmost(s[i..], sep);
    var r := IndexOf(s[i..], sep);
    forall k | k >= i
      ensures IsAt(s, sep, k) == IsAt(s[i..], sep, k - i)
    {
      if k + |sep| <= |s| {
        assert s[i..][k - i..k - i + |sep|] == s[k..k + |sep|];
      }
    }
    IndexOfUnique(s, sep, if r >= 0 then r + i else -1);
  }

  /** Skipping to the next first byte of sep misses no occurrence. */
  lemma SkipIsSafe(s: seq<byte>, sep: seq<byte>, i: nat, o: int)
    requires |sep| >= 2 && i < |s| - |sep| + 1 && NoneBefore(s, sep, i) && s[i] != sep[0]
    requires o == IndexByte(s[i + 1..|s| - |sep| + 1], sep[0])
    ensures if o < 0 then forall k :: !IsAt(s, sep, k) else NoneBefore(s, sep, i + o + 1)
  {
    var t := |s| - |sep| + 1;
    forall k | i <= k < (if o < 0 then t else i + o + 1)
      ensures s[k] != sep[0]
    {
      if k > i {
        assert s[i + 1..t][k - i - 1] == s[k];
        assert o >= 0 ==> s[k] == s[i + 1..t][..o][k - i - 1];
      }
    }
    forall k | i <= k < (if o < 0 then t else i + o + 1)
      ensures !IsAt(s, sep, k)
    {
      if k + |sep| <= |s| {
        assert s[k..k + |sep|][0] == s[k];
      }
    }
  }

  /** Index: the leftmost occurrence, through the skip loops and their fallbacks. */
  method Index(s: seq<byte>, sep: seq<byte>, arch: Arch) returns (r: int)
    ensures r == IndexOf(s, sep)
  {
    var n := |sep|;
    if n == 0 {
      return 0;
    } else if n == 1 {
      r := IndexByte(s, sep[0]);
      OneByte(s, sep, r);
    } else if n == |s| {
      Whole(s, sep);
      return if sep == s then 0 else -1;
    } else if n > |s| {
      return -1;
    } else if n <= arch.maxLen {
      // A short s is left to bytealg at once.
      if |s| <= arch.maxBruteForce {
        return IndexOf(s, sep);
      }
      r := SearchShort(s, sep, arch.cutover);
    } else {
      r := SearchLong(s, sep);
    }
  }

  lemma OneByte(s: seq<byte>, sep: seq<byte>, r: int)
    requires |sep| == 1 && r == IndexByte(s, sep[0])
    ensures IndexOf(s, sep) == r
  {
    forall k | 0 <= k < |s|
      ensures IsAt(s, sep, k) <==> s[k] == sep[0]
    {
      assert s[k..k + 1] == [s[k]] && sep == [sep[0]];
    }
    forall k | 0 <= k < r
      ensures s[k] != sep[0]
    {
      assert s[..r][k] == s[k];
    }
    IndexOfUnique(s, sep, r);
  }

  lemma Whole(s: seq<byte>, sep: seq<byte>)
    requires |s| == |sep| > 0
    ensures IndexOf(s, sep) == if sep == s then 0 else -1
  {
    assert s[0..|sep|] == s;
    IndexOfUnique(s, sep, if sep == s then 0 else -1);
  }

  /** The loop for a short sep in a long s; bytealg.Index takes over after too many false positives. */
  method SearchShort(s: seq<byte>, sep: seq<byte>, cutover: int -> int) returns (r: int)
    requires 2 <= |sep| < |s|
    ensures r == IndexOf(s, sep)
  {
    var n, c0, c1, i, fails := |sep|, sep[0], sep[1], 0, 0;
    var t := |s| - n + 1;
    while i < t
      invariant 0 <= i <= t && NoneBefore(s, sep, i)
    {
      if s[i] != c0 {
        var o := IndexByte(s[i + 1..t], c0);
        SkipIsSafe(s, sep, i, o);
        if o < 0 {
          IndexOfUnique(s, sep, -1);
          return -1;
        }
        i := i + o + 1;
      }
      if s[i + 1] == c1 && s[i..i + n] == sep {
        IndexOfUnique(s, sep, i);
        return i;
      }
      SecondByte(s, sep, i);
      fails := fails + 1;
      i := i + 1;
      if fails > cutover(i) {
        IndexOfSuffix(s, sep, i);
        r := IndexOf(s[i..], sep);
        return if r >= 0 then r + i else -1;
      }
    }
    IndexOfUnique(s, sep, -1);
    return -1;
  }

  /** The loop for a long sep; Rabin-Karp takes over after too many false positives. */
  method SearchLong(s: seq<byte>, sep: seq<byte>) returns (r: int)
    requires 2 <= |sep| < |s|
    ensures r == IndexOf(s, sep)
  {
    var n, c0, c1, i, fails := |sep|, sep[0], sep[1], 0, 0;
    var t := |s| - n + 1;
    while i < t
      invariant 0 <= i <= t && NoneBefore(s, sep, i)
    {
      if s[i] != c0 {
        var o := IndexByte(s[i + 1..t], c0);
        SkipIsSafe(s, sep, i, o);
        if o < 0 {
          IndexOfUnique(s, sep, -1);
          return -1;
        }
        i := i + o + 1;
      }
      if s[i + 1] == c1 && s[i..i + n] == sep {
        IndexOfUnique(s, sep, i);
        return i;
      }
      SecondByte(s, sep, i);
      i := i + 1;
      fails := fails + 1;
      if fails >= 4 + i / 16 && i < t {
        IndexOfSuffix(s, sep, i);
        var j := IndexOf(s[i..], sep);
        return if j < 0 then -1 else i + j;
      }
    }
    IndexOfUnique(s, sep, -1);
    return -1;
  }

  lemma SecondByte(s: seq<byte>, sep: seq<byte>, i: nat)
    requires |sep| >= 2 && i + |sep| <= |s| && NoneBefore(s, sep, i)
    requires !(s[i + 1] == sep[1] && s[i..i + |sep|] == sep)
    ensures NoneBefore(s, sep, i + 1)
  {
    assert s[i..i + |sep|][1] == s[i + 1];
  }

  // ---------------------------------------------------------------- counting and splitting

  /** Non-overlapping occurrences, leftmost first. */
  function CountOf(s: seq<byte>, sep: seq<byte>): (n: nat)
    requires sep != []
    ensures n <= |s|
    decreases |s|
  {
    IndexOfLeftmost(s, sep);
    var m := IndexOf(s, sep);
    if m < 0 then 0 else 1 + CountOf(s[m + |sep|..], sep)
  }

  /** The pieces of s between its first k occurrences of sep, each with save bytes of its separator. */
  function Pieces(s: seq<byte>, sep: seq<byte>, save: nat, k: nat): (p: seq<seq<byte>>)
    requires sep != [] && save <= |sep|
    ensures |p| > 0
    decreases k
  {
    IndexOfLeftmost(s, sep);
    var m := IndexOf(s, sep);
    if k == 0 || m < 0 then [s]
    else [s[..m + save]] + Pieces(s[m + |sep|..], sep, save, k - 1)
  }

  /** Count: an empty separator stands between any two runes, and at both ends. */
  method Count(s: seq<byte>, sep: seq<byte>, arch: Arch) returns (n: nat)
    ensures n == if sep == [] then RuneCount(s) + 1 else CountOf(s, sep)
    ensures exists q :: IsCut(q, s, sep, -1) && n == |q| - 1
  {
    hide IsCut, CutUp;
    CutsOf(s, sep, -1);
    if |sep| == 0 {
      return RuneCount(s) + 1;
    }
    if |sep| == 1 {
      return CountOf(s, sep);  // bytealg.Count
    }
    n := 0;
    var rest := s;
    while true
      invariant n + CountOf(rest, sep) == CountOf(s, sep)
      decreases |rest|
    {
      var i := Index(rest, sep, arch);
      IndexOfLeftmost(rest, sep);
      if i == -1 {
        return n;
      }
      n := n + 1;
      rest := rest[i + |sep|..];
    }
  }

  /** The pieces of s between its first n separators, or between all of them if n is negative. */
  function CutUp(s: seq<byte>, sep: seq<byte>, n: int): seq<seq<byte>> {
    if sep == [] then RunePieces(s, Replacements(s, sep, n)) else Pieces(s, sep, 0, Cuts(s, sep, n))
  }

  lemma CutsOf(s: seq<byte>, sep: seq<byte>, n: int)
    ensures IsCut(CutUp(s, sep, n), s, sep, n) && |CutUp(s, sep, n)| == Replacements(s, sep, n) + 1
  {
    hide IsCut;
    if sep == [] {
      RunePiecesAreCut(s, Replacements(s, sep, n), n);
    } else {
      var k := Cuts(s, sep, n);
      PiecesAreCut(s, sep, n);
      if k > CountOf(s, sep) {
        EnoughCuts(s, sep, 0, k, CountOf(s, sep));
      }
      PiecesAreFree(s, sep, Min(k, CountOf(s, sep)));
    }
  }

  /** The number of cuts that are made if n are asked for, and if n is negative. */
  function Cuts(s: seq<byte>, sep: seq<byte>, n: int): nat
    requires sep != []
  {
    if n < 0 then CountOf(s, sep) else n
  }

  /** genSplit. */
  method GenSplit(s: seq<byte>, sep: seq<byte>, sepSave: nat, n0: int, arch: Arch) returns (r: seq<seq<byte>>)
    requires sepSave <= |sep|
    ensures n0 == 0 ==> r == []
    ensures n0 != 0 && sep == [] ==> IsExplosion(r, s, n0)
    ensures n0 != 0 && sep != [] ==>
              exists q :: IsCut(q, s, sep, if n0 < 0 then n0 else n0 - 1) && Extended(r, q, sep[..sepSave])
  {
    if n0 == 0 {
      return [];
    }
    if |sep| == 0 {
      r := Explode(s, n0);
      AllowedExplosion(s, n0);
      return;
    }
    hide IsCut, Extended;
    ghost var k := if n0 < 0 then n0 else n0 - 1;
    PiecesAreCut(s, sep, k);
    PiecesExtend(s, sep, sepSave, Cuts(s, sep, k));
    var n := n0;
    if n < 0 {
      n := Count(s, sep, arch);
      n := n + 1;
    }
    if n > |s| + 1 {
      EnoughCuts(s, sep, sepSave, Cuts(s, sep, k), |s|);
      n := |s| + 1;
    }
    r := SplitLoop(s, sep, sepSave, n, arch);
  }

  lemma AllowedExplosion(s: seq<byte>, n: int)
    requires n != 0
    ensures IsExplosion(Exploded(s, Allowed(s, n)), s, n)
  {
    hide IsExplosion, Exploded;
    if n < 0 || n > |s| {
      FewExploded(s, |s|, n);
    } else {
      ExplodedIsExplosion(s, n);
    }
  }

  /** The loop of genSplit, which fills a slice of n pieces. */
  method SplitLoop(s: seq<byte>, sep: seq<byte>, sepSave: nat, n: nat, arch: Arch) returns (r: seq<seq<byte>>)
    requires sep != [] && sepSave <= |sep| && n > 0
    ensures r == Pieces(s, sep, sepSave, n - 1)
  {
    hide Pieces, IndexOf;
    var a := new seq<byte>[n](_ => []);
    var i, rest := 0, s;
    ghost var whole := Pieces(s, sep, sepSave, n - 1);
    assert a[..0] + whole == whole;
    while i < n - 1
      invariant 0 <= i <= n - 1
      invariant a[..i] + Pieces(rest, sep, sepSave, n - 1 - i) == whole
    {
      var m := Index(rest, sep, arch);
      PiecesStep(rest, sep, sepSave, n - 1 - i);
      if m < 0 {
        break;
      }
      ghost var done, later := a[..i], Pieces(rest[m + |sep|..], sep, sepSave, n - 2 - i);
      SetNext(a, i, rest[..m + sepSave]);
      Regroup(done, [rest[..m + sepSave]], later);
      rest := rest[m + |sep|..];
      i := i + 1;
    }
    PiecesStep(rest, sep, sepSave, n - 1 - i);
    SetNext(a, i, rest);
    return a[..i + 1];
  }

  lemma PiecesStep(s: seq<byte>, sep: seq<byte>, save: nat, k: nat)
    requires sep != [] && save <= |sep|
    ensures var m := IndexOf(s, sep);
            && m + |sep| <= Max(|s|, |sep| - 1)
            && Pieces(s, sep, save, k) ==
               if k == 0 || m < 0 then [s] else [s[..m + save]] + Pieces(s[m + |sep|..], sep, save, k - 1)
  {
    IndexOfLeftmost(s, sep);
  }

  /** More cuts than there are occurrences make no difference. */
  lemma {:induction false} EnoughCuts(s: seq<byte>, sep: seq<byte>, save: nat, k: nat, j: nat)
    requires sep != [] && save <= |sep| && CountOf(s, sep) <= k && CountOf(s, sep) <= j
    ensures Pieces(s, sep, save, k) == Pieces(s, sep, save, j)
    decreases k
  {
    IndexOfLeftmost(s, sep);
    var m := IndexOf(s, sep);
    if m >= 0 {
      EnoughCuts(s[m + |sep|..], sep, save, k - 1, j - 1);
    }
  }

  ghost predicate Contains(s: seq<byte>, sep: seq<byte>) {
    exists i :: IsAt(s, sep, i)
  }

  /** What lies before the leftmost occurrence contains none. */
  lemma BeforeLeftmost(s: seq<byte>, sep: seq<byte>, m: nat)
    requires m <= |s| && NoneBefore(s, sep, m) && sep != []
    ensures !Contains(s[..m], sep)
  {
    forall i
      ensures !IsAt(s[..m], sep, i)
    {
      if 0 <= i && i + |sep| <= m {
        assert s[..m][i..i + |sep|] == s[i..i + |sep|];
        assert !IsAt(s, sep, i);
      }
    }
  }

  /** Count+1 pieces, none of which contains the separator. */
  lemma {:induction false} PiecesAreFree(s: seq<byte>, sep: seq<byte>, k: nat)
    requires sep != [] && k <= CountOf(s, sep)
    ensures |Pieces(s, sep, 0, k)| == k + 1
    ensures forall i | 0 <= i < k :: !Contains(Pieces(s, sep, 0, k)[i], sep)
    ensures k == CountOf(s, sep) ==> !Contains(Pieces(s, sep, 0, k)[k], sep)
    decreases k
  {
    hide Contains, IndexOf;
    IndexOfLeftmost(s, sep);
    var m := IndexOf(s, sep);
    if k > 0 {
      var rest := Pieces(s[m + |sep|..], sep, 0, k - 1);
      PiecesAreFree(s[m + |sep|..], sep, k - 1);
      BeforeLeftmost(s, sep, m);
      assert s[..m + 0] == s[..m];
      assert Pieces(s, sep, 0, k) == [s[..m]] + rest;
    } else if m < 0 {
      BeforeLeftmost(s, sep, |s|);
      assert s[..|s|] == s;
    }
  }

  // ---------------------------------------------------------------- what a split is

  /** s has been cut into the pieces q at the leftmost occurrences of sep, n times or, if n is negative or
      there are not so many, everywhere. An empty sep occurs at the beginning and behind each rune. */
  ghost predicate IsCut(q: seq<seq<byte>>, s: seq<byte>, sep: seq<byte>, n: int) {
    && q != [] && Joined(q, sep) == s
    && (forall i | 0 <= i < |q| - 1 :: IsPiece(q, i, sep))
    && (n >= 0 ==> |q| - 1 <= n)
    && (n == |q| - 1 || (if sep == [] then |q| > 1 && q[|q| - 1] == [] else !Contains(q[|q| - 1], sep)))
  }

  /** The separator behind piece i does not begin earlier. */
  ghost predicate IsPiece(q: seq<seq<byte>>, i: nat, sep: seq<byte>)
    requires i < |q|
  {
    if sep != [] then NoneBefore(q[i] + sep, sep, |q[i]|)
    else if i == 0 then q[0] == []
    else Joined(q[i..], []) != [] && |q[i]| == Width(Joined(q[i..], []))
  }

  /** r has the pieces q, each but the last with the given end. */
  predicate Extended(r: seq<seq<byte>>, q: seq<seq<byte>>, end: seq<byte>) {
    && |r| == |q| && (forall i | 0 <= i < |q| - 1 :: r[i] == q[i] + end)
    && (q != [] ==> r[|q| - 1] == q[|q| - 1])
  }

  /** s has been cut behind each rune into at most n pieces, or as many as it takes if n is negative. */
  ghost predicate IsExplosion(r: seq<seq<byte>>, s: seq<byte>, n: int) {
    && Joined(r, []) == s && (forall i | 0 <= i < |r| :: r[i] != [])
    && (forall i | 0 <= i < |r| - 1 :: Joined(r[i..], []) != [] && |r[i]| == Width(Joined(r[i..], [])))
    && (n >= 0 ==> |r| <= n)
    && (|r| == n || r == [] || (r[|r| - 1] != [] && |r[|r| - 1]| == Width(r[|r| - 1])))
  }

  lemma LeftmostPiece(s: seq<byte>, sep: seq<byte>, m: nat)
    requires IsAt(s, sep, m) && NoneBefore(s, sep, m)
    ensures NoneBefore(s[..m] + sep, sep, m)
  {
    var t := s[..m + |sep|];
    assert s[..m] + sep == t;
    forall i | 0 <= i < m
      ensures !IsAt(t, sep, i)
    {
      assert t[i..i + |sep|] == s[i..i + |sep|];
      assert !IsAt(s, sep, i);
    }
  }

  lemma {:induction false} PiecesAreLeftmost(s: seq<byte>, sep: seq<byte>, k: nat)
    requires sep != []
    ensures var q := Pieces(s, sep, 0, k); forall i | 0 <= i < |q| - 1 :: NoneBefore(q[i] + sep, sep, |q[i]|)
    decreases k
  {
    hide IndexOf, NoneBefore;
    PiecesStep(s, sep, 0, k);
    IndexOfLeftmost(s, sep);
    var m := IndexOf(s, sep);
    if k > 0 && m >= 0 {
      PiecesAreLeftmost(s[m + |sep|..], sep, k - 1);
      LeftmostPiece(s, sep, m);
      assert s[..m + 0] == s[..m];
    }
  }

  /** The pieces between the first n separators are such a cut. */
  lemma PiecesAreCut(s: seq<byte>, sep: seq<byte>, n: int)
    requires sep != []
    ensures IsCut(Pieces(s, sep, 0, Cuts(s, sep, n)), s, sep, n)
  {
    hide Contains, NoneBefore, Joined;
    var k := Cuts(s, sep, n);
    var j := Min(k, CountOf(s, sep));
    if k > CountOf(s, sep) {
      EnoughCuts(s, sep, 0, k, j);
    }
    PiecesAreFree(s, sep, j);
    PiecesAreLeftmost(s, sep, k);
    JoinSplit(s, sep, k);
  }

  lemma {:induction false} PiecesExtend(s: seq<byte>, sep: seq<byte>, save: nat, k: nat)
    requires sep != [] && save <= |sep|
    ensures Extended(Pieces(s, sep, save, k), Pieces(s, sep, 0, k), sep[..save])
    decreases k
  {
    hide Pieces, IndexOf, Extended;
    IndexOfLeftmost(s, sep);
    PiecesStep(s, sep, save, k);
    PiecesStep(s, sep, 0, k);
    var m := IndexOf(s, sep);
    if k > 0 && m >= 0 {
      var rest := s[m + |sep|..];
      PiecesExtend(rest, sep, save, k - 1);
      CutEnd(s, sep, m, save);
      ExtendedCons(s[..m + 0], sep[..save], Pieces(rest, sep, save, k - 1), Pieces(rest, sep, 0, k - 1));
    } else {
      ExtendedOne(s, sep[..save]);
    }
  }

  lemma CutEnd(s: seq<byte>, sep: seq<byte>, m: nat, save: nat)
    requires IsAt(s, sep, m) && save <= |sep|
    ensures s[..m + save] == s[..m + 0] + sep[..save]
  {
    assert s[m..m + |sep|][..save] == s[m..m + save];
  }

  lemma ExtendedCons(first: seq<byte>, end: seq<byte>, r: seq<seq<byte>>, q: seq<seq<byte>>)
    requires Extended(r, q, end) && q != []
    ensures Extended([first + end] + r, [first] + q, end)
  {
  }

  lemma ExtendedOne(s: seq<byte>, end: seq<byte>)
    ensures Extended([s], [s], end)
  {
  }

  lemma {:induction false} ExplodedIsExplosion(s: seq<byte>, n: nat)
    requires s != [] ==> n > 0
    ensures IsExplosion(Exploded(s, n), s, n)
    decreases n
  {
    hide Width, IsExplosion;
    if s == [] || n == 1 || s[Width(s)..] == [] {
      FewPieces(s, n, n);
    } else {
      ExplodedIsExplosion(s[Width(s)..], n - 1);
      ExplosionCons(s, Exploded(s[Width(s)..], n - 1), n);
    }
  }

  /** As many pieces as s has bytes are as many as it takes. */
  lemma {:induction false} FewExploded(s: seq<byte>, n: nat, k: int)
    requires |s| <= n && (k < 0 || |s| <= k)
    ensures IsExplosion(Exploded(s, n), s, k)
    decreases n
  {
    hide Width, IsExplosion;
    if s == [] || n == 1 || s[Width(s)..] == [] {
      FewPieces(s, n, k);
    } else {
      FewExploded(s[Width(s)..], n - 1, if k < 0 then k else k - 1);
      ExplosionCons(s, Exploded(s[Width(s)..], n - 1), k);
    }
  }

  lemma FewPieces(s: seq<byte>, n: nat, k: int)
    requires s == [] || s[Width(s)..] == [] || (n == 1 && (k == 1 || |s| == 1))
    requires (s != [] ==> n > 0) && (k == n || k < 0 || |s| <= k)
    ensures IsExplosion(Exploded(s, n), s, k)
  {
    if s != [] {
      assert [s][0..] == [s] && s[..|s|] == s;
      ExplodedCons(s, n);
      assert Exploded(s, n) == [s];
    }
  }

  lemma ExplosionCons(s: seq<byte>, rest: seq<seq<byte>>, n: int)
    requires s != [] && rest != [] && (n < 0 || n > 1) && IsExplosion(rest, s[Width(s)..], if n < 0 then n else n - 1)
    ensures IsExplosion([s[..Width(s)]] + rest, s, n)
  {
    hide Joined, Width;
    var r, w := [s[..Width(s)]] + rest, Width(s);
    JoinedCons(s[..w], rest, []);
    assert s[..w] + [] + s[w..] == s;
    assert r[0..] == r;
    assert forall i | 0 < i < |r| :: r[i..] == rest[i - 1..];
  }

  /** A cut at the leftmost separators is unique. */
  lemma {:induction false} CutIsUnique(q: seq<seq<byte>>, p: seq<seq<byte>>, s: seq<byte>, sep: seq<byte>, n: int)
    requires sep != [] && IsCut(q, s, sep, n) && IsCut(p, s, sep, n)
    ensures q == p
    decreases |q|
  {
    hide Joined, Contains, NoneBefore;
    if |q| == 1 || |p| == 1 {
      assert (|q| == 1 ==> q == [q[0]]) && (|p| == 1 ==> p == [p[0]]);
      JoinedOne(q[0], sep);
      JoinedOne(p[0], sep);
      if |p| > 1 {
        FirstCut(p, s, sep, n);
      } else if |q| > 1 {
        FirstCut(q, s, sep, n);
      }
    } else {
      FirstCut(q, s, sep, n);
      FirstCut(p, s, sep, n);
      assert |q[0]| == |p[0]| by {
        OneLeftmost(s, sep, |q[0]|, |p[0]|);
      }
      CutIsUnique(q[1..], p[1..], s[|q[0]| + |sep|..], sep, if n < 0 then n else n - 1);
      assert q == [q[0]] + q[1..] && p == [p[0]] + p[1..];
    }
  }

  lemma OneLeftmost(s: seq<byte>, sep: seq<byte>, a: nat, b: nat)
    requires IsAt(s, sep, a) && NoneBefore(s, sep, a) && IsAt(s, sep, b) && NoneBefore(s, sep, b)
    ensures a == b
  {
  }

  /** The first piece ends at the leftmost separator, and the others are a cut of what is behind it. */
  lemma FirstCut(q: seq<seq<byte>>, s: seq<byte>, sep: seq<byte>, n: int)
    requires sep != [] && IsCut(q, s, sep, n) && |q| > 1
    ensures var m := |q[0]|;
            && IsAt(s, sep, m) && NoneBefore(s, sep, m) && Contains(s, sep) && q[0] == s[..m]
            && IsCut(q[1..], s[m + |sep|..], sep, if n < 0 then n else n - 1)
  {
    hide Joined, Contains, NoneBefore;
    var m, rest := |q[0]|, q[1..];
    assert q == [q[0]] + rest;
    JoinedCons(q[0], rest, sep);
    var tail := Joined(rest, sep);
    assert s == q[0] + sep + tail;
    assert s[m + |sep|..] == tail && s[m..m + |sep|] == sep;
    assert IsPiece(q, 0, sep);
    StillLeftmost(q[0], sep, tail);
    assert Contains(s, sep) by {
      AtMeans(s, sep, m);
    }
    assert forall i | 0 <= i < |rest| - 1 :: IsPiece(q, i + 1, sep) && rest[i] == q[i + 1];
  }

  lemma AtMeans(s: seq<byte>, sep: seq<byte>, m: nat)
    requires IsAt(s, sep, m)
    ensures Contains(s, sep)
  {
  }

  lemma StillLeftmost(a: seq<byte>, sep: seq<byte>, tail: seq<byte>)
    requires NoneBefore(a + sep, sep, |a|)
    ensures NoneBefore(a + sep + tail, sep, |a|)
  {
    var s, t := a + sep, a + sep + tail;
    forall i | 0 <= i < |a|
      ensures !IsAt(t, sep, i)
    {
      assert t[i..i + |sep|] == s[i..i + |sep|];
      assert !IsAt(s, sep, i);
    }
  }

  /** The first m occurrences of the empty separator cut s into these pieces. */
  function RunePieces(s: seq<byte>, m: nat): seq<seq<byte>> {
    if m == 0 then [s]
    else if m <= RuneCount(s) then [[]] + Exploded(s, m)
    else [[]] + Exploded(s, RuneCount(s)) + [[]]
  }

  lemma RunePiecesAreCut(s: seq<byte>, m: nat, n: int)
    requires m == if n < 0 then RuneCount(s) + 1 else Min(n, RuneCount(s) + 1)
    ensures IsCut(RunePieces(s, m), s, [], n) && |RunePieces(s, m)| == m + 1
  {
    var k := RuneCount(s);
    if m == 0 {
      JoinedOne(s, []);
    } else if m <= k {
      ExplodedCount(s, m);
      ExplodedIsExplosion(s, m);
      BehindStart(s, Exploded(s, m), n);
    } else {
      AtBothEnds(s, n);
    }
  }

  lemma {:induction false} ExplodedCount(s: seq<byte>, m: nat)
    requires m <= RuneCount(s) && (s != [] ==> m > 0)
    ensures |Exploded(s, m)| == m
    decreases m
  {
    hide Width;
    if m > 1 {
      ExplodedCount(s[Width(s)..], m - 1);
    }
  }

  lemma BehindStart(s: seq<byte>, e: seq<seq<byte>>, n: int)
    requires e != [] && IsExplosion(e, s, |e|) && (n == |e| || n < 0) && n >= 0
    ensures IsCut([[]] + e, s, [], n)
  {
    hide Joined, Width;
    var q := [[]] + e;
    JoinedCons([], e, []);
    assert [] + [] + s == s;
    assert forall i | 0 < i < |q| :: q[i..] == e[i - 1..];
  }

  lemma AtBothEnds(s: seq<byte>, n: int)
    requires n < 0 || n > RuneCount(s)
    ensures IsCut(RunePieces(s, RuneCount(s) + 1), s, [], n) && |RunePieces(s, RuneCount(s) + 1)| == RuneCount(s) + 2
  {
    hide IsCut, IsExplosion, Width;
    var k := RuneCount(s);
    ExplodedRunes(s, k);
    if s == [] {
      OnlyEnds(n);
    } else {
      ExplodedIsExplosion(s, k);
      EndedRunes(s, Exploded(s, k), n);
    }
  }

  lemma OnlyEnds(n: int)
    requires n < 0 || n > 0
    ensures IsCut(RunePieces([], 1), [], [], n) && |RunePieces([], 1)| == 2
  {
    assert [[]] + Exploded([], 0) + [[]] == [[], []];
    assert Joined([[], []], []) == [];
  }

  lemma EndedRunes(s: seq<byte>, e: seq<seq<byte>>, n: int)
    requires e != [] && IsExplosion(e, s, |e|) && Width(e[|e| - 1]) == |e[|e| - 1]| && (n < 0 || n > |e|)
    ensures IsCut([[]] + e + [[]], s, [], n)
  {
    hide Joined, Width;
    var q := [[]] + e + [[]];
    JoinedSnoc(e, [], []);
    JoinedCons([], e + [[]], []);
    assert q == [[]] + (e + [[]]);
    assert [] + [] + (s + [] + []) == s;
    forall i | 0 < i < |q| - 1
      ensures IsPiece(q, i, [])
    {
      assert q[i..] == e[i - 1..] + [[]];
      JoinedSnoc(e[i - 1..], [], []);
      assert Joined(q[i..], []) == Joined(e[i - 1..], []);
      if i == |e| {
        assert e[i - 1..] == [e[i - 1]];
        JoinedOne(e[i - 1], []);
      }
    }
  }

  // ---------------------------------------------------------------- joining

  function Joined(p: seq<seq<byte>>, sep: seq<byte>): seq<byte> {
    if p == [] then [] else if |p| == 1 then p[0] else p[0] + sep + Joined(p[1..], sep)
  }

  /** Join(Split(s, sep), sep) == s, and so for every number of cuts. */
  lemma {:induction false} JoinSplit(s: seq<byte>, sep: seq<byte>, k: nat)
    requires sep != []
    ensures Joined(Pieces(s, sep, 0, k), sep) == s
    decreases k
  {
    hide IndexOf;
    IndexOfLeftmost(s, sep);
    var m := IndexOf(s, sep);
    if k > 0 && m >= 0 {
      var rest := Pieces(s[m + |sep|..], sep, 0, k - 1);
      JoinSplit(s[m + |sep|..], sep, k - 1);
      CutAt(s, sep, m);
      hide Joined;
      JoinedCons(s[..m], rest, sep);
      assert Pieces(s, sep, 0, k) == [s[..m + 0]] + rest;
    } else {
      JoinedOne(s, sep);
    }
  }

  lemma CutAt(s: seq<byte>, sep: seq<byte>, m: int)
    requires IsAt(s, sep, m)
    ensures s[..m] + sep + s[m + |sep|..] == s && s[..m + |sep|] + [] + s[m + |sep|..] == s
  {
    assert s == s[..m] + s[m..m + |sep|] + s[m + |sep|..];
  }

  lemma JoinedOne(s: seq<byte>, sep: seq<byte>)
    ensures Joined([s], sep) == s
  {
  }

  lemma JoinedCons(first: seq<byte>, rest: seq<seq<byte>>, sep: seq<byte>)
    requires rest != []
    ensures Joined([first] + rest, sep) == first + sep + Joined(rest, sep)
  {
    assert ([first] + rest)[1..] == rest;
  }

  /** SplitAfter loses nothing either: its pieces follow one another in s. */
  lemma {:induction false} JoinSplitAfter(s: seq<byte>, sep: seq<byte>, k: nat)
    requires sep != []
    ensures Joined(Pieces(s, sep, |sep|, k), []) == s
    decreases k
  {
    hide IndexOf;
    IndexOfLeftmost(s, sep);
    var m := IndexOf(s, sep);
    if k > 0 && m >= 0 {
      var rest := Pieces(s[m + |sep|..], sep, |sep|, k - 1);
      JoinSplitAfter(s[m + |sep|..], sep, k - 1);
      CutAt(s, sep, m);
      hide Joined;
      JoinedCons(s[..m + |sep|], rest, []);
    } else {
      JoinedOne(s, []);
    }
  }

  /** The same for an empty separator. */
  lemma {:induction false} JoinExploded(s: seq<byte>, n: nat)
    ensures Joined(Exploded(s, n), []) == s
    decreases n
  {
    if s != [] && n > 1 {
      var w := Width(s);
      var rest := Exploded(s[w..], n - 1);
      JoinExploded(s[w..], n - 1);
      assert ([s[..w]] + rest)[1..] == rest;
      assert rest == [] ==> s[w..] == [];
    }
  }

  function TotalLength(p: seq<seq<byte>>): nat {
    if p == [] then 0 else TotalLength(p[..|p| - 1]) + |p[|p| - 1]|
  }

  lemma {:induction false} JoinedSnoc(p: seq<seq<byte>>, sep: seq<byte>, v: seq<byte>)
    requires p != []
    ensures Joined(p + [v], sep) == Joined(p, sep) + sep + v
    decreases |p|
  {
    assert (p + [v])[1..] == p[1..] + [v];
    if |p| > 1 {
      JoinedSnoc(p[1..], sep, v);
    }
  }

  lemma {:induction false} JoinedLength(p: seq<seq<byte>>, sep: seq<byte>)
    requires p != []
    ensures |Joined(p, sep)| == TotalLength(p) + |sep| * (|p| - 1)
    decreases |p|
  {
    var q := p[..|p| - 1];
    assert p == q + [p[|p| - 1]];
    if q == [] {
      assert TotalLength(q) == 0;
    } else {
      JoinedLength(q, sep);
      JoinedSnoc(q, sep, p[|p| - 1]);
      OneMore(|q| - 1, |sep|);
    }
  }

  lemma {:induction false} TotalGrows(p: seq<seq<byte>>, i: nat)
    requires i < |p|
    ensures TotalLength(p[..i + 1]) == TotalLength(p[..i]) + |p[i]|
    ensures TotalLength(p[..i + 1]) <= TotalLength(p)
    decreases |p| - i
  {
    assert p[..i + 1][..i] == p[..i];
    if i + 1 == |p| {
      assert p[..i + 1] == p;
    } else {
      TotalGrows(p, i + 1);
    }
  }

  /** Join; None stands for the panic on overflow of the output length. */
  method Join(p: seq<seq<byte>>, sep: seq<byte>) returns (r: Option<seq<byte>>)
    ensures r.Some? ==> r.value == Joined(p, sep)
    ensures r.None? <==> |p| > 1 && ((|sep| > 0 && |sep| >= MAX_INT / (|p| - 1)) || |Joined(p, sep)| > MAX_INT)
  {
    if |p| == 0 {
      return Some([]);
    }
    if |p| == 1 {
      return Some(p[0]);
    }
    JoinedLength(p, sep);
    var n: int := 0;
    if |sep| > 0 {
      if |sep| >= MAX_INT / (|p| - 1) {
        return None;
      }
      n := |sep| * (|p| - 1);
      NoOverflow(|sep|, |p| - 1);
    }
    for i := 0 to |p|
      invariant n == |sep| * (|p| - 1) + TotalLength(p[..i]) <= MAX_INT
    {
      TotalGrows(p, i);
      if |p[i]| > MAX_INT - n {
        return None;
      }
      n := n + |p[i]|;
    }
    assert p[..|p|] == p;
    var b := CopyAll(p, sep, n);
    return Some(b);
  }

  lemma NoOverflow(a: nat, b: nat)
    requires b > 0 && a < MAX_INT / b
    ensures a * b <= MAX_INT
  {
  }

  /** The second half of Join: copies the pieces into a buffer of n bytes. */
  method CopyAll(p: seq<seq<byte>>, sep: seq<byte>, n: nat) returns (r: seq<byte>)
    requires p != [] && n == |Joined(p, sep)|
    ensures r == Joined(p, sep)
  {
    var b := new byte[n];
    JoinedPrefix(p, sep, 0);
    assert [] + p[0] == p[0];
    var bp := Append(b, 0, p[0], []);
    for i := 1 to |p|
      invariant Clipped(b[..], bp, Joined(p[..i], sep))
    {
      JoinedPrefix(p, sep, i);
      ghost var done := Joined(p[..i], sep);
      bp := Append(b, bp, sep, done);
      bp := Append(b, bp, p[i], done + sep);
    }
    assert p[..|p|] == p;
    assert Joined(p, sep)[..n] == Joined(p, sep);
    return b[..bp];
  }

  lemma {:induction false} JoinedPrefix(p: seq<seq<byte>>, sep: seq<byte>, i: nat)
    requires i < |p|
    ensures Joined(p[..i + 1], sep) == if i == 0 then p[0] else Joined(p[..i], sep) + sep + p[i]
    ensures |Joined(p[..i + 1], sep)| <= |Joined(p, sep)|
    decreases |p| - i
  {
    assert p[..i + 1] == p[..i] + [p[i]];
    if i > 0 {
      JoinedSnoc(p[..i], sep, p[i]);
    }
    if i + 1 == |p| {
      assert p[..i + 1] == p;
    } else {
      JoinedPrefix(p, sep, i + 1);
    }
  }

  // ---------------------------------------------------------------- replacing

  /** The first k occurrences of old replaced. */
  function Replaced(s: seq<byte>, old_: seq<byte>, new_: seq<byte>, k: nat): seq<byte>
    requires old_ != []
    decreases k
  {
    IndexOfLeftmost(s, old_);
    var m := IndexOf(s, old_);
    if k == 0 || m < 0 then s
    else s[..m] + new_ + Replaced(s[m + |old_|..], old_, new_, k - 1)
  }

  /** Replacing is splitting and joining with something else. */
  lemma {:induction false} ReplaceIsSplitJoin(s: seq<byte>, old_: seq<byte>, new_: seq<byte>, k: nat)
    requires old_ != []
    ensures Replaced(s, old_, new_, k) == Joined(Pieces(s, old_, 0, k), new_)
    decreases k
  {
    hide IndexOf;
    IndexOfLeftmost(s, old_);
    var m := IndexOf(s, old_);
    if k > 0 && m >= 0 {
      var rest := Pieces(s[m + |old_|..], old_, 0, k - 1);
      ReplaceIsSplitJoin(s[m + |old_|..], old_, new_, k - 1);
      hide Joined;
      JoinedCons(s[..m + 0], rest, new_);
    } else {
      JoinedOne(s, new_);
    }
  }

  lemma {:induction false} ReplacedLength(s: seq<byte>, old_: seq<byte>, new_: seq<byte>, k: nat)
    requires old_ != [] && k <= CountOf(s, old_)
    ensures |Replaced(s, old_, new_, k)| == |s| + k * (|new_| - |old_|)
    decreases k
  {
    IndexOfLeftmost(s, old_);
    var m := IndexOf(s, old_);
    if k > 0 {
      ReplacedLength(s[m + |old_|..], old_, new_, k - 1);
      OneMore(k - 1, |new_| - |old_|);
    }
  }

  lemma OneMore(k: int, d: int)
    ensures (k + 1) * d == k * d + d
  {
  }

  /** s with new behind each of its first m runes. */
  function After(s: seq<byte>, new_: seq<byte>, m: nat): seq<byte>
    decreases m
  {
    if m == 0 || s == [] then s
    else s[..Width(s)] + new_ + After(s[Width(s)..], new_, m - 1)
  }

  /** What Replace does for an empty old: new in front of the first runes, or at both ends and between
      all runes. */
  function Inserted(s: seq<byte>, new_: seq<byte>, k: nat): seq<byte> {
    if k == 0 then s else new_ + After(s, new_, k - 1)
  }

  lemma {:induction false} AfterLength(s: seq<byte>, new_: seq<byte>, m: nat)
    requires m <= RuneCount(s)
    ensures |After(s, new_, m)| == |s| + m * |new_|
    decreases m
  {
    if m > 0 {
      AfterLength(s[Width(s)..], new_, m - 1);
      OneMore(m - 1, |new_|);
    }
  }

  /** Replacing nothing is splitting into runes and joining: new goes in front of each piece, and behind
      the last one too if there are more replacements than runes. */
  lemma {:induction false} InsertIsSplitJoin(s: seq<byte>, new_: seq<byte>, m: nat)
    requires m <= RuneCount(s) && s != []
    ensures After(s, new_, m) ==
            if m < RuneCount(s) then Joined(Exploded(s, m + 1), new_)
            else Joined(Exploded(s, m), new_) + new_
    decreases m
  {
    hide Width, Exploded, Joined, After, RuneCount;
    var w := Width(s);
    var n := if m < RuneCount(s) then m + 1 else m;
    ExplodedCons(s, n);
    AfterCons(s, new_, m);
    JoinedOne(s, new_);
    if m == 0 || s[w..] == [] {
      assert s[w..] == [] ==> s[..w] == s;
    } else {
      InsertIsSplitJoin(s[w..], new_, m - 1);
      JoinedCons(s[..w], Exploded(s[w..], n - 1), new_);
      Regroup(s[..w] + new_, Joined(Exploded(s[w..], n - 1), new_), new_);
    }
  }

  lemma AfterCons(s: seq<byte>, new_: seq<byte>, m: nat)
    requires s != []
    ensures var rest := s[Width(s)..];
            && RuneCount(s) == 1 + RuneCount(rest) && (rest == [] ==> RuneCount(rest) == 0)
            && After(s, new_, m) == (if m == 0 then s else s[..Width(s)] + new_ + After(rest, new_, m - 1))
            && (rest == [] && m > 0 ==> After(rest, new_, m - 1) == [])
  {
    hide Width;
  }

  lemma ExplodedCons(s: seq<byte>, n: nat)
    requires s != []
    ensures var rest := s[Width(s)..];
            if n <= 1 || rest == [] then Exploded(s, n) == [s]
            else Exploded(s, n) == [s[..Width(s)]] + Exploded(rest, n - 1) && Exploded(rest, n - 1) != []
  {
    hide Width;
    var w := Width(s);
    assert s[w..] == [] ==> s[..w] == s;
  }

  /** The number of replacements. */
  function Replacements(s: seq<byte>, old_: seq<byte>, n: int): nat {
    var m := if old_ == [] then RuneCount(s) + 1 else CountOf(s, old_);
    if n < 0 then m else Min(n, m)
  }

  /** The text that Replace is to make. */
  function Replacement(s: seq<byte>, old_: seq<byte>, new_: seq<byte>, k: nat): seq<byte> {
    if old_ == [] then Inserted(s, new_, k) else Replaced(s, old_, new_, k)
  }

  lemma ReplacementLength(s: seq<byte>, old_: seq<byte>, new_: seq<byte>, n: int)
    ensures var k := Replacements(s, old_, n); |Replacement(s, old_, new_, k)| == |s| + k * (|new_| - |old_|)
  {
    var k := Replacements(s, old_, n);
    if old_ != [] {
      ReplacedLength(s, old_, new_, k);
    } else if k > 0 {
      AfterLength(s, new_, k - 1);
      OneMore(k - 1, |new_|);
    }
  }

  /** Replace; None stands for the panic on a negative length. The precomputed buffer is filled
      exactly: if the length of the text is an int, the text is returned. If it is not, the length has
      wrapped around, and the result is a panic or a part of the text. */
  method Replace(s: seq<byte>, old_: seq<byte>, new_: seq<byte>, n0: int, arch: Arch) returns (r: Option<seq<byte>>)
    requires |s| <= MAX_INT
    ensures var whole := Replacement(s, old_, new_, Replacements(s, old_, n0));
            && (r == Some(whole) <==> |whole| <= MAX_INT)
            && (r.None? <==> WrapInt(|whole|) < 0)
            && (r.Some? ==> r.value <= whole && |r.value| == WrapInt(|whole|))
    ensures exists q :: IsCut(q, s, old_, n0)
                        && Joined(q, new_) == Replacement(s, old_, new_, Replacements(s, old_, n0))
  {
    hide WrapInt, IsCut, CutUp, Joined, Replacement;
    CutsOf(s, old_, n0);
    ReplacementIsJoined(s, old_, new_, n0);
    ReplacementLength(s, old_, new_, n0);
    ghost var whole := Replacement(s, old_, new_, Replacements(s, old_, n0));
    var m := 0;
    if n0 != 0 {
      m := Count(s, old_, arch);
    }
    if m == 0 {
      NothingReplaced(s, old_, new_);
      WrapsBelow(s);
      return Some(s);
    }
    var n := n0;
    if n < 0 || m < n {
      n := m;
    }
    assert n == Replacements(s, old_, n0);
    var size := WrapInt(|s| + n * (|new_| - |old_|));
    WrapsBelow(whole);
    if size < 0 {
      return None;
    }
    var t: seq<byte>;
    if old_ == [] {
      t := InsertLoop(s, new_, n, size);
    } else {
      t := ReplaceLoop(s, old_, new_, n, size, arch);
    }
    assert t == whole[..size];
    return Some(t);
  }

  /** Replacing n matches is cutting at them and joining with new. */
  lemma ReplacementIsJoined(s: seq<byte>, old_: seq<byte>, new_: seq<byte>, n: int)
    ensures Replacement(s, old_, new_, Replacements(s, old_, n)) == Joined(CutUp(s, old_, n), new_)
  {
    if old_ == [] {
      InsertionIsJoined(s, new_, Replacements(s, old_, n));
    } else {
      var k := Cuts(s, old_, n);
      if k > CountOf(s, old_) {
        EnoughCuts(s, old_, 0, k, CountOf(s, old_));
      }
      ReplaceIsSplitJoin(s, old_, new_, Min(k, CountOf(s, old_)));
    }
  }

  lemma InsertionIsJoined(s: seq<byte>, new_: seq<byte>, m: nat)
    requires m <= RuneCount(s) + 1
    ensures Inserted(s, new_, m) == Joined(RunePieces(s, m), new_)
  {
    hide Joined, After;
    JoinedOne(s, new_);
    if s == [] {
      NothingInserted(new_, m);
    } else if m > 0 {
      InsertIsSplitJoin(s, new_, m - 1);
      var e := Exploded(s, Min(m, RuneCount(s)));
      assert e != [];
      JoinedCons([], e, new_);
      assert [] + new_ + Joined(e, new_) == new_ + Joined(e, new_);
      if m > RuneCount(s) {
        JoinedSnoc([[]] + e, new_, []);
        assert Joined([[]] + e, new_) + new_ + [] == new_ + (Joined(e, new_) + new_);
      }
    }
  }

  lemma NothingInserted(new_: seq<byte>, m: nat)
    requires m <= 1
    ensures Inserted([], new_, m) == Joined(RunePieces([], m), new_)
  {
    assert [[]] + Exploded([], 0) + [[]] == [[], []];
    assert Joined([[], []], new_) == [] + new_ + Joined([[]], new_);
  }

  lemma NothingReplaced(s: seq<byte>, old_: seq<byte>, new_: seq<byte>)
    ensures Replacement(s, old_, new_, 0) == s
  {
  }

  lemma WrapsBelow(whole: seq<byte>)
    ensures var size := WrapInt(|whole|);
            && size <= |whole| && (size == |whole| <==> |whole| <= MAX_INT)
            && (size >= 0 ==> |whole[..size]| == size && (whole[..size] == whole <==> |whole| <= MAX_INT))
  {
  }

  function Repeated(c: byte, n: nat): (s: seq<byte>)
    ensures |s| == n
  {
    seq(n, _ => c)
  }

  lemma {:induction false} CountRepeated(c: byte, n: nat)
    ensures CountOf(Repeated(c, n), [c]) == n
  {
    var s := Repeated(c, n);
    IndexOfLeftmost(s, [c]);
    if n > 0 {
      assert IsAt(s, [c], 0);
      assert s[1..] == Repeated(c, n - 1);
      CountRepeated(c, n - 1);
    }
  }

  /** 2^33 bytes, each to be replaced by 2^31: the length of the text is 2^64, which wraps around to 0,
      and Replace returns an empty slice. */
  method OverflowingReplace(c: byte, d: byte, arch: Arch) returns (r: Option<seq<byte>>)
    ensures var s, new_ := Repeated(c, 0x2_0000_0000), Repeated(d, 0x8000_0000);
            |Replacement(s, [c], new_, Replacements(s, [c], -1))| == TWO64
    ensures r == Some([])
  {
    hide Replacement, Repeated;
    var s, new_ := Repeated(c, 0x2_0000_0000), Repeated(d, 0x8000_0000);
    CountRepeated(c, 0x2_0000_0000);
    ReplacementLength(s, [c], new_, -1);
    r := Replace(s, [c], new_, -1, arch);
  }

  lemma ClippedStart(t: seq<byte>)
    ensures Clipped(t, 0, [])
  {
  }

  lemma ClippedAll(t: seq<byte>, w: int, whole: seq<byte>)
    requires Clipped(t, w, whole)
    ensures 0 <= w <= |t| && t[..w] == whole[..Min(|whole|, |t|)]
  {
  }

  /** The loop of Replace for an empty old, which fills a buffer of the given size. */
  method InsertLoop(s: seq<byte>, new_: seq<byte>, n: nat, size: nat) returns (r: seq<byte>)
    requires 0 < n <= RuneCount(s) + 1
    ensures var whole := Replacement(s, [], new_, n); r == whole[..Min(|whole|, size)]
  {
    hide RuneCount, After, Clipped, Width;
    var t := new byte[size];
    var w, start := 0, 0;
    ghost var whole, done := Inserted(s, new_, n), [];
    assert s[0..] == s;
    ClippedStart(t[..]);
    for i := 0 to n
      invariant 0 <= start <= |s| && Clipped(t[..], w, done)
      invariant if i == 0 then done == [] && start == 0
                else n - i <= RuneCount(s[start..]) && done + After(s[start..], new_, n - i) == whole
    {
      var j := start;
      if i > 0 {
        AfterStep(s, start, new_, n - i);
        j := j + Width(s[start..]);
      }
      ghost var later := After(s[j..], new_, n - i - 1);
      Regroup4(done, s[start..j], new_, later);
      w := Append(t, w, s[start..j], done);
      w := Append(t, w, new_, done + s[start..j]);
      done := done + s[start..j] + new_;
      start := j;
    }
    AfterNone(s[start..], new_);
    w := Append(t, w, s[start..], done);
    ClippedAll(t[..], w, whole);
    return t[..w];
  }

  lemma Regroup4(a: seq<byte>, b: seq<byte>, c: seq<byte>, d: seq<byte>)
    ensures a + (b + c + d) == (a + b + c) + d
  {
  }

  lemma AfterNone(s: seq<byte>, new_: seq<byte>)
    ensures After(s, new_, 0) == s
  {
  }

  lemma AfterStep(s: seq<byte>, start: nat, new_: seq<byte>, m: nat)
    requires start <= |s| && 0 < m <= RuneCount(s[start..])
    ensures start < |s| && start + Width(s[start..]) <= |s|
    ensures var j := start + Width(s[start..]);
            && After(s[start..], new_, m) == s[start..j] + new_ + After(s[j..], new_, m - 1)
            && m - 1 <= RuneCount(s[j..])
  {
    var w := Width(s[start..]);
    assert s[start..][..w] == s[start..start + w] && s[start..][w..] == s[start + w..];
  }

  /** The loop of Replace for a non-empty old, which fills a buffer of the given size. */
  method ReplaceLoop(s: seq<byte>, old_: seq<byte>, new_: seq<byte>, n: nat, size: nat, arch: Arch)
    returns (r: seq<byte>)
    requires old_ != [] && n <= CountOf(s, old_)
    ensures var whole := Replacement(s, old_, new_, n); r == whole[..Min(|whole|, size)]
  {
    hide Replaced, CountOf, Clipped;
    var t := new byte[size];
    var w, start := 0, 0;
    ghost var whole, done := Replaced(s, old_, new_, n), [];
    assert s[0..] == s && done + whole == whole;
    ClippedStart(t[..]);
    for i := 0 to n
      invariant 0 <= start <= |s| && CountOf(s[start..], old_) >= n - i && Clipped(t[..], w, done)
      invariant done + Replaced(s[start..], old_, new_, n - i) == whole
    {
      ReplacedStep(s, start, old_, new_, n - i);
      var m := Index(s[start..], old_, arch);
      var j := start + m;
      ghost var later := Replaced(s[j + |old_|..], old_, new_, n - i - 1);
      Regroup4(done, s[start..j], new_, later);
      w := Append(t, w, s[start..j], done);
      w := Append(t, w, new_, done + s[start..j]);
      done := done + s[start..j] + new_;
      start := j + |old_|;
    }
    ReplacedNone(s[start..], old_, new_);
    w := Append(t, w, s[start..], done);
    ClippedAll(t[..], w, whole);
    return t[..w];
  }

  lemma ReplacedNone(s: seq<byte>, old_: seq<byte>, new_: seq<byte>)
    requires old_ != []
    ensures Replaced(s, old_, new_, 0) == s
  {
  }

  /** The next occurrence behind start, in terms of positions in s. */
  lemma ReplacedStep(s: seq<byte>, start: nat, old_: seq<byte>, new_: seq<byte>, k: nat)
    requires old_ != [] && start <= |s| && 0 < k <= CountOf(s[start..], old_)
    ensures var m := IndexOf(s[start..], old_);
            && m >= 0 && start + m + |old_| <= |s|
            && CountOf(s[start + m + |old_|..], old_) >= k - 1
            && Replaced(s[start..], old_, new_, k) ==
               s[start..start + m] + new_ + Replaced(s[start + m + |old_|..], old_, new_, k - 1)
  {
    hide IndexOf;
    var rest := s[start..];
    IndexOfLeftmost(rest, old_);
    var m := IndexOf(rest, old_);
    assert rest[..m] == s[start..start + m];
    assert rest[m + |old_|..] == s[start + m + |old_|..];
  }

  /** The first w bytes of t are done, as far as it fits. */
  ghost predicate Clipped(t: seq<byte>, w: int, done: seq<byte>) {
    w == Min(|done|, |t|) && t[..w] == done[..w]
  }

  /** w += copy(t[w:], p). */
  method Append(t: array<byte>, w: int, p: seq<byte>, ghost done: seq<byte>) returns (w1: int)
    requires Clipped(t[..], w, done)
    modifies t
    ensures Clipped(t[..], w1, done + p)
  {
    var n := Min(|p|, t.Length - w);
    ghost var before := t[..w];
    CopyInto(t, w, p[..n]);
    w1 := w + n;
    assert t[..w1] == before + p[..n];
    assert |done| <= t.Length ==> (done + p)[..w1] == done + p[..n];
  }
}
