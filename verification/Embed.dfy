/** embed.FS: binary searches over a list of files sorted by directory and element. */
module Embed {
  import opened Base
  import opened Utf8

  const SLASH: byte := 0x2F
  const DOT: seq<byte> := [0x2E]
  const DOT_DOT: seq<byte> := [0x2E, 0x2E]

  type Name = seq<byte>

  datatype File = File(name: Name, data: seq<byte>)

  datatype Key = Key(dir: Name, elem: Name)

  /** Go's < on strings. */
  predicate Less(a: Name, b: Name) {
    b != [] && (a == [] || a[0] < b[0] || (a[0] == b[0] && Less(a[1..], b[1..])))
  }

  predicate KeyLess(a: Key, b: Key) {
    Less(a.dir, b.dir) || (a.dir == b.dir && Less(a.elem, b.elem))
  }

  lemma {:induction false} LessIsTotal(a: Name, b: Name)
    ensures (if Less(a, b) then 1 else 0) + (if a == b then 1 else 0) + (if Less(b, a) then 1 else 0) == 1
  {
    if a != [] && b != [] {
      LessIsTotal(a[1..], b[1..]);
      assert a[0] == b[0] && a[1..] == b[1..] ==> a == [b[0]] + b[1..] == b;
    }
  }

  /** a and b agree on their first k bytes, and then a ends or has the smaller byte. */
  predicate LessAt(a: Name, b: Name, k: nat) {
    && k <= |a| && k < |b| && a[..k] == b[..k]
    && (k == |a| || a[k] < b[k])
  }

  /** The order is the lexicographic one. */
  lemma {:induction false} LessIsLexicographic(a: Name, b: Name)
    ensures Less(a, b) <==> exists k: nat :: LessAt(a, b, k)
  {
    if a == [] || b == [] || a[0] != b[0] {
      assert b != [] && (a == [] || a[0] < b[0]) ==> LessAt(a, b, 0);
      forall k: nat | LessAt(a, b, k)
        ensures k == 0
      {
        SameFirst(a, b, k);
      }
    } else {
      LessIsLexicographic(a[1..], b[1..]);
      if Less(a, b) {
        var k: nat :| LessAt(a[1..], b[1..], k);
        TailsLess(a, b, k);
      }
      if k: nat :| LessAt(a, b, k) {
        TailsLess(a, b, k);
        assert LessAt(a[1..], b[1..], k - 1);
      }
    }
  }

  lemma SameFirst(a: Name, b: Name, k: nat)
    requires LessAt(a, b, k)
    ensures k > 0 ==> a != [] && b != [] && a[0] == b[0]
  {
    assert k > 0 ==> a[..k][0] == a[0] && b[..k][0] == b[0];
  }

  lemma TailsLess(a: Name, b: Name, k: nat)
    requires a != [] && b != [] && a[0] == b[0]
    ensures LessAt(a[1..], b[1..], k) ==> LessAt(a, b, k + 1)
    ensures k > 0 && LessAt(a, b, k) ==> LessAt(a[1..], b[1..], k - 1)
  {
    if LessAt(a[1..], b[1..], k) {
      assert a[..k + 1] == [a[0]] + a[1..][..k] == b[..k + 1];
    }
    if k > 0 && LessAt(a, b, k) {
      assert a[1..][..k - 1] == a[..k][1..] == b[..k][1..] == b[1..][..k - 1];
    }
  }

  lemma {:induction false} LessIsTransitive(a: Name, b: Name, c: Name)
    requires Less(a, b) && Less(b, c)
    ensures Less(a, c)
  {
    if a != [] && a[0] == b[0] == c[0] {
      LessIsTransitive(a[1..], b[1..], c[1..]);
    }
  }

  /** a <= b < c. */
  lemma NotAfterLess(a: Name, b: Name, c: Name)
    requires !Less(b, a) && Less(b, c)
    ensures Less(a, c)
  {
    LessIsTotal(a, b);
    if Less(a, b) {
      LessIsTransitive(a, b, c);
    }
  }

  /** a < b <= c. */
  lemma LessNotAfter(a: Name, b: Name, c: Name)
    requires Less(a, b) && !Less(c, b)
    ensures Less(a, c)
  {
    LessIsTotal(b, c);
    if Less(b, c) {
      LessIsTransitive(a, b, c);
    }
  }

  function LastIndexByte(s: Name, c: byte): (i: int)
    ensures -1 <= i < |s|
    ensures i >= 0 ==> s[i] == c && c !in s[i + 1..]
    ensures i < 0 ==> c !in s
  {
    if s == [] then -1
    else if s[|s| - 1] == c then |s| - 1
    else
      var i := LastIndexByte(s[..|s| - 1], c);
      assert i >= 0 ==> s[i + 1..] == s[..|s| - 1][i + 1..] + [s[|s| - 1]];
      i
  }

  /** The name without a final slash. */
  function Trimmed(name: Name): Name {
    if name != [] && name[|name| - 1] == SLASH then name[..|name| - 1] else name
  }

  function Split(name: Name): Key {
    var n := Trimmed(name);
    var i := LastIndexByte(n, SLASH);
    if i < 0 then Key(DOT, n) else Key(n[..i], n[i + 1..])
  }

  function DirOf(f: File): Name {
    Split(f.name).dir
  }

  /** utf8.ValidString. */
  predicate ValidString(s: Name) {
    s == [] || (DecodeRune(s).Some? && 0 < DecodeRune(s).value.1 <= |s| && ValidString(s[DecodeRune(s).value.1..]))
  }

  predicate ElementsOk(name: Name) {
    var i := IndexByte(name, SLASH);
    var elem := if i < 0 then name else name[..i];
    && elem != [] && elem != DOT && elem != DOT_DOT
    && (i < 0 || ElementsOk(name[i + 1..]))
  }

  /** fs.ValidPath. */
  predicate ValidPath(name: Name) {
    ValidString(name) && (name == DOT || ElementsOk(name))
  }

  /** The bytes from i to j are an element of name: they stand between slashes or ends. */
  predicate IsElement(name: Name, i: int, j: int) {
    && 0 <= i <= j <= |name| && (forall k | i <= k < j :: name[k] != SLASH)
    && (i == 0 || name[i - 1] == SLASH) && (j == |name| || name[j] == SLASH)
  }

  predicate Proper(elem: Name) {
    elem != [] && elem != DOT && elem != DOT_DOT
  }

  /** A path is valid exactly if none of its elements is empty, "." or "..". */
  lemma {:induction false} ElementsOkMeans(name: Name)
    ensures ElementsOk(name) <==> forall i, j | IsElement(name, i, j) :: Proper(name[i..j])
  {
    var n := IndexByte(name, SLASH);
    if n < 0 {
      assert name[0..|name|] == name && IsElement(name, 0, |name|);
      assert forall i, j | IsElement(name, i, j) :: i == 0 && j == |name|;
    } else {
      var rest := name[n + 1..];
      ElementsOkMeans(rest);
      assert name[0..n] == name[..n] && IsElement(name, 0, n);
      if ElementsOk(name) {
        forall i, j | IsElement(name, i, j)
          ensures Proper(name[i..j])
        {
          ElementsBehind(name, n, i, j);
          assert i > n ==> IsElement(rest, i - n - 1, j - n - 1);
        }
      } else if Proper(name[..n]) {
        var i, j :| IsElement(rest, i, j) && !Proper(rest[i..j]);
        ElementsBehind(name, n, i, j);
        assert IsElement(name, n + 1 + i, n + 1 + j);
      }
    }
  }

  lemma ElementsBehind(name: Name, n: nat, i: int, j: int)
    requires n < |name| && name[n] == SLASH && SLASH !in name[..n]
    ensures IsElement(name[n + 1..], i, j) ==>
              IsElement(name, n + 1 + i, n + 1 + j) && name[n + 1 + i..n + 1 + j] == name[n + 1..][i..j]
    ensures i > n && IsElement(name, i, j) ==>
              IsElement(name[n + 1..], i - n - 1, j - n - 1) && name[n + 1..][i - n - 1..j - n - 1] == name[i..j]
    ensures i <= n && IsElement(name, i, j) ==> i == 0 && j == n
  {
    var rest := name[n + 1..];
    assert forall k | 0 <= k < |rest| :: rest[k] == name[n + 1 + k];
    assert forall k | 0 <= k < n :: name[..n][k] == name[k];
  }

  /** The encodings of runes, one after the other. */
  function EncodeAll(runes: seq<int>): Name {
    if runes == [] then [] else EncodeRune(runes[0]) + EncodeAll(runes[1..])
  }

  ghost predicate Encodes(s: Name, runes: seq<int>) {
    s == EncodeAll(runes) && forall i | 0 <= i < |runes| :: IsScalar(runes[i])
  }

  /** A string is valid exactly if it is the encoding of some scalar values. */
  lemma {:induction false} ValidStringMeans(s: Name)
    ensures ValidString(s) <==> exists runes: seq<int> :: Encodes(s, runes)
    decreases |s|
  {
    hide DecodeRune, EncodeRune, Encodes;
    if s == [] {
      NoRunes();
    } else {
      DecodeEncode(s);
      if ValidString(s) {
        var (r, n) := DecodeRune(s).value;
        ValidStringMeans(s[n..]);
        var runes: seq<int> :| Encodes(s[n..], runes);
        MoreRunes(s, r, n, runes);
      }
      if runes: seq<int> :| Encodes(s, runes) {
        FirstRune(s, runes);
        var n := DecodeRune(s).value.1;
        ValidStringMeans(s[n..]);
        assert Encodes(s[n..], runes[1..]);
      }
    }
  }

  lemma NoRunes()
    ensures Encodes([], [])
  {
  }

  lemma MoreRunes(s: Name, r: int, n: nat, runes: seq<int>)
    requires IsScalar(r) && EncodeRune(r) <= s && n == |EncodeRune(r)| && Encodes(s[n..], runes)
    ensures Encodes(s, [r] + runes)
  {
    hide EncodeRune;
    assert ([r] + runes)[1..] == runes;
    assert s == EncodeRune(r) + s[n..];
  }

  lemma FirstRune(s: Name, runes: seq<int>)
    requires s != [] && Encodes(s, runes)
    ensures DecodeRune(s).Some? && 0 < DecodeRune(s).value.1 <= |s|
    ensures runes != [] && Encodes(s[DecodeRune(s).value.1..], runes[1..])
  {
    hide EncodeRune, DecodeRune;
    var rest := EncodeAll(runes[1..]);
    EncodeDecode(runes[0], rest);
    assert s[|EncodeRune(runes[0])|..] == rest;
  }

  lemma DotIsValid()
    ensures ValidString(DOT)
  {
    assert DOT[1..] == [];
  }

  /** A list as the compiler emits it: strictly increasing in (dir, elem). */
  predicate Sorted(files: seq<File>) {
    forall i, j :: 0 <= i < j < |files| ==> KeyLess(Split(files[i].name), Split(files[j].name))
  }

  lemma {:induction false} ElementsEnd(name: Name)
    requires ElementsOk(name)
    ensures name != [] && name[|name| - 1] != SLASH
  {
    var i := IndexByte(name, SLASH);
    if i >= 0 {
      ElementsEnd(name[i + 1..]);
    }
  }

  /** No element of a path is the dot. */
  lemma {:induction false} FirstElement(name: Name, k: nat)
    requires ElementsOk(name) && k < |name| && name[k] == SLASH && SLASH !in name[k + 1..]
    ensures name[..k] != DOT
  {
    var i := IndexByte(name, SLASH);
    assert name[..i] != DOT;
    assert i < k ==> SLASH in name[..k];
    assert SLASH !in DOT;
  }

  /** A name as Split's result spells it. */
  function Rejoined(k: Key): Name {
    if k.dir == DOT then k.elem else k.dir + [SLASH] + k.elem
  }

  lemma PathRejoins(path: Name)
    requires ElementsOk(path)
    ensures Trimmed(path) == path && Rejoined(Split(path)) == path
    ensures Split(path).elem != [] && SLASH !in Split(path).elem
  {
    ElementsEnd(path);
    var i := LastIndexByte(path, SLASH);
    if i >= 0 {
      FirstElement(path, i);
      CutAt(path, i);
    }
  }

  lemma CutAt(s: Name, i: nat)
    requires i < |s|
    ensures s[..i] + [s[i]] + s[i + 1..] == s
  {
  }

  /** A valid path is put together again from what Split makes of it, with or without a final slash. */
  lemma SplitRejoins(path: Name, name: Name)
    requires ElementsOk(path) && (name == path || name == path + [SLASH])
    ensures Rejoined(Split(name)) == path && Trimmed(name) == path
    ensures Split(name).elem != [] && SLASH !in Split(name).elem
  {
    hide ElementsOk, Rejoined;
    PathRejoins(path);
    assert (path + [SLASH])[..|path|] == path;
  }

  /** path is an element of the directory dir: one that stands in it, not further below. */
  ghost predicate InDir(path: Name, dir: Name) {
    exists elem: Name :: elem != [] && SLASH !in elem && path == Rejoined(Key(dir, elem))
  }

  /** Split takes off the last element and nothing else. */
  lemma SplitIsDir(path: Name, name: Name, dir: Name)
    requires ElementsOk(path) && (name == path || name == path + [SLASH])
    ensures Split(name).dir == dir <==> InDir(path, dir)
  {
    SplitRejoins(path, name);
    var k := Split(name);
    if k.dir == dir {
      assert path == Rejoined(Key(dir, k.elem));
    }
    forall elem: Name | elem != [] && SLASH !in elem && path == Rejoined(Key(dir, elem))
      ensures k.dir == dir
    {
      OneLastElement(path, k, Key(dir, elem));
    }
  }

  /** There is one way only to take the last element off a path. */
  lemma OneLastElement(path: Name, a: Key, b: Key)
    requires ElementsOk(path) && path == Rejoined(a) == Rejoined(b)
    requires SLASH !in a.elem && SLASH !in b.elem
    ensures a == b
  {
    hide ElementsOk, Rejoined;
    NotBelowDot(path, a);
    NotBelowDot(path, b);
    InDot(path, a);
    InDot(path, b);
    if a.dir != DOT {
      LastSlash(path, a);
      LastSlash(path, b);
    }
  }

  lemma InDot(path: Name, k: Key)
    requires path == Rejoined(k)
    ensures k.dir == DOT ==> path == k.elem
  {
  }

  lemma LastSlash(path: Name, k: Key)
    requires path == Rejoined(k) && k.dir != DOT && SLASH !in k.elem
    ensures |k.dir| < |path| && path[|k.dir|] == SLASH && forall i | |k.dir| < i < |path| :: path[i] != SLASH
    ensures path[..|k.dir|] == k.dir && path[|k.dir| + 1..] == k.elem
  {
    assert forall i | |k.dir| < i < |path| :: path[i] == k.elem[i - |k.dir| - 1];
  }

  /** A path does not begin with the dot as a directory. */
  lemma NotBelowDot(path: Name, k: Key)
    requires ElementsOk(path) && path == Rejoined(k) && SLASH !in k.elem
    ensures k.dir == DOT ==> SLASH !in path
    ensures k.dir != DOT ==> SLASH in path
  {
    assert k.dir != DOT ==> path[|k.dir|] == SLASH;
  }

  /** A list that is sorted in the wider sense is strictly sorted if its paths are valid and differ. */
  lemma DistinctIsStrict(files: seq<File>)
    requires forall i :: 0 <= i < |files| ==> ElementsOk(Trimmed(files[i].name))
    requires forall i, j :: 0 <= i < j < |files| ==> Trimmed(files[i].name) != Trimmed(files[j].name)
    requires forall i, j :: 0 <= i < j < |files| ==> !KeyLess(Split(files[j].name), Split(files[i].name))
    ensures Sorted(files)
  {
    forall i, j | 0 <= i < j < |files|
      ensures KeyLess(Split(files[i].name), Split(files[j].name))
    {
      var m, n := files[i].name, files[j].name;
      SplitTrimmed(m);
      SplitTrimmed(n);
      SplitRejoins(Trimmed(m), m);
      SplitRejoins(Trimmed(n), n);
      LessIsTotal(Split(m).dir, Split(n).dir);
      LessIsTotal(Split(m).elem, Split(n).elem);
    }
  }

  lemma SplitTrimmed(name: Name)
    ensures name == Trimmed(name) || name == Trimmed(name) + [SLASH]
  {
  }

  /** sortSearch: where f turns true. */
  method SortSearch(n: nat, f: int --> bool) returns (i: nat)
    requires forall h :: 0 <= h < n ==> f.requires(h)
    ensures i <= n && (i > 0 ==> !f(i - 1)) && (i < n ==> f(i))
  {
    var j: nat := n;
    i := 0;
    while i < j
      invariant i <= j <= n
      invariant i > 0 ==> !f(i - 1)
      invariant j < n ==> f(j)
    {
      var h := (i + j) / 2;
      if !f(h) {
        i := h + 1;
      } else {
        j := h;
      }
    }
  }

  /** A file and its name have the same key, whether or not it is a directory. */
  lemma ListedKey(f: File, name: Name)
    requires ElementsOk(name) && Trimmed(f.name) == name
    ensures Split(f.name) == Split(name)
  {
    ElementsEnd(name);
  }

  /** lookup: the named file, if and only if it is in the list; the root is not listed. */
  method Lookup(files: seq<File>, name: Name) returns (r: Option<File>)
    requires Sorted(files)
    ensures name == DOT ==> r == Some(File(DOT + [SLASH], []))
    ensures name != DOT ==> (r.Some? <==> ValidPath(name) && exists f :: f in files && Trimmed(f.name) == name)
    ensures name != DOT && r.Some? ==> r.value in files && Trimmed(r.value.name) == name
  {
    hide Split, Less, Trimmed, ElementsOk, ValidString;
    DotIsValid();
    if !ValidPath(name) {
      return None;
    }
    if name == DOT {
      return Some(File(DOT + [SLASH], []));
    }
    var key := Split(name);
    var i := SortSearch(|files|, i requires 0 <= i < |files| =>
      var k := Split(files[i].name);
      Less(key.dir, k.dir) || (k.dir == key.dir && !Less(k.elem, key.elem)));
    forall k | 0 <= k < |files| && Trimmed(files[k].name) == name
      ensures k == i
    {
      ListedKey(files[k], name);
      OnlyPlace(files, key, k, i);
    }
    if i < |files| && Trimmed(files[i].name) == name {
      return Some(files[i]);
    }
    return None;
  }

  lemma InOrder(files: seq<File>, a: nat, b: nat)
    requires Sorted(files) && a <= b < |files|
    ensures !KeyLess(Split(files[b].name), Split(files[a].name))
    ensures !Less(DirOf(files[b]), DirOf(files[a]))
  {
    var m, n := Split(files[a].name), Split(files[b].name);
    assert a < b ==> KeyLess(m, n);
    LessIsTotal(m.dir, n.dir);
    LessIsTotal(m.elem, n.elem);
  }

  /** In a sorted list the search for the key of entry k ends at k. */
  lemma OnlyPlace(files: seq<File>, key: Key, k: nat, i: nat)
    requires Sorted(files) && k < |files| && Split(files[k].name) == key && i <= |files|
    requires i > 0 ==> !Reached(Split(files[i - 1].name), key)
    requires i < |files| ==> Reached(Split(files[i].name), key)
    ensures i == k
  {
    hide Reached, KeyLess, Less, Split;
    KeyAfter(key, key);
    if k < i {
      InOrder(files, k, i - 1);
      KeyAfter(Split(files[i - 1].name), key);
    } else if i < k {
      KeyAfter(Split(files[i].name), key);
    }
  }

  /** The condition of lookup's search. */
  predicate Reached(k: Key, key: Key) {
    Less(key.dir, k.dir) || (k.dir == key.dir && !Less(k.elem, key.elem))
  }

  lemma KeyAfter(k: Key, key: Key)
    ensures Reached(k, key) <==> !KeyLess(k, key)
    ensures KeyLess(key, k) ==> !KeyLess(k, key)
  {
    LessIsTotal(k.dir, key.dir);
    LessIsTotal(k.elem, key.elem);
  }

  lemma LowCut(files: seq<File>, dir: Name, lo: nat, k: nat)
    requires Sorted(files) && lo <= |files| && k < |files|
    requires lo > 0 ==> Less(DirOf(files[lo - 1]), dir)
    requires lo < |files| ==> !Less(DirOf(files[lo]), dir)
    ensures k < lo <==> Less(DirOf(files[k]), dir)
  {
    if k < lo {
      InOrder(files, k, lo - 1);
      BelowCut(DirOf(files[k]), DirOf(files[lo - 1]), dir);
    } else {
      InOrder(files, lo, k);
      AboveCut(DirOf(files[k]), DirOf(files[lo]), dir);
    }
  }

  /** k <= at < dir. */
  lemma BelowCut(k: Name, at: Name, dir: Name)
    requires !Less(at, k) && Less(at, dir)
    ensures Less(k, dir)
  {
    NotAfterLess(k, at, dir);
  }

  /** dir <= at <= k. */
  lemma AboveCut(k: Name, at: Name, dir: Name)
    requires !Less(k, at) && !Less(at, dir)
    ensures !Less(k, dir)
  {
    if Less(k, dir) {
      NotAfterLess(at, k, dir);
    }
  }

  lemma HighCut(files: seq<File>, dir: Name, hi: nat, k: nat)
    requires Sorted(files) && hi <= |files| && k < |files|
    requires hi > 0 ==> !Less(dir, DirOf(files[hi - 1]))
    requires hi < |files| ==> Less(dir, DirOf(files[hi]))
    ensures hi <= k <==> Less(dir, DirOf(files[k]))
  {
    if hi <= k {
      InOrder(files, hi, k);
      LessNotAfter(dir, DirOf(files[hi]), DirOf(files[k]));
    } else {
      InOrder(files, k, hi - 1);
      if Less(dir, DirOf(files[k])) {
        LessNotAfter(dir, DirOf(files[k]), DirOf(files[hi - 1]));
      }
    }
  }

  /** r is the part of files from i to j, and these are the entries of dir. */
  ghost predicate Listing(files: seq<File>, dir: Name, r: seq<File>, i: nat, j: nat) {
    && i <= j <= |files| && r == files[i..j]
    && forall k :: 0 <= k < |files| ==> (i <= k < j <==> DirOf(files[k]) == dir)
  }

  /** r is the part of files from i to j, and of the files with valid paths these are the ones in dir. */
  ghost predicate Lists(files: seq<File>, dir: Name, r: seq<File>, i: nat, j: nat) {
    && i <= j <= |files| && r == files[i..j]
    && forall k :: 0 <= k < |files| && ElementsOk(Trimmed(files[k].name)) ==>
         (i <= k < j <==> InDir(Trimmed(files[k].name), dir))
  }

  lemma ListingLists(files: seq<File>, dir: Name, r: seq<File>, i: nat, j: nat)
    requires Listing(files, dir, r, i, j)
    ensures Lists(files, dir, r, i, j)
  {
    hide InDir, Split, Trimmed, ElementsOk;
    forall k | 0 <= k < |files| && ElementsOk(Trimmed(files[k].name))
      ensures i <= k < j <==> InDir(Trimmed(files[k].name), dir)
    {
      SplitTrimmed(files[k].name);
      SplitIsDir(Trimmed(files[k].name), files[k].name, dir);
    }
  }

  /** readDir: exactly the entries of the directory, which stand together in the list. */
  method ReadDir(files: seq<File>, dir: Name) returns (r: seq<File>)
    requires Sorted(files)
    ensures exists i: nat, j: nat :: Lists(files, dir, r, i, j)
  {
    hide DirOf, Split, Less, Lists;
    var lo := SortSearch(|files|, i requires 0 <= i < |files| => !Less(DirOf(files[i]), dir));
    var hi := SortSearch(|files|, j requires 0 <= j < |files| => Less(dir, DirOf(files[j])));
    forall k | 0 <= k < |files|
      ensures k < lo <==> Less(DirOf(files[k]), dir)
      ensures hi <= k <==> Less(dir, DirOf(files[k]))
    {
      LowCut(files, dir, lo, k);
      HighCut(files, dir, hi, k);
    }
    forall k | 0 <= k < |files|
      ensures k < lo ==> k < hi
      ensures lo <= k < hi <==> DirOf(files[k]) == dir
    {
      LessIsTotal(DirOf(files[k]), dir);
    }
    assert hi < |files| ==> !(hi < lo);
    r := files[lo..hi];
    assert Listing(files, dir, r, lo, hi);
    ListingLists(files, dir, r, lo, hi);
  }
}
