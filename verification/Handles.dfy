/**
 The table of JavaScript values that Go holds references to (wasm_exec.js): storeValue, loadValue
 and finalizeRef over _values, _goRefCounts, _ids and _idPool, with NaN boxing of references.
 */
module Handles {
  /** Eight bytes of WebAssembly memory as two little-endian words; lo is at the lower address. */
  type u32 = x: int | 0 <= x < 0x1_0000_0000
  datatype Word = Word(hi: bv32, lo: u32)

  const NAN_HEAD: bv32 := 0x7FF8_0000

  predicate IsNaN(w: Word) {
    w.hi & 0x7FF0_0000 == 0x7FF0_0000 && (w.hi & 0x000F_FFFF != 0 || w.lo != 0)
  }

  predicate IsZero(w: Word) {
    w.hi & 0x7FFF_FFFF == 0 && w.lo == 0
  }

  /** JavaScript values. A Number is given by the bits of its double; there is only one NaN. */
  datatype Js =
    | Undefined | Null | Bool(b: bool) | NaN | Number(w: Word)
    | Str(s: string) | Symbol(id: nat) | BigInt(n: int) | Function(id: nat) | Object(id: nat)

  predicate IsJs(v: Js) {
    v.Number? ==> !IsNaN(v.w)
  }

  const ZERO := Number(Word(0, 0))
  const GLOBAL_THIS := Object(0)
  const GO_INSTANCE := Object(1)

  /** Map keys compare by SameValueZero, which takes -0 for 0. */
  function Normal(v: Js): Js {
    if v.Number? && IsZero(v.w) then ZERO else v
  }

  /** v is stored as a reference id, not as a double. */
  predicate Boxed(v: Js) {
    !v.Undefined? && !v.NaN? && (v.Number? ==> IsZero(v.w))
  }

  function TypeFlag(v: Js): bv32 {
    match v
    case Object(_) => 1
    case Str(_) => 2
    case Symbol(_) => 3
    case Function(_) => 4
    case _ => 0
  }

  function Box(v: Js, id: u32): Word {
    Word(NAN_HEAD | TypeFlag(v), id)
  }

  lemma BoxIsNaN(v: Js, id: u32)
    ensures IsNaN(Box(v, id)) && !IsZero(Box(v, id))
    ensures Box(v, id).hi & 7 == TypeFlag(v)
  {
    var f := TypeFlag(v);
    assert f <= 4;
    BoxBits(f);
  }

  lemma BoxBits(f: bv32)
    requires f <= 4
    ensures var hi := NAN_HEAD | f;
            hi & 0x7FF0_0000 == 0x7FF0_0000 && hi & 0x000F_FFFF != 0 && hi & 0x7FFF_FFFF != 0 && hi & 7 == f
  {
  }

  /** A reference count; the predefined values are never collected. */
  datatype Count = Infinity | Count(n: int)

  function Plus(c: Count, d: int): Count {
    if c.Infinity? then c else Count(c.n + d)
  }

  datatype Table = Table(values: seq<Js>, counts: seq<Count>, ids: map<Js, nat>, pool: seq<nat>)

  const PREDEFINED: seq<Js> := [NaN, ZERO, Null, Bool(true), Bool(false), GLOBAL_THIS, GO_INSTANCE]

  const INITIAL := Table(PREDEFINED, seq(7, _ => Infinity),
                         map[ZERO := 1, Null := 2, Bool(true) := 3, Bool(false) := 4,
                              GLOBAL_THIS := 5, GO_INSTANCE := 6], [])

  /** Ids are indexes into values, and fit into the 32 bits that a reference has for them (an array
      has at most 2^32-1 elements). */
  ghost predicate Shape(t: Table) {
    && |t.counts| == |t.values| <= 0xFFFF_FFFF
    && (forall i | 0 <= i < |t.pool| :: t.pool[i] < |t.values|)
    && (forall k | k in t.ids :: t.ids[k] < |t.values|)
  }

  /** The next id to use and the table with it allocated to v. */
  function Allocate(t: Table, v: Js): (nat, Table)
    requires Shape(t)
    ensures var (id, t1) := Allocate(t, v); id < |t1.values| == |t1.counts|
  {
    if t.pool != [] then
      var id := t.pool[|t.pool| - 1];
      (id, Table(t.values[id := v], t.counts[id := Count(0)], t.ids[Normal(v) := id], t.pool[..|t.pool| - 1]))
    else
      (|t.values|, Table(t.values + [v], t.counts + [Count(0)], t.ids[Normal(v) := |t.values|], []))
  }

  /** The word storeValue writes and the table it leaves. */
  function Store(t: Table, v: Js): (Word, Table)
    requires Shape(t) && |t.values| < 0xFFFF_FFFF
  {
    if v.NaN? then (Word(NAN_HEAD, 0), t)
    else if v.Undefined? then (Word(0, 0), t)
    else if v.Number? && !IsZero(v.w) then (v.w, t)
    else
      var (id, t1) := if Normal(v) in t.ids then (t.ids[Normal(v)], t) else Allocate(t, v);
      (Box(v, id), t1.(counts := t1.counts[id := Plus(t1.counts[id], 1)]))
  }

  function Load(t: Table, w: Word): Js {
    if IsZero(w) then Undefined
    else if !IsNaN(w) then Number(w)
    else if w.lo < |t.values| then t.values[w.lo] else Undefined
  }

  function Finalize(t: Table, w: Word): Table
    requires |t.counts| == |t.values| && w.lo < |t.values|
  {
    var id := w.lo;
    var c := Plus(t.counts[id], -1);
    var t1 := t.(counts := t.counts[id := c]);
    if c == Count(0) then
      t1.(values := t.values[id := Null], ids := t.ids - {Normal(t.values[id])}, pool := t.pool + [id])
    else t1
  }

  // ---------------------------------------------------------------- the object

  /** The fields of the Go instance that the three functions update in place. */
  class Go {
    var values: seq<Js>
    var goRefCounts: seq<Count>
    var ids: map<Js, nat>
    var idPool: seq<nat>

    function Tables(): Table
      reads this
    {
      Table(values, goRefCounts, ids, idPool)
    }

    constructor ()
      ensures Tables() == INITIAL && Shape(Tables())
    {
      values := PREDEFINED;
      goRefCounts := seq(7, _ => Infinity);
      ids := map[ZERO := 1, Null := 2, Bool(true) := 3, Bool(false) := 4, GLOBAL_THIS := 5, GO_INSTANCE := 6];
      idPool := [];
    }

    method StoreValue(v: Js) returns (w: Word)
      requires Shape(Tables()) && |values| < 0xFFFF_FFFF
      modifies this
      ensures (w, Tables()) == Store(old(Tables()), v) && Shape(Tables())
    {
      if v.NaN? {
        return Word(NAN_HEAD, 0);
      }
      if v.Number? && !IsZero(v.w) {
        return v.w;
      }
      if v.Undefined? {
        return Word(0, 0);
      }
      var id: nat;
      if Normal(v) in ids {
        id := ids[Normal(v)];
      } else {
        if idPool != [] {
          id := idPool[|idPool| - 1];
          idPool := idPool[..|idPool| - 1];
          values := values[id := v];
          goRefCounts := goRefCounts[id := Count(0)];
        } else {
          id := |values|;
          values := values + [v];
          goRefCounts := goRefCounts + [Count(0)];
        }
        ids := ids[Normal(v) := id];
      }
      goRefCounts := goRefCounts[id := Plus(goRefCounts[id], 1)];
      w := Box(v, id);
    }

    method LoadValue(w: Word) returns (v: Js)
      ensures v == Load(Tables(), w)
    {
      if IsZero(w) {
        return Undefined;
      }
      if !IsNaN(w) {
        return Number(w);
      }
      if w.lo < |values| {
        return values[w.lo];
      }
      return Undefined;
    }

    method FinalizeRef(w: Word)
      requires Shape(Tables()) && w.lo < |values|
      modifies this
      ensures Tables() == Finalize(old(Tables()), w) && Shape(Tables())
    {
      var id := w.lo;
      goRefCounts := goRefCounts[id := Plus(goRefCounts[id], -1)];
      if goRefCounts[id] == Count(0) {
        var v := values[id];
        values := values[id := Null];
        ids := ids - {Normal(v)};
        idPool := idPool + [id];
      }
    }
  }

  // ---------------------------------------------------------------- references held by Go

  /** A word that Go holds, with the value that was stored for it. */
  datatype Ref = Ref(w: Word, v: Js)

  /** How many of refs are references to id. */
  function Held(refs: seq<Ref>, id: nat): nat {
    if refs == [] then 0
    else (if IsNaN(refs[0].w) && refs[0].w.lo == id then 1 else 0) + Held(refs[1..], id)
  }

  predicate Live(t: Table, id: nat) {
    id < |t.values| && id !in t.pool
  }

  ghost predicate TableOk(t: Table, refs: seq<Ref>) {
    && 7 <= |t.values| == |t.counts|
    && t.values[..7] == PREDEFINED && (forall id | 0 <= id < 7 :: t.counts[id].Infinity?)
    // _ids and the live part of _values are inverse to each other
    && (forall k | k in t.ids :: Live(t, t.ids[k]) && t.ids[k] > 0 && t.values[t.ids[k]] == k)
    && (forall id: nat | 0 < id < |t.values| && id !in t.pool :: t.values[id] in t.ids && t.ids[t.values[id]] == id)
    && (forall id: nat | 7 <= id < |t.values| && id !in t.pool ::
          Boxed(t.values[id]) && Normal(t.values[id]) == t.values[id])
    // pooled ids are distinct and dynamic
    && (forall id | id in t.pool :: 7 <= id < |t.values|)
    && (forall i, j | 0 <= i < j < |t.pool| :: t.pool[i] != t.pool[j])
    // the counts are the references that are out
    && (forall id: nat | 7 <= id < |t.values| ::
          t.counts[id] == Count(Held(refs, id)) && (Held(refs, id) == 0 <==> id in t.pool))
    && (forall id: nat | id >= |t.values| :: Held(refs, id) == 0)
  }

  /** What a held word means. */
  ghost predicate RefOk(t: Table, r: Ref) {
    && IsJs(r.v)
    && (if r.v.Undefined? then r.w == Word(0, 0)
        else if r.v.NaN? then r.w == Word(NAN_HEAD, 0)
        else if !Boxed(r.v) then r.w == r.v.w
        else Normal(r.v) in t.ids && t.ids[Normal(r.v)] < 0x1_0000_0000 && r.w == Box(r.v, t.ids[Normal(r.v)]))
  }

  ghost predicate Ok(t: Table, refs: seq<Ref>) {
    TableOk(t, refs) && forall i | 0 <= i < |refs| :: RefOk(t, refs[i])
  }

  lemma OkShape(t: Table, refs: seq<Ref>)
    requires TableOk(t, refs) && |t.values| <= 0xFFFF_FFFF
    ensures Shape(t)
  {
    assert forall i | 0 <= i < |t.pool| :: t.pool[i] in t.pool;
  }

  predicate RefersTo(r: Ref, id: nat) {
    IsNaN(r.w) && r.w.lo == id
  }

  lemma {:induction false} HeldAppend(refs: seq<Ref>, r: Ref, id: nat)
    ensures Held(refs + [r], id) == Held(refs, id) + if RefersTo(r, id) then 1 else 0
  {
    if refs == [] {
      assert [] + [r] == [r];
    } else {
      assert (refs + [r])[1..] == refs[1..] + [r];
      HeldAppend(refs[1..], r, id);
    }
  }

  function Without(refs: seq<Ref>, i: nat): seq<Ref>
    requires i < |refs|
  {
    refs[..i] + refs[i + 1..]
  }

  lemma {:induction false} HeldWithout(refs: seq<Ref>, i: nat, id: nat)
    requires i < |refs|
    ensures Held(refs, id) == Held(Without(refs, i), id) + if RefersTo(refs[i], id) then 1 else 0
  {
    if i > 0 {
      assert Without(refs, i)[1..] == Without(refs[1..], i - 1);
      HeldWithout(refs[1..], i - 1, id);
    } else {
      assert Without(refs, 0) == refs[1..];
    }
  }

  // ---------------------------------------------------------------- preservation

  /** Giving out one more reference to an id that is live. */
  lemma RetainedTable(t: Table, t': Table, refs: seq<Ref>, refs': seq<Ref>, id: nat)
    requires TableOk(t, refs) && id < |t.values| && id !in t.pool
    requires t' == t.(counts := t.counts[id := Plus(t.counts[id], 1)])
    requires forall j: nat :: Held(refs', j) == Held(refs, j) + if j == id then 1 else 0
    ensures TableOk(t', refs')
  {
    hide Held;
  }

  lemma Retain(t: Table, refs: seq<Ref>, v: Js)
    requires Ok(t, refs) && IsJs(v) && Boxed(v) && Normal(v) in t.ids && |t.values| <= 0xFFFF_FFFF
    ensures var id := t.ids[Normal(v)];
            id < |t.values| && Ok(t.(counts := t.counts[id := Plus(t.counts[id], 1)]), refs + [Ref(Box(v, id), v)])
  {
    var id := t.ids[Normal(v)];
    var r := Ref(Box(v, id), v);
    var t', refs' := t.(counts := t.counts[id := Plus(t.counts[id], 1)]), refs + [r];
    BoxIsNaN(v, id);
    hide Box;
    forall j: nat
      ensures Held(refs', j) == Held(refs, j) + if j == id then 1 else 0
    {
      HeldAppend(refs, r, j);
    }
    RetainedTable(t, t', refs, refs', id);
    hide TableOk;
    forall i | 0 <= i < |refs'|
      ensures RefOk(t', refs'[i])
    {
      assert i < |refs| ==> RefOk(t, refs[i]);
    }
  }

  lemma ZeroIsKnown(t: Table, refs: seq<Ref>, v: Js)
    requires TableOk(t, refs) && Boxed(v) && Normal(v) !in t.ids
    ensures Normal(v) == v
  {
    assert t.values[..7][1] == ZERO;
    assert t.values[1] in t.ids;
  }

  /** What Allocate takes from the pool, or from behind the tables. */
  lemma Allocated(t: Table, refs: seq<Ref>, v: Js)
    requires TableOk(t, refs) && Shape(t)
    ensures var (id, t1) := Allocate(t, v);
            && (forall j :: j in t1.pool <==> j in t.pool && j != id)
            && (forall i, j | 0 <= i < j < |t1.pool| :: t1.pool[i] != t1.pool[j])
            && t1.ids == t.ids[Normal(v) := id]
            && (if id in t.pool
                then id < |t.values| && t1.values == t.values[id := v] && t1.counts == t.counts[id := Count(0)]
                else id == |t.values| && t1.values == t.values + [v] && t1.counts == t.counts + [Count(0)])
  {
    hide Held;
    if t.pool != [] {
      var n := |t.pool| - 1;
      assert t.pool[n] in t.pool && t.pool == t.pool[..n] + [t.pool[n]];
    } else {
      assert |t.values| !in t.pool;
    }
  }

  lemma Introduce(t: Table, refs: seq<Ref>, v: Js)
    requires Ok(t, refs) && IsJs(v) && Boxed(v) && Normal(v) !in t.ids && |t.values| < 0xFFFF_FFFF
    ensures Shape(t)
    ensures var (w, t') := Store(t, v); Ok(t', refs + [Ref(w, v)])
  {
    hide Held, TableOk;
    OkShape(t, refs);
    ZeroIsKnown(t, refs, v);
    Allocated(t, refs, v);
    var (id, t1) := Allocate(t, v);
    var (w, t') := Store(t, v);
    var r := Ref(w, v);
    var refs' := refs + [r];
    BoxIsNaN(v, id);
    forall j: nat
      ensures Held(refs', j) == Held(refs, j) + if j == id then 1 else 0
    {
      HeldAppend(refs, r, j);
    }
    IntroducedTable(t, t', refs, refs', v, id);
    IntroducedRefs(t, refs, v);
  }

  lemma IntroducedRefs(t: Table, refs: seq<Ref>, v: Js)
    requires Ok(t, refs) && IsJs(v) && Boxed(v) && Normal(v) !in t.ids && |t.values| < 0xFFFF_FFFF && Shape(t)
    ensures var (w, t') := Store(t, v); forall r | r in refs + [Ref(w, v)] :: RefOk(t', r)
  {
    hide TableOk, Box;
    var (w, t') := Store(t, v);
    forall r | r in refs + [Ref(w, v)]
      ensures RefOk(t', r)
    {
      if r in refs {
        assert RefOk(t, r);
      }
    }
  }

  lemma IntroducedTable(t: Table, t': Table, refs: seq<Ref>, refs': seq<Ref>, v: Js, id: nat)
    requires TableOk(t, refs) && Boxed(v) && Normal(v) == v && v !in t.ids
    requires if id in t.pool
             then t'.values == t.values[id := v] && t'.counts == t.counts[id := Count(1)]
             else id == |t.values| && t'.values == t.values + [v] && t'.counts == t.counts + [Count(1)]
    requires t'.ids == t.ids[v := id]
    requires forall j :: j in t'.pool <==> j in t.pool && j != id
    requires forall i, j | 0 <= i < j < |t'.pool| :: t'.pool[i] != t'.pool[j]
    requires forall j: nat :: Held(refs', j) == Held(refs, j) + if j == id then 1 else 0
    ensures TableOk(t', refs')
  {
    hide Held;
    assert t'.values[..7] == t.values[..7];
  }

  /** storeValue keeps everything in order and adds one outstanding reference. */
  lemma StoreOk(t: Table, refs: seq<Ref>, v: Js)
    requires Ok(t, refs) && IsJs(v) && |t.values| < 0xFFFF_FFFF
    ensures Shape(t)
    ensures var (w, t') := Store(t, v); Ok(t', refs + [Ref(w, v)])
  {
    OkShape(t, refs);
    if Boxed(v) {
      if Normal(v) in t.ids {
        Retain(t, refs, v);
      } else {
        Introduce(t, refs, v);
      }
    } else {
      var r := Ref(Store(t, v).0, v);
      forall j: nat
        ensures 7 <= j ==> Held(refs + [r], j) == Held(refs, j)
      {
        HeldAppend(refs, r, j);
      }
    }
  }

  /** finalizeRef of an outstanding boxed reference. */
  lemma FinalizeOk(t: Table, refs: seq<Ref>, i: nat)
    requires Ok(t, refs) && i < |refs| && IsNaN(refs[i].w)
    ensures refs[i].w.lo < |t.values|
    ensures Ok(Finalize(t, refs[i].w), Without(refs, i))
  {
    var r, refs' := refs[i], Without(refs, i);
    var id := r.w.lo;
    forall j: nat
      ensures Held(refs, j) == Held(refs', j) + if j == id then 1 else 0
    {
      HeldWithout(refs, i, j);
    }
    assert id < |t.values|;
    var t' := Finalize(t, r.w);
    FinalizedTable(t, t', refs, refs', id);
    forall k | 0 <= k < |refs'|
      ensures RefOk(t', refs'[k])
    {
      var q := refs[if k < i then k else k + 1];
      assert refs'[k] == q && RefOk(t, q);
      FinalizedRef(t, t', refs, refs', id, k);
    }
  }

  lemma FinalizedTable(t: Table, t': Table, refs: seq<Ref>, refs': seq<Ref>, id: u32)
    requires TableOk(t, refs) && id < |t.values| && t' == Finalize(t, Word(0, id))
    requires forall j: nat :: Held(refs, j) == Held(refs', j) + if j == id then 1 else 0
    ensures TableOk(t', refs')
  {
    hide Held, TableOk;
    CountOfId(t, refs, refs', id);
    if Plus(t.counts[id], -1) == Count(0) {
      FreedTable(t, t', refs, refs', id);
    } else {
      CountedDown(t, t', refs, refs', id);
    }
  }

  lemma CountOfId(t: Table, refs: seq<Ref>, refs': seq<Ref>, id: u32)
    requires TableOk(t, refs) && id < |t.values|
    requires forall j: nat :: Held(refs, j) == Held(refs', j) + if j == id then 1 else 0
    ensures |t.counts| == |t.values|
    ensures if id < 7 then t.counts[id].Infinity? else id !in t.pool && t.counts[id] == Count(Held(refs, id))
  {
    hide Held;
  }

  /** A reference to id is gone, but not the last one. */
  lemma CountedDown(t: Table, t': Table, refs: seq<Ref>, refs': seq<Ref>, id: u32)
    requires TableOk(t, refs) && id < |t.values| == |t.counts| && (id >= 7 ==> id !in t.pool)
    requires forall j: nat :: Held(refs, j) == Held(refs', j) + if j == id then 1 else 0
    requires Plus(t.counts[id], -1) != Count(0) && t' == t.(counts := t.counts[id := Plus(t.counts[id], -1)])
    ensures TableOk(t', refs')
  {
    hide Held;
  }

  /** The last reference to id is gone. */
  lemma FreedTable(t: Table, t': Table, refs: seq<Ref>, refs': seq<Ref>, id: u32)
    requires TableOk(t, refs) && 7 <= id < |t.values| && id !in t.pool && t.counts[id] == Count(1)
    requires forall j: nat :: Held(refs, j) == Held(refs', j) + if j == id then 1 else 0
    requires t' == Table(t.values[id := Null], t.counts[id := Count(0)], t.ids - {Normal(t.values[id])}, t.pool + [id])
    ensures TableOk(t', refs')
  {
    hide Held;
    assert t'.values[..7] == t.values[..7];
    assert forall j :: j in t'.pool <==> j in t.pool || j == id;
  }

  lemma {:induction false} HeldPositive(refs: seq<Ref>, k: nat)
    requires k < |refs| && IsNaN(refs[k].w)
    ensures Held(refs, refs[k].w.lo) > 0
  {
    if k > 0 {
      HeldPositive(refs[1..], k - 1);
    }
  }

  lemma FinalizedRef(t: Table, t': Table, refs: seq<Ref>, refs': seq<Ref>, id: u32, k: nat)
    requires TableOk(t, refs) && TableOk(t', refs') && id < |t.values| && t' == Finalize(t, Word(0, id))
    requires k < |refs'| && RefOk(t, refs'[k])
    ensures RefOk(t', refs'[k])
  {
    var r := refs'[k];
    if Boxed(r.v) {
      BoxIsNaN(r.v, r.w.lo);
      HeldPositive(refs', k);
    }
  }

  // ---------------------------------------------------------------- main results

  /** What Go does with the table: store a value, or finalize the i-th reference it still holds. */
  datatype Action = Put(v: Js) | Drop(i: nat)

  ghost predicate Possible(t: Table, refs: seq<Ref>, a: Action) {
    match a
    case Put(v) => IsJs(v) && Shape(t) && |t.values| < 0xFFFF_FFFF
    case Drop(i) => i < |refs| && IsNaN(refs[i].w) && refs[i].w.lo < |t.values| == |t.counts|
  }

  ghost function Do(t: Table, refs: seq<Ref>, a: Action): (Table, seq<Ref>)
    requires Possible(t, refs, a)
  {
    match a
    case Put(v) => (Store(t, v).1, refs + [Ref(Store(t, v).0, v)])
    case Drop(i) => (Finalize(t, refs[i].w), Without(refs, i))
  }

  ghost predicate Run(t: Table, refs: seq<Ref>, actions: seq<Action>, t': Table, refs': seq<Ref>)
    decreases |actions|
  {
    if actions == [] then t' == t && refs' == refs
    else
      && Possible(t, refs, actions[0])
      && var (t1, refs1) := Do(t, refs, actions[0]);
      Run(t1, refs1, actions[1..], t', refs')
  }

  lemma {:induction false} RunOk(t: Table, refs: seq<Ref>, actions: seq<Action>, t': Table, refs': seq<Ref>)
    requires Ok(t, refs) && Run(t, refs, actions, t', refs')
    ensures Ok(t', refs')
    decreases |actions|
  {
    if actions != [] {
      match actions[0] {
        case Put(v) => StoreOk(t, refs, v);
        case Drop(i) => FinalizeOk(t, refs, i);
      }
      hide Ok, Store, Finalize;
      var (t1, refs1) := Do(t, refs, actions[0]);
      RunOk(t1, refs1, actions[1..], t', refs');
    }
  }

  /** Every id of the initial map is that of the value, and the other way round. */
  lemma InitialIds()
    ensures forall k | k in INITIAL.ids :: 0 < INITIAL.ids[k] < 7 && PREDEFINED[INITIAL.ids[k]] == k
    ensures forall id | 0 < id < 7 :: PREDEFINED[id] in INITIAL.ids && INITIAL.ids[PREDEFINED[id]] == id
  {
    var ids := INITIAL.ids;
    assert ids[ZERO] == 1 && ids[Null] == 2 && ids[Bool(true)] == 3;
    assert ids[Bool(false)] == 4 && ids[GLOBAL_THIS] == 5 && ids[GO_INSTANCE] == 6;
    assert PREDEFINED[1] == ZERO && PREDEFINED[2] == Null && PREDEFINED[3] == Bool(true);
    assert PREDEFINED[4] == Bool(false) && PREDEFINED[5] == GLOBAL_THIS && PREDEFINED[6] == GO_INSTANCE;
    assert ids.Keys == {ZERO, Null, Bool(true), Bool(false), GLOBAL_THIS, GO_INSTANCE};
  }

  lemma InitialTable(t: Table)
    requires t.values == PREDEFINED && t.pool == [] && t.ids == INITIAL.ids
    requires |t.counts| == 7 && forall id | 0 <= id < 7 :: t.counts[id].Infinity?
    ensures TableOk(t, [])
  {
    InitialIds();
    hide INITIAL;
    assert t.values[..7] == PREDEFINED;
  }

  lemma InitialOk()
    ensures Ok(INITIAL, [])
  {
    InitialTable(INITIAL);
  }

  /** After any run, _ids and the live part of _values are inverse, pooled ids are distinct and not
      live, and every dynamic count is the number of outstanding references. */
  lemma TableInvariant(actions: seq<Action>, t: Table, refs: seq<Ref>)
    requires Run(INITIAL, [], actions, t, refs)
    ensures TableOk(t, refs)
  {
    InitialOk();
    RunOk(INITIAL, [], actions, t, refs);
  }

  lemma ZeroBits(w: Word)
    ensures IsZero(w) <==> w == Word(0, 0) || w == Word(0x8000_0000, 0)
  {
  }

  /** After any run, loading any outstanding word yields the value that was stored, except that -0
      comes back as 0: storing and loading is the identity on exactly the values other than -0. */
  lemma LoadReturnsStored(actions: seq<Action>, t: Table, refs: seq<Ref>, i: nat)
    requires Run(INITIAL, [], actions, t, refs) && i < |refs|
    ensures Load(t, refs[i].w) == Normal(refs[i].v)
    ensures Load(t, refs[i].w) == refs[i].v <==> refs[i].v != Number(Word(0x8000_0000, 0))
  {
    InitialOk();
    RunOk(INITIAL, [], actions, t, refs);
    var r := refs[i];
    assert RefOk(t, r);
    if r.v.Number? {
      ZeroBits(r.v.w);
    }
    if Boxed(r.v) {
      BoxIsNaN(r.v, r.w.lo);
    } else if r.v.NaN? {
      assert t.values[..7][0] == NaN;
    }
  }

  const NEGATIVE_ZERO := Number(Word(0x8000_0000, 0))

  /** Storing -0 first thing: its reference is loaded as 0. */
  lemma NegativeZeroIsLost()
    ensures var (w, t) := Store(INITIAL, NEGATIVE_ZERO);
            Run(INITIAL, [], [Put(NEGATIVE_ZERO)], t, [Ref(w, NEGATIVE_ZERO)]) && Load(t, w) == ZERO != NEGATIVE_ZERO
  {
    var (w, t) := Store(INITIAL, NEGATIVE_ZERO);
    InitialOk();
    OkShape(INITIAL, []);
    assert [Put(NEGATIVE_ZERO)][1..] == [] && [] + [Ref(w, NEGATIVE_ZERO)] == [Ref(w, NEGATIVE_ZERO)];
    assert Run(t, [Ref(w, NEGATIVE_ZERO)], [], t, [Ref(w, NEGATIVE_ZERO)]);
    LoadReturnsStored([Put(NEGATIVE_ZERO)], t, [Ref(w, NEGATIVE_ZERO)], 0);
  }

  /** Go compares references by their bits. After any run that decides whether two outstanding
      references are the same JavaScript value (under SameValueZero). */
  lemma BitsDecideEquality(actions: seq<Action>, t: Table, refs: seq<Ref>, i: nat, j: nat)
    requires Run(INITIAL, [], actions, t, refs) && i < |refs| && j < |refs|
    ensures refs[i].w == refs[j].w <==> Normal(refs[i].v) == Normal(refs[j].v)
  {
    LoadReturnsStored(actions, t, refs, i);
    LoadReturnsStored(actions, t, refs, j);
    InitialOk();
    RunOk(INITIAL, [], actions, t, refs);
    assert RefOk(t, refs[i]) && RefOk(t, refs[j]);
  }

  /** The low three bits of the high word tell Go the type of an outstanding boxed value, as the constants
      of package syscall/js number the types. */
  lemma FlagIsType(actions: seq<Action>, t: Table, refs: seq<Ref>, i: nat)
    requires Run(INITIAL, [], actions, t, refs) && i < |refs| && Boxed(refs[i].v)
    ensures var (flag, v) := (refs[i].w.hi & 7, refs[i].v);
            && IsNaN(refs[i].w) && flag <= 4
            && (flag == 1 <==> v.Object?) && (flag == 2 <==> v.Str?)
            && (flag == 3 <==> v.Symbol?) && (flag == 4 <==> v.Function?)
  {
    InitialOk();
    RunOk(INITIAL, [], actions, t, refs);
    assert RefOk(t, refs[i]);
    BoxIsNaN(refs[i].v, refs[i].w.lo);
  }

  /** A number other than 0 and NaN is stored as itself: it takes no place in the tables. */
  lemma NumbersAreThemselves(t: Table, w: Word)
    requires Shape(t) && |t.values| < 0xFFFF_FFFF && !IsNaN(w) && !IsZero(w)
    ensures Store(t, Number(w)) == (w, t) && Load(t, w) == Number(w)
  {
  }

  /** The infinities are numbers; what has more bits of the fraction set is not. */
  lemma Infinities(t: Table, hi: bv32, lo: u32)
    ensures Load(t, Word(0x7FF0_0000, 0)) == Number(Word(0x7FF0_0000, 0))
    ensures Load(t, Word(0xFFF0_0000, 0)) == Number(Word(0xFFF0_0000, 0))
    ensures hi & 0x7FF0_0000 == 0x7FF0_0000 && lo != 0 ==> IsNaN(Word(hi, lo))
  {
  }

  /** The words that package syscall/js has for the predefined values mean them, and are what is stored for
      them, after any run. */
  lemma PredefinedWords(actions: seq<Action>, t: Table, refs: seq<Ref>)
    requires Run(INITIAL, [], actions, t, refs) && Shape(t) && |t.values| < 0xFFFF_FFFF
    ensures Load(t, Word(0, 0)) == Undefined && Store(t, Undefined).0 == Word(0, 0)
    ensures Load(t, Word(0x7FF8_0000, 0)) == NaN && Store(t, NaN).0 == Word(0x7FF8_0000, 0)
    ensures Load(t, Word(0x7FF8_0000, 1)) == ZERO && Store(t, ZERO).0 == Word(0x7FF8_0000, 1)
    ensures Load(t, Word(0x7FF8_0000, 2)) == Null && Store(t, Null).0 == Word(0x7FF8_0000, 2)
    ensures Load(t, Word(0x7FF8_0000, 3)) == Bool(true) && Store(t, Bool(true)).0 == Word(0x7FF8_0000, 3)
    ensures Load(t, Word(0x7FF8_0000, 4)) == Bool(false) && Store(t, Bool(false)).0 == Word(0x7FF8_0000, 4)
    ensures Load(t, Word(0x7FF8_0001, 5)) == GLOBAL_THIS && Store(t, GLOBAL_THIS).0 == Word(0x7FF8_0001, 5)
    ensures Load(t, Word(0x7FF8_0001, 6)) == GO_INSTANCE && Store(t, GO_INSTANCE).0 == Word(0x7FF8_0001, 6)
  {
    hide Run, TableOk, Store, Load;
    TableInvariant(actions, t, refs);
    UnboxedWords(t, refs);
    PredefinedWord(t, refs, ZERO, 1, 0x7FF8_0000);
    PredefinedWord(t, refs, Null, 2, 0x7FF8_0000);
    PredefinedWord(t, refs, Bool(true), 3, 0x7FF8_0000);
    PredefinedWord(t, refs, Bool(false), 4, 0x7FF8_0000);
    PredefinedWord(t, refs, GLOBAL_THIS, 5, 0x7FF8_0001);
    PredefinedWord(t, refs, GO_INSTANCE, 6, 0x7FF8_0001);
  }

  lemma UnboxedWords(t: Table, refs: seq<Ref>)
    requires TableOk(t, refs) && Shape(t) && |t.values| < 0xFFFF_FFFF
    ensures Load(t, Word(0, 0)) == Undefined && Store(t, Undefined).0 == Word(0, 0)
    ensures Load(t, Word(0x7FF8_0000, 0)) == NaN && Store(t, NaN).0 == Word(0x7FF8_0000, 0)
  {
    PredefinedIds(t, refs);
  }

  lemma PredefinedWord(t: Table, refs: seq<Ref>, v: Js, id: nat, hi: bv32)
    requires TableOk(t, refs) && Shape(t) && |t.values| < 0xFFFF_FFFF
    requires 0 < id < 7 && v == PREDEFINED[id] && Boxed(v) && Normal(v) == v
    requires hi == NAN_HEAD | TypeFlag(v) && TypeFlag(v) <= 4
    ensures Load(t, Word(hi, id)) == v && Store(t, v).0 == Word(hi, id)
  {
    PredefinedIds(t, refs);
    BoxIsNaN(v, id);
  }

  lemma PredefinedIds(t: Table, refs: seq<Ref>)
    requires TableOk(t, refs)
    ensures |t.values| >= 7 && forall id: nat | id < 7 :: t.values[id] == PREDEFINED[id]
    ensures forall id: nat | 0 < id < 7 :: PREDEFINED[id] in t.ids && t.ids[PREDEFINED[id]] == id
  {
    assert forall id: nat | id < 7 :: t.values[id] == t.values[..7][id];
  }
}
