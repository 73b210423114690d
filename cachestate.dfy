/**
 * The state of a string cache over snapshots of its fields: the arena of
 * slots, the map from strings to slots and the recency order of the live
 * slots. Inv is the representation invariant; the Step lemmas say what each
 * path of Intern does to it and to the cached strings.
 */
module CacheState {
  import opened Recency
  import opened Arena

  /**
   * The map and the live slots agree: the map sends each of its strings to a
   * live slot holding that string, and each live slot's string to the slot.
   */
  ghost predicate Indexed(b: seq<Elem>, values: map<string, nat>, o: seq<nat>) {
    && (forall s :: s in values ==> values[s] in o && values[s] < |b| && b[values[s]].value == s)
    && (forall x :: x in o ==> x < |b| && b[x].value in values && values[b[x].value] == x)
  }

  /** Through the map, the cached strings are exactly the map's keys, each held once. */
  lemma IndexedValues(b: seq<Elem>, values: map<string, nat>, o: seq<nat>)
    requires Indexed(b, values, o) && InArena(b, o) && Distinct(o)
    ensures Distinct(Values(b, o))
    ensures forall s :: s in Values(b, o) <==> s in values
  {
    var c := Values(b, o);
    forall i, j | 0 <= i < j < |c|
      ensures c[i] != c[j]
    {
      assert o[i] in o && o[j] in o;
      DistinctNe(o, i, j);
    }
    forall s | s in values
      ensures s in c
    {
      var k :| 0 <= k < |o| && o[k] == values[s];
      assert c[k] == s;
    }
    forall s | s in c
      ensures s in values
    {
      var k :| 0 <= k < |c| && c[k] == s;
      assert o[k] in o;
    }
  }

  /** Reordering the live slots, without changing any string, keeps the map in step. */
  lemma IndexedReorder(b: seq<Elem>, values: map<string, nat>, o: seq<nat>, b': seq<Elem>, o': seq<nat>)
    requires Indexed(b, values, o) && |b'| == |b|
    requires forall x :: 0 <= x < |b| ==> b'[x].value == b[x].value
    requires forall x :: x in o' <==> x in o
    ensures Indexed(b', values, o')
  {
  }

  /** A fresh slot `e` taking a new string `v`: the map gains `v` and nothing else changes. */
  lemma IndexedAdmit(b: seq<Elem>, values: map<string, nat>, o: seq<nat>, e: nat, v: string, b': seq<Elem>, o': seq<nat>)
    requires Indexed(b, values, o) && e < |b| && e !in o && v !in values && |b'| == |b|
    requires forall x :: 0 <= x < |b| && x != e ==> b'[x].value == b[x].value
    requires b'[e].value == v
    requires forall x :: x in o' <==> x == e || x in o
    ensures Indexed(b', values[v := e], o')
    ensures |values[v := e]| == |values| + 1
  {
  }

  /**
   * The live slot `e` dropping its string for a new string `v`: the map
   * loses the old string and gains `v`, so its size is unchanged.
   */
  lemma IndexedReplace(b: seq<Elem>, values: map<string, nat>, o: seq<nat>, e: nat, v: string, b': seq<Elem>, o': seq<nat>)
    requires Indexed(b, values, o) && e in o && v !in values && |b'| == |b|
    requires forall x :: 0 <= x < |b| && x != e ==> b'[x].value == b[x].value
    requires b'[e].value == v
    requires forall x :: x in o' <==> x in o
    ensures Indexed(b', (values - {b[e].value})[v := e], o')
    ensures |(values - {b[e].value})[v := e]| == |values|
  {
    var w := b[e].value;
    var m := values - {w};
    assert m.Keys == values.Keys - {w};
    assert |m| == |values| - 1;
    forall s | s in m
      ensures m[s] != e
    {
      assert values[s] in o && b[values[s]].value == s;
    }
  }

  /**
   * The strings after a miss below capacity: `v`, in a fresh slot `e`
   * pushed on the front, followed by the old strings.
   */
  lemma AdmitContents(b1: seq<Elem>, o: seq<nat>, b2: seq<Elem>, e: nat, v: string, b3: seq<Elem>)
    requires InArena(b1, o) && 1 <= e < |b1| && e !in o && |b2| == |b1| == |b3|
    requires forall x :: 0 <= x < |b1| && x != e ==> b2[x].value == b1[x].value
    requires b2[e].value == v
    requires forall x :: 0 <= x < |b1| ==> b3[x].value == b2[x].value
    ensures InArena(b3, Touch(o, e)) && Values(b3, Touch(o, e)) == [v] + Values(b1, o)
  {
    var t, r := [e] + o, [v] + Values(b1, o);
    assert Touch(o, e) == t;
    forall i | 0 <= i < |t|
      ensures 1 <= t[i] < |b3| && b3[t[i]].value == r[i]
    {
      if i > 0 {
        assert t[i] == o[i - 1];
      }
    }
    assert Values(b3, t) == r;
  }

  /** Relabelling the last live slot with `v` replaces the last string by `v`. */
  lemma RelabelLast(b1: seq<Elem>, o: seq<nat>, b2: seq<Elem>, e: nat, v: string)
    requires InArena(b1, o) && Distinct(o) && o != [] && e == o[|o| - 1] && |b2| == |b1|
    requires forall x :: 0 <= x < |b1| && x != e ==> b2[x].value == b1[x].value
    requires b2[e].value == v
    ensures InArena(b2, o) && Values(b2, o) == Values(b1, o)[..|o| - 1] + [v]
  {
    var n := |o| - 1;
    var c, d := Values(b2, o), Values(b1, o)[..n] + [v];
    forall i | 0 <= i < |c|
      ensures c[i] == d[i]
    {
      if i < n {
        DistinctNe(o, i, n);
      }
    }
  }

  /**
   * The strings after a miss at capacity: the last slot `e` takes `v` and
   * moves to the front, so the old last string is gone.
   */
  lemma ReplaceContents(b1: seq<Elem>, o: seq<nat>, b2: seq<Elem>, e: nat, v: string, b3: seq<Elem>)
    requires InArena(b1, o) && Distinct(o) && o != [] && e == o[|o| - 1]
    requires Distinct(Values(b1, o)) && v !in Values(b1, o)
    requires |b2| == |b1| == |b3|
    requires forall x :: 0 <= x < |b1| && x != e ==> b2[x].value == b1[x].value
    requires b2[e].value == v
    requires forall x :: 0 <= x < |b1| ==> b3[x].value == b2[x].value
    ensures InArena(b3, Touch(o, e))
    ensures Values(b3, Touch(o, e)) == [v] + Values(b1, o)[..|o| - 1]
  {
    var n := |o| - 1;
    var vs := Values(b1, o);
    var c := Values(b2, o);
    RelabelLast(b1, o, b2, e, v);
    DistinctPrefix(vs, n);
    assert v !in vs[..n];
    DistinctSnoc(vs[..n], v);
    ValuesTouch(b2, o, n, b3);
    WithoutAt(c, n);
    assert c[..n] == Values(b1, o)[..n];
  }

  /**
   * The representation invariant over a snapshot of the fields: slots
   * 1..size are live and linked in recency order `o`, the slots above size
   * are untouched, and the map sends every cached string to its slot and
   * nothing else.
   */
  ghost predicate Inv(maxSize: nat, size: nat, b: seq<Elem>, values: map<string, nat>, o: seq<nat>) {
    && Sized(maxSize, size, b)
    && Linked(b, o)
    && Live(size, b, o)
    && Indexed(b, values, o)
    && |values| == size
  }

  /** The bounds: at most maxSize strings (a 32-bit count), an arena of at most maxSize + 1 slots. */
  ghost predicate Sized(maxSize: nat, size: nat, b: seq<Elem>) {
    0 < maxSize < 0x1_0000_0000 && size <= maxSize && 2 <= |b| && size < |b| <= maxSize + 1
  }

  /** The live slots are exactly 1..size and every slot above them is untouched. */
  ghost predicate Live(size: nat, b: seq<Elem>, o: seq<nat>) {
    && |o| == size
    && (forall i :: 0 <= i < |o| ==> o[i] <= size)
    && (forall x :: size < x < |b| ==> b[x] == Zero)
  }

  /** What a move to front of slot `e` does, from (b, o) to (b', o'). */
  ghost predicate Moved(b: seq<Elem>, o: seq<nat>, e: nat, b': seq<Elem>, o': seq<nat>) {
    && |b'| == |b|
    && o' == Touch(o, e)
    && Linked(b', o')
    && (forall x :: 0 <= x < |b| ==> b'[x].value == b[x].value)
    && (forall x :: 1 <= x < |b| && x !in o' ==> b'[x] == b[x])
  }

  /** An Intern hit: the slot of `v` moves to the front; the invariant holds and the strings follow Use. */
  lemma HitStep(maxSize: nat, size: nat, b: seq<Elem>, values: map<string, nat>, o: seq<nat>, v: string,
                b': seq<Elem>, o': seq<nat>)
    requires Inv(maxSize, size, b, values, o) && Distinct(Values(b, o)) && v in values
    requires Moved(b, o, values[v], b', o')
    ensures Inv(maxSize, size, b', values, o')
    ensures Values(b', o') == Use(Values(b, o), v, maxSize)
    ensures b'[0].next == values[v] && b'[values[v]].value == v
  {
    IndexedValues(b, values, o);
    var p :| 0 <= p < |o| && o[p] == values[v];
    TouchDistinct(o, o[p]);
    ValuesTouch(b, o, p, b');
    IndexedReorder(b, values, o, b', o');
    assert LinkedAt(b', o', 0);
    forall i | 0 <= i < |o'|
      ensures o'[i] <= size
    {
      assert o'[i] in o;
    }
  }

  /** Growing the arena with empty slots keeps the invariant and the cached strings. */
  lemma ExtendInv(maxSize: nat, size: nat, b: seq<Elem>, values: map<string, nat>, o: seq<nat>, b1: seq<Elem>)
    requires Inv(maxSize, size, b, values, o) && |b| <= |b1| <= maxSize + 1 && b1[..|b|] == b
    requires forall x :: |b| <= x < |b1| ==> b1[x] == Zero
    ensures Inv(maxSize, size, b1, values, o) && Values(b1, o) == Values(b, o)
  {
    Extend(b, o, b1);
    ExtendIndexed(b, values, o, b1);
    forall x | size < x < |b1|
      ensures b1[x] == Zero
    {
      if x < |b| {
        assert b1[..|b|][x] == b1[x];
      }
    }
  }

  /** Growing the arena keeps the map in step with the live slots. */
  lemma ExtendIndexed(b: seq<Elem>, values: map<string, nat>, o: seq<nat>, b1: seq<Elem>)
    requires Indexed(b, values, o) && |b| <= |b1| && b1[..|b|] == b
    ensures Indexed(b1, values, o)
  {
    forall x | 0 <= x < |b|
      ensures b1[x] == b[x]
    {
      assert b1[..|b|][x] == b1[x];
    }
  }

  /** Slot `x` of arena `b`, where slots past its end read as empty. */
  function At(b: seq<Elem>, x: int): Elem {
    if 0 <= x < |b| then b[x] else Zero
  }

  /**
   * `b2` is arena `b`, possibly grown with empty slots, whose slot `e` now
   * holds `v` (its links untouched); every other slot is as before.
   */
  ghost predicate Filled(b: seq<Elem>, e: nat, v: string, b2: seq<Elem>) {
    && |b| <= |b2| && e < |b2|
    && forall x :: 0 <= x < |b2| ==> b2[x] == if x == e then At(b, x).(value := v) else At(b, x)
  }

  /** The grown arena a fill writes into. */
  lemma FilledGrown(b: seq<Elem>, e: nat, v: string, b2: seq<Elem>) returns (b1: seq<Elem>)
    requires Filled(b, e, v, b2)
    ensures |b1| == |b2| && b1[..|b|] == b && (forall x :: |b| <= x < |b1| ==> b1[x] == Zero)
    ensures b2 == b1[e := b1[e].(value := v)]
  {
    b1 := seq(|b2|, x => At(b, x));
    assert b1[..|b|] == b;
    assert b2 == b1[e := b1[e].(value := v)];
  }

  /** The slot a miss below capacity fills, in an arena long enough: fresh, unlinked, and now holding `v`. */
  lemma FreshSlot(maxSize: nat, size: nat, b: seq<Elem>, values: map<string, nat>, o: seq<nat>, v: string, b2: seq<Elem>)
    requires Inv(maxSize, size, b, values, o) && size + 1 < |b|
    requires b2 == b[size + 1 := b[size + 1].(value := v)]
    ensures Linked(b2, o) && size + 1 !in o && b2[size + 1].prev == 0
  {
    Relabel(b, o, size + 1, v, b2);
  }

  /** The slot a miss below capacity fills, after the arena grew if it had to. */
  lemma FillSlot(maxSize: nat, size: nat, b: seq<Elem>, values: map<string, nat>, o: seq<nat>, v: string, b2: seq<Elem>)
    requires Inv(maxSize, size, b, values, o) && Filled(b, size + 1, v, b2) && |b2| <= maxSize + 1
    ensures 1 <= size + 1 < |b2| && Linked(b2, o) && size + 1 !in o && b2[size + 1].prev == 0
  {
    var b1 := FilledGrown(b, size + 1, v, b2);
    ExtendInv(maxSize, size, b, values, o, b1);
    FreshSlot(maxSize, size, b1, values, o, v, b2);
  }

  /** The strings after a miss below capacity follow Use: `v` is pushed on the front. */
  lemma FillContents(maxSize: nat, b: seq<Elem>, o: seq<nat>, e: nat, v: string, b2: seq<Elem>, b3: seq<Elem>)
    requires InArena(b, o) && Distinct(Values(b, o)) && |o| < maxSize && v !in Values(b, o)
    requires 1 <= e < |b| && e !in o && b2 == b[e := b[e].(value := v)]
    requires |b3| == |b2| && forall x :: 0 <= x < |b2| ==> b3[x].value == b2[x].value
    ensures InArena(b3, Touch(o, e)) && Values(b3, Touch(o, e)) == Use(Values(b, o), v, maxSize)
  {
    AdmitContents(b, o, b2, e, v, b3);
  }

  /**
   * After a miss below capacity, the live slots are 1..size + 1 and every
   * slot above them is still empty.
   */
  lemma FillBounds(size: nat, b: seq<Elem>, o: seq<nat>, b2: seq<Elem>, b3: seq<Elem>, o': seq<nat>)
    requires (forall i :: 0 <= i < |o| ==> o[i] <= size) && (forall x :: size < x < |b| ==> b[x] == Zero)
    requires |b2| == |b3| == |b| && forall x :: 0 <= x < |b| && x != size + 1 ==> b2[x] == b[x]
    requires o' == Touch(o, size + 1) && forall x :: 1 <= x < |b2| && x !in o' ==> b3[x] == b2[x]
    ensures forall i :: 0 <= i < |o'| ==> o'[i] <= size + 1
    ensures forall x :: size + 1 < x < |b3| ==> b3[x] == Zero
  {
    forall i | 0 <= i < |o'|
      ensures o'[i] <= size + 1
    {
      assert o'[i] in o';
    }
    forall x | size + 1 < x < |b3|
      ensures b3[x] == Zero
    {
      assert x !in o';
    }
  }

  /** An Intern miss below capacity keeps the invariant: `v` is live in slot size + 1, at the front. */
  lemma FillInv(maxSize: nat, size: nat, b: seq<Elem>, values: map<string, nat>, o: seq<nat>, v: string,
                b2: seq<Elem>, b3: seq<Elem>, o': seq<nat>)
    requires Inv(maxSize, size, b, values, o) && v !in values && size + 1 < |b|
    requires b2 == b[size + 1 := b[size + 1].(value := v)]
    requires Moved(b2, o, size + 1, b3, o')
    ensures Inv(maxSize, size + 1, b3, values[v := size + 1], o')
    ensures b3[0].next == size + 1
  {
    var e := size + 1;
    FreshSlot(maxSize, size, b, values, o, v, b2);
    assert forall x :: 0 <= x < |b| && x != e ==> b3[x].value == b[x].value;
    assert forall x :: x in o' <==> x == e || x in o;
    IndexedAdmit(b, values, o, e, v, b3, o');
    assert LinkedAt(b3, o', 0);
    FillBounds(size, b, o, b2, b3, o');
  }

  /** An Intern miss below capacity: `v` joins at the front in slot size + 1. */
  lemma FillStep(maxSize: nat, size: nat, b: seq<Elem>, values: map<string, nat>, o: seq<nat>, v: string,
                 b2: seq<Elem>, b3: seq<Elem>, size': nat, values': map<string, nat>, o': seq<nat>)
    requires Inv(maxSize, size, b, values, o) && Distinct(Values(b, o)) && v !in values
    requires Filled(b, size + 1, v, b2) && |b2| <= maxSize + 1
    requires size' == size + 1 && values' == values[v := size']
    requires Moved(b2, o, size', b3, o')
    ensures Inv(maxSize, size', b3, values', o')
    ensures Values(b3, o') == Use(Values(b, o), v, maxSize) && Distinct(Values(b3, o'))
    ensures b3[0].next == size'
  {
    var b1 := FilledGrown(b, size + 1, v, b2);
    ExtendInv(maxSize, size, b, values, o, b1);
    FillInv(maxSize, size, b1, values, o, v, b2, b3, o');
    FreshSlot(maxSize, size, b1, values, o, v, b2);
    IndexedValues(b1, values, o);
    FillContents(maxSize, b1, o, size + 1, v, b2, b3);
  }

  /** The slot a miss at capacity reuses: the least recently used one, now holding `v`. */
  lemma ReplaceSlot(maxSize: nat, b: seq<Elem>, values: map<string, nat>, o: seq<nat>, v: string, b2: seq<Elem>)
    requires Inv(maxSize, maxSize, b, values, o)
    requires b2 == b[b[0].prev := b[b[0].prev].(value := v)]
    ensures b[0].prev == o[|o| - 1] && b[0].prev in o && 1 <= b[0].prev < |b|
    ensures Linked(b2, o)
  {
    Relabel(b, o, b[0].prev, v, b2);
  }

  /** An Intern miss at capacity: the back slot's string leaves and `v` takes the slot, at the front. */
  lemma ReplaceStep(maxSize: nat, size: nat, b: seq<Elem>, values: map<string, nat>, o: seq<nat>, v: string,
                    e: nat, b2: seq<Elem>, b3: seq<Elem>, values': map<string, nat>, o': seq<nat>)
    requires Inv(maxSize, size, b, values, o) && size == maxSize && Distinct(Values(b, o)) && v !in values
    requires e == b[0].prev && b2 == b[e := b[e].(value := v)]
    requires values' == (values - {b[e].value})[v := e]
    requires Moved(b2, o, e, b3, o')
    ensures Inv(maxSize, size, b3, values', o')
    ensures Values(b3, o') == Use(Values(b, o), v, maxSize)
    ensures b3[0].next == e
  {
    ReplaceSlot(maxSize, b, values, o, v, b2);
    IndexedValues(b, values, o);
    IndexedReplace(b, values, o, e, v, b3, o');
    ReplaceContents(b, o, b2, e, v, b3);
    assert LinkedAt(b3, o', 0);
    forall i | 0 <= i < |o'|
      ensures o'[i] <= maxSize
    {
      assert o'[i] in o;
    }
  }
}
