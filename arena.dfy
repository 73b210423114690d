/**
 * The slot arena behind StringCache: a doubly linked list whose links are
 * indices into one array of slots. Slot 0 is the sentinel root; its `next`
 * is the most recently used slot and its `prev` the least recently used one
 * (both 0 when the list is empty).
 *
 * The predicates here describe a snapshot `b` of the array together with
 * `o`, the live slots listed from front to back.
 */
module Arena {
  import opened Recency

  /** One slot: the interned string and the indices of its neighbours. */
  datatype Elem = Elem(value: string, prev: nat, next: nat)

  /** A slot as a freshly allocated array holds it. */
  const Zero := Elem("", 0, 0)

  /** Every live slot is a non-root index of the arena. */
  ghost predicate InArena(b: seq<Elem>, o: seq<nat>) {
    forall i :: 0 <= i < |o| ==> 1 <= o[i] < |b|
  }

  /** The slot in front of position `i` (the root for the first). */
  function Before(o: seq<nat>, i: nat): nat
    requires i < |o|
  {
    if i == 0 then 0 else o[i - 1]
  }

  /** The slot behind position `i` (the root for the last). */
  function After(o: seq<nat>, i: nat): nat
    requires i < |o|
  {
    if i == |o| - 1 then 0 else o[i + 1]
  }

  function Front(o: seq<nat>): nat {
    if o == [] then 0 else o[0]
  }

  function Back(o: seq<nat>): nat {
    if o == [] then 0 else o[|o| - 1]
  }

  /** The slot at position `i` points back to its predecessor and on to its successor. */
  ghost predicate LinkedAt(b: seq<Elem>, o: seq<nat>, i: nat)
    requires InArena(b, o) && i < |o|
  {
    b[o[i]].prev == Before(o, i) && b[o[i]].next == After(o, i)
  }

  /**
   * `b` links the live slots `o` into a circular list through the root:
   * following `next` from the root visits `o` in order and returns to the
   * root, and `prev` is the exact reverse.
   */
  ghost predicate Linked(b: seq<Elem>, o: seq<nat>) {
    && |b| >= 1
    && InArena(b, o)
    && Distinct(o)
    && b[0].next == Front(o)
    && b[0].prev == Back(o)
    && (forall i :: 0 <= i < |o| ==> LinkedAt(b, o, i))
  }

  /** The strings held by the live slots, front to back. */
  ghost function Values(b: seq<Elem>, o: seq<nat>): (r: seq<string>)
    requires InArena(b, o)
    ensures |r| == |o|
    ensures forall i :: 0 <= i < |o| ==> r[i] == b[o[i]].value
  {
    seq(|o|, i requires 0 <= i < |o| => b[o[i]].value)
  }

  /** What the two writes of an unlink do to the slots. */
  lemma UnlinkWrites(b: seq<Elem>, pv: nat, nx: nat, b1: seq<Elem>, b2: seq<Elem>)
    requires pv < |b| && nx < |b|
    requires b1 == b[pv := b[pv].(next := nx)]
    requires b2 == b1[nx := b1[nx].(prev := pv)]
    ensures |b2| == |b|
    ensures forall x :: 0 <= x < |b| && x != pv && x != nx ==> b2[x] == b[x]
    ensures b2[pv].next == nx && b2[nx].prev == pv
    ensures pv != nx ==> b2[pv].prev == b[pv].prev && b2[nx].next == b[nx].next
    ensures forall x :: 0 <= x < |b| ==> b2[x].value == b[x].value
  {
  }

  /**
   * Unlinking the slot at position `p` (`prev.next = next`, then
   * `next.prev = prev`) leaves the other live slots linked in the same
   * order, and touches no slot but the two neighbours.
   */
  lemma Unlink(b: seq<Elem>, o: seq<nat>, p: nat, b1: seq<Elem>, b2: seq<Elem>)
    requires Linked(b, o) && p < |o|
    requires b1 == b[Before(o, p) := b[Before(o, p)].(next := After(o, p))]
    requires b2 == b1[After(o, p) := b1[After(o, p)].(prev := Before(o, p))]
    ensures Linked(b2, o[..p] + o[p + 1..])
    ensures Relinked(b, b2, o)
  {
    var pv, nx := Before(o, p), After(o, p);
    UnlinkWrites(b, pv, nx, b1, b2);
    assert pv == 0 || pv in o;
    assert nx == 0 || nx in o;
    var o' := o[..p] + o[p + 1..];
    assert |o'| == |o| - 1;
    assert InArena(b2, o') by {
      forall i | 0 <= i < |o'| ensures 1 <= o'[i] < |b2| {
        assert o'[i] == o[if i < p then i else i + 1];
      }
    }
    assert Distinct(o') by {
      forall i, j | 0 <= i < j < |o'| ensures o'[i] != o'[j] {
        assert o'[i] == o[if i < p then i else i + 1];
        assert o'[j] == o[if j < p then j else j + 1];
        DistinctNe(o, if i < p then i else i + 1, if j < p then j else j + 1);
      }
    }
    assert pv != nx ==> pv != 0 || nx != 0;
    forall i | 0 <= i < |o'|
      ensures LinkedAt(b2, o', i)
    {
      UnlinkAt(b, o, p, b2, i);
    }
    if pv == 0 {
      assert Front(o') == nx;
    } else {
      assert LinkedAt(b, o, p - 1);
      assert b2[0] == b[0] || nx == 0;
    }
    if nx == 0 {
      assert Back(o') == pv;
    } else {
      assert LinkedAt(b, o, p + 1);
    }
  }

  /** One position of the list after an unlink. */
  lemma UnlinkAt(b: seq<Elem>, o: seq<nat>, p: nat, b2: seq<Elem>, i: nat)
    requires Linked(b, o) && p < |o| && |b2| == |b|
    requires forall x :: 0 <= x < |b| && x != Before(o, p) && x != After(o, p) ==> b2[x] == b[x]
    requires b2[Before(o, p)].next == After(o, p) && b2[After(o, p)].prev == Before(o, p)
    requires Before(o, p) != After(o, p) ==>
      b2[Before(o, p)].prev == b[Before(o, p)].prev && b2[After(o, p)].next == b[After(o, p)].next
    requires InArena(b2, o[..p] + o[p + 1..]) && i < |o| - 1
    ensures LinkedAt(b2, o[..p] + o[p + 1..], i)
  {
    var o' := o[..p] + o[p + 1..];
    var pv, nx := Before(o, p), After(o, p);
    if 0 < p && p + 1 < |o| {
      DistinctNe(o, p - 1, p + 1);
    }
    if i < p {
      assert o'[i] == o[i];
      assert LinkedAt(b, o, i);
      assert i > 0 ==> o'[i - 1] == o[i - 1];
      assert i + 1 < p ==> o'[i + 1] == o[i + 1];
      assert i + 1 == p && p + 1 < |o| ==> o'[i + 1] == o[p + 1];
      if p + 1 < |o| {
        DistinctNe(o, i, p + 1);
      }
      if i == p - 1 {
        assert o[i] == pv && pv != 0;
        if p > 1 {
          assert LinkedAt(b, o, p - 1);
        }
      } else {
        DistinctNe(o, i, p - 1);
      }
    } else {
      assert o'[i] == o[i + 1];
      assert LinkedAt(b, o, i + 1);
      assert i > p ==> o'[i - 1] == o[i];
      assert i == p && p > 0 ==> o'[i - 1] == o[p - 1];
      assert i + 1 < |o'| ==> o'[i + 1] == o[i + 2];
      if i == p {
        assert o[i + 1] == nx && nx != 0;
      } else {
        DistinctNe(o, i + 1, p + 1);
        if p > 0 {
          DistinctNe(o, i + 1, p - 1);
        }
      }
    }
  }

  /**
   * Splicing a slot that is not live between the root and the current front
   * (`e.prev = root`, `e.next = front`, `root.next = e`, `front.prev = e`)
   * makes it the new front and keeps the rest of the list as it was.
   */
  lemma PushFront(b: seq<Elem>, o: seq<nat>, e: nat, b1: seq<Elem>, b2: seq<Elem>, b3: seq<Elem>)
    requires Linked(b, o) && 1 <= e < |b| && e !in o
    requires b1 == b[e := b[e].(prev := 0, next := Front(o))]
    requires b2 == b1[0 := b1[0].(next := e)]
    requires b3 == b2[Front(o) := b2[Front(o)].(prev := e)]
    ensures Linked(b3, [e] + o)
    ensures Relinked(b, b3, [e] + o)
  {
    var f := Front(o);
    var o' := [e] + o;
    assert f != e;
    assert b3[e] == Elem(b[e].value, 0, f);
    assert f != 0 ==> b3[0] == Elem(b[0].value, b[0].prev, e) && b3[f] == b[f].(prev := e);
    assert f == 0 ==> b3[0] == Elem(b[0].value, e, e);
    assert forall x :: 0 <= x < |b| && x != e && x != 0 && x != f ==> b3[x] == b[x];
    assert InArena(b3, o');
    DistinctCons(e, o);
    forall i | 0 <= i < |o'|
      ensures LinkedAt(b3, o', i)
    {
      if i == 1 {
        assert o'[1] == f;
        assert LinkedAt(b, o, 0);
        assert 2 < |o'| ==> o'[2] == o[1];
      } else if i > 1 {
        assert o'[i] == o[i - 1] && o'[i - 1] == o[i - 2];
        assert i + 1 < |o'| ==> o'[i + 1] == o[i];
        assert LinkedAt(b, o, i - 1);
        DistinctNe(o, i - 1, 0);
      }
    }
    if o != [] {
      assert LinkedAt(b, o, |o| - 1);
    }
    assert f == 0 || f in o';
  }

  /** Links only mention slots below the old length, so growing the arena keeps them. */
  lemma Extend(b: seq<Elem>, o: seq<nat>, b': seq<Elem>)
    requires Linked(b, o) && |b| <= |b'| && b'[..|b|] == b
    ensures Linked(b', o) && Values(b', o) == Values(b, o)
  {
    forall i | 0 <= i < |o|
      ensures b'[o[i]] == b[o[i]] && LinkedAt(b', o, i)
    {
      assert b'[..|b|][o[i]] == b'[o[i]];
      assert LinkedAt(b, o, i);
    }
    assert b'[0] == b'[..|b|][0];
  }

  /**
   * When the live slots hold distinct strings, the strings follow the same
   * move-to-front as the slots.
   */
  lemma ValuesTouch(b: seq<Elem>, o: seq<nat>, p: nat, b': seq<Elem>)
    requires InArena(b, o) && Distinct(o) && Distinct(Values(b, o)) && p < |o|
    requires |b'| == |b| && forall x :: 0 <= x < |b| ==> b'[x].value == b[x].value
    ensures InArena(b', Touch(o, o[p]))
    ensures Values(b', Touch(o, o[p])) == Touch(Values(b, o), b[o[p]].value)
  {
    var vs := Values(b, o);
    var t, rr := Touch(o, o[p]), Touch(vs, vs[p]);
    TouchAt(o, p, 0);
    TouchAt(vs, p, 0);
    forall i | 0 <= i < |t|
      ensures 1 <= t[i] < |b'| && b'[t[i]].value == rr[i]
    {
      TouchAt(o, p, i);
      TouchAt(vs, p, i);
    }
    assert Values(b', t) == rr;
  }

  /** Writing a slot's string leaves every link as it was. */
  lemma Relabel(b: seq<Elem>, o: seq<nat>, e: nat, v: string, b': seq<Elem>)
    requires Linked(b, o) && 1 <= e < |b| && b' == b[e := b[e].(value := v)]
    ensures Linked(b', o)
    ensures forall i :: 0 <= i < |o| ==> Values(b', o)[i] == if o[i] == e then v else Values(b, o)[i]
  {
    forall i | 0 <= i < |o|
      ensures LinkedAt(b', o, i)
    {
      assert LinkedAt(b, o, i);
    }
  }

  /**
   * `b'` differs from `b` only in the links of the root and of the slots in
   * `keep`: every string stays where it was.
   */
  ghost predicate Relinked(b: seq<Elem>, b': seq<Elem>, keep: seq<nat>) {
    && |b'| == |b|
    && (forall x :: 0 <= x < |b| ==> b'[x].value == b[x].value)
    && (forall x :: 1 <= x < |b| && x !in keep ==> b'[x] == b[x])
  }

  /**
   * The walk from the root along `next` is `w`: it passes through the slots
   * of `w` in order and then comes back to the root.
   */
  ghost predicate Chain(b: seq<Elem>, w: seq<nat>) {
    && |b| >= 1
    && InArena(b, w)
    && b[0].next == Front(w)
    && (forall i :: 0 <= i < |w| ==> b[w[i]].next == After(w, i))
  }

  /** A linked list is walked in its own order. */
  lemma LinkedChain(b: seq<Elem>, o: seq<nat>)
    requires Linked(b, o)
    ensures Chain(b, o)
  {
    forall i | 0 <= i < |o|
      ensures b[o[i]].next == After(o, i)
    {
      assert LinkedAt(b, o, i);
    }
  }

  /** The slot that follows position `i` on a walk that goes on to `cur`. */
  function Toward(walk: seq<nat>, i: nat, cur: nat): nat
    requires i < |walk|
  {
    if i == |walk| - 1 then cur else walk[i + 1]
  }

  /** Walking `next` from the root passes through `walk` and has now reached `cur`. */
  ghost predicate PathTo(b: seq<Elem>, walk: seq<nat>, cur: nat) {
    && |b| >= 1
    && InArena(b, walk)
    && b[0].next == (if walk == [] then cur else walk[0])
    && (forall i :: 0 <= i < |walk| ==> b[walk[i]].next == Toward(walk, i, cur))
  }

  lemma PathStep(b: seq<Elem>, walk: seq<nat>, cur: nat)
    requires PathTo(b, walk, cur) && 1 <= cur < |b|
    ensures PathTo(b, walk + [cur], b[cur].next)
  {
    var w' := walk + [cur];
    forall i | 0 <= i < |w'|
      ensures b[w'[i]].next == Toward(w', i, b[cur].next)
    {
      if i < |walk| {
        assert w'[i] == walk[i] && w'[i + 1] == Toward(walk, i, cur);
      } else {
        assert w'[i] == cur;
      }
    }
  }

  /** A path that has come back to the root is the whole walk. */
  lemma PathEnd(b: seq<Elem>, walk: seq<nat>)
    requires PathTo(b, walk, 0)
    ensures Chain(b, walk)
  {
  }

  /** A path that has gone one slot further was a path to that slot. */
  lemma PathPrefix(b: seq<Elem>, walk: seq<nat>, cur: nat)
    requires PathTo(b, walk, cur) && walk != []
    ensures PathTo(b, walk[..|walk| - 1], walk[|walk| - 1])
  {
    var k := |walk| - 1;
    forall i | 0 <= i < k
      ensures b[walk[..k][i]].next == Toward(walk[..k], i, walk[k])
    {
      assert b[walk[i]].next == Toward(walk, i, cur);
    }
  }

  /**
   * The links decide the walk: a path from the root follows the chain `w`
   * slot by slot and has reached the chain's next slot, or the root once
   * the chain is used up.
   */
  lemma {:induction false} PathInChain(b: seq<Elem>, w: seq<nat>, walk: seq<nat>, cur: nat)
    requires Chain(b, w) && PathTo(b, walk, cur)
    ensures |walk| <= |w| && forall i :: 0 <= i < |walk| ==> walk[i] == w[i]
    ensures cur == if |walk| < |w| then w[|walk|] else 0
  {
    if walk != [] {
      var k := |walk| - 1;
      PathPrefix(b, walk, cur);
      PathInChain(b, w, walk[..k], walk[k]);
      assert b[walk[k]].next == cur;
      assert b[w[k]].next == After(w, k);
    }
  }
}
