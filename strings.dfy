/**
 * StringCache: a bounded cache of strings, most recently used first, kept as
 * an index-linked list in an array of slots (module Arena) plus a map from
 * each cached string to its slot.
 */
module Strings {
  import opened Recency
  import opened Arena
  import opened CacheState

  /** How many Intern calls found their string cached, and how many did not. */
  datatype Counts = Counts(hit: nat, miss: nat)

  /** The first inconsistency Validate runs into. */
  datatype ValidationError =
    | BadPrevIndex(at: nat)                 // a live slot's prev is not an index of the arena
    | BrokenPrevLink(at: nat)               // buf[prev].next does not lead back to the slot
    | BadNextIndex(at: nat)                 // a next index (the root's or a live slot's) is outside the arena
    | BrokenNextLink(at: nat)               // buf[next].prev does not lead back to the slot
    | MapMismatch(at: nat)                  // the map does not send the slot's string to the slot
    | Cycle(at: nat)                        // the walk visits more slots than the arena holds
    | BadCount(expected: nat, got: nat)     // the walk's length differs from size
    | BadMapCount(expected: nat, got: nat)  // the map's size differs from size

  datatype Validation = Passed | Failed(error: ValidationError)

  /** The slot index Intern gives the size-th string: Go converts size to uint32. */
  function SlotIndex(size: nat): (i: nat)
    ensures i < 0x1_0000_0000
    ensures size < 0x1_0000_0000 ==> i == size
  {
    size % 0x1_0000_0000
  }

  /** NewStringCache's guard as written: it panics only for a size above 2^32. */
  function SizeAcceptedAsWritten(size: int): (ok: bool)
    ensures ok <==> size <= 0x1_0000_0000
  {
    !(size > 0x1_0000_0000)
  }

  /**
   * A size of exactly 2^32 passes the guard, and the miss that fills the
   * last slot, number 2^32, gets index 0: the root.
   */
  lemma SizeLimitWrapsToRoot()
    ensures SizeAcceptedAsWritten(0x1_0000_0000)
    ensures SlotIndex(0x1_0000_0000) == 0
  {
  }

  /** The outcome of Validate's checks on one slot as written, where a read past the end of buf panics. */
  datatype SlotCheck = Checked(result: Validation) | IndexOutOfRange

  /**
   * Validate's checks on slot `cur` as written. The guards on prev, next
   * and the map's index compare with len(buf) converted to uint32, and
   * reject only indices greater than it. Below 2^32 slots an index equal to
   * len(buf) gets through to a read past the end of buf; at 2^32 slots the
   * conversion gives 0 and every index but 0 is rejected. A string missing
   * from the map reads as index 0. The walk never checks the root, slot 0.
   */
  function CheckSlotAsWritten(b: seq<Elem>, values: map<string, nat>, cur: nat): (r: SlotCheck)
    requires 0 < cur < |b|
    ensures r == Checked(Passed) ==> StringCache.SlotChecked(b, values, cur)
    ensures |b| < 0x1_0000_0000 ==> (r == Checked(Passed) <==> StringCache.SlotChecked(b, values, cur))
    ensures r == IndexOutOfRange ==> |b| < 0x1_0000_0000
    ensures r == IndexOutOfRange ==>
      b[cur].prev == |b| || b[cur].next == |b| || (b[cur].value in values && values[b[cur].value] == |b|)
  {
    var s := b[cur];
    var n := SlotIndex(|b|);
    if s.prev > n then Checked(Failed(BadPrevIndex(cur)))
    else if s.prev >= |b| then IndexOutOfRange
    else if b[s.prev].next != cur then Checked(Failed(BrokenPrevLink(cur)))
    else if s.next > n then Checked(Failed(BadNextIndex(cur)))
    else if s.next >= |b| then IndexOutOfRange
    else if b[s.next].prev != cur then Checked(Failed(BrokenNextLink(cur)))
    else
      var m := if s.value in values then values[s.value] else 0;
      if m == cur then Checked(Passed)
      else if m > n then Checked(Failed(MapMismatch(cur)))
      else if m >= |b| then IndexOutOfRange
      else Checked(Failed(MapMismatch(cur)))
  }

  /** A slot whose prev is len(buf) gets past the as-written guard and is read past the end of buf. */
  lemma PrevAtLengthReadsPastEnd(b: seq<Elem>, values: map<string, nat>, cur: nat)
    requires 0 < cur < |b| < 0x1_0000_0000 && b[cur].prev == |b|
    ensures CheckSlotAsWritten(b, values, cur) == IndexOutOfRange
    ensures !StringCache.SlotChecked(b, values, cur)
  {
  }

  /** A linked slot whose next is len(buf) gets past the as-written guard and is read past the end of buf. */
  lemma NextAtLengthReadsPastEnd(b: seq<Elem>, values: map<string, nat>, cur: nat)
    requires 0 < cur < |b| < 0x1_0000_0000
    requires b[cur].prev < |b| && b[b[cur].prev].next == cur && b[cur].next == |b|
    ensures CheckSlotAsWritten(b, values, cur) == IndexOutOfRange
    ensures !StringCache.SlotChecked(b, values, cur)
  {
  }

  /**
   * A slot linked both ways whose string the map sends to index len(buf):
   * the mismatch message reads that index past the end of buf.
   */
  lemma MapEntryAtLengthReadsPastEnd(b: seq<Elem>, values: map<string, nat>, cur: nat)
    requires 0 < cur < |b| < 0x1_0000_0000 && StringCache.SlotLinked(b, cur)
    requires b[cur].value in values && values[b[cur].value] == |b|
    ensures CheckSlotAsWritten(b, values, cur) == IndexOutOfRange
    ensures !StringCache.SlotChecked(b, values, cur)
  {
  }

  /**
   * An arena of 2^32 slots, which Prealloc gives a cache of maxSize
   * 2^32 - 1: len(buf) converted to uint32 is 0. In any valid cache holding
   * two strings or more, the walk's first slot passes every check, yet the
   * as-written guard rejects its next index, the second slot, as greater
   * than 0.
   */
  lemma FullArenaRejectsFront(maxSize: nat, size: nat, b: seq<Elem>, values: map<string, nat>, o: seq<nat>)
    requires Inv(maxSize, size, b, values, o) && |b| == 0x1_0000_0000 && |o| >= 2
    ensures b[0].next == o[0] && StringCache.SlotChecked(b, values, o[0])
    ensures CheckSlotAsWritten(b, values, o[0]) == Checked(Failed(BadNextIndex(o[0])))
  {
    assert LinkedAt(b, o, 0) && LinkedAt(b, o, 1);
    assert o[0] in o;
  }

  class StringCache {
    const maxSize: nat
    var size: nat
    var hitCount: nat
    var missCount: nat
    var buf: array<Elem>
    var values: map<string, nat>

    /** The live slots from the most to the least recently used. */
    ghost var order: seq<nat>
    /** The number of Intern calls so far. */
    ghost var calls: nat

    /** The representation invariant (Inv), no string cached twice, and the counters' sum. */
    ghost predicate Valid()
      reads this, buf
    {
      && Cached()
      && hitCount + missCount == calls
    }

    /** The representation invariant (Inv) and no string cached twice; the counters play no part. */
    ghost predicate Cached()
      reads this`size, this`buf, this`values, this`order, buf
    {
      && Inv(maxSize, size, buf[..], values, order)
      && Distinct(Values(buf[..], order))
    }

    /** The cached strings, most recently used first. */
    ghost function Contents(): seq<string>
      reads this`buf, this`order, buf
      requires InArena(buf[..], order)
    {
      Values(buf[..], order)
    }

    /** Under the invariant the cached strings are the map's keys, none twice, at most maxSize of them. */
    lemma ContentsAreKeys()
      requires Valid()
      ensures Distinct(Contents()) && |Contents()| == size <= maxSize
      ensures forall s :: s in Contents() <==> s in values
    {
      IndexedValues(buf[..], values, order);
    }

    /**
     * Everything Validate checks: the walk from the root along `next` stays
     * within the arena, each slot on it is linked both ways and is where the
     * map sends its string, and the walk and the map both have size entries.
     */
    ghost predicate Consistent()
      reads this, buf
    {
      exists w :: Walked(buf[..], values, w) && |w| == size && |values| == size
    }

    /** `w` is the walk from the root and every slot on it passes the checks. */
    static ghost predicate Walked(b: seq<Elem>, values: map<string, nat>, w: seq<nat>) {
      && Chain(b, w)
      && |w| < |b|
      && (forall i :: 0 <= i < |w| ==> SlotChecked(b, values, w[i]))
    }

    static ghost predicate SlotChecked(b: seq<Elem>, values: map<string, nat>, cur: nat)
      requires cur < |b|
    {
      && SlotLinked(b, cur)
      && b[cur].value in values && values[b[cur].value] == cur
    }

    /** Slot `cur` is linked both ways: its prev leads back to it along next, and its next along prev. */
    static ghost predicate SlotLinked(b: seq<Elem>, cur: nat)
      requires cur < |b|
    {
      && b[cur].prev < |b| && b[b[cur].prev].next == cur
      && b[cur].next < |b| && b[b[cur].next].prev == cur
    }

    /**
     * NewStringCache and init: an empty circular list on a small first arena
     * of min(n + 1, 101) slots.
     */
    constructor (n: nat)
      requires 0 < n < 0x1_0000_0000
      ensures Valid() && fresh(buf)
      ensures maxSize == n && size == 0 && Contents() == []
      ensures buf.Length == Min(n + 1, 101) && buf[0].next == 0 && buf[0].prev == 0
      ensures hitCount == 0 && missCount == 0 && calls == 0
    {
      maxSize := n;
      hitCount, missCount := 0, 0;
      calls := 0;
      var initialSize := n + 1;
      if initialSize > 100 {
        initialSize := 101;
      }
      values := map[];
      buf := new Elem[initialSize](_ => Zero);
      size := 0;
      order := [];
      new;
      buf[0] := buf[0].(next := 0, prev := 0);
    }

    /** The number of cached strings. */
    method Len() returns (n: nat)
      requires Valid()
      ensures n == |Contents()| && n <= maxSize
    {
      n := size;
      ContentsAreKeys();
    }

    /** The hit and miss counters; together they count every Intern call. */
    method HitCounts() returns (r: Counts)
      requires Valid()
      ensures r.hit + r.miss == calls
      ensures r.hit == hitCount && r.miss == missCount
    {
      r := Counts(hitCount, missCount);
    }

    /** Whether `v` is cached; recency and counters are left alone. */
    method Contains(v: string) returns (r: bool)
      requires Valid()
      ensures r <==> v in Contents()
    {
      r := v in values;
      ContentsAreKeys();
    }

    /**
     * Walks the list from the root, checking each slot's links in both
     * directions and the map, then the two counts.
     */
    method Validate() returns (r: Validation)
      requires buf.Length >= 1
      ensures r == Passed <==> Consistent()
    {
      ghost var consistent := Consistent();
      ghost var w: seq<nat> := [];
      if consistent {
        w :| Walked(buf[..], values, w) && |w| == size && |values| == size;
      }
      var count: nat;
      ghost var walk: seq<nat>;
      r, count, walk := WalkList(w, consistent);
      if r.Failed? {
        return r;
      }
      if count != size {
        return Failed(BadCount(size, count));
      }
      if |values| != size {
        return Failed(BadMapCount(size, |values|));
      }
      return Passed;
    }

    /**
     * The loop of Validate: follows `next` from the root until it comes back
     * to the root, counting the slots and checking each. The walk is cut off
     * with Cycle once it would visit more slots than the arena has. When the
     * list is well formed along `w`, the walk is `w` and nothing fails.
     */
    method WalkList(ghost w: seq<nat>, ghost consistent: bool) returns (r: Validation, count: nat, ghost walk: seq<nat>)
      requires buf.Length >= 1
      requires consistent ==> Walked(buf[..], values, w)
      ensures r.Failed? ==> !consistent
      ensures r == Passed ==> Walked(buf[..], values, walk) && count == |walk|
      ensures r == Passed && consistent ==> walk == w
    {
      ghost var b := buf[..];
      count := 0;
      walk := [];
      var cur: nat := buf[0].next;
      if cur >= buf.Length {
        if consistent {
          PathInChain(b, w, walk, cur);
        }
        return Failed(BadNextIndex(0)), count, walk;
      }
      while cur != 0
        invariant count == |walk| < buf.Length && cur < buf.Length
        invariant PathTo(b, walk, cur)
        invariant forall i :: 0 <= i < |walk| ==> SlotChecked(b, values, walk[i])
        decreases buf.Length - count
      {
        if count == buf.Length - 1 {
          if consistent {
            PathInChain(b, w, walk, cur);
          }
          return Failed(Cycle(cur)), count, walk;
        }
        var check := CheckSlot(cur);
        if check.Failed? {
          if consistent {
            PathInChain(b, w, walk, cur);
          }
          return check, count + 1, walk;
        }
        count := count + 1;
        PathStep(b, walk, cur);
        walk := walk + [cur];
        cur := buf[cur].next;
      }
      PathEnd(b, walk);
      if consistent {
        PathInChain(b, w, walk, cur);
        assert walk == w;
      }
      r := Passed;
    }

    /**
     * The checks Validate makes at one slot of the walk, in its order: the
     * prev index, the link back from prev, the next index, the link back
     * from next, and the map entry of the slot's string.
     */
    method CheckSlot(cur: nat) returns (r: Validation)
      requires cur < buf.Length
      ensures r == Passed <==> SlotChecked(buf[..], values, cur)
      ensures buf[cur].prev >= buf.Length ==> r == Failed(BadPrevIndex(cur))
      ensures buf[cur].prev < buf.Length && buf[buf[cur].prev].next == cur && buf[cur].next >= buf.Length ==>
        r == Failed(BadNextIndex(cur))
      ensures r.Failed? ==>
        r.error in {BadPrevIndex(cur), BrokenPrevLink(cur), BadNextIndex(cur), BrokenNextLink(cur), MapMismatch(cur)}
    {
      var curS := buf[cur];
      if curS.prev >= buf.Length {
        return Failed(BadPrevIndex(cur));
      }
      if buf[curS.prev].next != cur {
        return Failed(BrokenPrevLink(cur));
      }
      if curS.next >= buf.Length {
        return Failed(BadNextIndex(cur));
      }
      if buf[curS.next].prev != cur {
        return Failed(BrokenNextLink(cur));
      }
      var v := curS.value;
      if v !in values || values[v] != cur {
        return Failed(MapMismatch(cur));
      }
      return Passed;
    }

    /**
     * Growth: a new arena of `nextSize` slots, or for 0 the next automatic
     * size (three times the live capacity, capped at maxSize, plus the root);
     * every existing slot keeps its index and the new slots are empty.
     */
    method Realloc(nextSize: nat)
      requires buf.Length >= 1
      modifies this`buf
      ensures fresh(buf)
      ensures buf.Length == if nextSize == 0 then Min((old(buf.Length) - 1) * 3, maxSize) + 1 else nextSize
      ensures forall i :: 0 <= i < buf.Length && i < old(buf.Length) ==> buf[i] == old(buf[i])
      ensures forall i :: old(buf.Length) <= i < buf.Length ==> buf[i] == Zero
    {
      var n := nextSize;
      if n == 0 {
        n := (buf.Length - 1) * 3;
        if n > maxSize {
          n := maxSize;
        }
        n := n + 1;
      }
      var newBuf := new Elem[n](_ => Zero);
      forall i | 0 <= i < n && i < buf.Length {
        newBuf[i] := buf[i];
      }
      buf := newBuf;
    }

    /**
     * Makes slot `elem` the successor of the root. A live slot is unlinked
     * first, unless it already is the front; a fresh slot (prev 0) is only
     * spliced in. The order of the other live slots is kept.
     */
    method MoveToFront(elem: nat)
      requires 1 <= elem < buf.Length && Linked(buf[..], order)
      requires elem in order || buf[elem].prev == 0
      modifies buf, this`order
      ensures Moved(old(buf[..]), old(order), elem, buf[..], order)
    {
      if buf[0].next == elem {
        // already at the front
        TouchFront(order);
        return;
      }
      if buf[elem].prev != 0 {
        Detach(elem);
      } else {
        // a fresh slot: nothing to unlink
        forall p | 0 <= p < |order|
          ensures order[p] != elem
        {
          assert LinkedAt(buf[..], order, p);
        }
      }
      Splice(elem);
    }

    /** Unlinks live slot `elem` from its neighbours; only they change, and the list loses `elem`. */
    method Detach(elem: nat)
      requires Linked(buf[..], order) && elem in order
      modifies buf, this`order
      ensures Linked(buf[..], order) && order == Without(old(order), elem)
      ensures Relinked(old(buf[..]), buf[..], old(order))
    {
      ghost var p :| 0 <= p < |order| && order[p] == elem;
      assert LinkedAt(buf[..], order, p);
      ghost var b0 := buf[..];
      var e := buf[elem];
      buf[e.prev] := buf[e.prev].(next := e.next);
      ghost var b1 := buf[..];
      buf[e.next] := buf[e.next].(prev := e.prev);
      Unlink(b0, order, p, b1, buf[..]);
      WithoutAt(order, p);
      order := order[..p] + order[p + 1..];
    }

    /** Links slot `elem`, which is not live, between the root and the front; it becomes the front. */
    method Splice(elem: nat)
      requires Linked(buf[..], order) && 1 <= elem < buf.Length && elem !in order
      modifies buf, this`order
      ensures Linked(buf[..], order) && order == [elem] + old(order)
      ensures Relinked(old(buf[..]), buf[..], [elem] + old(order))
    {
      ghost var b0 := buf[..];
      var next := buf[0].next;
      buf[elem] := buf[elem].(prev := 0, next := next);
      ghost var b1 := buf[..];
      buf[0] := buf[0].(next := elem);
      ghost var b2 := buf[..];
      buf[next] := buf[next].(prev := elem);
      PushFront(b0, order, elem, b1, b2, buf[..]);
      order := [elem] + order;
    }

    /**
     * Returns the cached copy of `v` (equal to `v`) and makes it the most
     * recently used string. A hit only reorders the list and counts a hit.
     * A miss counts a miss and stores `v` in the next unused slot, growing
     * the arena when it is full, or, once maxSize strings are cached, in the
     * least recently used slot, whose string leaves the cache.
     */
    method Intern(v: string) returns (r: string)
      requires Valid()
      modifies this, buf
      ensures Valid() && (buf == old(buf) || fresh(buf))
      ensures r == v
      ensures Contents() == Use(old(Contents()), v, maxSize)
      ensures calls == old(calls) + 1
      ensures v in old(values) ==> hitCount == old(hitCount) + 1 && missCount == old(missCount)
      ensures v in old(values) ==> values == old(values) && size == old(size)
      ensures v !in old(values) ==> hitCount == old(hitCount) && missCount == old(missCount) + 1
      ensures v !in old(values) && old(size) < maxSize ==> values[v] == size == old(size) + 1
      ensures v !in old(values) && old(size) == maxSize ==> values[v] == old(buf[0].prev)
      ensures buf[0].next == values[v]
    {
      if v in values {
        r := InternHit(v);
      } else {
        InternMiss(v);
        r := v;
      }
    }

    /** Intern of a cached string: the move to front, then one more hit. */
    method InternHit(v: string) returns (r: string)
      requires Valid() && v in values
      modifies buf, this`order, this`hitCount, this`missCount, this`calls
      ensures Valid() && r == v && values == old(values)
      ensures Contents() == Use(old(Contents()), v, maxSize)
      ensures calls == old(calls) + 1 && hitCount == old(hitCount) + 1 && missCount == old(missCount)
      ensures buf[0].next == values[v]
    {
      r := Hit(v);
      Tally(true);
    }

    /** Intern of a string not cached: its admission or the eviction it causes, then one more miss. */
    method InternMiss(v: string)
      requires Valid() && v !in values
      modifies buf, this`buf, this`size, this`values, this`order, this`hitCount, this`missCount, this`calls
      ensures Valid() && (buf == old(buf) || fresh(buf))
      ensures Contents() == Use(old(Contents()), v, maxSize)
      ensures calls == old(calls) + 1 && hitCount == old(hitCount) && missCount == old(missCount) + 1
      ensures old(size) < maxSize ==> values[v] == size == old(size) + 1
      ensures old(size) == maxSize ==> values[v] == old(buf[0].prev)
      ensures buf[0].next == values[v]
    {
      Miss(v);
      Tally(false);
    }

    /** Counts one Intern call as a hit or as a miss. */
    method Tally(hit: bool)
      requires Cached()
      modifies this`hitCount, this`missCount, this`calls
      ensures Cached() && Contents() == old(Contents())
      ensures calls == old(calls) + 1
      ensures hit ==> hitCount == old(hitCount) + 1 && missCount == old(missCount)
      ensures !hit ==> hitCount == old(hitCount) && missCount == old(missCount) + 1
    {
      if hit {
        hitCount := hitCount + 1;
      } else {
        missCount := missCount + 1;
      }
      calls := calls + 1;
    }

    /** An Intern hit: the slot of `v` moves to the front and the cached copy is returned. */
    method Hit(v: string) returns (r: string)
      requires Cached() && v in values
      modifies buf, this`order
      ensures Cached() && r == v && values == old(values)
      ensures Contents() == Use(old(Contents()), v, maxSize)
      ensures buf[0].next == values[v]
    {
      ghost var b0, o0 := buf[..], order;
      var elem := values[v];
      MoveToFront(elem);
      HitStep(maxSize, size, b0, values, o0, v, buf[..], order);
      r := buf[elem].value;
    }

    /** An Intern miss: `v` is admitted to a free slot, or replaces the least recently used string. */
    method Miss(v: string)
      requires Cached() && v !in values
      modifies buf, this`buf, this`size, this`values, this`order
      ensures Cached() && (buf == old(buf) || fresh(buf))
      ensures Contents() == Use(old(Contents()), v, maxSize)
      ensures old(size) < maxSize ==> values[v] == size == old(size) + 1
      ensures old(size) == maxSize ==> values[v] == old(buf[0].prev)
      ensures buf[0].next == values[v]
    {
      if size < maxSize {
        Admit(v);
      } else {
        Evict(v);
      }
    }

    /**
     * An Intern miss below capacity: `v` takes slot size + 1, the next
     * unused one, and moves to the front.
     */
    method Admit(v: string)
      requires Inv(maxSize, size, buf[..], values, order) && Distinct(Values(buf[..], order))
      requires v !in values && size < maxSize
      modifies buf, this`buf, this`size, this`values, this`order
      ensures Inv(maxSize, size, buf[..], values, order) && Distinct(Values(buf[..], order))
      ensures Values(buf[..], order) == Use(Values(old(buf[..]), old(order)), v, maxSize)
      ensures size == old(size) + 1 && values[v] == size && buf[0].next == size
      ensures buf == old(buf) || fresh(buf)
    {
      ghost var b0, o0, m0, s0 := buf[..], order, values, size;
      var elem := TakeFreshSlot(v);
      PromoteFresh(elem, v, b0, o0, m0, s0);
    }

    /** The move to front that ends a miss below capacity, once `v` is in the fresh slot `elem`. */
    method PromoteFresh(elem: nat, v: string, ghost b0: seq<Elem>, ghost o0: seq<nat>,
                        ghost m0: map<string, nat>, ghost s0: nat)
      requires Inv(maxSize, s0, b0, m0, o0) && Distinct(Values(b0, o0)) && v !in m0
      requires elem == size == s0 + 1 && values == m0[v := elem] && order == o0
      requires Filled(b0, elem, v, buf[..]) && buf.Length <= maxSize + 1
      requires 1 <= elem < buf.Length && Linked(buf[..], order) && elem !in order && buf[elem].prev == 0
      modifies buf, this`order
      ensures Inv(maxSize, size, buf[..], values, order) && Distinct(Values(buf[..], order))
      ensures Values(buf[..], order) == Use(Values(b0, o0), v, maxSize)
      ensures buf[0].next == size
    {
      ghost var b2 := buf[..];
      MoveToFront(elem);
      FillStep(maxSize, s0, b0, m0, o0, v, b2, buf[..], size, values, order);
    }

    /** Fills the next unused slot with `v`; the list is untouched, so it is still linked. */
    method TakeFreshSlot(v: string) returns (elem: nat)
      requires Inv(maxSize, size, buf[..], values, order) && size < maxSize
      modifies buf, this`buf, this`size, this`values
      ensures elem == size == old(size) + 1 && values == old(values)[v := elem]
      ensures buf == old(buf) || fresh(buf)
      ensures buf.Length <= maxSize + 1
      ensures Filled(old(buf[..]), elem, v, buf[..])
      ensures 1 <= elem < buf.Length && Linked(buf[..], order) && elem !in order && buf[elem].prev == 0
    {
      ghost var b0, s0, m0 := buf[..], size, values;
      elem := FillFreshSlot(v);
      FillSlot(maxSize, s0, b0, m0, order, v, buf[..]);
    }

    /**
     * The writes of an Intern miss below capacity that come before the move
     * to front: size grows by one, the new size converted to uint32 is the
     * slot index, the arena grows (realloc(0)) when slot size is past its
     * end, and `v` is written into that slot. The map entry
     * is stored here too, ahead of the move to front, which does not read it.
     */
    method FillFreshSlot(v: string) returns (elem: nat)
      requires size < maxSize < 0x1_0000_0000 && 2 <= buf.Length && size < buf.Length <= maxSize + 1
      modifies buf, this`buf, this`size, this`values
      ensures elem == size == old(size) + 1 && values == old(values)[v := elem]
      ensures buf == old(buf) || fresh(buf)
      ensures buf.Length <= maxSize + 1
      ensures Filled(old(buf[..]), elem, v, buf[..])
    {
      size := size + 1;
      elem := SlotIndex(size);
      if size >= buf.Length {
        Realloc(0);
      }
      buf[elem] := buf[elem].(value := v);
      values := values[v := elem];
    }

    /** An Intern miss at capacity: `v` takes the least recently used slot and moves to the front. */
    method Evict(v: string)
      requires Inv(maxSize, size, buf[..], values, order) && Distinct(Values(buf[..], order))
      requires v !in values && size == maxSize
      modifies buf, this`values, this`order
      ensures Inv(maxSize, size, buf[..], values, order) && Distinct(Values(buf[..], order))
      ensures Values(buf[..], order) == Use(Values(old(buf[..]), old(order)), v, maxSize)
      ensures values[v] == old(buf[0].prev) && buf[0].next == values[v]
    {
      ghost var b0, o0, m0 := buf[..], order, values;
      var elem := ReuseLastSlot(v);
      ghost var b2 := buf[..];
      MoveToFront(elem);
      ReplaceStep(maxSize, size, b0, m0, o0, v, elem, b2, buf[..], values, order);
    }

    /**
     * The writes of an Intern miss at capacity that come before the move to
     * front: the string in the least recently used slot leaves the map and
     * `v` takes that slot. The map entry for `v` is stored here too, ahead of
     * the move to front, which does not read it.
     */
    method ReuseLastSlot(v: string) returns (elem: nat)
      requires Inv(maxSize, size, buf[..], values, order) && size == maxSize
      modifies buf, this`values
      ensures elem == old(buf[0].prev) && 1 <= elem < buf.Length && elem in order && Linked(buf[..], order)
      ensures values == (old(values) - {old(buf[..])[elem].value})[v := elem]
      ensures buf[..] == old(buf[..])[elem := old(buf[..])[elem].(value := v)]
    {
      ghost var b0 := buf[..];
      ReplaceSlot(maxSize, b0, values, order, v, b0[b0[0].prev := b0[b0[0].prev].(value := v)]);
      elem := buf[0].prev;
      values := (values - {buf[elem].value})[v := elem];
      buf[elem] := buf[elem].(value := v);
    }

    /**
     * Preallocates the whole arena (maxSize slots plus the root) so that it
     * never grows again; the map and the list are unchanged.
     */
    method Prealloc()
      requires Valid()
      modifies this
      ensures Valid() && fresh(buf) && buf.Length == maxSize + 1
      ensures Contents() == old(Contents()) && values == old(values) && size == old(size)
      ensures hitCount == old(hitCount) && missCount == old(missCount) && calls == old(calls)
    {
      ghost var b0 := buf[..];
      Realloc(maxSize + 1);
      assert buf[..|b0|] == b0;
      ExtendInv(maxSize, size, b0, values, order, buf[..]);
    }

    /** Everything Validate checks follows from the representation invariant. */
    lemma ValidIsConsistent()
      requires Valid()
      ensures Consistent()
    {
      var b := buf[..];
      LinkedChain(b, order);
      forall i | 0 <= i < |order|
        ensures SlotChecked(b, values, order[i])
      {
        assert LinkedAt(b, order, i);
        assert order[i] in order;
        if i > 0 {
          assert LinkedAt(b, order, i - 1);
        }
        if i < |order| - 1 {
          assert LinkedAt(b, order, i + 1);
        }
      }
      assert Walked(b, values, order);
    }
  }
}
