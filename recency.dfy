/**
 * The recency policy shared by both caches, stated on plain sequences.
 *
 * A cache's keys are kept as a sequence ordered from the most recently used
 * (index 0, the front of the list) to the least recently used (the last
 * index, the back of the list). An access moves its key to the front; a new
 * key is pushed on the front and, when the cache is full, the back key is
 * evicted to make room.
 */
module Recency {

  /** Positions `i` before `j` of `s` hold different keys. */
  ghost predicate Apart<T>(s: seq<T>, i: int, j: int) {
    0 <= i < j < |s| ==> s[i] != s[j]
  }

  /**
   * No key occurs twice. The quantifier fires only on an explicit Apart term,
   * so that a proof asks for the pairs it needs.
   */
  ghost predicate Distinct<T>(s: seq<T>) {
    forall i, j {:trigger Apart(s, i, j)} :: Apart(s, i, j)
  }

  /** Two different positions of a duplicate-free list hold different keys. */
  lemma DistinctNe<T>(s: seq<T>, i: int, j: int)
    requires Distinct(s) && 0 <= i < |s| && 0 <= j < |s| && i != j
    ensures s[i] != s[j]
  {
    if i < j {
      assert Apart(s, i, j);
    } else {
      assert Apart(s, j, i);
    }
  }

  /** Dropping the first key keeps a list duplicate-free, and the first key is not among the rest. */
  lemma DistinctTail<T>(s: seq<T>)
    requires Distinct(s) && s != []
    ensures Distinct(s[1..]) && s[0] !in s[1..]
  {
    forall i, j | 0 <= i < j < |s| - 1
      ensures s[1..][i] != s[1..][j]
    {
      DistinctNe(s, i + 1, j + 1);
    }
    forall k | 0 <= k < |s| - 1
      ensures s[1..][k] != s[0]
    {
      DistinctNe(s, 0, k + 1);
    }
  }

  function Min(a: int, b: int): int {
    if a <= b then a else b
  }

  /** A key that is not in a duplicate-free list can go in front of it. */
  lemma DistinctCons<T>(x: T, s: seq<T>)
    requires Distinct(s) && x !in s
    ensures Distinct([x] + s)
  {
    var r := [x] + s;
    forall i, j | 0 <= i < j < |r|
      ensures r[i] != r[j]
    {
      assert r[j] == s[j - 1];
      if i > 0 {
        DistinctNe(s, i - 1, j - 1);
      }
    }
  }

  /** A key that is not in a duplicate-free list can go after it. */
  lemma DistinctSnoc<T>(s: seq<T>, x: T)
    requires Distinct(s) && x !in s
    ensures Distinct(s + [x])
  {
    var r := s + [x];
    forall i, j | 0 <= i < j < |r|
      ensures r[i] != r[j]
    {
      assert r[i] == s[i];
      if j < |s| {
        DistinctNe(s, i, j);
      }
    }
  }

  /** A prefix of a duplicate-free list is duplicate-free. */
  lemma DistinctPrefix<T>(s: seq<T>, k: nat)
    requires Distinct(s) && k <= |s|
    ensures Distinct(s[..k])
  {
    forall i, j | 0 <= i < j < k
      ensures s[..k][i] != s[..k][j]
    {
      DistinctNe(s, i, j);
    }
  }

  /** The keys of `s` other than `x`, in their original order. */
  function Without<T(==,!new)>(s: seq<T>, x: T): (r: seq<T>)
    ensures x !in r
    ensures forall y :: y in r <==> y in s && y != x
    ensures |r| <= |s|
    ensures x !in s ==> r == s
  {
    if s == [] then []
    else if s[0] == x then Without(s[1..], x)
    else
      var rest := Without(s[1..], x);
      assert forall j :: 0 <= j < |rest| ==> rest[j] in s[1..];
      [s[0]] + rest
  }

  /** Removing a key from a concatenation removes it from both parts. */
  lemma {:induction false} WithoutAppend<T(!new)>(a: seq<T>, b: seq<T>, x: T)
    ensures Without(a + b, x) == Without(a, x) + Without(b, x)
  {
    if a == [] {
      assert a + b == b;
    } else {
      assert (a + b)[0] == a[0];
      assert (a + b)[1..] == a[1..] + b;
      WithoutAppend(a[1..], b, x);
    }
  }

  /** Removing a key of a duplicate-free list leaves the keys before it and after it, in order. */
  lemma WithoutAt<T(!new)>(s: seq<T>, p: nat)
    requires Distinct(s) && p < |s|
    ensures Without(s, s[p]) == s[..p] + s[p + 1..]
  {
    var x := s[p];
    assert s == s[..p] + ([x] + s[p + 1..]);
    WithoutAppend(s[..p], [x] + s[p + 1..], x);
    WithoutAppend([x], s[p + 1..], x);
    assert Without([x], x) == Without([], x);
    forall i | 0 <= i < p
      ensures s[..p][i] != x
    {
      DistinctNe(s, i, p);
    }
    var c := s[p + 1..];
    forall i | 0 <= i < |c|
      ensures c[i] != x
    {
      DistinctNe(s, p + 1 + i, p);
    }
  }

  /** Dropping one position keeps a list duplicate-free. */
  lemma DistinctRemove<T>(s: seq<T>, p: nat)
    requires Distinct(s) && p < |s|
    ensures Distinct(s[..p] + s[p + 1..])
  {
    var r := s[..p] + s[p + 1..];
    forall i, j | 0 <= i < j < |r|
      ensures r[i] != r[j]
    {
      if j < p {
        DistinctNe(s, i, j);
      } else if i < p {
        assert r[j] == s[j + 1];
        DistinctNe(s, i, j + 1);
      } else {
        assert r[i] == s[i + 1] && r[j] == s[j + 1];
        DistinctNe(s, i + 1, j + 1);
      }
    }
  }

  /** Removing a key keeps a list duplicate-free, and one shorter when the key was present. */
  lemma WithoutDistinct<T(!new)>(s: seq<T>, x: T)
    requires Distinct(s)
    ensures Distinct(Without(s, x))
    ensures x in s ==> |Without(s, x)| == |s| - 1
  {
    if x in s {
      var p :| 0 <= p < |s| && s[p] == x;
      WithoutAt(s, p);
      DistinctRemove(s, p);
    }
  }

  /** Move-to-front: `x` becomes the most recently used key. */
  function Touch<T(==,!new)>(s: seq<T>, x: T): (r: seq<T>)
    ensures |r| == |Without(s, x)| + 1 && r[0] == x && r[1..] == Without(s, x)
    ensures forall y :: y in r <==> y == x || y in s
  {
    [x] + Without(s, x)
  }

  /** Position by position, moving the key at `p` to the front shifts the keys before it back by one. */
  lemma TouchAt<T(!new)>(s: seq<T>, p: nat, i: nat)
    requires Distinct(s) && p < |s| && i < |s|
    ensures |Touch(s, s[p])| == |s|
    ensures Touch(s, s[p])[i] == if i == 0 then s[p] else if i <= p then s[i - 1] else s[i]
  {
    WithoutAt(s, p);
    var w := Without(s, s[p]);
    assert Touch(s, s[p])[1..] == w;
    if i > 0 {
      assert Touch(s, s[p])[i] == w[i - 1];
      if i <= p {
        assert w[i - 1] == s[..p][i - 1];
      } else {
        assert w[i - 1] == s[p + 1..][i - 1 - p];
      }
    }
  }

  /** Moving a key to the front keeps a list duplicate-free, and its length when the key was present. */
  lemma TouchDistinct<T(!new)>(s: seq<T>, x: T)
    requires Distinct(s)
    ensures Distinct(Touch(s, x))
    ensures x in s ==> |Touch(s, x)| == |s|
  {
    WithoutDistinct(s, x);
    DistinctCons(x, Without(s, x));
  }

  /** Touching the key that is already at the front changes nothing. */
  lemma TouchFront<T(!new)>(s: seq<T>)
    requires Distinct(s) && s != []
    ensures Touch(s, s[0]) == s
  {
    WithoutAt(s, 0);
  }

  /**
   * One access under the eviction policy of a cache holding at most `cap`
   * keys: a present key moves to the front; an absent key is pushed on the
   * front, after evicting the back key when the cache is full.
   */
  function Use<T(==,!new)>(s: seq<T>, x: T, cap: nat): (r: seq<T>)
    requires 0 < cap && Distinct(s) && |s| <= cap
    ensures |r| == (if x in s then |s| else Min(|s| + 1, cap))
    ensures |r| > 0 && r[0] == x && Distinct(r)
    ensures forall y :: y in r <==> y == x || (y in s && !(x !in s && |s| == cap && y == s[|s| - 1]))
  {
    if x in s then
      TouchDistinct(s, x);
      Touch(s, x)
    else if |s| >= cap then
      var kept := s[..|s| - 1];
      DistinctPrefix(s, |s| - 1);
      DistinctCons(x, kept);
      assert forall y :: y in kept <==> y in s && y != s[|s| - 1] by {
        forall k | 0 <= k < |s| - 1
          ensures kept[k] != s[|s| - 1]
        {
          DistinctNe(s, k, |s| - 1);
        }
        assert s == kept + [s[|s| - 1]];
      }
      [x] + kept
    else
      DistinctCons(x, s);
      [x] + s
  }

  /** A new key goes on the front, and the back key drops off when the cache was full. */
  lemma UseNew<T(!new)>(s: seq<T>, x: T, cap: nat)
    requires 0 < cap && Distinct(s) && |s| <= cap && x !in s
    ensures Use(s, x, cap) == [x] + (if |s| == cap then s[..|s| - 1] else s)
  {
  }

  /** The key order after a series of accesses, oldest access first. */
  function Replay<T(==,!new)>(s: seq<T>, xs: seq<T>, cap: nat): (r: seq<T>)
    requires 0 < cap && Distinct(s) && |s| <= cap
    ensures Distinct(r) && |r| <= cap
    ensures xs != [] ==> r != [] && r[0] == xs[|xs| - 1]
    decreases |xs|
  {
    if xs == [] then s
    else Use(Replay(s, xs[..|xs| - 1], cap), xs[|xs| - 1], cap)
  }

  /**
   * Starting from an empty cache, accessing distinct keys leaves exactly the
   * `cap` newest ones (or all of them, when there are fewer), newest first.
   */
  lemma {:induction false} ReplayNewest<T(!new)>(xs: seq<T>, cap: nat)
    requires 0 < cap && Distinct(xs)
    ensures |Replay([], xs, cap)| == Min(|xs|, cap)
    ensures forall i :: 0 <= i < |Replay([], xs, cap)| ==> Replay([], xs, cap)[i] == xs[|xs| - 1 - i]
  {
    if xs != [] {
      var ys, y := xs[..|xs| - 1], xs[|xs| - 1];
      DistinctPrefix(xs, |xs| - 1);
      ReplayNewest(ys, cap);
      var prev := Replay([], ys, cap);
      forall i | 0 <= i < |prev|
        ensures prev[i] != y
      {
        assert prev[i] == xs[|ys| - 1 - i];
        DistinctNe(xs, |ys| - 1 - i, |xs| - 1);
      }
      var r := Replay([], xs, cap);
      UseNew(prev, y, cap);
      forall i | 0 <= i < |r|
        ensures r[i] == xs[|xs| - 1 - i]
      {
        if i > 0 {
          assert r[i] == prev[i - 1];
        }
      }
    }
  }

  /**
   * Once more distinct keys than the capacity have been accessed, the
   * oldest ones are gone and the newest `cap` ones are all present.
   */
  lemma OldestEvicted<T(!new)>(xs: seq<T>, cap: nat)
    requires 0 < cap <= |xs| && Distinct(xs)
    ensures |Replay([], xs, cap)| == cap
    ensures forall i :: 0 <= i < |xs| - cap ==> xs[i] !in Replay([], xs, cap)
    ensures forall i :: |xs| - cap <= i < |xs| ==> xs[i] in Replay([], xs, cap)
  {
    ReplayNewest(xs, cap);
    var r := Replay([], xs, cap);
    forall i | 0 <= i < |xs| - cap
      ensures xs[i] !in r
    {
      forall j | 0 <= j < |r|
        ensures r[j] != xs[i]
      {
        assert r[j] == xs[|xs| - 1 - j];
        DistinctNe(xs, |xs| - 1 - j, i);
      }
    }
    forall i | |xs| - cap <= i < |xs|
      ensures xs[i] in r
    {
      assert r[|xs| - 1 - i] == xs[i];
    }
  }

  /**
   * A key that was just accessed survives the next eviction: in a full
   * cache of at least two keys, touching `x` and then adding a new key `y`
   * keeps `x` and evicts the oldest key other than `x`.
   */
  lemma TouchedSurvives<T(!new)>(s: seq<T>, x: T, y: T, cap: nat)
    requires 2 <= cap && Distinct(s) && |s| == cap && x in s && y !in s
    ensures Distinct(Touch(s, x)) && |Touch(s, x)| == cap
    ensures var r := Use(Touch(s, x), y, cap);
      x in r && r == [y] + Touch(s, x)[..cap - 1]
  {
    TouchDistinct(s, x);
    var t := Touch(s, x);
    DistinctNe(t, 0, cap - 1);
    assert y !in t;
  }

  /** A duplicate-free list has as many distinct members as it has positions. */
  lemma {:induction false} DistinctCard<T>(s: seq<T>)
    requires Distinct(s)
    ensures |set x | x in s| == |s|
  {
    if s != [] {
      DistinctTail(s);
      DistinctCard(s[1..]);
      assert (set x | x in s) == {s[0]} + (set x | x in s[1..]);
      assert s[0] !in (set x | x in s[1..]);
    }
  }
}
