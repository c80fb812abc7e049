/**
 * The fixed-size replay rings. Both the 32-entry seen cache of the relay link and the 16-entry
 * capsule cache of the stomach keep an array of ids, a write position and a fill count.
 */
module Rings {
  import opened Bytes

  /** The last n elements of a log. */
  function LastN<T>(log: seq<T>, n: nat): (w: seq<T>)
    ensures |w| == Min(|log|, n)
  {
    if |log| <= n then log else log[|log| - n..]
  }

  /** One write into a window of at most `cap` ids: the oldest one falls out once it is full. */
  function Push<T>(w: seq<T>, x: T, cap: nat): (r: seq<T>)
    requires 0 < cap && |w| <= cap
    ensures |r| <= cap && |r| > 0
  {
    if |w| < cap then w + [x] else w[1..] + [x]
  }

  lemma PushIsLastN<T>(log: seq<T>, x: T, cap: nat)
    requires 0 < cap
    ensures Push(LastN(log, cap), x, cap) == LastN(log + [x], cap)
  {
    if |log| > cap {
      assert log[|log| - cap..][1..] == log[|log| - cap + 1..];
    }
  }

  /** Look an id up and insert it when it is absent: (was it there, window afterwards). */
  function Admit(w: seq<Id>, x: Id, cap: nat): (r: (bool, seq<Id>))
    requires 0 < cap && |w| <= cap
    ensures |r.1| <= cap && x in r.1
  {
    if x in w then (true, w) else (false, Push(w, x, cap))
  }

  /** The remembered entries of a ring array, oldest first. */
  ghost function Ordered<T>(e: seq<T>, next: nat, count: nat): (w: seq<T>)
    requires next < |e| && count <= |e| && (count < |e| ==> next == count)
    ensures |w| == count
    ensures multiset(w) == multiset(e[..count])
  {
    if count < |e| then e[..count]
    else
      assert e[..count] == e[..next] + e[next..];
      e[next..] + e[..next]
  }

  function Step(next: nat, cap: nat): (r: nat)
    requires next < cap
    ensures r == (next + 1) % cap && r < cap
  {
    if next + 1 == cap then 0 else next + 1
  }

  /** Writing at the ring position and stepping it round is a push on the ordered window. */
  lemma WriteIsPush<T>(e: seq<T>, next: nat, x: T)
    requires next < |e|
    ensures Ordered(e[next := x], Step(next, |e|), |e|) == Push(Ordered(e, next, |e|), x, |e|)
  {
    var e' := e[next := x];
    var w := Ordered(e, next, |e|);
    assert w[1..] == e[next + 1..] + e[..next];
    assert e' == e[..next] + [x] + e[next + 1..];
    if next + 1 == |e| {
      assert Ordered(e', 0, |e|) == e';
    } else {
      assert e'[next + 1..] == e[next + 1..];
      assert e'[..next + 1] == e[..next] + [x];
    }
  }

  /** Array, write position and fill count, as both firmware caches declare them. */
  class DigestRing {
    const entries: array<Id>
    var next: nat
    var count: nat

    ghost predicate Valid()
      reads this
    {
      && 0 < entries.Length
      && next < entries.Length
      && count <= entries.Length
      && (count < entries.Length ==> next == count)
    }

    /** The remembered ids, oldest first. */
    ghost function Window(): (w: seq<Id>)
      requires Valid()
      reads this, entries
      ensures |w| == count <= entries.Length
    {
      Ordered(entries[..], next, count)
    }

    constructor (capacity: nat)
      requires 0 < capacity
      ensures Valid() && Window() == [] && entries.Length == capacity && fresh(entries)
    {
      entries := new Id[capacity](_ => Zeros(32));
      next := 0;
      count := 0;
    }

    /** Scans only the `count` slots written so far, so zeroed unused slots cannot match. */
    method Contains(id: Id) returns (found: bool)
      requires Valid()
      ensures found <==> id in Window()
    {
      for i := 0 to count
        invariant id !in entries[..i]
      {
        if entries[i] == id {
          assert entries[..count][i] in multiset(Window());
          return true;
        }
      }
      assert multiset(Window()) == multiset(entries[..count]);
      return false;
    }

    method Add(id: Id)
      requires Valid()
      modifies this, entries
      ensures Valid() && Window() == Push(old(Window()), id, entries.Length)
    {
      ghost var before := entries[..];
      entries[next] := id;
      assert entries[..] == before[next := id];
      next := Step(next, entries.Length);
      if count < entries.Length {
        count := count + 1;
        assert entries[..count] == before[..old(count)] + [id];
      } else {
        WriteIsPush(before, old(next), id);
      }
    }

    method SeenOrAdd(id: Id) returns (seen: bool)
      requires Valid()
      modifies this, entries
      ensures Valid()
      ensures (seen, Window()) == Admit(old(Window()), id, entries.Length)
    {
      seen := Contains(id);
      if !seen {
        Add(id);
      }
    }

    method Clear()
      requires Valid()
      modifies this, entries
      ensures Valid() && Window() == []
    {
      for i := 0 to entries.Length {
        entries[i] := Zeros(32);
      }
      next := 0;
      count := 0;
    }
  }

  // ---- The insert-if-absent cache over whole query sequences ----

  predicate Distinct<T(==)>(s: seq<T>) {
    forall i, j :: 0 <= i < j < |s| ==> s[i] != s[j]
  }

  /** Any two equal elements are more than `gap` positions apart. */
  predicate Spaced<T(==)>(s: seq<T>, gap: nat) {
    forall i, j :: 0 <= i < j < |s| && j - i <= gap ==> s[i] != s[j]
  }

  /** The window after a sequence of look-ups, starting empty. */
  function CacheAfter(queries: seq<Id>, cap: nat): (w: seq<Id>)
    requires 0 < cap
    ensures |w| <= cap
  {
    if queries == [] then []
    else Admit(CacheAfter(queries[..|queries| - 1], cap), queries[|queries| - 1], cap).1
  }

  /** The queries answered "not seen", in order. */
  function Misses(queries: seq<Id>, cap: nat): seq<Id>
    requires 0 < cap
  {
    if queries == [] then []
    else
      var before := queries[..|queries| - 1];
      var q := queries[|queries| - 1];
      Misses(before, cap) + (if q in CacheAfter(before, cap) then [] else [q])
  }

  lemma SpacedAppend<T>(s: seq<T>, x: T, gap: nat)
    requires Spaced(s, gap) && x !in LastN(s, gap)
    ensures Spaced(s + [x], gap)
  {
    var t := s + [x];
    forall i, j | 0 <= i < j < |t| && j - i <= gap ensures t[i] != t[j] {
      if j == |s| {
        assert t[i] == LastN(s, gap)[i - (|s| - |LastN(s, gap)|)];
      }
    }
  }

  /**
   * The cache is a FIFO of the last `cap` distinct inserted digests: it holds exactly the last
   * `cap` misses, they are pairwise distinct, and two misses on one digest are separated by at
   * least `cap` misses on others.
   */
  lemma {:induction false} CacheIsFifoOfMisses(queries: seq<Id>, cap: nat)
    requires 0 < cap
    ensures CacheAfter(queries, cap) == LastN(Misses(queries, cap), cap)
    ensures Spaced(Misses(queries, cap), cap)
    ensures Distinct(CacheAfter(queries, cap))
  {
    if queries != [] {
      var before := queries[..|queries| - 1];
      var q := queries[|queries| - 1];
      CacheIsFifoOfMisses(before, cap);
      var m := Misses(before, cap);
      if q !in CacheAfter(before, cap) {
        PushIsLastN(m, q, cap);
        SpacedAppend(m, q, cap);
      }
    }
    SpacedWindowDistinct(Misses(queries, cap), cap);
  }

  lemma SpacedWindowDistinct<T>(s: seq<T>, cap: nat)
    requires Spaced(s, cap)
    ensures Distinct(LastN(s, cap))
  {
    var w := LastN(s, cap);
    forall i, j | 0 <= i < j < |w| ensures w[i] != w[j] {
      var d := |s| - |w|;
      assert w[i] == s[i + d] && w[j] == s[j + d];
    }
  }

  lemma SpacedLastIsFresh<T>(s: seq<T>, cap: nat)
    requires s != [] && Spaced(s, cap)
    ensures Spaced(s[..|s| - 1], cap)
    ensures s[|s| - 1] !in LastN(s[..|s| - 1], cap)
  {
    var n := |s| - 1;
    var w := LastN(s[..n], cap);
    forall k | 0 <= k < |w| ensures w[k] != s[n] {
      assert w[k] == s[k + n - |w|];
    }
  }

  /** Queries whose repeats are more than `cap` apart are never answered "seen". */
  lemma {:induction false} SpacedQueriesAlwaysMiss(queries: seq<Id>, cap: nat)
    requires 0 < cap && Spaced(queries, cap)
    ensures CacheAfter(queries, cap) == LastN(queries, cap)
    ensures Misses(queries, cap) == queries
  {
    if queries != [] {
      var n := |queries| - 1;
      var before, q := queries[..n], queries[n];
      SpacedLastIsFresh(queries, cap);
      SpacedQueriesAlwaysMiss(before, cap);
      PushIsLastN(before, q, cap);
      assert before + [q] == queries;
    }
  }
}
