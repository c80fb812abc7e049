/** What one Guardian's dispatch history implies about its replay ring and its capsule cache. */
module History {
  import opened Bytes
  import opened Rings

  const SEEN_CAP: nat := 32
  const CACHE_CAP: nat := 16

  /** One received fragment, seen from outside: nothing handed up, or a pill dispatched. */
  datatype Event = Quiet | Dispatch(id: Id, relayed: bool)

  /** What one event writes into the seen ring: the id on acceptance, and again after a full relay. */
  function Adds(e: Event): seq<Id> {
    if e.Quiet? then [] else if e.relayed then [e.id, e.id] else [e.id]
  }

  function AddLog(es: seq<Event>): seq<Id> {
    if es == [] then [] else AddLog(es[..|es| - 1]) + Adds(es[|es| - 1])
  }

  /** The dispatched ids, in order. */
  function Dispatches(es: seq<Event>): seq<Id> {
    if es == [] then []
    else Dispatches(es[..|es| - 1]) + (if es[|es| - 1].Dispatch? then [es[|es| - 1].id] else [])
  }

  lemma HistoryAppend(es: seq<Event>, e: Event)
    ensures AddLog(es + [e]) == AddLog(es) + Adds(e)
    ensures Dispatches(es + [e]) == Dispatches(es) + if e.Dispatch? then [e.id] else []
  {
    assert (es + [e])[..|es|] == es;
  }

  lemma Assoc<T>(a: seq<T>, b: seq<T>, c: seq<T>)
    ensures a + b + c == a + (b + c)
  {
  }

  lemma EmptyHistory()
    ensures AddLog([]) == [] && Dispatches([]) == []
  {
  }

  lemma {:induction false} HistoryConcat(a: seq<Event>, b: seq<Event>)
    ensures AddLog(a + b) == AddLog(a) + AddLog(b)
    ensures Dispatches(a + b) == Dispatches(a) + Dispatches(b)
  {
    hide AddLog, Dispatches, Adds;
    if b == [] {
      EmptyHistory();
      assert a + b == a;
    } else {
      var n := |b| - 1;
      HistoryConcat(a, b[..n]);
      assert a + b == (a + b[..n]) + [b[n]] && b == b[..n] + [b[n]];
      HistoryAppend(a + b[..n], b[n]);
      HistoryAppend(b[..n], b[n]);
      Assoc(AddLog(a), AddLog(b[..n]), Adds(b[n]));
      Assoc(Dispatches(a), Dispatches(b[..n]), if b[n].Dispatch? then [b[n].id] else []);
    }
  }

  lemma {:induction false} LogAvoids(es: seq<Event>, id: Id)
    requires forall k :: 0 <= k < |es| && es[k].Dispatch? ==> es[k].id != id
    ensures id !in AddLog(es)
  {
    if es != [] {
      LogAvoids(es[..|es| - 1], id);
    }
  }

  /** Where the k-th event stands among the dispatches. */
  lemma DispatchPosition(es: seq<Event>, k: nat)
    requires k < |es| && es[k].Dispatch?
    ensures var at := |Dispatches(es[..k])|;
            at < |Dispatches(es)| && Dispatches(es)[at] == es[k].id && |Dispatches(es[..k + 1])| == at + 1
  {
    assert es == es[..k + 1] + es[k + 1..] && es[..k + 1] == es[..k] + [es[k]];
    HistoryConcat(es[..k + 1], es[k + 1..]);
    HistoryAppend(es[..k], es[k]);
  }

  lemma PositionsGrow(es: seq<Event>, i: nat, j: nat)
    requires i <= j <= |es|
    ensures |Dispatches(es[..i])| <= |Dispatches(es[..j])|
  {
    assert es[..j] == es[..i] + es[i..j];
    HistoryConcat(es[..i], es[i..j]);
  }

  lemma LastNAppend<T>(s: seq<T>, y: T, n: nat)
    ensures LastN(s + [y], n) == if n == 0 then [] else LastN(s, n - 1) + [y]
  {
  }

  /** The last n dispatched ids are all among the last 2n ring writes. */
  lemma {:induction false} DispatchesInLog(es: seq<Event>, n: nat, x: Id)
    requires x in LastN(Dispatches(es), n)
    ensures x in LastN(AddLog(es), 2 * n)
    decreases |es|
  {
    hide AddLog, Dispatches;
    if es == [] {
      EmptyHistory();
    } else {
      var before, e := es[..|es| - 1], es[|es| - 1];
      assert es == before + [e];
      HistoryAppend(before, e);
      if e.Quiet? {
        assert Dispatches(es) == Dispatches(before) && AddLog(es) == AddLog(before);
        DispatchesInLog(before, n, x);
      } else {
        LastNAppend(Dispatches(before), e.id, n);
        if x == e.id {
          EndsWindow(AddLog(before) + Adds(e), 2 * n, x);
        } else {
          DispatchesInLog(before, n - 1, x);
          WindowGrows(AddLog(before), Adds(e), 2 * n - 2, x);
        }
      }
    }
  }

  lemma EndsWindow<T>(log: seq<T>, n: nat, x: T)
    requires n > 0 && log != [] && log[|log| - 1] == x
    ensures x in LastN(log, n)
  {
    assert LastN(log, n)[|LastN(log, n)| - 1] == x;
  }

  lemma WindowGrows<T>(log: seq<T>, more: seq<T>, n: nat, x: T)
    requires |more| <= 2 && x in LastN(log, n)
    ensures x in LastN(log + more, n + 2)
  {
    var w, w' := LastN(log, n), LastN(log + more, n + 2);
    var i :| 0 <= i < |w| && w[i] == x;
    var at := |log| - |w| + i;
    assert (log + more)[at] == x;
    assert w'[at - (|log + more| - |w'|)] == x;
  }

  /** The two windows of a Guardian, and the spacing of its dispatches, in terms of its history. */
  predicate Explained(seen: seq<Id>, cache: seq<Id>, es: seq<Event>) {
    && seen == LastN(AddLog(es), SEEN_CAP)
    && cache == CacheAfter(Dispatches(es), CACHE_CAP)
    && Spaced(Dispatches(es), CACHE_CAP)
  }

  /** The ring after one event. */
  function SeenAfter(seen: seq<Id>, e: Event): (r: seq<Id>)
    requires |seen| <= SEEN_CAP
    ensures |r| <= SEEN_CAP
  {
    if e.Quiet? then seen
    else if e.relayed then Push(Push(seen, e.id, SEEN_CAP), e.id, SEEN_CAP)
    else Push(seen, e.id, SEEN_CAP)
  }

  lemma SeenIsLog(log: seq<Id>, e: Event)
    ensures LastN(log + Adds(e), SEEN_CAP) == SeenAfter(LastN(log, SEEN_CAP), e)
  {
    if e.Dispatch? {
      PushIsLastN(log, e.id, SEEN_CAP);
      PushIsLastN(log + [e.id], e.id, SEEN_CAP);
      assert log + [e.id] + [e.id] == log + [e.id, e.id];
    } else {
      assert log + [] == log;
    }
  }

  /** An id missing from the ring was not among the last 16 dispatches: spacing is kept and the cache misses. */
  lemma FreshDispatch(es: seq<Event>, id: Id)
    requires id !in LastN(AddLog(es), SEEN_CAP) && Spaced(Dispatches(es), CACHE_CAP)
    ensures Spaced(Dispatches(es) + [id], CACHE_CAP)
    ensures Admit(CacheAfter(Dispatches(es), CACHE_CAP), id, CACHE_CAP) ==
            (false, CacheAfter(Dispatches(es) + [id], CACHE_CAP))
  {
    var d := Dispatches(es);
    if id in LastN(d, CACHE_CAP) {
      DispatchesInLog(es, CACHE_CAP, id);
    }
    SpacedAppend(d, id, CACHE_CAP);
    SpacedQueriesAlwaysMiss(d, CACHE_CAP);
    assert (d + [id])[..|d|] == d;
  }

  /** One more event: a dispatch only of an id missing from the ring, which the capsule cache then never holds. */
  lemma ExplainedStep(seen: seq<Id>, cache: seq<Id>, es: seq<Event>, e: Event)
    requires |seen| <= SEEN_CAP && |cache| <= CACHE_CAP
    requires Explained(seen, cache, es) && (e.Dispatch? ==> e.id !in seen)
    ensures e.Dispatch? ==> e.id !in cache
    ensures Explained(SeenAfter(seen, e), if e.Quiet? then cache else Admit(cache, e.id, CACHE_CAP).1, es + [e])
  {
    HistoryAppend(es, e);
    SeenIsLog(AddLog(es), e);
    if e.Dispatch? {
      FreshDispatch(es, e.id);
    } else {
      assert Dispatches(es) + [] == Dispatches(es);
    }
  }

  /** An element ending a log stays in the last 32 exactly while fewer than 32 others follow it. */
  lemma StillRemembered(log: seq<Id>, more: seq<Id>, id: Id)
    requires log != [] && log[|log| - 1] == id && id !in more
    ensures id in LastN(log + more, SEEN_CAP) <==> |more| < SEEN_CAP
  {
    var w := LastN(log + more, SEEN_CAP);
    if |more| < SEEN_CAP {
      assert w[|w| - |more| - 1] == id;
    } else {
      assert w == more[|more| - |w|..];
    }
  }

  /** After the last dispatch of an id the ring holds it exactly while fewer than 32 writes followed. */
  lemma RememberedIff(seen: seq<Id>, cache: seq<Id>, es: seq<Event>, i: nat)
    requires Explained(seen, cache, es) && i < |es| && es[i].Dispatch?
    requires forall k :: i < k < |es| && es[k].Dispatch? ==> es[k].id != es[i].id
    ensures es[i].id in seen <==> |AddLog(es[i + 1..])| < SEEN_CAP
  {
    var first, later := es[..i + 1], es[i + 1..];
    assert first == es[..i] + [es[i]] && es == first + later;
    HistoryAppend(es[..i], es[i]);
    HistoryConcat(first, later);
    LogAvoids(later, es[i].id);
    EndsWithId(AddLog(es[..i]), es[i]);
    StillRemembered(AddLog(first), AddLog(later), es[i].id);
  }

  lemma EndsWithId(log: seq<Id>, e: Event)
    requires e.Dispatch?
    ensures var s := log + Adds(e); s != [] && s[|s| - 1] == e.id
  {
  }
}
