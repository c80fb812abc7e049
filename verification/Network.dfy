/** Any number of Guardians flooding pills to their peers over a lossy, reordering medium. */
module Network {
  import opened Bytes
  import opened Rings
  import opened History
  import opened Frames
  import opened Pills
  import opened Guardians

  // ---- One node ----

  /** The ids a node has dispatched, in order, after hearing `heard`. */
  ghost function Log(su: Setup, heard: seq<Input>): seq<Id> { Dispatches(Events(Run(su, heard).1)) }

  ghost function Answer(su: Setup, heard: seq<Input>, i: Input): Outcome {
    Receive(su, Run(su, heard).0, i.bytes, i.env).1
  }

  /** The frames a node hands to the radio in answer to one frame. */
  ghost function Relay(su: Setup, heard: seq<Input>, i: Input): seq<seq<byte>> {
    var o := Answer(su, heard, i);
    if o.Dispatched? then o.sent else []
  }

  /** A frame that carries an id outside M, or no readable frame at all, is never dispatched. */
  ghost predicate CarriesOnly(bytes: seq<byte>, M: set<Id>) {
    Decode(bytes).Ok? ==> Decode(bytes).value.id in M
  }

  lemma AnswerFacts(su: Setup, g: Guardian, i: Input)
    requires GuardianOk(g)
    ensures var o := Receive(su, g, i.bytes, i.env).1;
            o.Dispatched? ==>
              && Decode(i.bytes).Ok? && o.id == Decode(i.bytes).value.id == InnerId(su.crypto, o.pill)
              && |o.sent| <= 3
              && (forall k :: 0 <= k < |o.sent| ==> o.sent[k] in Fragments(PillBytes(o.pill), o.id))
  {
  }

  lemma FragmentsCarry(message: seq<byte>, id: Id, bytes: seq<byte>)
    requires Sendable(message) && bytes in Fragments(message, id)
    ensures Decode(bytes).Ok? && Decode(bytes).value.id == id
  {
    var k :| 0 <= k < FragCount(|message|) && bytes == Fragments(message, id)[k];
    DecodeEncode(FragmentAt(message, id, k));
  }

  /** One more frame adds at most one dispatch, of the frame's own id, and only then relays, at most three frames. */
  lemma NodeStep(su: Setup, heard: seq<Input>, i: Input, M: set<Id>)
    requires CarriesOnly(i.bytes, M)
    ensures var log, log' := Log(su, heard), Log(su, heard + [i]);
            var out := Relay(su, heard, i);
            && |out| <= 3 && (forall k :: 0 <= k < |out| ==> CarriesOnly(out[k], M))
            && ((log' == log && out == []) || exists id :: id in M && log' == log + [id])
  {
    var o := Answer(su, heard, i);
    AnswerFacts(su, Run(su, heard).0, i);
    RunStep(su, heard, i);
    var os := Run(su, heard).1;
    assert Events(os + [o]) == Events(os) + [EventOf(o)];
    HistoryAppend(Events(os), EventOf(o));
    if o.Dispatched? {
      forall k | 0 <= k < |o.sent| ensures CarriesOnly(o.sent[k], M) {
        FragmentsCarry(PillBytes(o.pill), o.id, o.sent[k]);
      }
    } else {
      assert Log(su, heard) + [] == Log(su, heard);
    }
  }

  /** How many entries differ from m. */
  function Others(s: seq<Id>, m: Id): nat {
    if s == [] then 0 else (if s[0] == m then 0 else 1) + Others(s[1..], m)
  }

  lemma {:induction false} OthersAtLeast(s: seq<Id>, m: Id, n: nat)
    requires n <= |s| && forall k :: 0 <= k < n ==> s[k] != m
    ensures Others(s, m) >= n
  {
    if n > 0 {
      OthersAtLeast(s[1..], m, n - 1);
    }
  }

  lemma SpacedAtMostOnce(log: seq<Id>, i: nat, j: nat)
    requires Spaced(log, CACHE_CAP) && i <= j < |log| && log[i] == log[j] && Others(log[i + 1..], log[i]) < 16
    ensures i == j
    decreases j
  {
    if i < j {
      if k :| i < k < j && log[k] == log[i] {
        SpacedAtMostOnce(log, i, k);
      } else {
        OthersAtLeast(log[i + 1..], log[i], 16);
      }
    }
  }

  /** A node that dispatches fewer than 16 other ids after a dispatch of m never dispatches m again. */
  lemma AtMostOnce(su: Setup, heard: seq<Input>, i: nat, j: nat)
    requires var log := Log(su, heard);
             i <= j < |log| && log[i] == log[j] && Others(log[i + 1..], log[i]) < 16
    ensures i == j
  {
    RunSummary(su, heard);
    SpacedAtMostOnce(Log(su, heard), i, j);
  }

  function Times(log: seq<Id>, m: Id): nat {
    if log == [] then 0 else Times(log[..|log| - 1], m) + if log[|log| - 1] == m then 1 else 0
  }

  lemma {:induction false} TimesAtMostOne(log: seq<Id>, m: Id)
    requires forall i, j :: 0 <= i <= j < |log| && log[i] == log[j] == m ==> i == j
    ensures Times(log, m) <= 1 && (m !in log ==> Times(log, m) == 0)
  {
    if log != [] {
      TimesAtMostOne(log[..|log| - 1], m);
    }
  }

  /** Dispatches of m, each of which relays it once, over the first k nodes. */
  ghost function TotalTimes(setups: seq<Setup>, heard: seq<seq<Input>>, m: Id, k: nat): nat
    requires k <= |setups| == |heard|
  {
    if k == 0 then 0 else TotalTimes(setups, heard, m, k - 1) + Times(Log(setups[k - 1], heard[k - 1]), m)
  }

  /** No node dispatches 16 or more other ids after dispatching m. */
  ghost predicate Calm(setups: seq<Setup>, heard: seq<seq<Input>>, m: Id)
    requires |setups| == |heard|
  {
    forall i :: 0 <= i < |heard| ==>
      forall k :: 0 <= k < |Log(setups[i], heard[i])| && Log(setups[i], heard[i])[k] == m ==>
        Others(Log(setups[i], heard[i])[k + 1..], m) < 16
  }

  /**
   * Whatever the nodes have heard, if none dispatched 16 or more other ids after m, then m was
   * dispatched and relayed at most once by each, so no more often than there are nodes.
   */
  lemma {:induction false} RelaysBoundedByNodes(setups: seq<Setup>, heard: seq<seq<Input>>, m: Id, k: nat)
    requires k <= |setups| == |heard| && Calm(setups, heard, m)
    ensures TotalTimes(setups, heard, m, k) <= k
  {
    hide Log, Others;
    if k > 0 {
      RelaysBoundedByNodes(setups, heard, m, k - 1);
      CalmNode(setups[k - 1], heard[k - 1], m);
    }
  }

  lemma CalmNode(su: Setup, heard: seq<Input>, m: Id)
    requires var log := Log(su, heard);
             forall k :: 0 <= k < |log| && log[k] == m ==> Others(log[k + 1..], m) < 16
    ensures Times(Log(su, heard), m) <= 1
  {
    hide Run, Others;
    var log := Log(su, heard);
    RunSummary(su, heard);
    forall i, j | 0 <= i <= j < |log| && log[i] == log[j] == m ensures i == j {
      SpacedAtMostOnce(log, i, j);
    }
    TimesAtMostOne(log, m);
  }

  // ---- Few ids ----

  lemma {:induction false} DistinctInSet(s: seq<Id>, M: set<Id>)
    requires Distinct(s) && forall x :: x in s ==> x in M
    ensures |s| <= |M|
  {
    if s != [] {
      var n := |s| - 1;
      DistinctInSet(s[..n], M - {s[n]});
    }
  }

  /** With at most 16 ids about, the replay window never lets one through twice. */
  lemma FewIdsNoRepeats(log: seq<Id>, M: set<Id>)
    requires Spaced(log, CACHE_CAP) && |M| <= 16 && forall x :: x in log ==> x in M
    ensures Distinct(log) && |log| <= |M|
  {
    if |log| > 16 {
      DistinctInSet(log[..17], M);
    }
    DistinctInSet(log, M);
  }

  // ---- The network ----

  /** A frame on its way to one node. */
  datatype Packet = Packet(to: nat, bytes: seq<byte>)

  datatype Topology = Topology(setups: seq<Setup>, peers: seq<seq<nat>>)

  /** What every node has heard so far, and the frames in the air. */
  datatype Net = Net(heard: seq<seq<Input>>, flight: multiset<Packet>)

  datatype Action = Deliver(packet: Packet, env: Env) | Lose(packet: Packet)

  ghost predicate WellFormed(top: Topology, net: Net) {
    && |top.setups| == |top.peers| == |net.heard|
    && (forall i, k :: 0 <= i < |top.peers| && 0 <= k < |top.peers[i]| ==> top.peers[i][k] < |top.peers|)
    && (forall p :: p in net.flight ==> p.to < |net.heard|)
  }

  function Copies(to: nat, frames: seq<seq<byte>>): multiset<Packet> {
    if frames == [] then multiset{} else multiset{Packet(to, frames[0])} + Copies(to, frames[1..])
  }

  /** Every frame, once to each peer. */
  function Broadcast(peers: seq<nat>, frames: seq<seq<byte>>): multiset<Packet> {
    if peers == [] then multiset{} else Copies(peers[0], frames) + Broadcast(peers[1..], frames)
  }

  ghost function Step(top: Topology, net: Net, a: Action): Net
    requires WellFormed(top, net) && a.packet in net.flight
  {
    var rest := net.flight - multiset{a.packet};
    match a
    case Lose(_) => net.(flight := rest)
    case Deliver(p, env) =>
      var i := Input(p.bytes, env);
      Net(net.heard[p.to := net.heard[p.to] + [i]],
          rest + Broadcast(top.peers[p.to], Relay(top.setups[p.to], net.heard[p.to], i)))
  }

  /** Everything in the air, and everything dispatched so far, concerns ids of M. */
  ghost predicate Confined(top: Topology, net: Net, M: set<Id>)
    requires WellFormed(top, net)
  {
    && (forall p :: p in net.flight ==> CarriesOnly(p.bytes, M))
    && (forall i :: 0 <= i < |net.heard| ==> forall x :: x in Log(top.setups[i], net.heard[i]) ==> x in M)
  }

  lemma {:induction false} CopiesFacts(to: nat, frames: seq<seq<byte>>, p: Packet)
    ensures |Copies(to, frames)| == |frames|
    ensures p in Copies(to, frames) ==> p.to == to && p.bytes in frames
  {
    if frames != [] {
      CopiesFacts(to, frames[1..], p);
    }
  }

  lemma {:induction false} BroadcastFacts(peers: seq<nat>, frames: seq<seq<byte>>, p: Packet)
    ensures |Broadcast(peers, frames)| == |peers| * |frames|
    ensures p in Broadcast(peers, frames) ==> p.to in peers && p.bytes in frames
  {
    hide Copies;
    if peers != [] {
      CopiesFacts(peers[0], frames, p);
      BroadcastFacts(peers[1..], frames, p);
      assert |peers| * |frames| == |frames| + (|peers| - 1) * |frames|;
    }
  }

  lemma StepConfined(top: Topology, net: Net, a: Action, M: set<Id>)
    requires WellFormed(top, net) && a.packet in net.flight && Confined(top, net, M)
    ensures WellFormed(top, Step(top, net, a)) && Confined(top, Step(top, net, a), M)
  {
    hide Relay, Log, Broadcast, CarriesOnly;
    var net' := Step(top, net, a);
    if a.Deliver? {
      var to, i := a.packet.to, Input(a.packet.bytes, a.env);
      var out := Relay(top.setups[to], net.heard[to], i);
      NodeStep(top.setups[to], net.heard[to], i, M);
      forall p | p in net'.flight ensures p.to < |net.heard| && CarriesOnly(p.bytes, M) {
        BroadcastFacts(top.peers[to], out, p);
      }
    }
  }

  // ---- Termination ----

  /** How many pills each node has dispatched. */
  ghost function Counts(top: Topology, heard: seq<seq<Input>>): (cs: seq<nat>)
    requires |top.setups| == |heard|
    ensures |cs| == |heard| && forall i :: 0 <= i < |cs| ==> cs[i] == |Log(top.setups[i], heard[i])|
  {
    seq(|heard|, i requires 0 <= i < |heard| => |Log(top.setups[i], heard[i])|)
  }

  /** The dispatches that are still possible when each node can make m. */
  function Remaining(counts: seq<nat>, m: nat): int {
    if counts == [] then 0 else m - counts[0] + Remaining(counts[1..], m)
  }

  lemma {:induction false} RemainingChange(counts: seq<nat>, m: nat, at: nat, c: nat)
    requires at < |counts|
    ensures Remaining(counts[at := c], m) == Remaining(counts, m) + counts[at] - c
  {
    if at > 0 {
      assert counts[at := c][1..] == counts[1..][at - 1 := c];
      RemainingChange(counts[1..], m, at - 1, c);
    } else {
      assert counts[at := c][1..] == counts[1..];
    }
  }

  lemma {:induction false} RemainingBounds(counts: seq<nat>, m: nat)
    requires forall i :: 0 <= i < |counts| ==> counts[i] <= m
    ensures 0 <= Remaining(counts, m) <= |counts| * m
  {
    if counts != [] {
      RemainingBounds(counts[1..], m);
      assert |counts| * m == m + (|counts| - 1) * m;
    }
  }

  lemma NodeCounts(top: Topology, net: Net, M: set<Id>)
    requires WellFormed(top, net) && Confined(top, net, M) && |M| <= 16
    ensures forall i :: 0 <= i < |net.heard| ==> Distinct(Log(top.setups[i], net.heard[i]))
    ensures forall i :: 0 <= i < |net.heard| ==> Counts(top, net.heard)[i] <= |M|
  {
    forall i | 0 <= i < |net.heard|
      ensures Distinct(Log(top.setups[i], net.heard[i])) && |Log(top.setups[i], net.heard[i])| <= |M|
    {
      RunSummary(top.setups[i], net.heard[i]);
      FewIdsNoRepeats(Log(top.setups[i], net.heard[i]), M);
    }
  }

  /** Frames in the air, plus every frame the remaining dispatches could still send. */
  ghost function Potential(top: Topology, net: Net, m: nat, degree: nat): int
    requires WellFormed(top, net)
  {
    |net.flight| + 3 * degree * Remaining(Counts(top, net.heard), m)
  }

  /** A delivery removes one frame; it adds frames only by using up a dispatch. */
  lemma DeliveryEffect(top: Topology, net: Net, p: Packet, env: Env, M: set<Id>, degree: nat)
    requires WellFormed(top, net) && p in net.flight && Confined(top, net, M) && |top.peers[p.to]| <= degree
    ensures var net' := Step(top, net, Deliver(p, env));
            var r := Remaining(Counts(top, net.heard), |M|);
            || (|net'.flight| == |net.flight| - 1 && Remaining(Counts(top, net'.heard), |M|) == r)
            || (|net'.flight| <= |net.flight| - 1 + 3 * degree && Remaining(Counts(top, net'.heard), |M|) == r - 1)
  {
    hide Relay, Log, Broadcast, CarriesOnly, Remaining;
    var to, i := p.to, Input(p.bytes, env);
    var out := Relay(top.setups[to], net.heard[to], i);
    NodeStep(top.setups[to], net.heard[to], i, M);
    BroadcastFacts(top.peers[to], out, p);
    var heard' := net.heard[to := net.heard[to] + [i]];
    var cs, c := Counts(top, net.heard), |Log(top.setups[to], heard'[to])|;
    assert Counts(top, heard') == cs[to := c];
    RemainingChange(cs, |M|, to, c);
    ProductBound(|top.peers[to]|, |out|, degree);
  }

  lemma ProductBound(n: nat, k: nat, degree: nat)
    requires n <= degree && k <= 3
    ensures n * k <= 3 * degree && (k == 0 ==> n * k == 0)
  {
    assert n * k <= n * 3;
  }

  /** Every delivery and every loss lowers the potential. */
  lemma PotentialDrops(top: Topology, net: Net, a: Action, M: set<Id>, degree: nat)
    requires WellFormed(top, net) && a.packet in net.flight && Confined(top, net, M)
    requires forall i :: 0 <= i < |top.peers| ==> |top.peers[i]| <= degree
    requires WellFormed(top, Step(top, net, a))
    ensures Potential(top, Step(top, net, a), |M|, degree) < Potential(top, net, |M|, degree)
  {
    if a.Deliver? {
      DeliveryEffect(top, net, a.packet, a.env, M, degree);
      var net' := Step(top, net, a);
      Traded(|net.flight|, |net'.flight|, Remaining(Counts(top, net.heard), |M|),
             Remaining(Counts(top, net'.heard), |M|), 3 * degree);
    } else {
      assert Step(top, net, a).heard == net.heard;
    }
  }

  lemma Traded(f: int, f': int, r: int, r': int, b: int)
    requires (f' == f - 1 && r' == r) || (f' <= f - 1 + b && r' == r - 1)
    ensures f' + b * r' < f + b * r
  {
    assert b * (r - 1) == b * r - b;
  }

  lemma Exhausted(steps: nat, f: nat, f': nat, r: int, r': nat, b: nat, cap: nat)
    requires f' + b * r' + steps <= f + b * r && r <= cap
    ensures steps <= f + b * cap
  {
    assert b * r <= b * cap && 0 <= b * r';
  }

  ghost predicate Feasible(top: Topology, net: Net, acts: seq<Action>)
    requires WellFormed(top, net)
    decreases acts
  {
    acts == [] || (acts[0].packet in net.flight
                   && WellFormed(top, Step(top, net, acts[0])) && Feasible(top, Step(top, net, acts[0]), acts[1..]))
  }

  ghost function After(top: Topology, net: Net, acts: seq<Action>): (r: Net)
    requires WellFormed(top, net) && Feasible(top, net, acts)
    ensures WellFormed(top, r)
    decreases acts
  {
    if acts == [] then net else After(top, Step(top, net, acts[0]), acts[1..])
  }

  lemma {:induction false} PotentialOverRun(top: Topology, net: Net, acts: seq<Action>, M: set<Id>, degree: nat)
    requires WellFormed(top, net) && Feasible(top, net, acts) && Confined(top, net, M)
    requires forall i :: 0 <= i < |top.peers| ==> |top.peers[i]| <= degree
    ensures Confined(top, After(top, net, acts), M)
    ensures Potential(top, After(top, net, acts), |M|, degree) + |acts| <= Potential(top, net, |M|, degree)
    decreases acts
  {
    if acts != [] {
      StepConfined(top, net, acts[0], M);
      PotentialDrops(top, net, acts[0], M, degree);
      PotentialOverRun(top, Step(top, net, acts[0]), acts[1..], M, degree);
    }
  }

  /**
   * The flood terminates. With at most 16 message ids about, in every run of any network each
   * Guardian dispatches, and hence relays, each id at most once, and the run is no longer than the
   * frames in the air plus three frames to each peer for every node and id.
   */
  lemma FloodTerminates(top: Topology, net: Net, acts: seq<Action>, M: set<Id>, degree: nat)
    requires WellFormed(top, net) && Feasible(top, net, acts) && Confined(top, net, M) && |M| <= 16
    requires forall i :: 0 <= i < |top.peers| ==> |top.peers[i]| <= degree
    ensures |acts| <= |net.flight| + 3 * degree * (|net.heard| * |M|)
    ensures var end := After(top, net, acts);
            forall i :: 0 <= i < |end.heard| ==> Distinct(Log(top.setups[i], end.heard[i]))
  {
    PotentialOverRun(top, net, acts, M, degree);
    var end := After(top, net, acts);
    NodeCounts(top, net, M);
    NodeCounts(top, end, M);
    RemainingBounds(Counts(top, net.heard), |M|);
    RemainingBounds(Counts(top, end.heard), |M|);
    Exhausted(|acts|, |net.flight|, |end.flight|, Remaining(Counts(top, net.heard), |M|),
              Remaining(Counts(top, end.heard), |M|), 3 * degree, |net.heard| * |M|);
  }
}
