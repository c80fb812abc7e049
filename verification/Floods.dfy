/** The flood of one message among any others, with new frames entering the air at any time. */
module Floods {
  import opened Bytes
  import opened Frames
  import opened Guardians
  import opened Network

  /** A step of the network, or a frame put in the air by an issuer, an echo or a stranger. */
  datatype Move = Air(action: Action) | Inject(packet: Packet)

  predicate Carries(bytes: seq<byte>, m: Id) { Decode(bytes).Ok? && Decode(bytes).value.id == m }

  function Weight(p: Packet, m: Id): nat { if Carries(p.bytes, m) then 1 else 0 }

  // ---- Frames of m in the air ----

  ghost function Carrying(flight: multiset<Packet>, m: Id): nat {
    if flight == multiset{} then 0
    else
      var p :| p in flight;
      Weight(p, m) + Carrying(flight - multiset{p}, m)
  }

  lemma CarryingPick(flight: multiset<Packet>, m: Id) returns (q: Packet)
    requires flight != multiset{}
    ensures q in flight && Carrying(flight, m) == Weight(q, m) + Carrying(flight - multiset{q}, m)
  {
    q :| q in flight && Carrying(flight, m) == Weight(q, m) + Carrying(flight - multiset{q}, m);
  }

  lemma {:induction false} CarryingWithout(flight: multiset<Packet>, p: Packet, m: Id)
    requires p in flight
    ensures Carrying(flight, m) == Weight(p, m) + Carrying(flight - multiset{p}, m)
    decreases |flight|
  {
    hide Weight, Carrying;
    var q := CarryingPick(flight, m);
    if q != p {
      CarryingWithout(flight - multiset{q}, p, m);
      CarryingWithout(flight - multiset{p}, q, m);
      assert flight - multiset{q} - multiset{p} == flight - multiset{p} - multiset{q};
    }
  }

  lemma {:induction false} CarryingSum(a: multiset<Packet>, b: multiset<Packet>, m: Id)
    ensures Carrying(a + b, m) == Carrying(a, m) + Carrying(b, m)
    decreases |b|
  {
    hide Weight;
    if b == multiset{} {
      assert a + b == a;
    } else {
      var p :| p in b;
      CarryingSum(a, b - multiset{p}, m);
      CarryingWithout(b, p, m);
      CarryingWithout(a + b, p, m);
      assert a + b - multiset{p} == a + (b - multiset{p});
    }
  }

  lemma {:induction false} CarryingBounds(flight: multiset<Packet>, m: Id)
    ensures Carrying(flight, m) <= |flight|
    ensures (forall p :: p in flight ==> !Carries(p.bytes, m)) ==> Carrying(flight, m) == 0
    decreases |flight|
  {
    hide Carries;
    if flight != multiset{} {
      var p :| p in flight;
      CarryingWithout(flight, p, m);
      CarryingBounds(flight - multiset{p}, m);
    }
  }

  // ---- One delivery ----

  /** The ids a frame can concern: its own, or none when it is not readable. */
  function IdsOf(bytes: seq<byte>): set<Id> {
    match Decode(bytes)
    case Ok(f) => {f.id}
    case Err(_) => {}
  }

  lemma TimesAppend(log: seq<Id>, id: Id, m: Id)
    ensures Times(log + [id], m) == Times(log, m) + if id == m then 1 else 0
  {
    assert (log + [id])[..|log|] == log;
  }

  /** Only a frame of m makes a node dispatch m or relay frames of m, and it relays only when it dispatches. */
  lemma NodeAnswersInKind(su: Setup, heard: seq<Input>, i: Input, m: Id)
    ensures var t, t' := Times(Log(su, heard), m), Times(Log(su, heard + [i]), m);
            var out := Relay(su, heard, i);
            && |out| <= 3
            && (!Carries(i.bytes, m) ==> t' == t && forall k :: 0 <= k < |out| ==> !Carries(out[k], m))
            && (Carries(i.bytes, m) ==> (t' == t && out == []) || t' == t + 1)
  {
    hide Log, Relay, Decode, Times;
    NodeStep(su, heard, i, IdsOf(i.bytes));
    if id :| id in IdsOf(i.bytes) && Log(su, heard + [i]) == Log(su, heard) + [id] {
      TimesAppend(Log(su, heard), id, m);
    }
  }

  /** How often each node has dispatched m. */
  ghost function TimesOf(top: Topology, heard: seq<seq<Input>>, m: Id): (cs: seq<nat>)
    requires |top.setups| == |heard|
    ensures |cs| == |heard| && forall i :: 0 <= i < |cs| ==> cs[i] == Times(Log(top.setups[i], heard[i]), m)
  {
    seq(|heard|, i requires 0 <= i < |heard| => Times(Log(top.setups[i], heard[i]), m))
  }

  /** Frames of m in the air, plus every frame the dispatches of m still to come could send. */
  ghost function Pressure(top: Topology, net: Net, m: Id, degree: nat): int
    requires WellFormed(top, net)
  {
    Carrying(net.flight, m) + 3 * degree * Remaining(TimesOf(top, net.heard, m), 1)
  }

  lemma FlightAfterDelivery(top: Topology, net: Net, p: Packet, env: Env, m: Id)
    requires WellFormed(top, net) && p in net.flight
    ensures var out := Relay(top.setups[p.to], net.heard[p.to], Input(p.bytes, env));
            Carrying(Step(top, net, Deliver(p, env)).flight, m)
            == Carrying(net.flight, m) - Weight(p, m) + Carrying(Broadcast(top.peers[p.to], out), m)
  {
    hide Relay, Weight, Broadcast, Carrying;
    var out := Relay(top.setups[p.to], net.heard[p.to], Input(p.bytes, env));
    CarryingWithout(net.flight, p, m);
    CarryingSum(net.flight - multiset{p}, Broadcast(top.peers[p.to], out), m);
  }

  lemma BroadcastCarrying(peers: seq<nat>, out: seq<seq<byte>>, m: Id, degree: nat)
    requires |peers| <= degree && |out| <= 3
    ensures var c := Carrying(Broadcast(peers, out), m);
            && c <= 3 * degree && (out == [] ==> c == 0)
            && ((forall k :: 0 <= k < |out| ==> !Carries(out[k], m)) ==> c == 0)
  {
    hide Carrying, Broadcast, Carries;
    var sent := Broadcast(peers, out);
    CarryingBounds(sent, m);
    BroadcastFacts(peers, out, Packet(0, []));
    ProductBound(|peers|, |out|, degree);
    if forall k :: 0 <= k < |out| ==> !Carries(out[k], m) {
      forall p | p in sent ensures !Carries(p.bytes, m) {
        BroadcastFacts(peers, out, p);
      }
    }
  }

  lemma TimesAfterDelivery(top: Topology, net: Net, p: Packet, env: Env, m: Id)
    requires WellFormed(top, net) && p in net.flight
    ensures var to, i := p.to, Input(p.bytes, env);
            Remaining(TimesOf(top, Step(top, net, Deliver(p, env)).heard, m), 1)
            == Remaining(TimesOf(top, net.heard, m), 1)
               + Times(Log(top.setups[to], net.heard[to]), m) - Times(Log(top.setups[to], net.heard[to] + [i]), m)
  {
    hide Relay, Log, Times, Broadcast, Remaining;
    var to, i := p.to, Input(p.bytes, env);
    var heard' := net.heard[to := net.heard[to] + [i]];
    var cs, c := TimesOf(top, net.heard, m), Times(Log(top.setups[to], heard'[to]), m);
    assert TimesOf(top, heard', m) == cs[to := c];
    RemainingChange(cs, 1, to, c);
  }

  /** Delivering or losing a frame of m lowers the pressure; any other frame leaves it alone. */
  lemma ActionReleases(top: Topology, net: Net, a: Action, m: Id, degree: nat)
    requires WellFormed(top, net) && a.packet in net.flight && WellFormed(top, Step(top, net, a))
    requires forall i :: 0 <= i < |top.peers| ==> |top.peers[i]| <= degree
    ensures Pressure(top, Step(top, net, a), m, degree) + Weight(a.packet, m) <= Pressure(top, net, m, degree)
  {
    hide Relay, Log, Times, Broadcast, Remaining, Carrying, Carries;
    var p := a.packet;
    if a.Deliver? {
      var i := Input(p.bytes, a.env);
      var out := Relay(top.setups[p.to], net.heard[p.to], i);
      NodeAnswersInKind(top.setups[p.to], net.heard[p.to], i, m);
      BroadcastCarrying(top.peers[p.to], out, m, degree);
      FlightAfterDelivery(top, net, p, a.env, m);
      TimesAfterDelivery(top, net, p, a.env, m);
      var r := Remaining(TimesOf(top, net.heard, m), 1);
      assert 3 * degree * (r - 1) == 3 * degree * r - 3 * degree;
    } else {
      CarryingWithout(net.flight, p, m);
      assert Step(top, net, a).heard == net.heard;
    }
  }

  // ---- Runs ----

  ghost function MoveOn(top: Topology, net: Net, mv: Move): Net
    requires WellFormed(top, net) && Possible(net, mv)
  {
    match mv
    case Air(a) => Step(top, net, a)
    case Inject(p) => net.(flight := net.flight + multiset{p})
  }

  predicate Possible(net: Net, mv: Move) {
    match mv
    case Air(a) => a.packet in net.flight
    case Inject(p) => p.to < |net.heard|
  }

  ghost predicate Runs(top: Topology, net: Net, moves: seq<Move>)
    requires WellFormed(top, net)
    decreases moves
  {
    moves == [] || (Possible(net, moves[0]) && WellFormed(top, MoveOn(top, net, moves[0]))
                    && Runs(top, MoveOn(top, net, moves[0]), moves[1..]))
  }

  ghost function End(top: Topology, net: Net, moves: seq<Move>): (r: Net)
    requires WellFormed(top, net) && Runs(top, net, moves)
    ensures WellFormed(top, r) && |r.heard| == |net.heard|
    decreases moves
  {
    if moves == [] then net else End(top, MoveOn(top, net, moves[0]), moves[1..])
  }

  /** The frames of m delivered or lost in the run. */
  function Spent(moves: seq<Move>, m: Id): nat
    decreases moves
  {
    if moves == [] then 0 else (if moves[0].Air? then Weight(moves[0].action.packet, m) else 0) + Spent(moves[1..], m)
  }

  /** The frames of m put in the air from outside. */
  function Injected(moves: seq<Move>, m: Id): nat
    decreases moves
  {
    if moves == [] then 0 else (if moves[0].Inject? then Weight(moves[0].packet, m) else 0) + Injected(moves[1..], m)
  }

  lemma MoveReleases(top: Topology, net: Net, mv: Move, m: Id, degree: nat)
    requires WellFormed(top, net) && Possible(net, mv) && WellFormed(top, MoveOn(top, net, mv))
    requires forall i :: 0 <= i < |top.peers| ==> |top.peers[i]| <= degree
    ensures Pressure(top, MoveOn(top, net, mv), m, degree) + Spent([mv], m)
            <= Pressure(top, net, m, degree) + Injected([mv], m)
  {
    hide Carrying, Remaining, TimesOf, Step, Weight;
    assert Spent([], m) == 0 && Injected([], m) == 0;
    match mv
    case Air(a) => ActionReleases(top, net, a, m, degree);
    case Inject(p) =>
      CarryingWithout(net.flight + multiset{p}, p, m);
      assert net.flight + multiset{p} - multiset{p} == net.flight;
  }

  lemma {:induction false} PressureOverRun(top: Topology, net: Net, moves: seq<Move>, m: Id, degree: nat)
    requires WellFormed(top, net) && Runs(top, net, moves)
    requires forall i :: 0 <= i < |top.peers| ==> |top.peers[i]| <= degree
    ensures Pressure(top, End(top, net, moves), m, degree) + Spent(moves, m)
            <= Pressure(top, net, m, degree) + Injected(moves, m)
    decreases moves
  {
    hide Pressure, MoveOn, WellFormed;
    if moves != [] {
      var mv := moves[0];
      MoveReleases(top, net, mv, m, degree);
      PressureOverRun(top, MoveOn(top, net, mv), moves[1..], m, degree);
      assert Spent(moves, m) == Spent([mv], m) + Spent(moves[1..], m);
      assert Injected(moves, m) == Injected([mv], m) + Injected(moves[1..], m);
    }
  }

  lemma {:induction false} RemainingAtMost(counts: seq<nat>, m: nat)
    ensures Remaining(counts, m) <= |counts| * m
  {
    if counts != [] {
      RemainingAtMost(counts[1..], m);
      assert |counts| * m == m + (|counts| - 1) * m;
    }
  }

  /**
   * The flood of one message terminates. In every run, among any other traffic, in which no Guardian
   * dispatches 16 or more other ids after m, each Guardian dispatches m at most once, and the frames
   * of m ever delivered or lost are at most those in the air at first, those injected, and three to
   * each peer for every Guardian.
   */
  lemma FloodOfOneTerminates(top: Topology, net: Net, moves: seq<Move>, m: Id, degree: nat)
    requires WellFormed(top, net) && Runs(top, net, moves)
    requires forall i :: 0 <= i < |top.peers| ==> |top.peers[i]| <= degree
    requires Calm(top.setups, End(top, net, moves).heard, m)
    ensures Spent(moves, m) <= Carrying(net.flight, m) + Injected(moves, m) + 3 * degree * |net.heard|
    ensures var end := End(top, net, moves);
            forall i :: 0 <= i < |end.heard| ==> Times(Log(top.setups[i], end.heard[i]), m) <= 1
  {
    hide Carrying, Remaining, Log, Times, Others, Runs;
    var end := End(top, net, moves);
    forall i | 0 <= i < |end.heard| ensures Times(Log(top.setups[i], end.heard[i]), m) <= 1 {
      CalmNode(top.setups[i], end.heard[i], m);
    }
    PressureOverRun(top, net, moves, m, degree);
    RemainingAtMost(TimesOf(top, net.heard, m), 1);
    RemainingBounds(TimesOf(top, end.heard, m), 1);
    Exhausted(Spent(moves, m), Carrying(net.flight, m) + Injected(moves, m), Carrying(end.flight, m),
              Remaining(TimesOf(top, net.heard, m), 1), Remaining(TimesOf(top, end.heard, m), 1), 3 * degree,
              |net.heard|);
  }
}
