/** How far a flood carries: without loss, every Guardian that can be reached dispatches the pill. */
module Reach {
  import opened Bytes
  import opened History
  import opened Frames
  import opened Reassembly
  import opened Pills
  import opened Guardians
  import opened Deliveries
  import opened Network
  import opened Floods

  /** The message is a pill, and m is its digest for this Guardian. */
  predicate IsPill(su: Setup, m: Id, message: seq<byte>) {
    |message| == PILL_LEN && InnerId(su.crypto, ReadPill(message)) == m
  }

  const PILL_FRAGS: nat := FragCount(PILL_LEN)

  /** The bytes of one fragment of the pill. */
  function Frag(m: Id, message: seq<byte>, x: nat): seq<byte>
    requires |message| == PILL_LEN && x < PILL_FRAGS
  {
    Encode(FragmentAt(message, m, x))
  }

  /** Frames that carry m are fragments of the message. */
  predicate TrueTo(bytes: seq<byte>, m: Id, message: seq<byte>)
    requires |message| == PILL_LEN
  {
    Carries(bytes, m) ==> IsFragment(Decode(bytes).value, message)
  }

  // ---- One Guardian that hears every fragment ----

  ghost predicate GenuineInputs(inputs: seq<Input>, m: Id, message: seq<byte>)
    requires |message| == PILL_LEN
  {
    forall k :: 0 <= k < |inputs| ==> TrueTo(inputs[k].bytes, m, message)
  }

  ghost predicate HeardFrag(inputs: seq<Input>, m: Id, message: seq<byte>, x: nat)
    requires |message| == PILL_LEN && x < PILL_FRAGS
  {
    exists k :: 0 <= k < |inputs| && inputs[k].bytes == Frag(m, message, x)
  }

  lemma {:induction false} ReachedIsGenuine(su: Setup, inputs: seq<Input>, m: Id, message: seq<byte>)
    requires |message| == PILL_LEN && GenuineInputs(inputs, m, message)
    ensures GenuineFor(Reached(su, inputs), m, message)
  {
    hide Run, Decode, IsFragment;
    if inputs != [] {
      var n := |inputs| - 1;
      ReachedIsGenuine(su, inputs[..n], m, message);
      assert TrueTo(inputs[n].bytes, m, message);
    }
  }

  lemma {:induction false} NeverWhole(frames: seq<Frame>, id: Id, n: nat)
    requires n > 0
    ensures Progress(frames, id, n) != AllIndices(n)
  {
    if frames == [] {
      assert 0 in AllIndices(n);
    } else {
      NeverWhole(frames[..|frames| - 1], id, n);
    }
  }

  /** An id that was never dispatched is not in the ring. */
  lemma UndispatchedIsUnseen(su: Setup, inputs: seq<Input>, m: Id)
    requires m !in Log(su, inputs)
    ensures m !in Run(su, inputs).0.seen
  {
    hide Run;
    RunSummary(su, inputs);
    SeenWasDispatched(Run(su, inputs).0.seen, Run(su, inputs).0.cache, Events(Run(su, inputs).1), m);
  }

  lemma SeenWasDispatched(seen: seq<Id>, cache: seq<Id>, es: seq<Event>, m: Id)
    requires Explained(seen, cache, es) && m !in Dispatches(es)
    ensures m !in seen
  {
    LogIsDispatches(es, m);
  }

  lemma {:induction false} LogIsDispatches(es: seq<Event>, m: Id)
    requires m !in Dispatches(es)
    ensures m !in AddLog(es)
  {
    if es != [] {
      LogIsDispatches(es[..|es| - 1], m);
    }
  }

  lemma LogStep(su: Setup, inputs: seq<Input>, i: Input)
    ensures var o := Answer(su, inputs, i);
            Log(su, inputs + [i]) == Log(su, inputs) + if o.Dispatched? then [o.id] else []
  {
    hide Receive, Run;
    var o, os := Answer(su, inputs, i), Run(su, inputs).1;
    RunStep(su, inputs, i);
    assert Events(os + [o]) == Events(os) + [EventOf(o)];
    HistoryAppend(Events(os), EventOf(o));
  }

  lemma ReachedStep(su: Setup, inputs: seq<Input>, i: Input)
    ensures Reached(su, inputs + [i]) == Reached(su, inputs) + FrameOf(Run(su, inputs).0, i.bytes)
  {
    hide Run, FrameOf;
    assert (inputs + [i])[..|inputs|] == inputs;
  }

  lemma RoomBefore(frames: seq<Frame>, more: seq<Frame>)
    requires AllInBounds(frames) && AllInBounds(more) && AtMostFour(frames + more) && |more| <= 1
    ensures AtMostFour(frames)
  {
    hide Busy;
    if more == [] {
      assert frames + more == frames;
    } else {
      PrefixFits(frames + more, |frames|);
      assert (frames + more)[..|frames|] == frames;
    }
  }

  /** A frame of m that reaches the pool is answered as its progress says. */
  lemma FrameIsAnswered(su: Setup, inputs: seq<Input>, i: Input, m: Id, message: seq<byte>)
    requires IsPill(su, m, message) && GenuineInputs(inputs, m, message) && TrueTo(i.bytes, m, message)
    requires Carries(i.bytes, m) && m !in Run(su, inputs).0.seen && AtMostFour(Reached(su, inputs + [i]))
    ensures var f, got := Decode(i.bytes).value, Progress(Reached(su, inputs), m, PILL_FRAGS);
            && Reached(su, inputs + [i]) == Reached(su, inputs) + [f]
            && Answers(su, m, Expected(got, f.index, message), Answer(su, inputs, i))
  {
    hide Run, Receive, Decode, AtMostFour, Progress, Expected, Reached, IsFragment;
    ReachedStep(su, inputs, i);
    ReachedIsGenuine(su, inputs, m, message);
    DecodedInBounds(i.bytes);
    LastFragmentDispatches(su, inputs, i, message);
  }

  /** What a dispatch of m answers: a frame of m, with the very message. */
  lemma DispatchIsTheMessage(su: Setup, inputs: seq<Input>, i: Input, m: Id, message: seq<byte>)
    requires IsPill(su, m, message) && GenuineInputs(inputs, m, message) && TrueTo(i.bytes, m, message)
    requires AtMostFour(Reached(su, inputs + [i])) && Answer(su, inputs, i).Dispatched? && Answer(su, inputs, i).id == m
    ensures PillBytes(Answer(su, inputs, i).pill) == message && Carries(i.bytes, m)
  {
    hide Run, Receive, Decode, AtMostFour, Progress, Reached, IsFragment, InnerId, PillBytes;
    AnswerFacts(su, Run(su, inputs).0, i);
    if m in Run(su, inputs).0.seen {
      SeenIsIgnored(su, inputs, i, m);
    } else {
      FrameIsAnswered(su, inputs, i, m, message);
    }
  }

  lemma SeenIsIgnored(su: Setup, inputs: seq<Input>, i: Input, m: Id)
    requires Carries(i.bytes, m) && m in Run(su, inputs).0.seen
    ensures !Answer(su, inputs, i).Dispatched?
  {
    hide Run, Receive, Decode;
    ReceiveIgnores(su, Run(su, inputs).0, i.bytes, i.env);
  }

  /** Until m is dispatched, the pool has every fragment of it that was heard. */
  ghost predicate Gathered(su: Setup, inputs: seq<Input>, m: Id, message: seq<byte>)
    requires |message| == PILL_LEN
  {
    m in Log(su, inputs) ||
    forall x: nat :: x < PILL_FRAGS && HeardFrag(inputs, m, message, x) ==>
      x in Progress(Reached(su, inputs), m, PILL_FRAGS)
  }

  lemma HeardOneMore(inputs: seq<Input>, i: Input, m: Id, message: seq<byte>, x: nat)
    requires |message| == PILL_LEN && x < PILL_FRAGS && HeardFrag(inputs + [i], m, message, x)
    ensures HeardFrag(inputs, m, message, x)
            || (Carries(i.bytes, m) && Decode(i.bytes).value.index == x)
  {
    var k :| 0 <= k < |inputs + [i]| && (inputs + [i])[k].bytes == Frag(m, message, x);
    if k < |inputs| {
      assert inputs[k].bytes == Frag(m, message, x);
    } else {
      DecodeEncode(FragmentAt(message, m, x));
    }
  }

  lemma GatherOneMore(su: Setup, inputs: seq<Input>, i: Input, m: Id, message: seq<byte>)
    requires IsPill(su, m, message) && GenuineInputs(inputs + [i], m, message) && AtMostFour(Reached(su, inputs + [i]))
    requires Gathered(su, inputs, m, message)
    ensures Gathered(su, inputs + [i], m, message)
  {
    hide Run, Receive, Decode, AtMostFour, Reached, IsFragment, HeardFrag, Log;
    LogStep(su, inputs, i);
    if m !in Log(su, inputs + [i]) {
      assert (inputs + [i])[|inputs|] == i && forall k :: 0 <= k < |inputs| ==> (inputs + [i])[k] == inputs[k];
      UndispatchedIsUnseen(su, inputs, m);
      var frames := Reached(su, inputs);
      if Carries(i.bytes, m) {
        var f := Decode(i.bytes).value;
        FrameIsAnswered(su, inputs, i, m, message);
        assert (frames + [f])[..|frames|] == frames;
      } else {
        OtherFrame(su, inputs, i, m);
      }
      forall x: nat | x < PILL_FRAGS && HeardFrag(inputs + [i], m, message, x)
        ensures x in Progress(Reached(su, inputs + [i]), m, PILL_FRAGS)
      {
        HeardOneMore(inputs, i, m, message, x);
      }
    }
  }

  lemma OtherFrame(su: Setup, inputs: seq<Input>, i: Input, m: Id)
    requires !Carries(i.bytes, m)
    ensures Progress(Reached(su, inputs + [i]), m, PILL_FRAGS) == Progress(Reached(su, inputs), m, PILL_FRAGS)
  {
    hide Run, Decode, Reached;
    ReachedStep(su, inputs, i);
    var frames, fs := Reached(su, inputs), FrameOf(Run(su, inputs).0, i.bytes);
    if fs == [] {
      assert frames + fs == frames;
    } else {
      assert (frames + fs)[..|frames|] == frames;
    }
  }

  lemma {:induction false} HeardIsGathered(su: Setup, inputs: seq<Input>, m: Id, message: seq<byte>)
    requires IsPill(su, m, message) && GenuineInputs(inputs, m, message) && AtMostFour(Reached(su, inputs))
    ensures Gathered(su, inputs, m, message)
  {
    hide Run, Decode, AtMostFour, Reached, Gathered, FrameOf;
    if inputs == [] {
      NothingIsGathered(su, m, message);
    } else {
      var n := |inputs| - 1;
      var before, i := inputs[..n], inputs[n];
      assert before + [i] == inputs;
      ReachedStep(su, before, i);
      RoomBefore(Reached(su, before), FrameOf(Run(su, before).0, i.bytes));
      HeardIsGathered(su, before, m, message);
      GatherOneMore(su, before, i, m, message);
    }
  }

  lemma NothingIsGathered(su: Setup, m: Id, message: seq<byte>)
    requires |message| == PILL_LEN
    ensures Gathered(su, [], m, message)
  {
  }

  /**
   * A Guardian that has heard every fragment of a pill, in any order and among any traffic that left
   * it a slot, has dispatched the pill.
   */
  lemma HearingAllDispatches(su: Setup, inputs: seq<Input>, m: Id, message: seq<byte>)
    requires IsPill(su, m, message) && GenuineInputs(inputs, m, message) && AtMostFour(Reached(su, inputs))
    requires forall x: nat :: x < PILL_FRAGS ==> HeardFrag(inputs, m, message, x)
    ensures m in Log(su, inputs)
  {
    hide Run, AtMostFour, Reached, Log, HeardFrag, Progress;
    HeardIsGathered(su, inputs, m, message);
    if m !in Log(su, inputs) {
      var got := Progress(Reached(su, inputs), m, PILL_FRAGS);
      WithinBounds(su, inputs, m, message);
      assert got == AllIndices(PILL_FRAGS);
      NeverWhole(Reached(su, inputs), m, PILL_FRAGS);
    }
  }

  lemma WithinBounds(su: Setup, inputs: seq<Input>, m: Id, message: seq<byte>)
    requires |message| == PILL_LEN && GenuineInputs(inputs, m, message)
    ensures Progress(Reached(su, inputs), m, PILL_FRAGS) <= AllIndices(PILL_FRAGS)
  {
    ReachedIsGenuine(su, inputs, m, message);
    ProgressWithin(Reached(su, inputs), m, message);
  }

  lemma {:induction false} ProgressWithin(frames: seq<Frame>, m: Id, message: seq<byte>)
    requires |message| == PILL_LEN && GenuineFor(frames, m, message)
    ensures Progress(frames, m, PILL_FRAGS) <= AllIndices(PILL_FRAGS)
  {
    if frames != [] {
      var n := |frames| - 1;
      ProgressWithin(frames[..n], m, message);
      if frames[n].id == m {
        assert IsFragment(frames[n], message);
      }
    }
  }

  // ---- The network ----

  ghost predicate AllTrue(net: Net, m: Id, message: seq<byte>)
    requires |message| == PILL_LEN
  {
    && (forall p :: p in net.flight ==> TrueTo(p.bytes, m, message))
    && (forall i :: 0 <= i < |net.heard| ==> GenuineInputs(net.heard[i], m, message))
  }

  /** Fragment x is on its way to node j, or node j has heard it. */
  ghost predicate Pending(net: Net, j: nat, m: Id, message: seq<byte>, x: nat)
    requires |message| == PILL_LEN && x < PILL_FRAGS && j < |net.heard|
  {
    Packet(j, Frag(m, message, x)) in net.flight || HeardFrag(net.heard[j], m, message, x)
  }

  ghost predicate Owed(net: Net, j: nat, m: Id, message: seq<byte>)
    requires |message| == PILL_LEN && j < |net.heard|
  {
    forall x: nat :: x < PILL_FRAGS ==> Pending(net, j, m, message, x)
  }

  /** Every peer of a node that has dispatched m is owed the pill. */
  ghost predicate Spreads(top: Topology, net: Net, m: Id, message: seq<byte>)
    requires |message| == PILL_LEN && WellFormed(top, net)
  {
    forall i, k :: 0 <= i < |net.heard| && 0 <= k < |top.peers[i]| && m in Log(top.setups[i], net.heard[i]) ==>
      Owed(net, top.peers[i][k], m, message)
  }

  /** No frame of m is lost or refused by a radio, and none is made up. */
  predicate Faithful(mv: Move, m: Id, message: seq<byte>)
    requires |message| == PILL_LEN
  {
    match mv
    case Inject(p) => TrueTo(p.bytes, m, message)
    case Air(Lose(p)) => !Carries(p.bytes, m)
    case Air(Deliver(p, env)) => Carries(p.bytes, m) ==> env.accepted >= PILL_FRAGS
  }

  /** No node finds four other ids busy. */
  ghost predicate Roomy(top: Topology, net: Net)
    requires WellFormed(top, net)
  {
    forall i :: 0 <= i < |net.heard| ==> AtMostFour(Reached(top.setups[i], net.heard[i]))
  }

  ghost predicate FaithfulRun(top: Topology, net: Net, moves: seq<Move>, m: Id, message: seq<byte>)
    requires |message| == PILL_LEN && WellFormed(top, net) && Runs(top, net, moves)
    decreases moves
  {
    && Roomy(top, net)
    && (moves == [] ||
        (&& Faithful(moves[0], m, message)
         && FaithfulRun(top, MoveOn(top, net, moves[0]), moves[1..], m, message)))
  }

  ghost predicate PillEverywhere(top: Topology, m: Id, message: seq<byte>) {
    |message| == PILL_LEN && forall i :: 0 <= i < |top.setups| ==> IsPill(top.setups[i], m, message)
  }

  // ---- What a step keeps ----

  lemma HeardStays(inputs: seq<Input>, i: Input, m: Id, message: seq<byte>, x: nat)
    requires |message| == PILL_LEN && x < PILL_FRAGS
    ensures HeardFrag(inputs, m, message, x) || i.bytes == Frag(m, message, x) ==>
            HeardFrag(inputs + [i], m, message, x)
  {
    if HeardFrag(inputs, m, message, x) {
      var k :| 0 <= k < |inputs| && inputs[k].bytes == Frag(m, message, x);
      assert (inputs + [i])[k].bytes == Frag(m, message, x);
    } else {
      assert (inputs + [i])[|inputs|] == i;
    }
  }

  lemma FragCarries(m: Id, message: seq<byte>, x: nat)
    requires |message| == PILL_LEN && x < PILL_FRAGS
    ensures Carries(Frag(m, message, x), m) && TrueTo(Frag(m, message, x), m, message)
  {
    DecodeEncode(FragmentAt(message, m, x));
  }

  /** What is owed to a node stays owed, whatever faithful move is made. */
  lemma OwedStays(top: Topology, net: Net, mv: Move, j: nat, m: Id, message: seq<byte>)
    requires |message| == PILL_LEN && WellFormed(top, net) && Possible(net, mv) && Faithful(mv, m, message)
    requires j < |net.heard| && Owed(net, j, m, message)
    ensures Owed(MoveOn(top, net, mv), j, m, message)
  {
    hide Frag, HeardFrag, Relay, Broadcast, Carries;
    forall x: nat | x < PILL_FRAGS ensures Pending(MoveOn(top, net, mv), j, m, message, x) {
      assert Pending(net, j, m, message, x);
      FragCarries(m, message, x);
      if mv.Air? && mv.action.Deliver? && mv.action.packet.to == j {
        HeardStays(net.heard[j], Input(mv.action.packet.bytes, mv.action.env), m, message, x);
      }
    }
  }

  lemma {:induction false} CopiesHold(to: nat, frames: seq<seq<byte>>, k: nat)
    requires k < |frames|
    ensures Packet(to, frames[k]) in Copies(to, frames)
  {
    if k > 0 {
      CopiesHold(to, frames[1..], k - 1);
    }
  }

  lemma {:induction false} BroadcastHolds(peers: seq<nat>, frames: seq<seq<byte>>, j: nat, k: nat)
    requires j < |peers| && k < |frames|
    ensures Packet(peers[j], frames[k]) in Broadcast(peers, frames)
  {
    hide Copies;
    if j == 0 {
      CopiesHold(peers[0], frames, k);
    } else {
      BroadcastHolds(peers[1..], frames, j - 1, k);
    }
  }

  /** A dispatch of m by a node whose radio takes everything sends every fragment of the message. */
  lemma DispatchRelaysAll(su: Setup, inputs: seq<Input>, i: Input, m: Id, message: seq<byte>)
    requires IsPill(su, m, message) && GenuineInputs(inputs, m, message) && TrueTo(i.bytes, m, message)
    requires AtMostFour(Reached(su, inputs + [i])) && Answer(su, inputs, i).Dispatched? && Answer(su, inputs, i).id == m
    requires i.env.accepted >= PILL_FRAGS
    ensures Relay(su, inputs, i) == Fragments(message, m)
  {
    hide Run, Receive, Decode, AtMostFour, Reached, IsFragment, InnerId, PillBytes, Fragments;
    DispatchIsTheMessage(su, inputs, i, m, message);
    SentAll(su, Run(su, inputs).0, i);
  }

  lemma SentAll(su: Setup, g: Guardian, i: Input)
    requires GuardianOk(g) && i.env.accepted >= PILL_FRAGS
    ensures var o := Receive(su, g, i.bytes, i.env).1; o.Dispatched? ==> o.sent == Fragments(PillBytes(o.pill), o.id)
  {
    hide Accept, Decode, Process, InnerId, PillBytes, PoolOk, ReadPill;
  }

  lemma RelayIsTrue(su: Setup, inputs: seq<Input>, i: Input, m: Id, message: seq<byte>, bytes: seq<byte>)
    requires IsPill(su, m, message) && GenuineInputs(inputs, m, message) && TrueTo(i.bytes, m, message)
    requires AtMostFour(Reached(su, inputs + [i])) && bytes in Relay(su, inputs, i)
    ensures TrueTo(bytes, m, message)
  {
    hide Run, Receive, Decode, AtMostFour, Reached, InnerId, PillBytes, Fragments;
    var o := Answer(su, inputs, i);
    AnswerFacts(su, Run(su, inputs).0, i);
    var k :| 0 <= k < |o.sent| && o.sent[k] == bytes;
    FragmentsCarry(PillBytes(o.pill), o.id, bytes);
    if o.id == m {
      DispatchIsTheMessage(su, inputs, i, m, message);
      FragmentIsTrue(message, m, bytes);
    }
  }

  lemma FragmentIsTrue(message: seq<byte>, m: Id, bytes: seq<byte>)
    requires |message| == PILL_LEN && bytes in Fragments(message, m)
    ensures TrueTo(bytes, m, message)
  {
    var k :| 0 <= k < FragCount(|message|) && bytes == Fragments(message, m)[k];
    DecodeEncode(FragmentAt(message, m, k));
  }

  lemma GenuineOneMore(inputs: seq<Input>, i: Input, m: Id, message: seq<byte>)
    requires |message| == PILL_LEN && GenuineInputs(inputs, m, message) && TrueTo(i.bytes, m, message)
    ensures GenuineInputs(inputs + [i], m, message)
  {
  }

  /** A delivery keeps every frame of m true to the message. */
  lemma DeliveryStaysTrue(top: Topology, net: Net, p: Packet, env: Env, m: Id, message: seq<byte>)
    requires PillEverywhere(top, m, message) && WellFormed(top, net) && p in net.flight && AllTrue(net, m, message)
    requires AtMostFour(Reached(top.setups[p.to], net.heard[p.to] + [Input(p.bytes, env)]))
    ensures AllTrue(Step(top, net, Deliver(p, env)), m, message)
  {
    hide TrueTo, GenuineInputs, Relay, Broadcast, AtMostFour, Reached, IsPill;
    var su, inputs, i := top.setups[p.to], net.heard[p.to], Input(p.bytes, env);
    var net' := Step(top, net, Deliver(p, env));
    GenuineOneMore(inputs, i, m, message);
    forall q | q in net'.flight ensures TrueTo(q.bytes, m, message) {
      if q !in net.flight {
        BroadcastFacts(top.peers[p.to], Relay(su, inputs, i), q);
        RelayIsTrue(su, inputs, i, m, message, q.bytes);
      }
    }
  }

  /** The peers of a node that dispatches m on a delivery are owed the pill afterwards. */
  lemma NewDispatchOwes(top: Topology, net: Net, p: Packet, env: Env, m: Id, message: seq<byte>, k: nat)
    requires PillEverywhere(top, m, message) && WellFormed(top, net) && p in net.flight && AllTrue(net, m, message)
    requires AtMostFour(Reached(top.setups[p.to], net.heard[p.to] + [Input(p.bytes, env)]))
    requires Faithful(Air(Deliver(p, env)), m, message) && k < |top.peers[p.to]|
    requires var i := Input(p.bytes, env);
             m !in Log(top.setups[p.to], net.heard[p.to]) && m in Log(top.setups[p.to], net.heard[p.to] + [i])
    ensures Owed(Step(top, net, Deliver(p, env)), top.peers[p.to][k], m, message)
  {
    hide TrueTo, GenuineInputs, Log, AtMostFour, Reached, Broadcast, Receive, Run, Carries;
    var su, inputs, i := top.setups[p.to], net.heard[p.to], Input(p.bytes, env);
    LogStep(su, inputs, i);
    DispatchIsTheMessage(su, inputs, i, m, message);
    DispatchRelaysAll(su, inputs, i, m, message);
    forall x: nat | x < PILL_FRAGS
      ensures Pending(Step(top, net, Deliver(p, env)), top.peers[p.to][k], m, message, x)
    {
      BroadcastHolds(top.peers[p.to], Fragments(message, m), k, x);
    }
  }

  /** Truth and spreading over one faithful move. */
  lemma MoveSpreads(top: Topology, net: Net, mv: Move, m: Id, message: seq<byte>)
    requires PillEverywhere(top, m, message) && WellFormed(top, net) && Possible(net, mv) && Faithful(mv, m, message)
    requires WellFormed(top, MoveOn(top, net, mv)) && Roomy(top, MoveOn(top, net, mv))
    requires AllTrue(net, m, message) && Spreads(top, net, m, message)
    ensures AllTrue(MoveOn(top, net, mv), m, message) && Spreads(top, MoveOn(top, net, mv), m, message)
  {
    hide Log, TrueTo, GenuineInputs, Relay, Broadcast, AtMostFour, Reached, IsPill, Owed, Carries;
    var net' := MoveOn(top, net, mv);
    if mv.Air? && mv.action.Deliver? {
      var p, env := mv.action.packet, mv.action.env;
      assert net'.heard[p.to] == net.heard[p.to] + [Input(p.bytes, env)];
      DeliveryStaysTrue(top, net, p, env, m, message);
    }
    forall i, k | 0 <= i < |net'.heard| && 0 <= k < |top.peers[i]| && m in Log(top.setups[i], net'.heard[i])
      ensures Owed(net', top.peers[i][k], m, message)
    {
      if m in Log(top.setups[i], net.heard[i]) {
        OwedStays(top, net, mv, top.peers[i][k], m, message);
      } else {
        NewDispatchOwes(top, net, mv.action.packet, mv.action.env, m, message, k);
      }
    }
  }

  lemma {:induction false} RunSpreads(top: Topology, net: Net, moves: seq<Move>, s: nat, m: Id, message: seq<byte>)
    requires PillEverywhere(top, m, message) && WellFormed(top, net) && Runs(top, net, moves)
    requires FaithfulRun(top, net, moves, m, message) && AllTrue(net, m, message) && Spreads(top, net, m, message)
    requires s < |net.heard| && Owed(net, s, m, message)
    ensures var end := End(top, net, moves);
            && AllTrue(end, m, message) && Spreads(top, end, m, message) && Owed(end, s, m, message) && Roomy(top, end)
    decreases moves
  {
    hide AllTrue, Spreads, Owed, Roomy, MoveOn, Faithful;
    if moves != [] {
      var net' := MoveOn(top, net, moves[0]);
      assert Roomy(top, net');
      MoveSpreads(top, net, moves[0], m, message);
      OwedStays(top, net, moves[0], s, m, message);
      SameNodes(top, net, moves[0]);
      RunSpreads(top, net', moves[1..], s, m, message);
    }
  }

  lemma SameNodes(top: Topology, net: Net, mv: Move)
    requires WellFormed(top, net) && Possible(net, mv)
    ensures |MoveOn(top, net, mv).heard| == |net.heard|
  {
  }

  // ---- Everyone is reached ----

  /** Each node of the path is a peer of the one before it. */
  predicate IsPath(top: Topology, path: seq<nat>) {
    && |path| > 0 && (forall k :: 0 <= k < |path| ==> path[k] < |top.peers|)
    && forall k :: 0 < k < |path| ==> path[k] in top.peers[path[k - 1]]
  }

  /** In the quiet, whoever is owed the pill has dispatched it. */
  lemma QuietMeansDispatched(top: Topology, net: Net, j: nat, m: Id, message: seq<byte>)
    requires PillEverywhere(top, m, message) && WellFormed(top, net) && Roomy(top, net) && AllTrue(net, m, message)
    requires j < |net.heard| && Owed(net, j, m, message) && Carrying(net.flight, m) == 0
    ensures m in Log(top.setups[j], net.heard[j])
  {
    hide TrueTo, GenuineInputs, HeardFrag, Log, AtMostFour, Reached, IsPill, Carrying, Frag, Carries;
    forall x: nat | x < PILL_FRAGS ensures HeardFrag(net.heard[j], m, message, x) {
      assert Pending(net, j, m, message, x);
      FragCarries(m, message, x);
      var p := Packet(j, Frag(m, message, x));
      if p in net.flight {
        CarryingWithout(net.flight, p, m);
      }
    }
    HearingAllDispatches(top.setups[j], net.heard[j], m, message);
  }

  lemma {:induction false} PathIsReached(top: Topology, net: Net, path: seq<nat>, m: Id, message: seq<byte>)
    requires PillEverywhere(top, m, message) && WellFormed(top, net) && Roomy(top, net) && AllTrue(net, m, message)
    requires Spreads(top, net, m, message) && IsPath(top, path) && Owed(net, path[0], m, message)
    requires Carrying(net.flight, m) == 0
    ensures var j := path[|path| - 1]; m in Log(top.setups[j], net.heard[j])
  {
    hide Log, AllTrue, Roomy, PillEverywhere, Carrying, Owed;
    var j := path[|path| - 1];
    if |path| > 1 {
      var n := |path| - 1;
      PathIsReached(top, net, path[..n], m, message);
      var k :| 0 <= k < |top.peers[path[n - 1]]| && top.peers[path[n - 1]][k] == j;
    }
    QuietMeansDispatched(top, net, j, m, message);
  }

  /**
   * The flood reaches everyone. From power-on, with every fragment of a pill on its way to node s, in
   * every run in which no frame of the pill is lost, refused by a radio or forged and no node finds
   * four other ids busy, once no frame of the pill is in the air every node on a path of peers from s
   * has dispatched it, whatever happens to frames of other ids meanwhile.
   */
  lemma EveryoneIsReached(top: Topology, net: Net, moves: seq<Move>, path: seq<nat>, m: Id, message: seq<byte>)
    requires PillEverywhere(top, m, message) && WellFormed(top, net) && Runs(top, net, moves)
    requires forall i :: 0 <= i < |net.heard| ==> net.heard[i] == []
    requires FaithfulRun(top, net, moves, m, message)
    requires forall p :: p in net.flight ==> TrueTo(p.bytes, m, message)
    requires IsPath(top, path)
    requires forall x: nat :: x < PILL_FRAGS ==> Packet(path[0], Frag(m, message, x)) in net.flight
    requires Carrying(End(top, net, moves).flight, m) == 0
    ensures var j := path[|path| - 1]; m in Log(top.setups[j], End(top, net, moves).heard[j])
  {
    hide Carrying, FaithfulRun, Runs, Roomy, Frag, TrueTo, Log;
    forall i | 0 <= i < |net.heard| ensures m !in Log(top.setups[i], net.heard[i]) {
      SilentAtFirst(top.setups[i], m);
    }
    RunSpreads(top, net, moves, path[0], m, message);
    PathIsReached(top, End(top, net, moves), path, m, message);
  }

  lemma SilentAtFirst(su: Setup, m: Id)
    ensures m !in Log(su, [])
  {
  }
}
