/** From radio frames to dispatched pills: the relay link and the reassembly pool taken together. */
module Deliveries {
  import opened Bytes
  import opened Frames
  import opened Reassembly
  import opened Pills
  import opened Guardians

  /** The frame an input brings to the pool: none when unreadable or of an id still in the seen ring. */
  ghost function FrameOf(g: Guardian, bytes: seq<byte>): (fs: seq<Frame>)
    ensures AllInBounds(fs) && |fs| <= 1
  {
    DecodedInBounds(bytes);
    match Decode(bytes)
    case Err(_) => []
    case Ok(f) => if f.id in g.seen then [] else [f]
  }

  /** The frames that have reached the pool of a Guardian since power-on. */
  ghost function Reached(su: Setup, inputs: seq<Input>): (fs: seq<Frame>)
    ensures AllInBounds(fs)
  {
    if inputs == [] then []
    else
      var n := |inputs| - 1;
      Reached(su, inputs[..n]) + FrameOf(Run(su, inputs[..n]).0, inputs[n].bytes)
  }

  /** How a Guardian answers a fragment that reaches its pool. */
  ghost predicate Answers(su: Setup, id: Id, e: PoolEvent, o: Outcome) {
    match e
    case Stored => o == Buffered
    case Complete(m) =>
      && (o.Dispatched? <==> |m| == PILL_LEN && InnerId(su.crypto, ReadPill(m)) == id)
      && (o.Dispatched? ==> o.id == id && PillBytes(o.pill) == m)
    case _ => o == Rejected(InvalidState)
  }

  lemma ReceiveAnswers(su: Setup, g: Guardian, bytes: seq<byte>, env: Env)
    requires GuardianOk(g) && Decode(bytes).Ok? && Decode(bytes).value.id !in g.seen
    ensures InBounds(Decode(bytes).value)
    ensures var (g', o) := Receive(su, g, bytes, env);
            var f := Decode(bytes).value;
            g'.slots == Accept(g.slots, f).0 && Answers(su, f.id, Accept(g.slots, f).1, o)
  {
    hide Accept, Decode, Process, PoolOk, InnerId;
    DecodedInBounds(bytes);
    var (slots, e) := Accept(g.slots, Decode(bytes).value);
    if e.Complete? && |e.message| == PILL_LEN {
      ImageOfRead(e.message);
    }
  }

  lemma ReceiveIgnores(su: Setup, g: Guardian, bytes: seq<byte>, env: Env)
    requires GuardianOk(g) && FrameOf(g, bytes) == []
    ensures Receive(su, g, bytes, env).0 == g && !Receive(su, g, bytes, env).1.Dispatched?
  {
    hide Accept, Decode, Process, PoolOk;
  }

  lemma PoolAppend(frames: seq<Frame>, f: Frame)
    requires AllInBounds(frames) && InBounds(f)
    ensures RunPool(frames + [f]) == (Accept(RunPool(frames).0, f).0,
                                      RunPool(frames).1 + [Accept(RunPool(frames).0, f).1])
  {
    assert (frames + [f])[..|frames|] == frames;
  }

  /** The Guardian's slots are those of the pool over the frames that reached it. */
  lemma {:induction false} SlotsAreThePool(su: Setup, inputs: seq<Input>)
    ensures Run(su, inputs).0.slots == RunPool(Reached(su, inputs)).0
  {
    hide Receive, Accept, Decode;
    if inputs == [] {
      assert Boot().slots == RunPool([]).0;
    } else {
      var n := |inputs| - 1;
      var g, frames := Run(su, inputs[..n]).0, Reached(su, inputs[..n]);
      SlotsAreThePool(su, inputs[..n]);
      if FrameOf(g, inputs[n].bytes) == [] {
        ReceiveIgnores(su, g, inputs[n].bytes, inputs[n].env);
        assert frames + [] == frames;
      } else {
        ReceiveAnswers(su, g, inputs[n].bytes, inputs[n].env);
        PoolAppend(frames, Decode(inputs[n].bytes).value);
      }
    }
  }

  /**
   * End to end: whatever a Guardian has heard since power-on, readable or not, a fragment of an id it
   * does not remember is answered by that message's own progress alone, when the frames of its id
   * are genuine and none of the frames found four other ids busy. The last missing fragment
   * dispatches exactly the pill that was sent, precisely when the message is a pill travelling
   * under its own digest.
   */
  lemma LastFragmentDispatches(su: Setup, inputs: seq<Input>, i: Input, message: seq<byte>)
    requires Sendable(message) && Decode(i.bytes).Ok? && IsFragment(Decode(i.bytes).value, message)
    requires var f := Decode(i.bytes).value;
             && f.id !in Run(su, inputs).0.seen && GenuineFor(Reached(su, inputs), f.id, message)
             && AllInBounds([f]) && AtMostFour(Reached(su, inputs) + [f])
    ensures var f := Decode(i.bytes).value;
            Answers(su, f.id, Expected(Progress(Reached(su, inputs), f.id, FragCount(|message|)), f.index, message),
                    Receive(su, Run(su, inputs).0, i.bytes, i.env).1)
  {
    hide Receive, Accept, Decode, Reached, Run, AtMostFour, Progress, Expected, RunPool;
    var g, frames, f := Run(su, inputs).0, Reached(su, inputs), Decode(i.bytes).value;
    SlotsAreThePool(su, inputs);
    ReceiveAnswers(su, g, i.bytes, i.env);
    PoolAppend(frames, f);
    assert (frames + [f])[|frames|] == f && (frames + [f])[..|frames|] == frames;
    ReassemblyIsExact(frames + [f], f.id, message, |frames|);
  }

  // ---- A pill heard in order ----

  /** The first n fragments of a message as inputs. */
  function HeardInOrder(message: seq<byte>, id: Id, env: Env, n: nat): (hs: seq<Input>)
    requires Sendable(message) && n <= FragCount(|message|)
    ensures |hs| == n && forall i :: 0 <= i < n ==> hs[i] == Input(Encode(FragmentAt(message, id, i)), env)
  {
    seq(n, i requires 0 <= i < n => Input(Encode(FragmentAt(message, id, i)), env))
  }

  lemma NoIndices()
    ensures AllIndices(0) == {}
  {
  }

  lemma NextIndex(k: nat, n: nat)
    requires k + 1 < n
    ensures Progressed(AllIndices(k), k, n) == AllIndices(k + 1)
  {
    assert AllIndices(k + 1) == AllIndices(k) + {k};
    assert k + 1 !in AllIndices(k + 1) && k + 1 in AllIndices(n);
  }

  lemma {:induction false} ProgressInOrder(message: seq<byte>, id: Id, n: nat)
    requires Sendable(message) && n < FragCount(|message|)
    ensures Progress(InOrder(message, id, n), id, FragCount(|message|)) == AllIndices(n)
  {
    hide Progressed, AllIndices;
    if n == 0 {
      NoIndices();
    } else {
      assert InOrder(message, id, n)[..n - 1] == InOrder(message, id, n - 1);
      ProgressInOrder(message, id, n - 1);
      NextIndex(n - 1, FragCount(|message|));
    }
  }

  lemma StillMissing(message: seq<byte>, k: nat)
    requires Sendable(message) && k + 1 < FragCount(|message|)
    ensures Expected(AllIndices(k), k, message) == Stored
  {
    assert k + 1 !in AllIndices(k) + {k} && k + 1 in AllIndices(FragCount(|message|));
  }

  lemma LastOne(message: seq<byte>)
    requires Sendable(message)
    ensures var k := FragCount(|message|) - 1; Expected(AllIndices(k), k, message) == Complete(message)
  {
    var k := FragCount(|message|) - 1;
    assert AllIndices(k) + {k} == AllIndices(k + 1);
  }

  /** After the first k fragments, heard in order, nothing is remembered and they are in the pool. */
  ghost predicate Halfway(su: Setup, inputs: seq<Input>, message: seq<byte>, id: Id, k: nat)
    requires Sendable(message) && k <= FragCount(|message|)
  {
    Run(su, inputs).0.seen == [] && Reached(su, inputs) == InOrder(message, id, k)
  }

  lemma NextInOrder(su: Setup, inputs: seq<Input>, message: seq<byte>, id: Id, env: Env, k: nat)
    requires Sendable(message) && k < FragCount(|message|) && Halfway(su, inputs, message, id, k)
    ensures var i := Input(Encode(FragmentAt(message, id, k)), env);
            && Reached(su, inputs + [i]) == InOrder(message, id, k + 1)
            && Answers(su, id, Expected(AllIndices(k), k, message), Receive(su, Run(su, inputs).0, i.bytes, i.env).1)
  {
    hide Receive, Accept, Decode, Run, AtMostFour, Busy, Progress, Expected, RunPool, Answers;
    var f := FragmentAt(message, id, k);
    var i := Input(Encode(f), env);
    DecodeEncode(f);
    assert (inputs + [i])[..|inputs|] == inputs;
    assert InOrder(message, id, k) + [f] == InOrder(message, id, k + 1);
    AloneFits(InOrder(message, id, k + 1), id);
    ProgressInOrder(message, id, k);
    LastFragmentDispatches(su, inputs, i, message);
  }

  lemma NothingHeard(su: Setup)
    ensures Run(su, []).0.seen == [] && Reached(su, []) == []
  {
  }

  lemma {:induction false} InOrderIsHalfway(su: Setup, message: seq<byte>, id: Id, env: Env, n: nat)
    requires Sendable(message) && n < FragCount(|message|)
    ensures Halfway(su, HeardInOrder(message, id, env, n), message, id, n)
  {
    hide Receive, Accept, Decode, AtMostFour, Expected, Encode, Run, Reached;
    if n == 0 {
      NothingHeard(su);
      assert HeardInOrder(message, id, env, 0) == [] && InOrder(message, id, 0) == [];
    } else {
      var k, inputs := n - 1, HeardInOrder(message, id, env, n - 1);
      var i := Input(Encode(FragmentAt(message, id, k)), env);
      InOrderIsHalfway(su, message, id, env, k);
      NextInOrder(su, inputs, message, id, env, k);
      StillMissing(message, k);
      StepHolds(su, Run(su, inputs).0, i.bytes, env);
      RunStep(su, inputs, i);
      assert HeardInOrder(message, id, env, n) == inputs + [i];
    }
  }

  /** What the Guardian does with the last fragment of a pill heard in order. */
  ghost function LastOutcome(su: Setup, pill: Pill, env: Env): Outcome {
    PillIsSendable(pill);
    var message, id := PillBytes(pill), InnerId(su.crypto, pill);
    var k := FragCount(|message|) - 1;
    Receive(su, Run(su, HeardInOrder(message, id, env, k)).0, Encode(FragmentAt(message, id, k)), env).1
  }

  lemma PillIsSendable(pill: Pill)
    ensures Sendable(PillBytes(pill))
  {
  }

  /** A pill sent under its own digest to a Guardian just started is dispatched by its last fragment, byte for byte. */
  lemma PillArrivesInOrder(su: Setup, pill: Pill, env: Env)
    ensures var o := LastOutcome(su, pill, env);
            o.Dispatched? && o.id == InnerId(su.crypto, pill) && PillBytes(o.pill) == PillBytes(pill)
  {
    hide Receive, Run, Expected, InnerId, PillBytes, Reached;
    PillIsSendable(pill);
    var message, id := PillBytes(pill), InnerId(su.crypto, pill);
    var k := FragCount(|message|) - 1;
    PillImage(pill);
    InOrderIsHalfway(su, message, id, env, k);
    NextInOrder(su, HeardInOrder(message, id, env, k), message, id, env, k);
    LastOne(message);
  }
}
