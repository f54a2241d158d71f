/**
 What callers of the audio ring can rely on in every interleaving: exact bytes, silence after
 them, no replay, bounded latency and retries, honest counters, whole frames.
 */
module AudioTheorems {
  import opened Words
  import opened Ring
  import opened AudioSpec
  import opened AudioSteps

  /** Some interleaving of the two sides leads from `init` to `s`. */
  ghost predicate Reachable(c: Config, s: State) {
    exists payload: seq<Byte>, acts: seq<Action> :: |payload| == c.cap && s == AudioSteps.Run(c, payload, acts)
  }

  lemma ReachableInv(c: Config, s: State) returns (es: seq<Event>)
    requires c.Valid() && Reachable(c, s)
    ensures Inv(c, s) && Abs(s) == AudioSpec.Run(c, es)
  {
    var payload: seq<Byte>, acts: seq<Action> :| |payload| == c.cap && s == AudioSteps.Run(c, payload, acts);
    Linearizes(c, payload, acts);
    es := Effects(c, payload, acts);
  }

  // ---- exact bytes ----

  /**
   No torn reads: in every reachable state each reply is exactly its window of the stream, whole
   frames, followed by silence to the end of the buffer, whatever earlier attempts copied there.
   */
  lemma RepliesAreExact(c: Config, s: State, k: nat)
    requires c.Valid() && Reachable(c, s) && k < |s.replies|
    ensures k < |s.log| && GoodDelivery(c, s.hist, s.log[k]) && GoodReply(c, s.replies[k], s.log[k])
    ensures s.replies[k].out == s.hist[s.log[k].from..s.log[k].to] + Zeros(s.log[k].outLen - s.replies[k].live)
    ensures var d := s.log[k];
      MostFrames(c.frameBytes, Min(d.outLen, d.tail - d.from), s.replies[k].live)
  {
    var es := ReachableInv(c, s);
    var d := s.log[k];
    assert GoodDelivery(c, s.hist, d) by {
      assert GoodDelivery(c, Abs(s).hist, Abs(s).log[k]);
    }
    assert GoodReply(c, s.replies[k], d);
    WantIsMost(c.frameBytes, d.tail, d.from, d.outLen);
  }

  /** How far a read jumps: it keeps the whole frames of its budget, or everything queued if that is less. */
  lemma KeepsNewest(c: Config, s: State, k: nat) returns (budget: nat)
    requires c.Valid() && Reachable(c, s) && k < |s.replies|
    ensures k < |s.log| && MostFrames(c.frameBytes, s.log[k].maxLatency, budget)
    ensures s.log[k].was <= s.log[k].tail && s.log[k].tail - s.log[k].from == Min(s.log[k].tail - s.log[k].was, budget)
  {
    RepliesAreExact(c, s, k);
    var d := s.log[k];
    budget := Rounded(d.maxLatency, c.Frame());
    RoundedIsMost(c.frameBytes, d.maxLatency);
    ReadFromBounds(c.Frame(), d.tail, d.was, d.maxLatency);
  }

  /** Conservation over interleavings: windows disjoint and increasing, every byte delivered, skipped or queued. */
  lemma InterleavingsConserve(c: Config, s: State)
    requires c.Valid() && Reachable(c, s)
    ensures Ordered(s.log) && LastTo(s.log) <= s.tail == |s.hist|
    ensures Delivered(s.log) + Skipped(s.log) + (s.tail - LastTo(s.log)) == s.tail
    ensures forall i, j :: 0 <= i < j < |s.log| ==> s.log[i].to <= s.log[j].from
    ensures Output(s.log) == s.hist[..LastTo(s.log)]
        <==> forall i :: 0 <= i < |s.log| ==> !OverBudget(c, s.log[i])
  {
    var es := ReachableInv(c, s);
    RunConserves(c, es);
    LosslessIff(c, es);
    assert Abs(s).log == s.log && Abs(s).hist == s.hist;
  }

  function RunFrom(c: Config, s: State, acts: seq<Action>): State {
    if |acts| == 0 then s else Next(c, RunFrom(c, s, acts[..|acts| - 1]), acts[|acts| - 1])
  }

  /** `seq` never falls; while it is even and unchanged the payload, `tail` and the stream are too. */
  ghost predicate Frozen(s: State, t: State) {
    && s.seqno <= t.seqno
    && (s.seqno == t.seqno && s.seqno % 2 == 0 ==> t.hist == s.hist && t.tail == s.tail && t.payload == s.payload)
  }

  lemma ProduceFrozen(c: Config, s: State)
    requires c.Valid() && |s.payload| == c.cap && s.tail < U64 && s.seqno < U64
    requires |s.hist| == s.tail && ProducerInv(c, s)
    ensures Frozen(s, ProduceStep(c, s))
  {
    ProduceKeepsProducer(c, s);
  }

  lemma OthersFrozen(c: Config, s: State, a: Action)
    requires !a.Produce?
    ensures Frozen(s, Next(c, s, a))
  {
  }

  lemma FrozenStep(c: Config, s: State, a: Action)
    requires c.Valid() && Inv(c, s)
    ensures Frozen(s, Next(c, s, a))
  {
    if a.Produce? {
      ProduceFrozen(c, s);
    } else {
      OthersFrozen(c, s, a);
    }
  }

  /**
   The seqlock: if `seq` is even and has the same value later, then in between no byte of the
   payload, no `tail` and no part of the stream changed. So an accepted read may be taken to
   happen at its first load of `seq`, at its last, or anywhere between.
   */
  lemma {:induction false} FrozenWhileSeqHolds(c: Config, s: State, acts: seq<Action>)
    requires c.Valid() && Inv(c, s)
    ensures Inv(c, RunFrom(c, s, acts)) && Frozen(s, RunFrom(c, s, acts))
  {
    if |acts| > 0 {
      var t, a := RunFrom(c, s, acts[..|acts| - 1]), acts[|acts| - 1];
      assert RunFrom(c, s, acts) == Next(c, t, a);
      assert Inv(c, t) && Frozen(s, t) by {
        FrozenWhileSeqHolds(c, s, acts[..|acts| - 1]);
      }
      NextRefines(c, t, a);
      FrozenStep(c, t, a);
    }
  }

  // ---- the ring itself ----

  lemma NewestAt(cap: nat, payload: seq<Byte>, hist: seq<Byte>, pushed: seq<Byte>, k: nat)
    requires |payload| == cap && Holds(payload, hist) && Newest(cap, hist) == Newest(cap, pushed)
    requires k < |pushed| && k < cap
    ensures k < |hist| && payload[(|hist| - 1 - k) % cap] == pushed[|pushed| - 1 - k]
  {
    var n, m := Newest(cap, hist), Newest(cap, pushed);
    assert m[|m| - 1 - k] == pushed[|pushed| - 1 - k];
    assert n[|n| - 1 - k] == hist[|hist| - 1 - k];
  }

  /** While no push is in progress the ring holds the newest bytes of everything ever pushed, cut or not. */
  lemma RingHoldsNewest(c: Config, s: State, k: nat)
    requires c.Valid() && Reachable(c, s) && s.producer.Resting?
    requires k < |s.pushed| && k < c.cap
    ensures k < s.tail && Mask(c.cap, s.tail - 1 - k) < |s.payload|
    ensures s.payload[Mask(c.cap, s.tail - 1 - k)] == s.pushed[|s.pushed| - 1 - k]
  {
    assert Holds(s.payload, s.hist) && Newest(c.cap, s.hist) == Newest(c.cap, s.pushed)
        && |s.payload| == c.cap && |s.hist| == s.tail by {
      var es := ReachableInv(c, s);
      assert Consistent(c, Abs(s));
    }
    NewestAt(c.cap, s.payload, s.hist, s.pushed, k);
    MaskIsMod(c.cap, s.tail - 1 - k);
  }

  // ---- latency, counters ----

  /** Bounded latency for the playback callback, in every interleaving. */
  lemma CallbackLatency(c: Config, s: State, k: nat)
    requires c.Valid() && Reachable(c, s) && k < |s.replies| && s.replies[k].caller.Callback?
    ensures k < |s.log| && s.log[k].to <= s.log[k].tail
    ensures s.log[k].tail - s.log[k].to <= Max(s.replies[k].caller.latency, Max(c.frameBytes, 1) - 1)
  {
    RepliesAreExact(c, s, k);
    LatencyBound(c, s.hist, s.log[k], s.replies[k].caller.latency);
  }

  /**
   A counted overflow means the read that follows skips at least one byte; an underflow is counted
   exactly when, where the read took effect, fewer bytes were queued than the callback's buffer holds.
   Other callers count neither.
   */
  lemma CountersAreSound(c: Config, s: State, k: nat)
    requires c.Valid() && Reachable(c, s) && k < |s.replies|
    ensures k < |s.log|
    ensures s.replies[k].overflow ==>
      && s.replies[k].caller.Callback? && s.log[k].from > s.log[k].was
      && s.log[k].tail - s.log[k].was > s.log[k].maxLatency
    ensures s.replies[k].underflow <==> s.replies[k].caller.Callback? && s.log[k].tail - s.log[k].was < s.log[k].outLen
  {
    RepliesAreExact(c, s, k);
    if s.replies[k].caller.Callback? {
      UnderflowIff(c, s.log[k]);
    }
  }

  // ---- frame alignment ----

  /** Every push adds whole frames to the stream. */
  predicate PushesKeepFrames(c: Config, acts: seq<Action>) {
    forall i :: 0 <= i < |acts| && acts[i].BeginPush? ==> KeepsFrames(c, Push(acts[i].raw))
  }

  predicate CarriesFrames(c: Config, p: Producer) {
    (p.Entered? || p.TailLoaded? || p.SeqLoaded? || p.Writing?) ==> KeepsFrames(c, Push(p.raw))
  }

  lemma {:induction false} EffectsKeepFrames(c: Config, payload: seq<Byte>, acts: seq<Action>)
    requires PushesKeepFrames(c, acts)
    ensures CarriesFrames(c, AudioSteps.Run(c, payload, acts).producer)
    ensures forall i :: 0 <= i < |Effects(c, payload, acts)| ==> KeepsFrames(c, Effects(c, payload, acts)[i])
  {
    if |acts| > 0 {
      var before, a := acts[..|acts| - 1], acts[|acts| - 1];
      assert PushesKeepFrames(c, before);
      EffectsKeepFrames(c, payload, before);
      var s := AudioSteps.Run(c, payload, before);
      assert AudioSteps.Run(c, payload, acts) == Next(c, s, a);
      assert Effects(c, payload, acts) == Effects(c, payload, before) + Effect(c, s, a);
    }
  }

  /** Frame alignment in every interleaving: `head`, `tail`, every jump target and every length stay whole frames. */
  lemma InterleavingsAligned(c: Config, payload: seq<Byte>, acts: seq<Action>)
    requires c.Valid() && |payload| == c.cap && PushesKeepFrames(c, acts)
    ensures var s := AudioSteps.Run(c, payload, acts);
      && c.Whole(s.tail) && c.Whole(LastTo(s.log))
      && (forall i :: 0 <= i < |s.log| ==> AlignedDelivery(c, s.log[i]))
  {
    Linearizes(c, payload, acts);
    EffectsKeepFrames(c, payload, acts);
    RunAligned(c, Effects(c, payload, acts));
    var s := AudioSteps.Run(c, payload, acts);
    assert Abs(s).log == s.log;
  }

  lemma WholeDifference(c: Config, a: nat, b: nat)
    requires c.Whole(a) && c.Whole(b) && b <= a
    ensures c.Whole(a - b)
  {
    if c.frameBytes > 0 {
      AddMultiples(a, b, c.frameBytes);
    }
  }

  lemma AlignedLatency(c: Config, hist: seq<Byte>, d: Delivery, latency: nat)
    requires GoodDelivery(c, hist, d) && AlignedDelivery(c, d)
    requires c.Whole(d.outLen) && d.maxLatency == d.outLen + latency
    ensures d.to <= d.tail && c.Whole(d.tail - d.to) && d.tail - d.to <= latency
  {
    LatencyBound(c, hist, d, latency);
    WholeDifference(c, d.tail, d.to);
  }

  /** With whole-frame pushes the callback leaves whole frames queued, and no more than its latency. */
  lemma CallbackLatencyAligned(c: Config, payload: seq<Byte>, acts: seq<Action>, k: nat)
    requires c.Valid() && |payload| == c.cap && PushesKeepFrames(c, acts)
    requires k < |AudioSteps.Run(c, payload, acts).replies|
    requires AudioSteps.Run(c, payload, acts).replies[k].caller.Callback?
    ensures var s := AudioSteps.Run(c, payload, acts);
      && k < |s.log| && s.log[k].to <= s.log[k].tail
      && c.Whole(s.log[k].tail - s.log[k].to) && s.log[k].tail - s.log[k].to <= s.replies[k].caller.latency
  {
    var s := AudioSteps.Run(c, payload, acts);
    assert k < |s.log| && GoodDelivery(c, s.hist, s.log[k]) && GoodReply(c, s.replies[k], s.log[k]) by {
      assert Reachable(c, s);
      RepliesAreExact(c, s, k);
    }
    assert AlignedDelivery(c, s.log[k]) by {
      InterleavingsAligned(c, payload, acts);
    }
    AlignedLatency(c, s.hist, s.log[k], s.replies[k].caller.latency);
  }

  // ---- retries and progress ----

  /** Retries are paid for: a call that replies was retried at most once for each push begun during it. */
  lemma RetriesBounded(c: Config, s: State, k: nat)
    requires c.Valid() && Reachable(c, s) && k < |s.replies|
    ensures s.replies[k].retries <= s.replies[k].pushes
  {
    RepliesAreExact(c, s, k);
  }

  /** The most one read can copy: whole frames of its buffer, and no more than its rounded budget. */
  function MostWanted(c: Config, outLen: nat, maxLatency: nat): nat {
    Min(Rounded(outLen, c.Frame()), Rounded(maxLatency, c.Frame()))
  }

  lemma WindowFits(c: Config, call: Call, at: Attempt, i: nat, head: nat, tail: nat, seqno: nat, hist: seq<Byte>)
    requires AttemptInv(c, call, at, i, head, tail, seqno, hist)
    ensures at.want <= MostWanted(c, |call.out|, call.maxLatency)
  {
    ReadFromBounds(c.Frame(), at.tail, at.was, call.maxLatency);
    RoundedBounds(Min(Rounded(|call.out|, c.Frame()), at.tail - at.from), c.Frame());
  }

  /** The next load of a copy in progress is from inside the ring. */
  predicate LoadInRing(c: Config, s: State) {
    s.consumer.Reading? && s.consumer.i < s.consumer.at.want ==>
      CopyIndex(c.cap, MaskOf(c, s.consumer.at.from), s.consumer.at.want, s.consumer.i) < |s.payload|
  }

  /** The copy never leaves the ring if it can want at most one byte more than the ring holds. */
  lemma LoadsStayInRing(c: Config, s: State)
    requires c.Valid() && Reachable(c, s) && s.consumer.Reading?
    requires MostWanted(c, |s.consumer.call.out|, s.consumer.call.maxLatency) <= c.cap + 1
    ensures LoadInRing(c, s)
  {
    var es := ReachableInv(c, s);
    var Reading(call, at, i) := s.consumer;
    WindowFits(c, call, at, i, s.head, s.tail, s.seqno, s.hist);
    MaskIsMod(c.cap, at.from);
    CopyInBounds(c.cap, MaskOf(c, at.from), at.want);
  }

  /** The consumer running alone, one step per element. */
  function Solo(c: Config, s: State, strays: seq<Byte>): State
    decreases |strays|
  {
    if |strays| == 0 then s else Solo(c, ConsumeStep(c, s, strays[0]), strays[1..])
  }

  /** The backlog a read started now would keep: `min(tail - head, floor(budget / frame) * frame)`. */
  function Clamped(c: Config, s: State, maxLatency: nat): nat {
    Min(SaturatingSub(s.tail, s.head), Rounded(maxLatency, c.Frame()))
  }

  /** In the loop of a call, with no push begun since the iteration started. */
  predicate InLoop(s: State) {
    match s.consumer
    case AtLoop(call) => true
    case SeqSeen(call, s0) => s0 == s.seqno
    case TailSeen(call, s0, tail) => s0 == s.seqno
    case Reading(call, at, i) => at.s0 == s.seqno
    case TailAgain(call, at, tail2) => at.s0 == s.seqno
    case _ => false
  }

  lemma AttemptBacklog(c: Config, s: State, call: Call, at: Attempt, i: nat)
    requires AttemptInv(c, call, at, i, s.head, s.tail, s.seqno, s.hist) && at.s0 == s.seqno && s.tail < U64
    ensures at.tail == s.tail && s.tail - at.from == Clamped(c, s, call.maxLatency)
    ensures Rejects(c, at, s.tail, s.seqno) <==> Clamped(c, s, call.maxLatency) > c.cap
  {
    ReadFromBounds(c.Frame(), at.tail, at.was, call.maxLatency);
    WrappingIsDifference(s.tail, at.from);
  }

  /** A rank that falls with every step of an iteration. */
  function StepsLeft(s: State): nat {
    match s.consumer
    case AtLoop(call) => |call.out| + 6
    case SeqSeen(call, s0) => |call.out| + 5
    case TailSeen(call, s0, tail) => |call.out| + 4
    case Reading(call, at, i) => SaturatingSub(at.want, i) + 3
    case TailAgain(call, at, tail2) => 2
    case Accepted(call, at) => 1
    case _ => 0
  }

  /** The step stayed in the call it belongs to, and the iteration is closer to its end. */
  ghost predicate Progress(s: State, s': State)
    requires InLoop(s)
  {
    && (InLoop(s') || s'.consumer.Accepted?)
    && s'.consumer.call.maxLatency == s.consumer.call.maxLatency && s'.consumer.call.retries == s.consumer.call.retries
    && StepsLeft(s') < StepsLeft(s)
  }

  lemma SoloMoves(c: Config, s: State, stray: Byte)
    requires s.tail < U64 && ConsumerInv(c, s.consumer, s.head, s.tail, s.seqno, s.hist, s.log)
    requires s.seqno % 2 == 0 && InLoop(s) && Clamped(c, s, s.consumer.call.maxLatency) <= c.cap
    ensures Progress(s, s.(consumer := Move(c, s, stray)))
  {
    match s.consumer
    case AtLoop(call) =>
    case SeqSeen(call, s0) =>
    case TailSeen(call, s0, tail) =>
      WantBounds(c.Frame(), tail, ReadFrom(c.Frame(), tail, s.head, call.maxLatency), |call.out|);
    case Reading(call, at, i) =>
    case TailAgain(call, at, tail2) =>
      AttemptBacklog(c, s, call, at, at.want);
  }

  lemma SoloStep(c: Config, s: State, stray: Byte)
    requires c.Valid() && Inv(c, s) && s.seqno % 2 == 0 && InLoop(s)
    requires Clamped(c, s, s.consumer.call.maxLatency) <= c.cap
    ensures var s' := ConsumeStep(c, s, stray);
      && Inv(c, s') && s'.seqno == s.seqno && s'.tail == s.tail && s'.head == s.head && s'.replies == s.replies
      && Progress(s, s')
  {
    ConsumeRefines(c, s, stray);
    SoloMoves(c, s, stray);
  }

  lemma {:induction false} SoloRests(c: Config, s: State, strays: seq<Byte>)
    requires s.consumer.Free?
    ensures Solo(c, s, strays) == s
    decreases |strays|
  {
    if |strays| > 0 {
      SoloRests(c, s, strays[1..]);
    }
  }

  /**
   With the producer idle the iteration in progress is accepted and the call returns without a
   retry, whatever bytes lie past the ring, as soon as `StepsLeft` steps were made.
   */
  lemma {:induction false} SoloReturns(c: Config, s: State, strays: seq<Byte>)
    requires c.Valid() && Inv(c, s) && s.seqno % 2 == 0
    requires InLoop(s) || s.consumer.Accepted?
    requires InLoop(s) ==> Clamped(c, s, s.consumer.call.maxLatency) <= c.cap
    requires |strays| >= StepsLeft(s)
    ensures Returned(s, Solo(c, s, strays))
    decreases |strays|
  {
    var s' := ConsumeStep(c, s, strays[0]);
    if s.consumer.Accepted? {
      SoloRests(c, s', strays[1..]);
    } else {
      SoloStep(c, s, strays[0]);
      SoloReturns(c, s', strays[1..]);
    }
  }

  /** The call in progress in `s` has ended in `t`, and was not retried again. */
  predicate Returned(s: State, t: State)
    requires InLoop(s) || s.consumer.Accepted?
  {
    t.consumer.Free? && |t.replies| == |s.replies| + 1 && t.replies[|s.replies|].retries == s.consumer.call.retries
  }

  // ---- calls that never reply ----

  predicate InCall(s: State) {
    && (s.consumer.AtLoop? || s.consumer.SeqSeen? || s.consumer.TailSeen? || s.consumer.Reading?
        || s.consumer.TailAgain? || s.consumer.Accepted?)
  }

  /** Where `tail` will be once the copy in progress is published. */
  function Queued(c: Config, s: State): nat {
    s.tail + if s.producer.Writing? then |Newest(c.cap, s.producer.raw)| else 0
  }

  /** The call is not accepted yet, and it wants and will find more than the ring holds. */
  predicate Stuck(c: Config, s: State) {
    InCall(s) && !s.consumer.Accepted? && OverRing(c, s.consumer.call.maxLatency, s.head, Queued(c, s))
  }

  /** No continuation, whatever either side does in it, makes the call in progress reply. */
  ghost predicate NeverReplies(c: Config, s: State) {
    forall acts: seq<Action> :: RunFrom(c, s, acts).replies == s.replies
  }

  lemma StuckRejects(c: Config, s: State)
    requires c.Valid() && Inv(c, s) && Stuck(c, s) && s.consumer.TailAgain?
    ensures Rejects(c, s.consumer.at, s.consumer.tail2, s.seqno)
  {
    var TailAgain(call, at, tail2) := s.consumer;
    if at.s0 == s.seqno {
      OverRingRejects(c, s, call, at, tail2);
    }
  }

  lemma StuckProduces(c: Config, s: State)
    requires c.Valid() && ProducerInv(c, s) && Stuck(c, s)
    ensures Stuck(c, ProduceStep(c, s)) && ProduceStep(c, s).replies == s.replies
  {
    match s.producer
    case Writing(raw, tail, q, i) => WrappingIsSum(tail, |Newest(c.cap, raw)|);
    case _ =>
  }

  lemma StuckConsumes(c: Config, s: State, stray: Byte)
    requires c.Valid() && Inv(c, s) && Stuck(c, s)
    ensures Stuck(c, ConsumeStep(c, s, stray)) && ConsumeStep(c, s, stray).replies == s.replies
  {
    if s.consumer.TailAgain? {
      StuckRejects(c, s);
    }
  }

  lemma StuckStep(c: Config, s: State, a: Action)
    requires c.Valid() && Inv(c, s) && Stuck(c, s)
    ensures Stuck(c, Next(c, s, a)) && Next(c, s, a).replies == s.replies
  {
    match a
    case Produce => StuckProduces(c, s);
    case Consume(stray) => StuckConsumes(c, s, stray);
    case _ =>
  }

  /** The read loop spins for ever, however the producer goes on. */
  lemma {:induction false} StuckForever(c: Config, s: State, acts: seq<Action>)
    requires c.Valid() && Inv(c, s) && Stuck(c, s)
    ensures Inv(c, RunFrom(c, s, acts)) && Stuck(c, RunFrom(c, s, acts))
    ensures RunFrom(c, s, acts).replies == s.replies
  {
    if |acts| > 0 {
      StuckForever(c, s, acts[..|acts| - 1]);
      NextRefines(c, RunFrom(c, s, acts[..|acts| - 1]), acts[|acts| - 1]);
      StuckStep(c, RunFrom(c, s, acts[..|acts| - 1]), acts[|acts| - 1]);
    }
  }

  /** A retry saw a push begin between its two loads of `seq`, or belongs to a call that never replies. */
  lemma RetrySawPush(c: Config, s: State)
    requires c.Valid() && Reachable(c, s) && s.consumer.TailAgain?
    requires Rejects(c, s.consumer.at, s.consumer.tail2, s.seqno)
    ensures Begun(s.consumer.at.s0) < Begun(s.seqno) || NeverReplies(c, s)
  {
    var es := ReachableInv(c, s);
    var TailAgain(call, at, tail2) := s.consumer;
    RejectIsCharged(c, call, at, at.want, s, tail2);
    if Begun(at.s0) >= Begun(s.seqno) {
      StuckNeverReplies(c, s);
    }
  }

  lemma StuckNeverReplies(c: Config, s: State)
    requires c.Valid() && Inv(c, s) && Stuck(c, s)
    ensures NeverReplies(c, s)
  {
    forall acts: seq<Action>
      ensures RunFrom(c, s, acts).replies == s.replies
    {
      StuckForever(c, s, acts);
    }
  }

  // ---- every other call can reply ----

  ghost predicate Leads(c: Config, s: State, t: State) {
    exists acts: seq<Action> :: t == RunFrom(c, s, acts)
  }

  lemma {:induction false} RunFromAppends(c: Config, s: State, a: seq<Action>, b: seq<Action>)
    ensures RunFrom(c, s, a + b) == RunFrom(c, RunFrom(c, s, a), b)
    decreases |b|
  {
    if |b| == 0 {
      assert a + b == a;
    } else {
      RunFromAppends(c, s, a, b[..|b| - 1]);
      assert (a + b)[..|a + b| - 1] == a + b[..|b| - 1];
    }
  }

  lemma LeadsOn(c: Config, s: State, t: State, u: State)
    requires Leads(c, s, t) && Leads(c, t, u)
    ensures Leads(c, s, u)
  {
    var a: seq<Action> :| t == RunFrom(c, s, a);
    var b: seq<Action> :| u == RunFrom(c, t, b);
    RunFromAppends(c, s, a, b);
  }

  lemma LeadsNext(c: Config, s: State, a: Action)
    ensures Leads(c, s, s) && Leads(c, s, Next(c, s, a))
  {
    assert RunFrom(c, s, []) == s;
    assert [a][..0] == [];
    assert RunFrom(c, s, [a]) == Next(c, s, a);
  }

  lemma {:induction false} SoloLeads(c: Config, s: State, strays: seq<Byte>)
    ensures Leads(c, s, Solo(c, s, strays))
    decreases |strays|
  {
    LeadsNext(c, s, Produce);
    if |strays| > 0 {
      LeadsNext(c, s, Consume(strays[0]));
      SoloLeads(c, ConsumeStep(c, s, strays[0]), strays[1..]);
      LeadsOn(c, s, ConsumeStep(c, s, strays[0]), Solo(c, s, strays));
    }
  }

  /** Steps of the producer until `seq` is even. */
  function PushLeft(c: Config, s: State): nat {
    match s.producer
    case Writing(raw, tail, q, i) => SaturatingSub(|Newest(c.cap, raw)|, i) + 2
    case TailStored(q) => 1
    case _ => 0
  }

  lemma PushStep(c: Config, s: State)
    requires c.Valid() && ProducerInv(c, s) && s.seqno % 2 == 1
    ensures PushLeft(c, ProduceStep(c, s)) < PushLeft(c, s) && Queued(c, ProduceStep(c, s)) == Queued(c, s)
    ensures ProduceStep(c, s).consumer == s.consumer && ProduceStep(c, s).head == s.head
    ensures ProduceStep(c, s).replies == s.replies
  {
    match s.producer
    case Writing(raw, tail, q, i) => WrappingIsSum(tail, |Newest(c.cap, raw)|);
    case _ =>
  }

  /** The producer finishes the push it is in. */
  lemma {:induction false} PushEnds(c: Config, s: State) returns (t: State)
    requires c.Valid() && Inv(c, s)
    ensures Leads(c, s, t) && Inv(c, t) && t.seqno % 2 == 0 && t.tail == Queued(c, t) == Queued(c, s)
    ensures t.consumer == s.consumer && t.head == s.head && t.replies == s.replies
    decreases PushLeft(c, s)
  {
    LeadsNext(c, s, Produce);
    if s.seqno % 2 == 0 {
      t := s;
    } else {
      PushStep(c, s);
      ProduceRefines(c, s);
      t := PushEnds(c, ProduceStep(c, s));
      LeadsOn(c, s, ProduceStep(c, s), t);
    }
  }

  /** Where a step of an iteration that a push has made stale goes. */
  lemma StaleMoves(c: Config, s: State)
    requires ConsumerInv(c, s.consumer, s.head, s.tail, s.seqno, s.hist, s.log)
    requires InCall(s) && !s.consumer.Accepted? && !InLoop(s)
    ensures var k := Move(c, s, 0);
      && InCall(s.(consumer := k)) && !k.Accepted? && k.call.maxLatency == s.consumer.call.maxLatency
      && (InLoop(s.(consumer := k)) || StepsLeft(s.(consumer := k)) < StepsLeft(s))
  {
    if s.consumer.TailSeen? {
      var TailSeen(call, s0, tail) := s.consumer;
      WantBounds(c.Frame(), tail, ReadFrom(c.Frame(), tail, s.head, call.maxLatency), |call.out|);
    }
  }

  lemma StaleStep(c: Config, s: State)
    requires c.Valid() && Inv(c, s) && InCall(s) && !s.consumer.Accepted? && !InLoop(s)
    ensures var s' := ConsumeStep(c, s, 0);
      && Inv(c, s') && s' == s.(consumer := s'.consumer) && InCall(s') && !s'.consumer.Accepted?
      && (InLoop(s') || StepsLeft(s') < StepsLeft(s))
      && s'.consumer.call.maxLatency == s.consumer.call.maxLatency
  {
    StaleMoves(c, s);
    ConsumeRefines(c, s, 0);
  }

  /** With the producer between pushes and a fitting backlog the reader alone gets to a reply. */
  lemma {:induction false} CanReturn(c: Config, s: State) returns (t: State)
    requires c.Valid() && Inv(c, s) && InCall(s) && s.seqno % 2 == 0
    requires s.consumer.Accepted? || Clamped(c, s, s.consumer.call.maxLatency) <= c.cap
    ensures Leads(c, s, t) && t.replies != s.replies
    decreases if InLoop(s) || s.consumer.Accepted? then 0 else StepsLeft(s)
  {
    if InLoop(s) || s.consumer.Accepted? {
      var strays := Zeros(StepsLeft(s));
      SoloReturns(c, s, strays);
      SoloLeads(c, s, strays);
      t := Solo(c, s, strays);
    } else {
      StaleStep(c, s);
      t := CanReturn(c, ConsumeStep(c, s, 0));
      LeadsNext(c, s, Consume(0));
      LeadsOn(c, s, ConsumeStep(c, s, 0), t);
    }
  }

  /**
   The fate of a call, decided at any point of it: it never replies, whatever either side goes on to
   do, exactly when its frame-rounded budget exceeds the ring and so does what is queued for it,
   counting the push being copied.
   */
  lemma NeverRepliesIff(c: Config, s: State)
    requires c.Valid() && Inv(c, s) && InCall(s)
    ensures NeverReplies(c, s) <==> Stuck(c, s)
  {
    if Stuck(c, s) {
      StuckNeverReplies(c, s);
    } else {
      var pushed := PushEnds(c, s);
      var t := CanReturn(c, pushed);
      LeadsOn(c, s, pushed, t);
      var acts: seq<Action> :| t == RunFrom(c, s, acts);
      assert RunFrom(c, s, acts).replies != s.replies;
    }
  }

  /**
   Exact progress: with the producer between pushes, a call at the top of its loop returns within
   `|out| + 6` steps of the reader alone if the clamped backlog fits the ring; if it does not, the
   call never returns, whether or not the producer goes on.
   */
  lemma ReturnsIffBacklogFits(c: Config, s: State, strays: seq<Byte>)
    requires c.Valid() && Inv(c, s) && s.seqno % 2 == 0 && s.consumer.AtLoop? && |strays| >= |s.consumer.call.out| + 6
    ensures Returned(s, Solo(c, s, strays)) <==> Clamped(c, s, s.consumer.call.maxLatency) <= c.cap
    ensures NeverReplies(c, s) <==> Clamped(c, s, s.consumer.call.maxLatency) > c.cap
  {
    if Clamped(c, s, s.consumer.call.maxLatency) <= c.cap {
      SoloReturns(c, s, strays);
      SoloLeads(c, s, strays);
    } else {
      StuckNeverReplies(c, s);
      SoloLeads(c, s, strays);
    }
  }
}
