/**
 Runs of the audio ring built to order: they show that the bounds on a read's window are exact,
 that the read loop can be made to spin, and when oversized pushes split a frame.
 */
module AudioRuns {
  import opened Words
  import opened Ring
  import opened AudioSpec
  import opened AudioSteps
  import opened AudioTheorems
  import opened AudioBridge

  // ---- building runs ----

  lemma RunSnocs(c: Config, payload: seq<Byte>, acts: seq<Action>, a: Action)
    ensures AudioSteps.Run(c, payload, acts + [a]) == Next(c, AudioSteps.Run(c, payload, acts), a)
  {
    assert (acts + [a])[..|acts|] == acts;
  }

  lemma ReachNext(c: Config, s: State, a: Action)
    requires Reachable(c, s)
    ensures Reachable(c, Next(c, s, a))
  {
    var payload: seq<Byte>, acts: seq<Action> :| |payload| == c.cap && s == AudioSteps.Run(c, payload, acts);
    RunSnocs(c, payload, acts, a);
  }

  lemma ReachInit(c: Config) returns (s: State)
    ensures Reachable(c, s) && s == Init(s.payload) && |s.payload| == c.cap
  {
    var payload := Zeros(c.cap);
    assert AudioSteps.Run(c, payload, []) == Init(payload);
    s := Init(payload);
  }

  lemma {:induction false} ReachAlone(c: Config, s: State, n: nat)
    requires Reachable(c, s)
    ensures Reachable(c, ProduceAlone(c, s, n))
  {
    if n > 0 {
      ReachAlone(c, s, n - 1);
      ReachNext(c, ProduceAlone(c, s, n - 1), Produce);
    }
  }

  /** What stays the same while the producer pushes one-byte pieces: everything of the consumer's. */
  ghost predicate Grown(s: State, t: State, n: nat) {
    && t.tail == s.tail + n && t.seqno == s.seqno + 2 * n && t.producer.Resting?
    && t.consumer == s.consumer && t.head == s.head && t.log == s.log && t.replies == s.replies
  }

  /** One push of one byte, uninterrupted. */
  lemma PushByte(c: Config, s: State) returns (t: State)
    requires c.Valid() && Reachable(c, s) && s.producer.Resting?
    requires s.tail + 1 < U64 && s.seqno + 2 < U64
    ensures Reachable(c, t) && Grown(s, t, 1)
  {
    var raw := [0 as Byte];
    assert c.cap > 0 && Newest(c.cap, raw) == raw;
    assert |s.payload| == c.cap by {
      var es := ReachableInv(c, s);
    }
    ReachNext(c, s, BeginPush(raw));
    var entered := s.(producer := Entered(raw));
    assert Next(c, s, BeginPush(raw)) == entered;
    var steps, p := PushAlone(c, entered, raw);
    ReachAlone(c, entered, steps);
    t := Pushed(c, entered, raw, p);
  }

  lemma {:induction false} PushBytes(c: Config, s: State, n: nat) returns (t: State)
    requires c.Valid() && Reachable(c, s) && s.producer.Resting?
    requires s.tail + n < U64 && s.seqno + 2 * n < U64
    ensures Reachable(c, t) && Grown(s, t, n)
    decreases n
  {
    if n == 0 {
      t := s;
    } else {
      var s' := PushBytes(c, s, n - 1);
      t := PushByte(c, s');
    }
  }

  /** A read has fixed its window in `s`; nothing else of the state it began in has changed. */
  ghost predicate Windowed(c: Config, s: State, t: State, out: seq<Byte>, maxLatency: nat) {
    && t.consumer.Reading? && t.consumer.i == 0 && t == s.(consumer := t.consumer)
    && t.consumer.call == Call(Direct, out, maxLatency, false, 0, Begun(s.seqno))
    && t.consumer.at == Begin(c, t.consumer.call, s.seqno, s.tail, s.head)
  }

  /** The loads of a read that begins while the producer rests. */
  lemma FixWindow(c: Config, s: State, out: seq<Byte>, maxLatency: nat) returns (t: State)
    requires c.Valid() && Reachable(c, s) && s.consumer.Free? && s.seqno % 2 == 0
    ensures Reachable(c, t) && Windowed(c, s, t, out, maxLatency)
  {
    var call := Call(Direct, out, maxLatency, false, 0, Begun(s.seqno));
    ReachNext(c, s, BeginRead(out, maxLatency));
    var s1 := s.(consumer := AtLoop(call));
    ReachNext(c, s1, Consume(0));
    var s2 := s.(consumer := SeqSeen(call, s.seqno));
    ReachNext(c, s2, Consume(0));
    var s3 := s.(consumer := TailSeen(call, s.seqno, s.tail));
    ReachNext(c, s3, Consume(0));
    t := s.(consumer := Reading(call, Begin(c, call, s.seqno, s.tail, s.head), 0));
  }

  /** A read of no bytes with no budget moves `head` to `tail`. */
  lemma SkipAll(c: Config, s: State) returns (t: State)
    requires c.Valid() && Reachable(c, s) && s.consumer.Free? && s.seqno % 2 == 0
    ensures Reachable(c, t) && t.consumer.Free? && t.head == t.tail
    ensures t.tail == s.tail && t.seqno == s.seqno && t.producer == s.producer
  {
    var s1 := FixWindow(c, s, [], 0);
    assert s.head <= s.tail < U64 by {
      var es := ReachableInv(c, s);
    }
    NothingWanted(c, s.tail, s.head);
    t := AcceptsNothing(c, s1);
  }

  /** A read that wants nothing is accepted. */
  lemma AcceptsNothing(c: Config, s: State) returns (t: State)
    requires Reachable(c, s) && s.consumer.Reading? && s.tail < U64
    requires s.consumer.at.want == s.consumer.i == 0 && s.consumer.at.from == s.tail && s.consumer.at.s0 == s.seqno
    ensures Reachable(c, t) && t.consumer.Free? && t.head == t.tail
    ensures t.tail == s.tail && t.seqno == s.seqno && t.producer == s.producer
  {
    var Reading(call, at, _) := s.consumer;
    var s1 := s.(consumer := TailAgain(call, at, s.tail));
    ReachNext(c, s, Consume(0));
    assert Next(c, s, Consume(0)) == s1;
    WrappingIsDifference(s.tail, at.from);
    ReachNext(c, s1, Consume(0));
    var s2 := Next(c, s1, Consume(0));
    assert s2 == s1.(consumer := Accepted(call, at), log := s.log + [DeliveryOf(call, at)]);
    ReachNext(c, s2, Consume(0));
    t := Next(c, s2, Consume(0));
  }

  lemma NothingWanted(c: Config, tail: nat, head: nat)
    requires head <= tail
    ensures ReadFrom(c.Frame(), tail, head, 0) == tail && Want(c.Frame(), tail, tail, 0) == 0
  {
    ReadFromBounds(c.Frame(), tail, head, 0);
    RoundedBounds(0, c.Frame());
    WantBounds(c.Frame(), tail, tail, 0);
  }

  /** The reader copies on, up to its `j`-th byte. */
  lemma {:induction false} CopyOn(c: Config, s: State, j: nat) returns (t: State)
    requires Reachable(c, s) && s.consumer.Reading? && s.consumer.i <= j <= s.consumer.at.want
    ensures Reachable(c, t) && t.consumer.Reading? && t.consumer.i == j && t.consumer.at == s.consumer.at
    ensures t.consumer.call == s.consumer.call.(out := t.consumer.call.out)
    ensures |t.consumer.call.out| == |s.consumer.call.out| && |t.payload| == |s.payload|
    decreases j - s.consumer.i
  {
    if s.consumer.i == j {
      t := s;
    } else {
      ReachNext(c, s, Consume(0));
      t := CopyOn(c, Next(c, s, Consume(0)), j);
    }
  }

  // ---- the copy can leave the ring ----

  /** No read with such a buffer and budget ever loads from outside the ring. */
  ghost predicate ReadsInRing(c: Config, outLen: nat, maxLatency: nat) {
    forall s: State ::
      Reachable(c, s) && s.consumer.Reading?
      && |s.consumer.call.out| == outLen && s.consumer.call.maxLatency == maxLatency
      ==> LoadInRing(c, s)
  }

  /** The window of a read that starts on the last byte of the ring and finds all it can want. */
  lemma FullWindow(c: Config, head: nat, want: nat, outLen: nat, maxLatency: nat)
    requires want == MostWanted(c, outLen, maxLatency)
    ensures ReadFrom(c.Frame(), head + want, head, maxLatency) == head
    ensures Want(c.Frame(), head + want, head, outLen) == want
  {
    RoundedBounds(outLen, c.Frame());
    RoundedBounds(maxLatency, c.Frame());
    RoundedBounds(want, c.Frame());
  }

  /** The reader's position is the last byte of the ring, and `n` bytes are queued. */
  lemma QueueFromLastByte(c: Config, n: nat) returns (s: State)
    requires c.Valid() && 2 * (c.cap + n) < U64
    ensures Reachable(c, s) && s.consumer.Free? && s.seqno % 2 == 0 && s.head == c.cap - 1 && s.tail == s.head + n
  {
    var s0 := ReachInit(c);
    var s1 := PushBytes(c, s0, c.cap - 1);
    var s2 := SkipAll(c, s1);
    s := PushBytes(c, s2, n);
  }

  lemma LastLoad(c: Config, want: nat)
    requires c.Valid() && want > c.cap + 1
    ensures CopyIndex(c.cap, MaskOf(c, c.cap - 1), want, want - 1) == want - 2 >= c.cap
  {
    MaskIsMod(c.cap, c.cap - 1);
    DivModUnique(c.cap - 1, c.cap, 0, c.cap - 1);
  }

  /**
   A copy that runs past the ring: the reader's position is the last byte of the ring, and what it
   wants, all of it queued, goes round the ring once and past its end.
   */
  lemma LeavesRing(c: Config, out: seq<Byte>, maxLatency: nat) returns (s: State)
    requires c.Valid() && MostWanted(c, |out|, maxLatency) > c.cap + 1
    requires 2 * (c.cap + MostWanted(c, |out|, maxLatency)) < U64
    ensures Reachable(c, s) && s.consumer.Reading? && !LoadInRing(c, s)
    ensures |s.consumer.call.out| == |out| && s.consumer.call.maxLatency == maxLatency
  {
    var want := MostWanted(c, |out|, maxLatency);
    var queued := QueueFromLastByte(c, want);
    var fixed := FixWindow(c, queued, out, maxLatency);
    FullWindow(c, c.cap - 1, want, |out|, maxLatency);
    s := CopyOn(c, fixed, want - 1);
    assert |s.payload| == c.cap by {
      var es := ReachableInv(c, s);
    }
    LastLoad(c, want);
  }

  /**
   Every load of every read with this buffer and budget is from inside the ring, in every
   interleaving, exactly when the read cannot want two bytes more than the ring holds.
   */
  lemma InRingIff(c: Config, outLen: nat, maxLatency: nat)
    requires c.Valid() && 2 * (c.cap + MostWanted(c, outLen, maxLatency)) < U64
    ensures ReadsInRing(c, outLen, maxLatency) <==> MostWanted(c, outLen, maxLatency) <= c.cap + 1
  {
    if MostWanted(c, outLen, maxLatency) <= c.cap + 1 {
      forall s: State |
        Reachable(c, s) && s.consumer.Reading?
        && |s.consumer.call.out| == outLen && s.consumer.call.maxLatency == maxLatency
        ensures LoadInRing(c, s)
      {
        LoadsStayInRing(c, s);
      }
    } else {
      var s := LeavesRing(c, Zeros(outLen), maxLatency);
    }
  }

  // ---- the loop can spin ----

  /** Some run reaches a call with this buffer and budget that no continuation completes. */
  ghost predicate CanSpin(c: Config, outLen: nat, maxLatency: nat) {
    exists s: State ::
      && Reachable(c, s) && InCall(s) && NeverReplies(c, s)
      && |s.consumer.call.out| == outLen && s.consumer.call.maxLatency == maxLatency
  }

  /** One byte more than the ring holds is queued when the read begins. */
  lemma Spins(c: Config, out: seq<Byte>, maxLatency: nat) returns (s: State)
    requires c.Valid() && 2 * (c.cap + 1) < U64 && Rounded(maxLatency, c.Frame()) > c.cap
    ensures Reachable(c, s) && InCall(s) && NeverReplies(c, s)
    ensures s.consumer.call.out == out && s.consumer.call.maxLatency == maxLatency
  {
    var s0 := ReachInit(c);
    var s1 := PushBytes(c, s0, c.cap + 1);
    ReachNext(c, s1, BeginRead(out, maxLatency));
    s := s1.(consumer := AtLoop(Call(Direct, out, maxLatency, false, 0, Begun(s1.seqno))));
    assert s == Next(c, s1, BeginRead(out, maxLatency));
    assert NeverReplies(c, s) by {
      assert Stuck(c, s);
      var es := ReachableInv(c, s);
      StuckNeverReplies(c, s);
    }
  }

  /** Some run reaches a call that no continuation completes exactly when its frame-rounded budget exceeds the ring. */
  lemma SpinsIff(c: Config, outLen: nat, maxLatency: nat)
    requires c.Valid() && 2 * (c.cap + 1) < U64
    ensures CanSpin(c, outLen, maxLatency) <==> Rounded(maxLatency, c.Frame()) > c.cap
  {
    if Rounded(maxLatency, c.Frame()) > c.cap {
      var s := Spins(c, Zeros(outLen), maxLatency);
    } else if CanSpin(c, outLen, maxLatency) {
      var s: State :|
        && Reachable(c, s) && InCall(s) && NeverReplies(c, s)
        && |s.consumer.call.out| == outLen && s.consumer.call.maxLatency == maxLatency;
      var es := ReachableInv(c, s);
      NeverRepliesIff(c, s);
    }
  }

  // ---- frame alignment ----

  lemma {:induction false} EffectsPrefix(c: Config, payload: seq<Byte>, acts: seq<Action>, k: nat)
    requires k <= |acts|
    ensures Effects(c, payload, acts[..k]) <= Effects(c, payload, acts)
    decreases |acts|
  {
    if k == |acts| {
      assert acts[..k] == acts;
    } else {
      EffectsPrefix(c, payload, acts[..|acts| - 1], k);
      assert acts[..|acts| - 1][..k] == acts[..k];
    }
  }

  ghost predicate AlignedAlong(c: Config, payload: seq<Byte>, acts: seq<Action>) {
    forall k :: 0 <= k <= |acts| ==> Aligned(c, Abs(AudioSteps.Run(c, payload, acts[..k])))
  }

  /** Every push of the run added whole frames. */
  ghost predicate AllKeepFrames(c: Config, es: seq<Event>) {
    forall i :: 0 <= i < |es| ==> KeepsFrames(c, es[i])
  }

  /** An action between two aligned states had only effects that keep frames whole. */
  lemma EffectKeepsFrames(c: Config, s: State, a: Action)
    requires c.Valid() && Inv(c, s) && Aligned(c, Abs(s)) && Aligned(c, Abs(Next(c, s, a)))
    ensures AllKeepFrames(c, Effect(c, s, a))
  {
    assert Abs(Next(c, s, a)) == AfterAll(c, Abs(s), Effect(c, s, a)) by {
      NextRefines(c, s, a);
    }
    if |Effect(c, s, a)| > 0 {
      AddsWholeFrames(c, Abs(s), Effect(c, s, a)[0]);
    }
  }

  lemma {:induction false} AlignedKeepsFrames(c: Config, payload: seq<Byte>, acts: seq<Action>)
    requires c.Valid() && |payload| == c.cap && AlignedAlong(c, payload, acts)
    ensures AllKeepFrames(c, Effects(c, payload, acts))
    decreases |acts|
  {
    if |acts| > 0 {
      var before, a := acts[..|acts| - 1], acts[|acts| - 1];
      forall k | 0 <= k <= |before|
        ensures Aligned(c, Abs(AudioSteps.Run(c, payload, before[..k])))
      {
        assert before[..k] == acts[..k];
      }
      AlignedKeepsFrames(c, payload, before);
      Linearizes(c, payload, before);
      assert before[..|before|] == before && acts[..|acts|] == acts;
      EffectKeepsFrames(c, AudioSteps.Run(c, payload, before), a);
    }
  }

  lemma KeptIsAligned(c: Config, payload: seq<Byte>, acts: seq<Action>)
    requires c.Valid() && |payload| == c.cap
    requires AllKeepFrames(c, Effects(c, payload, acts))
    ensures AlignedAlong(c, payload, acts)
  {
    forall k | 0 <= k <= |acts|
      ensures Aligned(c, Abs(AudioSteps.Run(c, payload, acts[..k])))
    {
      EffectsPrefix(c, payload, acts, k);
      Linearizes(c, payload, acts[..k]);
      RunAligned(c, Effects(c, payload, acts[..k]));
    }
  }

  /** An interleaving is frame-aligned all along exactly when every push it published added whole frames. */
  lemma AlignedAlongIff(c: Config, payload: seq<Byte>, acts: seq<Action>)
    requires c.Valid() && |payload| == c.cap
    ensures AlignedAlong(c, payload, acts) <==> AllKeepFrames(c, Effects(c, payload, acts))
  {
    if AlignedAlong(c, payload, acts) {
      AlignedKeepsFrames(c, payload, acts);
    } else if AllKeepFrames(c, Effects(c, payload, acts)) {
      KeptIsAligned(c, payload, acts);
    }
  }

  /** Every push handed over is a whole number of frames, of any length. */
  predicate WholePushes(c: Config, acts: seq<Action>) {
    forall i :: 0 <= i < |acts| && acts[i].BeginPush? ==> c.Whole(|acts[i].raw|)
  }

  function Produces(n: nat): seq<Action> {
    if n == 0 then [] else Produces(n - 1) + [Produce]
  }

  lemma {:induction false} AloneIsRun(c: Config, payload: seq<Byte>, acts: seq<Action>, n: nat)
    ensures AudioSteps.Run(c, payload, acts + Produces(n)) == ProduceAlone(c, AudioSteps.Run(c, payload, acts), n)
    decreases n
  {
    if n == 0 {
      assert acts + Produces(n) == acts;
    } else {
      AloneIsRun(c, payload, acts, n - 1);
      ProduceSnocs(c, payload, acts, Produces(n - 1));
    }
  }

  lemma ProduceSnocs(c: Config, payload: seq<Byte>, acts: seq<Action>, more: seq<Action>)
    ensures AudioSteps.Run(c, payload, acts + (more + [Produce]))
         == ProduceStep(c, AudioSteps.Run(c, payload, acts + more))
  {
    RunSnocs(c, payload, acts + more, Produce);
    assert acts + (more + [Produce]) == acts + more + [Produce];
  }

  /** A push made by the producer alone, right after `init`. */
  lemma FirstPush(c: Config, payload: seq<Byte>, raw: seq<Byte>) returns (acts: seq<Action>)
    requires c.Valid() && |payload| == c.cap && |Newest(c.cap, raw)| > 0
    ensures |acts| > 0 && acts[0] == BeginPush(raw) && forall i :: 0 < i < |acts| ==> acts[i] == Produce
    ensures AudioSteps.Run(c, payload, acts).hist == Newest(c.cap, raw)
  {
    var s0, entered := Init(payload), Init(payload).(producer := Entered(raw));
    var first := [BeginPush(raw)];
    assert AudioSteps.Run(c, payload, first) == entered by {
      assert AudioSteps.Run(c, payload, []) == s0 && [] + first == first;
      RunSnocs(c, payload, [], BeginPush(raw));
    }
    var steps, p := PushAlone(c, entered, raw);
    AloneIsRun(c, payload, first, steps);
    OnlyProduces(steps);
    acts := first + Produces(steps);
    assert Pushed(c, entered, raw, p).hist == Newest(c.cap, raw);
  }

  lemma {:induction false} OnlyProduces(n: nat)
    ensures forall i :: 0 <= i < |Produces(n)| ==> Produces(n)[i] == Produce
  {
    if n > 0 {
      OnlyProduces(n - 1);
    }
  }

  /** One whole-frame push longer than the ring, when the ring is not whole frames. */
  lemma SplitsFrame(c: Config, payload: seq<Byte>) returns (acts: seq<Action>)
    requires c.Valid() && |payload| == c.cap && !c.Whole(c.cap)
    ensures WholePushes(c, acts) && !Aligned(c, Abs(AudioSteps.Run(c, payload, acts)))
  {
    var es := OversizedPush(c);
    acts := FirstPush(c, payload, es[0].src);
  }

  /** Whole-frame pushes of any length keep every interleaving aligned exactly when `frame` divides `cap`. */
  lemma InterleavingsAlignedIff(c: Config)
    requires c.Valid()
    ensures c.Whole(c.cap)
       <==> forall payload: seq<Byte>, acts: seq<Action> ::
              |payload| == c.cap && WholePushes(c, acts) ==> Aligned(c, Abs(AudioSteps.Run(c, payload, acts)))
  {
    if c.Whole(c.cap) {
      forall payload: seq<Byte>, acts: seq<Action> | |payload| == c.cap && WholePushes(c, acts)
        ensures Aligned(c, Abs(AudioSteps.Run(c, payload, acts)))
      {
        forall i | 0 <= i < |acts| && acts[i].BeginPush?
          ensures KeepsFrames(c, Push(acts[i].raw))
        {
          CutKeepsFrames(c.cap, c.Frame(), acts[i].raw);
        }
        EffectsKeepFrames(c, payload, acts);
        Linearizes(c, payload, acts);
        RunAligned(c, Effects(c, payload, acts));
      }
    } else {
      var acts := SplitsFrame(c, Zeros(c.cap));
    }
  }
}
