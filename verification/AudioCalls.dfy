/**
 What each call of the audio ring gets for its arguments, in every interleaving: a push takes
 effect within a fixed number of the producer's own steps, and a read answers the buffer and
 budget it was given, counts the overflow it saw and is retried only for pushes.
 */
module AudioCalls {
  import opened Words
  import opened Ring
  import opened AudioSpec
  import opened AudioSteps
  import opened AudioTheorems

  // ---- the producer never waits ----

  /** Steps of the producer in a run. */
  function ProduceSteps(acts: seq<Action>): nat {
    if |acts| == 0 then 0 else ProduceSteps(acts[..|acts| - 1]) + if acts[|acts| - 1].Produce? then 1 else 0
  }

  /** Steps of the producer left in a push of `raw`. */
  function StepsOfPush(c: Config, p: Producer): nat {
    match p
    case Resting => 0
    case Entered(raw) => |Newest(c.cap, raw)| + 5
    case TailLoaded(raw, tail) => |Newest(c.cap, raw)| + 4
    case SeqLoaded(raw, tail, q) => |Newest(c.cap, raw)| + 3
    case Writing(raw, tail, q, i) => SaturatingSub(|Newest(c.cap, raw)|, i) + 2
    case TailStored(q) => 1
  }

  /** The push of `raw` begun in `s` is under way in `t`, or published. */
  ghost predicate Pushing(c: Config, s: State, raw: seq<Byte>, t: State) {
    if t.hist == s.hist then
      && t.pushed == s.pushed
      && (t.producer.Entered? || t.producer.TailLoaded? || t.producer.SeqLoaded? || t.producer.Writing?)
      && t.producer.raw == raw
    else s.pushed + raw <= t.pushed && s.hist + Newest(c.cap, raw) <= t.hist
  }

  lemma PushProduces(c: Config, s: State, raw: seq<Byte>, t: State)
    requires c.Valid() && Inv(c, t) && Pushing(c, s, raw, t) && |raw| > 0
    ensures Pushing(c, s, raw, ProduceStep(c, t))
    ensures t.hist == s.hist ==> StepsOfPush(c, ProduceStep(c, t).producer) == StepsOfPush(c, t.producer) - 1
  {
    assert |Newest(c.cap, raw)| > 0;
  }

  lemma PushUndisturbed(c: Config, s: State, raw: seq<Byte>, t: State, a: Action)
    requires Pushing(c, s, raw, t) && !a.Produce?
    ensures Pushing(c, s, raw, Next(c, t, a)) && Next(c, t, a).hist == t.hist
    ensures t.hist == s.hist ==> Next(c, t, a).producer == t.producer
  {
  }

  lemma {:induction false} PushRuns(c: Config, s: State, raw: seq<Byte>, acts: seq<Action>)
    requires c.Valid() && Inv(c, s) && s.producer == Entered(raw) && |raw| > 0
    ensures var t := RunFrom(c, s, acts);
      && Inv(c, t) && Pushing(c, s, raw, t)
      && (t.hist == s.hist ==> StepsOfPush(c, t.producer) + ProduceSteps(acts) == |Newest(c.cap, raw)| + 5)
  {
    if |acts| > 0 {
      var before, a := acts[..|acts| - 1], acts[|acts| - 1];
      PushRuns(c, s, raw, before);
      var t := RunFrom(c, s, before);
      NextRefines(c, t, a);
      if a.Produce? {
        PushProduces(c, s, raw, t);
      } else {
        PushUndisturbed(c, s, raw, t, a);
      }
    }
  }

  /**
   The producer never waits: a push of any length begins whenever none is in progress and the
   counters have room, and is published within `min(|raw|, cap) + 4` of the producer's own steps,
   whatever the reader is doing or does meanwhile.
   */
  lemma PushNeverWaits(c: Config, s: State, raw: seq<Byte>, acts: seq<Action>)
    requires c.Valid() && Inv(c, s) && s.producer.Resting? && |raw| > 0
    requires s.tail + Min(|raw|, c.cap) < U64 && s.seqno + 2 < U64
    requires ProduceSteps(acts) >= Min(|raw|, c.cap) + 4
    ensures var t := RunFrom(c, Next(c, s, BeginPush(raw)), acts);
      && s.pushed + raw <= t.pushed && s.hist <= t.hist && s.tail + Min(|raw|, c.cap) <= t.tail
  {
    var s1 := Next(c, s, BeginPush(raw));
    assert s1 == s.(producer := Entered(raw));
    BeginRefines(c, s, BeginPush(raw));
    PushRuns(c, s1, raw, acts);
    var t := RunFrom(c, s1, acts);
    assert |t.hist| == t.tail && |s.hist| == s.tail;
    if t.hist == s.hist {
      assert false;
    }
  }

  // ---- a read answers its arguments ----

  /** The call in progress was made by `caller` with a buffer of `outLen` bytes and this budget. */
  predicate Serves(s: State, caller: Caller, outLen: nat, maxLatency: nat) {
    match s.consumer
    case Free => false
    case AtPointers(window, latency) =>
      caller == Callback(latency) && |window| == outLen && maxLatency == outLen + latency
    case HeadSampled(window, latency, head) =>
      caller == Callback(latency) && |window| == outLen && maxLatency == outLen + latency
    case _ =>
      && s.consumer.call.caller == caller && |s.consumer.call.out| == outLen
      && s.consumer.call.maxLatency == maxLatency
  }

  /** The call is still in progress, or the first reply since `s` is its. */
  ghost predicate Answers(s: State, t: State, caller: Caller, outLen: nat, maxLatency: nat) {
    && s.replies <= t.replies && |t.replies| <= |t.log|
    && (t.replies == s.replies ==> Serves(t, caller, outLen, maxLatency))
    && (t.replies != s.replies ==>
          var r, d := t.replies[|s.replies|], t.log[|s.replies|];
          && r.caller == caller && |r.out| == outLen && d.outLen == outLen && d.maxLatency == maxLatency)
  }

  /** Only the consumer's own steps touch a call in progress. */
  lemma OthersLeaveCall(c: Config, t: State, a: Action)
    requires !a.Consume? && !t.consumer.Free?
    ensures var u := Next(c, t, a);
      u.consumer == t.consumer && u.head == t.head && u.replies == t.replies && u.log == t.log
  {
  }

  /** A step of the consumer short of the reply. */
  lemma ServesStep(c: Config, t: State, stray: Byte, caller: Caller, outLen: nat, maxLatency: nat)
    requires Serves(t, caller, outLen, maxLatency) && !t.consumer.Accepted?
    ensures var u := ConsumeStep(c, t, stray);
      Serves(u, caller, outLen, maxLatency) && u.replies == t.replies && t.log <= u.log
  {
  }

  /** The step that replies. */
  lemma ReplyStep(c: Config, t: State, stray: Byte, caller: Caller, outLen: nat, maxLatency: nat)
    requires |t.replies| + 1 == |t.log| && Serves(t, caller, outLen, maxLatency) && t.consumer.Accepted?
    requires t.log[|t.log| - 1] == DeliveryOf(t.consumer.call, t.consumer.at)
    ensures var u := ConsumeStep(c, t, stray);
      && |u.replies| == |t.replies| + 1 == |u.log| && t.replies <= u.replies
      && var r, d := u.replies[|t.replies|], u.log[|t.replies|];
         r.caller == caller && |r.out| == outLen && d.outLen == outLen && d.maxLatency == maxLatency
  {
  }

  /** Replies and the log only grow. */
  lemma HistoryGrows(c: Config, t: State, a: Action)
    ensures t.replies <= Next(c, t, a).replies && t.log <= Next(c, t, a).log
  {
  }

  /** One delivery is logged for each reply, and one more between the recheck that passes and the reply. */
  predicate LogMatches(t: State) {
    && |t.replies| + (if t.consumer.Accepted? then 1 else 0) == |t.log|
    && (t.consumer.Accepted? ==> t.log[|t.log| - 1] == DeliveryOf(t.consumer.call, t.consumer.at))
  }

  lemma InvMatchesLog(c: Config, t: State)
    requires Inv(c, t)
    ensures LogMatches(t)
  {
  }

  lemma AnswersStep(c: Config, s: State, t: State, a: Action, caller: Caller, outLen: nat, maxLatency: nat)
    requires Answers(s, t, caller, outLen, maxLatency) && LogMatches(t) && LogMatches(Next(c, t, a))
    ensures Answers(s, Next(c, t, a), caller, outLen, maxLatency)
  {
    if t.replies != s.replies {
      HistoryGrows(c, t, a);
      assert Next(c, t, a).replies[|s.replies|] == t.replies[|s.replies|];
    } else if !a.Consume? {
      OthersLeaveCall(c, t, a);
    } else if t.consumer.Accepted? {
      ReplyStep(c, t, a.stray, caller, outLen, maxLatency);
    } else {
      ServesStep(c, t, a.stray, caller, outLen, maxLatency);
    }
  }

  lemma {:induction false} AnswersRun(c: Config, s: State, acts: seq<Action>,
                                      caller: Caller, outLen: nat, maxLatency: nat)
    requires c.Valid() && Inv(c, s) && Serves(s, caller, outLen, maxLatency)
    ensures Inv(c, RunFrom(c, s, acts)) && Answers(s, RunFrom(c, s, acts), caller, outLen, maxLatency)
  {
    if |acts| > 0 {
      var before, a := acts[..|acts| - 1], acts[|acts| - 1];
      AnswersRun(c, s, before, caller, outLen, maxLatency);
      NextRefines(c, RunFrom(c, s, before), a);
      InvMatchesLog(c, RunFrom(c, s, before));
      InvMatchesLog(c, Next(c, RunFrom(c, s, before), a));
      AnswersStep(c, s, RunFrom(c, s, before), a, caller, outLen, maxLatency);
    }
  }

  /** `read_quantum(out, maxLatency)`: the next reply fills a buffer of that length under that budget. */
  lemma ReadAnswered(c: Config, s: State, out: seq<Byte>, maxLatency: nat, acts: seq<Action>)
    requires c.Valid() && Inv(c, s) && s.consumer.Free?
    ensures Answers(s, RunFrom(c, Next(c, s, BeginRead(out, maxLatency)), acts), Direct, |out|, maxLatency)
  {
    BeginRefines(c, s, BeginRead(out, maxLatency));
    AnswersRun(c, Next(c, s, BeginRead(out, maxLatency)), acts, Direct, |out|, maxLatency);
  }

  /** The callback's reply fills the most whole frames its slice holds; its budget is that window and the latency. */
  lemma CallbackAnswered(c: Config, s: State, slice: seq<Byte>, latency: nat, acts: seq<Action>)
      returns (window: nat)
    requires c.Valid() && Inv(c, s) && s.consumer.Free? && c.frameBytes > 0
    ensures MostFrames(c.frameBytes, |slice|, window)
    ensures Answers(s, RunFrom(c, Next(c, s, BeginCallback(slice, latency)), acts),
                    Callback(latency), window, window + latency)
  {
    window := Rounded(|slice|, c.frameBytes);
    RoundedIsMost(c.frameBytes, |slice|);
    BeginRefines(c, s, BeginCallback(slice, latency));
    AnswersRun(c, Next(c, s, BeginCallback(slice, latency)), acts, Callback(latency), window, window + latency);
  }

  /** With the producer between pushes and a fitting backlog the call replies. */
  lemma ReadReplies(c: Config, s: State, out: seq<Byte>, maxLatency: nat, strays: seq<Byte>)
    requires c.Valid() && Inv(c, s) && s.consumer.Free? && s.seqno % 2 == 0
    requires Clamped(c, s, maxLatency) <= c.cap && |strays| >= |out| + 6
    ensures var t := Solo(c, Next(c, s, BeginRead(out, maxLatency)), strays);
      t.consumer.Free? && |t.replies| == |s.replies| + 1
  {
    BeginRefines(c, s, BeginRead(out, maxLatency));
    ReturnsIffBacklogFits(c, Next(c, s, BeginRead(out, maxLatency)), strays);
  }

  /** The callback loads `head`, then `tail`, and enters such a call. */
  lemma CallbackEnters(c: Config, s: State, slice: seq<Byte>, latency: nat, b0: Byte, b1: Byte) returns (t: State)
    requires c.Valid() && Inv(c, s) && s.consumer.Free? && c.frameBytes > 0
    ensures t == ConsumeStep(c, ConsumeStep(c, Next(c, s, BeginCallback(slice, latency)), b0), b1)
    ensures Inv(c, t) && t == s.(consumer := t.consumer) && t.consumer.AtLoop?
    ensures t.consumer.call.maxLatency == Rounded(|slice|, c.frameBytes) + latency
    ensures |t.consumer.call.out| <= |slice|
  {
    var s1 := Next(c, s, BeginCallback(slice, latency));
    BeginRefines(c, s, BeginCallback(slice, latency));
    RoundedBounds(|slice|, c.frameBytes);
    var s2 := s1.(consumer := HeadSampled(s1.consumer.window, latency, s.head));
    assert Inv(c, s2) && s2 == ConsumeStep(c, s1, b0) by {
      ConsumeRefines(c, s1, b0);
    }
    t := ConsumeStep(c, s2, b1);
    assert Inv(c, t) by {
      ConsumeRefines(c, s2, b1);
    }
  }

  lemma SoloTwice(c: Config, s: State, strays: seq<Byte>)
    requires |strays| >= 2
    ensures Solo(c, s, strays) == Solo(c, ConsumeStep(c, ConsumeStep(c, s, strays[0]), strays[1]), strays[2..])
  {
    assert strays[1..][0] == strays[1] && strays[1..][1..] == strays[2..];
  }

  lemma CallbackReplies(c: Config, s: State, slice: seq<Byte>, latency: nat, strays: seq<Byte>)
    requires c.Valid() && Inv(c, s) && s.consumer.Free? && s.seqno % 2 == 0 && c.frameBytes > 0
    requires Clamped(c, s, Rounded(|slice|, c.frameBytes) + latency) <= c.cap && |strays| >= |slice| + 8
    ensures var t := Solo(c, Next(c, s, BeginCallback(slice, latency)), strays);
      t.consumer.Free? && |t.replies| == |s.replies| + 1
  {
    SoloTwice(c, Next(c, s, BeginCallback(slice, latency)), strays);
    var t := CallbackEnters(c, s, slice, latency, strays[0], strays[1]);
    ReturnsIffBacklogFits(c, t, strays[2..]);
  }

  // ---- what the callback counts ----

  /** The callback in progress has counted an overflow, or is bound to. */
  predicate WillCount(s: State) {
    match s.consumer
    case Free => false
    case AtPointers(window, latency) => s.tail > s.head + |window| + latency
    case HeadSampled(window, latency, head) => s.tail > head + |window| + latency
    case _ => s.consumer.call.overflow
  }

  ghost predicate Counted(s: State, t: State) {
    && s.replies <= t.replies
    && (t.replies == s.replies ==> WillCount(t))
    && (t.replies != s.replies ==> t.replies[|s.replies|].overflow)
  }

  lemma WillCountStep(c: Config, t: State, stray: Byte)
    requires WillCount(t) && !t.consumer.Accepted? && ConsumerInv(c, t.consumer, t.head, t.tail, t.seqno, t.hist, t.log)
    ensures WillCount(ConsumeStep(c, t, stray)) && ConsumeStep(c, t, stray).replies == t.replies
  {
  }

  lemma CountedReply(c: Config, t: State, stray: Byte)
    requires WillCount(t) && t.consumer.Accepted?
    ensures var u := ConsumeStep(c, t, stray);
      |u.replies| == |t.replies| + 1 && t.replies <= u.replies && u.replies[|t.replies|].overflow
  {
  }

  lemma WillCountStays(c: Config, t: State, a: Action)
    requires c.Valid() && Inv(c, t) && WillCount(t) && !a.Consume?
    ensures WillCount(Next(c, t, a))
  {
    OthersLeaveCall(c, t, a);
    if a.Produce? {
      ProduceKeepsProducer(c, t);
    }
  }

  lemma CountedStep(c: Config, s: State, t: State, a: Action)
    requires Counted(s, t) && (!a.Consume? && WillCount(t) ==> WillCount(Next(c, t, a)))
    requires ConsumerInv(c, t.consumer, t.head, t.tail, t.seqno, t.hist, t.log)
    ensures Counted(s, Next(c, t, a))
  {
    if t.replies != s.replies {
      HistoryGrows(c, t, a);
      assert Next(c, t, a).replies[|s.replies|] == t.replies[|s.replies|];
    } else if !a.Consume? {
      OthersLeaveCall(c, t, a);
    } else if t.consumer.Accepted? {
      CountedReply(c, t, a.stray);
    } else {
      WillCountStep(c, t, a.stray);
    }
  }

  lemma {:induction false} CountedRun(c: Config, s: State, acts: seq<Action>)
    requires c.Valid() && Inv(c, s) && WillCount(s)
    ensures Inv(c, RunFrom(c, s, acts)) && Counted(s, RunFrom(c, s, acts))
  {
    if |acts| > 0 {
      CountedRun(c, s, acts[..|acts| - 1]);
      NextRefines(c, RunFrom(c, s, acts[..|acts| - 1]), acts[|acts| - 1]);
      if !acts[|acts| - 1].Consume? && WillCount(RunFrom(c, s, acts[..|acts| - 1])) {
        WillCountStays(c, RunFrom(c, s, acts[..|acts| - 1]), acts[|acts| - 1]);
      }
      CountedStep(c, s, RunFrom(c, s, acts[..|acts| - 1]), acts[|acts| - 1]);
    }
  }

  /** A backlog over the callback's budget when it starts is counted as an overflow, whatever is pushed meanwhile. */
  lemma OverflowIsCounted(c: Config, s: State, slice: seq<Byte>, latency: nat, acts: seq<Action>)
    requires c.Valid() && Inv(c, s) && s.consumer.Free? && c.frameBytes > 0
    requires s.tail > s.head + |slice| + latency
    ensures var t := RunFrom(c, Next(c, s, BeginCallback(slice, latency)), acts);
      && s.replies <= t.replies
      && (t.replies != s.replies ==> t.replies[|s.replies|].overflow)
  {
    BeginRefines(c, s, BeginCallback(slice, latency));
    RoundedBounds(|slice|, c.frameBytes);
    CountedRun(c, Next(c, s, BeginCallback(slice, latency)), acts);
  }

  // ---- retries, counted over the run ----

  /** Pushes begun in a run: stores that make `seq` odd. */
  function PushesBegun(c: Config, s: State, acts: seq<Action>): nat {
    if |acts| == 0 then 0
    else
      var before, a := acts[..|acts| - 1], acts[|acts| - 1];
      PushesBegun(c, s, before)
      + if a.Produce? && RunFrom(c, s, before).producer.SeqLoaded? then 1 else 0
  }

  /** Retries in a run: rechecks that failed. */
  function RetriesMade(c: Config, s: State, acts: seq<Action>): nat {
    if |acts| == 0 then 0
    else
      var before, a := acts[..|acts| - 1], acts[|acts| - 1];
      var t := RunFrom(c, s, before);
      RetriesMade(c, s, before) + if a.Consume? && t.consumer.TailAgain? && !Accepts(c, t) then 1 else 0
  }

  lemma BegunStep(c: Config, s: State, a: Action)
    requires c.Valid() && ProducerInv(c, s) && s.seqno < U64
    ensures Begun(Next(c, s, a).seqno) == Begun(s.seqno) + if a.Produce? && s.producer.SeqLoaded? then 1 else 0
  {
  }

  lemma {:induction false} BegunRun(c: Config, s: State, acts: seq<Action>)
    requires c.Valid() && Inv(c, s)
    ensures Inv(c, RunFrom(c, s, acts)) && Begun(RunFrom(c, s, acts).seqno) == Begun(s.seqno) + PushesBegun(c, s, acts)
  {
    if |acts| > 0 {
      BegunRun(c, s, acts[..|acts| - 1]);
      NextRefines(c, RunFrom(c, s, acts[..|acts| - 1]), acts[|acts| - 1]);
      BegunStep(c, RunFrom(c, s, acts[..|acts| - 1]), acts[|acts| - 1]);
    }
  }

  /** The call of `s` is still in progress in `t`, after `n` more retries, or has replied. */
  ghost predicate Retried(s: State, t: State, n: nat)
    requires InCall(s)
  {
    && s.replies <= t.replies
    && (t.replies == s.replies ==>
          && InCall(t) && t.consumer.call.begun == s.consumer.call.begun
          && t.consumer.call.retries == s.consumer.call.retries + n)
  }

  lemma RetriedStep(c: Config, s: State, t: State, n: nat, a: Action)
    requires InCall(s) && Retried(s, t, n)
    ensures Retried(s, Next(c, t, a), n + if a.Consume? && t.consumer.TailAgain? && !Accepts(c, t) then 1 else 0)
  {
  }

  lemma {:induction false} RetriedRun(c: Config, s: State, acts: seq<Action>)
    requires InCall(s)
    ensures Retried(s, RunFrom(c, s, acts), RetriesMade(c, s, acts))
  {
    if |acts| > 0 {
      RetriedRun(c, s, acts[..|acts| - 1]);
      RetriedStep(c, s, RunFrom(c, s, acts[..|acts| - 1]), RetriesMade(c, s, acts[..|acts| - 1]), acts[|acts| - 1]);
    }
  }

  /** The reply of a call reports its retries and the pushes begun during it. */
  lemma ReplyReports(c: Config, s: State, acts: seq<Action>, t: State, stray: Byte)
    requires c.Valid() && Inv(c, s) && s.consumer.AtLoop? && t == RunFrom(c, s, acts)
    requires s.consumer.call.retries == 0 && s.consumer.call.begun == Begun(s.seqno)
    requires t.replies == s.replies && t.consumer.Accepted?
    ensures var u := ConsumeStep(c, t, stray);
      && |u.replies| == |s.replies| + 1
      && u.replies[|s.replies|].retries == RetriesMade(c, s, acts)
      && u.replies[|s.replies|].pushes == PushesBegun(c, s, acts)
  {
    RetriedRun(c, s, acts);
    assert Begun(t.seqno) == Begun(s.seqno) + PushesBegun(c, s, acts) by {
      BegunRun(c, s, acts);
    }
  }

  /** Of a call that is accepted, the failed rechecks are at most as many as the pushes begun since it started. */
  lemma RetriesArePaid(c: Config, s: State, out: seq<Byte>, maxLatency: nat, s1: State, acts: seq<Action>)
    requires c.Valid() && Inv(c, s) && s.consumer.Free? && s1 == Next(c, s, BeginRead(out, maxLatency))
    requires RunFrom(c, s1, acts).replies == s.replies && RunFrom(c, s1, acts).consumer.Accepted?
    ensures RetriesMade(c, s1, acts) <= PushesBegun(c, s1, acts)
  {
    BeginRefines(c, s, BeginRead(out, maxLatency));
    AcceptedIsPaid(c, s1, acts, RunFrom(c, s1, acts));
  }

  lemma BegunWhenAccepted(c: Config, s: State, acts: seq<Action>, t: State)
    requires c.Valid() && Inv(c, s) && t == RunFrom(c, s, acts) && t.consumer.Accepted?
    ensures t.consumer.call.retries + t.consumer.call.begun <= Begun(s.seqno) + PushesBegun(c, s, acts)
  {
    assert Begun(t.seqno) == Begun(s.seqno) + PushesBegun(c, s, acts) && PaidFor(t) by {
      BegunRun(c, s, acts);
      AcceptedPaid(c, RunFrom(c, s, acts));
    }
  }

  predicate PaidFor(t: State) {
    t.consumer.Accepted? ==> t.consumer.call.retries + t.consumer.call.begun <= Begun(t.seqno)
  }

  lemma AcceptedPaid(c: Config, t: State)
    requires Inv(c, t)
    ensures PaidFor(t)
  {
  }

  lemma AcceptedIsPaid(c: Config, s: State, acts: seq<Action>, t: State)
    requires c.Valid() && Inv(c, s) && s.consumer.AtLoop? && t == RunFrom(c, s, acts)
    requires s.consumer.call.retries == 0 && s.consumer.call.begun == Begun(s.seqno)
    requires t.replies == s.replies && t.consumer.Accepted?
    ensures RetriesMade(c, s, acts) <= PushesBegun(c, s, acts)
  {
    RetriedRun(c, s, acts);
    BegunWhenAccepted(c, s, acts, t);
  }
}
