/**
 What the forwarding loop guarantees in every run: frames in order and whole, which frames it
 forwards, which it never will, and that it makes progress.
 */
module RunVideoTheorems {
  import opened Words
  import opened RunVideo
  import V = VideoSteps

  // ---- order and whole frames ----

  /**
   Forwarded frame numbers strictly increase, so no frame is forwarded twice; what is offered to the
   pipe is that frame, exactly.
   */
  lemma ForwardsInOrder(c: V.Config, s: State)
    requires c.slots >= 2 && Reachable(c, s)
    ensures Increasing(s.forwarded) && Below(s.forwarded, |s.ring.frames|)
    ensures s.loop.CheckRoom? || s.loop.WritePipe? ==> IsFrame(s.ring, s.loop.number, s.loop.bytes)
  {
    ReachableInv(c, s);
  }

  /**
   Whole frames only: on the open connection and on every closed one the bytes written are a
   concatenation of complete frames in increasing order, and what the reader has taken, in
   whatever chunks, is a prefix of it.
   */
  lemma StreamsAreWholeFrames(c: V.Config, s: State, pipe: Pipe)
    requires c.slots >= 2 && Reachable(c, s) && (pipe == s.pipe || pipe in s.closed)
    ensures pipe.sent == Joined(s.ring.frames, pipe.whole) && Increasing(pipe.whole)
    ensures |pipe.queued| <= |pipe.sent| && pipe.sent[..|pipe.sent| - |pipe.queued|] + pipe.queued == pipe.sent
  {
    assert PipeInv(s.ring.frames, pipe) by {
      ReachableInv(c, s);
      if pipe in s.closed {
        var i :| 0 <= i < |s.closed| && s.closed[i] == pipe;
        assert PipeInv(s.ring.frames, s.closed[i]);
      }
    }
  }

  // ---- publications ----

  /** The action stores the count of a finished frame. */
  predicate Publishes(c: V.Config, s: State, a: Action) {
    a.Producer? && V.Publishes(c, s.ring, a.push)
  }

  /** How many frames are published during a run. */
  function Publications(c: V.Config, s: State, acts: seq<Action>): nat {
    if |acts| == 0 then 0
    else
      var before, a := acts[..|acts| - 1], acts[|acts| - 1];
      Publications(c, s, before) + if Publishes(c, RunFrom(c, s, before), a) then 1 else 0
  }

  lemma WriteCounts(c: V.Config, ring: V.State)
    requires V.WriterInv(c, ring)
    ensures var done := ring.writer.Filling? && ring.writer.p >= c.frameSize;
      && V.WriteStep(c, ring).count == ring.count + (if done then 1 else 0)
      && (!done ==> V.WriteStep(c, ring).frames == ring.frames)
  {
  }

  /** The loop never changes the count. */
  lemma HostLeavesCount(c: V.Config, s: State, opens: bool, size: nat)
    ensures var t := HostStep(c, s, opens, size); t.ring.count == s.ring.count && t.ring.frames == s.ring.frames
  {
  }

  lemma StepCounts(c: V.Config, s: State, a: Action)
    requires V.WriterInv(c, s.ring)
    ensures Next(c, s, a).ring.count == s.ring.count + if Publishes(c, s, a) then 1 else 0
    ensures !Publishes(c, s, a) ==> Next(c, s, a).ring.frames == s.ring.frames
  {
    match a
    case Producer(push) =>
      if push.Write? {
        WriteCounts(c, s.ring);
      }
    case Host(opens, size) => HostLeavesCount(c, s, opens, size);
    case _ =>
  }

  /** `frame_seq` counts the publications. */
  lemma {:induction false} CountsPublications(c: V.Config, s: State, acts: seq<Action>)
    requires Inv(c, s)
    ensures Inv(c, RunFrom(c, s, acts))
    ensures RunFrom(c, s, acts).ring.count == s.ring.count + Publications(c, s, acts)
  {
    RunKeeps(c, s, acts);
    if |acts| > 0 {
      CountsPublications(c, s, acts[..|acts| - 1]);
      StepCounts(c, RunFrom(c, s, acts[..|acts| - 1]), acts[|acts| - 1]);
    }
  }

  /** One action that publishes nothing, while the loop has seen everything. */
  lemma QuietStep(c: V.Config, s: State, a: Action)
    requires Inv(c, s) && s.loop.Top? && s.lastCount == s.ring.count && !Publishes(c, s, a)
    ensures var t := Next(c, s, a);
      t.forwarded == s.forwarded && t.loop.Top? && t.lastCount == t.ring.count == s.ring.count
  {
    StepCounts(c, s, a);
  }

  /**
   Once `last_count` equals the published count nothing more is forwarded until the producer
   publishes again, whatever part of a frame it stores meanwhile.
   */
  lemma {:induction false} QuietUntilNextPublish(c: V.Config, s: State, acts: seq<Action>)
    requires Inv(c, s) && s.loop.Top? && s.lastCount == s.ring.count && Publications(c, s, acts) == 0
    ensures var t := RunFrom(c, s, acts);
      t.forwarded == s.forwarded && t.loop.Top? && t.lastCount == t.ring.count == s.ring.count
  {
    if |acts| > 0 {
      QuietUntilNextPublish(c, s, acts[..|acts| - 1]);
      RunKeeps(c, s, acts[..|acts| - 1]);
      QuietStep(c, RunFrom(c, s, acts[..|acts| - 1]), acts[|acts| - 1]);
    }
  }

  /** A torn copy leaves the loop behind the published count, so its next step goes for the newest frame again. */
  lemma TornIsRetried(c: V.Config, s: State, opens: bool, size: nat)
    requires c.slots >= 2 && Reachable(c, s) && s.loop.InRead? && HostStep(c, s, opens, size).loop.Top?
    ensures var t := HostStep(c, s, opens, size);
      && t.forwarded == s.forwarded && t.lastCount == s.loop.count < t.ring.count
      && HostStep(c, t, opens, size).loop == NewFrame(t.ring.count)
  {
    ReachableInv(c, s);
    ReadAdvances(c, s);
    var ring' := V.Next(c, s.ring, V.Read);
    if ring'.reader.Free? {
      assert V.GoodResult(c, ring'.results[|ring'.results| - 1], ring'.frames);
    }
  }

  // ---- the newest frame ----

  /** The copy of one frame, up to the load of `frame_seq` that follows it. */
  predicate InCopy(s: State) {
    s.loop.InRead? || s.loop.Resample?
  }

  /** The run does not leave the copy. */
  predicate SameCopy(c: V.Config, s: State, acts: seq<Action>) {
    InCopy(RunFrom(c, s, acts)) && (|acts| > 0 ==> SameCopy(c, s, acts[..|acts| - 1]))
  }

  /** The copy is of frame `n`. */
  predicate Copies(s: State, n: nat) {
    match s.loop
    case InRead(count) => s.ring.reader.Copying? && s.ring.reader.s0 == n + 1
    case Resample(number, bytes) => number == n
    case _ => false
  }

  lemma CopyStep(c: V.Config, s: State, n: nat, a: Action)
    requires Inv(c, s) && Copies(s, n) && InCopy(Next(c, s, a))
    ensures Copies(Next(c, s, a), n) && Next(c, s, a).forwarded == s.forwarded
  {
  }

  lemma {:induction false} CopyTracks(c: V.Config, s: State, n: nat, acts: seq<Action>)
    requires Inv(c, s) && Copies(s, n) && SameCopy(c, s, acts)
    ensures Inv(c, RunFrom(c, s, acts)) && Copies(RunFrom(c, s, acts), n)
    ensures RunFrom(c, s, acts).forwarded == s.forwarded
  {
    if |acts| > 0 {
      var before, a := acts[..|acts| - 1], acts[|acts| - 1];
      CopyTracks(c, s, n, before);
      NextKeeps(c, RunFrom(c, s, before), a);
      CopyStep(c, RunFrom(c, s, before), n, a);
    }
  }

  /** The first access of `read_frame`: the load of `frame_seq`. */
  lemma CopyStarts(c: V.Config, s: State)
    requires Inv(c, s) && s.loop.InRead? && s.ring.reader.Asked?
    ensures var t := HostStep(c, s, false, 0);
      && Inv(c, t) && t.ring.count == s.ring.count > 0 && t.loop == s.loop && t.forwarded == s.forwarded
      && t.lastCount == s.lastCount && t.ring.reader == V.Copying(s.ring.reader.buf, s.ring.count, s.ring.reader.buf, 0)
  {
    HostKeeps(c, s, false, 0);
  }

  /** The load of `frame_seq` after an accepted copy. */
  lemma Resamples(c: V.Config, s: State)
    requires Inv(c, s) && s.loop.Resample?
    ensures var t := HostStep(c, s, false, 0);
      && Inv(c, t) && t.loop.CheckRoom? && t.lastCount == t.ring.count == s.ring.count && t.pipe == s.pipe
      && t.forwarded == s.forwarded + [s.loop.number]
  {
    HostKeeps(c, s, false, 0);
  }

  /** A frame number at or above what was forwarded, and counted, is never forwarded. */
  lemma NeverForwarded(c: V.Config, s: State, n: nat, acts: seq<Action>)
    requires Inv(c, s) && n < s.lastCount
    ensures n in RunFrom(c, s, acts).forwarded <==> n in s.forwarded
  {
    OnlyNewerForwarded(c, s, acts);
    var t := RunFrom(c, s, acts);
    if n in t.forwarded {
      var i :| 0 <= i < |t.forwarded| && t.forwarded[i] == n;
      assert i < |s.forwarded|;
      assert s.forwarded[i] == n;
    }
  }

  /** A copy that was accepted is of the frame it started with, and the count has moved by the publications. */
  lemma CopyEnds(c: V.Config, s: State, acts: seq<Action>, r: State)
    requires Inv(c, s) && s.loop.InRead? && s.ring.reader.Copying? && s.ring.reader.s0 > 0
    requires SameCopy(c, s, acts) && r == RunFrom(c, s, acts) && r.loop.Resample?
    ensures Inv(c, r) && r.loop.number == s.ring.reader.s0 - 1 && r.forwarded == s.forwarded
    ensures r.ring.count == s.ring.count + Publications(c, s, acts)
  {
    CopyTracks(c, s, s.ring.reader.s0 - 1, acts);
    CountsPublications(c, s, acts);
  }

  /** The whole copy: from the load of `frame_seq` in any interleaving to an accepted end. */
  lemma CopyRuns(c: V.Config, s: State, first: State, acts: seq<Action>, r: State)
    requires Inv(c, s) && s.loop.InRead? && s.ring.reader.Asked? && first == HostStep(c, s, false, 0)
    requires SameCopy(c, first, acts) && r == RunFrom(c, first, acts) && r.loop.Resample?
    ensures Inv(c, r) && s.ring.count > 0 && r.loop.number == s.ring.count - 1 && r.forwarded == s.forwarded
    ensures r.ring.count == s.ring.count + Publications(c, first, acts)
  {
    CopyStarts(c, s);
    CopyEnds(c, first, acts, r);
  }

  /**
   The price of re-sampling `last_count` after the copy. Take a copy from its load of `frame_seq` in
   any interleaving with the producer to the re-sampling. The newest frame then counted is the one
   just forwarded exactly when nothing was published in between; otherwise it is lost: no
   continuation of the run ever forwards it.
   */
  lemma NewestForwardedIff(c: V.Config, s: State, first: State, acts: seq<Action>, r: State, t: State,
                           later: seq<Action>)
    requires Inv(c, s) && s.loop.InRead? && s.ring.reader.Asked? && first == HostStep(c, s, false, 0)
    requires SameCopy(c, first, acts) && r == RunFrom(c, first, acts)
    requires r.loop.Resample? && t == HostStep(c, r, false, 0)
    ensures t.loop.CheckRoom? && t.lastCount == t.ring.count && t.forwarded == s.forwarded + [s.ring.count - 1]
    ensures t.lastCount == s.ring.count + Publications(c, first, acts)
    ensures t.lastCount - 1 in RunFrom(c, t, later).forwarded <==> Publications(c, first, acts) == 0
  {
    CopyRuns(c, s, first, acts, r);
    ResampledIff(c, s.forwarded, r, t, s.ring.count, later);
  }

  lemma ResampledIff(c: V.Config, before: seq<nat>, r: State, t: State, n: nat, later: seq<Action>)
    requires Inv(c, r) && r.loop.Resample? && t == HostStep(c, r, false, 0)
    requires 0 < n <= r.ring.count && r.loop.number == n - 1 && r.forwarded == before
    ensures t.loop.CheckRoom? && t.lastCount == t.ring.count == r.ring.count && t.forwarded == before + [n - 1]
    ensures t.lastCount - 1 in RunFrom(c, t, later).forwarded <==> r.ring.count == n
  {
    Resamples(c, r);
    KeptOrLost(c, before, t, n, later);
  }

  lemma KeptOrLost(c: V.Config, before: seq<nat>, t: State, n: nat, later: seq<Action>)
    requires Inv(c, t) && 0 < n <= t.lastCount && t.forwarded == before + [n - 1]
    ensures t.lastCount - 1 in RunFrom(c, t, later).forwarded <==> t.lastCount == n
  {
    NeverForwarded(c, t, t.lastCount - 1, later);
    NewestAmong(before, n - 1, t.lastCount - 1);
  }

  lemma NewestAmong(before: seq<nat>, n: nat, newest: nat)
    requires n <= newest && Increasing(before + [n])
    ensures newest in before + [n] <==> newest == n
  {
    var all := before + [n];
    assert all[|before|] == n;
    assert forall i :: 0 <= i < |before| ==> all[i] < all[|before|];
  }

  // ---- progress ----

  predicate HostOnly(acts: seq<Action>) {
    forall i :: 0 <= i < |acts| ==> acts[i].Host?
  }

  /** The pipe has a reader and room for a whole frame. */
  predicate HasRoom(c: V.Config, pipe: Pipe) {
    |pipe.queued| + c.frameSize <= pipe.size
  }

  /** What one round of the loop does with frame `n`: written whole if there is room, dropped whole if not. */
  ghost predicate Handled(c: V.Config, s: State, n: nat, t: State)
    requires n < |s.ring.frames|
  {
    && t.loop.Top? && t.open && t.lastCount == t.ring.count && t.forwarded == s.forwarded + [n] && t.closed == s.closed
    && var frame := s.ring.frames[n];
       if HasRoom(c, s.pipe) then
         t.dropped == s.dropped
         && t.pipe == s.pipe.(sent := s.pipe.sent + frame, queued := s.pipe.queued + frame, whole := s.pipe.whole + [n])
       else t.dropped == s.dropped + 1 && t.pipe == s.pipe
  }

  /** Nothing was forwarded, written or dropped yet. */
  ghost predicate Untouched(s: State, t: State) {
    && t.open && t.pipe == s.pipe && t.closed == s.closed && t.dropped == s.dropped && t.forwarded == s.forwarded
  }

  /** The frame is counted and about to be written. */
  ghost predicate Offered(s: State, t: State, n: nat) {
    && t.open && t.pipe == s.pipe && t.closed == s.closed && t.dropped == s.dropped
    && t.forwarded == s.forwarded + [n] && t.lastCount == t.ring.count
  }

  /** `t` is on the way from `s` to having handled the newest frame; the producer is not running. */
  ghost predicate Underway(c: V.Config, s: State, t: State)
    requires 0 < s.ring.count == |s.ring.frames|
  {
    var n := s.ring.count - 1;
    && Inv(c, t) && t.ring.count == s.ring.count && t.ring.frames == s.ring.frames && t.ring.writer == s.ring.writer
    && match t.loop
       case Start => false
       case Top => (Untouched(s, t) && t.lastCount < t.ring.count) || Handled(c, s, n, t)
       case NewFrame(count) => Untouched(s, t) && count == n + 1
       case InRead(count) => Untouched(s, t) && count == n + 1 && (t.ring.reader.Copying? ==> t.ring.reader.s0 == n + 1)
       case Resample(number, bytes) => Untouched(s, t) && number == n
       case CheckRoom(number, bytes) => Offered(s, t, n) && number == n
       case WritePipe(number, bytes) => Offered(s, t, n) && number == n
  }

  /** Host steps left before the frame is handled. */
  function StepsLeft(c: V.Config, t: State): nat {
    match t.loop
    case Start => 0
    case Top => if t.lastCount < t.ring.count then c.frameSize + 7 else 0
    case NewFrame(count) => c.frameSize + 6
    case InRead(count) =>
      if t.ring.reader.Copying? then SaturatingSub(c.frameSize, t.ring.reader.p) + 4 else c.frameSize + 5
    case Resample(number, bytes) => 3
    case CheckRoom(number, bytes) => 2
    case WritePipe(number, bytes) => 1
  }

  /** The reader goes on copying. */
  predicate CopyGoesOn(c: V.Config, t: State, u: State) {
    && u.loop == t.loop && u.ring.reader.Copying?
    && if t.ring.reader.Copying? then
         t.ring.reader.p < u.ring.reader.p && t.ring.reader.p < c.frameSize && u.ring.reader.s0 == t.ring.reader.s0
       else u.ring.reader.p == 0 && u.ring.reader.s0 == t.ring.count
  }

  /** The copy was accepted. */
  predicate CopyTaken(c: V.Config, t: State, u: State) {
    t.ring.reader.Copying? && u.loop.Resample? && u.loop.number + 1 == t.ring.reader.s0
  }

  /** One access of `read_frame`: a finished copy overlapped by at most `slots - 2` publications is taken. */
  lemma ReadOutcome(c: V.Config, t: State, opens: bool, size: nat)
    requires Inv(c, t) && t.loop.InRead?
    ensures var u := HostStep(c, t, opens, size);
      && u.open == t.open && u.pipe == t.pipe && u.closed == t.closed && u.dropped == t.dropped
      && u.forwarded == t.forwarded
      && (CopyGoesOn(c, t, u) || CopyTaken(c, t, u)
          || (t.ring.reader.Copying? && t.ring.count - t.ring.reader.s0 > c.slots - 2))
  {
    var ring' := V.Next(c, t.ring, V.Read);
    if t.ring.reader.Copying? {
      assert WrappingSub(t.ring.count, t.ring.reader.s0) == t.ring.count - t.ring.reader.s0;
    }
  }

  /** An access of `read_frame` with nothing published since its first. */
  lemma CopyAdvances(c: V.Config, s: State, t: State, opens: bool, size: nat)
    requires 0 < s.ring.count == |s.ring.frames| && Underway(c, s, t) && t.loop.InRead?
    ensures Underway(c, s, HostStep(c, t, opens, size)) && StepsLeft(c, HostStep(c, t, opens, size)) < StepsLeft(c, t)
  {
    ReadKeeps(c, t, opens, size);
    ReadOutcome(c, t, opens, size);
    HostLeavesCount(c, t, opens, size);
  }

  /** The free-space check. */
  lemma RoomChecked(c: V.Config, s: State, t: State, opens: bool, size: nat)
    requires 0 < s.ring.count == |s.ring.frames| && Underway(c, s, t) && t.loop.CheckRoom?
    ensures Underway(c, s, HostStep(c, t, opens, size)) && StepsLeft(c, HostStep(c, t, opens, size)) < StepsLeft(c, t)
  {
    assert Inv(c, HostStep(c, t, opens, size)) by {
      HostKeeps(c, t, opens, size);
    }
    assert |t.loop.bytes| == c.frameSize;
  }

  /** The write that ends a round takes the frame whole or not at all. */
  lemma WriteOutcome(c: V.Config, t: State, opens: bool, size: nat)
    requires t.loop.WritePipe? && !t.pipe.gone && |t.loop.bytes| == c.frameSize > 0
    requires t.pipe.size == 0 || HasRoom(c, t.pipe)
    ensures var WritePipe(number, bytes) := t.loop;
      var taken := t.pipe.(sent := t.pipe.sent + bytes, queued := t.pipe.queued + bytes,
                           whole := t.pipe.whole + [number]);
      HostStep(c, t, opens, size)
        == if HasRoom(c, t.pipe) then t.(pipe := taken, loop := Top) else t.(dropped := t.dropped + 1, loop := Top)
  {
    assert t.loop.bytes[..c.frameSize] == t.loop.bytes;
  }

  lemma WriteHandles(c: V.Config, s: State, t: State, opens: bool, size: nat)
    requires 0 < s.ring.count == |s.ring.frames| && Underway(c, s, t) && !s.pipe.gone && t.loop.WritePipe?
    ensures Underway(c, s, HostStep(c, t, opens, size)) && StepsLeft(c, HostStep(c, t, opens, size)) < StepsLeft(c, t)
  {
    WriteOutcome(c, t, opens, size);
    assert Inv(c, HostStep(c, t, opens, size)) by {
      HostKeeps(c, t, opens, size);
    }
  }

  /** The steps before the copy, and the re-sampling after it. */
  lemma SampleAdvances(c: V.Config, s: State, t: State, opens: bool, size: nat)
    requires 0 < s.ring.count == |s.ring.frames| && Underway(c, s, t)
    requires t.loop.Top? || t.loop.NewFrame? || t.loop.Resample?
    ensures Underway(c, s, HostStep(c, t, opens, size))
    ensures StepsLeft(c, t) == 0 || StepsLeft(c, HostStep(c, t, opens, size)) < StepsLeft(c, t)
  {
    assert Inv(c, HostStep(c, t, opens, size)) by {
      HostKeeps(c, t, opens, size);
    }
  }

  lemma HostAdvances(c: V.Config, s: State, t: State, opens: bool, size: nat)
    requires 0 < s.ring.count == |s.ring.frames| && Underway(c, s, t) && !s.pipe.gone
    ensures Underway(c, s, HostStep(c, t, opens, size))
    ensures StepsLeft(c, t) == 0 || StepsLeft(c, HostStep(c, t, opens, size)) < StepsLeft(c, t)
  {
    match t.loop
    case InRead(count) => CopyAdvances(c, s, t, opens, size);
    case CheckRoom(number, bytes) => RoomChecked(c, s, t, opens, size);
    case WritePipe(number, bytes) => WriteHandles(c, s, t, opens, size);
    case _ => SampleAdvances(c, s, t, opens, size);
  }

  /** A round begins. */
  lemma RoundBegins(c: V.Config, s: State)
    requires Inv(c, s) && s.loop.Top? && s.open && s.lastCount < s.ring.count
    ensures 0 < s.ring.count == |s.ring.frames| && Underway(c, s, s) && StepsLeft(c, s) == c.frameSize + 7
  {
  }

  lemma {:induction false} HostAlone(c: V.Config, s: State, t: State, acts: seq<Action>)
    requires 0 < s.ring.count == |s.ring.frames| && Underway(c, s, t) && !s.pipe.gone && HostOnly(acts)
    ensures Underway(c, s, RunFrom(c, t, acts))
    ensures StepsLeft(c, RunFrom(c, t, acts)) <= SaturatingSub(StepsLeft(c, t), |acts|)
  {
    if |acts| > 0 {
      var before, a := acts[..|acts| - 1], acts[|acts| - 1];
      assert a.Host? && HostOnly(before);
      HostAlone(c, s, t, before);
      HostAdvances(c, s, RunFrom(c, t, before), a.opens, a.size);
    }
  }

  /**
   Progress: with a frame not seen yet, a connected reader and the producer not running, the loop
   handles the newest frame within `frameSize + 7` of its own steps, and then rests.
   */
  lemma HostHandlesNewest(c: V.Config, s: State, acts: seq<Action>)
    requires Inv(c, s) && s.loop.Top? && s.open && !s.pipe.gone && s.lastCount < s.ring.count
    requires HostOnly(acts) && |acts| >= c.frameSize + 7
    ensures 0 < s.ring.count == |s.ring.frames| && Handled(c, s, s.ring.count - 1, RunFrom(c, s, acts))
  {
    RoundBegins(c, s);
    HostAlone(c, s, s, acts);
  }

  // ---- progress while everyone runs ----

  /** Steps of the loop itself in a run. */
  function HostSteps(acts: seq<Action>): nat {
    if |acts| == 0 then 0 else HostSteps(acts[..|acts| - 1]) + if acts[|acts| - 1].Host? then 1 else 0
  }

  predicate StaysConnected(acts: seq<Action>) {
    forall i :: 0 <= i < |acts| ==> !acts[i].ReaderLeaves?
  }

  /** On the way to the first frame forwarded after `s`, which will be at least the newest frame of `s`. */
  predicate Seeking(s: State, t: State) {
    && t.open
    && match t.loop
       case Top => t.lastCount < s.ring.count
       case NewFrame(count) => true
       case InRead(count) => t.ring.reader.Copying? ==> s.ring.count <= t.ring.reader.s0
       case Resample(number, bytes) => s.ring.count <= number + 1
       case _ => false
  }

  /** That frame has been forwarded. */
  predicate Chosen(s: State, t: State) {
    && |s.forwarded| < |t.forwarded| && s.forwarded <= t.forwarded
    && s.ring.count <= t.forwarded[|s.forwarded|] + 1
  }

  /** It is about to be written. */
  predicate Pending(s: State, t: State) {
    && |t.forwarded| == |s.forwarded| + 1 && (t.loop.CheckRoom? || t.loop.WritePipe?)
    && t.loop.number == t.forwarded[|s.forwarded|]
  }

  /** The reader is there, there is room, and nothing was written since `s`. */
  predicate Roomy(c: V.Config, s: State, t: State) {
    t.open && !t.pipe.gone && HasRoom(c, t.pipe) && t.pipe.whole == s.pipe.whole
  }

  /** The frame was written whole on the connection of `s`. */
  ghost predicate Kept(s: State, t: State)
    requires |s.forwarded| < |t.forwarded|
  {
    t.open && !t.pipe.gone && s.pipe.whole + [t.forwarded[|s.forwarded|]] <= t.pipe.whole
  }

  ghost predicate Live(c: V.Config, s: State, t: State, roomy: bool) {
    && Inv(c, t) && s.ring.count <= t.ring.count <= s.ring.count + c.slots - 2
    && (t.forwarded == s.forwarded ==> Seeking(s, t) && (roomy ==> Roomy(c, s, t)))
    && (t.forwarded != s.forwarded ==>
          Chosen(s, t) && (roomy ==> if Pending(s, t) then Roomy(c, s, t) else Kept(s, t)))
  }

  /** Steps of the loop left until the frame is forwarded, and two more until it is written. */
  function LiveLeft(c: V.Config, s: State, t: State): nat {
    if t.forwarded == s.forwarded then
      match t.loop
      case Top => c.frameSize + 7
      case NewFrame(count) => c.frameSize + 6
      case InRead(count) =>
        if t.ring.reader.Copying? then SaturatingSub(c.frameSize, t.ring.reader.p) + 4 else c.frameSize + 5
      case _ => 3
    else if Pending(s, t) then (if t.loop.CheckRoom? then 2 else 1)
    else 0
  }

  /** An access of `read_frame`: with at most `slots - 2` publications since `s` the copy is accepted. */
  lemma LiveCopies(c: V.Config, s: State, t: State, roomy: bool, opens: bool, size: nat)
    requires Live(c, s, t, roomy) && t.forwarded == s.forwarded && t.loop.InRead?
    ensures Live(c, s, HostStep(c, t, opens, size), roomy)
    ensures LiveLeft(c, s, HostStep(c, t, opens, size)) < LiveLeft(c, s, t)
  {
    assert Inv(c, HostStep(c, t, opens, size)) by {
      ReadKeeps(c, t, opens, size);
    }
    ReadOutcome(c, t, opens, size);
    HostLeavesCount(c, t, opens, size);
  }

  /** The other steps on the way to the frame. */
  lemma LiveSeeks(c: V.Config, s: State, t: State, roomy: bool, opens: bool, size: nat)
    requires Live(c, s, t, roomy) && t.forwarded == s.forwarded && !t.loop.InRead?
    ensures Live(c, s, HostStep(c, t, opens, size), roomy)
    ensures LiveLeft(c, s, HostStep(c, t, opens, size)) < LiveLeft(c, s, t)
  {
    assert Inv(c, HostStep(c, t, opens, size)) by {
      HostKeeps(c, t, opens, size);
    }
    if t.loop.Resample? {
      assert HostStep(c, t, opens, size).forwarded == s.forwarded + [t.loop.number];
    }
  }

  /** Room checked and written. */
  lemma LiveWrites(c: V.Config, s: State, t: State, roomy: bool, opens: bool, size: nat)
    requires Live(c, s, t, roomy) && t.forwarded != s.forwarded && Pending(s, t)
    ensures Live(c, s, HostStep(c, t, opens, size), roomy)
    ensures LiveLeft(c, s, HostStep(c, t, opens, size)) < LiveLeft(c, s, t)
  {
    assert Inv(c, HostStep(c, t, opens, size)) by {
      HostKeeps(c, t, opens, size);
    }
    assert |t.loop.bytes| == c.frameSize;
  }

  /** Later rounds only add to what was forwarded and written. */
  lemma LiveGoesOn(c: V.Config, s: State, t: State, roomy: bool, opens: bool, size: nat)
    requires Live(c, s, t, roomy) && t.forwarded != s.forwarded && !Pending(s, t)
    ensures Live(c, s, HostStep(c, t, opens, size), roomy) && LiveLeft(c, s, HostStep(c, t, opens, size)) == 0
  {
    assert Inv(c, HostStep(c, t, opens, size)) by {
      HostKeeps(c, t, opens, size);
    }
    HostOnlyAdds(c, t, opens, size);
  }

  lemma HostOnlyAdds(c: V.Config, t: State, opens: bool, size: nat)
    ensures var u := HostStep(c, t, opens, size);
      && t.forwarded <= u.forwarded && u.ring.count == t.ring.count
      && (t.loop.CheckRoom? || t.loop.WritePipe? ==> u.forwarded == t.forwarded)
      && (u.loop.CheckRoom? && !t.loop.CheckRoom? ==> |u.forwarded| == |t.forwarded| + 1)
      && (u.loop.WritePipe? ==> t.loop.CheckRoom? && u.loop.number == t.loop.number)
      && (t.open && !t.pipe.gone ==> u.open && !u.pipe.gone && t.pipe.whole <= u.pipe.whole)
  {
    HostLeavesCount(c, t, opens, size);
  }

  lemma LiveHosts(c: V.Config, s: State, t: State, roomy: bool, opens: bool, size: nat)
    requires Live(c, s, t, roomy)
    ensures Live(c, s, HostStep(c, t, opens, size), roomy)
    ensures LiveLeft(c, s, HostStep(c, t, opens, size)) <= SaturatingSub(LiveLeft(c, s, t), 1)
  {
    if t.forwarded == s.forwarded {
      if t.loop.InRead? {
        LiveCopies(c, s, t, roomy, opens, size);
      } else {
        LiveSeeks(c, s, t, roomy, opens, size);
      }
    } else if Pending(s, t) {
      LiveWrites(c, s, t, roomy, opens, size);
    } else {
      LiveGoesOn(c, s, t, roomy, opens, size);
    }
  }

  /** What everyone else may do. */
  lemma OthersLeaveLoop(c: V.Config, t: State, a: Action)
    requires Inv(c, t) && !a.Host?
    ensures var u := Next(c, t, a);
      && u.loop == t.loop && u.forwarded == t.forwarded && u.lastCount == t.lastCount && u.open == t.open
      && u.ring.reader == t.ring.reader && t.ring.count <= u.ring.count
      && u.pipe.whole == t.pipe.whole && u.pipe.size == t.pipe.size && |u.pipe.queued| <= |t.pipe.queued|
      && (!a.ReaderLeaves? ==> u.pipe.gone == t.pipe.gone)
  {
    StepCounts(c, t, a);
  }

  lemma LiveOthers(c: V.Config, s: State, t: State, roomy: bool, a: Action)
    requires Live(c, s, t, roomy) && !a.Host? && (roomy ==> !a.ReaderLeaves?)
    requires Next(c, t, a).ring.count <= s.ring.count + c.slots - 2
    ensures Live(c, s, Next(c, t, a), roomy) && LiveLeft(c, s, Next(c, t, a)) == LiveLeft(c, s, t)
  {
    NextKeeps(c, t, a);
    OthersLeaveLoop(c, t, a);
  }

  lemma {:induction false} LiveRun(c: V.Config, s: State, acts: seq<Action>, roomy: bool)
    requires Inv(c, s) && s.loop.Top? && s.open && s.lastCount < s.ring.count
    requires Publications(c, s, acts) <= c.slots - 2
    requires roomy ==> !s.pipe.gone && HasRoom(c, s.pipe) && StaysConnected(acts)
    ensures Live(c, s, RunFrom(c, s, acts), roomy)
    ensures LiveLeft(c, s, RunFrom(c, s, acts)) <= SaturatingSub(c.frameSize + 7, HostSteps(acts))
  {
    if |acts| > 0 {
      var before, a := acts[..|acts| - 1], acts[|acts| - 1];
      var t := RunFrom(c, s, before);
      LiveRun(c, s, before, roomy);
      assert RunFrom(c, s, acts) == Next(c, t, a);
      if a.Host? {
        LiveHosts(c, s, t, roomy, a.opens, a.size);
      } else {
        CountsPublications(c, s, acts);
        LiveOthers(c, s, t, roomy, a);
      }
    }
  }

  /**
   Progress in every interleaving: with a frame not seen yet and at most `slots - 2` publications
   meanwhile, `frameSize + 5` steps of the loop forward a frame, and the first forwarded is no older
   than the newest one when the loop looked.
   */
  lemma ForwardsNewest(c: V.Config, s: State, acts: seq<Action>)
    requires Inv(c, s) && s.loop.Top? && s.open && s.lastCount < s.ring.count
    requires Publications(c, s, acts) <= c.slots - 2 && HostSteps(acts) >= c.frameSize + 5
    ensures var t := RunFrom(c, s, acts);
      && s.forwarded <= t.forwarded && |s.forwarded| < |t.forwarded|
      && s.ring.count - 1 <= t.forwarded[|s.forwarded|] < s.ring.count + Publications(c, s, acts)
  {
    LiveRun(c, s, acts, false);
    CountsPublications(c, s, acts);
    assert Chosen(s, RunFrom(c, s, acts));
  }

  /** Two steps more write that frame whole, if the pipe's reader stays and there was room when the loop looked. */
  lemma WritesNewest(c: V.Config, s: State, acts: seq<Action>)
    requires Inv(c, s) && s.loop.Top? && s.open && s.lastCount < s.ring.count
    requires Publications(c, s, acts) <= c.slots - 2 && HostSteps(acts) >= c.frameSize + 7
    requires !s.pipe.gone && HasRoom(c, s.pipe) && StaysConnected(acts)
    ensures var t := RunFrom(c, s, acts);
      && |s.forwarded| < |t.forwarded| && t.open
      && s.pipe.whole + [t.forwarded[|s.forwarded|]] <= t.pipe.whole
  {
    LiveRun(c, s, acts, true);
    var t := RunFrom(c, s, acts);
    assert t.forwarded != s.forwarded && !Pending(s, t);
  }

  // ---- what was counted is never forwarded ----

  /** What one action may do to `last_count` and to the forwarded frames. */
  lemma StepForwards(c: V.Config, s: State, a: Action)
    requires Inv(c, s)
    ensures var t := Next(c, s, a);
      && s.lastCount <= t.lastCount
      && (t.forwarded == s.forwarded || exists n: nat :: s.lastCount <= n && t.forwarded == s.forwarded + [n])
  {
    match a
    case Producer(push) =>
    case Host(opens, size) =>
      if s.loop.Resample? {
        assert Next(c, s, a).forwarded == s.forwarded + [s.loop.number];
      }
    case Drain(n) =>
    case ReaderLeaves =>
  }

  /** No frame counted in `last_count` is ever forwarded later. */
  lemma {:induction false} OnlyNewerForwarded(c: V.Config, s: State, acts: seq<Action>)
    requires Inv(c, s)
    ensures var t := RunFrom(c, s, acts);
      && s.forwarded <= t.forwarded && s.lastCount <= t.lastCount
      && forall i :: |s.forwarded| <= i < |t.forwarded| ==> s.lastCount <= t.forwarded[i]
  {
    if |acts| > 0 {
      OnlyNewerForwarded(c, s, acts[..|acts| - 1]);
      RunKeeps(c, s, acts[..|acts| - 1]);
      StepForwards(c, RunFrom(c, s, acts[..|acts| - 1]), acts[|acts| - 1]);
    }
  }

  predicate ProducerOnly(acts: seq<Action>) {
    forall i :: 0 <= i < |acts| ==> acts[i].Producer?
  }

  lemma {:induction false} ProducerOnlyMovesRing(c: V.Config, s: State, acts: seq<Action>)
    requires ProducerOnly(acts)
    ensures RunFrom(c, s, acts) == s.(ring := RunFrom(c, s, acts).ring)
  {
    if |acts| > 0 {
      assert acts[|acts| - 1].Producer?;
      ProducerOnlyMovesRing(c, s, acts[..|acts| - 1]);
    }
  }

  /** Frames counted by a failed open are never forwarded. */
  lemma NoStaleFrames(c: V.Config, s: State, size: nat, acts: seq<Action>, n: nat)
    requires c.slots >= 2 && Reachable(c, s) && s.loop.Top? && !s.open && n < s.ring.count
    ensures n in RunFrom(c, HostStep(c, s, false, size), acts).forwarded <==> n in s.forwarded
  {
    ReachableInv(c, s);
    HostKeeps(c, s, false, size);
    NeverForwarded(c, HostStep(c, s, false, size), n, acts);
  }

  /** A failed open counts everything published; the producer alone then only adds to the ring. */
  lemma FailedOpenCounts(c: V.Config, s: State, size: nat, acts: seq<Action>)
    requires Inv(c, s) && s.loop.Top? && !s.open && ProducerOnly(acts)
    ensures var failed := HostStep(c, s, false, size);
      var t := RunFrom(c, failed, acts);
      && Inv(c, t) && t.loop.Top? && !t.open && t.forwarded == s.forwarded
      && t.lastCount == s.ring.count <= t.ring.count
  {
    HostKeeps(c, s, false, size);
    CountsPublications(c, HostStep(c, s, false, size), acts);
    ProducerOnlyMovesRing(c, HostStep(c, s, false, size), acts);
  }

  lemma OpenKeepsCount(c: V.Config, s: State, size: nat)
    requires Inv(c, s) && s.loop.Top? && !s.open
    ensures var t := HostStep(c, s, true, size);
      && Inv(c, t) && t.loop.Top? && t.open && !t.pipe.gone && t.forwarded == s.forwarded
      && t.lastCount == s.lastCount && t.ring == s.ring
  {
    HostKeeps(c, s, true, size);
  }

  /**
   The boundary is the last failed open, not the successful one, which does not sample the count.
   If anything was published between the two, the new connection, in any interleaving, forwards
   first the newest of it or a newer frame; if nothing was, then nothing until the next publication.
   */
  lemma GapFrameForwarded(c: V.Config, s: State, size: nat, acts: seq<Action>, t: State, u: State, live: seq<Action>)
    requires Inv(c, s) && s.loop.Top? && !s.open
    requires ProducerOnly(acts) && t == RunFrom(c, HostStep(c, s, false, size), acts)
    requires u == HostStep(c, t, true, size)
    requires Publications(c, u, live) <= c.slots - 2 && HostSteps(live) >= c.frameSize + 5
    ensures t.ring.count > s.ring.count ==>
      var v := RunFrom(c, u, live);
      && s.forwarded <= v.forwarded && |s.forwarded| < |v.forwarded|
      && t.ring.count - 1 <= v.forwarded[|s.forwarded|] < t.ring.count + Publications(c, u, live)
    ensures t.ring.count == s.ring.count && Publications(c, u, live) == 0 ==>
      RunFrom(c, u, live).forwarded == s.forwarded
  {
    FailedOpenCounts(c, s, size, acts);
    OpenKeepsCount(c, t, size);
    if t.ring.count > s.ring.count {
      ForwardsNewest(c, u, live);
    } else if Publications(c, u, live) == 0 {
      QuietUntilNextPublish(c, u, live);
    }
  }

  // ---- a run that loses the newest frame ----

  lemma ReachNext(c: V.Config, s: State, a: Action)
    requires Reachable(c, s)
    ensures Reachable(c, Next(c, s, a))
  {
    var ring: V.State, acts: seq<Action> :|
      V.Reachable(c, ring) && ring.reader.Free? && s == RunFrom(c, Init(c, ring), acts);
    assert (acts + [a])[..|acts|] == acts;
    assert Next(c, s, a) == RunFrom(c, Init(c, ring), acts + [a]);
  }

  lemma ReachRing(c: V.Config, s: State, push: V.Action, ring: V.State)
    requires Reachable(c, s) && (push.BeginPush? || push.Write?) && V.Next(c, s.ring, push) == ring
    ensures Reachable(c, s.(ring := ring))
  {
    ReachNext(c, s, Producer(push));
  }

  /** The producer stores the rest of its frame. */
  lemma {:induction false} Fills(c: V.Config, s: State) returns (t: State)
    requires Reachable(c, s) && s.ring.writer.Filling? && s.ring.writer.p <= c.frameSize
    ensures Reachable(c, t)
    ensures t == s.(ring := s.ring.(mem := t.ring.mem, writer := s.ring.writer.(p := c.frameSize)))
    decreases c.frameSize - s.ring.writer.p
  {
    if s.ring.writer.p == c.frameSize {
      t := s;
    } else {
      var ring := V.WriteStep(c, s.ring);
      ReachRing(c, s, V.Write, ring);
      t := Fills(c, s.(ring := ring));
    }
  }

  /** The producer enters `push_frame` and stores a whole frame without publishing it. */
  lemma FillsFresh(c: V.Config, s: State, src: seq<Byte>) returns (t: State)
    requires Reachable(c, s) && s.ring.writer.Resting? && s.ring.count + 1 < U64
    ensures Reachable(c, t)
    ensures t == s.(ring := s.ring.(mem := t.ring.mem, writer := V.Filling(src, s.ring.count, c.frameSize)))
  {
    var entered := s.ring.(writer := V.Entered(src));
    ReachRing(c, s, V.BeginPush(src), entered);
    var filling := s.ring.(writer := V.Filling(src, s.ring.count, 0));
    ReachRing(c, s.(ring := entered), V.Write, filling);
    t := Fills(c, s.(ring := filling));
  }

  /** One whole `push_frame` while the loop stands still. */
  lemma Pushes(c: V.Config, s: State, src: seq<Byte>) returns (t: State)
    requires Reachable(c, s) && s.ring.writer.Resting? && s.ring.count + 1 < U64
    ensures Reachable(c, t)
    ensures t == s.(ring := s.ring.(mem := t.ring.mem, count := s.ring.count + 1, frames := t.ring.frames))
  {
    var filled := FillsFresh(c, s, src);
    var ring := V.WriteStep(c, filled.ring);
    assert ring == s.ring.(mem := ring.mem, count := s.ring.count + 1, frames := ring.frames);
    ReachRing(c, filled, V.Write, ring);
    t := s.(ring := ring);
  }

  /** The loop goes from `Top` to having accepted a copy of the newest frame. */
  lemma {:induction false} Accepts(c: V.Config, s: State, t: State) returns (u: State)
    requires Reachable(c, t) && 0 < s.ring.count == |s.ring.frames| && Underway(c, s, t) && !s.pipe.gone
    requires StepsLeft(c, t) >= 3
    ensures Reachable(c, u) && Underway(c, s, u) && u.loop.Resample?
    decreases StepsLeft(c, t)
  {
    if t.loop.Resample? {
      u := t;
    } else {
      ReachNext(c, t, Host(false, 0));
      HostAdvances(c, s, t, false, 0);
      u := Accepts(c, s, HostStep(c, t, false, 0));
    }
  }

  /** The loop has started, a reader with a pipe of `size` bytes has connected, and one frame was pushed. */
  lemma FirstFrame(c: V.Config, mem: seq<Byte>, size: nat) returns (s: State)
    requires V.Fits(c, mem) && c.slots >= 2
    ensures Reachable(c, s) && s.loop.Top? && s.open && s.pipe == Pipe(size, [], [], false, [])
    ensures s.ring.count == 1 && s.lastCount == 0 && s.forwarded == [] && s.ring.writer.Resting?
  {
    assert V.Reachable(c, V.Init(mem)) by {
      assert V.RunFrom(c, V.Init(mem), []) == V.Init(mem);
    }
    var s0 := Init(c, V.Init(mem));
    assert RunFrom(c, s0, []) == s0;
    ReachNext(c, s0, Host(false, 0));
    var s1 := Next(c, s0, Host(false, 0));
    ReachNext(c, s1, Host(true, size));
    var s2 := Next(c, s1, Host(true, size));
    s := Pushes(c, s2, []);
  }

  /**
   For every geometry and pipe size there is a run with a connected reader in which the loop is at
   rest, has counted two frames, has forwarded the first, and in no continuation forwards the second.
   */
  lemma NewestLost(c: V.Config, mem: seq<Byte>, size: nat) returns (t: State)
    requires V.Fits(c, mem) && c.slots >= 2
    ensures Reachable(c, t) && t.loop.Top? && t.open && t.lastCount == t.ring.count == 2 && t.forwarded == [0]
    ensures forall later: seq<Action> :: 1 !in RunFrom(c, t, later).forwarded
  {
    var s := FirstFrame(c, mem, size);
    t := SecondLost(c, s);
    assert Inv(c, t) by {
      ReachableInv(c, t);
    }
    forall later: seq<Action>
      ensures 1 !in RunFrom(c, t, later).forwarded
    {
      NeverForwarded(c, t, 1, later);
    }
  }

  /** The first frame is copied and accepted. */
  lemma FirstCopied(c: V.Config, s: State) returns (t: State)
    requires c.slots >= 2 && Reachable(c, s) && s.loop.Top? && s.open && !s.pipe.gone
    requires s.ring.count == 1 && s.lastCount == 0 && s.forwarded == [] && s.ring.writer.Resting?
    ensures Reachable(c, t) && t.loop.Resample? && t.loop.number == 0 && t.forwarded == [] && !t.pipe.gone
    ensures t.ring.count == 1 && t.ring.writer.Resting?
  {
    assert 0 < s.ring.count == |s.ring.frames| && Underway(c, s, s) && StepsLeft(c, s) >= 3 by {
      ReachableInv(c, s);
      RoundBegins(c, s);
    }
    t := Accepts(c, s, s);
  }

  /** The second frame is pushed between the copy of the first and the re-sampling. */
  lemma SecondLost(c: V.Config, s: State) returns (t: State)
    requires c.slots >= 2 && Reachable(c, s) && s.loop.Top? && s.open && !s.pipe.gone
    requires s.ring.count == 1 && s.lastCount == 0 && s.forwarded == [] && s.ring.writer.Resting?
    ensures Reachable(c, t) && t.loop.Top? && t.open && t.lastCount == t.ring.count == 2 && t.forwarded == [0]
  {
    var copied := FirstCopied(c, s);
    var pushed := Pushes(c, copied, []);
    assert Inv(c, pushed) by {
      ReachableInv(c, pushed);
    }
    t := Finishes(c, pushed);
  }

  /** The rest of a round, from the re-sampling on. */
  lemma Finishes(c: V.Config, s: State) returns (t: State)
    requires Reachable(c, s) && Inv(c, s) && s.loop.Resample? && !s.pipe.gone
    ensures Reachable(c, t) && t.loop.Top? && t.open && t.lastCount == t.ring.count == s.ring.count
    ensures t.forwarded == s.forwarded + [s.loop.number]
  {
    Resamples(c, s);
    ReachNext(c, s, Host(false, 0));
    t := WritesOrDrops(c, HostStep(c, s, false, 0));
  }

  lemma WritesOrDrops(c: V.Config, s: State) returns (t: State)
    requires Reachable(c, s) && Inv(c, s) && s.loop.CheckRoom? && !s.pipe.gone
    ensures Reachable(c, t) && t.loop.Top? && t.open
    ensures t.lastCount == s.lastCount && t.ring == s.ring && t.forwarded == s.forwarded
  {
    ReachNext(c, s, Host(false, 0));
    t := HostStep(c, s, false, 0);
    if t.loop.WritePipe? {
      ReachNext(c, t, Host(false, 0));
      t := HostStep(c, t, false, 0);
    }
  }
}
