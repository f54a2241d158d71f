/**
 What each call on the video ring gets, in every interleaving: neither side ever waits. A push is
 published and a read is answered within a fixed number of the caller's own accesses.
 */
module VideoCalls {
  import opened Words
  import opened VideoCopy
  import opened VideoSteps

  function WriteSteps(acts: seq<Action>): nat {
    if |acts| == 0 then 0 else WriteSteps(acts[..|acts| - 1]) + if acts[|acts| - 1].Write? then 1 else 0
  }

  function ReadSteps(acts: seq<Action>): nat {
    if |acts| == 0 then 0 else ReadSteps(acts[..|acts| - 1]) + if acts[|acts| - 1].Read? then 1 else 0
  }

  // ---- the writer ----

  function WriteLeft(c: Config, w: Writer): nat {
    match w
    case Resting => 0
    case Entered(src) => c.frameSize + 2
    case Filling(src, q, p) => SaturatingSub(c.frameSize, p) + 1
  }

  /** The push of `src` begun in `s` is under way in `t`, or published. */
  ghost predicate Pushing(c: Config, s: State, src: seq<Byte>, t: State) {
    if t.frames == s.frames then (t.writer.Entered? || t.writer.Filling?) && t.writer.src == src
    else s.frames + [Fitted(src, c.frameSize)] <= t.frames
  }

  lemma PushingStep(c: Config, s: State, src: seq<Byte>, t: State, a: Action)
    requires Pushing(c, s, src, t)
    ensures Pushing(c, s, src, Next(c, t, a))
    ensures Next(c, t, a).frames == s.frames ==>
      && t.frames == s.frames
      && WriteLeft(c, Next(c, t, a).writer) + (if a.Write? then 1 else 0) <= WriteLeft(c, t.writer)
  {
  }

  lemma {:induction false} PushRuns(c: Config, s: State, src: seq<Byte>, acts: seq<Action>)
    requires s.writer == Entered(src)
    ensures Pushing(c, s, src, RunFrom(c, s, acts))
    ensures RunFrom(c, s, acts).frames == s.frames ==>
      WriteLeft(c, RunFrom(c, s, acts).writer) + WriteSteps(acts) <= c.frameSize + 2
  {
    if |acts| > 0 {
      PushRuns(c, s, src, acts[..|acts| - 1]);
      PushingStep(c, s, src, RunFrom(c, s, acts[..|acts| - 1]), acts[|acts| - 1]);
    }
  }

  /**
   The writer never waits: a push begins whenever none is in progress, and within `frameSize + 2` of
   the writer's own accesses the frame, cut or zero-padded, is the next one published.
   */
  lemma PushNeverWaits(c: Config, s: State, src: seq<Byte>, acts: seq<Action>)
    requires s.writer.Resting? && s.count + 1 < U64 && WriteSteps(acts) >= c.frameSize + 2
    ensures s.frames + [Fitted(src, c.frameSize)] <= RunFrom(c, Next(c, s, BeginPush(src)), acts).frames
  {
    PushRuns(c, Next(c, s, BeginPush(src)), src, acts);
  }

  // ---- the reader ----

  function ReadLeft(c: Config, r: Reader): nat {
    match r
    case Free => 0
    case Asked(buf) => Length(c, buf) + 2
    case Copying(buf, s0, out, p) => SaturatingSub(Length(c, buf), p) + 1
  }

  /** The read begun in `s` is in progress in `t`, of a frame no older than the newest in `s`, or has been answered. */
  ghost predicate Reading(s: State, buf: seq<Byte>, t: State) {
    && s.count <= t.count
    && if t.results == s.results then
         match t.reader
         case Free => false
         case Asked(b) => b == buf
         case Copying(b, s0, out, p) => b == buf && s.count <= s0 && 0 < s0
       else |s.results| < |t.results| && s.results <= t.results && Answer(s, buf, t.results[|s.results|])
  }

  /** No frame only if there was none; otherwise the result is of a frame no older than the newest in `s`. */
  predicate Answer(s: State, buf: seq<Byte>, r: Result) {
    match r
    case NoFrame => s.count == 0
    case Torn(s0, s1) => 0 < s0 && s.count <= s0 < s1
    case Frame(number, out, b, s0, s1) => b == buf && s.count <= number + 1
  }

  lemma ReadingStep(c: Config, s: State, buf: seq<Byte>, t: State, a: Action)
    requires Inv(c, t) && Reading(s, buf, t)
    ensures Reading(s, buf, Next(c, t, a))
    ensures Next(c, t, a).results == s.results ==>
      && t.results == s.results
      && ReadLeft(c, Next(c, t, a).reader) + (if a.Read? then 1 else 0) <= ReadLeft(c, t.reader)
  {
    StepCounts(c, t, a);
    assert Next(c, t, a).results == t.results || |Next(c, t, a).results| == |t.results| + 1;
  }

  lemma {:induction false} ReadRuns(c: Config, s: State, buf: seq<Byte>, acts: seq<Action>)
    requires Inv(c, s) && s.reader == Asked(buf)
    ensures Inv(c, RunFrom(c, s, acts)) && Reading(s, buf, RunFrom(c, s, acts))
    ensures RunFrom(c, s, acts).results == s.results ==>
      ReadLeft(c, RunFrom(c, s, acts).reader) + ReadSteps(acts) <= Length(c, buf) + 2
  {
    if |acts| > 0 {
      ReadRuns(c, s, buf, acts[..|acts| - 1]);
      NextKeeps(c, RunFrom(c, s, acts[..|acts| - 1]), acts[|acts| - 1]);
      ReadingStep(c, s, buf, RunFrom(c, s, acts[..|acts| - 1]), acts[|acts| - 1]);
    }
  }

  /**
   The reader never waits: a read into any buffer begins whenever none is in progress and ends within
   `min(frameSize, |buf|) + 2` of its own accesses. If a frame was published before it, its result is
   of that frame or a newer one.
   */
  lemma ReadNeverWaits(c: Config, s: State, buf: seq<Byte>, acts: seq<Action>)
    requires Inv(c, s) && s.reader.Free? && ReadSteps(acts) >= Min(c.frameSize, |buf|) + 2
    ensures var t := RunFrom(c, Next(c, s, BeginRead(buf)), acts);
      |s.results| < |t.results| && s.results <= t.results && Answer(s, buf, t.results[|s.results|])
  {
    NextKeeps(c, s, BeginRead(buf));
    ReadRuns(c, Next(c, s, BeginRead(buf)), buf, acts);
  }
}
