/**
 What the audio ring is for, as an atomic machine: a push appends to the byte
 stream, a read delivers one window of it. `AudioSteps` proves that every
 interleaving of the real loads and stores behaves like a run of this machine;
 `AudioBuffer` proves the same of the sequential code. The properties of whole
 runs are proved here, once, for both.
 */
module AudioSpec {
  import opened Words
  import opened Ring

  /** The published constants: `capacity`, and `frame_bytes` as stored in the header (0 while unset). */
  datatype Config = Config(cap: nat, frameBytes: nat) {
    predicate Valid() {
      IsPowerOfTwo(cap) && cap < U64
    }

    /** `n` bytes are whole frames; while `frame_bytes` is unset every byte is one. */
    predicate Whole(n: nat) {
      frameBytes > 0 ==> n % frameBytes == 0
    }

    /** `frame_bytes.max(1)`. */
    function Frame(): (f: nat)
      ensures f > 0
    {
      Max(frameBytes, 1)
    }
  }

  /** The unit of the code is a frame. */
  lemma FrameUnit(c: Config)
    ensures forall n: nat :: c.Whole(n) <==> n % c.Frame() == 0
  {
    forall n: nat
      ensures c.Whole(n) <==> n % c.Frame() == 0
    {
      DivModUnique(n, 1, n, 0);
    }
  }

  /** One completed read: `head` before it, the window `[from, to)` it delivered, and `tail` when it took effect. */
  datatype Delivery = Delivery(was: nat, from: nat, to: nat, tail: nat, outLen: nat, maxLatency: nat, bytes: seq<Byte>)

  /**
   `hist` is every byte written to the ring, `pushed` every byte handed to `push_overwrite`
   (an oversized push loses its oldest bytes), `log` every completed read.
   */
  datatype Stream = Stream(hist: seq<Byte>, pushed: seq<Byte>, head: nat, log: seq<Delivery>)

  datatype Event = Push(src: seq<Byte>) | Read(outLen: nat, maxLatency: nat)

  const EMPTY_STREAM := Stream([], [], 0, [])

  /** A read whose window has already been overwritten cannot complete; the event is then a no-op. */
  function After(c: Config, st: Stream, e: Event): Stream {
    match e
    case Push(src) =>
      st.(hist := st.hist + Newest(c.cap, src), pushed := st.pushed + src)
    case Read(outLen, maxLatency) =>
      var tail := |st.hist|;
      var from := ReadFrom(c.Frame(), tail, st.head, maxLatency);
      if tail - from > c.cap then st
      else
        var to := from + Want(c.Frame(), tail, from, outLen);
        WantBounds(c.Frame(), tail, from, outLen);
        st.(head := to, log := st.log + [Delivery(st.head, from, to, tail, outLen, maxLatency, st.hist[from..to])])
  }

  function Run(c: Config, es: seq<Event>): Stream {
    if |es| == 0 then EMPTY_STREAM else After(c, Run(c, es[..|es| - 1]), es[|es| - 1])
  }

  lemma RunSnoc(c: Config, es: seq<Event>, e: Event)
    ensures Run(c, es + [e]) == After(c, Run(c, es), e)
  {
    assert (es + [e])[..|es|] == es;
  }

  // ---- what every run keeps ----

  /** A logged read moved `head` forward by the rules, and delivered exactly those stream bytes. */
  ghost predicate GoodDelivery(c: Config, hist: seq<Byte>, d: Delivery) {
    && d.was <= d.from <= d.to <= d.tail <= |hist|
    && d.tail - d.from <= c.cap
    && d.from == ReadFrom(c.Frame(), d.tail, d.was, d.maxLatency)
    && d.to == d.from + Want(c.Frame(), d.tail, d.from, d.outLen)
    && d.bytes == hist[d.from..d.to]
  }

  /** Each read starts where the one before it stopped. */
  ghost predicate Chained(log: seq<Delivery>) {
    && (|log| > 0 ==> log[0].was == 0)
    && (forall i :: 0 < i < |log| ==> log[i].was == log[i - 1].to)
  }

  function LastTo(log: seq<Delivery>): nat {
    if |log| == 0 then 0 else log[|log| - 1].to
  }

  ghost predicate Consistent(c: Config, st: Stream) {
    && st.head == LastTo(st.log) <= |st.hist|
    && Chained(st.log)
    && (forall i :: 0 <= i < |st.log| ==> GoodDelivery(c, st.hist, st.log[i]))
    && Newest(c.cap, st.hist) == Newest(c.cap, st.pushed)
  }

  lemma ConsistentAfter(c: Config, st: Stream, e: Event)
    requires Consistent(c, st)
    ensures Consistent(c, After(c, st, e))
  {
    match e
    case Push(src) =>
      NewestOfAppend(c.cap, st.hist, st.pushed, src);
      forall i | 0 <= i < |st.log|
        ensures GoodDelivery(c, st.hist + Newest(c.cap, src), st.log[i])
      {
        DeliveryStays(c, st.hist, Newest(c.cap, src), st.log[i]);
      }
    case Read(outLen, maxLatency) =>
      ConsistentAfterRead(c, st, outLen, maxLatency);
  }

  /** Appending to the stream does not change what was delivered from it. */
  lemma DeliveryStays(c: Config, hist: seq<Byte>, more: seq<Byte>, d: Delivery)
    requires GoodDelivery(c, hist, d)
    ensures GoodDelivery(c, hist + more, d)
  {
    assert (hist + more)[d.from..d.to] == hist[d.from..d.to];
  }

  lemma ConsistentAfterRead(c: Config, st: Stream, outLen: nat, maxLatency: nat)
    requires Consistent(c, st)
    ensures Consistent(c, After(c, st, Read(outLen, maxLatency)))
  {
    var st' := After(c, st, Read(outLen, maxLatency));
    var from := ReadFrom(c.Frame(), |st.hist|, st.head, maxLatency);
    ReadFromBounds(c.Frame(), |st.hist|, st.head, maxLatency);
    WantBounds(c.Frame(), |st.hist|, from, outLen);
    if |st.hist| - from <= c.cap {
      assert GoodDelivery(c, st.hist, st'.log[|st.log|]);
      assert forall i :: 0 <= i < |st.log| ==> st'.log[i] == st.log[i];
    }
  }

  /** Every run of the atomic ring is consistent. */
  lemma {:induction false} RunConsistent(c: Config, es: seq<Event>)
    ensures Consistent(c, Run(c, es))
  {
    if |es| > 0 {
      RunConsistent(c, es[..|es| - 1]);
      ConsistentAfter(c, Run(c, es[..|es| - 1]), es[|es| - 1]);
    }
  }

  // ---- order and conservation ----

  function Delivered(log: seq<Delivery>): nat
    requires forall i :: 0 <= i < |log| ==> log[i].from <= log[i].to
  {
    if |log| == 0 then 0
    else Delivered(log[..|log| - 1]) + log[|log| - 1].to - log[|log| - 1].from
  }

  function Skipped(log: seq<Delivery>): nat
    requires forall i :: 0 <= i < |log| ==> log[i].was <= log[i].from
  {
    if |log| == 0 then 0
    else Skipped(log[..|log| - 1]) + log[|log| - 1].from - log[|log| - 1].was
  }

  /** Everything played, in order. */
  function Output(log: seq<Delivery>): seq<Byte> {
    if |log| == 0 then [] else Output(log[..|log| - 1]) + log[|log| - 1].bytes
  }

  ghost predicate Ordered(log: seq<Delivery>) {
    Chained(log) && forall i :: 0 <= i < |log| ==> log[i].was <= log[i].from <= log[i].to
  }

  lemma OrderedPrefix(log: seq<Delivery>)
    requires Ordered(log) && |log| > 0
    ensures Ordered(log[..|log| - 1]) && LastTo(log[..|log| - 1]) == log[|log| - 1].was
  {
  }

  /** Delivered windows are disjoint and increasing. */
  lemma {:induction false} WindowsIncrease(log: seq<Delivery>, i: nat, j: nat)
    requires Ordered(log) && i < j < |log|
    ensures log[i].to <= log[j].from
    decreases j
  {
    if i < j - 1 {
      WindowsIncrease(log, i, j - 1);
    }
  }

  /** Every position below `head` was delivered once or skipped once. */
  lemma {:induction false} DeliveredOrSkipped(log: seq<Delivery>)
    requires Ordered(log)
    ensures Delivered(log) + Skipped(log) == LastTo(log)
  {
    if |log| > 0 {
      OrderedPrefix(log);
      DeliveredOrSkipped(log[..|log| - 1]);
    }
  }

  lemma {:induction false} NothingSkipped(log: seq<Delivery>)
    requires Ordered(log)
    ensures Skipped(log) == 0 <==> forall i :: 0 <= i < |log| ==> log[i].from == log[i].was
  {
    if |log| > 0 {
      var rest := log[..|log| - 1];
      OrderedPrefix(log);
      NothingSkipped(rest);
      assert forall i :: 0 <= i < |rest| ==> log[i] == rest[i];
    }
  }

  lemma {:induction false} OutputLength(c: Config, hist: seq<Byte>, log: seq<Delivery>)
    requires Ordered(log) && forall i :: 0 <= i < |log| ==> GoodDelivery(c, hist, log[i])
    ensures |Output(log)| == Delivered(log)
  {
    if |log| > 0 {
      OrderedPrefix(log);
      OutputLength(c, hist, log[..|log| - 1]);
      assert GoodDelivery(c, hist, log[|log| - 1]);
    }
  }

  lemma {:induction false} OutputIsPrefix(c: Config, hist: seq<Byte>, log: seq<Delivery>)
    requires Ordered(log) && forall i :: 0 <= i < |log| ==> GoodDelivery(c, hist, log[i])
    requires forall i :: 0 <= i < |log| ==> log[i].from == log[i].was
    ensures LastTo(log) <= |hist| && Output(log) == hist[..LastTo(log)]
  {
    if |log| > 0 {
      var d := log[|log| - 1];
      OrderedPrefix(log);
      OutputIsPrefix(c, hist, log[..|log| - 1]);
      assert GoodDelivery(c, hist, d);
      assert hist[..d.from] + hist[d.from..d.to] == hist[..d.to];
    }
  }

  /**
   Conservation over whole runs: nothing is replayed, reordered or invented, and every byte
   written to the ring has been delivered, skipped or is still queued.
   */
  lemma RunConserves(c: Config, es: seq<Event>)
    ensures var st := Run(c, es);
      && Ordered(st.log)
      && Delivered(st.log) + Skipped(st.log) + (|st.hist| - st.head) == |st.hist|
      && (forall i :: 0 <= i < |st.log| ==> GoodDelivery(c, st.hist, st.log[i]))
      && (forall i, j :: 0 <= i < j < |st.log| ==> st.log[i].to <= st.log[j].from)
  {
    RunConsistent(c, es);
    var st := Run(c, es);
    assert Ordered(st.log) by {
      ConsistentIsOrdered(c, st);
    }
    DeliveredOrSkipped(st.log);
    WindowsDisjoint(st.log);
  }

  lemma ConsistentIsOrdered(c: Config, st: Stream)
    requires Consistent(c, st)
    ensures Ordered(st.log)
  {
    forall i | 0 <= i < |st.log|
      ensures st.log[i].was <= st.log[i].from <= st.log[i].to
    {
      assert GoodDelivery(c, st.hist, st.log[i]);
    }
  }

  lemma WindowsDisjoint(log: seq<Delivery>)
    requires Ordered(log)
    ensures forall i, j :: 0 <= i < j < |log| ==> log[i].to <= log[j].from
  {
    forall i, j | 0 <= i < j < |log|
      ensures log[i].to <= log[j].from
    {
      WindowsIncrease(log, i, j);
    }
  }

  /** A read found more queued than its frame-rounded budget. */
  predicate OverBudget(c: Config, d: Delivery) {
    d.was < d.tail && d.tail - d.was > Rounded(d.maxLatency, c.Frame())
  }

  lemma SkipsIffOverBudget(c: Config, d: Delivery)
    requires d.was <= d.tail && d.from == ReadFrom(c.Frame(), d.tail, d.was, d.maxLatency)
    ensures d.from > d.was <==> OverBudget(c, d)
  {
  }

  /** What was played is the stream up to `head`, with no gap, exactly when no read ever ran over its budget. */
  lemma LosslessIff(c: Config, es: seq<Event>)
    ensures var st := Run(c, es);
      && st.head <= |st.hist|
      && (Output(st.log) == st.hist[..st.head]
          <==> forall i :: 0 <= i < |st.log| ==> !OverBudget(c, st.log[i]))
  {
    RunConsistent(c, es);
    var st := Run(c, es);
    assert forall i :: 0 <= i < |st.log| ==> GoodDelivery(c, st.hist, st.log[i]);
    forall i | 0 <= i < |st.log|
      ensures st.log[i].from == st.log[i].was <==> !OverBudget(c, st.log[i])
    {
      assert GoodDelivery(c, st.hist, st.log[i]);
      SkipsIffOverBudget(c, st.log[i]);
    }
    DeliveredOrSkipped(st.log);
    NothingSkipped(st.log);
    OutputLength(c, st.hist, st.log);
    if forall i :: 0 <= i < |st.log| ==> !OverBudget(c, st.log[i]) {
      OutputIsPrefix(c, st.hist, st.log);
    }
  }

  // ---- latency ----

  /**
   Bounded latency: a read of a whole-frame `window` with budget `window + maxLatency` leaves at most
   `max(maxLatency, frame - 1)` bytes queued, and at most `maxLatency` when both offsets were frame-aligned.
   */
  lemma LatencyBound(c: Config, hist: seq<Byte>, d: Delivery, maxLatency: nat)
    requires GoodDelivery(c, hist, d)
    requires c.Whole(d.outLen) && d.maxLatency == d.outLen + maxLatency
    ensures d.tail - d.to <= Max(maxLatency, c.Frame() - 1)
    ensures c.Whole(d.was) && c.Whole(d.tail) ==>
      d.tail - d.to <= Rounded(maxLatency, c.Frame()) <= maxLatency
  {
    var f := c.Frame();
    var left := d.tail - d.from;
    RoundedSplits(d.outLen, maxLatency, f);
    RoundedBounds(maxLatency, f);
    RoundedBounds(d.outLen, f);
    ReadFromBounds(f, d.tail, d.was, d.maxLatency);
    RoundedBounds(Min(d.outLen, left), f);
    if left >= d.outLen {
      assert d.to - d.from == d.outLen;
    } else if d.was % f == 0 && d.tail % f == 0 {
      ReadFromAligned(f, d.tail, d.was, d.maxLatency);
      AddMultiples(d.tail, d.from, f);
      assert left % f == 0;
    }
  }

  /** Rounding a whole number of frames plus a rest rounds the rest. */
  lemma RoundedSplits(a: nat, b: nat, frame: nat)
    requires frame > 0 && a % frame == 0
    ensures Rounded(a + b, frame) == a + Rounded(b, frame)
  {
    var q, q' := a / frame, b / frame;
    assert a == q * frame && b == q' * frame + b % frame;
    assert a + b == (q + q') * frame + b % frame;
    DivModUnique(a + b, frame, q + q', b % frame);
  }

  // ---- frame alignment ----

  lemma ReadFromAligned(frame: nat, tail: nat, head: nat, maxLatency: nat)
    requires frame > 0 && tail % frame == 0 && head % frame == 0
    ensures ReadFrom(frame, tail, head, maxLatency) % frame == 0
  {
    RoundedBounds(maxLatency, frame);
    AddMultiples(tail, Rounded(maxLatency, frame), frame);
  }

  /** Cutting a whole-frame push to `cap` bytes splits a frame unless it is not cut or `cap` is whole frames. */
  lemma CutKeepsFrames(cap: nat, frame: nat, src: seq<Byte>)
    requires frame > 0 && |src| % frame == 0
    ensures |Newest(cap, src)| % frame == 0 <==> |src| <= cap || cap % frame == 0
  {
  }

  /** What a push adds to the stream is whole frames; `CutKeepsFrames` says which pushes these are. */
  predicate KeepsFrames(c: Config, e: Event) {
    e.Push? ==> c.Whole(|Newest(c.cap, e.src)|)
  }

  ghost predicate Aligned(c: Config, st: Stream) {
    && c.Whole(|st.hist|)
    && c.Whole(st.head)
    && forall i :: 0 <= i < |st.log| ==> AlignedDelivery(c, st.log[i])
  }

  predicate AlignedDelivery(c: Config, d: Delivery) {
    && c.Whole(d.was)
    && c.Whole(d.from)
    && c.Whole(d.to)
    && c.Whole(d.tail)
  }

  /** Frame alignment is a run invariant: no sample is ever split. */
  lemma {:induction false} RunAligned(c: Config, es: seq<Event>)
    requires forall i :: 0 <= i < |es| ==> KeepsFrames(c, es[i])
    ensures Aligned(c, Run(c, es))
  {
    var f := c.Frame();
    if |es| == 0 {
      DivModUnique(0, f, 0, 0);
    } else {
      var st, e := Run(c, es[..|es| - 1]), es[|es| - 1];
      RunAligned(c, es[..|es| - 1]);
      assert KeepsFrames(c, e);
      match e
      case Push(src) =>
        AddMultiples(|st.hist|, |Newest(c.cap, src)|, f);
      case Read(outLen, maxLatency) =>
        var tail := |st.hist|;
        var from := ReadFrom(f, tail, st.head, maxLatency);
        ReadFromAligned(f, tail, st.head, maxLatency);
        WantBounds(f, tail, from, outLen);
        AddMultiples(from, Want(f, tail, from, outLen), f);
    }
  }

  /** A run is aligned all along exactly when every push adds whole frames. */
  lemma RunAlignedIff(c: Config, es: seq<Event>)
    ensures (forall k :: 0 <= k <= |es| ==> Aligned(c, Run(c, es[..k])))
       <==> (forall i :: 0 <= i < |es| ==> KeepsFrames(c, es[i]))
  {
    if forall i :: 0 <= i < |es| ==> KeepsFrames(c, es[i]) {
      forall k | 0 <= k <= |es|
        ensures Aligned(c, Run(c, es[..k]))
      {
        RunAligned(c, es[..k]);
      }
    }
    if forall k :: 0 <= k <= |es| ==> Aligned(c, Run(c, es[..k])) {
      forall i | 0 <= i < |es|
        ensures KeepsFrames(c, es[i])
      {
        assert es[..i + 1] == es[..i] + [es[i]];
        RunSnoc(c, es[..i], es[i]);
        assert Aligned(c, Run(c, es[..i])) && Aligned(c, Run(c, es[..i + 1]));
        AddsWholeFrames(c, Run(c, es[..i]), es[i]);
      }
    }
  }

  /** An event between two aligned states added whole frames. */
  lemma AddsWholeFrames(c: Config, st: Stream, e: Event)
    requires c.Whole(|st.hist|) && c.Whole(|After(c, st, e).hist|)
    ensures KeepsFrames(c, e)
  {
    if e.Push? {
      AddMultiples(|After(c, st, e).hist|, |st.hist|, c.Frame());
    }
  }

  /** Whole-frame pushes of any length keep the ring aligned in every run exactly when `frame` divides `cap`. */
  lemma AlignmentIff(c: Config)
    ensures c.Whole(c.cap)
        <==> forall es: seq<Event> ::
               (forall i :: 0 <= i < |es| && es[i].Push? ==> c.Whole(|es[i].src|)) ==> Aligned(c, Run(c, es))
  {
    var f := c.Frame();
    if c.cap % f == 0 {
      forall es: seq<Event> | forall i :: 0 <= i < |es| && es[i].Push? ==> |es[i].src| % f == 0
        ensures Aligned(c, Run(c, es))
      {
        forall i | 0 <= i < |es|
          ensures KeepsFrames(c, es[i])
        {
          if es[i].Push? {
            CutKeepsFrames(c.cap, f, es[i].src);
          }
        }
        RunAligned(c, es);
      }
    } else {
      var es := OversizedPush(c);
      assert !Aligned(c, Run(c, es));
    }
  }

  /** One whole-frame push longer than a ring whose size is not a whole number of frames. */
  lemma OversizedPush(c: Config) returns (es: seq<Event>)
    requires !c.Whole(c.cap)
    ensures forall i :: 0 <= i < |es| && es[i].Push? ==> c.Whole(|es[i].src|)
    ensures |es| == 1 && es[0].Push? && |es[0].src| >= c.cap > 0 && !c.Whole(|Newest(c.cap, es[0].src)|)
    ensures !c.Whole(|Run(c, es).hist|)
  {
    var f := c.Frame();
    if f == 1 {
      DivModUnique(c.cap, f, c.cap, 0);
      assert false;
    }
    var n := c.cap * f;
    DivModUnique(n, f, c.cap, 0);
    assert n >= c.cap;
    var src := seq(n, i => 0 as Byte);
    es := [Push(src)];
    RunSnoc(c, [], Push(src));
    assert [] + [Push(src)] == es;
    assert Run(c, []) == EMPTY_STREAM;
  }

  // ---- the statistics counters ----

  /** The overflow test of the playback callback against `head` and `tail`. */
  predicate CountsOverflow(tail: nat, head: nat, budget: nat) {
    SaturatingSub(tail, head) > budget
  }

  /** With frame-aligned offsets an overflow is counted exactly when the read skips bytes. */
  lemma OverflowIffSkips(c: Config, d: Delivery)
    requires d.was <= d.tail && d.from == ReadFrom(c.Frame(), d.tail, d.was, d.maxLatency)
    requires c.Whole(d.was) && c.Whole(d.tail)
    ensures CountsOverflow(d.tail, d.was, d.maxLatency) <==> d.from > d.was
  {
    AddMultiples(d.tail, d.was, c.Frame());
    RoundedIsGreatest(d.tail - d.was, d.maxLatency, c.Frame());
  }

  /** Without alignment, a counted overflow still implies a skip. */
  lemma OverflowSkips(c: Config, tail: nat, head: nat, maxLatency: nat)
    requires head <= tail && CountsOverflow(tail, head, maxLatency)
    ensures ReadFrom(c.Frame(), tail, head, maxLatency) > head
  {
    RoundedBounds(maxLatency, c.Frame());
  }

  /** A whole-frame window that fits the budget is underfilled exactly when fewer than `window` bytes were queued. */
  lemma UnderflowIff(c: Config, d: Delivery)
    requires d.was <= d.tail && d.from == ReadFrom(c.Frame(), d.tail, d.was, d.maxLatency)
    requires d.to == d.from + Want(c.Frame(), d.tail, d.from, d.outLen)
    requires c.Whole(d.outLen) && d.outLen <= d.maxLatency
    ensures d.to - d.from < d.outLen <==> d.tail - d.was < d.outLen
  {
    var f := c.Frame();
    ReadFromBounds(f, d.tail, d.was, d.maxLatency);
    RoundedIsGreatest(d.outLen, d.maxLatency, f);
    RoundedBounds(d.outLen, f);
    RoundedIsGreatest(d.outLen, d.outLen, f);
    RoundedBounds(Min(d.outLen, d.tail - d.from), f);
  }
}
