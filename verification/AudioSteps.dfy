/**
 The audio ring under concurrency: one action per load or store of shared memory.

 Memory model: both sides are x86-64 and, once the header is initialised, every shared
 cell has one writer, so a run is an interleaving of each side's loads and store commits
 in program order (total store order). The read stagger and all delays are arbitrary
 scheduling. A run is any list of actions; an action that is not enabled does nothing.
 */
module AudioSteps {
  import opened Words
  import opened Ring
  import opened AudioSpec

  // ---- local state of the two sides ----

  /** Where the producer is inside `push_overwrite(raw)`: the constructor names what it has done last. */
  datatype Producer =
    | Resting
    | Entered(raw: seq<Byte>)
    | TailLoaded(raw: seq<Byte>, tail: nat)
    | SeqLoaded(raw: seq<Byte>, tail: nat, q: nat)
    | Writing(raw: seq<Byte>, tail: nat, q: nat, i: nat)
    | TailStored(q: nat)

  /** Who called `read_quantum`: any caller, or the playback callback with its `max_latency_bytes`. */
  datatype Caller = Direct | Callback(latency: nat)

  /** One call of `read_quantum(out, maxLatency)`; `begun` counts the pushes begun before it. */
  datatype Call = Call(caller: Caller, out: seq<Byte>, maxLatency: nat, overflow: bool, retries: nat, begun: nat)

  /** The locals of one loop iteration. */
  datatype Attempt = Attempt(s0: nat, tail: nat, was: nat, from: nat, want: nat)

  datatype Consumer =
    | Free
    | AtPointers(window: seq<Byte>, latency: nat)
    | HeadSampled(window: seq<Byte>, latency: nat, head: nat)
    | AtLoop(call: Call)
    | SeqSeen(call: Call, s0: nat)
    | TailSeen(call: Call, s0: nat, tail: nat)
    | Reading(call: Call, at: Attempt, i: nat)
    | TailAgain(call: Call, at: Attempt, tail2: nat)
    | Accepted(call: Call, at: Attempt)

  /** What a finished call handed back, and what the callback counted. */
  datatype Reply = Reply(
    caller: Caller, out: seq<Byte>, live: nat, overflow: bool, underflow: bool, retries: nat, pushes: nat)

  /**
   Shared memory (`payload`, `tail`, `seqno`, `head`), both sides' locals, and the history:
   bytes written and handed over, accepted reads, and replies.
   */
  datatype State = State(
    payload: seq<Byte>, tail: nat, seqno: nat, head: nat,
    producer: Producer, consumer: Consumer,
    hist: seq<Byte>, pushed: seq<Byte>, log: seq<Delivery>, replies: seq<Reply>)

  /** `stray` is the byte a load finds when its address lies past the ring. */
  datatype Action =
    | BeginPush(raw: seq<Byte>)
    | Produce
    | BeginRead(out: seq<Byte>, maxLatency: nat)
    | BeginCallback(slice: seq<Byte>, latency: nat)
    | Consume(stray: Byte)

  // ---- steps ----

  function Peek(p: seq<Byte>, i: nat, stray: Byte): Byte {
    if i < |p| then p[i] else stray
  }

  function Poke(p: seq<Byte>, i: nat, b: Byte): (r: seq<Byte>)
    ensures |r| == |p|
  {
    if i < |p| then p[i := b] else p
  }

  function Zeros(n: nat): (r: seq<Byte>)
    ensures |r| == n && forall i :: 0 <= i < n ==> r[i] == 0
  {
    seq(n, i => 0)
  }

  /** Pushes whose odd marker has been stored. */
  function Begun(seqno: nat): nat {
    (seqno + 1) / 2
  }

  /** The 64-bit counters do not run out during this push. */
  predicate Room(c: Config, tail: nat, seqno: nat, raw: seq<Byte>) {
    tail + |Newest(c.cap, raw)| < U64 && seqno + 2 < U64
  }

  function ProduceStep(c: Config, s: State): State {
    match s.producer
    case Resting => s
    case Entered(raw) =>
      s.(producer := TailLoaded(raw, s.tail))
    case TailLoaded(raw, tail) =>
      s.(producer := SeqLoaded(raw, tail, s.seqno))
    case SeqLoaded(raw, tail, q) =>
      s.(seqno := WrappingAdd(q, 1), producer := Writing(raw, tail, q, 0))
    case Writing(raw, tail, q, i) =>
      var src := Newest(c.cap, raw);
      if i < |src| then
        s.(payload := Poke(s.payload, CopyIndex(c.cap, MaskOf(c, tail), |src|, i), src[i]),
           producer := Writing(raw, tail, q, i + 1))
      else
        s.(tail := WrappingAdd(tail, |src|),
           hist := s.hist + src, pushed := s.pushed + raw,
           producer := TailStored(q))
    case TailStored(q) =>
      s.(seqno := WrappingAdd(q, 2), producer := Resting)
  }

  function MaskOf(c: Config, pos: nat): nat {
    if c.cap > 0 then Mask(c.cap, pos) else 0
  }

  /** The arithmetic between the `head` load and the copy. */
  function Begin(c: Config, call: Call, s0: nat, tail: nat, head: nat): Attempt {
    var from := ReadFrom(c.Frame(), tail, head, call.maxLatency);
    Attempt(s0, tail, head, from, Want(c.Frame(), tail, from, |call.out|))
  }

  /** The recheck after the copy: `s1 != s0 || tail2.wrapping_sub(head) > cap` retries. */
  predicate Rejects(c: Config, at: Attempt, tail2: nat, s1: nat) {
    s1 != at.s0 || WrappingSub(tail2, at.from) > c.cap
  }

  function DeliveryOf(call: Call, at: Attempt): Delivery {
    Delivery(at.was, at.from, at.from + at.want, at.tail, |call.out|, call.maxLatency,
             if at.want <= |call.out| then call.out[..at.want] else call.out)
  }

  function ReplyOf(s: State, call: Call, at: Attempt): Reply {
    var live := if at.want <= |call.out| then call.out[..at.want] else call.out;
    Reply(call.caller, live + Zeros(|call.out| - |live|), |live|,
          call.overflow, call.caller.Callback? && |live| < |call.out|,
          call.retries, SaturatingSub(Begun(s.seqno), call.begun))
  }

  /** Where a step of the consumer goes. */
  function Move(c: Config, s: State, stray: Byte): Consumer {
    match s.consumer
    case Free => Free
    case AtPointers(window, latency) => HeadSampled(window, latency, s.head)
    case HeadSampled(window, latency, head) =>
      var budget := |window| + latency;
      AtLoop(Call(Callback(latency), window, budget, CountsOverflow(s.tail, head, budget), 0, Begun(s.seqno)))
    case AtLoop(call) => if s.seqno % 2 == 1 then AtLoop(call) else SeqSeen(call, s.seqno)
    case SeqSeen(call, s0) => TailSeen(call, s0, s.tail)
    case TailSeen(call, s0, tail) => Reading(call, Begin(c, call, s0, tail, s.head), 0)
    case Reading(call, at, i) =>
      if i < at.want then
        var b := Peek(s.payload, CopyIndex(c.cap, MaskOf(c, at.from), at.want, i), stray);
        Reading(call.(out := Poke(call.out, i, b)), at, i + 1)
      else TailAgain(call, at, s.tail)
    case TailAgain(call, at, tail2) =>
      if Rejects(c, at, tail2, s.seqno) then AtLoop(call.(retries := call.retries + 1)) else Accepted(call, at)
    case Accepted(call, at) => Free
  }

  /** A step of the consumer; passing the recheck logs the read, and the last step stores `head` and replies. */
  function ConsumeStep(c: Config, s: State, stray: Byte): State {
    var k := Move(c, s, stray);
    if k.Accepted? then
      s.(consumer := k, log := s.log + [DeliveryOf(k.call, k.at)])
    else if s.consumer.Accepted? then
      s.(consumer := k, head := s.consumer.at.from + s.consumer.at.want,
         replies := s.replies + [ReplyOf(s, s.consumer.call, s.consumer.at)])
    else s.(consumer := k)
  }

  function Next(c: Config, s: State, a: Action): State {
    match a
    case BeginPush(raw) =>
      if s.producer.Resting? && |Newest(c.cap, raw)| > 0 && Room(c, s.tail, s.seqno, raw)
      then s.(producer := Entered(raw)) else s
    case Produce => ProduceStep(c, s)
    case BeginRead(out, maxLatency) =>
      if s.consumer.Free? then s.(consumer := AtLoop(Call(Direct, out, maxLatency, false, 0, Begun(s.seqno)))) else s
    case BeginCallback(slice, latency) =>
      if s.consumer.Free? && c.frameBytes > 0
      then
        RoundedBounds(|slice|, c.frameBytes);
        s.(consumer := AtPointers(slice[..Rounded(|slice|, c.frameBytes)], latency))
      else s
    case Consume(stray) => ConsumeStep(c, s, stray)
  }

  /** After `init`: counters zero, payload whatever the mapping held. */
  function Init(payload: seq<Byte>): State {
    State(payload, 0, 0, 0, Resting, Free, [], [], [], [])
  }

  function Run(c: Config, payload: seq<Byte>, acts: seq<Action>): State {
    if |acts| == 0 then Init(payload)
    else Next(c, Run(c, payload, acts[..|acts| - 1]), acts[|acts| - 1])
  }

  // ---- the inductive invariant ----

  ghost predicate ProducerInv(c: Config, s: State) {
    match s.producer
    case Resting => s.seqno % 2 == 0 && Holds(s.payload, s.hist)
    case Entered(raw) => Ready(c, s, raw)
    case TailLoaded(raw, tail) => Ready(c, s, raw) && tail == s.tail
    case SeqLoaded(raw, tail, q) => Ready(c, s, raw) && tail == s.tail && q == s.seqno
    case Writing(raw, tail, q, i) =>
      && q % 2 == 0 && s.seqno == q + 1 && tail == s.tail && Room(c, s.tail, q, raw)
      && i <= |Newest(c.cap, raw)|
      && Holds(s.payload, s.hist + Newest(c.cap, raw)[..i])
    case TailStored(q) =>
      q % 2 == 0 && s.seqno == q + 1 && q + 2 < U64 && Holds(s.payload, s.hist)
  }

  ghost predicate Ready(c: Config, s: State, raw: seq<Byte>) {
    s.seqno % 2 == 0 && Room(c, s.tail, s.seqno, raw) && Holds(s.payload, s.hist)
  }

  /** More is queued, and more of it wanted, than the ring holds. */
  predicate OverRing(c: Config, maxLatency: nat, head: nat, queued: nat) {
    Rounded(maxLatency, c.Frame()) > c.cap && queued > head + c.cap
  }

  /**
   What a call in progress knows: a counted overflow still stands, and every retry is paid for by a
   push begun during the call, unless the call can no longer be accepted.
   */
  ghost predicate CallInv(c: Config, call: Call, head: nat, tail: nat, seqno: nat) {
    && (call.overflow ==> call.caller.Callback? && CountsOverflow(tail, head, call.maxLatency))
    && (call.caller.Callback? ==> c.Whole(|call.out|) && call.maxLatency == |call.out| + call.caller.latency)
    && (call.retries + call.begun <= Begun(seqno) || OverRing(c, call.maxLatency, head, tail))
  }

  /** What an iteration knows: its window arithmetic, and, while `seq` still has the value it saw, the exact bytes. */
  ghost predicate AttemptInv(c: Config, call: Call, at: Attempt, i: nat,
                             head: nat, tail: nat, seqno: nat, hist: seq<Byte>) {
    && |hist| == tail && at.s0 % 2 == 0 && at.s0 <= seqno
    && at.was == head <= at.tail <= tail
    && at.from == ReadFrom(c.Frame(), at.tail, at.was, call.maxLatency)
    && at.want == Want(c.Frame(), at.tail, at.from, |call.out|)
    && i <= at.want <= |call.out| && at.from + at.want <= at.tail
    && CallInv(c, call, head, tail, at.s0)
    && (at.s0 == seqno ==>
          && at.tail == tail
          && (tail - at.from <= c.cap ==> call.out[..i] == hist[at.from..at.from + i]))
  }

  ghost predicate ConsumerInv(c: Config, k: Consumer, head: nat, tail: nat, seqno: nat,
                              hist: seq<Byte>, log: seq<Delivery>) {
    && head <= |hist| == tail
    && (!k.Accepted? ==> head == LastTo(log))
    && match k
       case Free => true
       case AtPointers(window, latency) => c.Whole(|window|)
       case HeadSampled(window, latency, h) => c.Whole(|window|) && h == head
       case AtLoop(call) => CallInv(c, call, head, tail, seqno)
       case SeqSeen(call, s0) => s0 % 2 == 0 && s0 <= seqno && CallInv(c, call, head, tail, s0)
       case TailSeen(call, s0, t) =>
         && s0 % 2 == 0 && s0 <= seqno && CallInv(c, call, head, tail, s0)
         && head <= t <= tail && (s0 == seqno ==> t == tail)
       case Reading(call, at, i) => AttemptInv(c, call, at, i, head, tail, seqno, hist)
       case TailAgain(call, at, tail2) =>
         && AttemptInv(c, call, at, at.want, head, tail, seqno, hist)
         && at.tail <= tail2 <= tail
       case Accepted(call, at) =>
         && |log| > 0 && log[|log| - 1] == DeliveryOf(call, at)
         && at.was == head && at.want <= |call.out|
         && at.from == ReadFrom(c.Frame(), at.tail, at.was, call.maxLatency) && at.was <= at.tail
         && CallInv(c, call, head, at.tail, seqno) && call.retries + call.begun <= Begun(seqno)
  }

  /** What a reply says is true of the delivery it reports. */
  ghost predicate GoodReply(c: Config, r: Reply, d: Delivery) {
    && r.live == d.to - d.from <= d.outLen == |r.out|
    && r.out == d.bytes + Zeros(d.outLen - r.live)
    && (r.caller.Callback? ==> c.Whole(d.outLen) && d.maxLatency == d.outLen + r.caller.latency)
    && (r.overflow ==> r.caller.Callback? && d.tail - d.was > d.maxLatency && d.from > d.was)
    && (r.underflow <==> r.caller.Callback? && r.live < d.outLen)
    && r.retries <= r.pushes
  }

  ghost predicate RepliesInv(c: Config, s: State) {
    && |s.replies| + (if s.consumer.Accepted? then 1 else 0) == |s.log|
    && forall i :: 0 <= i < |s.replies| ==> s.log[i].from <= s.log[i].to && GoodReply(c, s.replies[i], s.log[i])
  }

  /** The abstract ring: reads take effect when they are accepted. */
  function Abs(s: State): Stream {
    Stream(s.hist, s.pushed, LastTo(s.log), s.log)
  }

  ghost predicate Inv(c: Config, s: State) {
    && |s.payload| == c.cap
    && s.tail < U64 && s.seqno < U64
    && ProducerInv(c, s)
    && ConsumerInv(c, s.consumer, s.head, s.tail, s.seqno, s.hist, s.log)
    && RepliesInv(c, s)
    && Consistent(c, Abs(s))
  }

  // ---- linearization: what each step does to the abstract ring ----

  /** Storing `tail` is the push; the load of `seq` that passes the recheck is the read. No other step has an effect. */
  function Effect(c: Config, s: State, a: Action): seq<Event> {
    if a.Produce? && StoresTail(c, s.producer) then [Push(s.producer.raw)]
    else if a.Consume? && Accepts(c, s) then [Read(|s.consumer.call.out|, s.consumer.call.maxLatency)]
    else []
  }

  predicate StoresTail(c: Config, p: Producer) {
    p.Writing? && p.i >= |Newest(c.cap, p.raw)|
  }

  predicate Accepts(c: Config, s: State) {
    s.consumer.TailAgain? && !Rejects(c, s.consumer.at, s.consumer.tail2, s.seqno)
  }

  function AfterAll(c: Config, st: Stream, es: seq<Event>): Stream
    requires |es| <= 1
  {
    if |es| == 0 then st else After(c, st, es[0])
  }

  /** The atomic events of a run, in the order they took effect. */
  function Effects(c: Config, payload: seq<Byte>, acts: seq<Action>): seq<Event> {
    if |acts| == 0 then []
    else Effects(c, payload, acts[..|acts| - 1]) + Effect(c, Run(c, payload, acts[..|acts| - 1]), acts[|acts| - 1])
  }

  // ---- producer steps ----

  lemma WrappingIsSum(a: nat, b: nat)
    requires a + b < U64
    ensures WrappingAdd(a, b) == a + b
  {
  }

  lemma WrappingIsDifference(a: nat, b: nat)
    requires b <= a < U64
    ensures WrappingSub(a, b) == a - b
  {
  }

  /** The byte a copy of `n <= cap` bytes from `pos` reaches as its `i`-th. */
  lemma CopyReaches(c: Config, pos: nat, n: nat, i: nat)
    requires c.Valid() && i < n <= c.cap
    ensures CopyIndex(c.cap, MaskOf(c, pos), n, i) == (pos + i) % c.cap < c.cap
  {
    MaskIsMod(c.cap, pos);
    CopyIndexIsMod(c.cap, pos, n, i);
  }

  lemma WriteKeepsRing(c: Config, s: State)
    requires c.Valid() && |s.payload| == c.cap && |s.hist| == s.tail && ProducerInv(c, s)
    requires s.producer.Writing? && s.producer.i < |Newest(c.cap, s.producer.raw)|
    ensures ProducerInv(c, ProduceStep(c, s))
  {
    var Writing(raw, tail, q, i) := s.producer;
    var src := Newest(c.cap, raw);
    CopyReaches(c, tail, |src|, i);
    HoldsExtend(s.payload, s.hist + src[..i], src[i]);
    assert s.hist + src[..i] + [src[i]] == s.hist + src[..i + 1];
  }

  lemma ProduceKeepsProducer(c: Config, s: State)
    requires c.Valid() && |s.payload| == c.cap && s.tail < U64 && s.seqno < U64
    requires |s.hist| == s.tail && ProducerInv(c, s)
    ensures var s' := ProduceStep(c, s);
      && ProducerInv(c, s') && |s'.payload| == c.cap && s'.tail < U64 && s'.seqno < U64
      && Grows(s.tail, s.seqno, s.hist, s'.tail, s'.seqno, s'.hist)
  {
    match s.producer
    case Resting =>
    case Entered(raw) =>
    case TailLoaded(raw, tail) =>
    case SeqLoaded(raw, tail, q) =>
      assert s.hist + Newest(c.cap, raw)[..0] == s.hist;
    case Writing(raw, tail, q, i) =>
      if i < |Newest(c.cap, raw)| {
        WriteKeepsRing(c, s);
      } else {
        PublishKeepsRing(c, s);
      }
    case TailStored(q) =>
  }

  lemma PublishKeepsRing(c: Config, s: State)
    requires c.Valid() && |s.payload| == c.cap && |s.hist| == s.tail && ProducerInv(c, s) && StoresTail(c, s.producer)
    ensures var s' := ProduceStep(c, s);
      ProducerInv(c, s') && s'.tail < U64 && Grows(s.tail, s.seqno, s.hist, s'.tail, s'.seqno, s'.hist)
  {
    var Writing(raw, tail, q, i) := s.producer;
    var src := Newest(c.cap, raw);
    assert src[..i] == src;
    WrappingIsSum(tail, |src|);
  }

  /** `hist'` extends `hist`; nothing moves while `seq` is even and unchanged. */
  ghost predicate Grows(tail: nat, seqno: nat, hist: seq<Byte>, tail': nat, seqno': nat, hist': seq<Byte>) {
    && tail <= tail' && seqno <= seqno' && |hist'| == tail'
    && hist <= hist'
    && (seqno == seqno' && seqno % 2 == 0 ==> hist' == hist && tail' == tail)
  }

  lemma AttemptStable(c: Config, call: Call, at: Attempt, i: nat, head: nat,
                      tail: nat, seqno: nat, hist: seq<Byte>, tail': nat, seqno': nat, hist': seq<Byte>)
    requires AttemptInv(c, call, at, i, head, tail, seqno, hist)
    requires Grows(tail, seqno, hist, tail', seqno', hist')
    ensures AttemptInv(c, call, at, i, head, tail', seqno', hist')
  {
  }

  /** Whatever the producer does, the consumer's knowledge stays true. */
  lemma ConsumerInvStable(c: Config, k: Consumer, head: nat, log: seq<Delivery>,
                          tail: nat, seqno: nat, hist: seq<Byte>, tail': nat, seqno': nat, hist': seq<Byte>)
    requires ConsumerInv(c, k, head, tail, seqno, hist, log)
    requires Grows(tail, seqno, hist, tail', seqno', hist')
    ensures ConsumerInv(c, k, head, tail', seqno', hist', log)
  {
    match k
    case Reading(call, at, i) => AttemptStable(c, call, at, i, head, tail, seqno, hist, tail', seqno', hist');
    case TailAgain(call, at, tail2) =>
      AttemptStable(c, call, at, at.want, head, tail, seqno, hist, tail', seqno', hist');
    case _ =>
  }

  lemma ProducerInvFrames(c: Config, s: State, s': State)
    requires ConsumerInv(c, s.consumer, s.head, s.tail, s.seqno, s.hist, s.log) && RepliesInv(c, s)
    requires s'.consumer == s.consumer && s'.head == s.head && s'.log == s.log && s'.replies == s.replies
    requires Grows(s.tail, s.seqno, s.hist, s'.tail, s'.seqno, s'.hist)
    ensures ConsumerInv(c, s'.consumer, s'.head, s'.tail, s'.seqno, s'.hist, s'.log) && RepliesInv(c, s')
  {
    ConsumerInvStable(c, s.consumer, s.head, s.log, s.tail, s.seqno, s.hist, s'.tail, s'.seqno, s'.hist);
  }

  lemma ProduceEffect(c: Config, s: State)
    ensures var s' := ProduceStep(c, s);
      && s'.consumer == s.consumer && s'.head == s.head && s'.log == s.log && s'.replies == s.replies
      && Abs(s') == AfterAll(c, Abs(s), Effect(c, s, Produce))
  {
  }

  /** One step of the producer: the invariant is kept and the abstract ring sees the push or nothing. */
  lemma ProduceRefines(c: Config, s: State)
    requires c.Valid() && Inv(c, s)
    ensures Inv(c, ProduceStep(c, s))
    ensures Abs(ProduceStep(c, s)) == AfterAll(c, Abs(s), Effect(c, s, Produce))
  {
    var s' := ProduceStep(c, s);
    ProduceKeepsProducer(c, s);
    ProduceEffect(c, s);
    ProducerInvFrames(c, s, s');
    if StoresTail(c, s.producer) {
      ConsistentAfter(c, Abs(s), Push(s.producer.raw));
    }
  }

  // ---- consumer steps ----

  /** While `seq` is even the payload holds the published stream, so a byte in the window is read exactly. */
  lemma ReadsExactly(c: Config, s: State, at: Attempt, i: nat, stray: Byte)
    requires c.Valid() && |s.payload| == c.cap && |s.hist| == s.tail && ProducerInv(c, s) && s.seqno % 2 == 0
    requires at.from + at.want <= s.tail && s.tail - at.from <= c.cap && i < at.want
    ensures Peek(s.payload, CopyIndex(c.cap, MaskOf(c, at.from), at.want, i), stray) == s.hist[at.from + i]
  {
    var index := CopyIndex(c.cap, MaskOf(c, at.from), at.want, i);
    assert index == (at.from + i) % c.cap by {
      CopyReaches(c, at.from, at.want, i);
    }
    HoldsAt(s.payload, s.hist, at.from + i, index);
  }

  /** A step that only moves the consumer, short of accepting or finishing. */
  lemma ConsumerMoves(c: Config, s: State, k: Consumer)
    requires Inv(c, s) && !s.consumer.Accepted? && !k.Accepted?
    requires ConsumerInv(c, k, s.head, s.tail, s.seqno, s.hist, s.log)
    ensures Inv(c, s.(consumer := k)) && Abs(s.(consumer := k)) == Abs(s)
  {
    var s' := s.(consumer := k);
    assert Abs(s') == Abs(s);
    assert ProducerInv(c, s');
  }

  /** Copying one byte. */
  lemma ReadByteKeeps(c: Config, s: State, call: Call, at: Attempt, i: nat, stray: Byte)
    requires c.Valid() && |s.payload| == c.cap && ProducerInv(c, s)
    requires AttemptInv(c, call, at, i, s.head, s.tail, s.seqno, s.hist) && i < at.want
    ensures var b := Peek(s.payload, CopyIndex(c.cap, MaskOf(c, at.from), at.want, i), stray);
      AttemptInv(c, call.(out := Poke(call.out, i, b)), at, i + 1, s.head, s.tail, s.seqno, s.hist)
  {
    var b := Peek(s.payload, CopyIndex(c.cap, MaskOf(c, at.from), at.want, i), stray);
    var out' := Poke(call.out, i, b);
    if at.s0 == s.seqno && s.tail - at.from <= c.cap {
      ReadsExactly(c, s, at, i, stray);
      AppendRead(call.out, out', s.hist, at.from, i);
    }
  }

  lemma AppendRead(out: seq<Byte>, out': seq<Byte>, hist: seq<Byte>, from: nat, i: nat)
    requires i < |out| && from + i < |hist|
    requires out[..i] == hist[from..from + i] && out' == out[i := hist[from + i]]
    ensures out'[..i + 1] == hist[from..from + i + 1]
  {
    assert out'[..i + 1] == out[..i] + [hist[from + i]];
  }

  /** A rejected iteration saw a push begin, or more is queued and wanted than the ring holds. */
  lemma RejectIsCharged(c: Config, call: Call, at: Attempt, i: nat, s: State, tail2: nat)
    requires AttemptInv(c, call, at, i, s.head, s.tail, s.seqno, s.hist) && s.tail < U64
    requires at.tail <= tail2 <= s.tail && Rejects(c, at, tail2, s.seqno)
    ensures Begun(at.s0) + 1 <= Begun(s.seqno) || OverRing(c, call.maxLatency, s.head, s.tail)
  {
    WrappingIsDifference(tail2, at.from);
    ReadFromBounds(c.Frame(), at.tail, at.was, call.maxLatency);
  }

  /** The recheck failed. */
  lemma RetryKeeps(c: Config, s: State, call: Call, at: Attempt, tail2: nat)
    requires s.tail < U64 && s.consumer == TailAgain(call, at, tail2) && Rejects(c, at, tail2, s.seqno)
    requires ConsumerInv(c, s.consumer, s.head, s.tail, s.seqno, s.hist, s.log)
    ensures ConsumerInv(c, AtLoop(call.(retries := call.retries + 1)), s.head, s.tail, s.seqno, s.hist, s.log)
  {
    RejectIsCharged(c, call, at, at.want, s, tail2);
  }

  /** While more is queued and wanted than the ring holds, every recheck fails. */
  lemma OverRingRejects(c: Config, s: State, call: Call, at: Attempt, tail2: nat)
    requires s.tail < U64 && at.tail <= tail2 <= s.tail
    requires AttemptInv(c, call, at, at.want, s.head, s.tail, s.seqno, s.hist)
    requires OverRing(c, call.maxLatency, s.head, s.tail)
    ensures Rejects(c, at, tail2, s.seqno)
  {
    WrappingIsDifference(tail2, at.from);
    ReadFromBounds(c.Frame(), at.tail, at.was, call.maxLatency);
  }

  /** The recheck passed: nothing was written since the load of `seq`, so the copy is the atomic read. */
  lemma AcceptIsRead(c: Config, s: State, call: Call, at: Attempt, tail2: nat)
    requires s.tail < U64 && s.consumer == TailAgain(call, at, tail2) && !Rejects(c, at, tail2, s.seqno)
    requires ConsumerInv(c, s.consumer, s.head, s.tail, s.seqno, s.hist, s.log)
    ensures at.tail == s.tail == |s.hist| && s.head == LastTo(s.log)
    ensures call.retries + call.begun <= Begun(s.seqno)
    ensures After(c, Abs(s), Read(|call.out|, call.maxLatency))
         == Stream(s.hist, s.pushed, at.from + at.want, s.log + [DeliveryOf(call, at)])
  {
    WrappingIsDifference(tail2, at.from);
    if OverRing(c, call.maxLatency, s.head, s.tail) {
      OverRingRejects(c, s, call, at, tail2);
    }
  }

  lemma AcceptKeeps(c: Config, s: State, call: Call, at: Attempt, tail2: nat)
    requires c.Valid() && Inv(c, s) && s.consumer == TailAgain(call, at, tail2) && !Rejects(c, at, tail2, s.seqno)
    requires at.tail == s.tail && call.retries + call.begun <= Begun(s.seqno)
    requires After(c, Abs(s), Read(|call.out|, call.maxLatency))
          == Stream(s.hist, s.pushed, at.from + at.want, s.log + [DeliveryOf(call, at)])
    ensures var s' := s.(consumer := Accepted(call, at), log := s.log + [DeliveryOf(call, at)]);
      Inv(c, s') && Abs(s') == After(c, Abs(s), Read(|call.out|, call.maxLatency))
  {
    var s' := s.(consumer := Accepted(call, at), log := s.log + [DeliveryOf(call, at)]);
    ConsistentAfter(c, Abs(s), Read(|call.out|, call.maxLatency));
    assert Abs(s') == After(c, Abs(s), Read(|call.out|, call.maxLatency));
    assert ProducerInv(c, s');
    assert forall k :: 0 <= k < |s.log| ==> s'.log[k] == s.log[k];
  }

  lemma FinishKeeps(c: Config, s: State, stray: Byte)
    requires c.Valid() && Inv(c, s) && s.consumer.Accepted?
    ensures Inv(c, ConsumeStep(c, s, stray))
    ensures Abs(ConsumeStep(c, s, stray)) == Abs(s)
  {
    var Accepted(call, at) := s.consumer;
    var s' := ConsumeStep(c, s, stray);
    var d := s.log[|s.log| - 1];
    assert GoodDelivery(c, s.hist, d);
    if call.overflow {
      OverflowSkips(c, at.tail, at.was, call.maxLatency);
    }
    assert GoodReply(c, ReplyOf(s, call, at), d);
    forall k | 0 <= k < |s'.replies|
      ensures s'.log[k].from <= s'.log[k].to && GoodReply(c, s'.replies[k], s'.log[k])
    {
      if k < |s.replies| {
        assert s'.replies[k] == s.replies[k];
      }
    }
  }

  /** Loading `head` fixes the window. */
  lemma BeginKeeps(c: Config, call: Call, s0: nat, t: nat, head: nat, tail: nat, seqno: nat, hist: seq<Byte>)
    requires |hist| == tail && s0 % 2 == 0 && s0 <= seqno && head <= t <= tail && (s0 == seqno ==> t == tail)
    requires CallInv(c, call, head, tail, s0)
    ensures AttemptInv(c, call, Begin(c, call, s0, t, head), 0, head, tail, seqno, hist)
  {
    ReadFromBounds(c.Frame(), t, head, call.maxLatency);
    WantBounds(c.Frame(), t, ReadFrom(c.Frame(), t, head, call.maxLatency), |call.out|);
  }

  /** The loads before the window is fixed. */
  lemma LoadKeeps(c: Config, s: State, stray: Byte)
    requires s.consumer.AtPointers? || s.consumer.HeadSampled? || s.consumer.AtLoop? || s.consumer.SeqSeen?
    requires ConsumerInv(c, s.consumer, s.head, s.tail, s.seqno, s.hist, s.log)
    ensures ConsumerInv(c, Move(c, s, stray), s.head, s.tail, s.seqno, s.hist, s.log)
  {
  }

  lemma ReadingMoveKeeps(c: Config, s: State, stray: Byte)
    requires c.Valid() && |s.payload| == c.cap && ProducerInv(c, s) && s.consumer.Reading?
    requires ConsumerInv(c, s.consumer, s.head, s.tail, s.seqno, s.hist, s.log)
    ensures ConsumerInv(c, Move(c, s, stray), s.head, s.tail, s.seqno, s.hist, s.log)
  {
    var Reading(call, at, i) := s.consumer;
    if i < at.want {
      ReadByteKeeps(c, s, call, at, i, stray);
    }
  }

  lemma MoveKeeps(c: Config, s: State, stray: Byte)
    requires c.Valid() && |s.payload| == c.cap && ProducerInv(c, s) && s.tail < U64
    requires ConsumerInv(c, s.consumer, s.head, s.tail, s.seqno, s.hist, s.log)
    requires !s.consumer.Accepted? && !Accepts(c, s)
    ensures ConsumerInv(c, Move(c, s, stray), s.head, s.tail, s.seqno, s.hist, s.log)
  {
    match s.consumer
    case Free =>
    case TailSeen(call, s0, tail) => BeginKeeps(c, call, s0, tail, s.head, s.tail, s.seqno, s.hist);
    case Reading(call, at, i) => ReadingMoveKeeps(c, s, stray);
    case TailAgain(call, at, tail2) => RetryKeeps(c, s, call, at, tail2);
    case _ => LoadKeeps(c, s, stray);
  }

  /** The step that passes the recheck. */
  lemma AcceptRefines(c: Config, s: State, stray: Byte)
    requires c.Valid() && Inv(c, s) && Accepts(c, s)
    ensures Inv(c, ConsumeStep(c, s, stray))
    ensures Abs(ConsumeStep(c, s, stray)) == AfterAll(c, Abs(s), Effect(c, s, Consume(stray)))
  {
    var TailAgain(call, at, tail2) := s.consumer;
    AcceptIsRead(c, s, call, at, tail2);
    AcceptKeeps(c, s, call, at, tail2);
  }

  /** Every step but the one that passes the recheck and the one that replies. */
  lemma MoveRefines(c: Config, s: State, stray: Byte)
    requires c.Valid() && Inv(c, s) && !Accepts(c, s) && !s.consumer.Accepted?
    ensures Inv(c, ConsumeStep(c, s, stray))
    ensures Abs(ConsumeStep(c, s, stray)) == Abs(s)
  {
    var k := Move(c, s, stray);
    assert ConsumeStep(c, s, stray) == s.(consumer := k) && !k.Accepted?;
    assert ConsumerInv(c, k, s.head, s.tail, s.seqno, s.hist, s.log) by {
      MoveKeeps(c, s, stray);
    }
    ConsumerMoves(c, s, k);
  }

  /** One step of the consumer: the invariant is kept and the abstract ring sees the accepted read or nothing. */
  lemma ConsumeRefines(c: Config, s: State, stray: Byte)
    requires c.Valid() && Inv(c, s)
    ensures Inv(c, ConsumeStep(c, s, stray))
    ensures Abs(ConsumeStep(c, s, stray)) == AfterAll(c, Abs(s), Effect(c, s, Consume(stray)))
  {
    if Accepts(c, s) {
      AcceptRefines(c, s, stray);
    } else if s.consumer.Accepted? {
      FinishKeeps(c, s, stray);
    } else {
      MoveRefines(c, s, stray);
    }
  }

  // ---- whole runs ----

  /** Entering a call only changes the caller's own locals. */
  lemma BeginRefines(c: Config, s: State, a: Action)
    requires c.Valid() && Inv(c, s) && !a.Produce? && !a.Consume?
    ensures Inv(c, Next(c, s, a)) && Abs(Next(c, s, a)) == Abs(s)
  {
    match a
    case BeginPush(raw) =>
      assert Abs(Next(c, s, a)) == Abs(s);
    case BeginRead(out, maxLatency) =>
      if s.consumer.Free? {
        ConsumerMoves(c, s, Next(c, s, a).consumer);
      }
    case BeginCallback(slice, latency) => CallbackBegins(c, s, slice, latency);
  }

  lemma CallbackBegins(c: Config, s: State, slice: seq<Byte>, latency: nat)
    requires c.Valid() && Inv(c, s)
    ensures Inv(c, Next(c, s, BeginCallback(slice, latency)))
    ensures Abs(Next(c, s, BeginCallback(slice, latency))) == Abs(s)
  {
    if s.consumer.Free? && c.frameBytes > 0 {
      RoundedBounds(|slice|, c.frameBytes);
      ConsumerMoves(c, s, AtPointers(slice[..Rounded(|slice|, c.frameBytes)], latency));
    }
  }

  /** Every action of either side keeps the invariant and refines the atomic ring. */
  lemma NextRefines(c: Config, s: State, a: Action)
    requires c.Valid() && Inv(c, s)
    ensures Inv(c, Next(c, s, a))
    ensures Abs(Next(c, s, a)) == AfterAll(c, Abs(s), Effect(c, s, a))
  {
    match a
    case Produce => ProduceRefines(c, s);
    case Consume(stray) => ConsumeRefines(c, s, stray);
    case _ => BeginRefines(c, s, a);
  }

  lemma RunAppends(c: Config, es: seq<Event>, f: seq<Event>)
    requires |f| <= 1
    ensures AudioSpec.Run(c, es + f) == AfterAll(c, AudioSpec.Run(c, es), f)
  {
    if |f| == 0 {
      assert es + f == es;
    } else {
      RunSnoc(c, es, f[0]);
      assert [f[0]] == f;
    }
  }

  /**
   Linearizability: every interleaving of the ring's loads and stores behaves like the atomic run
   of its pushes and accepted reads, each taking effect at one step of its own call.
   */
  lemma {:induction false} Linearizes(c: Config, payload: seq<Byte>, acts: seq<Action>)
    requires c.Valid() && |payload| == c.cap
    ensures Inv(c, Run(c, payload, acts))
    ensures Abs(Run(c, payload, acts)) == AudioSpec.Run(c, Effects(c, payload, acts))
  {
    if |acts| == 0 {
      InitInv(c, payload);
    } else {
      var before, a := acts[..|acts| - 1], acts[|acts| - 1];
      Linearizes(c, payload, before);
      LinearizesStep(c, Run(c, payload, before), Effects(c, payload, before), a);
    }
  }

  lemma LinearizesStep(c: Config, s: State, es: seq<Event>, a: Action)
    requires c.Valid() && Inv(c, s) && Abs(s) == AudioSpec.Run(c, es)
    ensures Inv(c, Next(c, s, a)) && Abs(Next(c, s, a)) == AudioSpec.Run(c, es + Effect(c, s, a))
  {
    NextRefines(c, s, a);
    RunAppends(c, es, Effect(c, s, a));
  }

  lemma InitInv(c: Config, payload: seq<Byte>)
    requires c.Valid() && |payload| == c.cap
    ensures Inv(c, Init(payload)) && Abs(Init(payload)) == EMPTY_STREAM
  {
  }
}
