/**
 The sequential code of the audio ring: the shared header as an object, a handle onto it, and
 the methods of one side while the other is between operations. Each method is tied to the
 stream of bytes that the header's ghost history records.
 */
module AudioBuffer {
  import opened Wrappers
  import opened Words
  import opened Ring

  const SHM_MAGIC: nat := 0x4C41_4C41_4853_4D31
  const SHM_VERSION: nat := 1
  const SHM_HEADER_SIZE: nat := 192

  datatype SampleFormat = S16Le | S32Le | F32Le

  function FromU32(v: nat): Option<SampleFormat> {
    match v
    case 0 => Some(S16Le)
    case 1 => Some(S32Le)
    case 2 => Some(F32Le)
    case _ => None
  }

  function ToU32(f: SampleFormat): nat {
    match f
    case S16Le => 0
    case S32Le => 1
    case F32Le => 2
  }

  /** The codes are 0, 1 and 2, a format survives its code, and every other code is unknown. */
  lemma FormatCodes(f: SampleFormat, v: nat)
    ensures ToU32(S16Le) == 0 && ToU32(S32Le) == 1 && ToU32(F32Le) == 2
    ensures FromU32(ToU32(f)) == Some(f)
    ensures FromU32(v).Some? ==> ToU32(FromU32(v).value) == v
    ensures FromU32(v) == None <==> v > 2
  {
  }

  datatype AudioFormat = AudioFormat(sampleRate: nat, channels: nat, format: SampleFormat, frameBytes: nat)

  datatype AttachError = RegionTooSmall | BadMagic | VersionMismatch | HeaderSizeMismatch | BadCapacity

  // ---- the volatile copies ----

  /** `volatile_copy_to`. */
  method VolatileCopyTo(payload: array<Byte>, off: nat, src: seq<Byte>)
    requires off + |src| <= payload.Length
    modifies payload
    ensures forall j :: 0 <= j < payload.Length ==>
      payload[j] == if off <= j < off + |src| then src[j - off] else old(payload[j])
  {
    for i := 0 to |src|
      invariant forall j :: 0 <= j < payload.Length ==>
        payload[j] == if off <= j < off + i then src[j - off] else old(payload[j])
    {
      payload[off + i] := src[i];
    }
  }

  /** `volatile_copy_from` into `out[at..at + n]`. */
  method VolatileCopyFrom(payload: array<Byte>, off: nat, out: array<Byte>, at: nat, n: nat)
    requires payload != out && off + n <= payload.Length && at + n <= out.Length
    modifies out
    ensures forall j :: 0 <= j < out.Length ==>
      out[j] == if at <= j < at + n then payload[off + (j - at)] else old(out[j])
  {
    for i := 0 to n
      invariant forall j :: 0 <= j < out.Length ==>
        out[j] == if at <= j < at + i then payload[off + (j - at)] else old(out[j])
    {
      out[at + i] := payload[off + i];
    }
  }

  // ---- a push as a whole ----

  /** How far ring index `j` lies after `start`, going round the ring. */
  function Offset(cap: nat, start: nat, j: nat): nat
    requires start < cap && j < cap
  {
    if j >= start then j - start else j + cap - start
  }

  /** The ring after `src` was written from position `pos`: the next `|src|` bytes round the ring, and no others. */
  ghost predicate Overwritten(before: seq<Byte>, after: seq<Byte>, pos: nat, src: seq<Byte>) {
    && |before| == |after| > 0 && |src| <= |before|
    && forall j :: 0 <= j < |after| ==>
         var e := Offset(|after|, pos % |after|, j);
         after[j] == if e < |src| then src[e] else before[j]
  }

  lemma OffsetOfMod(cap: nat, pos: nat, e: nat)
    requires cap > 0 && e < cap
    ensures Offset(cap, pos % cap, (pos + e) % cap) == e
  {
    CopyIndexIsMod(cap, pos, cap, e);
  }

  lemma OffsetOfOlder(cap: nat, pos: nat, k: nat)
    requires cap > 0 && k < pos <= k + cap
    ensures Offset(cap, pos % cap, k % cap) == k + cap - pos
  {
    OffsetOfMod(cap, pos, k + cap - pos);
    DivModUnique(k + cap, cap, k / cap + 1, k % cap);
  }

  /** An overwrite that starts where the stream ends extends the held stream. */
  lemma OverwriteExtends(before: seq<Byte>, after: seq<Byte>, h: seq<Byte>, src: seq<Byte>)
    requires Holds(before, h) && Overwritten(before, after, |h|, src)
    ensures Holds(after, h + src)
  {
    var cap, pos := |after|, |h|;
    forall k | 0 <= k < |h + src| && |h + src| - cap <= k
      ensures after[k % cap] == (h + src)[k]
    {
      if k >= pos {
        OffsetOfMod(cap, pos, k - pos);
      } else {
        OffsetOfOlder(cap, pos, k);
      }
    }
  }

  /** The wrapping copy of a push. */
  method CopyIntoRing(payload: array<Byte>, cap: nat, start: nat, src: seq<Byte>, ghost pos: nat)
    requires 0 < cap <= payload.Length && start == pos % cap && |src| <= cap
    modifies payload
    ensures Overwritten(old(payload[..cap]), payload[..cap], pos, src)
    ensures payload[cap..] == old(payload[cap..])
  {
    var n := |src|;
    if start + n <= cap {
      VolatileCopyTo(payload, start, src);
    } else {
      var first := cap - start;
      VolatileCopyTo(payload, start, src[..first]);
      VolatileCopyTo(payload, 0, src[first..]);
    }
  }

  /** The wrapping copy of a read. */
  method CopyOutOfRing(payload: array<Byte>, cap: nat, start: nat, out: array<Byte>, n: nat)
    requires 0 < cap <= payload.Length && start < cap && start + n <= 2 * cap && n <= out.Length && out != payload
    modifies out
    ensures forall i: nat :: i < n ==>
      CopyIndex(cap, start, n, i) < cap && out[i] == payload[CopyIndex(cap, start, n, i)]
    ensures out[n..] == old(out[n..])
  {
    if start + n <= cap {
      VolatileCopyFrom(payload, start, out, 0, n);
    } else {
      var first := cap - start;
      VolatileCopyFrom(payload, start, out, 0, first);
      VolatileCopyFrom(payload, 0, out, first, n - first);
    }
  }

  /** Zero `out[from..to]`. */
  method Silence(out: array<Byte>, from: nat, to: nat)
    requires from <= to <= out.Length
    modifies out
    ensures forall j :: 0 <= j < out.Length ==> out[j] == if from <= j < to then 0 else old(out[j])
  {
    for i := from to to
      invariant forall j :: 0 <= j < out.Length ==> out[j] == if from <= j < i then 0 else old(out[j])
    {
      out[i] := 0;
    }
  }

  // ---- the ring between operations ----

  /** Counters, stream and payload agree, and no push is in progress. */
  ghost predicate RingOk(cap: nat, ring: seq<Byte>, tail: nat, seqno: nat, head: nat,
                         hist: seq<Byte>, pushed: seq<Byte>) {
    && IsPowerOfTwo(cap) && cap < U64 && |ring| == cap
    && head <= tail == |hist| < U64
    && seqno < U64 && seqno % 2 == 0
    && Holds(ring, hist)
    && Newest(cap, hist) == Newest(cap, pushed)
  }

  lemma PushKeepsRing(cap: nat, ring: seq<Byte>, tail: nat, seqno: nat, head: nat, hist: seq<Byte>, pushed: seq<Byte>,
                      raw: seq<Byte>, ring': seq<Byte>)
    requires RingOk(cap, ring, tail, seqno, head, hist, pushed)
    requires tail + |Newest(cap, raw)| < U64 && seqno + 2 < U64
    requires Overwritten(ring, ring', tail, Newest(cap, raw))
    ensures WrappingAdd(tail, |Newest(cap, raw)|) == tail + |Newest(cap, raw)| && WrappingAdd(seqno, 2) == seqno + 2
    ensures RingOk(cap, ring', tail + |Newest(cap, raw)|, seqno + 2, head, hist + Newest(cap, raw), pushed + raw)
  {
    NewestOfAppend(cap, hist, pushed, raw);
    OverwriteExtends(ring, ring', hist, Newest(cap, raw));
  }

  /** What the two-part copy found is the window of the stream. */
  lemma CopiedIsStream(ring: seq<Byte>, hist: seq<Byte>, from: nat, want: nat, copied: seq<Byte>, start: nat)
    requires Holds(ring, hist) && from + want <= |hist| && |hist| - from <= |ring|
    requires |copied| == want && start == from % |ring|
    requires forall i: nat :: i < want ==>
      CopyIndex(|ring|, start, want, i) < |ring| && copied[i] == ring[CopyIndex(|ring|, start, want, i)]
    ensures copied == hist[from..from + want]
  {
    forall i | 0 <= i < want
      ensures copied[i] == hist[from + i]
    {
      CopyIndexIsMod(|ring|, from, want, i);
    }
  }

  /** What one read promises: the clamped window of the stream, silence after it, `head` past it. */
  ghost predicate ReadOk(frame: nat, hist: seq<Byte>, was: nat, maxLatency: nat,
                         n: nat, live: nat, head: nat, got: seq<Byte>)
    requires frame > 0
  {
    var from := ReadFrom(frame, |hist|, was, maxLatency);
    && live == Want(frame, |hist|, from, n) <= n
    && head == from + live <= |hist|
    && got == hist[from..head] + seq(n - live, i => 0 as Byte)
  }

  /** Such a read in frames: it jumps to the whole frames of its budget and delivers all whole frames it can. */
  lemma ReadOkFrames(frameBytes: nat, hist: seq<Byte>, was: nat, maxLatency: nat,
                     n: nat, live: nat, head: nat, got: seq<Byte>)
    requires was <= |hist| && ReadOk(Max(frameBytes, 1), hist, was, maxLatency, n, live, head, got)
    ensures was <= head - live && MostFrames(frameBytes, Min(n, |hist| - (head - live)), live)
    ensures exists keep: nat ::
      MostFrames(frameBytes, maxLatency, keep) && |hist| - (head - live) == Min(|hist| - was, keep)
  {
    ReadFromBounds(Max(frameBytes, 1), |hist|, was, maxLatency);
    WantIsMost(frameBytes, |hist|, head - live, n);
    RoundedIsMost(frameBytes, maxLatency);
  }

  lemma SilencedIsOk(frame: nat, hist: seq<Byte>, was: nat, maxLatency: nat,
                     n: nat, want: nat, copied: seq<Byte>, got: seq<Byte>)
    requires frame > 0 && want <= n == |got|
    requires var from := ReadFrom(frame, |hist|, was, maxLatency);
      want == Want(frame, |hist|, from, n) && from + want <= |hist| && copied == hist[from..from + want]
    requires got[..want] == copied && forall j :: want <= j < n ==> got[j] == 0
    ensures ReadOk(frame, hist, was, maxLatency, n, want, ReadFrom(frame, |hist|, was, maxLatency) + want, got)
  {
    assert got == got[..want] + seq(n - want, i => 0 as Byte);
  }

  lemma WindowOfRead(frame: nat, tail: nat, was: nat, maxLatency: nat, n: nat)
    requires frame > 0 && was <= tail
    ensures var from := ReadFrom(frame, tail, was, maxLatency);
      && was <= from && tail - from == Min(tail - was, Rounded(maxLatency, frame))
      && Want(frame, tail, from, n) <= n && from + Want(frame, tail, from, n) <= tail
  {
    var from := ReadFrom(frame, tail, was, maxLatency);
    ReadFromBounds(frame, tail, was, maxLatency);
    WantBounds(frame, tail, from, n);
  }

  /** The window arithmetic of one iteration. */
  method Window(frame: nat, tail: nat, headLoaded: nat, maxLatency: nat, n: nat) returns (head: nat, want: nat)
    requires frame > 0 && headLoaded <= tail
    ensures head == ReadFrom(frame, tail, headLoaded, maxLatency) && want == Want(frame, tail, head, n)
    ensures headLoaded <= head && tail - head == Min(tail - headLoaded, Rounded(maxLatency, frame))
    ensures want <= n && head + want <= tail
  {
    var quantum := Rounded(n, frame);
    head := Min(headLoaded, tail);
    var avail := tail - head;
    var budget := Rounded(maxLatency, frame);
    if avail > budget {
      head := tail - budget;
    }
    want := Rounded(Min(quantum, tail - head), frame);
    WindowOfRead(frame, tail, headLoaded, maxLatency, n);
  }

  // ---- shared memory ----

  /** The header cells, and the history of the stream they describe. */
  class ShmHeader {
    var magic: nat
    var version: nat
    var headerSize: nat
    var capacity: nat
    var sampleRate: nat
    var channels: nat
    var format: nat
    var frameBytes: nat
    var tail: nat
    var seqno: nat
    var head: nat
    ghost var hist: seq<Byte>
    ghost var pushed: seq<Byte>
  }

  /** One side's handle; both sides' handles share the header and the payload. */
  class ShmAudioBuffer {
    const hdr: ShmHeader
    const payload: array<Byte>
    const cap: nat

    /** The ring part of the payload. */
    ghost function RingBytes(): seq<Byte>
      reads this, payload
      requires cap <= payload.Length
    {
      payload[..cap]
    }

    ghost predicate Valid()
      reads this, hdr, payload
    {
      cap <= payload.Length && RingOk(cap, RingBytes(), hdr.tail, hdr.seqno, hdr.head, hdr.hist, hdr.pushed)
    }

    function Frame(): (f: nat)
      reads hdr
      ensures f > 0
    {
      Max(hdr.frameBytes, 1)
    }

    /** `init`: the three panicking checks are the caller's obligations. */
    constructor Init(hdr: ShmHeader, payload: array<Byte>, totalSize: nat, cap: nat)
      requires SHM_HEADER_SIZE < totalSize < U64 && payload.Length == totalSize - SHM_HEADER_SIZE
      requires IsPowerOfTwo(cap) && cap <= totalSize - SHM_HEADER_SIZE
      modifies hdr
      ensures Valid() && this.hdr == hdr && this.payload == payload && this.cap == cap
      ensures hdr.magic == SHM_MAGIC && hdr.version == SHM_VERSION
      ensures hdr.headerSize == SHM_HEADER_SIZE && hdr.capacity == cap
      ensures hdr.sampleRate == hdr.channels == hdr.format == hdr.frameBytes == 0
      ensures hdr.hist == [] && hdr.pushed == [] && hdr.tail == hdr.seqno == hdr.head == 0
    {
      this.hdr := hdr;
      this.payload := payload;
      this.cap := cap;
      new;
      hdr.headerSize := SHM_HEADER_SIZE;
      hdr.capacity := cap;
      hdr.sampleRate := 0;
      hdr.channels := 0;
      hdr.format := 0;
      hdr.frameBytes := 0;
      hdr.head := 0;
      hdr.tail := 0;
      hdr.seqno := 0;
      hdr.version := SHM_VERSION;
      hdr.magic := SHM_MAGIC;
      hdr.hist := [];
      hdr.pushed := [];
    }

    constructor Handle(hdr: ShmHeader, payload: array<Byte>, cap: nat)
      ensures this.hdr == hdr && this.payload == payload && this.cap == cap
    {
      this.hdr := hdr;
      this.payload := payload;
      this.cap := cap;
    }

    /** `attach`: every check, in order. */
    static method Attach(hdr: ShmHeader, payload: array<Byte>, totalSize: nat)
        returns (r: Result<ShmAudioBuffer, AttachError>)
      ensures r.Ok? <==> (
        && totalSize > SHM_HEADER_SIZE && hdr.magic == SHM_MAGIC && hdr.version == SHM_VERSION
        && hdr.headerSize == SHM_HEADER_SIZE
        && IsPowerOfTwo(hdr.capacity) && hdr.capacity <= totalSize - SHM_HEADER_SIZE)
      ensures r.Ok? ==> fresh(r.value) && r.value.hdr == hdr && r.value.payload == payload
      ensures r.Ok? ==> r.value.cap == hdr.capacity
      ensures r == Err(RegionTooSmall) <==> totalSize <= SHM_HEADER_SIZE
      ensures r == Err(BadMagic) <==> totalSize > SHM_HEADER_SIZE && hdr.magic != SHM_MAGIC
      ensures r == Err(VersionMismatch) <==> (
        totalSize > SHM_HEADER_SIZE && hdr.magic == SHM_MAGIC && hdr.version != SHM_VERSION)
      ensures r == Err(HeaderSizeMismatch) <==> (
        && totalSize > SHM_HEADER_SIZE && hdr.magic == SHM_MAGIC
        && hdr.version == SHM_VERSION && hdr.headerSize != SHM_HEADER_SIZE)
    {
      if totalSize <= SHM_HEADER_SIZE {
        return Err(RegionTooSmall);
      }
      if hdr.magic != SHM_MAGIC {
        return Err(BadMagic);
      }
      if hdr.version != SHM_VERSION {
        return Err(VersionMismatch);
      }
      if hdr.headerSize != SHM_HEADER_SIZE {
        return Err(HeaderSizeMismatch);
      }
      var cap := hdr.capacity;
      if cap == 0 || !IsPowerOfTwo(cap) || cap > totalSize - SHM_HEADER_SIZE {
        return Err(BadCapacity);
      }
      var b := new ShmAudioBuffer.Handle(hdr, payload, cap);
      r := Ok(b);
    }

    method SetFormat(fmt: AudioFormat)
      modifies hdr`sampleRate, hdr`channels, hdr`format, hdr`frameBytes
      ensures hdr.frameBytes == fmt.frameBytes && hdr.sampleRate == fmt.sampleRate
      ensures hdr.channels == fmt.channels
      ensures hdr.format == match fmt.format { case S16Le => 0 case S32Le => 1 case F32Le => 2 }
      ensures old(Valid()) ==> Valid()
    {
      hdr.sampleRate := fmt.sampleRate;
      hdr.channels := fmt.channels;
      hdr.format := ToU32(fmt.format);
      hdr.frameBytes := fmt.frameBytes;
    }

    /** `format`: the published format, `None` while the gate is 0 or the sample format is unknown. */
    method Format() returns (r: Option<AudioFormat>)
      ensures r.Some? <==> hdr.frameBytes != 0 && hdr.format <= 2
      ensures r.Some? ==> hdr.format == match r.value.format { case S16Le => 0 case S32Le => 1 case F32Le => 2 }
      ensures r.Some? ==> r.value.frameBytes == hdr.frameBytes
      ensures r.Some? ==> r.value.sampleRate == hdr.sampleRate && r.value.channels == hdr.channels
    {
      var frameBytes := hdr.frameBytes;
      if frameBytes == 0 {
        return None;
      }
      match FromU32(hdr.format)
      case None =>
        r := None;
      case Some(format) =>
        r := Some(AudioFormat(hdr.sampleRate, hdr.channels, format, frameBytes));
    }

    /**
     `push_overwrite`: the stream grows by the newest `cap` bytes of `src`, written round the ring
     from `tail`; nothing else in the mapping changes.
     */
    method PushOverwrite(src: seq<Byte>)
      requires Valid() && hdr.tail + |Newest(cap, src)| < U64 && hdr.seqno + 2 < U64
      modifies payload, hdr`tail, hdr`seqno, hdr`hist, hdr`pushed
      ensures Valid()
      ensures hdr.hist == old(hdr.hist) + Newest(cap, src) && hdr.pushed == old(hdr.pushed) + src
      ensures hdr.tail == |hdr.hist| && hdr.seqno == old(hdr.seqno) + if |src| == 0 then 0 else 2
      ensures Overwritten(old(RingBytes()), RingBytes(), old(hdr.tail), Newest(cap, src))
      ensures payload[cap..] == old(payload[cap..])
    {
      ghost var before, raw := RingBytes(), src;
      var src := Newest(cap, src);
      var n := |src|;
      if n == 0 {
        NewestOfAppend(cap, hdr.hist, hdr.pushed, raw);
        hdr.hist, hdr.pushed := hdr.hist + src, hdr.pushed + raw;
        assert hdr.hist == old(hdr.hist);
        return;
      }
      var tail := hdr.tail;
      var s := hdr.seqno;
      hdr.seqno := WrappingAdd(s, 1);
      var start := Mask(cap, tail);
      MaskIsMod(cap, tail);
      CopyIntoRing(payload, cap, start, src, tail);
      PushKeepsRing(cap, before, tail, s, hdr.head, hdr.hist, hdr.pushed, raw, RingBytes());
      hdr.tail := WrappingAdd(tail, n);
      hdr.hist, hdr.pushed := hdr.hist + src, hdr.pushed + raw;
      hdr.seqno := WrappingAdd(s, 2);
    }

    /** The backlog a read would keep: `min(tail - head, floor(budget / frame) * frame)`. */
    function Backlog(maxLatency: nat): nat
      reads hdr
    {
      Min(SaturatingSub(hdr.tail, hdr.head), Rounded(maxLatency, Frame()))
    }

    /** The copy of the next iteration stays inside the ring. */
    predicate CopyFits(n: nat, maxLatency: nat)
      reads hdr
      requires cap > 0
    {
      var from := ReadFrom(Frame(), hdr.tail, hdr.head, maxLatency);
      from % cap + Want(Frame(), hdr.tail, from, n) <= 2 * cap
    }

    /** It does if the backlog kept fits the ring, or the buffer does, or the rounded budget does. */
    lemma FittingCopies(n: nat, maxLatency: nat)
      requires cap > 0 && hdr.head <= hdr.tail
      requires Backlog(maxLatency) <= cap || n <= cap || Rounded(maxLatency, Frame()) <= cap
      ensures CopyFits(n, maxLatency)
    {
      WindowOfRead(Frame(), hdr.tail, hdr.head, maxLatency, n);
    }

    /** The copy of one iteration: exact if the window is still in the ring. */
    method CopyWindow(out: array<Byte>, head: nat, want: nat)
      requires Valid() && head + want <= hdr.tail && head % cap + want <= 2 * cap
      requires want <= out.Length && out != payload
      modifies out
      ensures hdr.tail - head <= cap ==> out[..want] == hdr.hist[head..head + want]
      ensures out[want..] == old(out[want..])
    {
      var start := Mask(cap, head);
      MaskIsMod(cap, head);
      CopyOutOfRing(payload, cap, start, out, want);
      if hdr.tail - head <= cap {
        CopiedIsStream(RingBytes(), hdr.hist, head, want, out[..want], start);
      }
    }

    /** The end of an accepted iteration: store `head`, silence the remainder. */
    method Commit(out: array<Byte>, n: nat, head: nat, want: nat, maxLatency: nat)
      requires Valid() && want <= n <= out.Length && out != payload
      requires head == ReadFrom(Frame(), hdr.tail, hdr.head, maxLatency) && want == Want(Frame(), hdr.tail, head, n)
      requires head + want <= hdr.tail && out[..want] == hdr.hist[head..head + want]
      modifies out, hdr`head
      ensures Valid() && out[n..] == old(out[n..])
      ensures ReadOk(Frame(), hdr.hist, old(hdr.head), maxLatency, n, want, hdr.head, out[..n])
    {
      ghost var was, copied := hdr.head, out[..want];
      hdr.head := head + want;
      Silence(out, want, n);
      SilencedIsOk(Frame(), hdr.hist, was, maxLatency, n, want, copied, out[..n]);
    }

    /**
     One iteration of the `read_quantum` loop into `out[..n]`, provided its copy stays inside the
     ring. It is accepted exactly when the backlog it keeps fits the ring; a rejected iteration
     changes nothing but the buffer.
     */
    method ReadAttempt(out: array<Byte>, n: nat, maxLatency: nat) returns (accepted: bool, live: nat)
      requires Valid() && n <= out.Length && out != payload && CopyFits(n, maxLatency)
      modifies out, hdr`head
      ensures accepted <==> old(Backlog(maxLatency)) <= cap
      ensures !accepted ==> hdr.head == old(hdr.head)
      ensures accepted ==> ReadOk(Frame(), hdr.hist, old(hdr.head), maxLatency, n, live, hdr.head, out[..n])
      ensures out[n..] == old(out[n..])
      ensures Valid()
    {
      var frame := Max(hdr.frameBytes, 1);
      var s0 := hdr.seqno;
      var tail := hdr.tail;
      var head, want := Window(frame, tail, hdr.head, maxLatency, n);
      CopyWindow(out, head, want);
      var tail2 := hdr.tail;
      var s1 := hdr.seqno;
      accepted := !(s1 != s0 || WrappingSub(tail2, head) > cap);
      live := want;
      assert accepted <==> tail - head <= cap;
      if accepted {
        Commit(out, n, head, want, maxLatency);
      }
    }

    /**
     `read_quantum` into `out[..n]` while the producer is between pushes: whole frames of the
     stream from the clamped position, then silence; `head` moves past exactly what was delivered.
     The backlog kept must fit the ring, or the loop of the source never ends.
     */
    method ReadQuantum(out: array<Byte>, n: nat, maxLatency: nat) returns (live: nat)
      requires Valid() && n <= out.Length && out != payload
      requires Backlog(maxLatency) <= cap
      modifies out, hdr`head
      ensures Valid()
      ensures ReadOk(Frame(), hdr.hist, old(hdr.head), maxLatency, n, live, hdr.head, out[..n])
      ensures old(hdr.head) <= hdr.head - live
      ensures MostFrames(hdr.frameBytes, Min(n, hdr.tail - (hdr.head - live)), live)
      ensures exists keep: nat ::
        && MostFrames(hdr.frameBytes, maxLatency, keep)
        && hdr.tail - (hdr.head - live) == Min(hdr.tail - old(hdr.head), keep)
      ensures out[n..] == old(out[n..])
    {
      var done := false;
      live := 0;
      FittingCopies(n, maxLatency);
      while !done
        invariant Valid() && out[n..] == old(out[n..])
        invariant !done ==> hdr.head == old(hdr.head) && CopyFits(n, maxLatency)
        invariant done ==> ReadOk(Frame(), hdr.hist, old(hdr.head), maxLatency, n, live, hdr.head, out[..n])
        decreases !done
      {
        done, live := ReadAttempt(out, n, maxLatency);
      }
      ReadOkFrames(hdr.frameBytes, hdr.hist, old(hdr.head), maxLatency, n, live, hdr.head, out[..n]);
    }
  }
}
