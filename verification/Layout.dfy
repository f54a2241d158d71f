/** How the host splits the mapping: ring capacity, the video region, the slots, and the latency budget in bytes. */
module Layout {
  import opened Wrappers
  import opened Words
  import opened Ring
  import opened AudioSpec
  import opened AudioSteps
  import opened AudioTheorems
  import A = AudioBuffer

  const VIDEO_HEADER: nat := 128
  const AUDIO_REGION_BYTES: nat := 16 * 1024 * 1024
  const VIDEO_MIN_SLOTS: nat := 3

  // ---- the split ----

  /** The capacity choice in `run`; `None` where it reports that the mapping is too small. */
  function RingCapacity(total: nat, video: bool): Option<nat>
    requires total < U64
  {
    if total <= A.SHM_HEADER_SIZE then None
    else if !video then Some(PrevPowerOfTwo(total - A.SHM_HEADER_SIZE))
    else if total <= AUDIO_REGION_BYTES then None
    else Some(PrevPowerOfTwo(AUDIO_REGION_BYTES - A.SHM_HEADER_SIZE))
  }

  /** `video_region`: offset and length of the video sub-region. */
  function VideoRegion(total: nat): Option<(nat, nat)> {
    if total <= AUDIO_REGION_BYTES + VIDEO_HEADER then None
    else Some((AUDIO_REGION_BYTES, total - AUDIO_REGION_BYTES))
  }

  /**
   The chosen capacity always passes the checks of `init` and `attach`, is the largest power of two
   that fits its region, and with video on the audio ring ends before the video region begins.
   */
  lemma CapacityFits(total: nat, video: bool)
    requires total < U64 && RingCapacity(total, video).Some?
    ensures var cap := RingCapacity(total, video).value;
      var room := (if video then AUDIO_REGION_BYTES else total) - A.SHM_HEADER_SIZE;
      && IsPowerOfTwo(cap) && cap <= total - A.SHM_HEADER_SIZE
      && cap <= room && forall m: nat :: IsPowerOfTwo(m) && m <= room ==> m <= cap
    ensures video && VideoRegion(total).Some? ==>
      A.SHM_HEADER_SIZE + RingCapacity(total, video).value <= VideoRegion(total).value.0
  {
    PrevPowerOfTwoIsLargest((if video then AUDIO_REGION_BYTES else total) - A.SHM_HEADER_SIZE);
  }

  /** The host starts exactly when the mapping has room past the header, and past the audio region with video on. */
  lemma StartsIff(total: nat, video: bool)
    requires total < U64
    ensures RingCapacity(total, video).Some? <==> total > if video then 16 * 1024 * 1024 else 192
  {
  }

  /** The video region is there exactly when a header fits behind the audio region, and is all of the rest. */
  lemma VideoRegionIsRest(total: nat)
    ensures VideoRegion(total).Some? <==> total > AUDIO_REGION_BYTES + VIDEO_HEADER
    ensures VideoRegion(total).Some? ==>
      var (offset, length) := VideoRegion(total).value; offset == AUDIO_REGION_BYTES && offset + length == total
  {
  }

  // ---- slots ----

  /** Slots that fit a region, before the conversion to `u32`. */
  function SlotsThatFit(regionLen: nat, frameSize: nat): nat
    requires 0 < frameSize < U32 && regionLen > VIDEO_HEADER
  {
    AlignUp64Rounds(frameSize);
    Quotient(regionLen - VIDEO_HEADER, AlignUp64(frameSize))
  }

  function Quotient(a: nat, d: nat): nat
    requires d > 0
  {
    a / d
  }

  /** The slot count `set_geometry` publishes: converted to `u32`, rejected below the minimum. */
  function PublishedSlots(regionLen: nat, frameSize: nat): Option<nat>
    requires 0 < frameSize < U32 && regionLen > VIDEO_HEADER
  {
    var n := SlotsThatFit(regionLen, frameSize) % U32;
    if n < VIDEO_MIN_SLOTS then None else Some(n)
  }

  /** Offset of slot `k` in the mapping. */
  function SlotOffset(base: nat, frameSize: nat, k: nat): nat
    requires frameSize < U32
  {
    base + VIDEO_HEADER + k * AlignUp64(frameSize)
  }

  lemma DivFits(a: nat, d: nat)
    requires d > 0
    ensures Quotient(a, d) * d <= a < (Quotient(a, d) + 1) * d
  {
    assert a == a / d * d + a % d;
  }

  /** `fit` is the largest count that fits; it is published, or refused, as intended exactly when it is a `u32`. */
  lemma SlotCountIsLargest(regionLen: nat, frameSize: nat)
    requires 0 < frameSize < U32 && regionLen > VIDEO_HEADER
    ensures var fit, stride := SlotsThatFit(regionLen, frameSize), AlignUp64(frameSize);
      && fit * stride <= regionLen - VIDEO_HEADER < (fit + 1) * stride
      && (PublishedSlots(regionLen, frameSize) == (if fit < VIDEO_MIN_SLOTS then None else Some(fit)) <==> fit < U32)
  {
    AlignUp64Rounds(frameSize);
    DivFits(regionLen - VIDEO_HEADER, AlignUp64(frameSize));
    CutIsExact(SlotsThatFit(regionLen, frameSize));
  }

  lemma CutIsExact(n: nat)
    ensures n % U32 == n <==> n < U32
  {
  }

  /** Room for `2^32` slots is refused as too small: the count is cut to 32 bits before the comparison. */
  lemma HugeRegionRefused()
    ensures SlotsThatFit(VIDEO_HEADER + 64 * U32, 1) == U32 && PublishedSlots(VIDEO_HEADER + 64 * U32, 1) == None
  {
    AlignUp64Rounds(1);
    assert AlignUp64(1) == 64;
  }

  lemma MultipleOf64(k: nat, stride: nat)
    requires stride % 64 == 0
    ensures k * stride % 64 == 0
  {
    var q := stride / 64;
    assert stride == q * 64;
    assert k * stride == k * q * 64;
    DivModUnique(k * stride, 64, k * q, 0);
  }

  lemma SlotInside(usable: nat, stride: nat, fit: nat, k: nat)
    requires fit * stride <= usable && k < fit && stride % 64 == 0
    ensures 0 <= k * stride && k * stride + stride <= usable && k * stride % 64 == 0
  {
    MulGap(k, fit, stride);
    MultipleOf64(k, stride);
  }

  lemma SlotInRegion(regionLen: nat, frameSize: nat, k: nat)
    requires 0 < frameSize < U32 && regionLen > VIDEO_HEADER
    requires PublishedSlots(regionLen, frameSize).Some? && k < PublishedSlots(regionLen, frameSize).value
    ensures var stride := AlignUp64(frameSize);
      0 <= k * stride && k * stride + stride <= regionLen - VIDEO_HEADER && k * stride % 64 == 0
  {
    var fit := SlotsThatFit(regionLen, frameSize);
    assert k < fit;
    AlignUp64Rounds(frameSize);
    DivFits(regionLen - VIDEO_HEADER, AlignUp64(frameSize));
    SlotInside(regionLen - VIDEO_HEADER, AlignUp64(frameSize), fit, k);
  }

  /** One slot lies inside the mapping, after the audio region, 64-byte aligned. */
  lemma SlotPlaced(total: nat, frameSize: nat, k: nat)
    requires 0 < frameSize < U32 && VideoRegion(total).Some?
    requires PublishedSlots(VideoRegion(total).value.1, frameSize).Some?
    requires k < PublishedSlots(VideoRegion(total).value.1, frameSize).value
    ensures var base := VideoRegion(total).value.0;
      && AUDIO_REGION_BYTES + VIDEO_HEADER <= SlotOffset(base, frameSize, k)
      && SlotOffset(base, frameSize, k) + frameSize <= total
      && SlotOffset(base, frameSize, k) % 64 == 0
  {
    SlotInRegion(total - AUDIO_REGION_BYTES, frameSize, k);
    AlignUp64Rounds(frameSize);
    ShiftAligned(k * AlignUp64(frameSize));
  }

  lemma ShiftAligned(at: nat)
    requires at % 64 == 0
    ensures (AUDIO_REGION_BYTES + VIDEO_HEADER + at) % 64 == 0
  {
  }

  /**
   Layout disjointness for every mapping size: all published slots lie inside the mapping after the
   audio region, 64-byte aligned and pairwise disjoint.
   */
  lemma SlotsAreDisjoint(total: nat, frameSize: nat, j: nat, k: nat)
    requires 0 < frameSize < U32 && VideoRegion(total).Some?
    requires PublishedSlots(VideoRegion(total).value.1, frameSize).Some?
    requires j < k < PublishedSlots(VideoRegion(total).value.1, frameSize).value
    ensures var base := VideoRegion(total).value.0;
      && AUDIO_REGION_BYTES + VIDEO_HEADER <= SlotOffset(base, frameSize, j)
      && SlotOffset(base, frameSize, j) + frameSize <= SlotOffset(base, frameSize, k)
      && SlotOffset(base, frameSize, k) + frameSize <= total
      && SlotOffset(base, frameSize, j) % 64 == SlotOffset(base, frameSize, k) % 64 == 0
  {
    SlotPlaced(total, frameSize, j);
    SlotPlaced(total, frameSize, k);
    AlignUp64Rounds(frameSize);
    MulGap(j, k, AlignUp64(frameSize));
  }

  /** `n` strides fit exactly when `n` is at most the quotient. */
  lemma FitsIff(n: nat, fit: nat, stride: nat, usable: nat)
    requires fit * stride <= usable < (fit + 1) * stride
    ensures n <= fit <==> n * stride <= usable
  {
    if n < fit {
      MulGap(n, fit, stride);
    } else if n > fit + 1 {
      MulGap(fit + 1, n, stride);
    }
  }

  /**
   The slots use the mapping up. With room for fewer than 2^32 slots between the end of the video header
   and the end of the mapping, they are refused exactly when three do not fit there; otherwise they start
   at the end of the header, end inside the mapping, and one more would pass its end.
   */
  lemma SlotsFillMapping(total: nat, frameSize: nat)
    requires 0 < frameSize < U32 && total > AUDIO_REGION_BYTES + VIDEO_HEADER
    requires total < AUDIO_REGION_BYTES + VIDEO_HEADER + U32 * AlignUp64(frameSize)
    ensures VideoRegion(total).Some?
    ensures var slots := PublishedSlots(VideoRegion(total).value.1, frameSize);
      var start := AUDIO_REGION_BYTES + VIDEO_HEADER;
      && (slots.Some? <==> start + 3 * AlignUp64(frameSize) <= total)
      && (slots.Some? ==>
            && SlotOffset(VideoRegion(total).value.0, frameSize, 0) == start
            && SlotOffset(VideoRegion(total).value.0, frameSize, slots.value) <= total
            && total < SlotOffset(VideoRegion(total).value.0, frameSize, slots.value + 1))
  {
    var usable, stride := total - AUDIO_REGION_BYTES - VIDEO_HEADER, AlignUp64(frameSize);
    var fit := SlotsThatFit(total - AUDIO_REGION_BYTES, frameSize);
    SlotCountIsLargest(total - AUDIO_REGION_BYTES, frameSize);
    FitsIff(U32, fit, stride, usable);
    FitsIff(3, fit, stride, usable);
  }

  // ---- latency ----

  /** `latency_ms * sample_rate * frame_bytes / 1000` in 64-bit arithmetic. */
  function LatencyBytes(ms: nat, rate: nat, frameBytes: nat): nat {
    ms * rate * frameBytes % U64 / 1000
  }

  /** The budget means what it says exactly when the product is a 64-bit word. */
  lemma LatencyBytesExact(ms: nat, rate: nat, frameBytes: nat)
    ensures LatencyBytes(ms, rate, frameBytes) * 1000 <= ms * rate * frameBytes
              < (LatencyBytes(ms, rate, frameBytes) + 1) * 1000
       <==> ms * rate * frameBytes < U64
  {
    CutQuotient(ms * rate * frameBytes);
  }

  lemma CutQuotient(n: nat)
    ensures n % U64 / 1000 * 1000 <= n < (n % U64 / 1000 + 1) * 1000 <==> n < U64
  {
    DivFits(n % U64, 1000);
    if n < U64 {
      DivModUnique(n, U64, 0, n);
    } else {
      assert n % U64 <= n - U64;
    }
  }

  /** The three factors are 32-bit, but their product need not be a 64-bit word: here the budget becomes zero. */
  lemma LatencyCanWrap()
    ensures 0x8000_0000 * 0x8000_0000 * 4 == U64 && LatencyBytes(0x8000_0000, 0x8000_0000, 4) == 0
  {
  }

  /**
   End to end: with whole-frame pushes and the host's budget for `ms` milliseconds, every read of the
   playback callback leaves at most `ms` milliseconds of audio queued, in every interleaving.
   */
  lemma EndToEndLatency(c: Config, payload: seq<Byte>, acts: seq<Action>, k: nat, ms: nat, rate: nat)
    requires c.Valid() && |payload| == c.cap && PushesKeepFrames(c, acts) && ms * rate * c.frameBytes < U64
    requires k < |AudioSteps.Run(c, payload, acts).replies|
    requires AudioSteps.Run(c, payload, acts).replies[k].caller == Callback(LatencyBytes(ms, rate, c.frameBytes))
    ensures var s := AudioSteps.Run(c, payload, acts);
      k < |s.log| && s.log[k].to <= s.log[k].tail && (s.log[k].tail - s.log[k].to) * 1000 <= ms * rate * c.frameBytes
  {
    CallbackLatencyAligned(c, payload, acts, k);
    LatencyBytesExact(ms, rate, c.frameBytes);
  }
}
