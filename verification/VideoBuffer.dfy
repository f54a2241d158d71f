/** The sequential code of the video ring: the shared header, a handle with its cached geometry, and its methods. */
module VideoBuffer {
  import opened Wrappers
  import opened Words
  import opened VideoCopy
  import V = VideoSteps
  import L = Layout

  const VIDEO_MAGIC: nat := 0x4C41_4C41_5648_4431
  const VIDEO_VERSION: nat := 1

  datatype VideoFormat = VideoFormat(width: nat, height: nat, stride: nat, fourcc: nat, frameSize: nat)

  datatype VideoError = RegionTooSmall | BadMagic | VersionMismatch | HeaderSizeMismatch | ZeroFrameSize | TooFewSlots

  /** The header cells, and the frames published so far. */
  class ShmVideoHeader {
    var magic: nat
    var version: nat
    var headerSize: nat
    var width: nat
    var height: nat
    var stride: nat
    var fourcc: nat
    var frameSize: nat
    var slotCount: nat
    var frameSeq: nat
    ghost var frames: seq<seq<Byte>>
  }

  /** The newest `slots` frames are in their slots. */
  ghost predicate SlotsHold(c: V.Config, mem: seq<Byte>, frames: seq<seq<Byte>>) {
    && (forall f :: 0 <= f < |frames| ==> |frames[f]| == c.frameSize)
    && (forall f :: 0 <= f < |frames| && |frames| - c.slots <= f ==> V.SlotHolds(c, mem, f, frames[f]))
  }

  /** No byte outside `[at, at + n)` differs. */
  ghost predicate OnlyChanged(before: seq<Byte>, after: seq<Byte>, at: nat, n: nat) {
    |after| == |before| && forall j :: 0 <= j < |before| && !(at <= j < at + n) ==> after[j] == before[j]
  }

  /** Storing a whole frame in the next slot keeps the newest frames in theirs. */
  lemma PushKeepsSlots(c: V.Config, before: seq<Byte>, after: seq<Byte>, frames: seq<seq<Byte>>, frame: seq<Byte>)
    requires V.Fits(c, before) && SlotsHold(c, before, frames) && |frame| == c.frameSize
    requires V.SlotHolds(c, after, |frames|, frame)
    requires OnlyChanged(before, after, V.Slot(c, |frames|), c.frameSize)
    ensures SlotsHold(c, after, frames + [frame])
  {
    var q := |frames|;
    forall f | 0 <= f < q && q + 1 - c.slots <= f
      ensures V.SlotHolds(c, after, f, frames[f])
    {
      assert V.SlotHolds(c, before, f, frames[f]);
      V.SlotsApart(c, f, q);
      V.SlotInBounds(c, f, |before|);
    }
  }

  class ShmVideoBuffer {
    const hdr: ShmVideoHeader
    const payload: array<Byte>
    const regionLen: nat
    var frameSize: nat
    var slotStride: nat
    var slotCount: nat

    function Geometry(): V.Config
      reads this
    {
      V.Config(slotCount, frameSize, slotStride)
    }

    /** The handle has no geometry yet, or the published one with the frames in their slots. */
    ghost predicate Valid()
      reads this, hdr, payload
    {
      && L.VIDEO_HEADER < regionLen && payload.Length == regionLen - L.VIDEO_HEADER
      && (frameSize != 0 ==>
            && V.Fits(Geometry(), payload[..]) && slotCount >= L.VIDEO_MIN_SLOTS
            && hdr.frameSize == frameSize && hdr.slotCount == slotCount
            && hdr.frameSeq == |hdr.frames| < U64
            && SlotsHold(Geometry(), payload[..], hdr.frames))
    }

    /** `init`: geometry unset. */
    constructor Init(hdr: ShmVideoHeader, payload: array<Byte>, regionLen: nat)
      requires L.VIDEO_HEADER < regionLen && payload.Length == regionLen - L.VIDEO_HEADER
      modifies hdr
      ensures Valid() && this.hdr == hdr && this.payload == payload && this.regionLen == regionLen
      ensures frameSize == slotStride == slotCount == 0
      ensures hdr.magic == VIDEO_MAGIC && hdr.version == VIDEO_VERSION && hdr.headerSize == L.VIDEO_HEADER
      ensures hdr.frameSize == hdr.slotCount == hdr.frameSeq == 0 && hdr.frames == []
    {
      this.hdr := hdr;
      this.payload := payload;
      this.regionLen := regionLen;
      frameSize, slotStride, slotCount := 0, 0, 0;
      new;
      hdr.headerSize := L.VIDEO_HEADER;
      hdr.width := 0;
      hdr.height := 0;
      hdr.stride := 0;
      hdr.fourcc := 0;
      hdr.slotCount := 0;
      hdr.frameSeq := 0;
      hdr.frameSize := 0;
      hdr.version := VIDEO_VERSION;
      hdr.magic := VIDEO_MAGIC;
      hdr.frames := [];
    }

    constructor Handle(hdr: ShmVideoHeader, payload: array<Byte>, regionLen: nat)
      ensures this.hdr == hdr && this.payload == payload && this.regionLen == regionLen
      ensures frameSize == slotStride == slotCount == 0
    {
      this.hdr := hdr;
      this.payload := payload;
      this.regionLen := regionLen;
      frameSize, slotStride, slotCount := 0, 0, 0;
    }

    /** `attach`: every check, in order; the geometry is cached if it is already published. */
    static method Attach(hdr: ShmVideoHeader, payload: array<Byte>, regionLen: nat)
        returns (r: Result<ShmVideoBuffer, VideoError>)
      requires hdr.frameSize < U32
      ensures r == Err(RegionTooSmall) <==> regionLen <= L.VIDEO_HEADER
      ensures r == Err(BadMagic) <==> regionLen > L.VIDEO_HEADER && hdr.magic != VIDEO_MAGIC
      ensures r == Err(VersionMismatch) <==> (
        regionLen > L.VIDEO_HEADER && hdr.magic == VIDEO_MAGIC && hdr.version != VIDEO_VERSION)
      ensures r.Ok? <==> (
        && regionLen > L.VIDEO_HEADER && hdr.magic == VIDEO_MAGIC
        && hdr.version == VIDEO_VERSION && hdr.headerSize == L.VIDEO_HEADER)
      ensures r.Err? ==> r.error in {RegionTooSmall, BadMagic, VersionMismatch, HeaderSizeMismatch}
      ensures r.Ok? ==> fresh(r.value) && r.value.hdr == hdr && r.value.payload == payload
      ensures r.Ok? ==> r.value.regionLen == regionLen
      ensures r.Ok? && hdr.frameSize == 0 ==> r.value.Geometry() == V.Config(0, 0, 0)
      ensures r.Ok? && hdr.frameSize != 0 ==>
        r.value.Geometry() == V.Config(hdr.slotCount, hdr.frameSize, AlignUp64(hdr.frameSize))
    {
      if regionLen <= L.VIDEO_HEADER {
        return Err(RegionTooSmall);
      }
      if hdr.magic != VIDEO_MAGIC {
        return Err(BadMagic);
      }
      if hdr.version != VIDEO_VERSION {
        return Err(VersionMismatch);
      }
      if hdr.headerSize != L.VIDEO_HEADER {
        return Err(HeaderSizeMismatch);
      }
      var me := new ShmVideoBuffer.Handle(hdr, payload, regionLen);
      var published := me.RefreshGeometry();
      r := Ok(me);
    }

    /**
     `set_geometry`: publishes the slot count for the region, or refuses a zero frame size or fewer
     than three slots and then changes nothing.
     */
    method SetGeometry(vf: VideoFormat) returns (r: Result<nat, VideoError>)
      requires Valid() && vf.frameSize < U32 && regionLen < U64
      modifies this, hdr
      ensures r == Err(ZeroFrameSize) <==> vf.frameSize == 0
      ensures r == Err(TooFewSlots) <==> vf.frameSize > 0 && L.PublishedSlots(regionLen, vf.frameSize).None?
      ensures r.Ok? || r.error == ZeroFrameSize || r.error == TooFewSlots
      ensures r.Err? ==> Geometry() == old(Geometry()) && unchanged(hdr)
      ensures r.Ok? ==> L.PublishedSlots(regionLen, vf.frameSize) == Some(r.value)
      ensures r.Ok? ==> Geometry() == V.Config(r.value, vf.frameSize, AlignUp64(vf.frameSize))
      ensures r.Ok? ==> hdr.frameSeq == 0 && hdr.frames == [] && hdr.slotCount == r.value
      ensures r.Ok? ==> vf == VideoFormat(hdr.width, hdr.height, hdr.stride, hdr.fourcc, hdr.frameSize)
      ensures Valid()
    {
      if vf.frameSize == 0 {
        return Err(ZeroFrameSize);
      }
      var stride, count := CountSlots(regionLen, vf.frameSize);
      if count < L.VIDEO_MIN_SLOTS {
        return Err(TooFewSlots);
      }
      frameSize, slotStride, slotCount := vf.frameSize, stride, count;
      hdr.width := vf.width;
      hdr.height := vf.height;
      hdr.stride := vf.stride;
      hdr.fourcc := vf.fourcc;
      hdr.slotCount := count;
      hdr.frameSeq := 0;
      hdr.frames := [];
      hdr.frameSize := vf.frameSize;
      r := Ok(count);
    }

    /** The slot stride, and how many slots fit the region, cut to 32 bits. */
    static method CountSlots(regionLen: nat, frameSize: nat) returns (stride: nat, count: nat)
      requires 0 < frameSize < U32 && regionLen > L.VIDEO_HEADER
      ensures stride == AlignUp64(frameSize) && count < U32 && count * stride <= regionLen - L.VIDEO_HEADER
      ensures L.PublishedSlots(regionLen, frameSize) == if count < L.VIDEO_MIN_SLOTS then None else Some(count)
    {
      AlignUp64Rounds(frameSize);
      stride := AlignUp64(frameSize);
      var usable := regionLen - L.VIDEO_HEADER;
      var fit := L.Quotient(usable, stride);
      count := fit % U32;
      CountFits(usable, stride, fit, count);
    }

    static lemma CountFits(usable: nat, stride: nat, fit: nat, count: nat)
      requires stride > 0 && fit == L.Quotient(usable, stride) && count <= fit
      ensures count * stride <= usable
    {
      L.DivFits(usable, stride);
      if count < fit {
        MulGap(count, fit, stride);
      }
    }

    /** `refresh_geometry`: the published geometry into the cache, or nothing while the gate is 0. */
    method RefreshGeometry() returns (r: Option<VideoFormat>)
      requires hdr.frameSize < U32
      modifies this
      ensures hdr.frameSize == 0 ==> r == None && Geometry() == old(Geometry())
      ensures hdr.frameSize != 0 ==>
        && r == Some(VideoFormat(hdr.width, hdr.height, hdr.stride, hdr.fourcc, hdr.frameSize))
        && Geometry() == V.Config(hdr.slotCount, hdr.frameSize, AlignUp64(hdr.frameSize))
    {
      var fs := hdr.frameSize;
      if fs == 0 {
        return None;
      }
      frameSize, slotStride, slotCount := fs, AlignUp64(fs), hdr.slotCount;
      r := Some(VideoFormat(hdr.width, hdr.height, hdr.stride, hdr.fourcc, fs));
    }

    /** The slot write of a push. */
    method StoreFrame(off: nat, src: seq<Byte>)
      requires Valid() && frameSize != 0 && off == V.Slot(Geometry(), hdr.frameSeq)
      modifies payload
      ensures V.Fits(Geometry(), payload[..])
      ensures SlotsHold(Geometry(), payload[..], hdr.frames + [Fitted(src, frameSize)])
      ensures OnlyChanged(old(payload[..]), payload[..], off, frameSize)
    {
      ghost var before := payload[..];
      V.SlotInBounds(Geometry(), hdr.frameSeq, payload.Length);
      VolatileWriteFrame(payload, off, src, frameSize);
      assert OnlyChanged(before, payload[..], off, frameSize);
      assert V.SlotHolds(Geometry(), payload[..], hdr.frameSeq, Fitted(src, frameSize));
      PushKeepsSlots(Geometry(), before, payload[..], hdr.frames, Fitted(src, frameSize));
    }

    /**
     `push_frame`: one more published frame, cut or zero-padded, in the next slot; nothing else in the
     region changes.
     */
    method PushFrame(src: seq<Byte>)
      requires Valid() && hdr.frameSeq + 1 < U64
      modifies payload, hdr`frameSeq, hdr`frames
      ensures Valid()
      ensures frameSize == 0 ==> payload[..] == old(payload[..]) && hdr.frames == old(hdr.frames)
      ensures frameSize == 0 ==> hdr.frameSeq == old(hdr.frameSeq)
      ensures frameSize != 0 ==> hdr.frames == old(hdr.frames) + [Fitted(src, frameSize)]
      ensures frameSize != 0 ==> hdr.frameSeq == old(hdr.frameSeq) + 1
      ensures frameSize != 0 ==>
        OnlyChanged(old(payload[..]), payload[..], V.Slot(Geometry(), old(hdr.frameSeq)), frameSize)
    {
      if frameSize == 0 || slotCount == 0 {
        return;
      }
      var seqno := hdr.frameSeq;
      var slot := seqno % slotCount;
      var off := slot * slotStride;
      assert off == V.Slot(Geometry(), seqno);
      StoreFrame(off, src);
      hdr.frames := hdr.frames + [Fitted(src, frameSize)];
      hdr.frameSeq := WrappingAdd(seqno, 1);
    }

    /** `read_frame` with no publication during the copy: the newest frame, as far as `out` reaches. */
    method ReadFrame(out: array<Byte>) returns (r: Option<nat>)
      requires Valid() && out != payload
      modifies out
      ensures Valid()
      ensures r.None? <==> frameSize == 0 || hdr.frameSeq == 0
      ensures r.None? ==> out[..] == old(out[..])
      ensures r.Some? ==>
        var len := Min(frameSize, out.Length);
        && r.value == |hdr.frames| - 1 && len <= |hdr.frames[r.value]|
        && out[..len] == hdr.frames[r.value][..len] && out[len..] == old(out[len..])
    {
      if frameSize == 0 || slotCount == 0 {
        return None;
      }
      var s0 := hdr.frameSeq;
      if s0 == 0 {
        return None;
      }
      var newest := s0 - 1;
      var slot := newest % slotCount;
      var off := slot * slotStride;
      assert off == V.Slot(Geometry(), newest);
      V.SlotInBounds(Geometry(), newest, payload.Length);
      var len := Min(frameSize, out.Length);
      VolatileCopyFromWords(payload, off, out, len);
      assert V.SlotHolds(Geometry(), payload[..], newest, hdr.frames[newest]);
      assert payload[off..off + len] == payload[..][off..off + frameSize][..len];
      var s1 := hdr.frameSeq;
      r := if WrappingSub(s1, s0) <= SaturatingSub(slotCount, 2) then Some(newest) else None;
    }
  }

  /** The guest attaches to what the host initialised and publishes its geometry. */
  method Connect(hdr: ShmVideoHeader, payload: array<Byte>, regionLen: nat, vf: VideoFormat)
      returns (host: ShmVideoBuffer, guest: ShmVideoBuffer)
    requires L.VIDEO_HEADER < regionLen < U64 && payload.Length == regionLen - L.VIDEO_HEADER
    requires 0 < vf.frameSize < U32 && L.PublishedSlots(regionLen, vf.frameSize).Some?
    modifies hdr
    ensures fresh(host) && fresh(guest) && host != guest
    ensures host.hdr == guest.hdr == hdr && host.payload == guest.payload == payload
    ensures host.regionLen == guest.regionLen
    ensures guest.Valid() && guest.frameSize == vf.frameSize && hdr.frames == []
    ensures vf == VideoFormat(hdr.width, hdr.height, hdr.stride, hdr.fourcc, hdr.frameSize)
  {
    host := new ShmVideoBuffer.Init(hdr, payload, regionLen);
    var attached := ShmVideoBuffer.Attach(hdr, payload, regionLen);
    guest := attached.value;
    var published := guest.SetGeometry(vf);
  }

  /** The host picks up the guest's geometry and then reads the guest's newest frame. */
  method PickUp(host: ShmVideoBuffer, guest: ShmVideoBuffer, out: array<Byte>)
      returns (seen: Option<VideoFormat>, r: Option<nat>)
    requires guest.Valid() && guest.frameSize != 0 && |guest.hdr.frames| > 0 && host != guest
    requires host.hdr == guest.hdr && host.payload == guest.payload && host.regionLen == guest.regionLen
    requires out.Length == guest.frameSize && out != guest.payload
    modifies host, out
    ensures var h := guest.hdr; seen == Some(VideoFormat(h.width, h.height, h.stride, h.fourcc, h.frameSize))
    ensures r == Some(|guest.hdr.frames| - 1) && out[..] == guest.hdr.frames[|guest.hdr.frames| - 1]
  {
    seen := host.RefreshGeometry();
    assert host.Geometry() == guest.Geometry();
    r := host.ReadFrame(out);
    ghost var frame := guest.hdr.frames[|guest.hdr.frames| - 1];
    assert frame[..guest.frameSize] == frame && out[..] == out[..out.Length];
  }

  /**
   Host and guest on one region: the host receives the guest's geometry and its frame, cut or
   zero-padded to the slot, so the word-wise copies undo each other.
   */
  method CrossMapping(hdr: ShmVideoHeader, payload: array<Byte>, regionLen: nat, vf: VideoFormat,
                      src: seq<Byte>, out: array<Byte>) returns (seen: Option<VideoFormat>, r: Option<nat>)
    requires L.VIDEO_HEADER < regionLen < U64 && payload.Length == regionLen - L.VIDEO_HEADER && out != payload
    requires 0 < vf.frameSize < U32 && L.PublishedSlots(regionLen, vf.frameSize).Some? && out.Length == vf.frameSize
    modifies hdr, payload, out
    ensures seen == Some(vf) && r == Some(0) && out[..] == Fitted(src, vf.frameSize)
  {
    var host, guest := Connect(hdr, payload, regionLen, vf);
    guest.PushFrame(src);
    seen, r := PickUp(host, guest, out);
  }
}
