/** The playback callback's arithmetic around `read_quantum`, and both sides working on one mapping. */
module Playback {
  import opened Wrappers
  import opened Words
  import opened Ring
  import opened AudioSpec
  import opened AudioBuffer

  /** A sequential read is the atomic read of the ring. */
  lemma SequentialReadIsAtomic(c: Config, st: Stream, n: nat, maxLatency: nat, live: nat, head: nat, got: seq<Byte>)
    requires ReadOk(c.Frame(), st.hist, st.head, maxLatency, n, live, head, got)
    requires |st.hist| - ReadFrom(c.Frame(), |st.hist|, st.head, maxLatency) <= c.cap
    ensures var st' := After(c, st, Read(n, maxLatency));
      st'.head == head && |st'.log| == |st.log| + 1 && st'.log[|st.log|].bytes == got[..live]
  {
    var from := ReadFrom(c.Frame(), |st.hist|, st.head, maxLatency);
    assert got[..live] == st.hist[from..head];
  }

  class PlaybackState {
    const ring: ShmAudioBuffer
    const maxLatencyBytes: nat
    const stride: nat
    var underflows: nat
    var overflows: nat

    constructor (ring: ShmAudioBuffer, maxLatencyBytes: nat, stride: nat)
      ensures this.ring == ring && this.maxLatencyBytes == maxLatencyBytes && this.stride == stride
      ensures underflows == 0 && overflows == 0
    {
      this.ring := ring;
      this.maxLatencyBytes := maxLatencyBytes;
      this.stride := stride;
      underflows, overflows := 0, 0;
    }

    /**
     `process` on a mapped buffer: the whole window is emitted, the backlog left behind is bounded,
     and the counters tell the truth about skipped and missing bytes.
     */
    method Process(slice: array<Byte>) returns (size: nat, ghost live: nat)
      requires ring.Valid() && stride == ring.hdr.frameBytes > 0 && slice != ring.payload
      requires ring.Backlog(Rounded(slice.Length, stride) + maxLatencyBytes) <= ring.cap
      modifies slice, this, ring.hdr`head
      ensures ring.Valid() && size % stride == 0 && size <= slice.Length < size + stride
      ensures ReadOk(stride, ring.hdr.hist, old(ring.hdr.head), size + maxLatencyBytes,
                     size, live, ring.hdr.head, slice[..size])
      ensures slice[size..] == old(slice[size..])
      ensures ring.hdr.tail - ring.hdr.head <= Max(maxLatencyBytes, stride - 1)
      ensures overflows == old(overflows)
                         + if ring.hdr.tail - old(ring.hdr.head) > size + maxLatencyBytes then 1 else 0
      ensures overflows > old(overflows) ==> ring.hdr.head - live > old(ring.hdr.head)
      ensures ring.hdr.tail % stride == 0 && old(ring.hdr.head) % stride == 0 ==>
        (overflows > old(overflows) <==> ring.hdr.head - live > old(ring.hdr.head))
      ensures underflows == old(underflows) + if ring.hdr.tail - old(ring.hdr.head) < size then 1 else 0
    {
      var window := slice.Length / stride * stride;
      RoundedBounds(slice.Length, stride);
      var budget := window + maxLatencyBytes;
      var head, tail := ring.hdr.head, ring.hdr.tail;
      var avail := SaturatingSub(tail, head);
      if avail > budget {
        overflows := overflows + 1;
      }
      var got := ring.ReadQuantum(slice, window, budget);
      if got < window {
        underflows := underflows + 1;
      }
      size, live := window, got;
      CallbackFacts(ring.cap, stride, ring.hdr.hist, head, window, maxLatencyBytes,
                    live, ring.hdr.head, slice[..window]);
    }
  }

  lemma CallbackFacts(cap: nat, stride: nat, hist: seq<Byte>, was: nat, window: nat, latency: nat,
                      live: nat, head: nat, got: seq<Byte>)
    requires stride > 0 && was <= |hist| && window % stride == 0
    requires Min(|hist| - was, Rounded(window + latency, stride)) <= cap
    requires ReadOk(stride, hist, was, window + latency, window, live, head, got)
    ensures |hist| - head <= Max(latency, stride - 1)
    ensures var from := ReadFrom(stride, |hist|, was, window + latency);
      && (CountsOverflow(|hist|, was, window + latency) ==> from > was)
      && (|hist| % stride == 0 && was % stride == 0 ==> (CountsOverflow(|hist|, was, window + latency) <==> from > was))
    ensures live < window <==> |hist| - was < window
  {
    var c := Config(cap, stride);
    var from := ReadFrom(stride, |hist|, was, window + latency);
    var d := Delivery(was, from, head, |hist|, window, window + latency, hist[from..head]);
    ReadFromBounds(stride, |hist|, was, window + latency);
    LatencyBound(c, hist, d, latency);
    UnderflowIff(c, d);
    if CountsOverflow(|hist|, was, window + latency) {
      OverflowSkips(c, |hist|, was, window + latency);
    }
    if |hist| % stride == 0 && was % stride == 0 {
      OverflowIffSkips(c, d);
    }
  }

  /** The guest attaches to what the host initialised and publishes its format. */
  method Connect(hdr: ShmHeader, payload: array<Byte>, totalSize: nat, cap: nat, fmt: AudioFormat)
      returns (host: ShmAudioBuffer, guest: ShmAudioBuffer, seen: Option<AudioFormat>)
    requires SHM_HEADER_SIZE < totalSize < U64 && payload.Length == totalSize - SHM_HEADER_SIZE
    requires IsPowerOfTwo(cap) && cap <= totalSize - SHM_HEADER_SIZE && fmt.frameBytes > 0
    modifies hdr
    ensures host.hdr == guest.hdr == hdr && host.payload == guest.payload == payload && host.cap == guest.cap == cap
    ensures guest.Valid() && hdr.hist == [] && hdr.head == hdr.tail == hdr.seqno == 0
    ensures hdr.frameBytes == fmt.frameBytes
    ensures seen == Some(fmt)
  {
    host := new ShmAudioBuffer.Init(hdr, payload, totalSize, cap);
    var attached := ShmAudioBuffer.Attach(hdr, payload, totalSize);
    guest := attached.value;
    guest.SetFormat(fmt);
    seen := host.Format();
  }

  /** A read that starts at 0 and skips nothing. */
  lemma ReadFromStart(frame: nat, hist: seq<Byte>, maxLatency: nat, n: nat, live: nat, head: nat, got: seq<Byte>)
    requires frame > 0 && |hist| <= Rounded(maxLatency, frame)
    requires ReadOk(frame, hist, 0, maxLatency, n, live, head, got)
    ensures live == Rounded(Min(Rounded(n, frame), |hist|), frame) <= n && live <= |hist|
    ensures got == hist[..live] + seq(n - live, i => 0 as Byte)
  {
  }

  /** The other side's handle reads the stream from its start. */
  method Receive(host: ShmAudioBuffer, guest: ShmAudioBuffer, out: array<Byte>, maxLatency: nat) returns (live: nat)
    requires guest.Valid() && host.hdr == guest.hdr && host.payload == guest.payload && host.cap == guest.cap
    requires guest.hdr.head == 0 && |guest.hdr.hist| <= guest.cap
    requires out != guest.payload
    modifies out, host.hdr`head
    ensures ReadOk(host.Frame(), host.hdr.hist, 0, maxLatency, out.Length, live, host.hdr.head, out[..])
  {
    assert host.Valid() by {
      assert guest.RingBytes() == host.RingBytes();
    }
    live := host.ReadQuantum(out, out.Length, maxLatency);
    assert out[..out.Length] == out[..];
  }

  /**
   Host and guest on one mapping: the guest attaches to what the host initialised, publishes a
   format and pushes; the host sees that format and reads back exactly the whole frames pushed, then silence.
   */
  method CrossMapping(hdr: ShmHeader, payload: array<Byte>, totalSize: nat, cap: nat, fmt: AudioFormat,
                      data: seq<Byte>, out: array<Byte>, maxLatency: nat) returns (seen: Option<AudioFormat>, live: nat)
    requires SHM_HEADER_SIZE < totalSize < U64 && payload.Length == totalSize - SHM_HEADER_SIZE
    requires IsPowerOfTwo(cap) && cap <= totalSize - SHM_HEADER_SIZE && out != payload
    requires fmt.frameBytes > 0 && |data| <= cap && |data| <= Rounded(maxLatency, fmt.frameBytes)
    modifies hdr, payload, out
    ensures seen == Some(fmt)
    ensures live == Rounded(Min(Rounded(out.Length, fmt.frameBytes), |data|), fmt.frameBytes) <= |data|
    ensures out[..] == data[..live] + seq(out.Length - live, i => 0 as Byte)
  {
    var host, guest;
    host, guest, seen := Connect(hdr, payload, totalSize, cap, fmt);
    guest.PushOverwrite(data);
    assert hdr.hist == data;
    live := Receive(host, guest, out, maxLatency);
    ReadFromStart(fmt.frameBytes, data, maxLatency, out.Length, live, hdr.head, out[..]);
  }
}
