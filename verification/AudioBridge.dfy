/**
 The two models of the audio code agree: one side running alone through the step machine does
 what the sequential methods of `AudioBuffer` promise.
 */
module AudioBridge {
  import opened Words
  import opened Ring
  import opened AudioSpec
  import opened AudioSteps
  import opened AudioTheorems
  import B = AudioBuffer

  /** The producer running alone. */
  function ProduceAlone(c: Config, s: State, n: nat): State {
    if n == 0 then s else ProduceStep(c, ProduceAlone(c, s, n - 1))
  }

  /** One more byte of an overwrite. */
  lemma OverwriteByte(before: seq<Byte>, after: seq<Byte>, pos: nat, src: seq<Byte>, i: nat)
    requires i < |src| <= |before| && B.Overwritten(before, after, pos, src[..i])
    ensures B.Overwritten(before, after[(pos + i) % |before| := src[i]], pos, src[..i + 1])
  {
    var cap, at := |before|, (pos + i) % |before|;
    var after' := after[at := src[i]];
    B.OffsetOfMod(cap, pos, i);
    forall j | 0 <= j < cap
      ensures var e := B.Offset(cap, pos % cap, j);
        after'[j] == if e < i + 1 then src[..i + 1][e] else before[j]
    {
      var e := B.Offset(cap, pos % cap, j);
      assert after[j] == if e < i then src[..i][e] else before[j];
      assert e == i ==> j == at;
    }
  }

  lemma WriteOnce(c: Config, s: State, raw: seq<Byte>, tail: nat, q: nat, i: nat)
    requires c.Valid() && |s.payload| == c.cap && s.producer == Writing(raw, tail, q, i) && i < |Newest(c.cap, raw)|
    ensures ProduceStep(c, s) == s.(payload := s.payload[(tail + i) % c.cap := Newest(c.cap, raw)[i]],
                                    producer := Writing(raw, tail, q, i + 1))
  {
    CopyReaches(c, tail, |Newest(c.cap, raw)|, i);
  }

  /** `t` is `s` after `i` byte stores of the copy: the payload is overwritten by the first `i` bytes. */
  ghost predicate Copied(c: Config, s: State, t: State, i: nat) {
    && s.producer.Writing? && |s.payload| == c.cap && i <= |Newest(c.cap, s.producer.raw)|
    && t == s.(payload := t.payload, producer := s.producer.(i := i))
    && |Newest(c.cap, s.producer.raw)| <= c.cap
    && B.Overwritten(s.payload, t.payload, s.producer.tail, Newest(c.cap, s.producer.raw)[..i])
  }

  lemma CopiedExtends(c: Config, s: State, t: State, i: nat)
    requires c.Valid() && Copied(c, s, t, i) && i < |Newest(c.cap, s.producer.raw)|
    ensures Copied(c, s, ProduceStep(c, t), i + 1)
  {
    var Writing(raw, tail, q, _) := s.producer;
    WriteOnce(c, t, raw, tail, q, i);
    OverwriteByte(s.payload, t.payload, tail, Newest(c.cap, raw), i);
  }

  lemma {:induction false} WritesAlone(c: Config, s: State, i: nat)
    requires c.Valid() && |s.payload| == c.cap && s.producer.Writing? && s.producer.i == 0
    requires i <= |Newest(c.cap, s.producer.raw)|
    ensures Copied(c, s, ProduceAlone(c, s, i), i)
    decreases i
  {
    if i > 0 {
      WritesAlone(c, s, i - 1);
      CopiedExtends(c, s, ProduceAlone(c, s, i - 1), i - 1);
    }
  }

  lemma {:induction false} AloneAdds(c: Config, s: State, m: nat, n: nat)
    ensures ProduceAlone(c, s, m + n) == ProduceAlone(c, ProduceAlone(c, s, m), n)
    decreases n
  {
    if n > 0 {
      AloneAdds(c, s, m, n - 1);
    }
  }

  /** The three steps before the copy. */
  lemma EntersAlone(c: Config, s: State, raw: seq<Byte>) returns (n: nat)
    requires s.producer == Entered(raw) && Room(c, s.tail, s.seqno, raw)
    ensures n == 3 && ProduceAlone(c, s, n) == s.(seqno := s.seqno + 1, producer := Writing(raw, s.tail, s.seqno, 0))
  {
    n := 3;
    assert ProduceAlone(c, s, 1) == s.(producer := TailLoaded(raw, s.tail));
    assert ProduceAlone(c, s, 2) == s.(producer := SeqLoaded(raw, s.tail, s.seqno));
  }

  /** The state once the copy of a push begun in `s` has left the payload `p`. */
  function Filled(c: Config, s: State, raw: seq<Byte>, p: seq<Byte>): State {
    s.(payload := p, seqno := s.seqno + 1, producer := Writing(raw, s.tail, s.seqno, |Newest(c.cap, raw)|))
  }

  /** The state after the push. */
  function Pushed(c: Config, s: State, raw: seq<Byte>, p: seq<Byte>): State {
    s.(payload := p, tail := s.tail + |Newest(c.cap, raw)|, seqno := s.seqno + 2, producer := Resting,
       hist := s.hist + Newest(c.cap, raw), pushed := s.pushed + raw)
  }

  /** The two steps after it. */
  lemma PublishesAlone(c: Config, s: State, raw: seq<Byte>, p: seq<Byte>) returns (n: nat)
    requires Room(c, s.tail, s.seqno, raw)
    ensures n == 2 && ProduceAlone(c, Filled(c, s, raw, p), n) == Pushed(c, s, raw, p)
  {
    n := 2;
    var t := Filled(c, s, raw, p);
    assert ProduceAlone(c, t, 1) == t.(tail := s.tail + |Newest(c.cap, raw)|, producer := TailStored(s.seqno),
                                       hist := s.hist + Newest(c.cap, raw), pushed := s.pushed + raw);
  }

  /** Three stages joined. */
  lemma StagesJoin(c: Config, s: State, t: State, u: State, v: State, m: nat, n: nat, k: nat)
    requires ProduceAlone(c, s, m) == t && ProduceAlone(c, t, n) == u && ProduceAlone(c, u, k) == v
    ensures ProduceAlone(c, s, m + n + k) == v
  {
    AloneAdds(c, s, m, n);
    AloneAdds(c, s, m + n, k);
  }

  /** The copy, as a whole. */
  lemma CopiesAlone(c: Config, s: State, raw: seq<Byte>, t: State, n: nat) returns (p: seq<Byte>)
    requires c.Valid() && |s.payload| == c.cap && n == |Newest(c.cap, raw)|
    requires t == s.(seqno := s.seqno + 1, producer := Writing(raw, s.tail, s.seqno, 0))
    ensures ProduceAlone(c, t, n) == Filled(c, s, raw, p)
    ensures B.Overwritten(s.payload, p, s.tail, Newest(c.cap, raw))
  {
    WritesAlone(c, t, n);
    p := ProduceAlone(c, t, n).payload;
    assert Newest(c.cap, raw)[..n] == Newest(c.cap, raw);
  }

  /** The stores of one push, made without interruption, are exactly what `PushOverwrite` promises. */
  lemma PushAlone(c: Config, s: State, raw: seq<Byte>) returns (steps: nat, p: seq<Byte>)
    requires c.Valid() && |s.payload| == c.cap && s.producer == Entered(raw) && Room(c, s.tail, s.seqno, raw)
    ensures steps == |Newest(c.cap, raw)| + 5 && ProduceAlone(c, s, steps) == Pushed(c, s, raw, p)
    ensures B.Overwritten(s.payload, p, s.tail, Newest(c.cap, raw))
  {
    var t, n := s.(seqno := s.seqno + 1, producer := Writing(raw, s.tail, s.seqno, 0)), |Newest(c.cap, raw)|;
    var m := EntersAlone(c, s, raw);
    p := CopiesAlone(c, s, raw, t, n);
    var k := PublishesAlone(c, s, raw, p);
    StagesJoin(c, s, t, Filled(c, s, raw, p), Pushed(c, s, raw, p), m, n, k);
    steps := m + n + k;
  }

  /** A reply and its delivery are together what `ReadQuantum` promises. */
  lemma ReplyIsReadOk(c: Config, s: State, k: nat)
    requires c.Valid() && Reachable(c, s) && k < |s.replies|
    ensures k < |s.log|
    ensures var d, r := s.log[k], s.replies[k];
      d.tail <= |s.hist| && B.ReadOk(c.Frame(), s.hist[..d.tail], d.was, d.maxLatency, d.outLen, r.live, d.to, r.out)
  {
    RepliesAreExact(c, s, k);
    var d, r := s.log[k], s.replies[k];
    assert Zeros(d.outLen - r.live) == seq(d.outLen - r.live, i => 0 as Byte);
    DeliveryIsReadOk(c, s.hist, d, r.live, r.out);
  }

  lemma DeliveryIsReadOk(c: Config, hist: seq<Byte>, d: Delivery, live: nat, got: seq<Byte>)
    requires GoodDelivery(c, hist, d) && live == d.to - d.from <= d.outLen
    requires got == d.bytes + seq(d.outLen - live, i => 0 as Byte)
    ensures d.tail <= |hist| && B.ReadOk(c.Frame(), hist[..d.tail], d.was, d.maxLatency, d.outLen, live, d.to, got)
  {
    assert hist[..d.tail][d.from..d.to] == hist[d.from..d.to];
  }
}
