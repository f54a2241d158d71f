/**
 The acceptance bound of `read_frame` is exact: one publication more than `slots - 2` can already
 leave a mixture of two frames in the buffer, and with a single slot a torn read is accepted.
 The runs are built for every number of slots and every frame size.
 */
module VideoTightness {
  import opened Words
  import opened VideoCopy
  import opened VideoSteps

  // ---- building runs ----

  ghost predicate Leads(c: Config, s: State, t: State) {
    exists acts: seq<Action> :: t == RunFrom(c, s, acts)
  }

  lemma {:induction false} RunFromAppends(c: Config, s: State, a: seq<Action>, b: seq<Action>)
    ensures RunFrom(c, s, a + b) == RunFrom(c, RunFrom(c, s, a), b)
    decreases |b|
  {
    if |b| == 0 {
      assert a + b == a;
    } else {
      RunFromAppends(c, s, a, b[..|b| - 1]);
      assert (a + b)[..|a + b| - 1] == a + b[..|b| - 1];
    }
  }

  lemma LeadsOn(c: Config, s: State, t: State, u: State)
    requires Leads(c, s, t) && Leads(c, t, u)
    ensures Leads(c, s, u)
  {
    var a: seq<Action> :| t == RunFrom(c, s, a);
    var b: seq<Action> :| u == RunFrom(c, t, b);
    RunFromAppends(c, s, a, b);
  }

  lemma LeadsSelf(c: Config, s: State)
    ensures Leads(c, s, s)
  {
    assert s == RunFrom(c, s, []);
  }

  lemma Step(c: Config, s: State, t: State, a: Action)
    requires Leads(c, s, t)
    ensures Leads(c, s, Next(c, t, a))
  {
    assert RunFrom(c, t, []) == t && [a][..0] == [];
    assert Next(c, t, a) == RunFrom(c, t, [a]);
    LeadsOn(c, s, t, Next(c, t, a));
  }

  /** The writer stores the rest of its frame. */
  lemma {:induction false} FillAll(c: Config, s: State) returns (t: State)
    requires Inv(c, s) && s.writer.Filling?
    ensures Leads(c, s, t) && Inv(c, t)
    ensures t == s.(mem := t.mem, writer := Filling(s.writer.src, s.writer.q, c.frameSize))
    decreases c.frameSize - s.writer.p
  {
    LeadsSelf(c, s);
    if s.writer.p == c.frameSize {
      t := s;
    } else {
      var s' := Next(c, s, Write);
      Step(c, s, s, Write);
      NextKeeps(c, s, Write);
      t := FillAll(c, s');
      LeadsOn(c, s, s', t);
    }
  }

  /** The writer enters `push_frame` and stores a whole frame without publishing it. */
  lemma FillFresh(c: Config, s: State, src: seq<Byte>) returns (t: State)
    requires Inv(c, s) && s.writer.Resting? && s.count + 1 < U64
    ensures Leads(c, s, t) && Inv(c, t)
    ensures t == s.(mem := t.mem, writer := Filling(src, s.count, c.frameSize))
  {
    LeadsSelf(c, s);
    var s1 := Next(c, s, BeginPush(src));
    Step(c, s, s, BeginPush(src));
    NextKeeps(c, s, BeginPush(src));
    var s2 := Next(c, s1, Write);
    Step(c, s, s1, Write);
    NextKeeps(c, s1, Write);
    t := FillAll(c, s2);
    LeadsOn(c, s, s2, t);
  }

  /** One whole `push_frame`. */
  lemma PushWhole(c: Config, s: State, src: seq<Byte>) returns (t: State)
    requires Inv(c, s) && s.writer.Resting? && s.count + 1 < U64
    ensures Leads(c, s, t) && Inv(c, t)
    ensures t == s.(mem := t.mem, count := s.count + 1, frames := s.frames + [Fitted(src, c.frameSize)])
  {
    var s' := FillFresh(c, s, src);
    t := Next(c, s', Write);
    Step(c, s, s', Write);
    NextKeeps(c, s', Write);
  }

  lemma {:induction false} PushMany(c: Config, s: State, src: seq<Byte>, n: nat) returns (t: State)
    requires Inv(c, s) && s.writer.Resting? && s.count + n < U64
    ensures Leads(c, s, t) && Inv(c, t)
    ensures t == s.(mem := t.mem, count := s.count + n, frames := t.frames)
    ensures s.frames <= t.frames && forall f :: |s.frames| <= f < |t.frames| ==> t.frames[f] == Fitted(src, c.frameSize)
    decreases n
  {
    LeadsSelf(c, s);
    if n == 0 {
      t := s;
    } else {
      var s' := PushMany(c, s, src, n - 1);
      t := PushWhole(c, s', src);
      LeadsOn(c, s, s', t);
    }
  }

  /** What one access of the reader to a slot whose bytes are `g` loads. */
  lemma Access(c: Config, s: State, g: seq<Byte>) returns (b: seq<Byte>)
    requires Inv(c, s) && s.reader.Copying? && |s.reader.buf| == c.frameSize == |g| && s.reader.p < c.frameSize
    requires SlotHolds(c, s.mem, s.reader.s0 - 1, g)
    ensures |b| > 0 && s.reader.p + |b| <= c.frameSize && b == g[s.reader.p..s.reader.p + |b|]
    ensures var Copying(buf, s0, out, p) := s.reader;
      Next(c, s, Read) == s.(reader := Copying(buf, s0, Splice(out, p, b), p + |b|))
  {
    var Copying(buf, s0, out, p) := s.reader;
    var w := Width(c.frameSize, p);
    b := Part(s.mem, Slot(c, s0 - 1) + p, w);
    LoadChunk(c, s.mem, s0 - 1, p, w, g);
    ReadAccess(c, s, buf, s0, out, p, b);
  }

  /** One access of the reader to a slot whose bytes are `g`. */
  lemma CopyOnce(c: Config, s: State, g: seq<Byte>) returns (t: State)
    requires Inv(c, s) && s.reader.Copying? && |s.reader.buf| == c.frameSize == |g| && s.reader.p < c.frameSize
    requires SlotHolds(c, s.mem, s.reader.s0 - 1, g)
    ensures Leads(c, s, t) && Inv(c, t) && t.reader.Copying? && |t.reader.out| == c.frameSize
    ensures s.reader.p < t.reader.p <= c.frameSize
    ensures t == s.(reader := Copying(s.reader.buf, s.reader.s0, t.reader.out, t.reader.p))
    ensures t.reader.out[..t.reader.p] == s.reader.out[..s.reader.p] + g[s.reader.p..t.reader.p]
  {
    var b := Access(c, s, g);
    SpliceExtends(s.reader.out, s.reader.p, b);
    t := Next(c, s, Read);
    assert Leads(c, s, t) by {
      LeadsSelf(c, s);
      Step(c, s, s, Read);
    }
    assert Inv(c, t) by {
      NextKeeps(c, s, Read);
    }
  }

  lemma JoinPieces(a: seq<Byte>, g: seq<Byte>, p: nat, q: nat)
    requires p <= q <= |g|
    ensures a + g[p..q] + g[q..] == a + g[p..]
  {
    assert g[p..q] + g[q..] == g[p..];
  }

  /** The reader copies the rest of a slot whose bytes are `g`. */
  lemma {:induction false} CopyAll(c: Config, s: State, g: seq<Byte>) returns (t: State)
    requires Inv(c, s) && s.reader.Copying? && |s.reader.buf| == c.frameSize == |g|
    requires SlotHolds(c, s.mem, s.reader.s0 - 1, g)
    ensures Leads(c, s, t) && Inv(c, t)
    ensures var Copying(buf, s0, out, p) := s.reader;
      t == s.(reader := Copying(buf, s0, out[..p] + g[p..], c.frameSize))
    decreases c.frameSize - s.reader.p
  {
    var Copying(buf, s0, out, p) := s.reader;
    if p == c.frameSize {
      LeadsSelf(c, s);
      t := s;
      assert out[..p] + g[p..] == out;
    } else {
      var s' := CopyOnce(c, s, g);
      t := CopyAll(c, s', g);
      LeadsOn(c, s, s', t);
      JoinPieces(out[..p], g, p, s'.reader.p);
    }
  }

  // ---- the tight run ----

  function Filled(n: nat, b: Byte): (r: seq<Byte>)
    ensures |r| == n && forall i :: 0 <= i < n ==> r[i] == b
  {
    seq(n, i => b)
  }

  /** How much of frame 0 the reader keeps: its first access, unless that is the whole frame. */
  function FirstAccess(size: nat): nat {
    if Width(size, 0) < size then Width(size, 0) else 0
  }

  /**
   Frame 0 was all zeros; since the reader loaded `frame_seq` as 1, `slots - 1` frames of ones were
   published and another was stored over slot 0. The finished copy starts with frame 0 and ends with that one.
   */
  ghost predicate Lapped(c: Config, s: State) {
    && s.reader.Copying? && s.reader.s0 == 1 && s.reader.p == c.frameSize == |s.reader.buf|
    && s.count == |s.frames| == c.slots && |s.frames| > 0
    && s.frames[0] == Filled(c.frameSize, 0)
    && s.writer.Filling? && Fitted(s.writer.src, c.frameSize) == Filled(c.frameSize, 1)
    && (forall f :: 0 < f < |s.frames| ==> s.frames[f] == Filled(c.frameSize, 1))
    && s.reader.out == Filled(FirstAccess(c.frameSize), 0) + Filled(c.frameSize - FirstAccess(c.frameSize), 1)
  }

  lemma FittedFilled(size: nat, b: Byte)
    ensures Fitted(Filled(size, b), size) == Filled(size, b)
  {
  }

  /** The reader has loaded `frame_seq == 1` and made its first access, if there are several. */
  lemma ReaderStarts(c: Config, s: State, buf: seq<Byte>) returns (t: State)
    requires Inv(c, s) && s.writer.Resting? && s.reader.Free? && s.count == 1 && |buf| == c.frameSize
    ensures Leads(c, s, t) && Inv(c, t) && t.reader.Copying?
    ensures t == s.(reader := Copying(buf, 1, t.reader.out, FirstAccess(c.frameSize)))
    ensures t.reader.out[..FirstAccess(c.frameSize)] == s.frames[0][..FirstAccess(c.frameSize)]
  {
    LeadsSelf(c, s);
    var s1 := Next(c, s, BeginRead(buf));
    Step(c, s, s, BeginRead(buf));
    NextKeeps(c, s, BeginRead(buf));
    var s2 := Next(c, s1, Read);
    Step(c, s, s1, Read);
    NextKeeps(c, s1, Read);
    assert s2 == s.(reader := Copying(buf, 1, buf, 0));
    t := s2;
    var w := Width(c.frameSize, 0);
    if w < c.frameSize {
      t := Next(c, s2, Read);
      Step(c, s, s2, Read);
      NextKeeps(c, s2, Read);
      assert SlotHolds(c, s.mem, 0, s.frames[0]);
      LoadChunk(c, s.mem, 0, 0, w, s.frames[0]);
      SpliceExtends(buf, 0, s.frames[0][..w]);
    }
  }

  /** Up to the writer's last store: the reader holds its first access, the writer has lapped it. */
  lemma WriterLaps(c: Config, mem: seq<Byte>) returns (s: State)
    requires Fits(c, mem) && c.slots + 1 < U64
    ensures Leads(c, Init(mem), s) && Inv(c, s) && s.count == |s.frames| == c.slots && |s.frames| > 0
    ensures s.reader.Copying? && s.reader.s0 == 1
    ensures s.reader.p == FirstAccess(c.frameSize) && |s.reader.buf| == c.frameSize
    ensures |s.reader.out| == c.frameSize && s.reader.out[..s.reader.p] == Filled(c.frameSize, 0)[..s.reader.p]
    ensures s.frames[0] == Filled(c.frameSize, 0)
    ensures forall f :: 0 < f < |s.frames| ==> s.frames[f] == Filled(c.frameSize, 1)
    ensures s.writer == Filling(Filled(c.frameSize, 1), c.slots, c.frameSize)
  {
    var n := c.frameSize;
    var zeros, ones := Filled(n, 0), Filled(n, 1);
    FittedFilled(n, 0);
    FittedFilled(n, 1);
    assert Inv(c, Init(mem));
    var s1 := PushWhole(c, Init(mem), zeros);
    var s2 := ReaderStarts(c, s1, zeros);
    LeadsOn(c, Init(mem), s1, s2);
    var s3 := PushMany(c, s2, ones, c.slots - 1);
    LeadsOn(c, Init(mem), s2, s3);
    s := FillFresh(c, s3, ones);
    LeadsOn(c, Init(mem), s3, s);
  }

  /** Such a run exists for every geometry. */
  lemma LappedRun(c: Config, mem: seq<Byte>) returns (s: State)
    requires Fits(c, mem) && c.slots + 1 < U64
    ensures Reachable(c, s) && Inv(c, s) && Lapped(c, s)
  {
    var n := c.frameSize;
    var ones := Filled(n, 1);
    FittedFilled(n, 1);
    var t := WriterLaps(c, mem);
    assert SlotHolds(c, t.mem, 0, ones) by {
      assert c.slots % c.slots == 0 % c.slots;
      assert ones[..n] == ones;
    }
    s := CopyAll(c, t, ones);
    LeadsOn(c, Init(mem), t, s);
    var k := FirstAccess(n);
    assert t.reader.out[..k] == Filled(k, 0) && ones[k..] == Filled(n - k, 1);
  }

  /** A finished copy that is none of the frames ever stored. */
  ghost predicate Mixture(c: Config, s: State) {
    && s.reader.Copying? && s.reader.p == c.frameSize == |s.reader.out|
    && s.writer.Filling? && s.reader.out != Fitted(s.writer.src, c.frameSize)
    && s.reader.out !in s.frames
  }

  /**
   Accepting a finished copy whenever at most `bound` frames were published during it would always
   give the frame it started with.
   */
  ghost predicate SafeBound(c: Config, bound: nat) {
    forall s: State ::
      Reachable(c, s) && s.reader.Copying? && s.reader.p == Length(c, s.reader.buf) && s.count - s.reader.s0 <= bound
      ==> IsWhole(c, s)
  }

  /** The finished copy is the frame it started with, and the rest of the buffer is untouched. */
  ghost predicate IsWhole(c: Config, s: State)
    requires s.reader.Copying?
  {
    var Copying(buf, s0, out, p) := s.reader;
    0 < s0 <= |s.frames| && Delivers(c, s.frames[s0 - 1], buf, out)
  }

  lemma FinishedIsWhole(c: Config, s: State)
    requires Inv(c, s) && s.reader.Copying? && s.reader.p == Length(c, s.reader.buf)
    requires c.slots >= 2 && s.count - s.reader.s0 <= c.slots - 2
    ensures IsWhole(c, s)
  {
    var Copying(buf, s0, out, p) := s.reader;
    assert out == out[..p] + out[p..];
    CopiedDelivers(c, s.frames[s0 - 1], buf, out);
  }

  lemma LappedIsNotWhole(c: Config, s: State)
    requires c.frameSize > 0 && Lapped(c, s)
    ensures !IsWhole(c, s)
  {
    var n := c.frameSize;
    assert s.reader.out[n - 1] == 1 && s.frames[0][n - 1] == 0;
  }

  /** For every geometry, frames of a single access included, the safe bounds are exactly those up to `slots - 2`. */
  lemma SafeBoundIff(c: Config, mem: seq<Byte>, bound: nat)
    requires Fits(c, mem) && c.slots + 1 < U64
    ensures SafeBound(c, bound) <==> bound <= c.slots - 2
  {
    if bound <= c.slots - 2 {
      forall s: State |
        Reachable(c, s) && s.reader.Copying? && s.reader.p == Length(c, s.reader.buf) && s.count - s.reader.s0 <= bound
        ensures IsWhole(c, s)
      {
        ReachableInv(c, s);
        FinishedIsWhole(c, s);
      }
    } else {
      var s := LappedRun(c, mem);
      LappedIsNotWhole(c, s);
    }
  }

  lemma LappedIsMixture(c: Config, s: State)
    requires Lapped(c, s) && Width(c.frameSize, 0) < c.frameSize
    ensures Mixture(c, s)
  {
    var n := c.frameSize;
    assert s.reader.out[0] == 0 && s.reader.out[n - 1] == 1;
    assert Filled(n, 0)[n - 1] == 0 && Filled(n, 1)[0] == 1;
    forall f | 0 <= f < |s.frames|
      ensures s.frames[f] != s.reader.out
    {
    }
  }

  /**
   The bound cannot be raised by one: for every geometry there is a run in which exactly `slots - 1`
   frames were published during a copy that is not its frame, and if a frame takes more than one
   access, is none of the frames ever stored.
   */
  lemma BoundIsTight(c: Config, mem: seq<Byte>)
    requires Fits(c, mem) && c.slots + 1 < U64
    ensures exists s: State ::
      && Reachable(c, s) && s.reader.Copying? && s.reader.p == Length(c, s.reader.buf)
      && s.count - s.reader.s0 == c.slots - 1 && !IsWhole(c, s)
      && (Width(c.frameSize, 0) < c.frameSize ==> Mixture(c, s))
  {
    var s := LappedRun(c, mem);
    LappedIsNotWhole(c, s);
    if Width(c.frameSize, 0) < c.frameSize {
      LappedIsMixture(c, s);
    }
  }

  ghost predicate AcceptedExactly(c: Config, s: State) {
    forall i :: 0 <= i < |s.results| && s.results[i].Frame? ==>
      var Frame(number, out, buf, s0, s1) := s.results[i];
      number < |s.frames| && Delivers(c, s.frames[number], buf, out)
  }

  /** With one slot `saturating_sub(2)` is too lax: a torn copy is accepted. */
  lemma OneSlotTears(c: Config, mem: seq<Byte>) returns (t: State)
    requires Fits(c, mem) && c.slots == 1
    ensures Reachable(c, t) && !AcceptedExactly(c, t)
  {
    var s := LappedRun(c, mem);
    t := Next(c, s, Read);
    var acts: seq<Action>, mem': seq<Byte> :| Fits(c, mem') && s == RunFrom(c, Init(mem'), acts);
    assert (acts + [Read])[..|acts|] == acts;
    assert t == RunFrom(c, Init(mem'), acts + [Read]);
    var r := t.results[|s.results|];
    var n := c.frameSize;
    assert r == Frame(0, s.reader.out, s.reader.buf, 1, 1);
    assert r.out[n - 1] == 1 && s.frames[0][n - 1] == 0;
    assert !Delivers(c, s.frames[0], r.buf, r.out);
  }

  /** Every accepted read is exact in every run exactly when there are at least two slots. */
  lemma SafeIffTwoSlots(c: Config, mem: seq<Byte>)
    requires Fits(c, mem) && c.slots + 1 < U64
    ensures c.slots >= 2 <==> forall s: State :: Reachable(c, s) ==> AcceptedExactly(c, s)
  {
    if c.slots >= 2 {
      forall s: State | Reachable(c, s)
        ensures AcceptedExactly(c, s)
      {
        forall i | 0 <= i < |s.results| && s.results[i].Frame?
          ensures var Frame(number, out, buf, s0, s1) := s.results[i];
            number < |s.frames| && Delivers(c, s.frames[number], buf, out)
        {
          TearSafe(c, s, i);
        }
      }
    } else {
      var t := OneSlotTears(c, mem);
    }
  }
}
