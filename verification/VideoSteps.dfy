/**
 The video slot ring under concurrency: one action per word or byte moved to or from a slot and
 per load or store of `frame_seq`. The memory model is that of `AudioSteps`. The ring has no
 writing marker; the reader accepts a copy if the published count moved by at most `slots - 2`.
 */
module VideoSteps {
  import opened Words
  import opened VideoCopy
  import opened Ring

  /** The published geometry; both sides derive `stride` from the frame size. */
  datatype Config = Config(slots: nat, frameSize: nat, stride: nat) {
    predicate Valid() {
      slots > 0 && 0 < frameSize < U32 && stride == AlignUp64(frameSize)
    }
  }

  /** Inside `push_frame(src)`: entered, or `p` bytes of frame number `q` stored. */
  datatype Writer = Resting | Entered(src: seq<Byte>) | Filling(src: seq<Byte>, q: nat, p: nat)

  /** Inside `read_frame(buf)`: entered, or `p` bytes copied to `out` after `frame_seq` was seen as `s0`. */
  datatype Reader = Free | Asked(buf: seq<Byte>) | Copying(buf: seq<Byte>, s0: nat, out: seq<Byte>, p: nat)

  datatype Result =
    | NoFrame
    | Frame(number: nat, out: seq<Byte>, buf: seq<Byte>, s0: nat, s1: nat)
    | Torn(s0: nat, s1: nat)

  /** Shared memory (`mem`, `count` for `frame_seq`), both sides' locals, published frames and finished reads. */
  datatype State = State(
    mem: seq<Byte>, count: nat, writer: Writer, reader: Reader, frames: seq<seq<Byte>>, results: seq<Result>)

  datatype Action = BeginPush(src: seq<Byte>) | Write | BeginRead(buf: seq<Byte>) | Read

  // ---- steps ----

  /** Bytes moved by the next volatile access: a word while a whole word is left, then single bytes. */
  function Width(len: nat, p: nat): (w: nat)
    ensures w == 1 || w == 8
    ensures p < len ==> p + w <= len
  {
    if p + 8 <= len then 8 else 1
  }

  /** These are the accesses of the two loops: `len / 8` words, then the bytes that are left. */
  lemma WidthFollowsLoops(len: nat, i: nat, j: nat)
    requires i < len / 8 && len / 8 * 8 <= j < len
    ensures Width(len, i * 8) == 8 && Width(len, j) == 1
  {
  }

  /** Where the slot of frame number `f` starts. */
  function Slot(c: Config, f: nat): nat {
    if c.slots > 0 then SlotStart(f % c.slots, c.stride) else 0
  }

  function SlotStart(k: nat, stride: nat): nat {
    k * stride
  }

  /** `n` bytes of `s` from `i`, as far as `s` reaches. */
  function Part(s: seq<Byte>, i: nat, n: nat): seq<Byte> {
    if i + n <= |s| then s[i..i + n] else []
  }

  /** `s` with `b` written at `i`; out of range nothing is written. */
  function Splice(s: seq<Byte>, i: nat, b: seq<Byte>): (r: seq<Byte>)
    ensures |r| == |s|
  {
    if i + |b| <= |s| then s[..i] + b + s[i + |b|..] else s
  }

  /** The bytes the writer stores at `p`: `src` cut or zero-padded to the frame size. */
  function Chunk(c: Config, src: seq<Byte>, p: nat): seq<Byte> {
    Part(Fitted(src, c.frameSize), p, Width(c.frameSize, p))
  }

  function WriteStep(c: Config, s: State): State {
    match s.writer
    case Resting => s
    case Entered(src) => s.(writer := Filling(src, s.count, 0))
    case Filling(src, q, p) =>
      if p < c.frameSize then
        s.(mem := Splice(s.mem, Slot(c, q) + p, Chunk(c, src, p)),
           writer := Filling(src, q, p + Width(c.frameSize, p)))
      else
        s.(count := WrappingAdd(q, 1), frames := s.frames + [Fitted(src, c.frameSize)], writer := Resting)
  }

  /** How much of a buffer a read fills. */
  function Length(c: Config, buf: seq<Byte>): nat {
    Min(c.frameSize, |buf|)
  }

  /** The acceptance test: `s1.wrapping_sub(s0) <= slot_count.saturating_sub(2)`. */
  predicate Accepts(c: Config, s0: nat, s1: nat) {
    WrappingSub(s1, s0) <= SaturatingSub(c.slots, 2)
  }

  function Judge(c: Config, buf: seq<Byte>, s0: nat, out: seq<Byte>, s1: nat): Result {
    if s0 > 0 && Accepts(c, s0, s1) then Frame(s0 - 1, out, buf, s0, s1) else Torn(s0, s1)
  }

  function ReadStep(c: Config, s: State): State {
    match s.reader
    case Free => s
    case Asked(buf) =>
      if s.count == 0 then s.(reader := Free, results := s.results + [NoFrame])
      else s.(reader := Copying(buf, s.count, buf, 0))
    case Copying(buf, s0, out, p) =>
      var len := Length(c, buf);
      if p < len then
        var w := Width(len, p);
        s.(reader := Copying(buf, s0, Splice(out, p, Part(s.mem, Slot(c, SaturatingSub(s0, 1)) + p, w)), p + w))
      else
        s.(reader := Free, results := s.results + [Judge(c, buf, s0, out, s.count)])
  }

  function Next(c: Config, s: State, a: Action): State {
    match a
    case BeginPush(src) => if s.writer.Resting? && s.count + 1 < U64 then s.(writer := Entered(src)) else s
    case Write => WriteStep(c, s)
    case BeginRead(buf) => if s.reader.Free? then s.(reader := Asked(buf)) else s
    case Read => ReadStep(c, s)
  }

  /** After the geometry is published: no frame yet, the slots hold whatever the mapping held. */
  function Init(mem: seq<Byte>): State {
    State(mem, 0, Resting, Free, [], [])
  }

  function RunFrom(c: Config, s: State, acts: seq<Action>): State {
    if |acts| == 0 then s else Next(c, RunFrom(c, s, acts[..|acts| - 1]), acts[|acts| - 1])
  }

  /** The slots fit the mapping. */
  ghost predicate Fits(c: Config, mem: seq<Byte>) {
    c.Valid() && c.slots * c.stride <= |mem|
  }

  ghost predicate Reachable(c: Config, s: State) {
    exists mem: seq<Byte>, acts: seq<Action> :: Fits(c, mem) && s == RunFrom(c, Init(mem), acts)
  }

  // ---- slots ----

  lemma SlotInBounds(c: Config, f: nat, size: nat)
    requires c.Valid() && c.slots * c.stride <= size
    ensures Slot(c, f) + c.frameSize <= size && c.frameSize <= c.stride
  {
    AlignUp64Rounds(c.frameSize);
    MulGap(f % c.slots, c.slots, c.stride);
  }

  /** Frames fewer than `slots` apart use disjoint slots. */
  lemma SlotsApart(c: Config, f: nat, g: nat)
    requires c.Valid() && f < g < f + c.slots
    ensures Slot(c, f) + c.frameSize <= Slot(c, g) || Slot(c, g) + c.frameSize <= Slot(c, f)
  {
    AlignUp64Rounds(c.frameSize);
    ModDistinct(f, g, c.slots);
    MultiplesApart(f % c.slots, g % c.slots, c.stride);
  }

  lemma MultiplesApart(a: nat, b: nat, d: nat)
    requires a != b
    ensures a * d + d <= b * d || b * d + d <= a * d
  {
    if a < b {
      MulGap(a, b, d);
    } else {
      MulGap(b, a, d);
    }
  }

  // ---- the inductive invariant ----

  /** The oldest frame whose slot is still whole: one less while the next frame is being stored. */
  function Oldest(c: Config, s: State): int {
    s.count - c.slots + if s.writer.Filling? then 1 else 0
  }

  ghost predicate SlotHolds(c: Config, mem: seq<Byte>, f: nat, frame: seq<Byte>) {
    Part(mem, Slot(c, f), c.frameSize) == frame
  }

  ghost predicate WriterInv(c: Config, s: State) {
    match s.writer
    case Resting => true
    case Entered(src) => s.count + 1 < U64
    case Filling(src, q, p) =>
      && q == s.count && q + 1 < U64 && p <= c.frameSize
      && Part(s.mem, Slot(c, q), p) == Fitted(src, c.frameSize)[..p]
  }

  ghost predicate ReaderInv(c: Config, reader: Reader, count: nat, frames: seq<seq<Byte>>) {
    match reader
    case Free => true
    case Asked(buf) => true
    case Copying(buf, s0, out, p) => 0 < s0 <= count == |frames| && CopyInv(c, buf, out, p, frames[s0 - 1], count - s0)
  }

  /** What a copy in progress has, if at most `slots - 2` frames were published since it started. */
  ghost predicate CopyInv(c: Config, buf: seq<Byte>, out: seq<Byte>, p: nat, frame: seq<Byte>, lag: nat) {
    && p <= Length(c, buf) && |out| == |buf| && out[p..] == buf[p..] && |frame| == c.frameSize
    && (c.slots >= 2 && lag <= c.slots - 2 ==> out[..p] == frame[..p])
  }

  /** A finished read says what it should: an accepted one is the numbered frame, byte for byte. */
  ghost predicate GoodResult(c: Config, r: Result, frames: seq<seq<Byte>>) {
    match r
    case NoFrame => true
    case Torn(s0, s1) => s0 <= s1 && s1 - s0 > SaturatingSub(c.slots, 2)
    case Frame(number, out, buf, s0, s1) =>
      && number + 1 == s0 <= s1 <= |frames| && s1 - s0 <= SaturatingSub(c.slots, 2)
      && |frames[number]| == c.frameSize
      && (c.slots >= 2 ==> out == frames[number][..Length(c, buf)] + buf[Length(c, buf)..])
  }

  ghost predicate Inv(c: Config, s: State) {
    && Fits(c, s.mem) && |s.frames| == s.count < U64
    && (forall f :: 0 <= f < |s.frames| ==> |s.frames[f]| == c.frameSize)
    && (forall f :: 0 <= f < |s.frames| && Oldest(c, s) <= f ==> SlotHolds(c, s.mem, f, s.frames[f]))
    && WriterInv(c, s)
    && ReaderInv(c, s.reader, s.count, s.frames)
    && (forall i :: 0 <= i < |s.results| ==> GoodResult(c, s.results[i], s.frames))
  }

  /** A store into the slot being filled completes one more piece of the frame. */
  lemma FillGrows(mem: seq<Byte>, base: nat, p: nat, b: seq<Byte>, f: seq<Byte>)
    requires base + p + |b| <= |mem| && p + |b| <= |f|
    requires Part(mem, base, p) == f[..p] && b == f[p..p + |b|]
    ensures Part(Splice(mem, base + p, b), base, p + |b|) == f[..p + |b|]
  {
    var at := base + p;
    SpliceExtends(mem, at, b);
    assert Part(Splice(mem, at, b), base, p + |b|) == Splice(mem, at, b)[..at + |b|][base..];
    assert (mem[..at] + b)[base..] == mem[base..at] + b;
    PrefixGrows(f, p, b);
  }

  /** Storing inside the slot of frame `q` leaves the slots of the last `slots - 1` frames alone. */
  lemma SlotUntouched(c: Config, mem: seq<Byte>, q: nat, p: nat, b: seq<Byte>, g: nat, frame: seq<Byte>)
    requires Fits(c, mem) && g < q < g + c.slots && p + |b| <= c.frameSize
    requires SlotHolds(c, mem, g, frame)
    ensures SlotHolds(c, Splice(mem, Slot(c, q) + p, b), g, frame)
  {
    SlotsApart(c, g, q);
    SlotInBounds(c, g, |mem|);
    SlotInBounds(c, q, |mem|);
    SpliceElsewhere(mem, Slot(c, q) + p, b, Slot(c, g), c.frameSize);
  }

  /** Storing the next piece keeps the filled part a prefix of the frame. */
  lemma StoreChunk(c: Config, mem: seq<Byte>, src: seq<Byte>, q: nat, p: nat)
    requires Fits(c, mem) && p < c.frameSize && Part(mem, Slot(c, q), p) == Fitted(src, c.frameSize)[..p]
    ensures var b := Chunk(c, src, p);
      && |b| == Width(c.frameSize, p)
      && Part(Splice(mem, Slot(c, q) + p, b), Slot(c, q), p + |b|) == Fitted(src, c.frameSize)[..p + |b|]
  {
    SlotInBounds(c, q, |mem|);
    FillGrows(mem, Slot(c, q), p, Chunk(c, src, p), Fitted(src, c.frameSize));
  }

  lemma FillingKeeps(c: Config, s: State)
    requires Inv(c, s) && s.writer.Filling? && s.writer.p < c.frameSize
    ensures Inv(c, WriteStep(c, s))
  {
    var Filling(src, q, p) := s.writer;
    var b := Chunk(c, src, p);
    var mem' := Splice(s.mem, Slot(c, q) + p, b);
    StoreChunk(c, s.mem, src, q, p);
    assert WriteStep(c, s) == s.(mem := mem', writer := Filling(src, q, p + |b|));
    forall g | 0 <= g < |s.frames| && Oldest(c, s) <= g
      ensures SlotHolds(c, mem', g, s.frames[g])
    {
      SlotUntouched(c, s.mem, q, p, b, g, s.frames[g]);
    }
  }

  lemma SpliceElsewhere(s: seq<Byte>, i: nat, b: seq<Byte>, j: nat, n: nat)
    requires i + |b| <= |s| && j + n <= |s| && (j + n <= i || i + |b| <= j)
    ensures Part(Splice(s, i, b), j, n) == Part(s, j, n)
  {
    var t := Splice(s, i, b);
    forall k | j <= k < j + n
      ensures t[k] == s[k]
    {
      if k < i {
        assert t[k] == s[..i][k];
      } else {
        assert t[k] == s[i + |b|..][k - i - |b|];
      }
    }
  }

  lemma ResultsStay(c: Config, r: Result, frames: seq<seq<Byte>>, frame: seq<Byte>)
    requires GoodResult(c, r, frames)
    ensures GoodResult(c, r, frames + [frame])
  {
  }

  lemma WriteKeeps(c: Config, s: State)
    requires Inv(c, s)
    ensures Inv(c, WriteStep(c, s))
  {
    match s.writer
    case Resting =>
    case Entered(src) =>
    case Filling(src, q, p) =>
      if p < c.frameSize {
        FillingKeeps(c, s);
      } else {
        PublishKeeps(c, s);
      }
  }

  lemma ReaderStays(c: Config, reader: Reader, count: nat, frames: seq<seq<Byte>>, frame: seq<Byte>)
    requires ReaderInv(c, reader, count, frames) && |frames| == count
    ensures ReaderInv(c, reader, count + 1, frames + [frame])
  {
  }

  lemma PublishKeeps(c: Config, s: State)
    requires Inv(c, s) && s.writer.Filling? && s.writer.p >= c.frameSize
    ensures Inv(c, WriteStep(c, s))
  {
    var Filling(src, q, p) := s.writer;
    var s', frame := WriteStep(c, s), Fitted(src, c.frameSize);
    ReaderStays(c, s.reader, s.count, s.frames, frame);
    assert SlotHolds(c, s.mem, q, frame) by {
      assert frame[..c.frameSize] == frame;
    }
    forall i | 0 <= i < |s'.results|
      ensures GoodResult(c, s'.results[i], s'.frames)
    {
      ResultsStay(c, s.results[i], s.frames, frame);
    }
  }

  lemma PartOfPart(s: seq<Byte>, i: nat, n: nat, p: nat, w: nat)
    requires i + n <= |s| && p + w <= n
    ensures Part(s, i + p, w) == Part(s, i, n)[p..p + w]
  {
    var t := s[i..i + n];
    var u, v := t[p..p + w], s[i + p..i + p + w];
    forall k | 0 <= k < w
      ensures u[k] == v[k]
    {
      assert u[k] == t[p + k] == s[i + p + k];
    }
  }

  lemma SpliceExtends(s: seq<Byte>, p: nat, b: seq<Byte>)
    requires p + |b| <= |s|
    ensures Splice(s, p, b)[..p + |b|] == s[..p] + b && Splice(s, p, b)[p + |b|..] == s[p + |b|..]
  {
    var q := p + |b|;
    var front, back := s[..p] + b, s[q..];
    assert Splice(s, p, b) == front + back;
    assert (front + back)[..q] == front && (front + back)[q..] == back;
  }

  lemma CopyGoesOn(c: Config, buf: seq<Byte>, out: seq<Byte>, p: nat, b: seq<Byte>, frame: seq<Byte>, lag: nat)
    requires CopyInv(c, buf, out, p, frame, lag) && p + |b| <= Length(c, buf)
    requires c.slots >= 2 && lag <= c.slots - 2 ==> b == frame[p..p + |b|]
    ensures CopyInv(c, buf, Splice(out, p, b), p + |b|, frame, lag)
  {
    SpliceExtends(out, p, b);
    TailsAgree(out, buf, p, p + |b|);
    if c.slots >= 2 && lag <= c.slots - 2 {
      PrefixGrows(frame, p, b);
    }
  }

  lemma TailsAgree(out: seq<Byte>, buf: seq<Byte>, p: nat, q: nat)
    requires |out| == |buf| && p <= q <= |out| && out[p..] == buf[p..]
    ensures out[q..] == buf[q..]
  {
    assert out[q..] == out[p..][q - p..] && buf[q..] == buf[p..][q - p..];
  }

  lemma PrefixGrows(f: seq<Byte>, p: nat, b: seq<Byte>)
    requires p + |b| <= |f| && b == f[p..p + |b|]
    ensures f[..p + |b|] == f[..p] + b
  {
  }

  /** A load inside a whole slot finds that piece of its frame. */
  lemma LoadChunk(c: Config, mem: seq<Byte>, f: nat, p: nat, w: nat, frame: seq<Byte>)
    requires Fits(c, mem) && p + w <= c.frameSize
    ensures |Part(mem, Slot(c, f) + p, w)| == w
    ensures |frame| == c.frameSize && SlotHolds(c, mem, f, frame) ==> Part(mem, Slot(c, f) + p, w) == frame[p..p + w]
  {
    SlotInBounds(c, f, |mem|);
    PartOfPart(mem, Slot(c, f), c.frameSize, p, w);
  }

  lemma FinishRead(c: Config, s: State)
    requires Inv(c, s) && s.reader.Copying? && s.reader.p >= Length(c, s.reader.buf)
    ensures GoodResult(c, Judge(c, s.reader.buf, s.reader.s0, s.reader.out, s.count), s.frames)
  {
    var Copying(buf, s0, out, p) := s.reader;
    assert WrappingSub(s.count, s0) == s.count - s0;
    assert out == out[..p] + out[p..];
  }

  /** One access of the reader, written out. */
  lemma ReadAccess(c: Config, s: State, buf: seq<Byte>, s0: nat, out: seq<Byte>, p: nat, b: seq<Byte>)
    requires s.reader == Copying(buf, s0, out, p) && s0 > 0 && p < Length(c, buf)
    requires b == Part(s.mem, Slot(c, s0 - 1) + p, Width(Length(c, buf), p)) && |b| == Width(Length(c, buf), p)
    ensures ReadStep(c, s) == s.(reader := Copying(buf, s0, Splice(out, p, b), p + |b|))
  {
  }

  lemma ReaderMoves(c: Config, s: State, k: Reader)
    requires Inv(c, s) && ReaderInv(c, k, s.count, s.frames)
    ensures Inv(c, s.(reader := k))
  {
  }

  lemma ReadingKeeps(c: Config, s: State)
    requires Inv(c, s) && s.reader.Copying? && s.reader.p < Length(c, s.reader.buf)
    ensures Inv(c, ReadStep(c, s))
  {
    var Copying(buf, s0, out, p) := s.reader;
    var w := Width(Length(c, buf), p);
    var b, frame := Part(s.mem, Slot(c, s0 - 1) + p, w), s.frames[s0 - 1];
    assert c.slots >= 2 && s.count - s0 <= c.slots - 2 ==> b == frame[p..p + w] by {
      if c.slots >= 2 && s.count - s0 <= c.slots - 2 {
        assert SlotHolds(c, s.mem, s0 - 1, frame);
        LoadChunk(c, s.mem, s0 - 1, p, w, frame);
      }
    }
    LoadChunk(c, s.mem, s0 - 1, p, w, frame);
    CopyGoesOn(c, buf, out, p, b, frame, s.count - s0);
    ReadAccess(c, s, buf, s0, out, p, b);
    ReaderMoves(c, s, Copying(buf, s0, Splice(out, p, b), p + |b|));
  }

  lemma ReadKeeps(c: Config, s: State)
    requires Inv(c, s)
    ensures Inv(c, ReadStep(c, s))
  {
    if s.reader.Copying? {
      if s.reader.p < Length(c, s.reader.buf) {
        ReadingKeeps(c, s);
      } else {
        FinishRead(c, s);
      }
    }
  }

  lemma NextKeeps(c: Config, s: State, a: Action)
    requires Inv(c, s)
    ensures Inv(c, Next(c, s, a))
  {
    match a
    case BeginPush(src) =>
    case Write => WriteKeeps(c, s);
    case BeginRead(buf) =>
    case Read => ReadKeeps(c, s);
  }

  lemma {:induction false} RunKeeps(c: Config, s: State, acts: seq<Action>)
    requires Inv(c, s)
    ensures Inv(c, RunFrom(c, s, acts))
  {
    if |acts| > 0 {
      var t := RunFrom(c, s, acts[..|acts| - 1]);
      RunKeeps(c, s, acts[..|acts| - 1]);
      NextKeeps(c, t, acts[|acts| - 1]);
    }
  }

  lemma ReachableInv(c: Config, s: State)
    requires Reachable(c, s)
    ensures Inv(c, s)
  {
    var mem: seq<Byte>, acts: seq<Action> :| Fits(c, mem) && s == RunFrom(c, Init(mem), acts);
    assert Inv(c, Init(mem));
    RunKeeps(c, Init(mem), acts);
  }

  /** `out` is the frame as far as the buffer reaches, and the buffer as it was past the frame. */
  predicate Delivers(c: Config, frame: seq<Byte>, buf: seq<Byte>, out: seq<Byte>) {
    && |frame| == c.frameSize
    && out == if |buf| <= c.frameSize then frame[..|buf|] else frame + buf[c.frameSize..]
  }

  lemma CopiedDelivers(c: Config, frame: seq<Byte>, buf: seq<Byte>, out: seq<Byte>)
    requires |frame| == c.frameSize && out == frame[..Length(c, buf)] + buf[Length(c, buf)..]
    ensures Delivers(c, frame, buf, out)
  {
    assert frame[..c.frameSize] == frame;
    assert |buf| <= c.frameSize ==> buf[|buf|..] == [];
  }

  /**
   Tear-safety: with at least two slots, in every interleaving of word and byte accesses, an
   accepted read is exactly the frame it names, cut or zero-padded to the slot as it was pushed,
   as far as the buffer reaches, and the rest of the buffer is untouched.
   */
  lemma TearSafe(c: Config, s: State, i: nat)
    requires Reachable(c, s) && c.slots >= 2 && i < |s.results| && s.results[i].Frame?
    ensures var Frame(number, out, buf, s0, s1) := s.results[i];
      number < |s.frames| && Delivers(c, s.frames[number], buf, out)
  {
    ReachableInv(c, s);
    assert GoodResult(c, s.results[i], s.frames);
    var Frame(number, out, buf, s0, s1) := s.results[i];
    CopiedDelivers(c, s.frames[number], buf, out);
  }

  /** A copy is dropped only if the writer published more than `slots - 2` frames during it. */
  lemma DroppedOnlyWhenLapped(c: Config, s: State, i: nat)
    requires Reachable(c, s) && i < |s.results|
    ensures s.results[i].Torn? ==> s.results[i].s1 - s.results[i].s0 > SaturatingSub(c.slots, 2)
    ensures s.results[i].Frame? ==> s.results[i].s1 - s.results[i].s0 <= SaturatingSub(c.slots, 2)
    ensures s.results[i].Frame? ==> s.results[i].number + 1 == s.results[i].s0
  {
    ReachableInv(c, s);
    assert GoodResult(c, s.results[i], s.frames);
  }

  // ---- publications during a copy ----

  /** The store of the count that ends a push. */
  predicate Publishes(c: Config, s: State, a: Action) {
    a.Write? && s.writer.Filling? && s.writer.p >= c.frameSize
  }

  /** How many frames are published during a run. */
  function Publications(c: Config, s: State, acts: seq<Action>): nat {
    if |acts| == 0 then 0
    else
      var before, a := acts[..|acts| - 1], acts[|acts| - 1];
      Publications(c, s, before) + if Publishes(c, RunFrom(c, s, before), a) then 1 else 0
  }

  lemma StepCounts(c: Config, s: State, a: Action)
    requires WriterInv(c, s)
    ensures Next(c, s, a).count == s.count + if Publishes(c, s, a) then 1 else 0
  {
  }

  /** `frame_seq` counts the publications. */
  lemma {:induction false} CountsPublications(c: Config, s: State, acts: seq<Action>)
    requires Inv(c, s)
    ensures Inv(c, RunFrom(c, s, acts)) && RunFrom(c, s, acts).count == s.count + Publications(c, s, acts)
  {
    if |acts| > 0 {
      var t := RunFrom(c, s, acts[..|acts| - 1]);
      CountsPublications(c, s, acts[..|acts| - 1]);
      StepCounts(c, t, acts[|acts| - 1]);
      NextKeeps(c, t, acts[|acts| - 1]);
    }
  }

  /** The copy in progress in `s` is still in progress in `t`, or has ended and left a result. */
  ghost predicate SameCopy(s: State, t: State)
    requires s.reader.Copying?
  {
    && s.results <= t.results
    && (t.results == s.results ==>
          t.reader.Copying? && t.reader.buf == s.reader.buf && t.reader.s0 == s.reader.s0)
  }

  lemma CopyPersists(c: Config, s: State, t: State, a: Action)
    requires s.reader.Copying? && SameCopy(s, t)
    ensures SameCopy(s, Next(c, t, a))
  {
  }

  lemma {:induction false} CopyRuns(c: Config, s: State, acts: seq<Action>)
    requires s.reader.Copying?
    ensures SameCopy(s, RunFrom(c, s, acts))
  {
    if |acts| > 0 {
      CopyRuns(c, s, acts[..|acts| - 1]);
      CopyPersists(c, s, RunFrom(c, s, acts[..|acts| - 1]), acts[|acts| - 1]);
    }
  }

  /** The load of `frame_seq` that starts a copy. */
  lemma CopyBegins(c: Config, s: State)
    requires Inv(c, s) && s.reader.Asked? && s.count > 0
    ensures Inv(c, Next(c, s, Read))
    ensures Next(c, s, Read) == s.(reader := Copying(s.reader.buf, s.count, s.reader.buf, 0))
  {
    ReadKeeps(c, s);
  }

  /** The load of `frame_seq` that ends it. */
  lemma CopyJudged(c: Config, t: State, lag: nat)
    requires Inv(c, t) && t.reader.Copying? && t.reader.p >= Length(c, t.reader.buf) && t.count == t.reader.s0 + lag
    ensures var Copying(buf, s0, out, p) := t.reader;
      Next(c, t, Read).results == t.results
        + [if lag <= SaturatingSub(c.slots, 2) then Frame(s0 - 1, out, buf, s0, t.count) else Torn(s0, t.count)]
  {
    assert WrappingSub(t.count, t.reader.s0) == lag;
  }

  /**
   A copy interleaved with the writer in any way, from its load of `frame_seq` to the last byte, is
   accepted exactly when at most `slots - 2` frames, or none, were published in between; otherwise it
   is torn.
   */
  lemma AcceptedIff(c: Config, s: State, first: State, acts: seq<Action>, t: State)
    requires Inv(c, s) && s.reader.Asked? && s.count > 0 && first == Next(c, s, Read)
    requires t == RunFrom(c, first, acts) && t.results == s.results
    requires t.reader.Copying? && t.reader.p >= Length(c, t.reader.buf)
    ensures var n := s.count;
      Next(c, t, Read).results == s.results
        + [if Publications(c, first, acts) == 0 || Publications(c, first, acts) + 2 <= c.slots
           then Frame(n - 1, t.reader.out, s.reader.buf, n, t.count)
           else Torn(n, t.count)]
  {
    CopyBegins(c, s);
    CopyRuns(c, first, acts);
    CountsPublications(c, first, acts);
    CopyJudged(c, t, Publications(c, first, acts));
  }
}
