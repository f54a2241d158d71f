/**
 Publication gates: one side stores a record cell by cell and its gate last; any number of readers
 load the gate first and the other cells only if it shows the record is published. The memory
 model is that of `AudioSteps`: stores become visible in program order.
 */
module Gates {
  import opened Wrappers
  import opened Words
  import A = AudioBuffer
  import B = VideoBuffer
  import L = Layout

  // ---- the machine ----

  /** The header cells of both regions. */
  datatype Cell =
    | Magic | Version | HeaderSize | Capacity | SampleRate | Channels | Format | FrameBytes | Head | Tail | SeqNo
    | VMagic | VVersion | VHeaderSize | Width | Height | Stride | FourCC | FrameSize | SlotCount | FrameSeq

  datatype Store = Store(cell: Cell, value: nat)

  /** What the gate must show: a fixed value, or anything but 0. */
  datatype Pass = Equals(value: nat) | NonZero

  /** The publisher's stores in order, the gate last; a reader's loads in order, the gate first. */
  datatype Protocol = Protocol(stores: seq<Store>, loads: seq<Cell>, pass: Pass)

  predicate Passes(pass: Pass, v: nat) {
    match pass
    case Equals(value) => v == value
    case NonZero => v != 0
  }

  /** The cells hold arbitrary values until stored. */
  type Memory = Cell -> nat

  /** Values loaded so far; a reader whose gate load failed starts again. */
  datatype State = State(mem: Memory, done: nat, readers: seq<seq<nat>>)

  datatype Action = Publish | Load(reader: nat)

  function Put(mem: Memory, cell: Cell, value: nat): Memory {
    (c: Cell) => if c == cell then value else mem(c)
  }

  function Next(p: Protocol, s: State, a: Action): State {
    match a
    case Publish =>
      if s.done < |p.stores|
      then s.(mem := Put(s.mem, p.stores[s.done].cell, p.stores[s.done].value), done := s.done + 1)
      else s
    case Load(r) =>
      if r < |s.readers| && |s.readers[r]| < |p.loads| then
        var v := s.mem(p.loads[|s.readers[r]|]);
        if s.readers[r] == [] && !Passes(p.pass, v) then s
        else s.(readers := s.readers[r := s.readers[r] + [v]])
      else s
  }

  function Init(mem: Memory, n: nat): State {
    State(mem, 0, seq(n, i => []))
  }

  function Run(p: Protocol, mem: Memory, n: nat, acts: seq<Action>): State {
    if |acts| == 0 then Init(mem, n) else Next(p, Run(p, mem, n, acts[..|acts| - 1]), acts[|acts| - 1])
  }

  // ---- the theorem ----

  /** Each cell is stored once, the gate last; the first load is the gate, and every loaded cell is stored. */
  ghost predicate WellFormed(p: Protocol) {
    && |p.stores| > 0 && |p.loads| > 0
    && StoredOnce(p.stores)
    && p.loads[0] == p.stores[|p.stores| - 1].cell
    && (forall k :: 0 <= k < |p.loads| ==> exists i :: 0 <= i < |p.stores| && p.stores[i].cell == p.loads[k])
  }

  ghost predicate StoredOnce(stores: seq<Store>) {
    forall i, j :: 0 <= i < j < |stores| ==> stores[i].cell != stores[j].cell
  }

  /** `v` is the value published for `cell`. */
  ghost predicate Published(p: Protocol, cell: Cell, v: nat) {
    exists i :: 0 <= i < |p.stores| && p.stores[i] == Store(cell, v)
  }

  ghost predicate GotPublished(p: Protocol, got: seq<nat>) {
    |got| <= |p.loads| && forall k :: 0 <= k < |got| ==> Published(p, p.loads[k], got[k])
  }

  ghost predicate Inv(p: Protocol, s: State) {
    && s.done <= |p.stores|
    && (forall i :: 0 <= i < s.done ==> s.mem(p.stores[i].cell) == p.stores[i].value)
    && (s.done < |p.stores| && |p.loads| > 0 ==> !Passes(p.pass, s.mem(p.loads[0])))
    && (forall r :: 0 <= r < |s.readers| ==> GotPublished(p, s.readers[r]))
    && (forall r :: 0 <= r < |s.readers| && s.readers[r] != [] ==> s.done == |p.stores|)
  }

  lemma PublishKeeps(p: Protocol, s: State)
    requires WellFormed(p) && Inv(p, s)
    ensures Inv(p, Next(p, s, Publish))
  {
  }

  lemma LoadKeeps(p: Protocol, s: State, r: nat)
    requires WellFormed(p) && Inv(p, s)
    ensures Inv(p, Next(p, s, Load(r)))
  {
    var s' := Next(p, s, Load(r));
    if s' != s {
      var k := |s.readers[r]|;
      var v := s.mem(p.loads[k]);
      assert s.done == |p.stores|;
      var i :| 0 <= i < |p.stores| && p.stores[i].cell == p.loads[k];
      assert p.stores[i] == Store(p.loads[k], v);
      assert GotPublished(p, s.readers[r]);
      assert GotPublished(p, s'.readers[r]);
      forall q | 0 <= q < |s'.readers|
        ensures GotPublished(p, s'.readers[q])
      {
        if q != r {
          assert s'.readers[q] == s.readers[q];
        }
      }
    }
  }

  /**
   Gate safety: in every interleaving of one publication with any number of readers, everything a
   reader has loaded is the published value of that cell.
   */
  lemma {:induction false} GateSafe(p: Protocol, mem: Memory, n: nat, acts: seq<Action>)
    requires WellFormed(p) && !Passes(p.pass, mem(p.loads[0]))
    ensures Inv(p, Run(p, mem, n, acts))
  {
    if |acts| > 0 {
      var before, a := acts[..|acts| - 1], acts[|acts| - 1];
      GateSafe(p, mem, n, before);
      match a
      case Publish => PublishKeeps(p, Run(p, mem, n, before));
      case Load(r) => LoadKeeps(p, Run(p, mem, n, before), r);
    }
  }

  /** The `k`-th load of a reader found what the `i`-th store, to the same cell, stored. */
  lemma LoadedValue(p: Protocol, s: State, r: nat, k: nat, i: nat)
    requires WellFormed(p) && Inv(p, s)
    requires r < |s.readers| && k < |s.readers[r]| && k < |p.loads| && i < |p.stores| && p.stores[i].cell == p.loads[k]
    ensures s.readers[r][k] == p.stores[i].value
  {
    assert GotPublished(p, s.readers[r]);
    var j :| 0 <= j < |p.stores| && p.stores[j] == Store(p.loads[k], s.readers[r][k]);
    assert i == j;
  }

  // ---- progress ----

  function PublishSteps(acts: seq<Action>): nat {
    if |acts| == 0 then 0 else PublishSteps(acts[..|acts| - 1]) + if acts[|acts| - 1].Publish? then 1 else 0
  }

  function LoadSteps(acts: seq<Action>, r: nat): nat {
    if |acts| == 0 then 0 else LoadSteps(acts[..|acts| - 1], r) + if acts[|acts| - 1] == Load(r) then 1 else 0
  }

  lemma {:induction false} PublishAdvances(p: Protocol, mem: Memory, n: nat, acts: seq<Action>)
    ensures var s := Run(p, mem, n, acts);
      |s.readers| == n && s.done <= |p.stores| && Min(PublishSteps(acts), |p.stores|) <= s.done
  {
    if |acts| > 0 {
      PublishAdvances(p, mem, n, acts[..|acts| - 1]);
    }
  }

  /** Once the publication is complete each load of a reader, the gate included, succeeds. */
  lemma LoadAdvances(p: Protocol, s: State, a: Action, r: nat, k: nat)
    requires WellFormed(p) && Inv(p, s) && s.done == |p.stores| && Passes(p.pass, p.stores[|p.stores| - 1].value)
    requires r < |s.readers| && Min(k, |p.loads|) <= |s.readers[r]|
    ensures Next(p, s, a).done == |p.stores|
    ensures Min(k + if a == Load(r) then 1 else 0, |p.loads|) <= |Next(p, s, a).readers[r]|
  {
    assert s.mem(p.stores[|p.stores| - 1].cell) == p.stores[|p.stores| - 1].value;
  }

  lemma {:induction false} LoadsAdvance(p: Protocol, mem: Memory, n: nat,
                                        before: seq<Action>, after: seq<Action>, r: nat)
    requires WellFormed(p) && !Passes(p.pass, mem(p.loads[0])) && Passes(p.pass, p.stores[|p.stores| - 1].value)
    requires r < n && PublishSteps(before) >= |p.stores|
    ensures var s := Run(p, mem, n, before + after);
      |s.readers| == n && s.done == |p.stores| && Min(LoadSteps(after, r), |p.loads|) <= |s.readers[r]|
    decreases |after|
  {
    if |after| == 0 {
      assert before + after == before;
      PublishAdvances(p, mem, n, before);
    } else {
      var rest, a := after[..|after| - 1], after[|after| - 1];
      LoadsAdvance(p, mem, n, before, rest, r);
      assert (before + after)[..|before + after| - 1] == before + rest;
      GateSafe(p, mem, n, before + rest);
      LoadAdvances(p, Run(p, mem, n, before + rest), a, r, LoadSteps(rest, r));
      PublishAdvances(p, mem, n, before + after);
    }
  }

  /**
   Gate progress: after a complete publication, as many loads by a reader as its protocol has leave
   it with every guarded cell, whatever the other readers did before or do in between.
   */
  lemma ReaderFinishes(p: Protocol, mem: Memory, n: nat, before: seq<Action>, after: seq<Action>, r: nat)
    requires WellFormed(p) && !Passes(p.pass, mem(p.loads[0])) && Passes(p.pass, p.stores[|p.stores| - 1].value)
    requires r < n && PublishSteps(before) >= |p.stores| && LoadSteps(after, r) >= |p.loads|
    ensures var s := Run(p, mem, n, before + after);
      r < |s.readers| && |s.readers[r]| == |p.loads| && GotPublished(p, s.readers[r])
  {
    LoadsAdvance(p, mem, n, before, after, r);
    GateSafe(p, mem, n, before + after);
    assert GotPublished(p, Run(p, mem, n, before + after).readers[r]);
  }

  // ---- init / attach ----

  function InitProtocol(cap: nat): Protocol {
    Protocol(
      [Store(HeaderSize, A.SHM_HEADER_SIZE), Store(Capacity, cap),
       Store(SampleRate, 0), Store(Channels, 0), Store(Format, 0), Store(FrameBytes, 0),
       Store(Head, 0), Store(Tail, 0), Store(SeqNo, 0), Store(Version, A.SHM_VERSION), Store(Magic, A.SHM_MAGIC)],
      [Magic, Version, HeaderSize, Capacity], Equals(A.SHM_MAGIC))
  }

  lemma InitWellFormed(cap: nat)
    ensures WellFormed(InitProtocol(cap))
  {
    var p := InitProtocol(cap);
    assert p.stores[10].cell == p.loads[0] && p.stores[9].cell == p.loads[1];
    assert p.stores[0].cell == p.loads[2] && p.stores[1].cell == p.loads[3];
  }

  /** `attach` after its four loads. */
  function DecodeAttach(totalSize: nat, got: seq<nat>): Result<nat, A.AttachError>
    requires |got| == 4
  {
    if totalSize <= A.SHM_HEADER_SIZE then Err(A.RegionTooSmall)
    else if got[0] != A.SHM_MAGIC then Err(A.BadMagic)
    else if got[1] != A.SHM_VERSION then Err(A.VersionMismatch)
    else if got[2] != A.SHM_HEADER_SIZE then Err(A.HeaderSizeMismatch)
    else if got[3] == 0 || !IsPowerOfTwo(got[3]) || got[3] > totalSize - A.SHM_HEADER_SIZE then Err(A.BadCapacity)
    else Ok(got[3])
  }

  /** `attach` succeeds exactly when every check holds, with the capacity it loaded. */
  lemma DecodeAttachIff(totalSize: nat, got: seq<nat>)
    requires |got| == 4
    ensures DecodeAttach(totalSize, got).Ok? <==> (
      && totalSize > A.SHM_HEADER_SIZE
      && got[0] == A.SHM_MAGIC && got[1] == A.SHM_VERSION && got[2] == A.SHM_HEADER_SIZE
      && IsPowerOfTwo(got[3]) && got[3] <= totalSize - A.SHM_HEADER_SIZE)
    ensures DecodeAttach(totalSize, got).Ok? ==> DecodeAttach(totalSize, got).value == got[3]
  {
  }

  /** However `attach` interleaves with `init`, once it has passed the magic it succeeds with the host's capacity. */
  lemma AttachYieldsCapacity(totalSize: nat, cap: nat, mem: Memory, n: nat, acts: seq<Action>, r: nat)
    requires A.SHM_HEADER_SIZE < totalSize && IsPowerOfTwo(cap) && cap <= totalSize - A.SHM_HEADER_SIZE
    requires mem(Magic) != A.SHM_MAGIC
    requires var s := Run(InitProtocol(cap), mem, n, acts); r < |s.readers| && |s.readers[r]| == 4
    ensures DecodeAttach(totalSize, Run(InitProtocol(cap), mem, n, acts).readers[r]) == Ok(cap)
  {
    var p, s := InitProtocol(cap), Run(InitProtocol(cap), mem, n, acts);
    InitWellFormed(cap);
    GateSafe(p, mem, n, acts);
    LoadedValue(p, s, r, 0, 10);
    LoadedValue(p, s, r, 1, 9);
    LoadedValue(p, s, r, 2, 0);
    LoadedValue(p, s, r, 3, 1);
  }

  /** After `init`, an `attach` that makes its four loads returns the host's capacity. */
  lemma AttachSucceeds(totalSize: nat, cap: nat, mem: Memory, n: nat, before: seq<Action>, after: seq<Action>, r: nat)
    requires A.SHM_HEADER_SIZE < totalSize && IsPowerOfTwo(cap) && cap <= totalSize - A.SHM_HEADER_SIZE
    requires mem(Magic) != A.SHM_MAGIC && r < n && PublishSteps(before) >= 11 && LoadSteps(after, r) >= 4
    ensures var s := Run(InitProtocol(cap), mem, n, before + after);
      r < |s.readers| && |s.readers[r]| == 4 && DecodeAttach(totalSize, s.readers[r]) == Ok(cap)
  {
    InitWellFormed(cap);
    ReaderFinishes(InitProtocol(cap), mem, n, before, after, r);
    AttachYieldsCapacity(totalSize, cap, mem, n, before + after, r);
  }

  lemma Stored(p: Protocol, s: State, i: nat, cell: Cell, value: nat)
    requires s.done == |p.stores| && Inv(p, s) && i < |p.stores| && p.stores[i] == Store(cell, value)
    ensures s.mem(cell) == value
  {
  }

  lemma LeavesCounters(cap: nat, s: State)
    requires Inv(InitProtocol(cap), s) && s.done == |InitProtocol(cap).stores|
    ensures s.mem(Head) == s.mem(Tail) == s.mem(SeqNo) == 0
  {
    Stored(InitProtocol(cap), s, 6, Head, 0);
    Stored(InitProtocol(cap), s, 7, Tail, 0);
    Stored(InitProtocol(cap), s, 8, SeqNo, 0);
  }

  lemma LeavesConfig(cap: nat, s: State)
    requires Inv(InitProtocol(cap), s) && s.done == |InitProtocol(cap).stores|
    ensures s.mem(Capacity) == cap
    ensures s.mem(FrameBytes) == s.mem(SampleRate) == s.mem(Channels) == s.mem(Format) == 0
  {
    Stored(InitProtocol(cap), s, 1, Capacity, cap);
    Stored(InitProtocol(cap), s, 2, SampleRate, 0);
    Stored(InitProtocol(cap), s, 3, Channels, 0);
    Stored(InitProtocol(cap), s, 4, Format, 0);
    Stored(InitProtocol(cap), s, 5, FrameBytes, 0);
  }

  /** Whoever has passed the magic finds the ring empty and the format unset, until something is stored over them. */
  lemma AttachedRingIsEmpty(cap: nat, mem: Memory, n: nat, acts: seq<Action>, r: nat)
    requires mem(Magic) != A.SHM_MAGIC
    requires var s := Run(InitProtocol(cap), mem, n, acts); r < |s.readers| && s.readers[r] != []
    ensures var m := Run(InitProtocol(cap), mem, n, acts).mem;
      && m(Head) == m(Tail) == m(SeqNo) == 0 && m(Capacity) == cap
      && m(FrameBytes) == m(SampleRate) == m(Channels) == m(Format) == 0
  {
    var p, s := InitProtocol(cap), Run(InitProtocol(cap), mem, n, acts);
    InitWellFormed(cap);
    GateSafe(p, mem, n, acts);
    LeavesCounters(cap, s);
    LeavesConfig(cap, s);
  }

  function VideoInitProtocol(): Protocol {
    Protocol(
      [Store(VHeaderSize, L.VIDEO_HEADER),
       Store(Width, 0), Store(Height, 0), Store(Stride, 0), Store(FourCC, 0), Store(SlotCount, 0),
       Store(FrameSeq, 0), Store(FrameSize, 0), Store(VVersion, B.VIDEO_VERSION), Store(VMagic, B.VIDEO_MAGIC)],
      [VMagic, VVersion, VHeaderSize], Equals(B.VIDEO_MAGIC))
  }

  /** The place of a cell among the stores of the video `init`. */
  function VideoPlace(cell: Cell): nat {
    match cell
    case VHeaderSize => 0
    case Width => 1
    case Height => 2
    case Stride => 3
    case FourCC => 4
    case SlotCount => 5
    case FrameSeq => 6
    case FrameSize => 7
    case VVersion => 8
    case _ => 9
  }

  lemma VideoStoredOnce()
    ensures StoredOnce(VideoInitProtocol().stores)
  {
    var stores := VideoInitProtocol().stores;
    forall i | 0 <= i < |stores|
      ensures VideoPlace(stores[i].cell) == i
    {
    }
  }

  lemma VideoInitWellFormed()
    ensures WellFormed(VideoInitProtocol())
  {
    VideoStoredOnce();
    var p := VideoInitProtocol();
    assert p.stores[9].cell == p.loads[0] && p.stores[8].cell == p.loads[1] && p.stores[0].cell == p.loads[2];
  }

  /** The video `attach` passes its version and header checks once it has passed the magic. */
  lemma VideoAttachSucceeds(mem: Memory, n: nat, acts: seq<Action>, r: nat)
    requires mem(VMagic) != B.VIDEO_MAGIC
    requires var s := Run(VideoInitProtocol(), mem, n, acts); r < |s.readers| && |s.readers[r]| == 3
    ensures Run(VideoInitProtocol(), mem, n, acts).readers[r] == [B.VIDEO_MAGIC, B.VIDEO_VERSION, L.VIDEO_HEADER]
  {
    var p, s := VideoInitProtocol(), Run(VideoInitProtocol(), mem, n, acts);
    VideoInitWellFormed();
    GateSafe(p, mem, n, acts);
    LoadedValue(p, s, r, 0, 9);
    LoadedValue(p, s, r, 1, 8);
    LoadedValue(p, s, r, 2, 0);
  }

  /** Whoever has passed the video magic finds no geometry and no frame, until something is stored over them. */
  lemma AttachedVideoIsEmpty(mem: Memory, n: nat, acts: seq<Action>, r: nat)
    requires mem(VMagic) != B.VIDEO_MAGIC
    requires var s := Run(VideoInitProtocol(), mem, n, acts); r < |s.readers| && s.readers[r] != []
    ensures var m := Run(VideoInitProtocol(), mem, n, acts).mem;
      && m(FrameSize) == m(SlotCount) == m(FrameSeq) == 0
      && m(Width) == m(Height) == m(Stride) == m(FourCC) == 0
  {
    var p, s := VideoInitProtocol(), Run(VideoInitProtocol(), mem, n, acts);
    VideoInitWellFormed();
    GateSafe(p, mem, n, acts);
    VideoLeavesCounts(s);
    VideoLeavesFormat(s);
  }

  lemma VideoLeavesCounts(s: State)
    requires Inv(VideoInitProtocol(), s) && s.done == |VideoInitProtocol().stores|
    ensures s.mem(FrameSize) == s.mem(SlotCount) == s.mem(FrameSeq) == 0
  {
    Stored(VideoInitProtocol(), s, 5, SlotCount, 0);
    Stored(VideoInitProtocol(), s, 6, FrameSeq, 0);
    Stored(VideoInitProtocol(), s, 7, FrameSize, 0);
  }

  lemma VideoLeavesFormat(s: State)
    requires Inv(VideoInitProtocol(), s) && s.done == |VideoInitProtocol().stores|
    ensures s.mem(Width) == s.mem(Height) == s.mem(Stride) == s.mem(FourCC) == 0
  {
    Stored(VideoInitProtocol(), s, 1, Width, 0);
    Stored(VideoInitProtocol(), s, 2, Height, 0);
    Stored(VideoInitProtocol(), s, 3, Stride, 0);
    Stored(VideoInitProtocol(), s, 4, FourCC, 0);
  }

  /** After the video `init`, a video `attach` that makes its three loads passes its checks. */
  lemma VideoAttachCompletes(mem: Memory, n: nat, before: seq<Action>, after: seq<Action>, r: nat)
    requires mem(VMagic) != B.VIDEO_MAGIC && r < n && PublishSteps(before) >= 10 && LoadSteps(after, r) >= 3
    ensures var s := Run(VideoInitProtocol(), mem, n, before + after);
      r < |s.readers| && s.readers[r] == [B.VIDEO_MAGIC, B.VIDEO_VERSION, L.VIDEO_HEADER]
  {
    VideoInitWellFormed();
    ReaderFinishes(VideoInitProtocol(), mem, n, before, after, r);
    VideoAttachSucceeds(mem, n, before + after, r);
  }

  // ---- set_format / format ----

  function FormatProtocol(fmt: A.AudioFormat): Protocol {
    Protocol(
      [Store(SampleRate, fmt.sampleRate), Store(Channels, fmt.channels),
       Store(Format, A.ToU32(fmt.format)), Store(FrameBytes, fmt.frameBytes)],
      [FrameBytes, Format, SampleRate, Channels], NonZero)
  }

  lemma FormatWellFormed(fmt: A.AudioFormat)
    ensures WellFormed(FormatProtocol(fmt))
  {
    var p := FormatProtocol(fmt);
    assert p.stores[3].cell == p.loads[0] && p.stores[2].cell == p.loads[1];
    assert p.stores[0].cell == p.loads[2] && p.stores[1].cell == p.loads[3];
  }

  /** `format()` after its loads. */
  function DecodeFormat(got: seq<nat>): Option<A.AudioFormat>
    requires |got| == 4
  {
    if got[0] == 0 then None
    else
      match A.FromU32(got[1])
      case None => None
      case Some(f) => Some(A.AudioFormat(got[2], got[3], f, got[0]))
  }

  /** A consumer that sees the format gate set reads exactly the format the producer published. */
  lemma FormatYieldsPublished(fmt: A.AudioFormat, mem: Memory, n: nat, acts: seq<Action>, r: nat)
    requires mem(FrameBytes) == 0
    requires var s := Run(FormatProtocol(fmt), mem, n, acts); r < |s.readers| && |s.readers[r]| == 4
    ensures DecodeFormat(Run(FormatProtocol(fmt), mem, n, acts).readers[r])
         == if fmt.frameBytes == 0 then None else Some(fmt)
  {
    var p, s := FormatProtocol(fmt), Run(FormatProtocol(fmt), mem, n, acts);
    FormatWellFormed(fmt);
    GateSafe(p, mem, n, acts);
    LoadedValue(p, s, r, 0, 3);
    LoadedValue(p, s, r, 1, 2);
    LoadedValue(p, s, r, 2, 0);
    LoadedValue(p, s, r, 3, 1);
  }

  /** After `set_format`, a `format()` that makes its four loads returns the format. */
  lemma FormatIsSeen(fmt: A.AudioFormat, mem: Memory, n: nat, before: seq<Action>, after: seq<Action>, r: nat)
    requires mem(FrameBytes) == 0 && fmt.frameBytes > 0 && r < n
    requires PublishSteps(before) >= 4 && LoadSteps(after, r) >= 4
    ensures var s := Run(FormatProtocol(fmt), mem, n, before + after);
      r < |s.readers| && |s.readers[r]| == 4 && DecodeFormat(s.readers[r]) == Some(fmt)
  {
    FormatWellFormed(fmt);
    ReaderFinishes(FormatProtocol(fmt), mem, n, before, after, r);
    FormatYieldsPublished(fmt, mem, n, before + after, r);
  }

  // ---- set_geometry / refresh_geometry ----

  function GeometryProtocol(vf: B.VideoFormat, slots: nat): Protocol {
    Protocol(
      [Store(Width, vf.width), Store(Height, vf.height), Store(Stride, vf.stride), Store(FourCC, vf.fourcc),
       Store(SlotCount, slots), Store(FrameSeq, 0), Store(FrameSize, vf.frameSize)],
      [FrameSize, SlotCount, Width, Height, Stride, FourCC], NonZero)
  }

  lemma GeometryWellFormed(vf: B.VideoFormat, slots: nat)
    ensures WellFormed(GeometryProtocol(vf, slots))
  {
    var p := GeometryProtocol(vf, slots);
    assert p.stores[6].cell == p.loads[0] && p.stores[4].cell == p.loads[1] && p.stores[0].cell == p.loads[2];
    assert p.stores[1].cell == p.loads[3] && p.stores[2].cell == p.loads[4] && p.stores[3].cell == p.loads[5];
  }

  /** What `refresh_geometry` caches and returns. */
  datatype Geometry = Geometry(slots: nat, slotStride: nat, vf: B.VideoFormat)

  function DecodeGeometry(got: seq<nat>): Geometry
    requires |got| == 6 && got[0] < U32
  {
    Geometry(got[1], AlignUp64(got[0]), B.VideoFormat(got[2], got[3], got[4], got[5], got[0]))
  }

  lemma GeometryGateLoaded(vf: B.VideoFormat, slots: nat, s: State, r: nat)
    requires WellFormed(GeometryProtocol(vf, slots)) && Inv(GeometryProtocol(vf, slots), s)
    requires r < |s.readers| && |s.readers[r]| == 6
    ensures s.readers[r][0] == vf.frameSize && s.readers[r][1] == slots && s.readers[r][2] == vf.width
  {
    var p := GeometryProtocol(vf, slots);
    LoadedValue(p, s, r, 0, 6);
    LoadedValue(p, s, r, 1, 4);
    LoadedValue(p, s, r, 2, 0);
  }

  lemma GeometryRestLoaded(vf: B.VideoFormat, slots: nat, s: State, r: nat)
    requires WellFormed(GeometryProtocol(vf, slots)) && Inv(GeometryProtocol(vf, slots), s)
    requires r < |s.readers| && |s.readers[r]| == 6
    ensures s.readers[r][3] == vf.height && s.readers[r][4] == vf.stride && s.readers[r][5] == vf.fourcc
  {
    var p := GeometryProtocol(vf, slots);
    LoadedValue(p, s, r, 3, 1);
    LoadedValue(p, s, r, 4, 2);
    LoadedValue(p, s, r, 5, 3);
  }

  /** A reader that sees the geometry gate set gets the producer's format and computes its slot count and stride. */
  lemma GeometryYieldsPublished(regionLen: nat, vf: B.VideoFormat, mem: Memory, n: nat, acts: seq<Action>, r: nat)
    requires regionLen > L.VIDEO_HEADER && 0 < vf.frameSize < U32 && L.PublishedSlots(regionLen, vf.frameSize).Some?
    requires mem(FrameSize) == 0
    requires var s := Run(GeometryProtocol(vf, L.PublishedSlots(regionLen, vf.frameSize).value), mem, n, acts);
      r < |s.readers| && |s.readers[r]| == 6
    ensures var slots := L.PublishedSlots(regionLen, vf.frameSize).value;
      var got := Run(GeometryProtocol(vf, slots), mem, n, acts).readers[r];
      got[0] < U32 && DecodeGeometry(got) == Geometry(slots, AlignUp64(vf.frameSize), vf)
  {
    var slots := L.PublishedSlots(regionLen, vf.frameSize).value;
    var p, s := GeometryProtocol(vf, slots), Run(GeometryProtocol(vf, slots), mem, n, acts);
    GeometryWellFormed(vf, slots);
    GateSafe(p, mem, n, acts);
    GeometryGateLoaded(vf, slots, s, r);
    GeometryRestLoaded(vf, slots, s, r);
  }

  /** After `set_geometry`, a `refresh_geometry` that makes its six loads gets the producer's geometry. */
  lemma GeometryIsSeen(regionLen: nat, vf: B.VideoFormat, slots: nat, mem: Memory, n: nat,
                       before: seq<Action>, after: seq<Action>, r: nat)
    requires regionLen > L.VIDEO_HEADER && 0 < vf.frameSize < U32
    requires L.PublishedSlots(regionLen, vf.frameSize) == Some(slots) && mem(FrameSize) == 0 && r < n
    requires PublishSteps(before) >= 7 && LoadSteps(after, r) >= 6
    ensures var s := Run(GeometryProtocol(vf, slots), mem, n, before + after);
      && r < |s.readers| && |s.readers[r]| == 6 && s.readers[r][0] < U32
      && DecodeGeometry(s.readers[r]) == Geometry(slots, AlignUp64(vf.frameSize), vf)
  {
    GeometryWellFormed(vf, slots);
    ReaderFinishes(GeometryProtocol(vf, slots), mem, n, before, after, r);
    GeometryYieldsPublished(regionLen, vf, mem, n, before + after, r);
  }

  /** Whoever sees the geometry finds the frame count at 0, until a frame is pushed. */
  lemma GeometryStartsStream(vf: B.VideoFormat, slots: nat, mem: Memory, n: nat, acts: seq<Action>, r: nat)
    requires mem(FrameSize) == 0
    requires var s := Run(GeometryProtocol(vf, slots), mem, n, acts); r < |s.readers| && s.readers[r] != []
    ensures Run(GeometryProtocol(vf, slots), mem, n, acts).mem(FrameSeq) == 0
  {
    var p, s := GeometryProtocol(vf, slots), Run(GeometryProtocol(vf, slots), mem, n, acts);
    GeometryWellFormed(vf, slots);
    GateSafe(p, mem, n, acts);
    Stored(p, s, 5, FrameSeq, 0);
  }
}
