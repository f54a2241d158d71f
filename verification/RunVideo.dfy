/**
 The host's forwarding loop against a concurrent producer and a named pipe: the loop's own steps
 include every access of `read_frame`; the producer, the pipe's reader and the outcome of opening
 the FIFO are arbitrary. A write takes as many bytes as the pipe has room for.
 */
module RunVideo {
  import opened Words
  import opened VideoCopy
  import V = VideoSteps

  /** Where the loop is: the constructor says what it does next. */
  datatype Loop =
    | Start
    | Top
    | NewFrame(count: nat)
    | InRead(count: nat)
    | Resample(number: nat, bytes: seq<Byte>)
    | CheckRoom(number: nat, bytes: seq<Byte>)
    | WritePipe(number: nat, bytes: seq<Byte>)

  /** One connection: what was written to it, what the pipe still holds, and the frames written whole. */
  datatype Pipe = Pipe(size: nat, sent: seq<Byte>, queued: seq<Byte>, gone: bool, whole: seq<nat>)

  datatype State = State(
    ring: V.State, loop: Loop, buffer: seq<Byte>, lastCount: nat,
    open: bool, pipe: Pipe, closed: seq<Pipe>, forwarded: seq<nat>, dropped: nat)

  /** `opens` and `size` say whether a FIFO reader is there and how large its pipe is, if the loop tries to open it. */
  datatype Action =
    | Producer(push: V.Action)
    | Host(opens: bool, size: nat)
    | Drain(n: nat)
    | ReaderLeaves

  // ---- steps ----

  /** The end of `read_frame`: its result, seen when the reader is done. */
  function AfterRead(s: State, ring': V.State, count: nat, out: seq<Byte>): State {
    if ring'.reader.Free? && |ring'.results| > 0 then
      match ring'.results[|ring'.results| - 1]
      case Frame(number, bytes, _, _, _) => s.(ring := ring', buffer := bytes, loop := Resample(number, bytes))
      case _ => s.(ring := ring', buffer := out, lastCount := count, loop := Top)
    else s.(ring := ring')
  }

  /** `write` on a non-blocking pipe: end of file, everything, a part, or nothing. */
  function AfterWrite(s: State, number: nat, bytes: seq<Byte>): State {
    if s.pipe.gone then
      s.(open := false, closed := s.closed + [s.pipe], loop := Top)
    else
      var m := Min(SaturatingSub(s.pipe.size, |s.pipe.queued|), |bytes|);
      var pipe := s.pipe.(sent := s.pipe.sent + bytes[..m], queued := s.pipe.queued + bytes[..m]);
      if m == |bytes| then s.(pipe := pipe.(whole := s.pipe.whole + [number]), loop := Top)
      else s.(pipe := pipe, dropped := s.dropped + 1, loop := Top)
  }

  function HostStep(c: V.Config, s: State, opens: bool, size: nat): State {
    match s.loop
    case Start => s.(lastCount := s.ring.count, loop := Top)
    case Top =>
      if !s.open then
        if opens then s.(open := true, pipe := Pipe(size, [], [], false, []))
        else s.(lastCount := s.ring.count)
      else if s.ring.count == s.lastCount then s
      else s.(loop := NewFrame(s.ring.count))
    case NewFrame(count) =>
      s.(ring := V.Next(c, s.ring, V.BeginRead(s.buffer)), loop := InRead(count))
    case InRead(count) =>
      var out := if s.ring.reader.Copying? then s.ring.reader.out else s.buffer;
      AfterRead(s, V.Next(c, s.ring, V.Read), count, out)
    case Resample(number, bytes) =>
      s.(lastCount := s.ring.count, forwarded := s.forwarded + [number], loop := CheckRoom(number, bytes))
    case CheckRoom(number, bytes) =>
      if s.pipe.size > 0 && SaturatingSub(s.pipe.size, |s.pipe.queued|) < |bytes|
      then s.(dropped := s.dropped + 1, loop := Top)
      else s.(loop := WritePipe(number, bytes))
    case WritePipe(number, bytes) => AfterWrite(s, number, bytes)
  }

  function Next(c: V.Config, s: State, a: Action): State {
    match a
    case Producer(push) =>
      if push.BeginPush? || push.Write? then s.(ring := V.Next(c, s.ring, push)) else s
    case Host(opens, size) => HostStep(c, s, opens, size)
    case Drain(n) =>
      if s.open && n <= |s.pipe.queued| then s.(pipe := s.pipe.(queued := s.pipe.queued[n..])) else s
    case ReaderLeaves => if s.open then s.(pipe := s.pipe.(gone := true)) else s
  }

  /** After the geometry was read: the frame buffer is zeroed, nothing is open. */
  function Init(c: V.Config, ring: V.State): State {
    State(ring, Start, Fitted([], c.frameSize), 0, false, Pipe(0, [], [], false, []), [], [], 0)
  }

  function RunFrom(c: V.Config, s: State, acts: seq<Action>): State {
    if |acts| == 0 then s else Next(c, RunFrom(c, s, acts[..|acts| - 1]), acts[|acts| - 1])
  }

  /** Some run of the loop, against a producer that may already have published, leads to `s`. */
  ghost predicate Reachable(c: V.Config, s: State) {
    exists ring: V.State, acts: seq<Action> ::
      V.Reachable(c, ring) && ring.reader.Free? && s == RunFrom(c, Init(c, ring), acts)
  }

  // ---- the invariant ----

  ghost predicate Increasing(ns: seq<nat>) {
    forall i, j :: 0 <= i < j < |ns| ==> ns[i] < ns[j]
  }

  ghost predicate Below(ns: seq<nat>, bound: nat) {
    forall i :: 0 <= i < |ns| ==> ns[i] < bound
  }

  /** The bytes of the numbered frames, one after another. */
  function Joined(frames: seq<seq<Byte>>, ns: seq<nat>): seq<Byte> {
    if |ns| == 0 then []
    else Joined(frames, ns[..|ns| - 1]) + if ns[|ns| - 1] < |frames| then frames[ns[|ns| - 1]] else []
  }

  /** A connection carries whole frames only, in increasing order; the pipe holds the end of what was sent. */
  ghost predicate PipeInv(frames: seq<seq<Byte>>, pipe: Pipe) {
    && Increasing(pipe.whole) && Below(pipe.whole, |frames|)
    && pipe.sent == Joined(frames, pipe.whole)
    && |pipe.queued| <= |pipe.sent| && pipe.queued == pipe.sent[|pipe.sent| - |pipe.queued|..]
  }

  /** `bytes` is frame `number`, exactly. */
  ghost predicate IsFrame(ring: V.State, number: nat, bytes: seq<Byte>) {
    number < |ring.frames| && bytes == ring.frames[number]
  }

  ghost predicate LoopInv(c: V.Config, s: State) {
    match s.loop
    case Start => s.lastCount == 0 && s.forwarded == [] && s.pipe.whole == []
    case Top => true
    case NewFrame(count) => s.open && s.lastCount < count <= s.ring.count
    case InRead(count) =>
      && s.open && s.lastCount < count <= s.ring.count
      && (s.ring.reader.Asked? || (s.ring.reader.Copying? && s.ring.reader.s0 >= count))
      && |s.ring.reader.buf| == c.frameSize
    case Resample(number, bytes) => s.open && s.lastCount <= number && IsFrame(s.ring, number, bytes)
    case CheckRoom(number, bytes) =>
      s.open && number < s.lastCount && Below(s.pipe.whole, number) && IsFrame(s.ring, number, bytes)
    case WritePipe(number, bytes) =>
      && s.open && number < s.lastCount && Below(s.pipe.whole, number) && IsFrame(s.ring, number, bytes)
      && (s.pipe.size == 0 || |bytes| <= SaturatingSub(s.pipe.size, |s.pipe.queued|))
  }

  ghost predicate Inv(c: V.Config, s: State) {
    && c.slots >= 2 && V.Inv(c, s.ring) && |s.buffer| == c.frameSize
    && (!s.loop.InRead? ==> s.ring.reader.Free?)
    && s.lastCount <= s.ring.count
    && Increasing(s.forwarded) && Below(s.forwarded, s.lastCount)
    && Below(s.pipe.whole, s.lastCount)
    && PipeInv(s.ring.frames, s.pipe)
    && (forall i :: 0 <= i < |s.closed| ==> PipeInv(s.ring.frames, s.closed[i]))
    && LoopInv(c, s)
  }

  // ---- preservation ----

  lemma {:induction false} JoinedStays(frames: seq<seq<Byte>>, more: seq<seq<Byte>>, ns: seq<nat>)
    requires Below(ns, |frames|) && frames <= more
    ensures Joined(more, ns) == Joined(frames, ns)
  {
    if |ns| > 0 {
      assert ns[|ns| - 1] < |frames|;
      JoinedStays(frames, more, ns[..|ns| - 1]);
    }
  }

  lemma JoinedSnoc(frames: seq<seq<Byte>>, ns: seq<nat>, n: nat)
    requires n < |frames|
    ensures Joined(frames, ns + [n]) == Joined(frames, ns) + frames[n]
  {
    assert (ns + [n])[..|ns|] == ns;
  }

  lemma PipeStays(frames: seq<seq<Byte>>, more: seq<seq<Byte>>, pipe: Pipe)
    requires PipeInv(frames, pipe) && frames <= more
    ensures PipeInv(more, pipe)
  {
    JoinedStays(frames, more, pipe.whole);
  }

  /** What the producer's steps do to the ring: more frames, a larger count, the reader's locals untouched. */
  lemma PushGrows(c: V.Config, ring: V.State, push: V.Action)
    requires V.Inv(c, ring) && (push.BeginPush? || push.Write?)
    ensures var ring' := V.Next(c, ring, push);
      && V.Inv(c, ring') && ring.frames <= ring'.frames && ring.count <= ring'.count && ring'.reader == ring.reader
  {
    V.NextKeeps(c, ring, push);
  }

  /** More frames on the ring do not disturb what the loop knows. */
  lemma LoopStays(c: V.Config, s: State, ring': V.State)
    requires LoopInv(c, s) && |s.ring.frames| == s.ring.count && |ring'.frames| == ring'.count
    requires s.ring.frames <= ring'.frames && s.ring.count <= ring'.count && ring'.reader == s.ring.reader
    ensures LoopInv(c, s.(ring := ring'))
  {
  }

  lemma PipesStay(frames: seq<seq<Byte>>, more: seq<seq<Byte>>, closed: seq<Pipe>)
    requires frames <= more && forall i :: 0 <= i < |closed| ==> PipeInv(frames, closed[i])
    ensures forall i :: 0 <= i < |closed| ==> PipeInv(more, closed[i])
  {
    forall i | 0 <= i < |closed|
      ensures PipeInv(more, closed[i])
    {
      PipeStays(frames, more, closed[i]);
    }
  }

  lemma ProducerKeeps(c: V.Config, s: State, push: V.Action)
    requires Inv(c, s) && (push.BeginPush? || push.Write?)
    ensures Inv(c, Next(c, s, Producer(push)))
  {
    var ring' := V.Next(c, s.ring, push);
    assert V.Inv(c, ring') && ring'.reader == s.ring.reader
      && s.ring.frames <= ring'.frames && s.ring.count <= ring'.count by {
      PushGrows(c, s.ring, push);
    }
    PipeStays(s.ring.frames, ring'.frames, s.pipe);
    PipesStay(s.ring.frames, ring'.frames, s.closed);
    LoopStays(c, s, ring');
    var s' := s.(ring := ring');
    assert Next(c, s, Producer(push)) == s';
    assert Inv(c, s');
  }

  /** What one access of `read_frame` does to the ring, and what a finished read has found. */
  lemma ReadAdvances(c: V.Config, s: State)
    requires Inv(c, s) && s.loop.InRead?
    ensures var ring' := V.Next(c, s.ring, V.Read);
      && V.Inv(c, ring') && ring'.frames == s.ring.frames && ring'.count == s.ring.count
      && (!ring'.reader.Free? ==>
            ring'.reader.Copying? && ring'.reader.s0 >= s.loop.count && |ring'.reader.buf| == c.frameSize)
      && (ring'.reader.Free? ==> |ring'.results| > 0)
      && (ring'.reader.Free? && ring'.results[|ring'.results| - 1].Frame? ==>
            var r := ring'.results[|ring'.results| - 1]; s.lastCount <= r.number && IsFrame(ring', r.number, r.out))
  {
    V.NextKeeps(c, s.ring, V.Read);
    var ring' := V.Next(c, s.ring, V.Read);
    if ring'.reader.Free? {
      var r := ring'.results[|ring'.results| - 1];
      assert V.GoodResult(c, r, ring'.frames);
      if r.Frame? {
        var f := ring'.frames[r.number];
        assert V.Length(c, r.buf) == c.frameSize && f[..c.frameSize] == f && r.buf[c.frameSize..] == [];
      }
    }
  }

  lemma ReadKeeps(c: V.Config, s: State, opens: bool, size: nat)
    requires Inv(c, s) && s.loop.InRead?
    ensures Inv(c, HostStep(c, s, opens, size))
  {
    ReadAdvances(c, s);
    V.NextKeeps(c, s.ring, V.Read);
  }

  /** A frame taken whole extends the stream of whole frames. */
  lemma WholeFrameSent(frames: seq<seq<Byte>>, pipe: Pipe, number: nat)
    requires PipeInv(frames, pipe) && number < |frames| && Below(pipe.whole, number)
    ensures PipeInv(frames, pipe.(sent := pipe.sent + frames[number], queued := pipe.queued + frames[number],
                                  whole := pipe.whole + [number]))
  {
    JoinedSnoc(frames, pipe.whole, number);
  }

  /** After the room check a write that finds the reader there takes the whole frame. */
  lemma WriteKeeps(c: V.Config, s: State)
    requires Inv(c, s) && s.loop.WritePipe?
    ensures Inv(c, AfterWrite(s, s.loop.number, s.loop.bytes))
  {
    var WritePipe(number, bytes) := s.loop;
    var s' := AfterWrite(s, number, bytes);
    if s.pipe.gone {
      assert forall i :: 0 <= i < |s.closed| ==> s'.closed[i] == s.closed[i];
    } else if s.pipe.size == 0 {
      assert |bytes| == c.frameSize > 0;
      assert s'.pipe == s.pipe;
    } else {
      assert bytes[..|bytes|] == bytes;
      WholeFrameSent(s.ring.frames, s.pipe, number);
    }
  }

  lemma BeginReadKeeps(c: V.Config, s: State)
    requires Inv(c, s) && s.loop.NewFrame?
    ensures Inv(c, s.(ring := V.Next(c, s.ring, V.BeginRead(s.buffer)), loop := InRead(s.loop.count)))
  {
    V.NextKeeps(c, s.ring, V.BeginRead(s.buffer));
  }

  lemma HostKeeps(c: V.Config, s: State, opens: bool, size: nat)
    requires Inv(c, s)
    ensures Inv(c, HostStep(c, s, opens, size))
  {
    match s.loop
    case NewFrame(count) => BeginReadKeeps(c, s);
    case InRead(count) => ReadKeeps(c, s, opens, size);
    case WritePipe(number, bytes) => WriteKeeps(c, s);
    case Resample(number, bytes) => ResampleKeeps(c, s, opens, size);
    case CheckRoom(number, bytes) => RoomCheckKeeps(c, s, opens, size);
    case _ => PollKeeps(c, s, opens, size);
  }

  /** The first load of `frame_seq`, opening the FIFO and looking for a new frame. */
  lemma PollKeeps(c: V.Config, s: State, opens: bool, size: nat)
    requires Inv(c, s) && (s.loop.Start? || s.loop.Top?)
    ensures Inv(c, HostStep(c, s, opens, size))
  {
  }

  /** The load of `frame_seq` after an accepted copy. */
  lemma ResampleKeeps(c: V.Config, s: State, opens: bool, size: nat)
    requires Inv(c, s) && s.loop.Resample?
    ensures Inv(c, HostStep(c, s, opens, size))
  {
  }

  lemma RoomCheckKeeps(c: V.Config, s: State, opens: bool, size: nat)
    requires Inv(c, s) && s.loop.CheckRoom?
    ensures Inv(c, HostStep(c, s, opens, size))
  {
  }

  /** The pipe's reader takes bytes. */
  lemma DrainKeeps(c: V.Config, s: State, n: nat)
    requires Inv(c, s) && s.open && n <= |s.pipe.queued|
    ensures Inv(c, s.(pipe := s.pipe.(queued := s.pipe.queued[n..])))
  {
    var pipe := s.pipe.(queued := s.pipe.queued[n..]);
    assert PipeInv(s.ring.frames, pipe);
  }

  /** The pipe's reader takes bytes or goes away. */
  lemma ReaderKeeps(c: V.Config, s: State, a: Action)
    requires Inv(c, s) && (a.Drain? || a.ReaderLeaves?)
    ensures Inv(c, Next(c, s, a))
  {
    if a.Drain? && s.open && a.n <= |s.pipe.queued| {
      DrainKeeps(c, s, a.n);
    }
  }

  lemma NextKeeps(c: V.Config, s: State, a: Action)
    requires Inv(c, s)
    ensures Inv(c, Next(c, s, a))
  {
    match a
    case Producer(push) =>
      if push.BeginPush? || push.Write? {
        ProducerKeeps(c, s, push);
      }
    case Host(opens, size) => HostKeeps(c, s, opens, size);
    case _ => ReaderKeeps(c, s, a);
  }

  lemma {:induction false} RunKeeps(c: V.Config, s: State, acts: seq<Action>)
    requires Inv(c, s)
    ensures Inv(c, RunFrom(c, s, acts))
  {
    if |acts| > 0 {
      RunKeeps(c, s, acts[..|acts| - 1]);
      NextKeeps(c, RunFrom(c, s, acts[..|acts| - 1]), acts[|acts| - 1]);
    }
  }

  lemma ReachableInv(c: V.Config, s: State)
    requires c.slots >= 2 && Reachable(c, s)
    ensures Inv(c, s)
  {
    var ring: V.State, acts: seq<Action> :|
      V.Reachable(c, ring) && ring.reader.Free? && s == RunFrom(c, Init(c, ring), acts);
    V.ReachableInv(c, ring);
    RunKeeps(c, Init(c, ring), acts);
  }
}
