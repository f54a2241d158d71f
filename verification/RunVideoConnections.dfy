/**
 Connections of the forwarding loop: when a reader that left is noticed, how the next one is
 served, and that frames from before the loop started are not forwarded.
 */
module RunVideoConnections {
  import opened Words
  import opened RunVideo
  import opened RunVideoTheorems
  import V = VideoSteps

  // ---- a reader that left ----

  /** The free-space check lets a write through, which is how the loop learns that the reader left. */
  predicate LetsWrite(c: V.Config, pipe: Pipe) {
    pipe.size == 0 || HasRoom(c, pipe)
  }

  /** The connection of `s` has ended with what was sent on it by then. */
  ghost predicate Ended(s: State, t: State) {
    && |s.closed| < |t.closed| && s.closed <= t.closed
    && t.closed[|s.closed|].sent == s.pipe.sent && t.closed[|s.closed|].whole == s.pipe.whole
    && t.closed[|s.closed|].gone
  }

  /** The loop is on its way to the write that ends the connection, or has made it. */
  ghost predicate Closing(c: V.Config, s: State, t: State) {
    if t.forwarded == s.forwarded || Pending(s, t) then
      && t.open && t.pipe.gone && LetsWrite(c, t.pipe) && t.closed == s.closed
      && t.pipe.sent == s.pipe.sent && t.pipe.whole == s.pipe.whole
    else Ended(s, t)
  }

  /** On the way to the frame, and up to the write. */
  lemma ClosingHost(c: V.Config, s: State, t: State, opens: bool, size: nat)
    requires Live(c, s, t, false) && Closing(c, s, t) && (t.forwarded == s.forwarded || Pending(s, t))
    ensures Closing(c, s, HostStep(c, t, opens, size))
  {
    if t.loop.CheckRoom? {
      assert |t.loop.bytes| == c.frameSize;
    }
  }

  /** A connection that has ended stays so, and its frame is not pending again. */
  lemma EndedHost(c: V.Config, s: State, t: State, opens: bool, size: nat)
    requires Live(c, s, t, false) && Ended(s, t) && t.forwarded != s.forwarded && !Pending(s, t)
    ensures Closing(c, s, HostStep(c, t, opens, size))
  {
    HostOnlyAdds(c, t, opens, size);
    ClosedGrows(c, t, opens, size);
  }

  lemma ClosedGrows(c: V.Config, t: State, opens: bool, size: nat)
    ensures t.closed <= HostStep(c, t, opens, size).closed
  {
  }

  lemma ClosingOthers(c: V.Config, s: State, t: State, a: Action)
    requires Inv(c, t) && Closing(c, s, t) && !a.Host?
    ensures Closing(c, s, Next(c, t, a))
  {
    OthersLeaveLoop(c, t, a);
    OthersLeaveConnection(c, t, a);
  }

  lemma OthersLeaveConnection(c: V.Config, t: State, a: Action)
    requires !a.Host?
    ensures var u := Next(c, t, a);
      u.closed == t.closed && u.pipe.sent == t.pipe.sent && (t.pipe.gone ==> u.pipe.gone)
  {
  }

  lemma {:induction false} ClosingRun(c: V.Config, s: State, acts: seq<Action>)
    requires Inv(c, s) && s.loop.Top? && s.open && s.lastCount < s.ring.count && s.pipe.gone && LetsWrite(c, s.pipe)
    requires Publications(c, s, acts) <= c.slots - 2
    ensures Closing(c, s, RunFrom(c, s, acts))
  {
    if |acts| > 0 {
      var before, a := acts[..|acts| - 1], acts[|acts| - 1];
      var t := RunFrom(c, s, before);
      ClosingRun(c, s, before);
      LiveRun(c, s, before, false);
      if !a.Host? {
        ClosingOthers(c, s, t, a);
      } else if t.forwarded == s.forwarded || Pending(s, t) {
        ClosingHost(c, s, t, a.opens, a.size);
      } else {
        EndedHost(c, s, t, a.opens, a.size);
      }
    }
  }

  /**
   A reader that left is noticed at the next frame for which the free-space check lets a write
   through: in every interleaving with at most `slots - 2` publications, `frameSize + 7` steps of the
   loop end the connection, with nothing more sent on it.
   */
  lemma LostReaderNoticed(c: V.Config, s: State, left: State, acts: seq<Action>)
    requires Inv(c, s) && s.loop.Top? && s.open && s.lastCount < s.ring.count && left == Next(c, s, ReaderLeaves)
    requires s.pipe.size == 0 || |s.pipe.queued| + c.frameSize <= s.pipe.size
    requires Publications(c, left, acts) <= c.slots - 2 && HostSteps(acts) >= c.frameSize + 7
    ensures Ended(s, RunFrom(c, left, acts))
  {
    NextKeeps(c, s, ReaderLeaves);
    ClosingRun(c, left, acts);
    LiveRun(c, left, acts, false);
  }

  /** The reader takes nothing out of the pipe. */
  predicate NothingTaken(acts: seq<Action>) {
    forall i :: 0 <= i < |acts| ==> !acts[i].Drain?
  }

  lemma UnnoticedStep(c: V.Config, s: State, t: State, a: Action)
    requires Inv(c, t) && t.open && t.pipe == s.pipe && t.closed == s.closed && !t.loop.WritePipe? && !a.Drain?
    requires s.pipe.gone && !LetsWrite(c, s.pipe)
    ensures var u := Next(c, t, a); u.open && u.pipe == s.pipe && u.closed == s.closed && !u.loop.WritePipe?
  {
    if t.loop.CheckRoom? {
      assert |t.loop.bytes| == c.frameSize;
    }
  }

  /** Without that room every frame is dropped before the write, so a reader that left is never noticed. */
  lemma {:induction false} LostReaderUnnoticed(c: V.Config, s: State, acts: seq<Action>)
    requires Inv(c, s) && s.open && s.pipe.gone && !s.loop.WritePipe? && NothingTaken(acts)
    requires s.pipe.size > 0 && |s.pipe.queued| + c.frameSize > s.pipe.size
    ensures var t := RunFrom(c, s, acts);
      t.open && t.pipe == s.pipe && t.closed == s.closed && !t.loop.WritePipe?
  {
    if |acts| > 0 {
      var before, a := acts[..|acts| - 1], acts[|acts| - 1];
      assert !a.Drain? && NothingTaken(before);
      LostReaderUnnoticed(c, s, before);
      RunKeeps(c, s, before);
      UnnoticedStep(c, s, RunFrom(c, s, before), a);
    }
  }

  // ---- the next reader ----

  /** The first frame of a connection comes first in what is sent on it. */
  lemma {:induction false} FirstIsSentFirst(frames: seq<seq<Byte>>, ns: seq<nat>)
    requires |ns| > 0 && ns[0] < |frames|
    ensures frames[ns[0]] <= Joined(frames, ns)
  {
    if |ns| == 1 {
      assert ns[..0] == [];
      assert Joined(frames, ns) == frames[ns[0]];
    } else {
      FirstIsSentFirst(frames, ns[..|ns| - 1]);
    }
  }

  /** Frame `n` opens the connection: the first forwarded since `s`, and the first bytes sent. */
  ghost predicate Opens(s: State, t: State, n: nat) {
    && t.open && |s.forwarded| < |t.forwarded| && t.forwarded[|s.forwarded|] == n
    && |t.pipe.whole| > 0 && t.pipe.whole[0] == n
    && n < |t.ring.frames| && t.ring.frames[n] <= t.pipe.sent
  }

  /** A fresh connection with an unseen frame: the first frame sent whole is no older than the newest. */
  lemma FreshConnectionServed(c: V.Config, s: State, acts: seq<Action>) returns (n: nat)
    requires Inv(c, s) && s.loop.Top? && s.open && s.lastCount < s.ring.count
    requires !s.pipe.gone && s.pipe.whole == [] && s.pipe.queued == [] && s.pipe.size >= c.frameSize
    requires Publications(c, s, acts) <= c.slots - 2 && HostSteps(acts) >= c.frameSize + 7 && StaysConnected(acts)
    ensures s.ring.count <= n + 1 && Opens(s, RunFrom(c, s, acts), n)
  {
    var t := RunFrom(c, s, acts);
    WritesNewest(c, s, acts);
    ForwardsNewest(c, s, acts);
    n := t.forwarded[|s.forwarded|];
    assert [] + [n] == [n];
    RunKeeps(c, s, acts);
    assert Below(t.pipe.whole, |t.ring.frames|);
    FirstIsSentFirst(t.ring.frames, t.pipe.whole);
  }

  /**
   A new reader is served: after a successful open, if a frame was published since the count was last
   sampled, the first bytes on the new connection are a whole frame no older than the newest of those.
   */
  lemma NewReaderServed(c: V.Config, s: State, size: nat, u: State, acts: seq<Action>) returns (n: nat)
    requires Inv(c, s) && s.loop.Top? && !s.open && s.lastCount < s.ring.count
    requires size >= c.frameSize && u == HostStep(c, s, true, size)
    requires Publications(c, u, acts) <= c.slots - 2 && HostSteps(acts) >= c.frameSize + 7 && StaysConnected(acts)
    ensures s.ring.count <= n + 1 && Opens(s, RunFrom(c, u, acts), n)
  {
    HostKeeps(c, s, true, size);
    n := FreshConnectionServed(c, u, acts);
  }

  /** While nothing is published the fresh connection stays as it is. */
  lemma FreshStep(c: V.Config, s: State, a: Action)
    requires Inv(c, s) && s.loop.Top? && s.lastCount == s.ring.count && !Publishes(c, s, a)
    requires s.open && s.pipe.queued == [] && !a.ReaderLeaves?
    ensures Next(c, s, a).open && Next(c, s, a).pipe == s.pipe
  {
  }

  lemma {:induction false} FreshRun(c: V.Config, s: State, acts: seq<Action>)
    requires Inv(c, s) && s.loop.Top? && s.lastCount == s.ring.count && Publications(c, s, acts) == 0
    requires s.open && s.pipe.queued == [] && StaysConnected(acts)
    ensures var t := RunFrom(c, s, acts);
      && Inv(c, t) && t.loop.Top? && t.lastCount == t.ring.count == s.ring.count
      && t.open && t.pipe == s.pipe && t.forwarded == s.forwarded
  {
    RunKeeps(c, s, acts);
    QuietUntilNextPublish(c, s, acts);
    if |acts| > 0 {
      var before, a := acts[..|acts| - 1], acts[|acts| - 1];
      assert !a.ReaderLeaves? && StaysConnected(before);
      FreshRun(c, s, before);
      FreshStep(c, RunFrom(c, s, before), a);
    }
  }

  /** If nothing was published by the open, the next frame published is the one, or a newer one. */
  lemma NextFrameServed(c: V.Config, s: State, size: nat, u: State, quiet: seq<Action>, v: State, a: Action,
                        w: State, acts: seq<Action>) returns (n: nat)
    requires Inv(c, s) && s.loop.Top? && !s.open && s.lastCount == s.ring.count
    requires size >= c.frameSize && u == HostStep(c, s, true, size)
    requires v == RunFrom(c, u, quiet) && Publications(c, u, quiet) == 0 && StaysConnected(quiet)
    requires Publishes(c, v, a) && w == Next(c, v, a)
    requires Publications(c, w, acts) <= c.slots - 2 && HostSteps(acts) >= c.frameSize + 7 && StaysConnected(acts)
    ensures s.ring.count <= n && Opens(s, RunFrom(c, w, acts), n)
  {
    HostKeeps(c, s, true, size);
    FreshRun(c, u, quiet);
    StepCounts(c, v, a);
    NextKeeps(c, v, a);
    n := FreshConnectionServed(c, w, acts);
  }

  // ---- a reader that keeps up ----

  /** A reader that empties its pipe, if the pipe holds a frame at all, gets the next frame whole. */
  lemma DrainedReaderServed(c: V.Config, s: State, drained: State, acts: seq<Action>)
    requires Inv(c, s) && s.loop.Top? && s.open && !s.pipe.gone && s.lastCount < s.ring.count
    requires s.pipe.size >= c.frameSize && drained == Next(c, s, Drain(|s.pipe.queued|))
    requires Publications(c, drained, acts) <= c.slots - 2
    requires HostSteps(acts) >= c.frameSize + 7 && StaysConnected(acts)
    ensures var t := RunFrom(c, drained, acts);
      |s.forwarded| < |t.forwarded| && s.pipe.whole + [t.forwarded[|s.forwarded|]] <= t.pipe.whole
  {
    NextKeeps(c, s, Drain(|s.pipe.queued|));
    WritesNewest(c, drained, acts);
  }

  // ---- before the loop started ----

  /** The loop samples the count when it starts: no frame published before that is ever forwarded. */
  lemma StartSkips(c: V.Config, s: State, opens: bool, size: nat, acts: seq<Action>, n: nat)
    requires Inv(c, s) && s.loop.Start? && n < s.ring.count
    ensures n !in RunFrom(c, HostStep(c, s, opens, size), acts).forwarded
  {
    HostKeeps(c, s, opens, size);
    NeverForwarded(c, HostStep(c, s, opens, size), n, acts);
  }
}
