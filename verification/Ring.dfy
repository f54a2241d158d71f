/**
 The audio ring as data: which payload byte holds which position of the byte
 stream, and the window arithmetic of one `read_quantum` iteration.
 */
module Ring {
  import opened Words

  // ---- frame rounding ----

  /** `(n / frame) * frame`. */
  function Rounded(n: nat, frame: nat): nat
    requires frame > 0
  {
    n / frame * frame
  }

  lemma RoundedBounds(n: nat, frame: nat)
    requires frame > 0
    ensures Rounded(n, frame) == n - n % frame
    ensures Rounded(n, frame) <= n < Rounded(n, frame) + frame
    ensures Rounded(n, frame) % frame == 0
  {
    assert n == n / frame * frame + n % frame;
    DivModUnique(Rounded(n, frame), frame, n / frame, 0);
  }

  /** A multiple of `frame` is at most `n` exactly when it is at most `Rounded(n, frame)`. */
  lemma RoundedIsGreatest(m: nat, n: nat, frame: nat)
    requires frame > 0 && m % frame == 0
    ensures m <= n <==> m <= Rounded(n, frame)
  {
    RoundedBounds(n, frame);
    var r := Rounded(n, frame);
    if r < m <= n {
      AddMultiples(m, r, frame);
      DivModUnique(m - r, frame, 0, m - r);
      assert false;
    }
  }

  /** `r` is the most that whole frames of `frameBytes` bytes take of `n` bytes; while the size is 0, all of it. */
  predicate MostFrames(frameBytes: nat, n: nat, r: nat) {
    r <= n && if frameBytes == 0 then r == n else r % frameBytes == 0 && n < r + frameBytes
  }

  /** Rounding by `frame_bytes.max(1)` gives the whole frames. */
  lemma RoundedIsMost(frameBytes: nat, n: nat)
    ensures MostFrames(frameBytes, n, Rounded(n, Max(frameBytes, 1)))
  {
    RoundedBounds(n, Max(frameBytes, 1));
  }

  lemma AddMultiples(a: int, b: int, frame: nat)
    requires frame > 0 && a % frame == 0 && b % frame == 0
    ensures (a + b) % frame == 0 && (a - b) % frame == 0
  {
    var q, q' := a / frame, b / frame;
    assert a == q * frame && b == q' * frame;
    assert a + b == (q + q') * frame && a - b == (q - q') * frame;
    DivModUnique(a + b, frame, q + q', 0);
    DivModUnique(a - b, frame, q - q', 0);
  }

  // ---- the window of one read ----

  /** Where a read starts: `head`, saturated at `tail` and moved forward to keep the newest `budget`. */
  function ReadFrom(frame: nat, tail: nat, head: nat, maxLatency: nat): (from: nat)
    requires frame > 0
    ensures from <= tail
  {
    var head := Min(head, tail);
    var budget := Rounded(maxLatency, frame);
    if tail - head > budget then tail - budget else head
  }

  /** How many bytes a read into `outLen` bytes delivers from `from`. */
  function Want(frame: nat, tail: nat, from: nat, outLen: nat): nat
    requires frame > 0 && from <= tail
  {
    Rounded(Min(Rounded(outLen, frame), tail - from), frame)
  }

  lemma WantBounds(frame: nat, tail: nat, from: nat, outLen: nat)
    requires frame > 0 && from <= tail
    ensures Want(frame, tail, from, outLen) <= tail - from
    ensures Want(frame, tail, from, outLen) <= outLen
    ensures Want(frame, tail, from, outLen) % frame == 0
  {
    RoundedBounds(outLen, frame);
    RoundedBounds(Min(Rounded(outLen, frame), tail - from), frame);
  }

  /** The backlog that survives the jump never exceeds either the backlog or the rounded budget. */
  lemma ReadFromBounds(frame: nat, tail: nat, head: nat, maxLatency: nat)
    requires frame > 0 && head <= tail
    ensures var from := ReadFrom(frame, tail, head, maxLatency);
            && head <= from
            && tail - from == Min(tail - head, Rounded(maxLatency, frame))
  {
    RoundedBounds(maxLatency, frame);
  }

  /** A `head` past `tail` is pulled back to it. */
  lemma DesyncSaturates(frame: nat, tail: nat, head: nat, maxLatency: nat)
    requires frame > 0 && head > tail
    ensures ReadFrom(frame, tail, head, maxLatency) == tail
  {
  }

  /** A read delivers all whole frames that are queued and fit its buffer: less than one frame more would do. */
  lemma WantIsMost(frameBytes: nat, tail: nat, from: nat, outLen: nat)
    requires from <= tail
    ensures MostFrames(frameBytes, Min(outLen, tail - from), Want(Max(frameBytes, 1), tail, from, outLen))
  {
    var frame := Max(frameBytes, 1);
    RoundedBounds(outLen, frame);
    RoundedIsMost(frameBytes, Min(Rounded(outLen, frame), tail - from));
    RoundedIsMost(frameBytes, outLen);
    if tail - from >= Rounded(outLen, frame) {
      DivModUnique(Rounded(outLen, frame), frame, outLen / frame, 0);
    }
  }

  // ---- the two-part copy ----

  /**
   The payload index touched by byte `i` of an `n`-byte copy that starts at ring index `start`:
   one run if it fits before the end of the ring, two runs otherwise.
   */
  function CopyIndex(cap: nat, start: nat, n: nat, i: nat): nat {
    if start + n <= cap then start + i
    else
      var first := cap - start;
      if i < first then start + i else i - first
  }

  /** Both runs together visit the ring positions in order. */
  lemma CopyIndexIsMod(cap: nat, pos: nat, n: nat, i: nat)
    requires cap > 0 && i < n <= cap
    ensures CopyIndex(cap, pos % cap, n, i) == (pos + i) % cap
  {
    var q, start := pos / cap, pos % cap;
    assert pos == q * cap + start;
    if start + i < cap {
      DivModUnique(pos + i, cap, q, start + i);
    } else {
      assert pos + i == (q + 1) * cap + (start + i - cap);
      DivModUnique(pos + i, cap, q + 1, start + i - cap);
    }
  }

  /** The copy stays inside the payload exactly when it does not go round the ring more than once past `start`. */
  lemma CopyInBounds(cap: nat, start: nat, n: nat)
    requires start < cap
    ensures (forall i: nat :: i < n ==> CopyIndex(cap, start, n, i) < cap) <==> start + n <= 2 * cap
  {
    if start + n > 2 * cap {
      assert CopyIndex(cap, start, n, n - 1) >= cap;
    }
  }

  // ---- the payload as an image of the stream ----

  /** Payload `p` holds the newest `|p|` bytes of the stream `h`, each at its position modulo `|p|`. */
  ghost predicate Holds(p: seq<Byte>, h: seq<Byte>) {
    |p| > 0 && forall k :: 0 <= k < |h| && |h| - |p| <= k ==> p[k % |p|] == h[k]
  }

  lemma HoldsAt(p: seq<Byte>, h: seq<Byte>, k: nat, at: nat)
    requires Holds(p, h) && k < |h| <= k + |p| && at == k % |p|
    ensures at < |p| && p[at] == h[k]
  {
  }

  lemma ModDistinct(a: nat, b: nat, d: nat)
    requires d > 0 && a < b < a + d
    ensures a % d != b % d
  {
    var q, r := a / d, a % d;
    assert a == q * d + r;
    if r + (b - a) < d {
      DivModUnique(b, d, q, r + (b - a));
    } else {
      assert b == (q + 1) * d + (r + (b - a) - d);
      DivModUnique(b, d, q + 1, r + (b - a) - d);
    }
  }

  /** Writing the next byte at its ring position extends the held stream by that byte. */
  lemma HoldsExtend(p: seq<Byte>, h: seq<Byte>, b: Byte)
    requires Holds(p, h)
    ensures Holds(p[|h| % |p| := b], h + [b])
  {
    var p', h' := p[|h| % |p| := b], h + [b];
    forall k | 0 <= k < |h'| && |h'| - |p'| <= k
      ensures p'[k % |p'|] == h'[k]
    {
      if k < |h| {
        ModDistinct(k, |h|, |p|);
      }
    }
  }

  // ---- overwriting the newest ----

  /** The part of a push that is kept: its newest `cap` bytes. */
  function Newest(cap: nat, src: seq<Byte>): (r: seq<Byte>)
    ensures |r| == Min(|src|, cap)
  {
    if |src| > cap then src[|src| - cap..] else src
  }

  /** The newest bytes of an appended stream: all from the appended part, or that part and the newest before it. */
  lemma NewestSplits(cap: nat, a: seq<Byte>, b: seq<Byte>)
    ensures Newest(cap, a + b) == if |b| >= cap then Newest(cap, b) else Newest(cap - |b|, a) + b
  {
    if |b| >= cap {
      assert (a + b)[|a + b| - cap..] == b[|b| - cap..];
    } else if |a| + |b| > cap {
      assert (a + b)[|a + b| - cap..] == a[|a| - (cap - |b|)..] + b;
    }
  }

  lemma NewestOfNewest(m: nat, cap: nat, h: seq<Byte>)
    requires m <= cap
    ensures Newest(m, Newest(cap, h)) == Newest(m, h)
  {
  }

  /** Cutting a push to its newest `cap` bytes never changes the newest `cap` bytes of the stream. */
  lemma NewestOfAppend(cap: nat, h: seq<Byte>, g: seq<Byte>, src: seq<Byte>)
    requires Newest(cap, h) == Newest(cap, g)
    ensures Newest(cap, h + Newest(cap, src)) == Newest(cap, g + src)
  {
    NewestSplits(cap, h, Newest(cap, src));
    NewestSplits(cap, g, src);
    if |src| >= cap {
      NewestOfNewest(cap, cap, src);
    } else {
      NewestOfNewest(cap - |src|, cap, h);
      NewestOfNewest(cap - |src|, cap, g);
    }
  }
}
