/** The word-wise copies of the video slots, on the mapping's bytes. */
module VideoCopy {
  import opened Words

  /** `u64::from_ne_bytes` on a little-endian machine. */
  function FromBytes(b: seq<Byte>): nat {
    if |b| == 0 then 0 else b[0] as nat + 256 * FromBytes(b[1..])
  }

  /** `u64::to_ne_bytes`, `n` bytes. */
  function ToBytes(w: nat, n: nat): (b: seq<Byte>)
    ensures |b| == n
  {
    if n == 0 then [] else [(w % 256) as Byte] + ToBytes(w / 256, n - 1)
  }

  /** A word written to memory and read back byte by byte is the same word. */
  lemma {:induction false} WordRoundTrip(b: seq<Byte>)
    ensures ToBytes(FromBytes(b), |b|) == b
  {
    if |b| > 0 {
      var rest := FromBytes(b[1..]);
      assert FromBytes(b) % 256 == b[0] as nat && FromBytes(b) / 256 == rest;
      WordRoundTrip(b[1..]);
      assert b == [b[0]] + b[1..];
    }
  }

  /** A frame as it is stored: cut or zero-padded to `size` bytes. */
  function Fitted(src: seq<Byte>, size: nat): (f: seq<Byte>)
    ensures |f| == size
    ensures forall j :: 0 <= j < size ==> f[j] == if j < |src| then src[j] else 0
  {
    seq(size, j requires 0 <= j => if j < |src| then src[j] else 0)
  }

  /** The eight bytes of the word at `start`: source bytes as far as they go, then zeros. */
  function WordOf(src: seq<Byte>, n: nat, start: nat): (b: seq<Byte>)
    requires n <= |src|
    ensures |b| == 8
  {
    Fitted(if start < n then src[start..start + Min(n - start, 8)] else [], 8)
  }

  lemma WordOfFitted(src: seq<Byte>, size: nat, start: nat)
    requires start + 8 <= size
    ensures WordOf(src, Min(|src|, size), start) == Fitted(src, size)[start..start + 8]
  {
  }

  /** `write_volatile` of one `width`-byte word. */
  method StoreWord(a: array<Byte>, at: nat, w: nat, width: nat)
    requires at + width <= a.Length
    modifies a
    ensures a[at..at + width] == ToBytes(w, width)
    ensures forall j :: 0 <= j < a.Length && !(at <= j < at + width) ==> a[j] == old(a[j])
  {
    var b := ToBytes(w, width);
    forall k | 0 <= k < width {
      a[at + k] := b[k];
    }
  }

  /** Store the bytes `b` as one word. */
  method StoreBytes(a: array<Byte>, at: nat, b: seq<Byte>)
    requires at + |b| <= a.Length
    modifies a
    ensures forall k :: 0 <= k < a.Length ==> a[k] == if at <= k < at + |b| then b[k - at] else old(a[k])
  {
    var w := FromBytes(b);
    WordRoundTrip(b);
    StoreWord(a, at, w, |b|);
    forall k | at <= k < at + |b|
      ensures a[k] == b[k - at]
    {
      assert a[k] == a[at..at + |b|][k - at];
    }
  }

  /** One word of a frame. */
  method StoreFittedWord(base: array<Byte>, off: nat, src: seq<Byte>, n: nat, frameSize: nat, start: nat)
    requires off + frameSize <= base.Length && start + 8 <= frameSize && n == Min(|src|, frameSize)
    modifies base
    ensures forall k :: 0 <= k < base.Length ==>
      base[k] == if off + start <= k < off + start + 8 then Fitted(src, frameSize)[k - off] else old(base[k])
  {
    var b := WordOf(src, n, start);
    WordOfFitted(src, frameSize, start);
    StoreBytes(base, off + start, b);
    ghost var f := Fitted(src, frameSize);
    assert forall j :: 0 <= j < 8 ==> b[j] == f[start + j];
  }

  /** `volatile_write_frame`: the fitted frame in the slot, and no byte outside it. */
  method VolatileWriteFrame(base: array<Byte>, off: nat, src: seq<Byte>, frameSize: nat)
    requires off + frameSize <= base.Length
    modifies base
    ensures base[off..off + frameSize] == Fitted(src, frameSize)
    ensures forall j :: 0 <= j < base.Length && !(off <= j < off + frameSize) ==> base[j] == old(base[j])
  {
    var n := Min(|src|, frameSize);
    var words := frameSize / 8;
    var i := 0;
    while i < words
      invariant 0 <= i <= words
      invariant forall j :: 0 <= j < base.Length ==>
        base[j] == if off <= j < off + i * 8 then Fitted(src, frameSize)[j - off] else old(base[j])
    {
      StoreFittedWord(base, off, src, n, frameSize, i * 8);
      i := i + 1;
    }
    var j := words * 8;
    while j < frameSize
      invariant words * 8 <= j <= frameSize
      invariant forall k :: 0 <= k < base.Length ==>
        base[k] == if off <= k < off + j then Fitted(src, frameSize)[k - off] else old(base[k])
    {
      base[off + j] := if j < n then src[j] else 0;
      j := j + 1;
    }
  }

  /** `volatile_copy_from_words` into `dst[..len]`: the slot's bytes, and nothing past them. */
  method VolatileCopyFromWords(base: array<Byte>, off: nat, dst: array<Byte>, len: nat)
    requires off + len <= base.Length && len <= dst.Length && dst != base
    modifies dst
    ensures dst[..len] == base[off..off + len] && dst[len..] == old(dst[len..])
  {
    var words := len / 8;
    var i := 0;
    while i < words
      invariant 0 <= i <= words
      invariant forall j :: 0 <= j < dst.Length ==> dst[j] == if j < i * 8 then base[off + j] else old(dst[j])
    {
      StoreBytes(dst, i * 8, base[off + i * 8..off + i * 8 + 8]);
      i := i + 1;
    }
    var j := words * 8;
    while j < len
      invariant words * 8 <= j <= len
      invariant forall k :: 0 <= k < dst.Length ==> dst[k] == if k < j then base[off + k] else old(dst[k])
    {
      dst[j] := base[off + j];
      j := j + 1;
    }
  }
}
