/** Bytes, byte buffers and the division facts that tie byte offsets to blocks. */
module Bytes {

  type byte = x: int | 0 <= x < 256

  function Zeros(n: nat): (z: seq<byte>)
    ensures |z| == n && forall i | 0 <= i < n :: z[i] == 0
  {
    seq(n, _ => 0)
  }

  predicate IsZero(s: seq<byte>) {
    forall i | 0 <= i < |s| :: s[i] == 0
  }

  /** `s` with the bytes from `at` on overwritten by `d`. */
  function Splice(s: seq<byte>, at: nat, d: seq<byte>): (r: seq<byte>)
    requires at + |d| <= |s|
    ensures |r| == |s|
    ensures forall i | 0 <= i < |s| :: r[i] == if at <= i < at + |d| then d[i - at] else s[i]
  {
    s[..at] + d + s[at + |d|..]
  }

  /** A caller's buffer: a C pointer with a size, where NULL stands for zero bytes. */
  datatype Buffer = Null(size: nat) | Data(bytes: seq<byte>) {

    function Len(): nat {
      if Null? then size else |bytes|
    }

    /** The bytes the buffer stands for. */
    function Bytes(): (s: seq<byte>)
      ensures |s| == Len()
    {
      if Null? then Zeros(size) else bytes
    }

    /** The source's test `data == NULL || is_memory_zero(data, size)`. */
    predicate ReadsZero()
      ensures ReadsZero() <==> IsZero(Bytes())
    {
      Null? || IsZero(bytes)
    }

    function Take(n: nat): (b: Buffer)
      requires n <= Len()
      ensures b.Null? == Null? && b.Bytes() == Bytes()[..n]
    {
      if Null? then Null(n) else Data(bytes[..n])
    }

    function Drop(n: nat): (b: Buffer)
      requires n <= Len()
      ensures b.Null? == Null? && b.Bytes() == Bytes()[n..]
    {
      if Null? then Null(size - n) else Data(bytes[n..])
    }
  }

  /** The block of `bs` bytes that holds byte `p`: `p / bs`, written without division. */
  function BlockOf(p: nat, bs: nat): nat
    requires bs > 0
  {
    if p < bs then 0 else 1 + BlockOf(p - bs, bs)
  }

  /** Where in its block byte `p` is: `p % bs`, written without division. */
  function OffsetOf(p: nat, bs: nat): (r: nat)
    requires bs > 0
    ensures r < bs
  {
    if p < bs then p else OffsetOf(p - bs, bs)
  }

  /** Number of blocks of `bs` bytes that `size` bytes occupy. */
  function BlockCount(size: nat, bs: nat): nat
    requires bs > 0
  {
    if OffsetOf(size, bs) == 0 then BlockOf(size, bs) else BlockOf(size, bs) + 1
  }

  lemma {:induction false} ByteIndex(p: nat, bs: nat)
    requires bs > 0
    ensures p == BlockOf(p, bs) * bs + OffsetOf(p, bs)
  {
    if p >= bs {
      ByteIndex(p - bs, bs);
      assert (1 + BlockOf(p - bs, bs)) * bs == bs + BlockOf(p - bs, bs) * bs;
    }
  }

  /** Block and offset are the only ones that name the byte. */
  lemma {:induction false} ByteIndexUnique(q: nat, r: nat, bs: nat, p: nat)
    requires r < bs && p == q * bs + r
    ensures BlockOf(p, bs) == q && OffsetOf(p, bs) == r
  {
    if q > 0 {
      assert q * bs == bs + (q - 1) * bs;
      ByteIndexUnique(q - 1, r, bs, p - bs);
    }
  }

  lemma DivMod(p: nat, bs: nat)
    requires bs > 0
    ensures p / bs == BlockOf(p, bs) && p % bs == OffsetOf(p, bs)
  {
    ByteIndexUnique(p / bs, p % bs, bs, p);
  }

  /** The fewest blocks that hold that many bytes. */
  lemma BlockCountExact(size: nat, bs: nat, n: nat)
    requires bs > 0
    ensures BlockCount(size, bs) <= n <==> size <= n * bs
  {
    hide BlockOf, OffsetOf;
    ByteIndex(size, bs);
    BeforeBlock(size, n, bs);
    if n <= BlockOf(size, bs) {
      MulLe(n, BlockOf(size, bs), bs);
    }
    if BlockOf(size, bs) == n {
      assert n * bs + OffsetOf(size, bs) == size;
    }
  }

  /** The source's own division and remainder name the byte too. */
  lemma DivModIndex(p: nat, bs: nat)
    requires bs > 0
    ensures 0 <= p / bs && 0 <= p % bs < bs && p == p / bs * bs + p % bs
  {
  }

  lemma MulLe(a: nat, b: nat, c: nat)
    requires a <= b
    ensures a * c <= b * c
  {
  }

  /** A byte lies before block `q` exactly when its block does. */
  lemma BeforeBlock(p: nat, q: nat, bs: nat)
    requires bs > 0
    ensures p < q * bs <==> BlockOf(p, bs) < q
  {
    ByteIndex(p, bs);
    if BlockOf(p, bs) < q {
      assert (BlockOf(p, bs) + 1) * bs == BlockOf(p, bs) * bs + bs;
      MulLe(BlockOf(p, bs) + 1, q, bs);
    } else {
      MulLe(q, BlockOf(p, bs), bs);
    }
  }

  lemma FitsBlocks(size: nat, bs: nat, n: nat)
    requires bs > 0
    ensures n <= size / bs <==> n * bs <= size
  {
    hide BlockOf, OffsetOf;
    DivMod(size, bs);
    BeforeBlock(size, n, bs);
  }
}
