/** common/fifo.h: the power-of-two fifo with free-running 32-bit `in` and `out` counters. */
module Kfifo {
  import opened Words
  import opened Seqs
  import opened Ring
  import Q = BoundedQueue

  // ---------------------------------------------------------------- value level

  /** A fifo as a value: the two counters, which wrap at 2^32, and the storage. */
  datatype Fifo = Fifo(inp: u32, out: u32, buf: seq<byte>)

  ghost predicate Wf(f: Fifo) {
    && |f.buf| < 0x1_0000_0000
    && IsPow2(|f.buf|)
    && Used(f) <= |f.buf|
  }

  function Used(f: Fifo): u32 {
    Wrap(f.inp - f.out)
  }

  /** The queue that the counters and the storage represent. */
  function Contents(f: Fifo): (q: seq<byte>)
    requires |f.buf| > 0
    ensures |q| == Used(f)
  {
    RingRead(f.buf, f.out, Used(f))
  }

  function PutCount(f: Fifo, len: nat): nat
    requires |f.buf| < 0x1_0000_0000
  {
    Min(len, Wrap(|f.buf| - f.inp + f.out))
  }

  function Put(f: Fifo, d: seq<byte>): Fifo
    requires 0 < |f.buf| < 0x1_0000_0000
  {
    var n := PutCount(f, |d|);
    Fifo(Wrap(f.inp + n), f.out, RingWrite(f.buf, And(f.inp, |f.buf| - 1), d[..n]))
  }

  function Get(f: Fifo, len: nat): Fifo {
    Fifo(f.inp, Wrap(f.out + Min(len, Used(f))), f.buf)
  }

  /** What a get or an uninterrupted peek copies to the caller. */
  function CopyOut(f: Fifo, len: nat): seq<byte>
    requires |f.buf| > 0
  {
    RingRead(f.buf, And(f.out, |f.buf| - 1), Min(len, Used(f)))
  }

  // ---------------------------------------------------------------- counters and cells

  /** `in` is `out` plus the fill level, up to wrap-around. */
  lemma InIsOutPlusUsed(f: Fifo)
    ensures f.inp == Wrap(f.out + Used(f))
  {
    var u := Used(f);
    assert u == f.inp - f.out || u == f.inp - f.out + 0x1_0000_0000;
  }

  lemma FreeSpace(f: Fifo)
    requires Wf(f)
    ensures Wrap(|f.buf| - f.inp + f.out) == |f.buf| - Used(f)
  {
    var u := Used(f);
    assert u == f.inp - f.out || u == f.inp - f.out + 0x1_0000_0000;
  }

  /** Moving a counter by no more than the free space or the fill level moves the level with it. */
  lemma UsedAfter(inp: u32, out: u32, n: nat)
    ensures Wrap(inp - out) + n < 0x1_0000_0000 ==> Wrap(Wrap(inp + n) - out) == Wrap(inp - out) + n
    ensures n <= Wrap(inp - out) ==> Wrap(inp - Wrap(out + n)) == Wrap(inp - out) - n
  {
    var u := Wrap(inp - out);
    assert u == inp - out || u == inp - out + 0x1_0000_0000;
  }

  lemma PutCell(f: Fifo)
    requires Wf(f)
    ensures 0 < |f.buf| && Mod(And(f.inp, |f.buf| - 1), |f.buf|) == Mod(f.out + Used(f), |f.buf|)
  {
    MaskIsMod(|f.buf|, f.inp);
    InIsOutPlusUsed(f);
    WrapKeepsCell(|f.buf|, f.out + Used(f));
  }

  /** A put appends as much as fits. */
  lemma PutRefines(f: Fifo, d: seq<byte>)
    requires Wf(f)
    ensures |f.buf| > 0 && PutCount(f, |d|) == Min(|d|, |f.buf| - |Contents(f)|)
    ensures Wf(Put(f, d)) && |Put(f, d).buf| == |f.buf| && Put(f, d).out == f.out
    ensures Contents(Put(f, d)) == Contents(f) + d[..PutCount(f, |d|)]
  {
    hide RingRead, RingWrite, Mod, And, IsPow2;
    PutCell(f);
    FreeSpace(f);
    var u, n := Used(f), PutCount(f, |d|);
    UsedAfter(f.inp, f.out, n);
    assert Used(Put(f, d)) == u + n;
    RingWriteCongruent(f.buf, And(f.inp, |f.buf| - 1), f.out + u, d[..n]);
    RingReadAfterWrite(f.buf, f.out, u, d[..n]);
  }

  lemma GetCells(f: Fifo, n: nat)
    requires Wf(f)
    ensures 0 < |f.buf|
    ensures Mod(And(f.out, |f.buf| - 1), |f.buf|) == Mod(f.out, |f.buf|)
    ensures Mod(Wrap(f.out + n), |f.buf|) == Mod(f.out + n, |f.buf|)
  {
    MaskIsMod(|f.buf|, f.out);
    WrapKeepsCell(|f.buf|, f.out + n);
  }

  /** A get or peek copies out the front of the queue. */
  lemma CopyOutIsFront(f: Fifo, len: nat)
    requires Wf(f)
    ensures |f.buf| > 0 && CopyOut(f, len) == Contents(f)[..Min(len, Used(f))]
  {
    hide RingRead, Mod, And, IsPow2;
    var n := Min(len, Used(f));
    GetCells(f, n);
    RingReadCongruent(f.buf, And(f.out, |f.buf| - 1), f.out, n);
    RingReadSplit(f.buf, f.out, n, Used(f));
  }

  /** A get removes from the front what it copies out. */
  lemma GetRefines(f: Fifo, len: nat)
    requires Wf(f)
    ensures |f.buf| > 0 && Wf(Get(f, len))
    ensures Contents(Get(f, len)) == Contents(f)[Min(len, Used(f))..]
  {
    hide RingRead, Mod, And, IsPow2;
    var u := Used(f);
    var n := Min(len, u);
    GetCells(f, n);
    UsedAfter(f.inp, f.out, n);
    RingReadSplit(f.buf, f.out, n, u);
    RingReadCongruent(f.buf, Wrap(f.out + n), f.out + n, u - n);
  }

  // ---------------------------------------------------------------- all runs

  ghost function Step(f: Fifo, op: Q.Op): (Fifo, Q.Reply)
    requires Wf(f) && 0 < |f.buf|
  {
    match op
    case Put(d) => (Put(f, d), Q.Reply(PutCount(f, |d|), []))
    case Take(k) => (Get(f, k), Q.Reply(Min(k, Used(f)), CopyOut(f, k)))
    case Peek(k) => (f, Q.Reply(Min(k, Used(f)), CopyOut(f, k)))
  }

  lemma StepRefines(f: Fifo, op: Q.Op)
    requires Wf(f)
    ensures 0 < |f.buf| && Wf(Step(f, op).0) && |Step(f, op).0.buf| == |f.buf|
    ensures (Contents(Step(f, op).0), Step(f, op).1) == Q.Step(Contents(f), |f.buf|, op)
  {
    PowerOfTwo(|f.buf|);
    match op
    case Put(d) => PutRefines(f, d);
    case Take(k) => GetRefines(f, k); CopyOutIsFront(f, k);
    case Peek(k) => CopyOutIsFront(f, k);
  }

  ghost function Run(f: Fifo, ops: seq<Q.Op>): (r: (Fifo, seq<Q.Reply>))
    requires Wf(f)
    ensures |r.1| == |ops|
    decreases |ops|
  {
    if ops == [] then (f, []) else
      StepRefines(f, ops[0]);
      var (f1, a) := Step(f, ops[0]);
      var (f2, rest) := Run(f1, ops[1..]);
      (f2, [a] + rest)
  }

  /** Refinement on every run: the counters may wrap past 2^32 any number of times,
      and the fifo still answers exactly like a queue of capacity `size`. */
  lemma {:induction false} RunRefines(f: Fifo, ops: seq<Q.Op>)
    requires Wf(f)
    ensures var (f', replies) := Run(f, ops);
      && Wf(f') && 0 < |f.buf| && |f'.buf| == |f.buf|
      && (Contents(f'), replies) == Q.Run(Contents(f), |f.buf|, ops)
    decreases |ops|
  {
    PowerOfTwo(|f.buf|);
    if ops != [] {
      StepRefines(f, ops[0]);
      RunRefines(Step(f, ops[0]).0, ops[1..]);
    }
  }

  // ---------------------------------------------------------------- lock-free peek

  /** The puts that interrupt a peek at one point, in order. */
  ghost function Puts(f: Fifo, ds: seq<seq<byte>>): Fifo
    requires Wf(f)
    decreases |ds|
  {
    if ds == [] then f else
      PutRefines(f, ds[0]);
      Puts(Put(f, ds[0]), ds[1..])
  }

  /** The byte copy of kfifo_out_peek, whose length and start were fixed by the earlier
      counter reads, with `irq[j]` the puts that run before byte j is copied. */
  ghost function PeekCopy(f: Fifo, start: nat, j: nat, n: nat, irq: seq<seq<seq<byte>>>): (r: (Fifo, seq<byte>))
    requires Wf(f) && 0 < |f.buf| && j <= n == |irq|
    decreases n - j
  {
    if j == n then (f, []) else
      PutsExtend(f, irq[j]);
      var f1 := Puts(f, irq[j]);
      var b := f1.buf[Mod(start + j, |f1.buf|)];
      var (f2, rest) := PeekCopy(f1, start, j + 1, n, irq);
      (f2, [b] + rest)
  }

  /** kfifo_out_peek: the counters are read first, then the bytes one by one. */
  ghost function InterruptedPeek(f: Fifo, irq: seq<seq<seq<byte>>>): (Fifo, seq<byte>)
    requires Wf(f) && 0 < |f.buf|
  {
    PeekCopy(f, And(f.out, |f.buf| - 1), 0, |irq|, irq)
  }

  lemma {:induction false} PutsExtend(f: Fifo, ds: seq<seq<byte>>)
    requires Wf(f)
    ensures 0 < |f.buf| && Wf(Puts(f, ds)) && |Puts(f, ds).buf| == |f.buf| && Puts(f, ds).out == f.out
    ensures Contents(f) <= Contents(Puts(f, ds))
    decreases |ds|
  {
    PowerOfTwo(|f.buf|);
    if ds != [] {
      PutRefines(f, ds[0]);
      PutsExtend(Put(f, ds[0]), ds[1..]);
    }
  }

  lemma CellOfContents(f: Fifo, j: nat)
    requires Wf(f) && 0 < |f.buf| && j < Used(f)
    ensures Contents(f)[j] == f.buf[Mod(And(f.out, |f.buf| - 1) + j, |f.buf|)]
  {
    hide And, IsPow2, Wrap;
    MaskIsMod(|f.buf|, f.out);
    ModAdd(f.out, j, |f.buf|);
  }

  lemma {:induction false} PeekCopyReads(f: Fifo, q: seq<byte>, j: nat, n: nat, irq: seq<seq<seq<byte>>>)
    requires Wf(f) && 0 < |f.buf| && j <= n == |irq| && n <= |q| && q <= Contents(f)
    ensures var (f', bytes) := PeekCopy(f, And(f.out, |f.buf| - 1), j, n, irq);
      bytes == q[j..n] && Wf(f') && 0 < |f'.buf| && q <= Contents(f')
    decreases n - j
  {
    hide RingRead, Mod, And, IsPow2, Wrap, Contents;
    if j < n {
      PutsExtend(f, irq[j]);
      var f1 := Puts(f, irq[j]);
      CellOfContents(f1, j);
      assert q[j] == Contents(f1)[j];
      PeekCopyReads(f1, q, j + 1, n, irq);
      assert q[j..n] == [q[j]] + q[j + 1..n];
    }
  }

  function PutOps(ds: seq<seq<byte>>): seq<Q.Op> {
    seq(|ds|, i requires 0 <= i < |ds| => Q.Put(ds[i]))
  }

  /** The puts are put operations like any others. */
  lemma {:induction false} PutsAreOps(f: Fifo, ds: seq<seq<byte>>)
    requires Wf(f)
    ensures Run(f, PutOps(ds)).0 == Puts(f, ds)
    decreases |ds|
  {
    hide Put, Contents, And;
    if ds != [] {
      PutRefines(f, ds[0]);
      StepRefines(f, PutOps(ds)[0]);
      PutsAreOps(Put(f, ds[0]), ds[1..]);
      assert PutOps(ds)[1..] == PutOps(ds[1..]);
    }
  }

  lemma {:induction false} PutsInTwo(f: Fifo, a: seq<seq<byte>>, b: seq<seq<byte>>)
    requires Wf(f)
    ensures Wf(Puts(f, a)) && Puts(f, a + b) == Puts(Puts(f, a), b)
    decreases |a|
  {
    hide Put, Contents, And;
    PutsExtend(f, a);
    if a == [] {
      assert a + b == b;
    } else {
      PutRefines(f, a[0]);
      PutsInTwo(Put(f, a[0]), a[1..], b);
      assert (a + b)[1..] == a[1..] + b;
    }
  }

  /** All puts that interrupt a peek take effect, in order. */
  lemma {:induction false} PeekLetsPutsThrough(f: Fifo, start: nat, j: nat, n: nat, irq: seq<seq<seq<byte>>>)
    requires Wf(f) && 0 < |f.buf| && j <= n == |irq|
    ensures PeekCopy(f, start, j, n, irq).0 == Puts(f, Flat(irq[j..]))
    decreases n - j
  {
    hide Mod, Contents, Put;
    if j < n {
      PutsExtend(f, irq[j]);
      PeekLetsPutsThrough(Puts(f, irq[j]), start, j + 1, n, irq);
      assert irq[j..] == [irq[j]] + irq[j + 1..];
      FlatCons(irq[j], irq[j + 1..]);
      PutsInTwo(f, irq[j], Flat(irq[j + 1..]));
    }
  }

  /** A peek takes no critical section, yet with puts interrupting it before every byte
      (and before the first) and no get, it returns the first bytes of the queue as it
      stood when the counters were read; they are still a prefix of the queue at the end, which
      is the one that the puts alone would have made. */
  lemma LockFreePeek(f: Fifo, len: nat, irq: seq<seq<seq<byte>>>)
    requires Wf(f) && 0 < |f.buf| && |irq| == Min(len, Used(f))
    ensures InterruptedPeek(f, irq).1 == CopyOut(f, len)
    ensures 0 < |InterruptedPeek(f, irq).0.buf|
    ensures InterruptedPeek(f, irq).1 <= Contents(InterruptedPeek(f, irq).0)
    ensures InterruptedPeek(f, irq).0 == Run(f, PutOps(Flat(irq))).0
  {
    PeekLetsPutsThrough(f, And(f.out, |f.buf| - 1), 0, |irq|, irq);
    assert irq[0..] == irq;
    PutsAreOps(f, Flat(irq));
    CopyOutIsFront(f, len);
    var q := Contents(f);
    PeekCopyReads(f, q, 0, |irq|, irq);
  }

  // ---------------------------------------------------------------- the code

  /** Capacity 0 is allowed: such a fifo never holds a byte. */
  class KFifo {
    var inp: u32
    var out: u32
    var mask: u32
    const size: u32
    const buffer: array<byte>

    ghost predicate Valid()
      reads this, buffer
    {
      && mask == Wrap(size - 1) && buffer.Length == size
      && if size == 0 then inp == 0 && out == 0 else Wf(Snapshot())
    }

    ghost function Snapshot(): Fifo
      reads this, buffer
    {
      Fifo(inp, out, buffer[..])
    }

    ghost function Queue(): seq<byte>
      requires Valid()
      reads this, buffer
    {
      if size == 0 then [] else Contents(Snapshot())
    }

    /** The cells from an offset on, around the end of the buffer. */
    ghost function Cells(off: nat, len: nat): seq<byte>
      requires len <= buffer.Length
      reads buffer
    {
      if buffer.Length == 0 then [] else RingRead(buffer[..], off, len)
    }

    constructor Make(buffer: array<byte>)
      requires buffer.Length < 0x1_0000_0000 && And(buffer.Length, Wrap(buffer.Length - 1)) == 0
      ensures Valid() && this.buffer == buffer && size == buffer.Length && Queue() == []
    {
      hide And, Mod, RingRead;
      this.buffer := buffer;
      this.size := buffer.Length;
      this.inp := 0;
      this.out := 0;
      this.mask := Wrap(buffer.Length - 1);
      new;
      if buffer.Length > 0 {
        AndPredecessor(buffer.Length);
      }
    }

    /** kfifo_init stops the system unless `size & (size - 1)` is 0. */
    static method KfifoInit(buffer: array<byte>, mallocOk: bool) returns (fifo: KFifo?)
      requires buffer.Length < 0x1_0000_0000 && And(buffer.Length, Wrap(buffer.Length - 1)) == 0
      ensures fifo == null <==> !mallocOk
      ensures fifo != null ==>
        fresh(fifo) && fifo.Valid() && fifo.buffer == buffer && fifo.size == buffer.Length && fifo.Queue() == []
      ensures buffer.Length == 0 || IsPow2(buffer.Length)
    {
      if buffer.Length > 0 {
        AndPredecessor(buffer.Length);
      }
      if !mallocOk {
        return null;
      }
      fifo := new KFifo.Make(buffer);
    }

    method KfifoPut(src: seq<byte>) returns (n: u32)
      requires Valid() && |src| < 0x1_0000_0000
      modifies this`inp, buffer
      ensures Valid()
      ensures size > 0 ==> Snapshot() == Put(old(Snapshot()), src)
      ensures n == Min(|src|, size - |old(Queue())|) && Queue() == old(Queue()) + src[..n]
    {
      hide RingRead, RingWrite, Mod, And, IsPow2, Overlay, Contents, Wrap;
      ghost var f := Snapshot();
      MaskFacts(size);
      n := Min(|src|, Wrap(size - inp + out));
      var off := And(inp, Wrap(size - 1));
      if size > 0 {
        PutCounts(f, src, off, n);
      }
      var l := Min(n, size - off);
      MemCpy(buffer, off, src[..l]);
      MemCpy(buffer, 0, src[l..n]);
      inp := Wrap(inp + n);
    }

    method KfifoGet(dst: array<byte>, len: u32) returns (n: u32)
      requires Valid() && len <= dst.Length && dst != buffer
      modifies this`out, dst
      ensures Valid()
      ensures n == Min(len, |old(Queue())|)
      ensures dst[..] == old(Queue())[..n] + old(dst[..])[n..]
      ensures Queue() == old(Queue())[n..]
    {
      hide RingRead, Mod, And, IsPow2, Overlay, Contents, Wrap;
      ghost var f := Snapshot();
      MaskFacts(size);
      n := Min(len, Wrap(inp - out));
      var off := And(out, Wrap(size - 1));
      if size > 0 {
        GetCounts(f, len, off, n);
      }
      var l := Min(n, size - off);
      MemCpyAround(dst, buffer, off, l, n);
      out := Wrap(out + n);
    }

    method KfifoDataSize() returns (n: u32)
      requires Valid()
      ensures n == |Queue()|
    {
      n := Wrap(inp - out);
    }

    method KfifoUnused() returns (n: u32)
      requires Valid()
      ensures n + |Queue()| == size
    {
      n := Wrap(mask + 1 - Wrap(inp - out));
    }

    method KfifoCopyOut(dst: array<byte>, len: u32, off: u32)
      requires Valid() && len <= size && len <= dst.Length && dst != buffer
      requires size == 0 ==> off == 0
      modifies dst
      ensures dst[..] == Cells(off, len) + old(dst[..])[len..]
    {
      hide RingRead, Mod, And, IsPow2, Overlay, Wrap;
      MaskFacts(size);
      var o := And(off, mask);
      if size > 0 {
        MaskIsMod(size, off);
        TwoPieceRead(buffer[..], o, len, Min(len, size - o));
        RingReadCongruent(buffer[..], o, off, len);
      }
      var l := Min(len, Wrap(mask + 1) - o);
      MemCpyAround(dst, buffer, o, l, len);
    }

    method KfifoOutPeek(dst: array<byte>, len: u32) returns (n: u32)
      requires Valid() && len <= dst.Length && dst != buffer
      modifies dst
      ensures Valid() && Snapshot() == old(Snapshot())
      ensures n == Min(len, |Queue()|)
      ensures dst[..] == Queue()[..n] + old(dst[..])[n..]
    {
      ghost var f := Snapshot();
      n := len;
      var l := Wrap(inp - out);
      if n > l {
        n := l;
      }
      if size > 0 {
        PowerOfTwo(size);
        RingReadSplit(f.buf, f.out, n, Used(f));
      }
      KfifoCopyOut(dst, n, out);
    }
  }

  /** The mask of every size, 0 included. */
  lemma MaskFacts(size: u32)
    ensures Wrap(Wrap(size - 1) + 1) == size && (size > 0 ==> Wrap(size - 1) == size - 1)
    ensures And(0, Wrap(size - 1)) == 0 && Wrap(0) == 0
  {
  }

  /** What kfifo_put computes, and what its two memcpys then do. */
  lemma PutCounts(f: Fifo, src: seq<byte>, off: nat, n: nat)
    requires Wf(f) && |f.buf| > 0 && off == And(f.inp, |f.buf| - 1)
    requires n == Min(|src|, Wrap(|f.buf| - f.inp + f.out))
    ensures n == Min(|src|, |f.buf| - |Contents(f)|) && off < |f.buf|
    ensures var l := Min(n, |f.buf| - off);
      Put(f, src) == Fifo(Wrap(f.inp + n), f.out, Overlay(Overlay(f.buf, off, src[..l]), 0, src[l..n]))
    ensures Wf(Put(f, src)) && Contents(Put(f, src)) == Contents(f) + src[..n]
  {
    hide RingRead, RingWrite, Mod, And, IsPow2, Overlay, Wrap, Contents;
    PutRefines(f, src);
    MaskIsMod(|f.buf|, f.inp);
    var l := Min(n, |f.buf| - off);
    TwoPieceWrite(f.buf, off, src[..n], l);
    assert src[..n][..l] == src[..l] && src[..n][l..] == src[l..n];
  }

  /** What kfifo_get computes, and what its two memcpys copy. */
  lemma GetCounts(f: Fifo, len: nat, off: nat, n: nat)
    requires Wf(f) && |f.buf| > 0 && off == And(f.out, |f.buf| - 1) && n == Min(len, Wrap(f.inp - f.out))
    ensures n == Min(len, |Contents(f)|) && off < |f.buf| && n <= |f.buf|
    ensures var l := Min(n, |f.buf| - off);
      f.buf[off..off + l] + f.buf[..n - l] == Contents(f)[..n]
    ensures Wf(Fifo(f.inp, Wrap(f.out + n), f.buf)) && Contents(Fifo(f.inp, Wrap(f.out + n), f.buf)) == Contents(f)[n..]
  {
    hide RingRead, Mod, And, IsPow2, Wrap, Contents;
    GetRefines(f, len);
    CopyOutIsFront(f, len);
    MaskIsMod(|f.buf|, f.out);
    TwoPieceRead(f.buf, off, n, Min(n, |f.buf| - off));
  }
}
