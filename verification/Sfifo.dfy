/** app/ftp/ftpd.c: the one-slot-spare fifo of the FTP server, the senders that drain it
    into TCP, and the file transfer built on top. */
module Sfifo {
  import opened Words
  import opened Seqs
  import opened Ring
  import Q = BoundedQueue

  // ---------------------------------------------------------------- value level

  /** Both positions range over 0..size inclusive; `size` and 0 denote the same cell. */
  datatype Fifo = Fifo(buf: seq<byte>, readpos: nat, writepos: nat)

  ghost predicate Wf(f: Fifo) {
    && |f.buf| < 0x8000_0000
    && IsPow2(|f.buf|)
    && f.readpos <= |f.buf|
    && f.writepos <= |f.buf|
  }

  /** The macro sfifo_used: a difference that may be negative, masked in 32-bit two's complement. */
  function Used(f: Fifo): nat
    requires |f.buf| > 0
  {
    And(Wrap(f.writepos - f.readpos), |f.buf| - 1)
  }

  function Space(f: Fifo): int
    requires |f.buf| > 0
  {
    |f.buf| - 1 - Used(f)
  }

  function Contents(f: Fifo): (q: seq<byte>)
    requires |f.buf| > 0
    ensures |q| == Used(f)
  {
    RingRead(f.buf, f.readpos, Used(f))
  }

  ghost function Write(f: Fifo, d: seq<byte>): Fifo
    requires Wf(f)
  {
    UsedIsDistance(f);
    var total := Min(|d|, Space(f));
    var end := f.writepos + total;
    Fifo(RingWrite(f.buf, f.writepos, d[..total]), f.readpos, if end > |f.buf| then end - |f.buf| else end)
  }

  /** What TCP answers during one send_data: the room it announces and whether the
      first (wrapping) and the last write succeed. */
  datatype Tcp = Tcp(sndbuf: u16, firstOk: bool, lastOk: bool)

  /** The fifo after one send_data, and the bytes TCP accepted. */
  ghost function Send(f: Fifo, t: Tcp): (Fifo, seq<byte>)
    requires Wf(f)
  {
    UsedIsDistance(f);
    var len := Min(t.sndbuf, Used(f));
    var i := f.readpos;
    if Used(f) == 0 then (f, [])
    else if i + len > |f.buf| then
      if !t.firstOk then (f, [])
      else if !t.lastOk then (f.(readpos := 0), f.buf[i..])
      else (f.(readpos := i + len - |f.buf|), f.buf[i..] + f.buf[..i + len - |f.buf|])
    else if !t.lastOk then (f, [])
    else (f.(readpos := i + len), f.buf[i..i + len])
  }

  lemma UsedIsDistance(f: Fifo)
    requires Wf(f)
    ensures 0 < |f.buf| && Used(f) == Mod(f.writepos - f.readpos, |f.buf|) < |f.buf|
  {
    MaskIsMod(|f.buf|, Wrap(f.writepos - f.readpos));
    WrapKeepsCell(|f.buf|, f.writepos - f.readpos);
  }

  /** The write position denotes the cell just past the contents. */
  lemma WriteCell(f: Fifo)
    requires Wf(f)
    ensures 0 < |f.buf| && Mod(f.writepos, |f.buf|) == Mod(f.readpos + Used(f), |f.buf|)
  {
    UsedIsDistance(f);
    ModAdd(f.writepos - f.readpos, f.readpos, |f.buf|);
  }

  /** The fill level is determined by the cell just past the contents. */
  lemma UsedFromCell(f: Fifo, used: nat)
    requires Wf(f) && used < |f.buf|
    requires Mod(f.writepos, |f.buf|) == Mod(f.readpos + used, |f.buf|)
    ensures 0 < |f.buf| && Used(f) == used
  {
    hide And, IsPow2;
    UsedIsDistance(f);
    ModAdd(f.writepos, -(f.readpos as int), |f.buf|);
    ModAdd(f.readpos + used, -(f.readpos as int), |f.buf|);
    assert Mod(used, |f.buf|) == used;
  }

  /** After a write the fill level has grown by what was written. */
  lemma LevelAfterWrite(f: Fifo, d: seq<byte>)
    requires Wf(f)
    ensures 0 < |f.buf| && 0 <= Space(f) < |f.buf| && Wf(Write(f, d))
    ensures Used(Write(f, d)) == Used(f) + Min(|d|, Space(f))
  {
    hide RingRead, RingWrite, Mod, And, IsPow2, Used, Wrap;
    UsedIsDistance(f);
    WriteCell(f);
    var u, total, N := Used(f), Min(|d|, Space(f)), |f.buf|;
    ModAdd(f.writepos, total, N);
    ModAdd(f.readpos + u, total, N);
    assert Mod(f.writepos + total, N) == Mod(f.readpos + (u + total), N);
    ModPlusOne(f.writepos + total - N, N);
    UsedFromCell(Write(f, d), u + total);
  }

  lemma WriteRefines(f: Fifo, d: seq<byte>)
    requires Wf(f)
    ensures 0 < |f.buf| && 0 <= Space(f) < |f.buf| && Wf(Write(f, d))
    ensures Space(f) == |f.buf| - 1 - |Contents(f)|
    ensures Contents(Write(f, d)) == Contents(f) + d[..Min(|d|, Space(f))]
  {
    hide RingRead, RingWrite, Mod, And, IsPow2, Used, Wrap;
    LevelAfterWrite(f, d);
    WriteCell(f);
    var u, total := Used(f), Min(|d|, Space(f));
    RingWriteCongruent(f.buf, f.writepos, f.readpos + u, d[..total]);
    RingReadAfterWrite(f.buf, f.readpos, u, d[..total]);
  }

  /** Moving the read position forward by at most the fill level removes a prefix. */
  lemma Advance(f: Fifo, readpos: nat, n: nat)
    requires Wf(f) && 0 < |f.buf| && n <= Used(f) && readpos <= |f.buf|
    requires readpos == f.readpos + n || readpos + |f.buf| == f.readpos + n
    ensures Wf(f.(readpos := readpos))
    ensures Contents(f.(readpos := readpos)) == Contents(f)[n..]
    ensures Contents(f)[..n] == RingRead(f.buf, f.readpos, n)
  {
    hide RingRead, And, IsPow2;
    var N := |f.buf|;
    LevelAfterAdvance(f, readpos, n);
    ModPlusOne(readpos, N);
    RingReadSplit(f.buf, f.readpos, n, Used(f));
    RingReadCongruent(f.buf, readpos, f.readpos + n, Used(f) - n);
  }

  lemma LevelAfterAdvance(f: Fifo, readpos: nat, n: nat)
    requires Wf(f) && 0 < |f.buf| && n <= Used(f) && readpos <= |f.buf|
    requires readpos == f.readpos + n || readpos + |f.buf| == f.readpos + n
    ensures Used(f.(readpos := readpos)) == Used(f) - n
  {
    hide And, IsPow2;
    var f', N := f.(readpos := readpos), |f.buf|;
    UsedIsDistance(f);
    UsedIsDistance(f');
    ModPlusOne(f.writepos - f.readpos - n, N);
    ModAdd(f.writepos - f.readpos, -(n as int), N);
    assert Mod(Used(f) - n, N) == Used(f) - n;
  }

  /** Whatever TCP answers, the accepted bytes are a prefix of the contents and exactly
      those leave the fifo, also when the wrapping send fails half way. */
  lemma SendRefines(f: Fifo, t: Tcp)
    requires Wf(f)
    ensures 0 < |f.buf| && Used(f) < |f.buf|
    ensures var (f', sent) := Send(f, t);
      Wf(f') && |f'.buf| == |f.buf| && |sent| <= |Contents(f)|
      && sent == Contents(f)[..|sent|] && Contents(f') == Contents(f)[|sent|..]
  {
    hide RingRead, Mod, And, IsPow2, Used, Wrap, Contents;
    UsedIsDistance(f);
    var len, i, N := Min(t.sndbuf, Used(f)), f.readpos, |f.buf|;
    if i + len > N {
      Advance(f, 0, N - i);
      Advance(f, i + len - N, len);
      TwoPieceRead(f.buf, i, N - i, N - i);
      TwoPieceRead(f.buf, i, len, N - i);
    } else {
      Advance(f, i + len, len);
      TwoPieceRead(f.buf, i, len, len);
    }
  }

  /** How many bytes TCP has taken, and where that leaves the fifo, on each answer: without a wrap
      all or nothing; with one also the part up to the end of the buffer, when only the second of
      the two writes fails. */
  lemma SendExactly(f: Fifo, t: Tcp)
    requires Wf(f)
    ensures 0 < |f.buf| && Used(f) < |f.buf|
    ensures var (f', sent) := Send(f, t);
      var len, end := Min(t.sndbuf, |Contents(f)|), f.readpos + Min(t.sndbuf, |Contents(f)|);
      && f' == f.(readpos := f'.readpos)
      && (|Contents(f)| == 0 ==> sent == [] && f' == f)
      && (|Contents(f)| > 0 && end <= |f.buf| ==>
            if t.lastOk then |sent| == len && f'.readpos == end else sent == [] && f' == f)
      && (|Contents(f)| > 0 && end > |f.buf| ==>
            if !t.firstOk then sent == [] && f' == f
            else if !t.lastOk then |sent| == |f.buf| - f.readpos && f'.readpos == 0
            else |sent| == len && f'.readpos == end - |f.buf|)
  {
    hide RingRead, Mod, And, IsPow2, Used, Wrap, Contents;
    UsedIsDistance(f);
  }

  // ---------------------------------------------------------------- all runs

  datatype Event = Queue(data: seq<byte>) | Drain(tcp: Tcp)

  ghost function Step(f: Fifo, e: Event): (Fifo, Q.Reply)
    requires Wf(f)
  {
    match e
    case Queue(d) => WriteRefines(f, d); (Write(f, d), Q.Reply(Min(|d|, Space(f)), []))
    case Drain(t) => SendRefines(f, t); var (f', sent) := Send(f, t); (f', Q.Reply(|sent|, sent))
  }

  /** The abstract operation an event performs: a put, or a take of what TCP accepted. */
  ghost function Abstract(f: Fifo, e: Event): Q.Op
    requires Wf(f)
  {
    match e
    case Queue(d) => Q.Put(d)
    case Drain(t) => Q.Take(Step(f, e).1.count)
  }

  lemma StepRefines(f: Fifo, e: Event)
    requires Wf(f)
    ensures 0 < |f.buf| && |Contents(f)| < |f.buf|
    ensures Wf(Step(f, e).0) && |Step(f, e).0.buf| == |f.buf|
    ensures (Contents(Step(f, e).0), Step(f, e).1) == Q.Step(Contents(f), |f.buf| - 1, Abstract(f, e))
  {
    UsedIsDistance(f);
    match e
    case Queue(d) => WriteRefines(f, d);
    case Drain(t) => SendRefines(f, t);
  }

  ghost function Run(f: Fifo, es: seq<Event>): (r: (Fifo, seq<Q.Op>, seq<Q.Reply>))
    requires Wf(f)
    ensures |r.1| == |r.2| == |es|
    decreases |es|
  {
    if es == [] then (f, [], []) else
      StepRefines(f, es[0]);
      var (f1, a) := Step(f, es[0]);
      var (f2, ops, rest) := Run(f1, es[1..]);
      (f2, [Abstract(f, es[0])] + ops, [a] + rest)
  }

  /** The sfifo refines the same bounded queue as kfifo, with one slot less. */
  lemma {:induction false} RunRefines(f: Fifo, es: seq<Event>)
    requires Wf(f)
    ensures 0 < |f.buf| && |Contents(f)| < |f.buf|
    ensures var (f', ops, replies) := Run(f, es);
      && Wf(f') && |f'.buf| == |f.buf|
      && (Contents(f'), replies) == Q.Run(Contents(f), |f.buf| - 1, ops)
    decreases |es|
  {
    UsedIsDistance(f);
    if es != [] {
      StepRefines(f, es[0]);
      var (f1, a) := Step(f, es[0]);
      var (f2, ops, rest) := Run(f1, es[1..]);
      RunRefines(f1, es[1..]);
      assert ([Abstract(f, es[0])] + ops)[1..] == ops;
    }
  }

  /** Exactly-once draining: over any interleaving of sfifo_write and send_data, whatever
      TCP answers, the bytes TCP accepted followed by the bytes still queued are the bytes
      that were queued before the run followed by all bytes accepted by the writes. */
  lemma ExactlyOnceDraining(f: Fifo, es: seq<Event>)
    requires Wf(f)
    ensures 0 < |f.buf|
    ensures var (f', ops, replies) := Run(f, es);
      0 < |f'.buf| && Q.Delivered(ops, replies) + Contents(f') == Contents(f) + Q.Accepted(ops, replies)
  {
    RunRefines(f, es);
    Q.RunConserves(Contents(f), |f.buf| - 1, Run(f, es).1);
  }

  // ---------------------------------------------------------------- the code

  /** The memcpys of sfifo_write, with and without a wrap. */
  lemma PiecesOfWrite(buf: seq<byte>, i: nat, src: seq<byte>, len: nat)
    requires i <= |buf| && 0 < |buf| && len <= |src| && len <= |buf|
    ensures i + len <= |buf| ==> Overlay(buf, i, src[0..len]) == RingWrite(buf, i, src[..len])
    ensures i + len > |buf| ==>
      Overlay(Overlay(buf, i, src[..|buf| - i]), 0, src[|buf| - i..len]) == RingWrite(buf, i, src[..len])
  {
    hide RingWrite;
    var l := Min(len, |buf| - i);
    TwoPieceWrite(buf, i, src[..len], l);
    assert src[..len][..l] == src[..l] && src[..len][l..] == src[l..len];
    if i + len <= |buf| {
      assert Overlay(Overlay(buf, i, src[0..len]), 0, []) == Overlay(buf, i, src[0..len]);
    }
  }

  /** The size field, a 32-bit int, after k doublings. */
  function SizeAfter(k: nat): int {
    if k == 0 then 1 else ToInt32(Wrap(2 * SizeAfter(k - 1)))
  }

  lemma {:induction false} SizeBeforeWrap(k: nat)
    requires k <= 30
    ensures SizeAfter(k) == Pow2(k) <= 0x4000_0000
    decreases k
  {
    hide Wrap, ToInt32;
    Pow2Is30();
    Pow2Grows(k, 30);
    if k > 0 {
      SizeBeforeWrap(k - 1);
      Fits(2 * Pow2(k - 1));
    }
  }

  lemma Fits(x: nat)
    requires x <= 0x4000_0000
    ensures ToInt32(Wrap(x)) == x
  {
  }

  lemma {:induction false} SizeAfterWrap(k: nat)
    requires k >= 31
    ensures SizeAfter(k) == if k == 31 then -0x8000_0000 else 0
    decreases k
  {
    hide Wrap, ToInt32, Pow2;
    Turns();
    if k == 31 {
      SizeBeforeWrap(30);
      Pow2Is30();
    } else {
      SizeAfterWrap(k - 1);
    }
  }

  lemma Turns()
    ensures ToInt32(Wrap(2 * 0x4000_0000)) == -0x8000_0000
    ensures ToInt32(Wrap(2 * -0x8000_0000)) == 0 && ToInt32(Wrap(2 * 0)) == 0
  {
  }

  lemma Pow2Is30()
    ensures Pow2(30) == 0x4000_0000
  {
    assert Pow2(5) == 32;
    Pow2Add(5, 5);
    Pow2Add(10, 10);
    Pow2Add(20, 10);
  }

  /** The search for the size ends if and only if the request is below 2^30: otherwise the
      doubling leaves the int without having exceeded it, and goes on at 0 for ever. */
  lemma SizeSearchEnds(request: int)
    ensures (exists k :: SizeAfter(k) > request) <==> request < 0x4000_0000
  {
    hide SizeAfter, Pow2;
    Pow2Is30();
    SizeBeforeWrap(30);
    forall k: nat
      ensures SizeAfter(k) <= 0x4000_0000
    {
      if k <= 30 {
        SizeBeforeWrap(k);
      } else {
        SizeAfterWrap(k);
      }
    }
  }

  datatype Result = Ok(count: nat) | NoDevice | NoMemory

  /** The TCP connection: the bytes it has taken over for sending. */
  class TcpPcb {
    var taken: seq<byte>

    /** tcp_write, which takes all of the data or refuses. */
    method TcpWrite(data: seq<byte>, ok: bool) returns (err: bool)
      modifies this
      ensures err == !ok && taken == old(taken) + (if ok then data else [])
    {
      err := !ok;
      if ok {
        taken := taken + data;
      }
    }
  }

  /** The answers of TCP one by one. */
  lemma SendCases(f: Fifo, t: Tcp)
    requires Wf(f)
    ensures f.readpos <= |f.buf| && 0 < |f.buf| && And(Wrap(f.writepos - f.readpos), |f.buf| - 1) == Used(f) < |f.buf|
    ensures Used(f) == 0 ==> Send(f, t) == (f, [])
    ensures var len, i, N := Min(t.sndbuf, Used(f)), f.readpos, |f.buf|;
      Used(f) > 0 ==>
        if i + len <= N then Send(f, t) == if t.lastOk then (f.(readpos := i + len), f.buf[i..i + len]) else (f, [])
        else if !t.firstOk then Send(f, t) == (f, [])
        else if !t.lastOk then Send(f, t) == (f.(readpos := 0), f.buf[i..])
        else Send(f, t) == (f.(readpos := i + len - N), f.buf[i..] + f.buf[0..i + len - N])
  {
    hide And, Wrap, IsPow2, Mod;
    UsedIsDistance(f);
    var n := f.readpos + Min(t.sndbuf, Used(f)) - |f.buf|;
    assert 0 <= n <= |f.buf| ==> f.buf[0..n] == f.buf[..n];
  }

  lemma SentThenLeft(taken: seq<byte>, sent: seq<byte>, before: seq<byte>, after: seq<byte>)
    requires |sent| <= |before| && sent == before[..|sent|] && after == before[|sent|..]
    ensures taken + sent + after == taken + before
  {
    assert sent + after == before;
    assert taken + sent + after == taken + (sent + after);
  }

  class SFifo {
    var buffer: array?<byte>
    var size: nat
    var readpos: nat
    var writepos: nat

    ghost predicate Valid()
      reads this, buffer
    {
      buffer != null && buffer.Length == size && Wf(Snapshot()) && 0 < size
    }

    ghost function Snapshot(): Fifo
      requires buffer != null
      reads this, buffer
    {
      Fifo(buffer[..], readpos, writepos)
    }

    ghost function Bytes(): seq<byte>
      requires Valid()
      reads this, buffer
    {
      Contents(Snapshot())
    }

    constructor ()
      ensures buffer == null && size == 0
    {
      buffer, size, readpos, writepos := null, 0, 0, 0;
    }

    /** sfifo_init: the smallest power of two that exceeds the requested size, so that the
        request fits beside the spare slot. From 2^30 on it does not return (SizeSearchEnds). */
    method SfifoInit(request: int, mallocOk: bool) returns (r: Result)
      requires request < 0x4000_0000
      modifies this`buffer, this`size, this`readpos, this`writepos
      ensures r == if mallocOk then Ok(0) else NoMemory
      ensures mallocOk ==> fresh(buffer) && Valid() && Bytes() == []
      ensures IsPow2(size) && size > request && (size == 1 || size / 2 <= request)
    {
      readpos, writepos := 0, 0;
      size := 1;
      assert Pow2(0) == size;
      while size <= request
        invariant IsPow2(size) && size < 0x8000_0000 && readpos == writepos == 0
        invariant size == 1 || size / 2 <= request
        decreases request - size
      {
        ghost var k: nat :| Pow2(k) == size;
        assert Pow2(k + 1) == 2 * size;
        size := size * 2;
      }
      if !mallocOk {
        buffer := null;
        return NoMemory;
      }
      buffer := new byte[size];
      UsedIsDistance(Snapshot());
      assert Bytes() == [];
      return Ok(0);
    }

    /** sfifo_write: all or a prefix of the data, limited by the free space. */
    method SfifoWrite(src: seq<byte>) returns (r: Result)
      requires buffer == null || Valid()
      modifies this`writepos, buffer
      ensures old(buffer) == null ==> r == NoDevice && writepos == old(writepos)
      ensures old(buffer) != null ==> Valid() && old(Wf(Snapshot()))
      ensures old(buffer) != null ==> Snapshot() == Write(old(Snapshot()), src)
      ensures old(buffer) != null ==> r.Ok? && r.count == Min(|src|, size - 1 - |old(Bytes())|)
      ensures old(buffer) != null ==> Bytes() == old(Bytes()) + src[..r.count]
    {
      if buffer == null {
        return NoDevice;
      }
      hide RingRead, RingWrite, Mod, And, IsPow2;
      ghost var f := Snapshot();
      WriteRefines(f, src);
      var total := size - 1 - And(Wrap(writepos - readpos), size - 1);
      var len := if |src| > total then total else |src|;
      CopyIn(src, len);
      assert Snapshot() == Write(f, src);
      return Ok(len);
    }

    /** The copying half of sfifo_write: one memcpy, or two when the run passes the end. */
    method CopyIn(src: seq<byte>, count: nat)
      requires buffer != null && buffer.Length == size > 0 && writepos <= size
      requires count <= |src| && count < size
      modifies this`writepos, buffer
      ensures buffer[..] == RingWrite(old(buffer[..]), old(writepos), src[..count])
      ensures writepos == if old(writepos) + count > size then old(writepos) + count - size else old(writepos) + count
    {
      hide RingWrite, Overlay;
      PiecesOfWrite(buffer[..], writepos, src, count);
      var len := count;
      var i := writepos;
      var from := 0;
      if i + len > size {
        MemCpy(buffer, i, src[..size - i]);
        from := size - i;
        len := len - (size - i);
        i := 0;
      }
      MemCpy(buffer, i, src[from..from + len]);
      writepos := i + len;
    }

    /** send_data and send_msgdata: whatever TCP answers, exactly the bytes it has taken over leave
        the front of the fifo. How many that are: all that it has room for, or those up to the end
        of the buffer when the second of two writes fails, or none. */
    method SendData(pcb: TcpPcb, t: Tcp) returns (ghost sent: seq<byte>)
      requires Valid()
      modifies this`readpos, pcb
      ensures Valid()
      ensures (Snapshot(), sent) == Send(old(Snapshot()), t)
      ensures pcb.taken == old(pcb.taken) + sent
      ensures pcb.taken + Bytes() == old(pcb.taken) + old(Bytes())
      ensures |sent| <= |old(Bytes())| && sent == old(Bytes())[..|sent|] && Bytes() == old(Bytes())[|sent|..]
      ensures var len, i := Min(t.sndbuf, |old(Bytes())|), old(readpos);
        |sent| == if |old(Bytes())| == 0 then 0
                  else if i + len > size then (if !t.firstOk then 0 else if !t.lastOk then size - i else len)
                  else if t.lastOk then len else 0
    {
      ghost var f, taken := Snapshot(), pcb.taken;
      sent := WriteOut(pcb, t);
      hide RingRead, Mod, And, IsPow2, Wrap, Contents, Used, Send;
      SendRefines(f, t);
      SendExactly(f, t);
      SentThenLeft(taken, sent, Contents(f), Contents(Snapshot()));
    }

    /** The writes of send_data. */
    method WriteOut(pcb: TcpPcb, t: Tcp) returns (ghost sent: seq<byte>)
      requires Valid()
      modifies this`readpos, pcb
      ensures (Snapshot(), sent) == Send(old(Snapshot()), t) && pcb.taken == old(pcb.taken) + sent
    {
      hide RingRead, Mod, And, IsPow2, Contents, Used, Send, Wrap, Wf;
      ghost var f, taken := Snapshot(), pcb.taken;
      SendCases(f, t);
      sent := [];
      assert taken + [] == taken;
      var used := And(Wrap(writepos - readpos), size - 1);
      if used > 0 {
        var len := if t.sndbuf < used then t.sndbuf else used;
        var i := readpos;
        if i + len > size {
          assert buffer[i..] == f.buf[i..];
          var err := pcb.TcpWrite(buffer[i..], t.firstOk);
          if err {
            return;
          }
          sent := buffer[i..];
          len := len - (size - i);
          readpos := 0;
          i := 0;
        }
        assert buffer[i..i + len] == f.buf[i..i + len] && buffer[..] == f.buf;
        var err := pcb.TcpWrite(buffer[i..i + len], t.lastOk);
        if err {
          return;
        }
        assert taken + sent + buffer[i..i + len] == taken + (sent + buffer[i..i + len]);
        sent := sent + buffer[i..i + len];
        readpos := readpos + len;
        assert Snapshot() == Send(f, t).0 && sent == Send(f, t).1;
      }
    }

    /** send_msg: a reply line is queued whole or dropped whole. */
    method SendMsg(line: seq<byte>, pcb: TcpPcb, t: Tcp) returns (queued: bool)
      requires Valid()
      modifies this`readpos, this`writepos, buffer, pcb
      ensures Valid()
      ensures queued <==> |line| <= size - 1 - |old(Bytes())|
      ensures pcb.taken + Bytes() == old(pcb.taken) + old(Bytes()) + (if queued then line else [])
      ensures !queued ==> pcb.taken == old(pcb.taken)
    {
      hide RingRead, Mod, And, IsPow2, Wrap, Contents;
      UsedIsDistance(Snapshot());
      if size - 1 - And(Wrap(writepos - readpos), size - 1) < |line| {
        return false;
      }
      var r := SfifoWrite(line);
      assert line[..r.count] == line;
      ghost var sent := SendData(pcb, t);
      assert old(pcb.taken) + (old(Bytes()) + line) == old(pcb.taken) + old(Bytes()) + line;
      queued := true;
    }
  }

  // ---------------------------------------------------------------- file transfer

  /** A RETR transfer: the fifo, the part of the file not read yet, whether the file is still
      open, whether the data connection was closed (and 226 sent), and what TCP accepted. */
  datatype Transfer = Transfer(fifo: Fifo, unread: seq<byte>, fileOpen: bool, done: bool, accepted: seq<byte>)

  /** One send_file call; `avail` bounds what vfs_read returns this time. */
  ghost function SendFile(x: Transfer, avail: nat, t: Tcp): Transfer
    requires Wf(x.fifo)
  {
    UsedIsDistance(x.fifo);
    var room := Min(Space(x.fifo), 2048);
    if x.done then x
    else if x.fileOpen then
      if room == 0 then Drained(x, t)
      else
        var len := Min(room, Min(avail, |x.unread|));
        if len == 0 then
          if x.unread != [] then x else x.(fileOpen := false)
        else
          WriteRefines(x.fifo, x.unread[..len]);
          Drained(x.(fifo := Write(x.fifo, x.unread[..len]), unread := x.unread[len..]), t)
    else if Used(x.fifo) > 0 then Drained(x, t)
    else x.(done := true)
  }

  ghost function Drained(x: Transfer, t: Tcp): Transfer
    requires Wf(x.fifo)
  {
    SendRefines(x.fifo, t);
    var (f, sent) := Send(x.fifo, t);
    x.(fifo := f, accepted := x.accepted + sent)
  }

  ghost predicate TransferInv(x: Transfer, file: seq<byte>) {
    && Wf(x.fifo) && 0 < |x.fifo.buf|
    && x.accepted + Contents(x.fifo) + x.unread == file
    && (!x.fileOpen ==> x.unread == [])
    && (x.done ==> x.accepted == file)
  }

  lemma DrainedKeepsInv(x: Transfer, t: Tcp, file: seq<byte>)
    requires TransferInv(x, file) && !x.done
    ensures TransferInv(Drained(x, t), file)
  {
    SendRefines(x.fifo, t);
    var (f, sent) := Send(x.fifo, t);
    var q := Contents(x.fifo);
    assert q == sent + Contents(f);
    assert x.accepted + (sent + Contents(f)) == (x.accepted + sent) + Contents(f);
  }

  lemma SendFileKeepsInv(x: Transfer, avail: nat, t: Tcp, file: seq<byte>)
    requires TransferInv(x, file)
    ensures TransferInv(SendFile(x, avail, t), file)
  {
    hide RingRead, RingWrite, Mod, And, IsPow2, Wrap, Write, Send;
    UsedIsDistance(x.fifo);
    var room := Min(Space(x.fifo), 2048);
    var len := Min(room, Min(avail, |x.unread|));
    if x.done {
    } else if x.fileOpen && room != 0 {
      if len != 0 {
        var d := x.unread[..len];
        WriteRefines(x.fifo, d);
        var y := x.(fifo := Write(x.fifo, d), unread := x.unread[len..]);
        assert d[..Min(|d|, Space(x.fifo))] == d;
        assert x.accepted + (Contents(x.fifo) + d) + y.unread == x.accepted + Contents(x.fifo) + (d + y.unread);
        assert d + y.unread == x.unread;
        UsedIsDistance(y.fifo);
        DrainedKeepsInv(y, t, file);
      }
    } else if x.fileOpen || Used(x.fifo) > 0 {
      DrainedKeepsInv(x, t, file);
    } else {
      assert Contents(x.fifo) == [];
    }
  }

  /** All send_file calls of a transfer, in order. */
  ghost function RunTransfer(x: Transfer, calls: seq<(nat, Tcp)>): Transfer
    requires Wf(x.fifo)
    decreases |calls|
  {
    if calls == [] then x else
      var y := SendFile(x, calls[0].0, calls[0].1);
      if Wf(y.fifo) then RunTransfer(y, calls[1..]) else y
  }

  /** "226 Transfer complete" is sent only after TCP accepted the whole file, in order; at
      every earlier moment accepted, queued and unread bytes make up the file. */
  lemma {:induction false} TransferComplete(x: Transfer, calls: seq<(nat, Tcp)>, file: seq<byte>)
    requires TransferInv(x, file)
    ensures TransferInv(RunTransfer(x, calls), file)
    ensures RunTransfer(x, calls).done ==> RunTransfer(x, calls).accepted == file
    decreases |calls|
  {
    if calls != [] {
      SendFileKeepsInv(x, calls[0].0, calls[0].1, file);
      TransferComplete(SendFile(x, calls[0].0, calls[0].1), calls[1..], file);
    }
  }

  // ---------------------------------------------------------------- the transfer can finish

  /** What is left to do: bytes to read count twice, as they are still to be queued and sent. */
  ghost function LeftToDo(x: Transfer): nat
    requires 0 < |x.fifo.buf|
  {
    2 * |x.unread| + Used(x.fifo) + (if x.fileOpen then 1 else 0) + (if x.done then 0 else 1)
  }

  /** One call to which file system and TCP answer with all they can. */
  ghost function BestCall(x: Transfer): (nat, Tcp) {
    (|x.unread|, Tcp(0xFFFF, true, true))
  }

  /** A send to which TCP has room and succeeds takes something out. */
  lemma SendTakes(f: Fifo, t: Tcp)
    requires Wf(f) && t.sndbuf > 0 && t.firstOk && t.lastOk
    ensures 0 < |f.buf| && Wf(Send(f, t).0) && |Send(f, t).0.buf| == |f.buf|
    ensures Used(f) > 0 ==> Used(Send(f, t).0) < Used(f)
    ensures Used(f) == 0 ==> Send(f, t).0 == f
  {
    hide RingRead, Mod, And, IsPow2, Used, Wrap;
    SendRefines(f, t);
    UsedIsDistance(f);
  }

  lemma BestCallProgresses(x: Transfer, file: seq<byte>)
    requires TransferInv(x, file) && !x.done && |x.fifo.buf| > 1
    ensures var y := SendFile(x, BestCall(x).0, BestCall(x).1);
      TransferInv(y, file) && |y.fifo.buf| == |x.fifo.buf| && LeftToDo(y) < LeftToDo(x)
  {
    hide RingRead, RingWrite, Mod, And, IsPow2, Wrap, Write, Send, Used, Contents;
    var (avail, t) := BestCall(x);
    SendFileKeepsInv(x, avail, t, file);
    UsedIsDistance(x.fifo);
    SendTakes(x.fifo, t);
    var room := Min(Space(x.fifo), 2048);
    var len := Min(room, |x.unread|);
    if x.fileOpen && len > 0 {
      LevelAfterWrite(x.fifo, x.unread[..len]);
      WriteRefines(x.fifo, x.unread[..len]);
      SendTakes(Write(x.fifo, x.unread[..len]), t);
      WriteKeepsSize(x.fifo, x.unread[..len]);
    }
  }

  lemma WriteKeepsSize(f: Fifo, d: seq<byte>)
    requires Wf(f)
    ensures |Write(f, d).buf| == |f.buf|
  {
    hide RingWrite, And, Mod, Used;
    UsedIsDistance(f);
  }

  /** From every state of a transfer with room for a byte in the fifo, some answers of file system
      and TCP bring it to its end; and then TCP has accepted the whole file. */
  lemma {:induction false} TransferCanFinish(x: Transfer, file: seq<byte>) returns (calls: seq<(nat, Tcp)>)
    requires TransferInv(x, file) && |x.fifo.buf| > 1
    ensures RunTransfer(x, calls).done && RunTransfer(x, calls).accepted == file
    decreases LeftToDo(x)
  {
    hide SendFile, LeftToDo;
    if x.done {
      calls := [];
    } else {
      BestCallProgresses(x, file);
      var y := SendFile(x, BestCall(x).0, BestCall(x).1);
      var rest := TransferCanFinish(y, file);
      calls := [BestCall(x)] + rest;
      assert calls[1..] == rest;
    }
  }

  /** A fifo of a single cell, all of it the spare one, never moves an open file. */
  lemma {:induction false} SingleCellStalls(x: Transfer, calls: seq<(nat, Tcp)>)
    requires Wf(x.fifo) && |x.fifo.buf| == 1 && x.fileOpen && !x.done
    ensures RunTransfer(x, calls) == x
    decreases |calls|
  {
    hide And, Mod, IsPow2, RingRead;
    if calls != [] {
      UsedIsDistance(x.fifo);
      assert SendFile(x, calls[0].0, calls[0].1) == x;
      SingleCellStalls(x, calls[1..]);
    }
  }
}
