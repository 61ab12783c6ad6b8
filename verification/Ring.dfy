/** Reading and writing a run of bytes around a circular buffer, independent of how
    the code splits the run at the end of the buffer. */
module Ring {
  import opened Words
  import opened Seqs

  /** `n` consecutive cells of `buf` from position `pos`, wrapping at the end. */
  function RingRead(buf: seq<byte>, pos: nat, n: nat): (r: seq<byte>)
    requires |buf| > 0
    ensures |r| == n
  {
    seq(n, j requires 0 <= j < n => buf[Mod(pos + j, |buf|)])
  }

  /** `buf` with the bytes `d` stored from position `pos` on, wrapping at the end. */
  function RingWrite(buf: seq<byte>, pos: nat, d: seq<byte>): (r: seq<byte>)
    requires |buf| > 0
    ensures |r| == |buf|
  {
    seq(|buf|, i requires 0 <= i < |buf| =>
      var k := Mod(i - pos, |buf|);
      if k < |d| then d[k] else buf[i])
  }

  method MemCpy(dst: array<byte>, at: nat, src: seq<byte>)
    requires at + |src| <= dst.Length
    modifies dst
    ensures dst[..] == Overlay(old(dst[..]), at, src)
  {
    forall i | 0 <= i < |src| {
      dst[at + i] := src[i];
    }
  }

  /** Positions that agree modulo the size denote the same cells. */
  lemma RingReadCongruent(buf: seq<byte>, p: nat, q: nat, n: nat)
    requires |buf| > 0 && Mod(p, |buf|) == Mod(q, |buf|)
    ensures RingRead(buf, p, n) == RingRead(buf, q, n)
  {
    forall j | 0 <= j < n
      ensures RingRead(buf, p, n)[j] == RingRead(buf, q, n)[j]
    {
      ModAdd(p, j, |buf|);
      ModAdd(q, j, |buf|);
    }
  }

  lemma ModMinusCongruent(i: int, p: int, q: int, n: nat)
    requires n > 0 && Mod(p, n) == Mod(q, n)
    ensures Mod(i - p, n) == Mod(i - q, n)
  {
    ModAdd(q, i - p - q, n);
    ModAdd(p, i - p - q, n);
  }

  lemma RingWriteCongruent(buf: seq<byte>, p: nat, q: nat, d: seq<byte>)
    requires |buf| > 0 && Mod(p, |buf|) == Mod(q, |buf|)
    ensures RingWrite(buf, p, d) == RingWrite(buf, q, d)
  {
    forall i | 0 <= i < |buf|
      ensures RingWrite(buf, p, d)[i] == RingWrite(buf, q, d)[i]
    {
      ModMinusCongruent(i, p, q, |buf|);
    }
  }

  lemma RingReadSplit(buf: seq<byte>, pos: nat, m: nat, n: nat)
    requires |buf| > 0 && m <= n
    ensures RingRead(buf, pos, n)[..m] == RingRead(buf, pos, m)
    ensures RingRead(buf, pos, n)[m..] == RingRead(buf, pos + m, n - m)
  {
    forall j | 0 <= j < n - m
      ensures RingRead(buf, pos, n)[m..][j] == RingRead(buf, pos + m, n - m)[j]
    {
      assert pos + (m + j) == (pos + m) + j;
    }
  }

  /** Appending: what was readable stays readable and the new bytes follow it. */
  lemma RingReadAfterWrite(buf: seq<byte>, pos: nat, used: nat, d: seq<byte>)
    requires |buf| > 0 && used + |d| <= |buf|
    ensures RingRead(RingWrite(buf, pos + used, d), pos, used + |d|) == RingRead(buf, pos, used) + d
  {
    var N := |buf|;
    var w := RingWrite(buf, pos + used, d);
    forall j | 0 <= j < used + |d|
      ensures RingRead(w, pos, used + |d|)[j] == (RingRead(buf, pos, used) + d)[j]
    {
      ModAdd(pos + j, -((pos + used) as int), N);
      assert Mod(Mod(pos + j, N) - (pos + used), N) == Mod(j - used, N);
      assert Mod(j - used, N) == if j < used then j - used + N else j - used;
    }
  }

  /** The two memcpys of a put: up to the end of the buffer, then from its start. */
  lemma TwoPieceWrite(buf: seq<byte>, off: nat, d: seq<byte>, l: nat)
    requires off <= |buf| && 0 < |buf| && |d| <= |buf|
    requires l == Min(|d|, |buf| - off)
    ensures Overlay(Overlay(buf, off, d[..l]), 0, d[l..]) == RingWrite(buf, off, d)
  {
    var N := |buf|;
    var r := Overlay(Overlay(buf, off, d[..l]), 0, d[l..]);
    forall i | 0 <= i < N
      ensures r[i] == RingWrite(buf, off, d)[i]
    {
      assert Mod(i - off, N) == if i < off then i - off + N else i - off;
    }
  }

  /** The two memcpys of a get. */
  lemma TwoPieceRead(buf: seq<byte>, off: nat, n: nat, l: nat)
    requires off <= |buf| && 0 < |buf| && n <= |buf|
    requires l == Min(n, |buf| - off)
    ensures buf[off..off + l] + buf[..n - l] == RingRead(buf, off, n)
  {
    var N := |buf|;
    forall j | 0 <= j < n
      ensures (buf[off..off + l] + buf[..n - l])[j] == RingRead(buf, off, n)[j]
    {
      assert Mod(off + j, N) == if off + j < N then off + j else off + j - N;
    }
  }

  /** Two copies in a row into the front of the caller's buffer. */
  lemma TwoPieceCopy(dst: seq<byte>, a: seq<byte>, b: seq<byte>)
    requires |a| + |b| <= |dst|
    ensures Overlay(Overlay(dst, 0, a), |a|, b) == (a + b) + dst[|a + b|..]
  {
  }

  /** The two memcpys of a get: l bytes from position `at`, the others from the start. */
  method MemCpyAround(dst: array<byte>, buf: array<byte>, at: nat, l: nat, len: nat)
    requires dst != buf && at + l <= buf.Length && l <= len <= dst.Length && len - l <= buf.Length
    modifies dst
    ensures dst[..] == buf[at..at + l] + buf[..len - l] + old(dst[..])[len..]
  {
    hide Overlay;
    TwoPieceCopy(dst[..], buf[at..at + l], buf[..len - l]);
    MemCpy(dst, 0, buf[at..at + l]);
    MemCpy(dst, l, buf[..len - l]);
  }
}
