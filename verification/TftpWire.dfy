/** TFTP packets on the wire (RFC 1350, RFC 2347, RFC 2348) as app/tftp/tftpclient.c reads
    and writes them. */
module TftpWire {
  import opened Words
  import opened Seqs
  import opened CString

  const TFTP_DATA: u16 := 3
  const TFTP_ACK: u16 := 4
  const TFTP_ERROR: u16 := 5
  const TFTP_OACK: u16 := 6

  /** What the handler distinguishes in a received packet. */
  datatype Packet =
    | OAck(options: seq<byte>)
    | Data(num: u16, payload: seq<byte>)
    | Error
    | Ignored

  function Be16(b: seq<byte>): u16
    requires |b| == 2
  {
    0x100 * (b[0] as int) + b[1] as int
  }

  function ToBe16(x: u16): (b: seq<byte>)
    ensures |b| == 2
  {
    [x / 0x100, x % 0x100]
  }

  function Decode(p: seq<byte>): Packet {
    if |p| < 2 then Ignored
    else
      var op := Be16(p[0..2]);
      if op == TFTP_OACK then OAck(p[2..])
      else if op == TFTP_DATA then
        if |p| < 4 then Ignored else Data(Be16(p[2..4]), p[4..])
      else if op == TFTP_ERROR then Error
      else Ignored
  }

  function EncodeData(num: u16, payload: seq<byte>): seq<byte> {
    ToBe16(TFTP_DATA) + ToBe16(num) + payload
  }

  function EncodeOack(options: seq<byte>): seq<byte> {
    ToBe16(TFTP_OACK) + options
  }

  function EncodeAck(num: u16): seq<byte> {
    ToBe16(TFTP_ACK) + ToBe16(num)
  }

  lemma DecodeEncode(num: u16, bytes: seq<byte>)
    ensures Decode(EncodeData(num, bytes)) == Data(num, bytes)
    ensures Decode(EncodeOack(bytes)) == OAck(bytes)
    ensures Decode(EncodeAck(num)) == Ignored
    ensures |EncodeAck(num)| == 4 && Be16(EncodeAck(num)[2..4]) == num
  {
    var d, o, a := EncodeData(num, bytes), EncodeOack(bytes), EncodeAck(num);
    assert d[0..2] == ToBe16(TFTP_DATA) && d[2..4] == ToBe16(num) && d[4..] == bytes;
    assert o[0..2] == ToBe16(TFTP_OACK) && o[2..] == bytes;
    assert a[0..2] == ToBe16(TFTP_ACK) && a[2..4] == ToBe16(num);
  }

  /** The packets that matter to the client, byte by byte; numbers are in network order. */
  lemma DecodeBytes(p: seq<byte>)
    ensures |p| >= 2 && p[0] == 0 && p[1] == 6 ==> Decode(p) == OAck(p[2..])
    ensures |p| >= 4 && p[0] == 0 && p[1] == 3 ==> Decode(p) == Data(0x100 * (p[2] as int) + p[3] as int, p[4..])
    ensures Decode(p).OAck? || Decode(p).Data? ==> |p| >= 2 && p[0] == 0 && (p[1] == 6 || (p[1] == 3 && |p| >= 4))
  {
  }

  lemma AckBytes(num: u16)
    ensures EncodeAck(num) == [0, 4, num / 0x100, num % 0x100]
    ensures forall hi: byte, lo: byte :: num == 0x100 * (hi as int) + lo as int ==> EncodeAck(num) == [0, 4, hi, lo]
  {
  }

  // ---------------------------------------------------------------- the blksize option

  /** "blksize" with its terminator. */
  const BLKSIZE: seq<byte> := [98, 108, 107, 115, 105, 122, 101, 0]

  predicate MatchAt(opts: seq<byte>, i: nat) {
    i + 8 < |opts| && opts[i..i + 8] == BLKSIZE
  }

  /** The negotiated block size: the first match of the option name, as an unsigned short. */
  function FindBlksize(opts: seq<byte>, i: nat): (r: Option<u16>)
    decreases |opts| - i
  {
    if i + 8 >= |opts| then None
    else if MatchAt(opts, i) then Some(StrToUl(Text(opts[i + 8..])) % 0x1_0000)
    else FindBlksize(opts, i + 1)
  }

  /** The place of the option: its name, with its terminator, and at least one byte behind. */
  lemma MatchAtMeans(opts: seq<byte>, i: nat)
    ensures MatchAt(opts, i) <==> i + 8 < |opts| && opts[i..i + 8] == ToBytes("blksize\0")
  {
    assert BLKSIZE == ToBytes("blksize\0") by { NameBytes(); }
  }

  lemma NameBytes()
    ensures BLKSIZE == ToBytes("blksize\0")
  {
  }

  /** Without such a place the block size stays. */
  lemma {:induction false} NoOption(opts: seq<byte>, i: nat)
    requires forall k :: i <= k ==> !MatchAt(opts, k)
    ensures FindBlksize(opts, i) == None
    decreases |opts| - i
  {
    hide StrToUl, MatchAt;
    if i + 8 < |opts| {
      NoOption(opts, i + 1);
    }
  }

  /** The first such place decides. */
  lemma {:induction false} FirstMatchDecides(o: seq<byte>, i: nat, k: nat)
    requires i <= k && MatchAt(o, k) && forall j :: i <= j < k ==> !MatchAt(o, j)
    ensures FindBlksize(o, i) == Some(StrToUl(Text(o[k + 8..])) % 0x1_0000)
    decreases k - i
  {
    if i < k {
      FirstMatchDecides(o, i + 1, k);
    }
  }

  /** The loop of the TFTP_OACK case. */
  method ScanOptions(opts: seq<byte>, current: u16) returns (blksize: u16)
    ensures blksize == match FindBlksize(opts, 0) case Some(b) => b case None => current
  {
    blksize := current;
    var i := 0;
    while i + 8 < |opts|
      invariant 0 <= i && blksize == current
      invariant FindBlksize(opts, 0) == FindBlksize(opts, i)
    {
      if opts[i..i + 8] == BLKSIZE {
        blksize := StrToUl(Text(opts[i + 8..])) % 0x1_0000;
        break;
      }
      i := i + 1;
    }
  }

  /** A number as options carry it. */
  function Number(n: nat): seq<byte> {
    ToBytes(Decimal(n))
  }

  lemma NumberIsText(n: nat)
    ensures Text(Number(n)) == Decimal(n) && 0 !in Number(n)
  {
    hide Decimal;
    var s := Decimal(n);
    assert forall c :: c in s ==> IsDigit(c);
    TextOfBytes(s);
    forall i | 0 <= i < |s|
      ensures Number(n)[i] != 0
    {
      assert s[i] in s;
    }
  }

  lemma ValueOfNumber(n: u16, rest: seq<byte>)
    requires rest != [] && rest[0] == 0
    ensures StrToUl(Text(Number(n) + rest)) == n
  {
    hide Decimal, Number, ScanInt;
    NumberIsText(n);
    TextParts(Number(n), rest);
    DecimalScanned(n, Text(rest));
  }

  /** A block-size option in the format of RFC 2348, after any options that do not contain
      its name and before any others, is read back exactly. */
  lemma BlksizeRoundTrip(before: seq<byte>, n: u16, after: seq<byte>)
    requires forall i :: 0 <= i < |before| ==> !MatchAt(before + BLKSIZE + Number(n) + [0] + after, i)
    ensures FindBlksize(before + BLKSIZE + Number(n) + [0] + after, 0) == Some(n)
  {
    hide FindBlksize, StrToUl, Number, Text;
    var o, k := before + BLKSIZE + Number(n) + [0] + after, |before|;
    assert o[k..k + 8] == BLKSIZE;
    assert o[k + 8..] == Number(n) + ([0] + after);
    ValueOfNumber(n, [0] + after);
    FirstMatchDecides(o, 0, k);
  }

  // ---------------------------------------------------------------- the read request

  const TFTP_RRQ: u16 := 1

  /** "octet" and "timeout". */
  const OCTET: seq<byte> := [111, 99, 116, 101, 116]
  const TIMEOUT_NAME: seq<byte> := [116, 105, 109, 101, 111, 117, 116]

  /** Strings in a row, each with its terminator. */
  function Terminated(strs: seq<seq<byte>>): seq<byte> {
    if strs == [] then [] else strs[0] + [0] + Terminated(strs[1..])
  }

  lemma TerminatedCons(w: seq<byte>, strs: seq<seq<byte>>)
    ensures Terminated([w] + strs) == w + [0] + Terminated(strs) && Terminated([]) == []
  {
    assert ([w] + strs)[1..] == strs;
  }

  /** How a server takes them apart: up to the next terminator, again and again. */
  function Split(bs: seq<byte>, word: seq<byte>): Option<seq<seq<byte>>>
    decreases |bs|
  {
    if bs == [] then (if word == [] then Some([]) else None)
    else if bs[0] != 0 then Split(bs[1..], word + [bs[0]])
    else match Split(bs[1..], []) case None => None case Some(more) => Some([word] + more)
  }

  lemma {:induction false} SplitWord(w: seq<byte>, rest: seq<byte>, word: seq<byte>)
    requires 0 !in w
    ensures Split(w + [0] + rest, word) ==
      match Split(rest, []) case None => None case Some(more) => Some([word + w] + more)
    decreases |w|
  {
    var bs := w + [0] + rest;
    if w == [] {
      assert bs[0] == 0 && bs[1..] == rest && word + w == word;
    } else {
      assert bs[0] == w[0] && w[0] in w && bs[1..] == w[1..] + [0] + rest;
      SplitWord(w[1..], rest, word + [w[0]]);
      assert word + [w[0]] + w[1..] == word + w;
    }
  }

  lemma {:induction false} SplitTerminated(strs: seq<seq<byte>>)
    requires forall w :: w in strs ==> 0 !in w
    ensures Split(Terminated(strs), []) == Some(strs)
    decreases |strs|
  {
    if strs != [] {
      assert strs[0] in strs && forall w :: w in strs[1..] ==> w in strs;
      SplitTerminated(strs[1..]);
      SplitWord(strs[0], Terminated(strs[1..]), []);
      assert [] + strs[0] == strs[0] && [strs[0]] + strs[1..] == strs;
    }
  }

  /** The name of the option without its terminator. */
  function BlksizeName(): (name: seq<byte>)
    ensures name + [0] == BLKSIZE && 0 !in name
  {
    BLKSIZE[..7]
  }

  /** A read request (RFC 1350, section 5) with the two options of RFC 2347 that the client sends. */
  function EncodeRequest(file: seq<byte>, timeout: nat, blksize: nat): seq<byte> {
    ToBe16(TFTP_RRQ) + Terminated([file, OCTET, TIMEOUT_NAME, Number(timeout), BlksizeName(), Number(blksize)])
  }

  /** The server reads the file name, the mode and both options back. */
  lemma RequestRead(file: seq<byte>, timeout: nat, blksize: nat)
    requires 0 !in file
    ensures var r := EncodeRequest(file, timeout, blksize);
      && Be16(r[0..2]) == TFTP_RRQ
      && Split(r[2..], []) == Some([file, OCTET, TIMEOUT_NAME, Number(timeout), BlksizeName(), Number(blksize)])
      && ScanInt(Text(Number(timeout))) == Some((timeout, "")) && ScanInt(Text(Number(blksize))) == Some((blksize, ""))
  {
    hide Number, Decimal, Terminated, Split, ScanInt;
    var r := EncodeRequest(file, timeout, blksize);
    NumberIsText(timeout);
    NumberIsText(blksize);
    var strs := [file, OCTET, TIMEOUT_NAME, Number(timeout), BlksizeName(), Number(blksize)];
    assert r[0..2] == ToBe16(TFTP_RRQ) && r[2..] == Terminated(strs);
    SplitTerminated(strs);
    DecimalScanned(timeout, "");
    DecimalScanned(blksize, "");
    assert Decimal(timeout) + "" == Decimal(timeout) && Decimal(blksize) + "" == Decimal(blksize);
  }
}
