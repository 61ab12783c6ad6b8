/** app/tftp/tftpclient.c: the lockstep TFTP client against any number of server sessions over
    lossy, duplicating channels, as a step system. */
module TftpProtocol {
  import opened Words
  import opened Seqs
  import opened CString
  import opened TftpWire

  const TFTP_BLOCK_SIZE: u16 := 512
  const TIMEOUT_COUNT: nat := 10
  const WELL_KNOWN_PORT: u16 := 69

  /** TIMEOUT in seconds, the block size asked for, and the size of the buffer in TftpSend. */
  const TIMEOUT: nat := 5
  const TFTP_MTU_BLOCKSIZE: nat := 1048
  const PKT_BUF_SIZE := 700

  // ---------------------------------------------------------------- the client

  datatype State = RRQ | OACK | DATA

  /** The statics of the client. `dest` is the port in server_addr, which recvfrom overwrites
      with the sender of every packet; `stored` is the history of store_block calls; `done`
      records that "tftp succeed" was reached and the client torn down. */
  datatype Client = Client(st: State, serverPort: u16, block: u16, lastBlock: u16, blkSize: u16,
                           timeouts: nat, dest: u16, stored: seq<(u32, seq<byte>)>, done: bool)

  /** What TftpSend transmits. */
  datatype Out = Nothing | Request | Ack(num: u16)

  function Start(): Client {
    Client(RRQ, WELL_KNOWN_PORT, 0, 0, TFTP_BLOCK_SIZE, 0, WELL_KNOWN_PORT, [], false)
  }

  function Send(c: Client): Out {
    if c.st == RRQ then Request else Ack(c.block)
  }

  /** A data packet that passed the port filter. */
  function OnData(c: Client, port: u16, num: u16, payload: seq<byte>): (Client, Out) {
    var opening := c.st != DATA;
    var c1 := if opening then c.(block := num, st := DATA, serverPort := port, lastBlock := 0) else c.(block := num);
    if opening && num != 1 then (c1, Nothing)
    else if num == c1.lastBlock then (c1, Send(c1))
    else
      var c2 := c1.(lastBlock := num, stored := c1.stored + [(Wrap(num as int - 1), payload)]);
      (c2.(done := |payload| < c2.blkSize), Send(c2))
  }

  /** TftpHandler. */
  function Handle(c: Client, p: Packet, port: u16): (Client, Out) {
    if c.st != RRQ && port != c.serverPort then (c, Nothing)
    else match p
      case OAck(options) =>
        var size := match FindBlksize(options, 0) case Some(b) => b case None => c.blkSize;
        var c1 := c.(st := OACK, serverPort := port, blkSize := size);
        (c1, Send(c1))
      case Data(num, payload) => OnData(c, port, num, payload)
      case Error => (c, Nothing)
      case Ignored => (c, Nothing)
  }

  /** TftpTimeout: the count is never reset, so at most ten resends happen in a transfer. */
  function Timeout(c: Client): (Client, Out) {
    var c1 := c.(timeouts := c.timeouts + 1);
    (c1, if c1.timeouts > TIMEOUT_COUNT then Nothing else Send(c1))
  }

  /** The bytes on the wire. */
  function Transmitted(bootFile: seq<byte>, o: Out): seq<byte> {
    match o
    case Nothing => []
    case Request => EncodeRequest(bootFile, TIMEOUT, TFTP_MTU_BLOCKSIZE)
    case Ack(num) => EncodeAck(num)
  }

  lemma NothingTransmitted(bootFile: seq<byte>)
    ensures Transmitted(bootFile, Nothing) == []
  {
  }

  lemma RequestParts(file: seq<byte>)
    requires |file| < 128
    ensures EncodeRequest(file, TIMEOUT, TFTP_MTU_BLOCKSIZE) ==
      ToBe16(TFTP_RRQ) + file + [0] + OCTET + [0] + TIMEOUT_NAME + [0] + Number(TIMEOUT) + [0]
      + BLKSIZE + Number(TFTP_MTU_BLOCKSIZE) + [0]
    ensures |EncodeRequest(file, TIMEOUT, TFTP_MTU_BLOCKSIZE)| <= PKT_BUF_SIZE
  {
    hide Decimal, Terminated;
    assert Pow10(1) == 10 && Pow10(4) == 10000;
    DecimalShort(TIMEOUT, 1);
    DecimalShort(TFTP_MTU_BLOCKSIZE, 4);
    var s1 := [Number(TFTP_MTU_BLOCKSIZE)];
    var s2 := [BlksizeName()] + s1;
    var s3 := [Number(TIMEOUT)] + s2;
    var s4 := [TIMEOUT_NAME] + s3;
    var s5 := [OCTET] + s4;
    TerminatedCons(Number(TFTP_MTU_BLOCKSIZE), []);
    assert s1 == [Number(TFTP_MTU_BLOCKSIZE)] + [];
    TerminatedCons(BlksizeName(), s1);
    TerminatedCons(Number(TIMEOUT), s2);
    TerminatedCons(TIMEOUT_NAME, s3);
    TerminatedCons(OCTET, s4);
    TerminatedCons(file, s5);
    assert [file] + s5 == [file, OCTET, TIMEOUT_NAME, Number(TIMEOUT), BlksizeName(), Number(TFTP_MTU_BLOCKSIZE)];
  }

  /** The request as a server reads it. */
  lemma RequestOnWire(file: seq<byte>)
    requires 0 !in file
    ensures var r := EncodeRequest(file, TIMEOUT, TFTP_MTU_BLOCKSIZE);
      && |r| > 2 && r[..2] == [0, 1]
      && Split(r[2..], []) == Some([file, ToBytes("octet"), ToBytes("timeout"), ToBytes("5"),
                                    ToBytes("blksize"), ToBytes("1048")])
  {
    hide Split, Number, ToBytes, Be16;
    RequestRead(file, TIMEOUT, TFTP_MTU_BLOCKSIZE);
    Names();
    assert EncodeRequest(file, TIMEOUT, TFTP_MTU_BLOCKSIZE)[..2] == ToBe16(TFTP_RRQ);
  }

  /** The strings of the request in plain characters. */
  lemma Names()
    ensures OCTET == ToBytes("octet") && TIMEOUT_NAME == ToBytes("timeout") && BlksizeName() == ToBytes("blksize")
    ensures Number(TIMEOUT) == ToBytes("5") && Number(TFTP_MTU_BLOCKSIZE) == ToBytes("1048")
  {
    assert Decimal(5) == "5";
    assert Decimal(10) == "10" && Decimal(104) == "104" && Decimal(1048) == "1048";
  }

  /** How the client answers a raw packet. Only an option acknowledgement or a data packet from the
      server it is bound to has an effect; a data packet is answered with its own number unless it
      opens the transfer with a block other than 1, and stored unless it has the number stored
      last. */
  ghost predicate Answers(c: Client, c': Client, p: seq<byte>, port: u16, wire: seq<byte>) {
    var heard := c.st == RRQ || port == c.serverPort;
    if heard && |p| >= 4 && p[0] == 0 && p[1] == 3 then
      var num, opening := 0x100 * (p[2] as int) + p[3] as int, c.st != DATA;
      var last := if opening then 0 else c.lastBlock;
      var next := num != last && (opening ==> num == 1);
      && wire == (if opening && num != 1 then [] else [0, 4, p[2], p[3]])
      && c' == c.(st := DATA, serverPort := port, block := num, lastBlock := if next then num else last,
                  stored := c.stored + (if next then [(if num == 0 then 0xFFFF_FFFF else num - 1, p[4..])] else []),
                  done := if next then |p| - 4 < c.blkSize else c.done)
    else if heard && |p| >= 2 && p[0] == 0 && p[1] == 6 then
      && wire == [0, 4, c.block / 0x100, c.block % 0x100]
      && c' == c.(st := OACK, serverPort := port, blkSize := c'.blkSize)
      && c'.blkSize == match FindBlksize(p[2..], 0) case Some(b) => b case None => c.blkSize
    else wire == [] && c' == c
  }

  lemma HandleAnswers(bootFile: seq<byte>, c: Client, p: seq<byte>, port: u16)
    ensures var (c', o) := Handle(c, Decode(p), port); Answers(c, c', p, port, Transmitted(bootFile, o))
  {
    hide FindBlksize, EncodeRequest, EncodeAck, Decode, OnData;
    DecodeBytes(p);
    if (c.st == RRQ || port == c.serverPort) && |p| >= 4 && p[0] == 0 && p[1] == 3 {
      DataAnswers(bootFile, c, p, port);
    } else {
      AckBytes(c.block);
    }
  }

  lemma DataAnswers(bootFile: seq<byte>, c: Client, p: seq<byte>, port: u16)
    requires (c.st == RRQ || port == c.serverPort) && |p| >= 4 && p[0] == 0 && p[1] == 3
    ensures var (c', o) := OnData(c, port, 0x100 * (p[2] as int) + p[3] as int, p[4..]);
      Answers(c, c', p, port, Transmitted(bootFile, o))
  {
    hide FindBlksize, EncodeRequest, EncodeAck;
    AckBytes(0x100 * (p[2] as int) + p[3] as int);
  }

  class TftpClient {
    var tftpState: State
    var tftpServerPort: u16
    var tftpBlock: u16
    var tftpLastBlock: u16
    var tftpBlkSize: u16
    var tftpTimeoutCount: nat
    var serverAddrPort: u16
    var finished: bool
    ghost var stored: seq<(u32, seq<byte>)>

    /** BootFile, a terminated string in 128 bytes. */
    const bootFile: seq<byte>

    ghost function Value(): Client
      reads this
    {
      Client(tftpState, tftpServerPort, tftpBlock, tftpLastBlock, tftpBlkSize,
             tftpTimeoutCount, serverAddrPort, stored, finished)
    }

    /** TftpStart. */
    constructor (bootFile: seq<byte>)
      ensures Value() == Start() && this.bootFile == bootFile
      ensures tftpState == RRQ && tftpServerPort == 69 && tftpBlkSize == 512 && tftpTimeoutCount == 0 && !finished && stored == []
    {
      this.bootFile := bootFile;
      tftpState, tftpServerPort, tftpBlock, tftpLastBlock := RRQ, WELL_KNOWN_PORT, 0, 0;
      tftpBlkSize, tftpTimeoutCount, serverAddrPort, finished := TFTP_BLOCK_SIZE, 0, WELL_KNOWN_PORT, false;
      stored := [];
    }

    /** TftpSend: the packet it hands to sendto, which fits its buffer. On the wire it is an
        acknowledgement of tftpBlock, or a request that a server takes apart into the file name,
        the mode and the two options. */
    method TftpSend() returns (o: Out, wire: seq<byte>)
      requires |bootFile| < 128
      ensures o == Send(Value()) && wire == Transmitted(bootFile, o) && |wire| <= PKT_BUF_SIZE == 700
      ensures tftpState != RRQ ==> wire == [0, 4, tftpBlock / 0x100, tftpBlock % 0x100]
      ensures tftpState == RRQ && 0 !in bootFile ==>
        && |wire| > 2 && wire[..2] == [0, 1]
        && Split(wire[2..], []) == Some([bootFile, ToBytes("octet"), ToBytes("timeout"), ToBytes("5"),
                                         ToBytes("blksize"), ToBytes("1048")])
    {
      hide Split, EncodeRequest, Number;
      if tftpState == RRQ && 0 !in bootFile {
        RequestOnWire(bootFile);
      }
      match tftpState
      case RRQ =>
        wire := ToBe16(TFTP_RRQ);
        wire := wire + bootFile + [0];
        wire := wire + OCTET + [0];
        wire := wire + TIMEOUT_NAME + [0];
        wire := wire + Number(TIMEOUT) + [0];
        wire := wire + BLKSIZE + Number(TFTP_MTU_BLOCKSIZE) + [0];
        RequestParts(bootFile);
        o := Request;
      case OACK =>
        o, wire := Ack(tftpBlock), EncodeAck(tftpBlock);
      case DATA =>
        o, wire := Ack(tftpBlock), EncodeAck(tftpBlock);
    }

    /** TftpHandler, on the bytes that were received. */
    method TftpHandler(p: seq<byte>, port: u16) returns (o: Out, wire: seq<byte>)
      requires |bootFile| < 128
      modifies this
      ensures (Value(), o) == Handle(old(Value()), Decode(p), port) && wire == Transmitted(bootFile, o)
      ensures Answers(old(Value()), Value(), p, port, wire)
    {
      hide FindBlksize, OnData, Be16, Transmitted, Answers, EncodeAck, EncodeRequest, Number, Split, ToBytes;
      HandleAnswers(bootFile, Value(), p, port);
      o, wire := Nothing, [];
      assert wire == Transmitted(bootFile, Nothing) by { NothingTransmitted(bootFile); }
      if tftpState != RRQ && port != tftpServerPort {
        return;
      }
      if |p| < 2 {
        return;
      }
      var proto := Be16(p[0..2]);
      if proto == TFTP_OACK {
        tftpState := OACK;
        tftpServerPort := port;
        tftpBlkSize := ScanOptions(p[2..], tftpBlkSize);
        o, wire := TftpSend();
      } else if proto == TFTP_DATA {
        if |p| < 4 {
          return;
        }
        o, wire := DataPacket(Be16(p[2..4]), p[4..], port);
      }
    }

    /** The TFTP_DATA case. */
    method DataPacket(num: u16, payload: seq<byte>, port: u16) returns (o: Out, wire: seq<byte>)
      requires |bootFile| < 128
      modifies this
      ensures (Value(), o) == OnData(old(Value()), port, num, payload) && wire == Transmitted(bootFile, o)
    {
      hide Wrap, Transmitted, EncodeAck, EncodeRequest, Number, Split, ToBytes;
      o, wire := Nothing, [];
      assert wire == Transmitted(bootFile, Nothing) by { NothingTransmitted(bootFile); }
      tftpBlock := num;
      if tftpState == RRQ || tftpState == OACK {
        tftpState := DATA;
        tftpServerPort := port;
        tftpLastBlock := 0;
        if tftpBlock != 1 {
          return;
        }
      }
      if tftpBlock == tftpLastBlock {
        o, wire := TftpSend();
        return;
      }
      tftpLastBlock := tftpBlock;
      stored := stored + [(Wrap(tftpBlock as int - 1), payload)];
      o, wire := TftpSend();
      finished := |payload| < tftpBlkSize;
    }

    method TftpTimeout() returns (o: Out, wire: seq<byte>)
      requires |bootFile| < 128
      modifies this
      ensures (Value(), o) == Timeout(old(Value())) && wire == Transmitted(bootFile, o)
      ensures Value() == old(Value()).(timeouts := old(tftpTimeoutCount) + 1)
      ensures old(tftpTimeoutCount) >= 10 ==> wire == []
      ensures old(tftpTimeoutCount) < 10 && tftpState != RRQ ==> wire == [0, 4, tftpBlock / 0x100, tftpBlock % 0x100]
      ensures old(tftpTimeoutCount) < 10 && tftpState == RRQ ==> wire == Transmitted(bootFile, Request) && |wire| > 2
    {
      tftpTimeoutCount := tftpTimeoutCount + 1;
      if tftpTimeoutCount > TIMEOUT_COUNT {
        o, wire := Nothing, [];
      } else {
        o, wire := TftpSend();
      }
    }
  }

  // ---------------------------------------------------------------- the file and the servers

  /** The blocks of a file: full ones, then one that is short (possibly empty). */
  function Chunks(file: seq<byte>, blk: nat): (cs: seq<seq<byte>>)
    requires blk > 0
    ensures |cs| > 0
    ensures forall k :: 0 <= k < |cs| ==> (|cs[k]| < blk <==> k == |cs| - 1)
    decreases |file|
  {
    if |file| < blk then [file] else [file[..blk]] + Chunks(file[blk..], blk)
  }

  lemma {:induction false} ChunksMakeTheFile(file: seq<byte>, blk: nat)
    requires blk > 0
    ensures Flat(Chunks(file, blk)) == file
    decreases |file|
  {
    if |file| < blk {
      assert [file][..0] == [] && Flat([file]) == [] + file;
    } else {
      ChunksMakeTheFile(file[blk..], blk);
      FlatCons(file[..blk], Chunks(file[blk..], blk));
      assert file == file[..blk] + file[blk..];
    }
  }

  /** One server session with its two channels. `phase` 0 means the option acknowledgement is
      outstanding, k > 0 that block k is. */
  datatype Session = Session(blk: u16, options: Option<seq<byte>>, phase: nat,
                             toClient: seq<Packet>, toServer: seq<u16>)

  /** The block size a client ends up with after this option acknowledgement. */
  function Negotiated(options: Option<seq<byte>>): u16 {
    match options
    case None => TFTP_BLOCK_SIZE
    case Some(o) => match FindBlksize(o, 0) case Some(b) => b case None => TFTP_BLOCK_SIZE
  }

  ghost predicate SessionOk(file: seq<byte>, s: Session) {
    && s.blk > 0 && s.blk == Negotiated(s.options)
    && |Chunks(file, s.blk)| < 0x1_0000
    && s.phase <= |Chunks(file, s.blk)|
    && (s.options == None ==> s.phase > 0)
  }

  /** The packet a server in this phase keeps sending. */
  ghost function Current(file: seq<byte>, s: Session): Packet
    requires SessionOk(file, s)
  {
    if s.phase == 0 then OAck(s.options.value) else Data(s.phase, Chunks(file, s.blk)[s.phase - 1])
  }

  /** Position of a packet in the server's sending order. */
  function Rank(p: Packet): nat {
    if p.Data? then p.num else 0
  }

  // ---------------------------------------------------------------- the step system

  datatype Sys = Sys(file: seq<byte>, client: Client, sessions: map<u16, Session>)

  /** One atomic step. `keep` leaves the delivered packet in the channel, so that it can be
      delivered again. */
  datatype Step =
    | Open(port: u16, options: Option<seq<byte>>)
    | Deliver(port: u16, keep: bool)
    | Noise(port: u16, junk: Packet)
    | Timer
    | ServerAck(port: u16, keep: bool)
    | Resend(port: u16)
    | LoseToClient(port: u16, at: nat)
    | LoseToServer(port: u16, at: nat)

  /** An acknowledgement goes to the port in server_addr, if a session listens there. */
  function Route(sessions: map<u16, Session>, dest: u16, o: Out): map<u16, Session> {
    if o.Ack? && dest in sessions then
      sessions[dest := sessions[dest].(toServer := sessions[dest].toServer + [o.num])]
    else sessions
  }

  ghost function NewSession(file: seq<byte>, options: Option<seq<byte>>): Session {
    var s := Session(Negotiated(options), options, if options == None then 1 else 0, [], []);
    if SessionOk(file, s) then s.(toClient := [Current(file, s)]) else s
  }

  /** A lockstep server advances only on the acknowledgement of the block it is sending. */
  ghost function Advance(file: seq<byte>, s: Session, num: u16): Session
    requires SessionOk(file, s)
  {
    if num == s.phase && s.phase < |Chunks(file, s.blk)| then
      var s1 := s.(phase := s.phase + 1);
      s1.(toClient := s1.toClient + [Current(file, s1)])
    else s
  }

  ghost function Next(y: Sys, step: Step): Sys {
    match step
    case Open(port, options) =>
      var s := NewSession(y.file, options);
      if port in y.sessions || !SessionOk(y.file, s) then y
      else y.(sessions := y.sessions[port := s])
    case Deliver(port, keep) =>
      if y.client.done || port !in y.sessions || y.sessions[port].toClient == [] then y
      else
        var s := y.sessions[port];
        var s1 := if keep then s else s.(toClient := s.toClient[1..]);
        var (c, o) := Handle(y.client.(dest := port), s.toClient[0], port);
        y.(client := c, sessions := Route(y.sessions[port := s1], c.dest, o))
    case Noise(port, junk) =>
      if y.client.done || junk.OAck? || junk.Data? then y
      else
        var (c, o) := Handle(y.client.(dest := port), junk, port);
        y.(client := c, sessions := Route(y.sessions, c.dest, o))
    case Timer =>
      if y.client.done then y
      else
        var (c, o) := Timeout(y.client);
        y.(client := c, sessions := Route(y.sessions, c.dest, o))
    case ServerAck(port, keep) =>
      if port !in y.sessions || y.sessions[port].toServer == [] || !SessionOk(y.file, y.sessions[port]) then y
      else
        var s := y.sessions[port];
        var s1 := if keep then s else s.(toServer := s.toServer[1..]);
        y.(sessions := y.sessions[port := Advance(y.file, s1, s.toServer[0])])
    case Resend(port) =>
      if port !in y.sessions || !SessionOk(y.file, y.sessions[port]) then y
      else
        var s := y.sessions[port];
        y.(sessions := y.sessions[port := s.(toClient := s.toClient + [Current(y.file, s)])])
    case LoseToClient(port, i) =>
      if port !in y.sessions || i >= |y.sessions[port].toClient| then y
      else y.(sessions := y.sessions[port := y.sessions[port].(toClient := Remove(y.sessions[port].toClient, i))])
    case LoseToServer(port, i) =>
      if port !in y.sessions || i >= |y.sessions[port].toServer| then y
      else y.(sessions := y.sessions[port := y.sessions[port].(toServer := Remove(y.sessions[port].toServer, i))])
  }

  ghost function Run(y: Sys, steps: seq<Step>): Sys
    decreases |steps|
  {
    if steps == [] then y else Next(Run(y, steps[..|steps| - 1]), steps[|steps| - 1])
  }

  function Init(file: seq<byte>): Sys {
    Sys(file, Start(), map[])
  }

  // ---------------------------------------------------------------- the invariant

  /** The store_block calls for the first k blocks: numbers from 0, in order. */
  function Log(cs: seq<seq<byte>>, k: nat): (l: seq<(u32, seq<byte>)>)
    requires k <= |cs| < 0x1_0000
  {
    seq(k, i requires 0 <= i < k => (i, cs[i]))
  }

  /** What may be under way from a server: its option acknowledgement, or a block it reached. */
  ghost predicate Genuine(file: seq<byte>, s: Session, p: Packet)
    requires SessionOk(file, s)
  {
    match p
    case OAck(o) => s.options == Some(o)
    case Data(n, payload) => 1 <= n <= s.phase && payload == Chunks(file, s.blk)[n - 1]
    case Error => false
    case Ignored => false
  }

  /** The channel carries genuine packets in the server's sending order. */
  ghost predicate SessionInv(file: seq<byte>, s: Session) {
    && SessionOk(file, s)
    && (forall i :: 0 <= i < |s.toClient| ==> Genuine(file, s, s.toClient[i]))
    && (forall i, j :: 0 <= i < j < |s.toClient| ==> Rank(s.toClient[i]) <= Rank(s.toClient[j]))
  }

  /** No session has heard from the client yet. */
  ghost predicate Untouched(s: Session) {
    s.toServer == [] && s.phase == (if s.options == None then 1 else 0)
  }

  ghost predicate Idle(c: Client) {
    c.st == RRQ && c.stored == [] && c.block == 0 && c.blkSize == TFTP_BLOCK_SIZE && !c.done
  }

  /** The client and the session it is bound to agree on the block size and are at most one
      block apart. */
  ghost predicate Bound(file: seq<byte>, c: Client, s: Session)
    requires SessionOk(file, s)
  {
    && c.blkSize == s.blk && c.st != RRQ
    && (c.st == OACK ==>
          c.stored == [] && !c.done && c.block == 0 && s.options != None && s.phase <= 1
          && forall a :: a in s.toServer ==> a == 0)
    && (c.st == DATA ==>
          var n := c.lastBlock as int;
          1 <= n <= |Chunks(file, s.blk)| && c.block == c.lastBlock
          && c.stored == Log(Chunks(file, s.blk), n)
          && (c.done <==> n == |Chunks(file, s.blk)|)
          && n <= s.phase <= n + 1
          && (forall a :: a in s.toServer ==> a <= n)
          && forall i :: 0 <= i < |s.toClient| ==> Rank(s.toClient[i]) >= n)
  }

  ghost predicate Inv(y: Sys) {
    && (forall p :: p in y.sessions ==> SessionInv(y.file, y.sessions[p]))
    && (y.client.st == RRQ ==> Idle(y.client) && forall p :: p in y.sessions ==> Untouched(y.sessions[p]))
    && (y.client.st != RRQ ==>
          y.client.serverPort in y.sessions && Bound(y.file, y.client, y.sessions[y.client.serverPort]))
  }

  // ---------------------------------------------------------------- server and channel steps

  lemma OpenKeeps(file: seq<byte>, options: Option<seq<byte>>)
    requires SessionOk(file, NewSession(file, options))
    ensures SessionInv(file, NewSession(file, options)) && Untouched(NewSession(file, options))
  {
  }

  lemma ResendKeeps(file: seq<byte>, s: Session, c: Client)
    requires SessionInv(file, s)
    ensures var s1 := s.(toClient := s.toClient + [Current(file, s)]);
      SessionInv(file, s1) && (Untouched(s) ==> Untouched(s1)) && (Bound(file, c, s) ==> Bound(file, c, s1))
  {
    hide Chunks, Negotiated;
    var s1 := s.(toClient := s.toClient + [Current(file, s)]);
    forall i | 0 <= i < |s.toClient|
      ensures Rank(s.toClient[i]) <= s.phase
    {
      assert Genuine(file, s, s.toClient[i]);
    }
  }

  lemma AdvanceKeeps(file: seq<byte>, s: Session, num: u16, c: Client)
    requires SessionInv(file, s)
    ensures SessionInv(file, Advance(file, s, num))
    ensures Bound(file, c, s) && (c.st == OACK ==> num == 0) && (c.st == DATA ==> num <= c.lastBlock) ==>
      Bound(file, c, Advance(file, s, num))
  {
    hide Chunks, Negotiated;
    if num == s.phase && s.phase < |Chunks(file, s.blk)| {
      var s1 := s.(phase := s.phase + 1);
      forall i | 0 <= i < |s.toClient|
        ensures Genuine(file, s1, s.toClient[i]) && Rank(s.toClient[i]) <= s.phase
      {
        assert Genuine(file, s, s.toClient[i]);
      }
    }
  }

  lemma ChannelLossKeeps(file: seq<byte>, s: Session, toClient: seq<Packet>, toServer: seq<u16>, c: Client)
    requires SessionInv(file, s)
    requires toClient == s.toClient || (exists i :: 0 <= i < |s.toClient| && toClient == Remove(s.toClient, i))
    requires forall a :: a in toServer ==> a in s.toServer
    requires s.toServer == [] ==> toServer == []
    ensures var s1 := s.(toClient := toClient, toServer := toServer);
      SessionInv(file, s1) && (Untouched(s) ==> Untouched(s1)) && (Bound(file, c, s) ==> Bound(file, c, s1))
  {
    hide Chunks, Negotiated, SessionOk, Genuine, Rank;
    SubChannel(s.toClient, toClient);
    var s1 := s.(toClient := toClient, toServer := toServer);
    SameButChannels(file, s, s1);
    var at :| PlacesIn(s.toClient, toClient, at);
    forall i | 0 <= i < |toClient|
      ensures Genuine(file, s1, toClient[i])
    {
      assert Genuine(file, s, s.toClient[at[i]]);
      SameGenuine(file, s, s1, toClient[i]);
    }
  }

  /** What is left of a channel stands at rising places of the channel. */
  ghost predicate PlacesIn(before: seq<Packet>, after: seq<Packet>, at: seq<nat>) {
    && |at| == |after|
    && (forall i :: 0 <= i < |after| ==> at[i] < |before| && after[i] == before[at[i]])
    && (forall i, j :: 0 <= i < j < |at| ==> at[i] < at[j])
  }

  lemma SubChannel(before: seq<Packet>, after: seq<Packet>)
    requires after == before || exists i :: 0 <= i < |before| && after == Remove(before, i)
    ensures exists at :: PlacesIn(before, after, at)
  {
    if after == before {
      assert PlacesIn(before, after, seq(|after|, i requires 0 <= i < |after| => i));
    } else {
      var k :| 0 <= k < |before| && after == Remove(before, k);
      assert PlacesIn(before, after, seq(|after|, i requires 0 <= i < |after| => if i < k then i else i + 1));
    }
  }

  lemma SameButChannels(file: seq<byte>, s: Session, s1: Session)
    requires SessionOk(file, s) && s1 == s.(toClient := s1.toClient, toServer := s1.toServer)
    ensures SessionOk(file, s1)
  {
    hide Chunks, Negotiated;
  }

  lemma SameGenuine(file: seq<byte>, s: Session, s1: Session, p: Packet)
    requires SessionOk(file, s) && SessionOk(file, s1) && s1 == s.(toClient := s1.toClient, toServer := s1.toServer)
    ensures Genuine(file, s, p) == Genuine(file, s1, p)
  {
    hide Chunks, Negotiated, SessionOk;
  }

  lemma AckKeeps(file: seq<byte>, s: Session, c: Client, num: u16)
    requires SessionInv(file, s)
    ensures var s1 := s.(toServer := s.toServer + [num]);
      SessionInv(file, s1)
      && (Bound(file, c, s) && (c.st == OACK ==> num == 0) && (c.st == DATA ==> num <= c.lastBlock) ==> Bound(file, c, s1))
  {
    hide Chunks, Negotiated;
    var s1 := s.(toServer := s.toServer + [num]);
    assert forall i :: 0 <= i < |s.toClient| ==> Genuine(file, s, s.toClient[i]) ==> Genuine(file, s1, s.toClient[i]);
  }

  // ---------------------------------------------------------------- client steps

  /** The outcome of one delivery: the client is bound to the session and acknowledges only
      what it has. */
  ghost predicate Followed(file: seq<byte>, c: Client, r: (Client, Out), s: Session, port: u16)
    requires SessionOk(file, s)
  {
    var (c1, o) := r;
    && c1.dest == c.dest && c1.st != RRQ && c1.serverPort == port && Bound(file, c1, s)
    && (o.Ack? ==> (c1.st == OACK ==> o.num == 0) && (c1.st == DATA ==> o.num <= c1.lastBlock))
  }

  /** What is left in the channel was sent no earlier than what is delivered. */
  lemma LaterInChannel(file: seq<byte>, s: Session, rest: seq<Packet>)
    requires SessionInv(file, s) && s.toClient != []
    requires rest == s.toClient || rest == s.toClient[1..]
    ensures Genuine(file, s, s.toClient[0])
    ensures forall i :: 0 <= i < |rest| ==> Rank(rest[i]) >= Rank(s.toClient[0])
  {
    forall i | 0 <= i < |rest|
      ensures Rank(rest[i]) >= Rank(s.toClient[0])
    {
      assert rest[i] == s.toClient[if rest == s.toClient then i else i + 1];
    }
  }

  lemma OackFollowed(file: seq<byte>, c: Client, s: Session, port: u16, rest: seq<Packet>)
    requires SessionInv(file, s) && s.toClient != [] && !c.done && s.toClient[0].OAck?
    requires (Idle(c) && Untouched(s)) || (c.st != RRQ && c.serverPort == port && Bound(file, c, s))
    ensures Followed(file, c, Handle(c, s.toClient[0], port), s.(toClient := rest), port)
  {
    hide Chunks, FindBlksize, Log;
    assert Genuine(file, s, s.toClient[0]);
    assert c.st == DATA ==> Rank(s.toClient[0]) >= c.lastBlock;
  }

  lemma FirstBlockFollowed(file: seq<byte>, c: Client, s: Session, port: u16, rest: seq<Packet>)
    requires SessionInv(file, s) && s.toClient != [] && !c.done && s.toClient[0].Data?
    requires (Idle(c) && Untouched(s)) || (c.st == OACK && c.serverPort == port && Bound(file, c, s))
    requires rest == s.toClient || rest == s.toClient[1..]
    ensures Followed(file, c, Handle(c, s.toClient[0], port), s.(toClient := rest), port)
  {
    hide Chunks, FindBlksize;
    LaterInChannel(file, s, rest);
    assert s.toClient[0].num == 1;
    ChunksFacts(file, s.blk, 0);
    LogSnoc(Chunks(file, s.blk), 0);
  }

  lemma NextBlockFollowed(file: seq<byte>, c: Client, s: Session, port: u16, rest: seq<Packet>)
    requires SessionInv(file, s) && s.toClient != [] && !c.done && s.toClient[0].Data?
    requires c.st == DATA && c.serverPort == port && Bound(file, c, s)
    requires rest == s.toClient || rest == s.toClient[1..]
    ensures Followed(file, c, Handle(c, s.toClient[0], port), s.(toClient := rest), port)
  {
    hide Chunks, FindBlksize, Log;
    LaterInChannel(file, s, rest);
    var n := s.toClient[0].num;
    assert Rank(s.toClient[0]) >= c.lastBlock;
    ChunksFacts(file, s.blk, n - 1);
    if n != c.lastBlock {
      LogSnoc(Chunks(file, s.blk), c.lastBlock);
    }
  }

  lemma ChunksFacts(file: seq<byte>, blk: nat, k: nat)
    requires blk > 0 && k < |Chunks(file, blk)|
    ensures |Chunks(file, blk)[k]| < blk <==> k == |Chunks(file, blk)| - 1
  {
  }

  lemma LogSnoc(cs: seq<seq<byte>>, k: nat)
    requires k < |cs| < 0x1_0000
    ensures Log(cs, k + 1) == Log(cs, k) + [(k, cs[k])] && Log(cs, 0) == []
  {
  }

  /** An acknowledgement put into the channel of any session, bound or foreign. */
  lemma RouteKeeps(y: Sys, dest: u16, o: Out)
    requires Inv(y) && (y.client.st == RRQ ==> !o.Ack?)
    requires o.Ack? ==> (y.client.st == OACK ==> o.num == 0) && (y.client.st == DATA ==> o.num <= y.client.lastBlock)
    ensures Inv(y.(sessions := Route(y.sessions, dest, o)))
  {
    hide SessionOk, Genuine;
    if o.Ack? && dest in y.sessions {
      AckKeeps(y.file, y.sessions[dest], y.client, o.num);
    }
  }

  /** Taking the front packet out of a channel, or leaving it there. */
  lemma FrontKeeps(file: seq<byte>, s: Session, keep: bool, c: Client)
    requires SessionInv(file, s) && s.toClient != []
    ensures var s1 := if keep then s else s.(toClient := s.toClient[1..]);
      SessionInv(file, s1) && (Bound(file, c, s) ==> Bound(file, c, s1))
  {
    hide SessionOk, Genuine, Bound, Untouched;
    if !keep {
      assert s.toClient[1..] == Remove(s.toClient, 0);
      ChannelLossKeeps(file, s, s.toClient[1..], s.toServer, c);
    }
  }

  /** The port filter: packets of other sessions change nothing but server_addr. */
  lemma ForeignIgnored(y: Sys, port: u16, keep: bool)
    requires Inv(y) && y.client.st != RRQ && port in y.sessions && port != y.client.serverPort
    requires y.sessions[port].toClient != []
    ensures var s, c := y.sessions[port], y.client.(dest := port);
      var s1 := if keep then s else s.(toClient := s.toClient[1..]);
      Inv(y.(client := c, sessions := y.sessions[port := s1]))
  {
    hide SessionOk, Genuine;
    FrontKeeps(y.file, y.sessions[port], keep, y.client);
  }

  lemma SessionPacketHandled(y: Sys, port: u16, keep: bool)
    requires Inv(y) && !y.client.done && port in y.sessions && y.sessions[port].toClient != []
    requires y.client.st == RRQ || port == y.client.serverPort
    ensures var s, c := y.sessions[port], y.client.(dest := port);
      var s1 := if keep then s else s.(toClient := s.toClient[1..]);
      SessionInv(y.file, s) && Followed(y.file, c, Handle(c, s.toClient[0], port), s1, port)
  {
    hide SessionOk, Handle, Followed, FindBlksize;
    var s, c := y.sessions[port], y.client.(dest := port);
    var rest := if keep then s.toClient else s.toClient[1..];
    FrontKeeps(y.file, s, keep, c);
    assert Genuine(y.file, s, s.toClient[0]);
    assert s.(toClient := s.toClient) == s;
    if s.toClient[0].OAck? {
      OackFollowed(y.file, c, s, port, rest);
    } else if c.st != DATA {
      FirstBlockFollowed(y.file, c, s, port, rest);
    } else {
      NextBlockFollowed(y.file, c, s, port, rest);
    }
  }

  lemma DeliverKeeps(y: Sys, port: u16, keep: bool)
    requires Inv(y)
    ensures Inv(Next(y, Deliver(port, keep)))
  {
    hide Bound, SessionOk, Genuine, Handle, Idle, Untouched, SessionInv, Route;
    if !y.client.done && port in y.sessions && y.sessions[port].toClient != [] {
      var s, c := y.sessions[port], y.client.(dest := port);
      var s1 := if keep then s else s.(toClient := s.toClient[1..]);
      var (c1, o) := Handle(c, s.toClient[0], port);
      FrontKeeps(y.file, s, keep, c);
      if y.client.st != RRQ && port != y.client.serverPort {
        ForeignIgnored(y, port, keep);
        assert (c1, o) == (c, Nothing) by { FilterDrops(c, s.toClient[0], port); }
      } else {
        SessionPacketHandled(y, port, keep);
      }
      RouteKeeps(y.(client := c1, sessions := y.sessions[port := s1]), c1.dest, o);
    }
  }

  lemma FilterDrops(c: Client, p: Packet, port: u16)
    requires c.st != RRQ && port != c.serverPort
    ensures Handle(c, p, port) == (c, Nothing)
  {
  }

  lemma TimerKeeps(y: Sys)
    requires Inv(y)
    ensures Inv(Next(y, Timer))
  {
    hide SessionOk, Genuine, Chunks, Log, SessionInv, Untouched, Route;
    if !y.client.done {
      var (c, o) := Timeout(y.client);
      RouteKeeps(y.(client := c), c.dest, o);
    }
  }

  lemma NoiseKeeps(y: Sys, port: u16, junk: Packet)
    requires Inv(y)
    ensures Inv(Next(y, Noise(port, junk)))
  {
    hide SessionOk, Genuine, Chunks, Log, SessionInv, Untouched;
  }

  lemma ServerAckKeeps(y: Sys, port: u16, keep: bool)
    requires Inv(y)
    ensures Inv(Next(y, ServerAck(port, keep)))
  {
    hide SessionOk, Genuine, Chunks, Log, SessionInv, Advance, Current;
    if port in y.sessions && y.sessions[port].toServer != [] {
      var s, c := y.sessions[port], y.client;
      var rest := if keep then s.toServer else s.toServer[1..];
      var s1 := if keep then s else s.(toServer := s.toServer[1..]);
      assert s.toServer[0] in s.toServer;
      ChannelLossKeeps(y.file, s, s.toClient, rest, c);
      assert s.(toClient := s.toClient, toServer := rest) == s1;
      AdvanceKeeps(y.file, s1, s.toServer[0], c);
    }
  }

  lemma OtherStepsKeep(y: Sys, step: Step)
    requires Inv(y) && (step.Open? || step.Resend? || step.LoseToClient? || step.LoseToServer?)
    ensures Inv(Next(y, step))
  {
    hide SessionOk, Genuine, Bound, SessionInv, NewSession, Current, Untouched;
    var c := y.client;
    match step
    case Open(port, options) =>
      if SessionOk(y.file, NewSession(y.file, options)) {
        OpenKeeps(y.file, options);
      }
    case Resend(port) =>
      if port in y.sessions {
        ResendKeeps(y.file, y.sessions[port], c);
      }
    case LoseToClient(port, i) =>
      if port in y.sessions && i < |y.sessions[port].toClient| {
        var s := y.sessions[port];
        ChannelLossKeeps(y.file, s, Remove(s.toClient, i), s.toServer, c);
      }
    case LoseToServer(port, i) =>
      if port in y.sessions && i < |y.sessions[port].toServer| {
        var s := y.sessions[port];
        ChannelLossKeeps(y.file, s, s.toClient, Remove(s.toServer, i), c);
      }
  }

  lemma NextKeeps(y: Sys, step: Step)
    requires Inv(y)
    ensures Inv(Next(y, step)) && Next(y, step).file == y.file
  {
    hide Inv;
    match step
    case Deliver(port, keep) => DeliverKeeps(y, port, keep);
    case Noise(port, junk) => NoiseKeeps(y, port, junk);
    case Timer => TimerKeeps(y);
    case ServerAck(port, keep) => ServerAckKeeps(y, port, keep);
    case _ => OtherStepsKeep(y, step);
  }

  lemma {:induction false} RunKeeps(file: seq<byte>, steps: seq<Step>)
    ensures Inv(Run(Init(file), steps)) && Run(Init(file), steps).file == file
    decreases |steps|
  {
    hide Next;
    if steps != [] {
      RunKeeps(file, steps[..|steps| - 1]);
      NextKeeps(Run(Init(file), steps[..|steps| - 1]), steps[|steps| - 1]);
    }
  }

  /** The payloads passed to store_block, in order. */
  function Payloads(stored: seq<(u32, seq<byte>)>): (ps: seq<seq<byte>>)
    ensures |ps| == |stored|
  {
    seq(|stored|, i requires 0 <= i < |stored| => stored[i].1)
  }

  /** TFTP safety over every run: with any number of lockstep server sessions on any ports,
      and channels that lose and duplicate packets, the blocks passed to store_block are the
      blocks of the file from the first on, each exactly once and numbered from 0; success is
      reached exactly when all of them were stored, and then they make up the file. */
  lemma TransferSafe(file: seq<byte>, steps: seq<Step>)
    ensures var c := Run(Init(file), steps).client;
      && (c.stored != [] ==>
            && c.blkSize > 0 && |c.stored| <= |Chunks(file, c.blkSize)| < 0x1_0000
            && c.stored == Log(Chunks(file, c.blkSize), |c.stored|))
      && (c.done <==> c.stored != [] && c.blkSize > 0 && |c.stored| == |Chunks(file, c.blkSize)|)
      && (c.done ==> Flat(Payloads(c.stored)) == file)
  {
    RunKeeps(file, steps);
    hide Run, Chunks, FindBlksize, Genuine;
    var y := Run(Init(file), steps);
    var c := y.client;
    if c.st == DATA {
      var s := y.sessions[c.serverPort];
      assert SessionInv(file, s);
      if c.done {
        ChunksMakeTheFile(file, c.blkSize);
        assert Payloads(c.stored) == Chunks(file, c.blkSize);
      }
    }
  }

  // ---------------------------------------------------------------- progress

  /** How many blocks the client has, whatever its state. */
  function Have(c: Client): nat {
    if c.st == DATA then c.lastBlock else 0
  }

  /** The client may hear this session: it is bound to it, or to none. */
  ghost predicate Hears(c: Client, port: u16) {
    c.st == RRQ || c.serverPort == port
  }

  /** A live session that the client hears. */
  ghost predicate Live(y: Sys, port: u16) {
    Inv(y) && !y.client.done && port in y.sessions && Hears(y.client, port)
  }

  lemma LiveFacts(y: Sys, port: u16)
    requires Live(y, port)
    ensures var s := y.sessions[port];
      && SessionInv(y.file, s) && SessionOk(y.file, s)
      && Have(y.client) < |Chunks(y.file, s.blk)|
      && Have(y.client) <= s.phase <= Have(y.client) + 1
    ensures y.client.st == RRQ ==> Idle(y.client) && Untouched(y.sessions[port])
    ensures y.client.st != RRQ ==> Bound(y.file, y.client, y.sessions[port])
  {
    hide Chunks, FindBlksize, Genuine;
  }

  /** Delivering the front packet of the session: it is the client's last block or the next one,
      the client has it afterwards, and its acknowledgement is under way to the server. */
  lemma DeliverEffect(y: Sys, port: u16)
    requires Live(y, port) && y.sessions[port].toClient != []
    ensures var s, y1 := y.sessions[port], Next(y, Deliver(port, false));
      && Have(y.client) <= Rank(s.toClient[0]) <= Have(y.client) + 1
      && Inv(y1) && y1.file == y.file && port in y1.sessions && Hears(y1.client, port)
      && Have(y1.client) == Rank(s.toClient[0])
      && (y1.client.done ==> y1.client.st == DATA)
      && y1.sessions[port] ==
           s.(toClient := s.toClient[1..], toServer := s.toServer + [Rank(s.toClient[0])])
  {
    hide Chunks, FindBlksize, Log, Inv, SessionInv;
    LiveFacts(y, port);
    DeliverKeeps(y, port, false);
    FrontGenuine(y.file, y.sessions[port]);
    var s := y.sessions[port];
    if y.client.st != RRQ {
      FrontRank(y.file, y.client, s);
    }
  }

  lemma FrontGenuine(file: seq<byte>, s: Session)
    requires SessionInv(file, s) && s.toClient != []
    ensures Genuine(file, s, s.toClient[0])
  {
  }

  lemma FrontRank(file: seq<byte>, c: Client, s: Session)
    requires SessionOk(file, s) && Bound(file, c, s) && s.toClient != []
    ensures c.st == DATA ==> Rank(s.toClient[0]) >= c.lastBlock
  {
    hide Chunks;
  }

  /** The server sends once more what it is waiting to have acknowledged. */
  lemma ResendEffect(y: Sys, port: u16)
    requires Live(y, port)
    ensures var s, y1 := y.sessions[port], Next(y, Resend(port));
      && SessionOk(y.file, s) && Rank(Current(y.file, s)) == s.phase
      && Inv(y1) && y1.file == y.file && y1.client == y.client && port in y1.sessions
      && y1.sessions[port] == s.(toClient := s.toClient + [Current(y.file, s)])
  {
    hide Chunks, FindBlksize, Inv;
    LiveFacts(y, port);
    NextKeeps(y, Resend(port));
  }

  /** The server takes the front acknowledgement. */
  lemma ServerAckEffect(y: Sys, port: u16)
    requires Live(y, port) && y.sessions[port].toServer != []
    ensures var s, y1 := y.sessions[port], Next(y, ServerAck(port, false));
      && SessionOk(y.file, s)
      && Inv(y1) && y1.file == y.file && y1.client == y.client && port in y1.sessions
      && y1.sessions[port].blk == s.blk
      && (s.toServer[0] == Have(y.client) == s.phase ==> y1.sessions[port].phase == s.phase + 1)
      && (!(s.toServer[0] == s.phase) ==> y1.sessions[port] == s.(toServer := s.toServer[1..]))
  {
    hide Chunks, FindBlksize, Inv;
    LiveFacts(y, port);
    NextKeeps(y, ServerAck(port, false));
  }

  lemma RunConcat(y: Sys, a: seq<Step>, b: seq<Step>)
    ensures Run(y, a + b) == Run(Run(y, a), b)
    decreases |b|
  {
    hide Next;
    if b == [] {
      assert a + b == a;
    } else {
      var m := |b| - 1;
      assert (a + b)[..|a + b| - 1] == a + b[..m];
      RunConcat(y, a, b[..m]);
    }
  }

  lemma RunOne(y: Sys, step: Step, rest: seq<Step>)
    ensures Run(y, [step] + rest) == Run(Next(y, step), rest)
  {
    hide Next;
    RunConcat(y, [step], rest);
    assert [step][..0] == [];
    assert Run(y, [step]) == Next(Run(y, []), step);
  }

  /** Whether the acknowledgement of what the client has is on its way. */
  ghost predicate AckUnderWay(y: Sys, port: u16)
    requires port in y.sessions
  {
    exists i :: 0 <= i < |y.sessions[port].toServer| && y.sessions[port].toServer[i] as int == Have(y.client)
  }

  /** What still separates a live session from the end of the transfer, most important first. */
  datatype Distance = Distance(blocks: int, unacknowledged: nat, toClient: nat, silent: nat, toServer: nat)

  ghost function Remaining(y: Sys, port: u16): Distance
    requires port in y.sessions && y.sessions[port].blk > 0
  {
    var s := y.sessions[port];
    Distance(|Chunks(y.file, s.blk)| - Have(y.client), if s.phase == Have(y.client) then 1 else 0,
             |s.toClient|, if AckUnderWay(y, port) then 0 else 1, |s.toServer|)
  }

  ghost predicate Closer(a: Distance, b: Distance) {
    || a.blocks < b.blocks
    || (a.blocks == b.blocks && (
          || a.unacknowledged < b.unacknowledged
          || (a.unacknowledged == b.unacknowledged && (
                || a.toClient < b.toClient
                || (a.toClient == b.toClient && (
                      || a.silent < b.silent
                      || (a.silent == b.silent && a.toServer < b.toServer)))))))
  }

  /** The transfer has ended, or the session is live and closer to the end. */
  ghost predicate Advanced(y: Sys, y1: Sys, port: u16)
    requires port in y.sessions && y.sessions[port].blk > 0
  {
    y1.client.done
    || (Live(y1, port) && y1.file == y.file && y1.sessions[port].blk > 0
        && Closer(Remaining(y1, port), Remaining(y, port)))
  }

  lemma DeliveryAdvances(y: Sys, port: u16)
    requires Live(y, port) && y.sessions[port].toClient != []
    ensures y.sessions[port].blk > 0 && Advanced(y, Next(y, Deliver(port, false)), port)
  {
    hide Chunks, FindBlksize, Inv, Next, SessionInv, Bound, Untouched, Idle;
    LiveFacts(y, port);
    DeliverEffect(y, port);
  }

  lemma AckAdvances(y: Sys, port: u16)
    requires Live(y, port) && AckUnderWay(y, port)
    requires y.sessions[port].toClient == [] && y.sessions[port].phase == Have(y.client)
    ensures y.sessions[port].blk > 0 && Advanced(y, Next(y, ServerAck(port, false)), port)
  {
    hide Chunks, FindBlksize, Inv, Next, SessionInv, Bound, Untouched, Idle;
    LiveFacts(y, port);
    ServerAckEffect(y, port);
    var acks, y1 := y.sessions[port].toServer, Next(y, ServerAck(port, false));
    var i :| 0 <= i < |acks| && acks[i] as int == Have(y.client);
    if acks[0] as int != Have(y.client) {
      assert y1.sessions[port].toServer[i - 1] as int == Have(y1.client);
    }
  }

  /** With nothing under way to the client, the server resends and the packet is delivered. */
  lemma ResendAdvances(y: Sys, port: u16)
    requires Live(y, port) && y.sessions[port].toClient == []
    requires y.sessions[port].phase == Have(y.client) ==> !AckUnderWay(y, port)
    ensures y.sessions[port].blk > 0 && Advanced(y, Next(Next(y, Resend(port)), Deliver(port, false)), port)
  {
    hide Chunks, FindBlksize, Inv, Next, SessionInv, Bound, Untouched, Idle;
    LiveFacts(y, port);
    ResendEffect(y, port);
    var y1 := Next(y, Resend(port));
    DeliverEffect(y1, port);
    var y2 := Next(y1, Deliver(port, false));
    var acks := y.sessions[port].toServer;
    if !y2.client.done {
      assert y2.sessions[port].toServer[|acks|] as int == Have(y2.client);
    }
  }

  lemma SomethingAdvances(y: Sys, port: u16) returns (steps: seq<Step>)
    requires Live(y, port)
    ensures y.sessions[port].blk > 0 && Advanced(y, Run(y, steps), port)
  {
    hide Next, Run, Advanced, Live, Chunks;
    assert port in y.sessions by { assert Live(y, port); LiveHasSession(y, port); }
    var s := y.sessions[port];
    if s.toClient != [] {
      DeliveryAdvances(y, port);
      steps := [Deliver(port, false)];
      RunOne(y, Deliver(port, false), []);
      assert steps + [] == steps;
    } else if s.phase == Have(y.client) && AckUnderWay(y, port) {
      AckAdvances(y, port);
      steps := [ServerAck(port, false)];
      RunOne(y, ServerAck(port, false), []);
      assert steps + [] == steps;
    } else {
      ResendAdvances(y, port);
      steps := [Resend(port), Deliver(port, false)];
      RunOne(y, Resend(port), [Deliver(port, false)]);
      RunOne(Next(y, Resend(port)), Deliver(port, false), []);
      assert [Deliver(port, false)] + [] == [Deliver(port, false)];
      assert [Resend(port)] + [Deliver(port, false)] == steps;
      RunNone(Next(Next(y, Resend(port)), Deliver(port, false)));
    }
    RunNone(Next(y, Deliver(port, false)));
    RunNone(Next(y, ServerAck(port, false)));
  }

  lemma LiveHasSession(y: Sys, port: u16)
    requires Live(y, port)
    ensures port in y.sessions
  {
  }

  lemma RunNone(y: Sys)
    ensures Run(y, []) == y
  {
  }

  /** From a live session the transfer comes to its end without any further loss: packets under
      way are delivered, acknowledgements reach the server, and it resends when nothing is. */
  lemma {:induction false} LiveFinishes(y: Sys, port: u16) returns (steps: seq<Step>)
    requires Live(y, port) && y.sessions[port].blk > 0
    ensures Run(y, steps).client.done
    decreases Remaining(y, port).blocks, Remaining(y, port).unacknowledged, Remaining(y, port).toClient,
      Remaining(y, port).silent, Remaining(y, port).toServer
  {
    hide Next, Run, Live, Chunks, Remaining;
    var first := SomethingAdvances(y, port);
    var y1 := Run(y, first);
    if y1.client.done {
      steps := first;
    } else {
      BlocksLeft(y, port);
      BlocksLeft(y1, port);
      var rest := LiveFinishes(y1, port);
      steps := first + rest;
      RunConcat(y, first, rest);
    }
  }

  lemma BlocksLeft(y: Sys, port: u16)
    requires Live(y, port) && y.sessions[port].blk > 0
    ensures Remaining(y, port).blocks > 0
  {
    hide Inv, Chunks;
    LiveFacts(y, port);
  }

  // ---------------------------------------------------------------- what the channels may do

  /** Everything under way between a session and the client can be lost. */
  lemma {:induction false} AllCanBeLost(y: Sys, port: u16) returns (steps: seq<Step>)
    requires port in y.sessions
    ensures var y1 := Run(y, steps);
      && y1.client == y.client && port in y1.sessions
      && y1.sessions[port] == y.sessions[port].(toClient := [], toServer := [])
    decreases |y.sessions[port].toClient| + |y.sessions[port].toServer|
  {
    hide Run;
    var s := y.sessions[port];
    if s.toClient == [] && s.toServer == [] {
      steps := [];
      RunNone(y);
    } else {
      var step := if s.toClient != [] then LoseToClient(port, 0) else LoseToServer(port, 0);
      var rest := AllCanBeLost(Next(y, step), port);
      steps := [step] + rest;
      RunOne(y, step, rest);
    }
  }

  /** And any packet can be delivered again: what it does to the client leaves it in the channel. */
  lemma AnyCanBeRepeated(y: Sys, port: u16)
    requires !y.client.done && port in y.sessions && y.sessions[port].toClient != []
    ensures var y1, y2 := Next(y, Deliver(port, true)), Next(y, Deliver(port, false));
      && port in y1.sessions && port in y2.sessions
      && y1.client == y2.client == Handle(y.client.(dest := port), y.sessions[port].toClient[0], port).0
      && y1.sessions[port].toClient == y.sessions[port].toClient
      && y2.sessions[port].toClient == y.sessions[port].toClient[1..]
      && y1.sessions[port].toServer == y2.sessions[port].toServer
  {
    hide Handle;
  }

  // ---------------------------------------------------------------- the timer

  /** A lost acknowledgement: the timer sends it again, and the server goes on, if and only if
      fewer than ten timeouts happened in the whole transfer and no foreign packet came since. */
  lemma LostAckResent(y: Sys)
    requires Inv(y) && y.client.st == DATA && !y.client.done && y.client.serverPort in y.sessions
    requires y.sessions[y.client.serverPort].phase == y.client.lastBlock as int
    requires y.sessions[y.client.serverPort].toServer == []
    ensures var port, again := y.client.serverPort, y.client.timeouts < 10 && y.client.dest == y.client.serverPort;
      var y1 := Next(y, Timer);
      && port in y1.sessions && y1.sessions[port].toServer == (if again then [y.client.lastBlock] else [])
      && y1.client == y.client.(timeouts := y.client.timeouts + 1)
      && (again ==> var y2 := Next(y1, ServerAck(port, false));
           && port in y2.sessions && y2.client == y1.client
           && y2.sessions[port].phase == y.client.lastBlock as int + 1 && y2.sessions[port].toClient != [])
  {
    hide Chunks, SessionOk, Genuine, Current;
    NextKeeps(y, Timer);
    BoundAt(y);
  }

  lemma BoundAt(y: Sys)
    requires Inv(y) && y.client.st == DATA && !y.client.done && y.client.serverPort in y.sessions
    ensures var c, s := y.client, y.sessions[y.client.serverPort];
      SessionOk(y.file, s) && c.block == c.lastBlock && c.lastBlock as int < |Chunks(y.file, s.blk)|
  {
    hide Chunks, FindBlksize;
  }

  /** How many timer steps of a run sent something. */
  ghost function Resends(y: Sys, steps: seq<Step>): nat
    decreases |steps|
  {
    if steps == [] then 0
    else
      var before := steps[..|steps| - 1];
      var c := Run(y, before).client;
      Resends(y, before) + if steps[|steps| - 1].Timer? && !c.done && Timeout(c).1 != Nothing then 1 else 0
  }

  lemma TimeoutsCounted(y: Sys, step: Step)
    ensures Next(y, step).client.timeouts == y.client.timeouts + (if step.Timer? && !y.client.done then 1 else 0)
  {
    hide FindBlksize, Chunks, SessionOk, Route;
  }

  /** The timeout count is never reset: in a whole transfer, however long, exactly the first ten
      timeouts send again. */
  lemma {:induction false} ResendsAtMostTen(file: seq<byte>, steps: seq<Step>)
    ensures Resends(Init(file), steps) == Min(Run(Init(file), steps).client.timeouts, 10)
    decreases |steps|
  {
    hide FindBlksize, Chunks, SessionOk, Route, Next;
    if steps != [] {
      ResendsAtMostTen(file, steps[..|steps| - 1]);
      TimeoutsCounted(Run(Init(file), steps[..|steps| - 1]), steps[|steps| - 1]);
    }
  }

  /** Some session that the client hears, opened if there is none. */
  lemma SomeSession(y: Sys) returns (port: u16, steps: seq<Step>)
    requires Inv(y) && !y.client.done && |Chunks(y.file, TFTP_BLOCK_SIZE)| < 0x1_0000
    ensures Live(Run(y, steps), port) && Run(y, steps).sessions[port].blk > 0
  {
    hide Chunks, Next;
    if y.client.st != RRQ {
      port, steps := y.client.serverPort, [];
      LiveFacts(y, port);
    } else if p :| p in y.sessions {
      port, steps := p, [];
      LiveFacts(y, port);
    } else {
      port, steps := WELL_KNOWN_PORT, [Open(WELL_KNOWN_PORT, None)];
      RunOne(y, Open(port, None), []);
      NextKeeps(y, Open(port, None));
      OpenEffect(y, port);
      LiveFacts(Next(y, Open(port, None)), port);
    }
  }

  lemma OpenEffect(y: Sys, port: u16)
    requires port !in y.sessions && |Chunks(y.file, TFTP_BLOCK_SIZE)| < 0x1_0000
    ensures var y1 := Next(y, Open(port, None)); port in y1.sessions && y1.client == y.client
  {
    hide Chunks;
  }

  /** From every reachable state, whatever was lost, repeated or left under way before, success is
      still reachable for every file of fewer than 65536 blocks: the safety theorem is not about
      runs that get nowhere. */
  lemma TransferCompletes(file: seq<byte>, before: seq<Step>)
    requires |Chunks(file, TFTP_BLOCK_SIZE)| < 0x1_0000
    ensures exists steps :: Run(Init(file), before + steps).client.done
  {
    hide Chunks, Next, Inv, Live;
    RunKeeps(file, before);
    var y := Run(Init(file), before);
    if y.client.done {
      assert before + [] == before;
    } else {
      var port, first := SomeSession(y);
      var last := LiveFinishes(Run(y, first), port);
      RunConcat(y, first, last);
      RunConcat(Init(file), before, first + last);
    }
  }

  // ---------------------------------------------------------------- any order

  /** Packets of the server the client listens to: option acknowledgements, blocks of the file,
      or packets without effect. */
  ghost predicate OfFile(cs: seq<seq<byte>>, p: Packet) {
    p.Data? ==> 1 <= p.num <= |cs| && p.payload == cs[p.num - 1]
  }

  /** What was stored is the file's first blocks, each once and in order. */
  ghost predicate InOrder(cs: seq<seq<byte>>, c: Client)
    requires |cs| < 0x1_0000
  {
    |c.stored| <= |cs| && c.stored == Log(cs, |c.stored|)
  }

  /** Whether a data packet reaches store_block: the client looks at its last block only. */
  predicate Stores(c: Client, num: u16) {
    if c.st == DATA then num != c.lastBlock else num == 1
  }

  /** A packet that is stored although it is not the next block. */
  predicate Misorders(c: Client, p: Packet) {
    p.Data? && Stores(c, p.num) && p.num as int != |c.stored| + 1
  }

  lemma HandleStores(c: Client, p: Packet, port: u16)
    requires c.st == RRQ || port == c.serverPort
    ensures Handle(c, p, port).0.stored ==
      if p.Data? && Stores(c, p.num) then c.stored + [(Wrap(p.num as int - 1), p.payload)] else c.stored
    ensures Handle(c, p, port).0.st == RRQ || Handle(c, p, port).0.serverPort == port
  {
    hide FindBlksize, Wrap;
  }

  /** Whatever state the client is in, exactly which packet puts the log out of order. */
  lemma PacketKeepsOrder(cs: seq<seq<byte>>, c: Client, p: Packet, port: u16)
    requires |cs| < 0x1_0000 && InOrder(cs, c) && OfFile(cs, p) && (c.st == RRQ || port == c.serverPort)
    ensures InOrder(cs, Handle(c, p, port).0) <==> !Misorders(c, p)
  {
    hide Handle;
    HandleStores(c, p, port);
    if p.Data? && Stores(c, p.num) {
      var n := |c.stored|;
      var log := c.stored + [(Wrap(p.num as int - 1), p.payload)];
      assert log[n] == (p.num as int - 1, p.payload);
      if p.num as int == n + 1 {
        LogSnoc(cs, n);
      } else if n < |cs| {
        assert Log(cs, n + 1)[n] == (n, cs[n]);
      }
    }
  }

  /** In a transfer whose last block was stored last, an older block breaks the order, the last
      one again or the next one does not: channels have to keep the order, and that is enough. */
  lemma OlderBlockMisorders(cs: seq<seq<byte>>, c: Client, num: u16)
    requires |cs| < 0x1_0000 && c.st == DATA && 1 <= c.lastBlock as int <= |cs|
    requires c.stored == Log(cs, c.lastBlock)
    requires 1 <= num as int <= |cs| && num as int <= c.lastBlock as int + 1
    ensures InOrder(cs, Handle(c, Data(num, cs[num - 1]), c.serverPort).0) <==> num >= c.lastBlock
  {
    hide Handle;
    PacketKeepsOrder(cs, c, Data(num, cs[num - 1]), c.serverPort);
  }

  /** After a late option acknowledgement the transfer is open again. The next block then keeps
      the order if and only if it is not block 1; it is dropped without an answer, and from there
      on the order is kept if and only if the block that was next before is next again. */
  lemma LateOptionAck(cs: seq<seq<byte>>, c: Client, options: seq<byte>, num: u16, num': u16)
    requires |cs| < 0x1_0000 && c.st == DATA && InOrder(cs, c) && c.stored != []
    requires 1 <= num as int <= |cs| && 1 <= num' as int <= |cs|
    ensures var (c1, _) := Handle(c, OAck(options), c.serverPort);
      var (c2, o) := Handle(c1, Data(num, cs[num - 1]), c.serverPort);
      var (c3, _) := Handle(c2, Data(num', cs[num' - 1]), c.serverPort);
      && (InOrder(cs, c2) <==> num != 1)
      && (num != 1 ==> c2.stored == c.stored && o == Nothing && (InOrder(cs, c3) <==> num' as int == |c.stored| + 1))
  {
    hide FindBlksize, Wrap;
    var (c1, _) := Handle(c, OAck(options), c.serverPort);
    PacketKeepsOrder(cs, c1, Data(num, cs[num - 1]), c.serverPort);
    var (c2, _) := Handle(c1, Data(num, cs[num - 1]), c.serverPort);
    if num != 1 {
      PacketKeepsOrder(cs, c2, Data(num', cs[num' - 1]), c.serverPort);
    }
  }

  /** The client fed with packets of its server in any order, until it is torn down. */
  function Feed(ps: seq<Packet>, port: u16): Client {
    if ps == [] then Start()
    else
      var c := Feed(ps[..|ps| - 1], port);
      if c.done then c else Handle(c, ps[|ps| - 1], port).0
  }

  lemma FeedNext(ps: seq<Packet>, port: u16, n: nat)
    requires n < |ps|
    ensures var c := Feed(ps[..n], port);
      Feed(ps[..n + 1], port) == if c.done then c else Handle(c, ps[n], port).0
  {
    assert ps[..n + 1][..n] == ps[..n];
  }

  lemma {:induction false} FeedBound(ps: seq<Packet>, port: u16)
    ensures var c := Feed(ps, port); c.st == RRQ || c.serverPort == port
    decreases |ps|
  {
    hide Handle;
    if ps != [] {
      FeedBound(ps[..|ps| - 1], port);
      HandleStores(Feed(ps[..|ps| - 1], port), ps[|ps| - 1], port);
    }
  }

  lemma {:induction false} OrderedSoFar(cs: seq<seq<byte>>, ps: seq<Packet>, port: u16, n: nat)
    requires |cs| < 0x1_0000 && n <= |ps| && forall p :: p in ps ==> OfFile(cs, p)
    requires forall m :: 0 <= m < n ==> Feed(ps[..m], port).done || !Misorders(Feed(ps[..m], port), ps[m])
    ensures InOrder(cs, Feed(ps[..n], port))
  {
    hide Handle, Misorders, OfFile;
    if n == 0 {
      assert Feed(ps[..0], port).stored == Log(cs, 0);
    } else {
      OrderedSoFar(cs, ps, port, n - 1);
      FeedNext(ps, port, n - 1);
      FeedBound(ps[..n - 1], port);
      if !Feed(ps[..n - 1], port).done {
        PacketKeepsOrder(cs, Feed(ps[..n - 1], port), ps[n - 1], port);
      }
    }
  }

  /** Any number of packets of one server, lost, repeated and in any order: what is stored is at
      every moment the file's first blocks in order, if and only if no packet is stored that is
      not the next block. */
  lemma {:induction false} OrderedUnlessMisordered(cs: seq<seq<byte>>, ps: seq<Packet>, port: u16)
    requires |cs| < 0x1_0000 && forall p :: p in ps ==> OfFile(cs, p)
    ensures (forall n :: 0 <= n <= |ps| ==> InOrder(cs, Feed(ps[..n], port)))
       <==> forall n :: 0 <= n < |ps| ==> Feed(ps[..n], port).done || !Misorders(Feed(ps[..n], port), ps[n])
  {
    hide Handle, Misorders, OfFile, InOrder, Feed;
    if forall n :: 0 <= n <= |ps| ==> InOrder(cs, Feed(ps[..n], port)) {
      forall n | 0 <= n < |ps|
        ensures Feed(ps[..n], port).done || !Misorders(Feed(ps[..n], port), ps[n])
      {
        FeedNext(ps, port, n);
        FeedBound(ps[..n], port);
        assert InOrder(cs, Feed(ps[..n + 1], port));
        if !Feed(ps[..n], port).done {
          PacketKeepsOrder(cs, Feed(ps[..n], port), ps[n], port);
        }
      }
    }
    if forall n :: 0 <= n < |ps| ==> Feed(ps[..n], port).done || !Misorders(Feed(ps[..n], port), ps[n]) {
      forall n | 0 <= n <= |ps|
        ensures InOrder(cs, Feed(ps[..n], port))
      {
        OrderedSoFar(cs, ps, port, n);
      }
    }
  }

  /** The shortest such packet list: block 1 arrives again after block 2. */
  lemma ReorderingStoresTwice(payload: seq<byte>, other: seq<byte>)
    requires |payload| == |other| == 512
    ensures Feed([Data(1, payload), Data(2, other), Data(1, payload)], 5000).stored
         == [(0, payload), (1, other), (0, payload)]
  {
    var ps := [Data(1, payload), Data(2, other), Data(1, payload)];
    assert ps[..0] == [] && ps[..3] == ps;
    FeedNext(ps, 5000, 0);
    FeedNext(ps, 5000, 1);
    FeedNext(ps, 5000, 2);
  }
}
