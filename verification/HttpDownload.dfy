/** app/http/utils_net.c and utils_httpc.c: the body of a response with Content-Length, drained
    by the receive loop of HAL_TCP_Read and the retrieve loop around it. */
module HttpDownload {
  import opened Words
  import opened HttpFlash

  const TCP_LEN_MAX: nat := 1460
  const SUCCESS_RETURN: int := 0
  const HTTP_RETRIEVE_MORE_DATA: int := 1
  const ERROR_HTTP_CONN: int := -8

  /** What one turn of select and recv brings: bytes that have arrived, an interrupted
      recv, a select without readiness, an orderly close, or a failure (an interrupted select is one). */
  datatype Event = Avail(n: nat) | Eintr | NotReady | Closed | Failed

  predicate Ends(e: Event) {
    e.Closed? || e.Failed?
  }

  /** How many bytes the turns bring when at most `cap` are taken in each, until the connection
      ends or the turns do. */
  function Bytes(es: seq<Event>, cap: nat): nat {
    if es == [] || Ends(es[0]) then 0
    else (if es[0].Avail? then Min(es[0].n, cap) else 0) + Bytes(es[1..], cap)
  }

  /** Whether a close or a failure is met before the deadline. */
  predicate Broken(es: seq<Event>) {
    es != [] && (Ends(es[0]) || Broken(es[1..]))
  }

  /** The turns behind the first close or failure. */
  function AfterBreak(es: seq<Event>): (r: seq<Event>)
    ensures es != [] ==> |r| < |es|
  {
    if es == [] then [] else if Ends(es[0]) then es[1..] else AfterBreak(es[1..])
  }

  /** The size of the first piece that arrives, 0 if the connection ends or the turns do. */
  function FirstPiece(es: seq<Event>): (n: nat)
    ensures es == [] ==> n == 0
  {
    if es == [] || Ends(es[0]) then 0
    else if es[0].Avail? && es[0].n > 0 then es[0].n
    else FirstPiece(es[1..])
  }

  /** The turns behind the first piece. */
  function AfterPiece(es: seq<Event>): (r: seq<Event>)
    ensures es != [] ==> |r| < |es|
  {
    if es == [] then [] else if es[0].Avail? && es[0].n > 0 then es[1..] else AfterPiece(es[1..])
  }

  lemma {:induction false} BytesAfterPiece(es: seq<Event>, cap: nat)
    ensures if FirstPiece(es) == 0 then Bytes(es, cap) == 0
            else Bytes(es, cap) == Min(FirstPiece(es), cap) + Bytes(AfterPiece(es), cap)
    decreases |es|
  {
    if es != [] && !Ends(es[0]) {
      BytesAfterPiece(es[1..], cap);
    }
  }

  /** Pieces counted up to `cap` that suffice for at most `cap` bytes. */
  lemma {:induction false} BytesUpTo(es: seq<Event>, c: nat, cap: nat)
    ensures Bytes(es, cap) >= Min(cap, Bytes(es, c)) && (c <= cap ==> Bytes(es, cap) >= Bytes(es, c))
    decreases |es|
  {
    if es != [] && !Ends(es[0]) {
      BytesUpTo(es[1..], c, cap);
    }
  }

  /** A connection: the bytes the peer has still to deliver, and the turns left before the
      deadline of the read. */
  class Connection {
    var rest: seq<byte>
    var turns: seq<Event>

    constructor (rest: seq<byte>, turns: seq<Event>)
      ensures this.rest == rest && this.turns == turns
    {
      this.rest, this.turns := rest, turns;
    }
  }

  /** Reading so far: `got` bytes of rest0 are gone, some turns are used, and what is gone and
      what the other turns can bring add up. */
  ghost predicate Reading(rest0: seq<byte>, turns0: seq<Event>, rest: seq<byte>, turns: seq<Event>, got: nat, cap: nat) {
    && got <= |rest0| && rest == rest0[got..]
    && |turns| <= |turns0| && (got > 0 ==> |turns| < |turns0|)
    && Broken(turns) == Broken(turns0) && AfterBreak(turns) == AfterBreak(turns0)
    && got + Min(Bytes(turns, cap), |rest|) == Min(Bytes(turns0, cap), |rest0|)
    && (got == 0 && rest0 != [] ==> FirstPiece(turns) == FirstPiece(turns0) && AfterPiece(turns) == AfterPiece(turns0))
  }

  /** The bytes that left a connection. */
  function Taken(before: seq<byte>, after: seq<byte>): seq<byte>
    requires |after| <= |before|
  {
    before[..|before| - |after|]
  }

  /** What a read in plain mode brings. */
  function PlainBytes(rest: seq<byte>, turns: seq<Event>, len: nat): nat {
    Min(FirstPiece(turns), Min(len, |rest|))
  }

  /** What a read in draining mode does while no more than `total` bytes are outstanding: it takes
      what comes before the deadline or the first break. All of `total` is a success; without them
      the deadline is an error, and a break returns what came, an error if nothing did. */
  ghost predicate Drained(rest0: nat, turns0: seq<Event>, rest: nat, turns: seq<Event>, total: nat, len: nat, ret: int) {
    var got := Min(Bytes(turns0, len), rest0);
    && rest == rest0 - got
    && (if got >= total then ret == got
        else if !Broken(turns0) then ret == ERROR_HTTP_CONN
        else turns == AfterBreak(turns0) && if got > 0 then ret == got else ret < 0)
  }

  /** What one HAL_TCP_Read does to the connection, in terms of its result. */
  ghost predicate ReadResult(rest0: seq<byte>, turns0: seq<Event>, rest: seq<byte>, turns: seq<Event>,
                             doData: bool, total: nat, len: nat, ret: int) {
    && |rest| <= |rest0| && rest == rest0[|rest0| - |rest|..]
    && |turns| <= |turns0| && (ret != ERROR_HTTP_CONN ==> |turns| < |turns0|)
    && ret != 0 && (ret > 0 ==> ret == |rest0| - |rest|)
    && (doData && |rest0| <= total && len <= total ==> Drained(|rest0|, turns0, |rest|, turns, total, len, ret))
    // plain mode: the first piece
    && (!doData ==>
          var m := PlainBytes(rest0, turns0, len);
          if m > 0 then ret == m && turns == AfterPiece(turns0) else ret < 0 && rest == rest0)
  }

  lemma ReadingStarts(rest: seq<byte>, turns: seq<Event>, cap: nat)
    ensures Reading(rest, turns, rest, turns, 0, cap)
  {
  }

  /** What one turn takes out of the connection. */
  function TurnBytes(e: Event, rest: seq<byte>, cap: nat): nat {
    if e.Avail? then Min(e.n, Min(cap, |rest|)) else 0
  }

  lemma TurnTaken(rest0: seq<byte>, turns0: seq<Event>, rest: seq<byte>, turns: seq<Event>, got: nat, cap: nat)
    requires Reading(rest0, turns0, rest, turns, got, cap) && turns != [] && cap > 0 && !Ends(turns[0])
    ensures var m := TurnBytes(turns[0], rest, cap);
      && Reading(rest0, turns0, rest[m..], turns[1..], got + m, cap)
      && rest0[..got] + rest[..m] == rest0[..got + m]
      && (m > 0 && got == 0 ==> m == PlainBytes(rest0, turns0, cap) && turns[1..] == AfterPiece(turns0))
  {
  }

  lemma ReadingEnds(rest0: seq<byte>, turns0: seq<Event>, rest: seq<byte>, turns: seq<Event>,
                    got: nat, doData: bool, total: nat, len: nat, ret: int)
    requires Reading(rest0, turns0, rest, turns, got, len) && len > 0
    requires if ret == ERROR_HTTP_CONN then turns == [] && (if doData then got < total || got < len else got == 0)
             else ret == got > 0 && (doData ==> got >= total)
    requires !doData && got > 0 ==> got == PlainBytes(rest0, turns0, len) && turns == AfterPiece(turns0)
    ensures ReadResult(rest0, turns0, rest, turns, doData, total, len, ret)
    ensures Taken(rest0, rest) == rest0[..got]
  {
  }

  /** The connection ends: what came before is returned, the error only if nothing did. */
  lemma ReadingBroken(rest0: seq<byte>, turns0: seq<Event>, rest: seq<byte>, turns: seq<Event>,
                      got: nat, doData: bool, total: nat, len: nat, ret: int)
    requires Reading(rest0, turns0, rest, turns, got, len) && len > 0
    requires turns != [] && Ends(turns[0]) && (!doData ==> got == 0)
    requires if got > 0 then ret == got else ERROR_HTTP_CONN < ret < 0
    ensures ReadResult(rest0, turns0, rest, turns[1..], doData, total, len, ret)
    ensures Taken(rest0, rest) == rest0[..got]
  {
  }

  /** The flash writer, if it is to be fed: in plain mode reading touches nothing of it. */
  ghost function Draining(bk: HttpData): set<HttpData>
    reads bk`doData
  {
    if bk.doData then {bk} else {}
  }

  ghost function DrainBuffer(bk: HttpData): set<array<byte>>
    reads bk`doData, bk`wrBuf
  {
    if bk.doData then {bk.wrBuf} else {}
  }

  /** One recv of m bytes into the start of the buffer, handed on in do_data mode. */
  method Receive(net: Connection, bk: HttpData, buf: array<byte>, m: nat)
    requires (bk.doData ==> bk.Valid()) && m <= buf.Length && m <= |net.rest| && buf != bk.wrBuf
    modifies net`rest, buf, Draining(bk)`dev, Draining(bk)`flashAddress,
      Draining(bk)`wrLastLen, Draining(bk)`input, DrainBuffer(bk)
    ensures net.rest == old(net.rest)[m..] && buf[..m] == old(net.rest)[..m]
    ensures bk.doData ==> bk.Valid() && bk.input == old(bk.input) + old(net.rest)[..m]
  {
    var piece := net.rest[..m];
    net.rest := net.rest[m..];
    forall i | 0 <= i < m {
      buf[i] := piece[i];
    }
    assert buf[..m] == piece;
    if bk.doData {
      bk.HttpWrToFlash(buf[..m]);
    }
  }

  /** One turn of select and recv on a connection that has not ended; m bytes were received. */
  method TakeTurn(net: Connection, bk: HttpData, buf: array<byte>, len: nat,
                  ghost rest0: seq<byte>, ghost turns0: seq<Event>, ghost got: nat) returns (m: nat)
    requires 0 < len <= buf.Length && (bk.doData ==> bk.Valid()) && buf != bk.wrBuf
    requires net.turns != [] && !Ends(net.turns[0]) && Reading(rest0, turns0, net.rest, net.turns, got, len)
    modifies net, buf, Draining(bk)`dev, Draining(bk)`flashAddress,
      Draining(bk)`wrLastLen, Draining(bk)`input, DrainBuffer(bk)
    ensures bk.doData ==> bk.Valid()
    ensures net.turns == old(net.turns)[1..] && Reading(rest0, turns0, net.rest, net.turns, got + m, len)
    ensures m <= len && got + m <= |rest0|
    ensures bk.doData ==> bk.input == old(bk.input) + rest0[got..got + m]
    ensures m > 0 && got == 0 ==>
      buf[..m] == rest0[..m] && m == PlainBytes(rest0, turns0, len) && net.turns == AfterPiece(turns0)
  {
    hide HttpData.Valid, Reading, FirstPiece, AfterPiece, AfterBreak, Broken, Bytes, PlainBytes;
    var turn := net.turns[0];
    TurnTaken(rest0, turns0, net.rest, net.turns, got, len);
    m := TurnBytes(turn, net.rest, len);
    StillThere(rest0, turns0, net.rest, net.turns, got, len, m);
    net.turns := net.turns[1..];
    if m > 0 {
      Receive(net, bk, buf, m);
    }
  }

  lemma StillThere(rest0: seq<byte>, turns0: seq<Event>, rest: seq<byte>, turns: seq<Event>, got: nat, cap: nat, m: nat)
    requires Reading(rest0, turns0, rest, turns, got, cap) && m <= |rest|
    ensures got + m <= |rest0| && rest[..m] == rest0[got..got + m] && rest[0..] == rest
  {
    hide Bytes, FirstPiece, AfterPiece, AfterBreak, Broken;
  }

  /** HAL_TCP_Read. In do_data mode every received piece is handed to the flash writer and the
      loop goes on until http_total bytes came; otherwise one piece is returned in `buf`. */
  method HalTcpRead(net: Connection, bk: HttpData, buf: array<byte>, len: nat) returns (ret: int)
    requires 0 < len <= buf.Length && (bk.doData ==> bk.Valid()) && buf != bk.wrBuf
    modifies net, buf, Draining(bk)`dev, Draining(bk)`flashAddress,
      Draining(bk)`wrLastLen, Draining(bk)`input, DrainBuffer(bk)
    ensures bk.doData ==> bk.Valid()
    ensures ReadResult(old(net.rest), old(net.turns), net.rest, net.turns, bk.doData, bk.httpTotal, len, ret)
    ensures bk.doData ==> bk.input == old(bk.input) + Taken(old(net.rest), net.rest)
    ensures !bk.doData && ret > 0 ==> buf[..ret] == old(net.rest)[..ret]
  {
    hide HttpData.Valid, Fed, FlashWr, Blocks, Reading, ReadResult, Bytes, FirstPiece, AfterPiece, Taken, AfterBreak, Broken, PlainBytes;
    var lenRecv: nat, errCode, dataOver := 0, 0, false;
    ghost var rest0, turns0, input0 := net.rest, net.turns, bk.input;
    ReadingStarts(rest0, turns0, len);
    assert rest0[..0] == [] && input0 + [] == input0;
    while true
      invariant bk.doData ==> bk.Valid()
      invariant Reading(rest0, turns0, net.rest, net.turns, lenRecv, len)
      invariant 0 <= lenRecv <= |rest0| && (!bk.doData ==> lenRecv == 0)
      invariant bk.doData ==> bk.input == input0 + rest0[..lenRecv]
      invariant (bk.doData && lenRecv < bk.httpTotal) || (lenRecv < len && !dataOver)
      decreases |net.turns|
    {
      if net.turns == [] {
        ret := ERROR_HTTP_CONN;
        ReadingEnds(rest0, turns0, net.rest, net.turns, lenRecv, bk.doData, bk.httpTotal, len, ret);
        return;
      }
      var turn := net.turns[0];
      if turn.Closed? || turn.Failed? {
        errCode := if turn.Closed? then -1 else -2;
        ret := if lenRecv != 0 then lenRecv else errCode;
        ReadingBroken(rest0, turns0, net.rest, net.turns, lenRecv, bk.doData, bk.httpTotal, len, ret);
        net.turns := net.turns[1..];
        return;
      }
      var m := TakeTurn(net, bk, buf, len, rest0, turns0, lenRecv);
      if 0 < m < len {
        dataOver := true;
      }
      assert rest0[..lenRecv] + rest0[lenRecv..lenRecv + m] == rest0[..lenRecv + m];
      lenRecv := lenRecv + m;
      if !((bk.doData && lenRecv < bk.httpTotal) || (lenRecv < len && !dataOver)) {
        break;
      }
    }
    ret := if lenRecv != 0 then lenRecv else errCode;
    ReadingEnds(rest0, turns0, net.rest, net.turns, lenRecv, bk.doData, bk.httpTotal, len, ret);
  }

  /** httpclient_recv on an open plain connection: errors become ERROR_HTTP_CONN, the number of
      bytes is an out-parameter. `raw` is what HAL_TCP_Read returned. */
  method HttpclientRecv(net: Connection, bk: HttpData, buf: array<byte>, maxLen: nat)
    returns (ret: int, readLen: nat, ghost raw: int)
    requires 0 < maxLen <= buf.Length && (bk.doData ==> bk.Valid()) && buf != bk.wrBuf
    modifies net, buf, Draining(bk)`dev, Draining(bk)`flashAddress,
      Draining(bk)`wrLastLen, Draining(bk)`input, DrainBuffer(bk)
    ensures bk.doData ==> bk.Valid()
    ensures ret == (if raw < 0 then ERROR_HTTP_CONN else SUCCESS_RETURN) && readLen == Max(raw, 0)
    ensures ReadResult(old(net.rest), old(net.turns), net.rest, net.turns, bk.doData, bk.httpTotal, maxLen, raw)
    ensures bk.doData ==> bk.input == old(bk.input) + Taken(old(net.rest), net.rest)
    ensures !bk.doData && raw > 0 ==> buf[..raw] == old(net.rest)[..raw]
  {
    readLen := 0;
    var n := HalTcpRead(net, bk, buf, maxLen);
    raw := n;
    if n > 0 {
      readLen := n;
      ret := SUCCESS_RETURN;
    } else if n == 0 {
      ret := SUCCESS_RETURN;
    } else {
      ret := ERROR_HTTP_CONN;
    }
  }

  /** A peer that sends exactly the announced body, of which `head` came with the headers. */
  ghost predicate ExactBody(head: seq<byte>, rest: seq<byte>, contentLength: u32) {
    |head| + |rest| == contentLength
  }

  /** How many bytes a read of the retrieve loop asks for. */
  function ReadCap(room: nat, rest: nat): nat {
    Min(Min(TCP_LEN_MAX, room), rest)
  }

  /** How the retrieve loop ends with `room` left in the response buffer counter and `rest` of the
      `total` bytes outstanding that it waited for at the start. Every read waits for `total`
      bytes, also behind a break, when so many are not outstanding any more. */
  ghost function Outcome(room: nat, rest: nat, total: nat, turns: seq<Event>): int
    decreases |turns|
  {
    if rest == 0 then SUCCESS_RETURN
    else
      var got := Min(Bytes(turns, ReadCap(room, rest)), rest);
      if got >= total then SUCCESS_RETURN
      else if !Broken(turns) || got == 0 then ERROR_HTTP_CONN
      else if got == rest then SUCCESS_RETURN
      else if got >= room then HTTP_RETRIEVE_MORE_DATA
      else Outcome(room - got, rest - got, total, AfterBreak(turns))
  }

  /** The same before `len` bytes of the body are counted. */
  ghost function EndingFrom(room: nat, len: nat, rest: nat, total: nat, turns: seq<Event>): int {
    if len >= room then HTTP_RETRIEVE_MORE_DATA else Outcome(room - len, rest, total, turns)
  }

  /** How the retrieve loop ends when the peer sends exactly the announced body. */
  ghost function Ending(head: seq<byte>, rest: seq<byte>, turns: seq<Event>, respBufLen: u32): int
    requires respBufLen > 0
  {
    EndingFrom(respBufLen - 1, |head|, |rest|, |rest|, turns)
  }

  /** The flash writer got the first part of the body and whatever left the connection. */
  ghost predicate Conserved(input: seq<byte>, head: seq<byte>, rest0: seq<byte>, rest: seq<byte>) {
    && |rest| <= |rest0| && rest == rest0[|rest0| - |rest|..]
    && input == head + Taken(rest0, rest)
  }

  lemma ConservedAtStart(head: seq<byte>, rest0: seq<byte>)
    ensures Conserved(head, head, rest0, rest0)
  {
  }

  lemma ConservedMeans(input: seq<byte>, head: seq<byte>, rest0: seq<byte>, rest: seq<byte>)
    requires Conserved(input, head, rest0, rest)
    ensures |rest| <= |rest0| && rest == rest0[|rest0| - |rest|..] && input == head + Taken(rest0, rest)
    ensures |input| == |head| + |rest0| - |rest| && (rest == [] ==> input == head + rest0)
  {
    assert rest0[..|rest0|] == rest0;
  }

  lemma ReadConserves(input: seq<byte>, head: seq<byte>, rest0: seq<byte>,
                      rest1: seq<byte>, turns1: seq<Event>, rest2: seq<byte>, turns2: seq<Event>,
                      total: nat, len: nat, raw: int, input': seq<byte>)
    requires Conserved(input, head, rest0, rest1) && ReadResult(rest1, turns1, rest2, turns2, true, total, len, raw)
    requires |rest2| <= |rest1| && input' == input + Taken(rest1, rest2)
    ensures Conserved(input', head, rest0, rest2)
    ensures raw >= 0 ==> |turns2| < |turns1| && |input'| == |input| + raw
  {
    hide Bytes, FirstPiece;
    assert Taken(rest0, rest1) + Taken(rest1, rest2) == Taken(rest0, rest2);
    assert head + Taken(rest0, rest1) + Taken(rest1, rest2) == head + (Taken(rest0, rest1) + Taken(rest1, rest2));
  }

  /** One read of the retrieve loop, when no more than the announced bytes are outstanding. */
  lemma ReadDecides(room: nat, rest0: seq<byte>, turns0: seq<Event>, rest: seq<byte>, turns: seq<Event>,
                    total: nat, len: nat, raw: int)
    requires 0 < |rest0| <= total && room > 0 && len == ReadCap(room, |rest0|)
    requires ReadResult(rest0, turns0, rest, turns, true, total, len, raw)
    ensures |rest| <= |rest0| && raw != 0
    ensures raw < 0 ==> Outcome(room, |rest0|, total, turns0) == ERROR_HTTP_CONN
    ensures raw > 0 ==>
      && raw == |rest0| - |rest|
      && Outcome(room, |rest0|, total, turns0)
         == if rest == [] then SUCCESS_RETURN else EndingFrom(room, raw, |rest|, total, turns)
  {
    hide Bytes, FirstPiece, Broken, AfterBreak, PlainBytes;
  }

  /** The read of the retrieve loop. */
  method DrainMore(net: Connection, bk: HttpData, bData: array<byte>, maxLen: nat,
                   ghost head: seq<byte>, ghost rest0: seq<byte>)
    returns (ret: int, readLen: nat, ghost raw: int)
    requires 0 < maxLen <= bData.Length && bk.doData && bk.Valid() && bData != bk.wrBuf
    requires Conserved(bk.input, head, rest0, net.rest)
    modifies net, bData, bk`dev, bk`flashAddress, bk`wrLastLen, bk`input, bk.wrBuf
    ensures bk.Valid() && Conserved(bk.input, head, rest0, net.rest)
    ensures ret == (if raw < 0 then ERROR_HTTP_CONN else SUCCESS_RETURN) && readLen == Max(raw, 0)
    ensures ReadResult(old(net.rest), old(net.turns), net.rest, net.turns, true, bk.httpTotal, maxLen, raw)
    ensures raw >= 0 ==> |net.turns| < |old(net.turns)| && |bk.input| == |old(bk.input)| + raw
  {
    hide HttpData.Valid, Taken, Conserved, ReadResult;
    ghost var rest, turns, input := net.rest, net.turns, bk.input;
    ret, readLen, raw := HttpclientRecv(net, bk, bData, maxLen);
    ShorterRest(rest, turns, net.rest, net.turns, true, bk.httpTotal, maxLen, raw);
    ReadConserves(input, head, rest0, rest, turns, net.rest, net.turns, bk.httpTotal, maxLen, raw, bk.input);
  }

  lemma ShorterRest(rest0: seq<byte>, turns0: seq<Event>, rest: seq<byte>, turns: seq<Event>,
                    doData: bool, total: nat, len: nat, ret: int)
    requires ReadResult(rest0, turns0, rest, turns, doData, total, len, ret)
    ensures |rest| <= |rest0|
  {
    hide Bytes, FirstPiece, AfterPiece, AfterBreak, Broken;
  }

  /** The retrieve loop. */
  method DrainBody(net: Connection, bk: HttpData, ghost head: seq<byte>, first: nat, contentLength: u32, respBufLen: u32)
    returns (ret: int)
    requires respBufLen > 0 && bk.doData && bk.Valid() && first == |head|
    requires bk.input == head && bk.httpTotal == Wrap(contentLength - first)
    modifies net, bk`dev, bk`flashAddress, bk`wrLastLen, bk`input, bk.wrBuf
    ensures ret == SUCCESS_RETURN || ret == ERROR_HTTP_CONN || ret == HTTP_RETRIEVE_MORE_DATA
    ensures bk.Valid() && Conserved(bk.input, head, old(net.rest), net.rest)
    ensures ret == SUCCESS_RETURN ==> |bk.input| >= contentLength
    ensures ExactBody(head, old(net.rest), contentLength) ==> ret == Ending(head, old(net.rest), old(net.turns), respBufLen)
  {
    hide HttpData.Valid, Fed, FlashWr, Blocks, Bytes, FirstPiece, Broken, AfterBreak, Taken, Conserved, ReadResult, Outcome;
    ghost var rest0, turns0, exact := net.rest, net.turns, ExactBody(head, net.rest, contentLength);
    var readLen: u32 := contentLength;
    var count, len := 0, first;
    ConservedAtStart(head, rest0);
    var bData := new byte[TCP_LEN_MAX + 1];
    while true
      invariant bk.Valid() && Conserved(bk.input, head, rest0, net.rest)
      invariant 0 <= count < respBufLen && 0 <= len
      invariant readLen + |bk.input| >= contentLength + len
      invariant exact ==> readLen == len + |net.rest| && |net.rest| <= bk.httpTotal
      invariant exact ==>
        Ending(head, rest0, turns0, respBufLen) == EndingFrom(respBufLen - 1 - count, len, |net.rest|, bk.httpTotal, net.turns)
      decreases |net.turns|
    {
      var templen := Min(len, readLen);
      if count + templen >= respBufLen - 1 {
        return HTTP_RETRIEVE_MORE_DATA;
      }
      count := count + templen;
      if len > readLen {
        len := len - readLen;
        readLen := 0;
      } else {
        readLen := readLen - len;
      }
      if readLen != 0 {
        var maxLen := Min(Min(TCP_LEN_MAX, respBufLen - 1 - count), readLen);
        ghost var rest, turns, input := net.rest, net.turns, bk.input;
        var r;
        ghost var raw;
        r, len, raw := DrainMore(net, bk, bData, maxLen, head, rest0);
        if exact {
          ReadDecides(respBufLen - 1 - count, rest, turns, net.rest, net.turns, bk.httpTotal, maxLen, raw);
        }
        if r == ERROR_HTTP_CONN {
          return r;
        }
      } else {
        NothingOutstanding(respBufLen - 1 - count, bk.httpTotal, net.turns);
      }
      if readLen == len {
        readLen := 0;
      }
      if readLen == 0 {
        break;
      }
    }
    return SUCCESS_RETURN;
  }

  lemma NothingOutstanding(room: nat, total: nat, turns: seq<Event>)
    ensures Outcome(room, 0, total, turns) == SUCCESS_RETURN
  {
  }

  /** The content-length path of httpclient_retrieve_content. In every case the flash writer got
      what came with the headers and whatever left the connection, once and in order, and success
      is never reported before the announced length has come. For a peer that sends exactly that,
      the end is decided for every list of turns; the lemmas below say what it means. */
  method RetrieveContent(net: Connection, bk: HttpData, head: seq<byte>, contentLength: u32, respBufLen: u32)
    returns (ret: int)
    requires respBufLen > 0 && !bk.doData
    modifies net, bk
    ensures ret == SUCCESS_RETURN || ret == ERROR_HTTP_CONN || ret == HTTP_RETRIEVE_MORE_DATA
    ensures |net.rest| <= |old(net.rest)| && net.rest == old(net.rest)[|old(net.rest)| - |net.rest|..]
    ensures bk.input == head + Taken(old(net.rest), net.rest)
    ensures ret == SUCCESS_RETURN ==>
      && |bk.input| >= contentLength && !bk.doData
      && Writer(bk.dev, bk.flashAddress) == Flushed(bk.pt, Writer(old(bk.dev), bk.pt.start), bk.input)
    ensures ExactBody(head, old(net.rest), contentLength) ==>
      && ret == Ending(head, old(net.rest), old(net.turns), respBufLen)
      && (ret == SUCCESS_RETURN ==> net.rest == [] && bk.input == head + old(net.rest))
  {
    hide HttpData.Valid, Fed, FlashWr, Blocks, Flushed, Taken, Conserved, Ending;
    ghost var rest0 := net.rest;
    bk.HttpFlashInit();
    bk.HttpWrToFlash(head);
    assert [] + head == head;
    bk.doData := true;
    bk.httpTotal := Wrap(contentLength - |head|);
    ret := DrainBody(net, bk, head, |head|, contentLength, respBufLen);
    ConservedMeans(bk.input, head, rest0, net.rest);
    if ret == SUCCESS_RETURN {
      bk.doData := false;
      bk.FlushTail();
    }
  }

  // ---------------------------------------------------------------- what the end means

  /** On a connection that lasts until the deadline, success means that the body arrived. */
  lemma LastingConnection(head: seq<byte>, rest: seq<byte>, turns: seq<Event>, respBufLen: u32)
    requires |head| + 1 < respBufLen && !Broken(turns)
    ensures Ending(head, rest, turns, respBufLen)
         == if Bytes(turns, Min(Min(1460, respBufLen - 1 - |head|), |rest|)) >= |rest| then 0 else -8
  {
    hide Bytes, Broken;
  }

  /** A body that arrives before the first break is a success, whatever follows. */
  lemma ArrivedIsSuccess(head: seq<byte>, rest: seq<byte>, turns: seq<Event>, respBufLen: u32)
    requires |head| + 1 < respBufLen
    requires Bytes(turns, Min(Min(1460, respBufLen - 1 - |head|), |rest|)) >= |rest|
    ensures Ending(head, rest, turns, respBufLen) == 0
  {
    hide Bytes, Broken;
  }

  lemma {:induction false} BreakAt(pre: seq<Event>, e: Event, post: seq<Event>, cap: nat)
    requires !Broken(pre) && Ends(e)
    ensures Broken(pre + [e] + post) && AfterBreak(pre + [e] + post) == post
    ensures Bytes(pre + [e] + post, cap) == Bytes(pre, cap)
    decreases |pre|
  {
    var es := pre + [e] + post;
    if pre != [] {
      assert es[1..] == pre[1..] + [e] + post;
      BreakAt(pre[1..], e, post, cap);
    } else {
      assert es[0] == e && es[1..] == post;
    }
  }

  /** A read that waits for more than is outstanding, when all of that arrives. */
  lemma LateTotal(room: nat, rest: nat, total: nat, turns: seq<Event>)
    requires 0 < rest < total && Bytes(turns, ReadCap(room, rest)) >= rest
    ensures Outcome(room, rest, total, turns) == if Broken(turns) then SUCCESS_RETURN else ERROR_HTTP_CONN
  {
    hide Bytes, Broken, AfterBreak;
  }

  /** A break half way, behind which the rest of the body arrives completely: the read behind it
      waits for more than is outstanding, so the download fails at the deadline, unless the
      connection breaks once more. */
  lemma BreakHalfWay(head: seq<byte>, rest: seq<byte>, pre: seq<Event>, e: Event, post: seq<Event>, respBufLen: u32)
    requires |head| + 1 < respBufLen && !Broken(pre) && Ends(e)
    requires var room := respBufLen - 1 - |head|;
      var got := Bytes(pre, ReadCap(room, |rest|));
      0 < got < |rest| && got < room && Bytes(post, ReadCap(room - got, |rest| - got)) >= |rest| - got
    ensures Ending(head, rest, pre + [e] + post, respBufLen) == if Broken(post) then SUCCESS_RETURN else ERROR_HTTP_CONN
  {
    hide Bytes, Broken, AfterBreak;
    var room := respBufLen - 1 - |head|;
    var got := Bytes(pre, ReadCap(room, |rest|));
    BreakAt(pre, e, post, ReadCap(room, |rest|));
    LateTotal(room - got, |rest| - got, |rest|, post);
  }
}
