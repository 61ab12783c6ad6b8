/** app/http/utils_httpc.c, httpclient_recv_response: an upgrade over HTTP end to end. What the
    server announces and sends is what the flash holds. */
module HttpOta {
  import opened Words
  import opened Seqs
  import opened CString
  import opened HttpFlash
  import D = HttpDownload
  import H = HttpHeaders
  import R = HttpResponse
  import Flash

  // ---------------------------------------------------------------- the response of the server

  /** What the server sends: status line, header fields, body. */
  datatype Response = Response(statusLine: string, fields: seq<H.Field>, body: seq<byte>)

  function StartHeaders(retrieveLen: u32): H.Headers {
    H.Headers(false, R.NO_LENGTH, retrieveLen)
  }

  /** A response 200 whose fields are understood and announce the length of the body. */
  ghost predicate Announces(r: Response, retrieveLen: u32) {
    && (forall c :: c in r.statusLine ==> c != '\r' && c != '\0')
    && H.StatusCode(r.statusLine) == Some(200)
    && (forall f :: f in r.fields ==> H.FieldShape(f)) && H.AllUnderstood(r.fields)
    && |r.body| < 0x8000_0000
    && H.MeaningAll(StartHeaders(retrieveLen), r.fields) == H.Headers(false, |r.body|, |r.body|)
  }

  function Head(r: Response): string {
    r.statusLine + "\r\n" + H.Format(r.fields)
  }

  /** The connection carries the response. */
  ghost predicate Carries(rest: seq<byte>, r: Response) {
    Text(rest) == Head(r) + Text(r.body)
  }

  /** What a first read of m bytes shows, and what the whole stream means. */
  lemma CarriedParses(r: Response, retrieveLen: u32, rest: seq<byte>, m: nat)
    requires Announces(r, retrieveLen) && Carries(rest, r) && m <= |rest|
    ensures |r.statusLine| + 2 <= |rest|
    ensures H.FindCrlf(Text(rest)[..m]) == if m >= |r.statusLine| + 2 then Some(|r.statusLine|) else None
    ensures m >= |r.statusLine| + 2 ==>
      && H.StatusCode(Text(rest)[..m][..|r.statusLine|]) == Some(200)
      && Text(rest)[..m][|r.statusLine| + 2..] + Text(rest[m..]) == H.Format(r.fields) + Text(r.body)
      && H.Parse(StartHeaders(retrieveLen), H.Format(r.fields) + Text(r.body))
         == H.Done(H.Headers(false, |r.body|, |r.body|), Text(r.body))
  {
    hide H.FindCrlf, H.StatusCode, H.Parse, H.Format, H.MeaningAll, H.FieldShape, H.AllUnderstood, Text;
    var k, t := |r.statusLine|, Text(rest);
    var tail := H.Format(r.fields) + Text(r.body);
    assert t == r.statusLine + "\r\n" + tail;
    H.CrlfAfter(r.statusLine, tail);
    H.StatusLineMustComeFirst(t, m);
    if m >= k + 2 {
      R.WholeText(rest, m);
      assert t[..m][..k] == r.statusLine;
      assert t[..m][k + 2..] + t[m..] == t[k + 2..] == tail;
      H.ParsesFormat(StartHeaders(retrieveLen), r.fields, Text(r.body));
    }
  }

  /** A response 200 with a single Content-Length field is such a response. */
  lemma PlainResponse(minor: nat, reason: string, body: seq<byte>, retrieveLen: u32)
    requires reason == "" || (!IsDigit(reason[0]) && forall c :: c in reason ==> c != '\r' && c != '\0')
    requires |body| < 0x8000_0000
    ensures var f := H.Field("Content-Length", " " + Decimal(|body|));
      Announces(Response("HTTP/1." + Decimal(minor) + " 200" + reason, [f], body), retrieveLen)
  {
    hide H.Understood, H.Meaning, H.StatusCode, Decimal, H.FieldShape;
    var f := H.Field("Content-Length", " " + Decimal(|body|));
    H.LengthFieldShape(|body|);
    OkLine(minor, reason);
    H.ContentLengthRead(StartHeaders(retrieveLen), " ", |body|);
    OneField(StartHeaders(retrieveLen), f);
  }

  lemma OkLine(minor: nat, reason: string)
    requires reason == "" || (!IsDigit(reason[0]) && forall c :: c in reason ==> c != '\r' && c != '\0')
    ensures var line := "HTTP/1." + Decimal(minor) + " 200" + reason;
      H.StatusCode(line) == Some(200) && forall c :: c in line ==> c != '\r' && c != '\0'
  {
    hide H.StatusCode, Decimal;
    Numerals();
    H.StatusLineRead(1, minor, " ", 200, reason);
    var number := Decimal(minor);
    assert "HTTP/" + Decimal(1) + "." + number + " " + Decimal(200) + reason == "HTTP/1." + number + " 200" + reason;
    assert forall c :: c in number ==> IsDigit(c);
  }

  lemma Numerals()
    ensures Decimal(1) == "1" && Decimal(200) == "200"
  {
    assert Decimal(2) == "2" && Decimal(20) == "20";
  }

  lemma OneField(h: H.Headers, f: H.Field)
    ensures H.MeaningAll(h, [f]) == H.Meaning(h, f)
  {
    assert [f][1..] == [];
  }

  // ---------------------------------------------------------------- the code

  datatype Outcome = Retrieved(ret: int, announced: u32) | NotParsed(r: R.Result) | OtherTransfer

  /** The body as the flash should hold it. */
  ghost predicate BodyInFlash(pt: Partition, d0: Flash.Dev, d: Flash.Dev, body: seq<byte>) {
    && pt.start + |body| <= |d.cells| && d.cells[pt.start..pt.start + |body|] == body
    && d.clean == d0.clean
    && Flash.SameOutside(d0, d, pt.start, pt.start + pt.length)
  }

  /** A finished download: the address says whether the image is complete. */
  lemma FlushedHolds(pt: Partition, d0: Flash.Dev, body: seq<byte>)
    requires PartitionOk(pt, d0)
    ensures var w := Flushed(pt, Writer(d0, pt.start), body);
      && (w.addr == pt.start + |body| <==> |body| < pt.length)
      && (|body| < pt.length ==> BodyInFlash(pt, d0, w.dev, body))
  {
    hide Flushed, Holds, Flash.SameOutside;
    ImageComplete(pt, d0, body);
    var w := Flushed(pt, Writer(d0, pt.start), body);
    if |body| < pt.length {
      var top :| Holds(pt, d0, w, top, body);
      HoldsMeans(pt, d0, w, top, body);
    }
  }

  /** The part of the stream behind the status line that the first read brought. */
  ghost function FirstHeaders(r: Response, rest: seq<byte>, m: nat): string
    requires |r.statusLine| + 2 <= m <= |rest|
  {
    Text(rest)[..m][|r.statusLine| + 2..]
  }

  /** Whether the bytes that arrive decide the headers, after a first read of m bytes. */
  ghost predicate HeadersDecided(r: Response, retrieveLen: u32, rest: seq<byte>, m: nat, turns: seq<D.Event>)
    requires |r.statusLine| + 2 <= m <= |rest|
  {
    var h0, got, more := StartHeaders(retrieveLen), FirstHeaders(r, rest, m), Text(rest[m..]);
    H.Parse(h0, got + more[..R.Reads(h0, got, more, turns)]) != H.Undecided
  }

  /** How much of the body came with the headers. */
  ghost function BodyRead(r: Response, retrieveLen: u32, rest: seq<byte>, m: nat, turns: seq<D.Event>): int
    requires |r.statusLine| + 2 <= m <= |rest|
  {
    m + R.Reads(StartHeaders(retrieveLen), FirstHeaders(r, rest, m), Text(rest[m..]), turns) - |Head(r)|
  }

  /** The turns left when the headers are decided. */
  ghost function BodyTurns(r: Response, retrieveLen: u32, rest: seq<byte>, m: nat, turns: seq<D.Event>): seq<D.Event>
    requires |r.statusLine| + 2 <= m <= |rest|
  {
    R.Left(StartHeaders(retrieveLen), FirstHeaders(r, rest, m), Text(rest[m..]), turns)
  }

  /** They do when the rest of the header section arrives, each piece counted at most up to what
      the buffer has room for behind the longest line; what is left brings what was not read. */
  lemma HeadersArrive(r: Response, retrieveLen: u32, rest: seq<byte>, m: nat, turns: seq<D.Event>, width: nat, room: nat)
    requires Announces(r, retrieveLen) && Carries(rest, r) && |r.statusLine| + 2 <= m <= |rest|
    requires 0 < room <= H.CAPACITY - (width + 1) && forall f :: f in r.fields ==> |H.Line(f)| <= width
    requires D.Bytes(turns, room) >= |Head(r)| - m
    ensures HeadersDecided(r, retrieveLen, rest, m, turns)
    ensures D.Bytes(BodyTurns(r, retrieveLen, rest, m, turns), room) + BodyRead(r, retrieveLen, rest, m, turns) + |Head(r)|
            >= Min(D.Bytes(turns, room) + m, |rest|)
  {
    hide H.Parse, H.Format, H.FieldShape, H.Line, H.StatusCode, H.MeaningAll, D.Bytes, R.Reads, R.Left, Text;
    var h0, got, more := StartHeaders(retrieveLen), FirstHeaders(r, rest, m), Text(rest[m..]);
    CarriedParses(r, retrieveLen, rest, m);
    assert |more| == |rest| - m by { TextLength(rest[m..]); }
    if |got| <= |H.Format(r.fields)| {
      R.FormatArrives(h0, r.fields, Text(r.body), got, more, turns, width, room);
    } else {
      R.FormatDecides(h0, r.fields);
      var k := |H.Format(r.fields)|;
      assert (got + more)[..k] == got[..k] == H.Format(r.fields);
      H.ParsePrefix(h0, got[..k], got[k..]);
      assert got[..k] + got[k..] == got;
      R.ReadsNothing(h0, got, more, turns);
    }
  }

  lemma TextLength(bs: seq<byte>)
    ensures |Text(bs)| == |bs|
  {
  }

  /** No more of the body came with the headers than there is. */
  lemma BodyReadInRange(r: Response, retrieveLen: u32, rest: seq<byte>, m: nat, turns: seq<D.Event>)
    requires Announces(r, retrieveLen) && Carries(rest, r) && |r.statusLine| + 2 <= m <= |rest|
    requires HeadersDecided(r, retrieveLen, rest, m, turns)
    ensures 0 <= BodyRead(r, retrieveLen, rest, m, turns) <= |r.body| && |rest| == |Head(r)| + |r.body|
  {
    hide H.Parse, H.Format, H.FieldShape, H.StatusCode, H.MeaningAll, R.Reads, Text;
    var h0, got, more := StartHeaders(retrieveLen), FirstHeaders(r, rest, m), Text(rest[m..]);
    var n := R.Reads(h0, got, more, turns);
    CarriedParses(r, retrieveLen, rest, m);
    TextLength(rest);
    TextLength(rest[m..]);
    TextLength(r.body);
    H.ParsePrefix(h0, got + more[..n], more[n..]);
    assert got + more[..n] + more[n..] == got + more;
  }

  /** From arrival to success: if the status line comes first, all of the response arrives before
      the connection ends, each piece counted at most up to `cap`, and the part of the body that
      came with the headers leaves room in the response buffer counter, then the download
      succeeds, whatever follows the body. */
  lemma ResponseArrives(r: Response, retrieveLen: u32, rest: seq<byte>, turns: seq<D.Event>,
                        width: nat, cap: nat, respBufLen: u32)
    requires Announces(r, retrieveLen) && Carries(rest, r) && D.Bytes(turns, cap) >= |rest|
    requires forall f :: f in r.fields ==> |H.Line(f)| <= width
    requires 0 < cap <= H.CAPACITY - (width + 1) && cap <= D.TCP_LEN_MAX
    requires |r.statusLine| + 2 <= D.PlainBytes(rest, turns, H.CAPACITY)
    requires var m := D.PlainBytes(rest, turns, H.CAPACITY);
      BodyRead(r, retrieveLen, rest, m, D.AfterPiece(turns)) + cap < respBufLen
    ensures var m, turns1 := D.PlainBytes(rest, turns, H.CAPACITY), D.AfterPiece(turns);
      && HeadersDecided(r, retrieveLen, rest, m, turns1)
      && var n := BodyRead(r, retrieveLen, rest, m, turns1);
      && 0 <= n <= |r.body|
      && D.Ending(r.body[..n], r.body[n..], BodyTurns(r, retrieveLen, rest, m, turns1), respBufLen) == D.SUCCESS_RETURN
  {
    hide Announces, Carries, HeadersDecided, BodyRead, BodyTurns, H.Line, Head, D.Bytes, D.FirstPiece, D.AfterPiece, D.Ending;
    var m, turns1 := D.PlainBytes(rest, turns, H.CAPACITY), D.AfterPiece(turns);
    D.BytesAfterPiece(turns, cap);
    HeadersArrive(r, retrieveLen, rest, m, turns1, width, cap) by {
      HeadInStream(r, rest);
    }
    BodyReadInRange(r, retrieveLen, rest, m, turns1);
    var n := BodyRead(r, retrieveLen, rest, m, turns1);
    var left := BodyTurns(r, retrieveLen, rest, m, turns1);
    assert D.Bytes(left, cap) >= |r.body[n..]|;
    D.BytesUpTo(left, cap, D.ReadCap(respBufLen - 1 - n, |r.body[n..]|));
    D.ArrivedIsSuccess(r.body[..n], r.body[n..], left, respBufLen);
  }

  lemma HeadInStream(r: Response, rest: seq<byte>)
    requires Carries(rest, r)
    ensures |rest| >= |Head(r)|
  {
    hide Head;
  }

  /** The result of the header part, for an announced response. */
  lemma HeadersRead(r: Response, retrieveLen: u32, rest0: seq<byte>, m: nat, turns0: seq<D.Event>,
                    rest: seq<byte>, turns: seq<D.Event>, res: R.Result, leftover: string)
    requires Announces(r, retrieveLen) && Carries(rest0, r) && |r.statusLine| + 2 <= m <= |rest0|
    requires R.ReadOn(StartHeaders(retrieveLen), FirstHeaders(r, rest0, m), rest0[m..], turns0, rest, turns, res, leftover)
    requires !res.NotFound? && res != R.Unresolved
    requires res != R.ConnError ==>
      R.Agrees(res, StartHeaders(retrieveLen), FirstHeaders(r, rest0, m) + Text(rest0[m..]), leftover + Text(rest))
    ensures res == R.ConnError <==> !HeadersDecided(r, retrieveLen, rest0, m, turns0)
    ensures res != R.ConnError ==>
      var n := BodyRead(r, retrieveLen, rest0, m, turns0);
      && res == R.Parsed(H.Headers(false, |r.body|, |r.body|)) && |r.body| < 0x8000_0000
      && 0 <= n <= |r.body| && ToBytes(leftover) == r.body[..n] && rest == r.body[n..]
      && turns == BodyTurns(r, retrieveLen, rest0, m, turns0)
  {
    hide H.Parse, H.Format, H.MeaningAll, H.FieldShape, H.StatusCode, R.Reads, R.Left, Text, ToBytes;
    CarriedParses(r, retrieveLen, rest0, m);
    assert |Text(rest0[m..])| == |rest0| - m;
    if res != R.ConnError {
      var n := |leftover|;
      BytesOfText(r.body);
      BytesOfText(rest);
      BytesParts(leftover, Text(rest));
      assert ToBytes(leftover) + rest == r.body;
    }
  }

  /** The body as received is in flash, exactly if it is shorter than the partition. */
  ghost predicate Delivered(bk: HttpData, d0: Flash.Dev, body: seq<byte>)
    reads bk
  {
    && bk.input == body
    && (bk.flashAddress == bk.pt.start + |body| <==> |body| < bk.pt.length)
    && (|body| < bk.pt.length ==> BodyInFlash(bk.pt, d0, bk.dev, body))
  }

  /** httpclient_recv_response, for responses with a content length. Whatever the connection
      carries, success is reported only when the announced length has come, and what came is then
      in flash if and only if it is shorter than the partition. If the connection carries the
      announced response `r`, in whatever pieces, the end is decided: a connection error if nothing
      arrives or what arrives does not decide the headers; a refusal if the first read does not
      contain the status line; otherwise the retrieve loop goes on with the part of the body that
      came with the headers and the turns that are left, and on success what came is exactly the
      announced body. */
  method RecvResponse(net: D.Connection, bk: HttpData, respBufLen: u32, retrieveLen: u32, ghost r: Response)
    returns (o: Outcome)
    requires respBufLen > 0 && !bk.doData
    modifies net, bk
    ensures o.Retrieved? && o.ret == D.SUCCESS_RETURN ==>
      |bk.input| >= o.announced && (PartitionOk(bk.pt, old(bk.dev)) ==> Delivered(bk, old(bk.dev), bk.input))
    ensures o.NotParsed? ==> bk.dev == old(bk.dev)
    // a status line with another code than 200 in the first read
    ensures var first := Text(old(net.rest))[..D.PlainBytes(old(net.rest), old(net.turns), H.CAPACITY)];
      (r.statusLine + "\r\n" <= first && H.FindCrlf(first) == Some(|r.statusLine|)
       && H.StatusCode(r.statusLine).Some? && H.StatusCode(r.statusLine) != Some(200)) ==> o.NotParsed?
    ensures Announces(r, retrieveLen) && Carries(old(net.rest), r) ==>
      var rest, m := old(net.rest), D.PlainBytes(old(net.rest), old(net.turns), H.CAPACITY);
      var turns := D.AfterPiece(old(net.turns));
      if m == 0 then o == NotParsed(R.ConnError)
      else if m < |r.statusLine| + 2 then o == NotParsed(R.Unresolved)
      else if !HeadersDecided(r, retrieveLen, rest, m, turns) then o == NotParsed(R.ConnError)
      else
        var n := BodyRead(r, retrieveLen, rest, m, turns);
        && 0 <= n <= |r.body| && o.Retrieved? && o.announced == |r.body|
        && o.ret == D.Ending(r.body[..n], r.body[n..], BodyTurns(r, retrieveLen, rest, m, turns), respBufLen)
        && (o.ret == D.SUCCESS_RETURN && PartitionOk(bk.pt, old(bk.dev)) ==>
              net.rest == [] && Delivered(bk, old(bk.dev), r.body))
  {
    hide H.FindCrlf, H.StatusCode, H.Parse, R.ReadOn, R.PlainRead, R.Agrees, D.Ending, D.Taken, D.AfterPiece,
      D.PlainBytes, Announces, Carries, HeadersDecided, BodyRead, BodyTurns, FirstHeaders, Head, Delivered, HttpData.Valid,
      Text, ToBytes, Flushed;
    var data := new char[H.CHUNK_SIZE];
    ghost var rest0, turns0, d0 := net.rest, net.turns, bk.dev;
    ghost var good := Announces(r, retrieveLen) && Carries(rest0, r);
    var len, ok := R.Refill(data, 0, net, bk);
    FirstRead(rest0, turns0, net.rest, net.turns, ok);
    if !ok {
      return NotParsed(R.ConnError);
    }
    ghost var m, turns1 := len, net.turns;
    assert data[..len] == Text(rest0)[..m] by { assert data[..0] == ""; TextSlice(rest0, 0, m); }
    if good {
      CarriedParses(r, retrieveLen, rest0, m);
    }
    ghost var first := data[..len];
    LineFirst(r.statusLine, first);
    var res, code;
    res, len, code := R.ResponseParse(data, len, net, bk, retrieveLen);
    ghost var inTime := good && m >= |r.statusLine| + 2;
    if inTime {
      FirstHeadersAre(r, rest0, m);
      HeadersRead(r, retrieveLen, rest0, m, turns1, net.rest, net.turns, res, data[..len]);
    }
    if !res.Parsed? {
      return NotParsed(res);
    }
    if res.h.isChunked || res.h.contentLen == R.NO_LENGTH {
      return OtherTransfer;
    }
    var leftover := ToBytes(data[..len]);
    ghost var rest2 := net.rest;
    var ret := D.RetrieveContent(net, bk, leftover, res.h.retrieveLen, respBufLen);
    o := Retrieved(ret, res.h.retrieveLen);
    if ret == D.SUCCESS_RETURN && PartitionOk(bk.pt, d0) {
      FlushedDelivers(bk, d0, bk.input);
    }
    assert inTime ==> leftover + rest2 == r.body;
  }

  lemma LineFirst(line: string, first: string)
    ensures line + "\r\n" <= first ==> first[..|line|] == line
  {
  }

  lemma FirstRead(rest0: seq<byte>, turns0: seq<D.Event>, rest: seq<byte>, turns: seq<D.Event>, ok: bool)
    requires R.PlainRead(rest0, turns0, rest, turns, H.CAPACITY, ok)
    ensures var m := D.PlainBytes(rest0, turns0, H.CAPACITY);
      && m <= |rest0| && m <= H.CAPACITY && ok == (m > 0)
      && (ok ==> rest == rest0[m..] && turns == D.AfterPiece(turns0))
  {
    hide D.FirstPiece, D.AfterPiece;
  }

  lemma FirstHeadersAre(r: Response, rest: seq<byte>, m: nat)
    requires |r.statusLine| + 2 <= m <= |rest|
    ensures FirstHeaders(r, rest, m) == Text(rest)[..m][|r.statusLine| + 2..]
  {
  }

  lemma FlushedDelivers(bk: HttpData, d0: Flash.Dev, body: seq<byte>)
    requires PartitionOk(bk.pt, d0) && bk.input == body
    requires Writer(bk.dev, bk.flashAddress) == Flushed(bk.pt, Writer(d0, bk.pt.start), body)
    ensures Delivered(bk, d0, body)
  {
    hide Flushed, BodyInFlash;
    FlushedHolds(bk.pt, d0, body);
  }
}
