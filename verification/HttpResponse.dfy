/** app/http/utils_httpc.c, httpclient_response_parse: status line and header lines, read piece
    by piece through httpclient_recv and HAL_TCP_Read in their plain mode. */
module HttpResponse {
  import opened Words
  import opened Seqs
  import opened CString
  import opened HttpHeaders
  import opened HttpFlash
  import D = HttpDownload

  // ---------------------------------------------------------------- how much is read

  /** How many bytes of `rest` are read: after the bytes `got`, piece after piece fills the buffer
      behind the incomplete line, until the headers are decided or nothing more arrives. */
  function Reads(h0: Headers, got: string, rest: string, turns: seq<D.Event>): (n: nat)
    ensures n <= |rest|
    decreases |turns|
  {
    if Parse(h0, got) != Undecided || D.FirstPiece(turns) == 0 then 0
    else
      PendingShort(h0, got);
      var m := Min(D.FirstPiece(turns), Min(CAPACITY - |Pending(h0, got)|, |rest|));
      m + Reads(h0, got + rest[..m], rest[m..], D.AfterPiece(turns))
  }

  /** The turns that are left then. */
  function Left(h0: Headers, got: string, rest: string, turns: seq<D.Event>): seq<D.Event>
    decreases |turns|
  {
    if Parse(h0, got) != Undecided || D.FirstPiece(turns) == 0 then turns
    else
      PendingShort(h0, got);
      var m := Min(D.FirstPiece(turns), Min(CAPACITY - |Pending(h0, got)|, |rest|));
      Left(h0, got + rest[..m], rest[m..], D.AfterPiece(turns))
  }

  /** Behind an incomplete line there is room for at least this many bytes. */
  ghost predicate RoomBehind(h0: Headers, got: string, room: nat) {
    Parse(h0, got) == Undecided ==> |Pending(h0, got)| + room <= CAPACITY
  }

  /** If `m` more bytes decide the headers and the turns bring them, at most `room` counted in
      each, where there is always that much room, then the headers get decided, and the turns that
      are left bring what was not read. */
  lemma {:induction false} ReadsUntilDecided(h0: Headers, got: string, rest: string, turns: seq<D.Event>,
                                             m: nat, room: nat)
    requires m <= |rest| && room > 0
    requires Parse(h0, got + rest[..m]) != Undecided
    requires forall p :: 0 <= p < m ==> RoomBehind(h0, got + rest[..p], room)
    requires D.Bytes(turns, room) >= m
    ensures Parse(h0, got + rest[..Reads(h0, got, rest, turns)]) != Undecided
    ensures D.Bytes(Left(h0, got, rest, turns), room) + Reads(h0, got, rest, turns) >= Min(D.Bytes(turns, room), |rest|)
    decreases |turns|
  {
    hide Parse, Pending, RoomBehind, Reads, Left, D.FirstPiece, D.AfterPiece, D.Bytes;
    if Parse(h0, got) != Undecided {
      ReadsNothing(h0, got, rest, turns);
    } else {
      PendingShort(h0, got);
      RoomAt(h0, got, room, m, rest);
      D.BytesAfterPiece(turns, room);
      var k := Min(D.FirstPiece(turns), Min(CAPACITY - |Pending(h0, got)|, |rest|));
      var n := Reads(h0, got + rest[..k], rest[k..], D.AfterPiece(turns));
      ReadsOnce(h0, got, rest, turns, k);
      if k >= m {
        Decides(h0, got, rest, m, k + n);
        Decides(h0, got, rest, m, k);
        ReadsNothing(h0, got + rest[..k], rest[k..], D.AfterPiece(turns));
      } else {
        ShiftRoom(h0, got, rest, k, m, room);
        ReadsUntilDecided(h0, got + rest[..k], rest[k..], D.AfterPiece(turns), m - k, room);
        TwoSteps(got, rest, k, n);
      }
    }
  }

  lemma ReadsNothing(h0: Headers, got: string, rest: string, turns: seq<D.Event>)
    requires Parse(h0, got) != Undecided
    ensures Reads(h0, got, rest, turns) == 0 && Left(h0, got, rest, turns) == turns && got + rest[..0] == got
  {
    hide Parse, D.FirstPiece, D.AfterPiece;
    assert got + "" == got;
  }

  lemma TwoSteps(got: string, rest: string, k: nat, n: nat)
    requires k <= |rest| && n <= |rest| - k
    ensures got + rest[..k] + rest[k..][..n] == got + rest[..k + n]
  {
    assert rest[..k] + rest[k..][..n] == rest[..k + n];
  }

  lemma ReadsOnce(h0: Headers, got: string, rest: string, turns: seq<D.Event>, k: nat)
    requires Parse(h0, got) == Undecided && D.FirstPiece(turns) > 0 && turns != []
    requires |Pending(h0, got)| < CAPACITY
    requires k == Min(D.FirstPiece(turns), Min(CAPACITY - |Pending(h0, got)|, |rest|))
    ensures Reads(h0, got, rest, turns) == k + Reads(h0, got + rest[..k], rest[k..], D.AfterPiece(turns))
    ensures Left(h0, got, rest, turns) == Left(h0, got + rest[..k], rest[k..], D.AfterPiece(turns))
  {
    hide Parse, Pending, D.FirstPiece, D.AfterPiece;
  }

  lemma RoomAt(h0: Headers, got: string, room: nat, m: nat, rest: string)
    requires m <= |rest| && Parse(h0, got) == Undecided && Parse(h0, got + rest[..m]) != Undecided
    requires forall p :: 0 <= p < m ==> RoomBehind(h0, got + rest[..p], room)
    ensures m > 0 && |Pending(h0, got)| + room <= CAPACITY
  {
    hide Parse, Pending;
    assert got + rest[..0] == got;
    assert m > 0;
    assert RoomBehind(h0, got + rest[..0], room);
  }

  lemma Decides(h0: Headers, got: string, rest: string, m: nat, n: nat)
    requires m <= n <= |rest| && Parse(h0, got + rest[..m]) != Undecided
    ensures Parse(h0, got + rest[..n]) != Undecided
  {
    hide Parse;
    ParsePrefix(h0, got + rest[..m], rest[m..n]);
    assert rest[..m] + rest[m..n] == rest[..n];
    assert got + rest[..m] + rest[m..n] == got + rest[..n];
  }

  lemma ShiftRoom(h0: Headers, got: string, rest: string, k: nat, m: nat, room: nat)
    requires k < m <= |rest|
    requires forall p :: 0 <= p < m ==> RoomBehind(h0, got + rest[..p], room)
    ensures forall p :: 0 <= p < m - k ==> RoomBehind(h0, got + rest[..k] + rest[k..][..p], room)
    ensures got + rest[..k] + rest[k..][..m - k] == got + rest[..m]
  {
    hide RoomBehind;
    forall p | 0 <= p <= m - k
      ensures got + rest[..k] + rest[k..][..p] == got + rest[..k + p]
    {
      assert rest[..k] + rest[k..][..p] == rest[..k + p];
    }
  }

  /** As many reads as the headers have bytes are enough in any case. */
  lemma EnoughReadsDecide(h0: Headers, got: string, rest: string, turns: seq<D.Event>, m: nat)
    requires m <= |rest| && Parse(h0, got + rest[..m]) != Undecided && D.Bytes(turns, 1) >= m
    ensures Parse(h0, got + rest[..Reads(h0, got, rest, turns)]) != Undecided
  {
    hide Parse, Pending;
    forall p | 0 <= p < m
      ensures RoomBehind(h0, got + rest[..p], 1)
    {
      if Parse(h0, got + rest[..p]) == Undecided {
        PendingShort(h0, got + rest[..p]);
      }
    }
    ReadsUntilDecided(h0, got, rest, turns, m, 1);
  }

  /** An ordinary header section, of lines of at most `width` characters, is decided once its
      bytes have arrived, each piece counted at most up to what the buffer has room for behind a
      line. */
  lemma FormatArrives(h0: Headers, fs: seq<Field>, body: string, got: string, rest: string,
                      turns: seq<D.Event>, width: nat, room: nat)
    requires (forall f :: f in fs ==> FieldShape(f) && |Line(f)| <= width) && 0 < room <= CAPACITY - (width + 1)
    requires got + rest == Format(fs) + body && |got| <= |Format(fs)|
    requires D.Bytes(turns, room) >= |Format(fs)| - |got|
    ensures Parse(h0, got + rest[..Reads(h0, got, rest, turns)]) != Undecided
    ensures D.Bytes(Left(h0, got, rest, turns), room) + Reads(h0, got, rest, turns) >= Min(D.Bytes(turns, room), |rest|)
  {
    hide Parse, Pending, Format, FieldShape, Line, D.Bytes, Reads, Left;
    var all, m := Format(fs) + body, |Format(fs)| - |got|;
    forall p | 0 <= p <= m
      ensures got + rest[..p] == all[..|got| + p]
    {
      assert (got + rest)[..|got| + p] == got + rest[..p];
    }
    FormatDecides(h0, fs);
    assert all[..|got| + m] == Format(fs);
    forall p | 0 <= p < m
      ensures RoomBehind(h0, got + rest[..p], room)
    {
      assert got + rest[..p] == all[..|got| + p];
      if Parse(h0, all[..|got| + p]) == Undecided {
        PendingWithinLine(h0, fs, body, |got| + p, width);
      }
    }
    ReadsUntilDecided(h0, got, rest, turns, m, room);
  }

  lemma FormatDecides(h0: Headers, fs: seq<Field>)
    requires forall f :: f in fs ==> FieldShape(f)
    ensures Parse(h0, Format(fs)) != Undecided
  {
    hide Parse, FieldShape;
    ParsesFormat(h0, fs, "");
    assert Format(fs) + "" == Format(fs);
  }

  // ---------------------------------------------------------------- the code

  datatype Result = Parsed(h: Headers) | HttpError | ConnError | Unresolved | NotFound(h: Headers)

  /** What the result says about the bytes `got` after the status line, of which `leftover` is
      left in the buffer. */
  ghost predicate Agrees(r: Result, h0: Headers, got: string, leftover: string) {
    match r
    case Parsed(h) => Parse(h0, got) == Done(h, leftover)
    case NotFound(h) => Parse(h0, got) == Done(h, leftover)
    case HttpError => Parse(h0, got) == Failed
    case ConnError => Parse(h0, got) == Undecided
    case Unresolved => false
  }

  /** A decision on the bytes read is a decision on the whole stream. */
  lemma AgreesLater(r: Result, h0: Headers, got: string, leftover: string, rest: string)
    requires Agrees(r, h0, got, leftover) && r != ConnError
    ensures Agrees(r, h0, got + rest, leftover + rest)
  {
    ParsePrefix(h0, got, rest);
  }

  /** memmove to the front of the buffer. */
  method Shift(data: array<char>, from: nat, len: nat)
    requires from <= len < data.Length
    modifies data
    ensures data[..len - from] == old(data[from..len])
  {
    forall i | 0 <= i < len - from {
      data[i] := data[from + i];
    }
  }

  /** What a read in plain mode does to the connection. */
  ghost predicate PlainRead(rest0: seq<byte>, turns0: seq<D.Event>, rest: seq<byte>, turns: seq<D.Event>, room: nat, ok: bool) {
    var m := D.PlainBytes(rest0, turns0, room);
    if m > 0 then ok && rest == rest0[m..] && turns == D.AfterPiece(turns0)
    else !ok && rest == rest0 && |turns| <= |turns0|
  }

  lemma ResultOfPlainRead(rest0: seq<byte>, turns0: seq<D.Event>, rest: seq<byte>, turns: seq<D.Event>,
                          total: nat, room: nat, raw: int)
    requires D.ReadResult(rest0, turns0, rest, turns, false, total, room, raw)
    ensures PlainRead(rest0, turns0, rest, turns, room, raw >= 0)
    ensures raw >= 0 ==> raw == D.PlainBytes(rest0, turns0, room)
  {
    hide D.FirstPiece, D.AfterPiece, D.Bytes, D.Broken, D.AfterBreak;
  }

  /** The bytes received, as characters behind those in the buffer. */
  method PutBehind(data: array<char>, len: nat, piece: array<byte>, n: nat)
    requires len + n <= data.Length && n <= piece.Length
    modifies data
    ensures data[..len + n] == old(data[..len]) + Text(piece[..n])
  {
    forall i | 0 <= i < n {
      data[len + i] := piece[i] as char;
    }
  }

  /** One httpclient_recv behind the bytes already in the buffer. */
  method Refill(data: array<char>, len: nat, net: D.Connection, bk: HttpData) returns (len': nat, ok: bool)
    requires len < CAPACITY && data.Length == CHUNK_SIZE && !bk.doData
    modifies data, net
    ensures PlainRead(old(net.rest), old(net.turns), net.rest, net.turns, CAPACITY - len, ok)
    ensures len' == len + if ok then D.PlainBytes(old(net.rest), old(net.turns), CAPACITY - len) else 0
    ensures data[..len'] == old(data[..len]) + Text(old(net.rest)[..len' - len])
  {
    hide HttpData.Valid, D.ReadResult, PlainRead, Text;
    var piece := new byte[CAPACITY - len];
    ghost var rest0, turns0, total := net.rest, net.turns, bk.httpTotal;
    var r, n;
    ghost var raw;
    r, n, raw := D.HttpclientRecv(net, bk, piece, CAPACITY - len);
    ResultOfPlainRead(rest0, turns0, net.rest, net.turns, total, CAPACITY - len, raw);
    PutBehind(data, len, piece, n);
    len', ok := len + n, r == D.SUCCESS_RETURN;
    assert n == 0 ==> piece[..n] == rest0[..n];
  }

  /** After the bytes `eaten` the parse goes on with the headers `h` as if started afresh. */
  ghost predicate Resumes(h0: Headers, eaten: string, h: Headers) {
    forall t :: Parse(h0, eaten + t) == Parse(h, t) && Pending(h0, eaten + t) == Pending(h, t)
  }

  lemma ResumesAtStart(h0: Headers)
    ensures Resumes(h0, "", h0)
  {
    forall t
      ensures Parse(h0, "" + t) == Parse(h0, t) && Pending(h0, "" + t) == Pending(h0, t)
    {
      assert "" + t == t;
    }
  }

  lemma ResumesAfterLine(h0: Headers, eaten: string, h: Headers, line: string, h1: Headers)
    requires Resumes(h0, eaten, h) && 2 < |line| <= CAPACITY
    requires FindCrlf(line) == Some(|line| - 2) && ApplyLine(h, line[..|line| - 2]) == Some(h1)
    ensures Resumes(h0, eaten + line, h1)
  {
    hide Parse, Pending, FindCrlf, ApplyLine;
    forall t
      ensures Parse(h0, eaten + line + t) == Parse(h1, t) && Pending(h0, eaten + line + t) == Pending(h1, t)
    {
      assert eaten + line + t == eaten + (line + t);
      ParseStep(h, line, t);
      assert (line + t)[..|line| - 2] == line[..|line| - 2] && (line + t)[|line|..] == t;
    }
  }

  /** `eaten` and the buffer are the bytes read so far, `rest` is still to come. */
  ghost predicate Position(start: string, stream: string, eaten: string, buf: string, rest: string) {
    && |rest| <= |stream| && rest == stream[|stream| - |rest|..]
    && eaten + buf == start + stream[..|stream| - |rest|]
  }

  lemma PositionFills(start: string, stream: string, eaten: string, buf: string, rest: string, m: nat)
    requires Position(start, stream, eaten, buf, rest) && m <= |rest|
    ensures Position(start, stream, eaten, buf + rest[..m], rest[m..])
    ensures eaten + (buf + rest[..m]) == (eaten + buf) + rest[..m]
  {
    var read := |stream| - |rest|;
    assert stream[..read] + rest[..m] == stream[..read + m];
    assert (start + stream[..read]) + rest[..m] == start + (stream[..read] + rest[..m]);
  }

  lemma PositionEats(start: string, stream: string, eaten: string, buf: string, rest: string, n: nat)
    requires Position(start, stream, eaten, buf, rest) && n <= |buf|
    ensures (eaten + buf[..n]) + buf[n..] == eaten + buf
    ensures Position(start, stream, eaten + buf[..n], buf[n..], rest)
  {
    assert buf[..n] + buf[n..] == buf;
  }

  /** What the remaining turns will read, counted with what was read, is the total, and the same
      turns will be left. */
  ghost predicate Counted(h0: Headers, start: string, stream: string, turns0: seq<D.Event>,
                          got: string, rest: string, turns: seq<D.Event>) {
    && |stream| - |rest| + Reads(h0, got, rest, turns) == Reads(h0, start, stream, turns0)
    && Left(h0, got, rest, turns) == Left(h0, start, stream, turns0)
  }

  /** Where the loop stands: the parse of what was read goes on in the buffer. */
  ghost predicate Standing(h0: Headers, start: string, stream: string, turns0: seq<D.Event>,
                           h: Headers, eaten: string, buf: string, rest: string, turns: seq<D.Event>) {
    && Position(start, stream, eaten, buf, rest)
    && Resumes(h0, eaten, h)
    && Counted(h0, start, stream, turns0, eaten + buf, rest, turns)
  }

  lemma StandingStarts(h0: Headers, start: string, stream: string, turns: seq<D.Event>)
    ensures Standing(h0, start, stream, turns, h0, "", start, stream, turns)
  {
    hide Reads, Left;
    ResumesAtStart(h0);
    assert "" + start == start + stream[..0] == start;
  }

  lemma StandingFills(h0: Headers, start: string, stream: string, turns0: seq<D.Event>,
                      h: Headers, eaten: string, buf: string, rest: string, turns: seq<D.Event>, m: nat)
    requires Standing(h0, start, stream, turns0, h, eaten, buf, rest, turns)
    requires FindCrlf(buf).None? && |buf| < CAPACITY && turns != [] && D.FirstPiece(turns) > 0
    requires m == Min(D.FirstPiece(turns), Min(CAPACITY - |buf|, |rest|))
    ensures Standing(h0, start, stream, turns0, h, eaten, buf + rest[..m], rest[m..], D.AfterPiece(turns))
  {
    hide Parse, Pending, FindCrlf, Reads, Left, Position, D.FirstPiece, D.AfterPiece;
    ParseStep(h, buf, "");
    assert Parse(h0, eaten + buf) == Parse(h, buf) && Pending(h0, eaten + buf) == buf;
    ReadsOnce(h0, eaten + buf, rest, turns, m);
    PositionFills(start, stream, eaten, buf, rest, m);
    assert |rest[m..]| == |rest| - m;
  }

  lemma StandingEats(h0: Headers, start: string, stream: string, turns0: seq<D.Event>,
                     h: Headers, eaten: string, buf: string, rest: string, turns: seq<D.Event>, k: nat, h1: Headers)
    requires Standing(h0, start, stream, turns0, h, eaten, buf, rest, turns)
    requires FindCrlf(buf) == Some(k) && k > 0 && |buf| <= CAPACITY && ApplyLine(h, buf[..k]) == Some(h1)
    ensures Standing(h0, start, stream, turns0, h1, eaten + buf[..k + 2], buf[k + 2..], rest, turns)
  {
    hide FindCrlf, ApplyLine, Resumes, Position, Counted;
    StatusLineMustComeFirst(buf, k + 2);
    assert buf[..k + 2][..k] == buf[..k];
    ResumesAfterLine(h0, eaten, h, buf[..k + 2], h1);
    PositionEats(start, stream, eaten, buf, rest, k + 2);
  }

  lemma {:induction false} NothingToRead(h0: Headers, got: string, turns: seq<D.Event>)
    ensures Reads(h0, got, "", turns) == 0
    decreases |turns|
  {
  }

  /** Nothing more is read once the headers are decided, or when nothing arrives. */
  lemma StandingEnds(h0: Headers, start: string, stream: string, turns0: seq<D.Event>,
                     h: Headers, eaten: string, buf: string, rest: string, turns: seq<D.Event>)
    requires Standing(h0, start, stream, turns0, h, eaten, buf, rest, turns)
    requires Parse(h, buf) != Undecided || D.FirstPiece(turns) == 0 || rest == ""
    ensures |rest| <= |stream| && rest == stream[|stream| - |rest|..]
    ensures |stream| - |rest| == Reads(h0, start, stream, turns0)
    ensures Parse(h0, start + stream[..|stream| - |rest|]) == Parse(h, buf)
    ensures Parse(h, buf) != Undecided ==> turns == Left(h0, start, stream, turns0)
  {
    hide Parse, Pending, D.FirstPiece, D.AfterPiece;
    NothingToRead(h0, eaten + buf, turns);
    assert Parse(h0, eaten + buf) == Parse(h, buf) && Pending(h0, eaten + buf) == Pending(h, buf);
  }

  datatype LineResult = NoLine | EndOfHeaders | BadLine | Taken

  /** One turn of the loop over the buffer: the first line, if there is one, is understood and
      moved out. */
  method TakeLine(data: array<char>, len: nat, h: Headers) returns (o: LineResult, len': nat, h': Headers)
    requires data.Length == CHUNK_SIZE && len <= CAPACITY
    modifies data
    ensures len' <= len && (o != Taken ==> h' == h)
    ensures var buf, found := old(data[..len]), FindCrlf(old(data[..len]));
      match o
      case NoLine => found.None? && data[..len'] == buf
      case EndOfHeaders => found == Some(0) && data[..len'] == buf[2..]
      case BadLine => found.Some? && found.value > 0 && ApplyLine(h, buf[..found.value]).None?
      case Taken => (found.Some? && found.value > 0 && ApplyLine(h, buf[..found.value]) == Some(h')
                     && data[..len'] == buf[found.value + 2..] && len' < len)
  {
    hide FindCrlf, ApplyLine;
    len', h' := len, h;
    var found := FindCrlf(data[..len]);
    if found.None? {
      return NoLine, len', h';
    }
    var k := found.value;
    assert data[..len][..k] == data[..k] && data[..len][k + 2..] == data[k + 2..len];
    if k == 0 {
      Shift(data, 2, len);
      return EndOfHeaders, len - 2, h';
    }
    var applied := ApplyLine(h, data[..k]);
    if applied.None? {
      return BadLine, len', h';
    }
    Shift(data, k + 2, len);
    return Taken, len - (k + 2), applied.value;
  }

  /** Parsing so far: what the two methods below promise about the connection. */
  ghost predicate ReadOn(h0: Headers, start: string, rest0: seq<byte>, turns0: seq<D.Event>,
                         rest: seq<byte>, turns: seq<D.Event>, r: Result, leftover: string) {
    && |rest| <= |rest0| && rest == rest0[|rest0| - |rest|..]
    && |rest0| - |rest| == Reads(h0, start, Text(rest0), turns0)
    && Agrees(r, h0, start + Text(rest0)[..|rest0| - |rest|], leftover)
    && (r != ConnError ==> turns == Left(h0, start, Text(rest0), turns0))
  }

  lemma NoPiece(rest: seq<byte>, turns: seq<D.Event>, rest': seq<byte>, turns': seq<D.Event>, room: nat)
    requires PlainRead(rest, turns, rest', turns', room, false) && room > 0
    ensures D.FirstPiece(turns) == 0 || Text(rest) == ""
    ensures rest' == rest
  {
    hide D.FirstPiece;
  }

  lemma PieceRead(rest: seq<byte>, turns: seq<D.Event>, rest': seq<byte>, turns': seq<D.Event>, room: nat)
    requires PlainRead(rest, turns, rest', turns', room, true)
    ensures var m := D.PlainBytes(rest, turns, room);
      && turns != [] && D.FirstPiece(turns) > 0 && m == Min(D.FirstPiece(turns), Min(room, |Text(rest)|))
      && Text(rest') == Text(rest)[m..] && Text(rest)[..m] == Text(rest[..m])
      && m <= |rest| && rest' == rest[m..] && turns' == D.AfterPiece(turns) && |turns'| < |turns|
  {
    hide D.FirstPiece, D.AfterPiece, Text;
    TextCut(rest, D.PlainBytes(rest, turns, room));
  }

  lemma TextCut(rest: seq<byte>, m: nat)
    requires m <= |rest|
    ensures |Text(rest)| == |rest| && Text(rest[m..]) == Text(rest)[m..] && Text(rest[..m]) == Text(rest)[..m]
  {
  }

  /** The call being made: the headers it starts with, the bytes in the buffer, the connection. */
  datatype Call = Call(h0: Headers, start: string, rest0: seq<byte>, turns0: seq<D.Event>)

  /** The loop of that call, with the headers `h` and the buffer `buf` behind the bytes `eaten`. */
  ghost predicate InLoop(c: Call, h: Headers, eaten: string, buf: string, rest: seq<byte>, turns: seq<D.Event>) {
    && |rest| <= |c.rest0| && rest == c.rest0[|c.rest0| - |rest|..]
    && Standing(c.h0, c.start, Text(c.rest0), c.turns0, h, eaten, buf, Text(rest), turns)
  }

  lemma LoopStarts(c: Call)
    ensures InLoop(c, c.h0, "", c.start, c.rest0, c.turns0)
  {
    hide Standing;
    StandingStarts(c.h0, c.start, Text(c.rest0), c.turns0);
  }

  lemma LoopEnds(c: Call, h: Headers, eaten: string, buf: string, rest: seq<byte>, turns: seq<D.Event>,
                 turns': seq<D.Event>, r: Result, leftover: string)
    requires InLoop(c, h, eaten, buf, rest, turns)
    requires if r == ConnError then D.FirstPiece(turns) == 0 || rest == [] else turns' == turns
    requires match r
      case Parsed(h1) => Parse(h, buf) == Done(h1, leftover)
      case HttpError => Parse(h, buf) == Failed
      case ConnError => Parse(h, buf) == Undecided
      case Unresolved => false
      case NotFound(_) => false
    ensures ReadOn(c.h0, c.start, c.rest0, c.turns0, rest, turns', r, leftover)
  {
    hide Standing, Parse, Reads, Left, D.FirstPiece;
    StandingEnds(c.h0, c.start, Text(c.rest0), c.turns0, h, eaten, buf, Text(rest), turns);
  }

  lemma LoopFills(c: Call, h: Headers, eaten: string, buf: string, rest: seq<byte>, turns: seq<D.Event>,
                  rest': seq<byte>, turns': seq<D.Event>)
    requires InLoop(c, h, eaten, buf, rest, turns) && FindCrlf(buf).None? && |buf| < CAPACITY
    requires PlainRead(rest, turns, rest', turns', CAPACITY - |buf|, true)
    ensures var m := D.PlainBytes(rest, turns, CAPACITY - |buf|);
      && m <= |rest| && InLoop(c, h, eaten, buf + Text(rest[..m]), rest', turns') && |turns'| < |turns|
  {
    hide Standing, PlainRead, FindCrlf, D.PlainBytes, D.FirstPiece, D.AfterPiece, Text;
    PieceRead(rest, turns, rest', turns', CAPACITY - |buf|);
    var m := D.PlainBytes(rest, turns, CAPACITY - |buf|);
    StandingFills(c.h0, c.start, Text(c.rest0), c.turns0, h, eaten, buf, Text(rest), turns, m);
  }

  lemma LoopEats(c: Call, h: Headers, eaten: string, buf: string, rest: seq<byte>, turns: seq<D.Event>, h1: Headers)
    requires InLoop(c, h, eaten, buf, rest, turns) && FindCrlf(buf).Some? && FindCrlf(buf).value > 0 && |buf| <= CAPACITY
    requires ApplyLine(h, buf[..FindCrlf(buf).value]) == Some(h1)
    ensures var k := FindCrlf(buf).value;
      InLoop(c, h1, eaten + buf[..k + 2], buf[k + 2..], rest, turns)
  {
    hide Standing, FindCrlf, ApplyLine;
    StandingEats(c.h0, c.start, Text(c.rest0), c.turns0, h, eaten, buf, Text(rest), turns, FindCrlf(buf).value, h1);
  }

  /** One more piece, when the buffer holds no complete line and has room. */
  method ReadPiece(data: array<char>, len: nat, net: D.Connection, bk: HttpData,
                   ghost c: Call, ghost h: Headers, ghost eaten: string)
    returns (len': nat, ok: bool)
    requires data.Length == CHUNK_SIZE && len < CAPACITY && !bk.doData && FindCrlf(data[..len]).None?
    requires InLoop(c, h, eaten, data[..len], net.rest, net.turns)
    modifies data, net
    ensures len' <= CAPACITY
    ensures if ok then InLoop(c, h, eaten, data[..len'], net.rest, net.turns) && |net.turns| < |old(net.turns)|
            else ReadOn(c.h0, c.start, c.rest0, c.turns0, net.rest, net.turns, ConnError, data[..len'])
  {
    hide InLoop, ReadOn, PlainRead, Parse, Pending, FindCrlf, D.FirstPiece, D.AfterPiece;
    ghost var buf, rest, turns := data[..len], net.rest, net.turns;
    len', ok := Refill(data, len, net, bk);
    if ok {
      LoopFills(c, h, eaten, buf, rest, turns, net.rest, net.turns);
    } else {
      NoPiece(rest, turns, net.rest, net.turns, CAPACITY - len);
      ParseStep(h, buf, "");
      LoopEnds(c, h, eaten, buf, rest, turns, net.turns, ConnError, data[..len']);
    }
  }

  /** The header loop, from the first byte after the status line: it reads exactly until the
      headers are decided or nothing more arrives, and its result is the decision on the bytes
      read. */
  method ReadHeaders(data: array<char>, start: nat, h0: Headers, net: D.Connection, bk: HttpData)
    returns (r: Result, len: nat)
    requires data.Length == CHUNK_SIZE && start <= CAPACITY && !bk.doData
    modifies data, net
    ensures len <= CAPACITY && (r.Parsed? || r.HttpError? || r.ConnError?)
    ensures ReadOn(h0, old(data[..start]), old(net.rest), old(net.turns), net.rest, net.turns, r, data[..len])
  {
    hide Parse, Pending, FindCrlf, ApplyLine, InLoop, ReadOn;
    ghost var c, eaten := Call(h0, data[..start], net.rest, net.turns), "";
    var h := h0;
    len := start;
    LoopStarts(c);
    while true
      invariant len <= CAPACITY
      invariant InLoop(c, h, eaten, data[..len], net.rest, net.turns)
      decreases |net.turns|, len
    {
      ghost var buf, h' := data[..len], h;
      ParseStep(h, buf, "");
      assert buf + "" == buf;
      var o, ok;
      o, len, h := TakeLine(data, len, h);
      if o == NoLine && len < CAPACITY {
        len, ok := ReadPiece(data, len, net, bk, c, h, eaten);
        if !ok {
          return ConnError, len;
        }
      } else if o == Taken {
        LoopEats(c, h', eaten, buf, net.rest, net.turns, h);
        eaten := eaten + buf[..FindCrlf(buf).value + 2];
      } else {
        r := if o == EndOfHeaders then Parsed(h) else HttpError;
        LoopEnds(c, h', eaten, buf, net.rest, net.turns, net.turns, r, data[..len]);
        return;
      }
    }
  }

  const NO_LENGTH: u32 := 0xFFFF_FFFF

  /** Status line and headers of a response, of which the first read put `firstLen` bytes into
      the buffer. The other reads go on exactly until the headers are decided. A connection
      error means that they were not; any other result is that of the one-shot parser on the
      whole stream after the status line, and what is left in the buffer followed by what was
      not read is the body. Only the status line itself must arrive with the first read. */
  method ResponseParse(data: array<char>, firstLen: nat, net: D.Connection, bk: HttpData, retrieveLen: u32)
    returns (r: Result, len: nat, code: int)
    requires data.Length == CHUNK_SIZE && firstLen <= CAPACITY && !bk.doData
    modifies data, net
    ensures len <= CAPACITY
    ensures var first := old(data[..firstLen]);
      r == Unresolved <==> FindCrlf(first).None? || StatusCode(first[..FindCrlf(first).value]).None?
    ensures var first := old(data[..firstLen]);
      r != Unresolved ==>
        var k, h0 := FindCrlf(first).value, Headers(false, NO_LENGTH, retrieveLen);
        && StatusCode(first[..k]) == Some(code)
        && ReadOn(h0, first[k + 2..], old(net.rest), old(net.turns), net.rest, net.turns, r, data[..len])
        && (r != ConnError ==> Agrees(r, h0, first[k + 2..] + Text(old(net.rest)), data[..len] + Text(net.rest)))
        && (r.NotFound? ==> code != 200) && (r.Parsed? ==> code == 200)
  {
    hide FindCrlf, StatusCode, Parse, Reads, Left, Text, ReadOn, Agrees;
    code := 0;
    var found := FindCrlf(data[..firstLen]);
    if found.None? {
      return Unresolved, firstLen, code;
    }
    var k := found.value;
    var status := StatusCode(data[..k]);
    assert data[..firstLen][..k] == data[..k];
    if status.None? {
      return Unresolved, firstLen, code;
    }
    code := status.value;
    ghost var head, h0 := data[k + 2..firstLen], Headers(false, NO_LENGTH, retrieveLen);
    ghost var rest0, turns0 := net.rest, net.turns;
    assert data[..firstLen][k + 2..] == head;
    Shift(data, k + 2, firstLen);
    r, len := ReadHeaders(data, firstLen - (k + 2), Headers(false, NO_LENGTH, retrieveLen), net, bk);
    ReadOnMeans(h0, head, rest0, turns0, net.rest, net.turns, r, data[..len]);
    if r.Parsed? && code != 200 {
      r := NotFound(r.h);
    }
  }

  /** A decision is that of the one-shot parser on the whole stream; a refused page has one too. */
  lemma ReadOnMeans(h0: Headers, head: string, rest0: seq<byte>, turns0: seq<D.Event>,
                    rest: seq<byte>, turns: seq<D.Event>, r: Result, leftover: string)
    requires ReadOn(h0, head, rest0, turns0, rest, turns, r, leftover)
    ensures r != ConnError ==> Agrees(r, h0, head + Text(rest0), leftover + Text(rest))
    ensures r.Parsed? ==>
      && ReadOn(h0, head, rest0, turns0, rest, turns, NotFound(r.h), leftover)
      && Agrees(NotFound(r.h), h0, head + Text(rest0), leftover + Text(rest))
  {
    hide Parse, Reads, Left, Text;
    if r != ConnError {
      var read := |rest0| - |rest|;
      AgreesLater(r, h0, head + Text(rest0)[..read], leftover, Text(rest));
      WholeText(rest0, read);
      assert head + Text(rest0)[..read] + Text(rest) == head + (Text(rest0)[..read] + Text(rest));
    }
  }

  lemma WholeText(rest: seq<byte>, read: nat)
    requires read <= |rest|
    ensures Text(rest)[..read] + Text(rest[read..]) == Text(rest)
  {
  }
}
