/** app/http/utils_httpc.c, httpclient_response_parse: status line and header lines are taken
    out of a 256-byte buffer that is refilled by reads of arbitrary size. */
module HttpHeaders {
  import opened Words
  import opened Seqs
  import opened CString

  const CHUNK_SIZE: nat := 256
  const CAPACITY: nat := CHUNK_SIZE - 1

  /** is_chunked, response_content_len and retrieve_len of httpclient_data_t. */
  datatype Headers = Headers(isChunked: bool, contentLen: u32, retrieveLen: u32)

  /** How the parse of a stream ends: at the first byte of the body, with an unusable or
      overlong line, or undecided because the stream stops in the middle of the headers. */
  datatype Outcome = Done(h: Headers, body: string) | Failed | Undecided

  // ---------------------------------------------------------------- C library functions

  /** os_strstr(s, "\\r\\n") on a terminated string: the first match before any NUL. */
  function FindCrlf(s: string): (r: Option<nat>)
    ensures r.Some? ==> r.value + 2 <= |s|
  {
    if |s| < 2 || s[0] == '\0' then None
    else if s[0] == '\r' && s[1] == '\n' then Some(0)
    else match FindCrlf(s[1..])
      case None => None
      case Some(k) => Some(k + 1)
  }

  /** The conversion %31[...]: how many of the first 31 characters belong to the set. */
  function Span(s: string, stop: set<char>, room: nat): (n: nat)
    ensures n <= |s| && n <= room
  {
    if room == 0 || s == "" || s[0] in stop then 0 else 1 + Span(s[1..], stop, room - 1)
  }

  /** sscanf(line, "%31[^:]: %31[^\\r\\n]", key, value) when it assigns both. */
  function KeyValue(line: string): Option<(string, string)> {
    var k := Span(line, {':'}, 31);
    if k == 0 || k == |line| || line[k] != ':' then None
    else
      var t := SkipSpace(line[k + 1..]);
      var v := Span(t, {'\r', '\n'}, 31);
      if v == 0 then None else Some((line[..k], t[..v]))
  }

  /** sscanf(line, "HTTP/%*d.%*d %d ...", &code). */
  function StatusCode(line: string): Option<int> {
    if |line| < 5 || line[..5] != "HTTP/" then None
    else match ScanInt(line[5..])
      case None => None
      case Some((_, t)) =>
        if t == "" || t[0] != '.' then None
        else match ScanInt(t[1..])
          case None => None
          case Some((_, u)) => match ScanInt(u) case None => None case Some((code, _)) => Some(code)
  }

  /** The number behind the version is the code, whatever the version and the reason are. */
  lemma StatusLineRead(major: nat, minor: nat, blanks: string, code: nat, reason: string)
    requires (forall c :: c in blanks ==> c == ' ' || c == '\t') && blanks != ""
    requires reason == "" || !IsDigit(reason[0])
    ensures StatusCode("HTTP/" + Decimal(major) + "." + Decimal(minor) + blanks + Decimal(code) + reason) == Some(code)
  {
    hide Decimal, ScanInt, SkipSpace, StatusCode;
    var u := blanks + (Decimal(code) + reason);
    var t := "." + (Decimal(minor) + u);
    var line := "HTTP/" + Decimal(major) + "." + Decimal(minor) + blanks + Decimal(code) + reason;
    assert line == "HTTP/" + (Decimal(major) + t);
    assert u[0] in blanks by { assert u[0] == blanks[0]; }
    DecimalScanned(major, t);
    DecimalScanned(minor, u);
    DecimalScanned(code, reason);
    ScanBlanks(blanks, Decimal(code) + reason);
    ThreeNumbers(line, major, t, minor, u, code, reason);
  }

  lemma ThreeNumbers(line: string, major: int, t: string, minor: int, u: string, code: int, v: string)
    requires |line| >= 5 && line[..5] == "HTTP/" && ScanInt(line[5..]) == Some((major, t))
    requires t != "" && t[0] == '.' && ScanInt(t[1..]) == Some((minor, u)) && ScanInt(u) == Some((code, v))
    ensures StatusCode(line) == Some(code)
  {
    hide ScanInt;
  }

  lemma ScanBlanks(blanks: string, s: string)
    requires forall c :: c in blanks ==> c == ' ' || c == '\t'
    ensures ScanInt(blanks + s) == ScanInt(s)
  {
    SkipBlanks(blanks, s);
  }

  // ---------------------------------------------------------------- the reference parser

  /** One header line, without its line end. */
  function ApplyLine(h: Headers, line: string): Option<Headers> {
    match KeyValue(line)
    case None => None
    case Some((key, value)) =>
      if key == "Content-Length" then
        var len := match ScanInt(value) case None => h.contentLen case Some((v, _)) => Wrap(v);
        Some(h.(contentLen := len, retrieveLen := len))
      else if key == "Transfer-Encoding" && (value == "Chunked" || value == "chunked") then
        Some(Headers(true, 0, 0))
      else Some(h)
  }

  /** What the buffer can show of a stream. */
  function Visible(s: string): (v: string)
    ensures v <= s
  {
    s[..Min(|s|, CAPACITY)]
  }

  /** The headers of a whole stream at once: line after line until the empty one. A line
      whose end is not within the first 255 bytes is an error. */
  function Parse(h: Headers, s: string): Outcome
    decreases |s|
  {
    match FindCrlf(Visible(s))
    case None => if |s| >= CAPACITY then Failed else Undecided
    case Some(k) =>
      if k == 0 then Done(h, s[2..])
      else match ApplyLine(h, s[..k])
        case None => Failed
        case Some(h1) => Parse(h1, s[k + 2..])
  }

  /** The buffer shows 255 characters: a line end must be among them. */
  lemma LineLimit(h: Headers, s: string)
    requires FindCrlf(s[..Min(|s|, 255)]) == None
    ensures Parse(h, s) == if |s| >= 255 then Failed else Undecided
  {
  }

  lemma {:induction false} FindCrlfPrefix(s: string, t: string)
    ensures FindCrlf(s).Some? ==> FindCrlf(s + t) == FindCrlf(s)
  {
    if |s| >= 2 && s[0] != '\0' && !(s[0] == '\r' && s[1] == '\n') {
      assert (s + t)[1..] == s[1..] + t;
      FindCrlfPrefix(s[1..], t);
    }
  }

  /** A line end seen in what the buffer shows of a prefix is the one the whole stream shows. */
  lemma FindInVisible(s: string, t: string)
    ensures FindCrlf(Visible(s)).Some? ==> FindCrlf(Visible(s + t)) == FindCrlf(Visible(s))
    ensures |s| >= CAPACITY ==> Visible(s + t) == Visible(s)
  {
    var m := Min(|s|, CAPACITY);
    var v := Visible(s + t);
    assert v[..m] == Visible(s) && v == v[..m] + v[m..];
    FindCrlfPrefix(Visible(s), v[m..]);
  }

  /** Once decided, the parse of a stream is not changed by bytes that arrive later: they only
      extend the body. */
  lemma {:induction false} ParsePrefix(h: Headers, s: string, t: string)
    ensures match Parse(h, s)
      case Done(h1, body) => Parse(h, s + t) == Done(h1, body + t)
      case Failed => Parse(h, s + t) == Failed
      case Undecided => true
    decreases |s|
  {
    hide FindCrlf, ApplyLine, Visible;
    FindInVisible(s, t);
    var f := FindCrlf(Visible(s));
    if f.Some? {
      var k := f.value;
      assert (s + t)[..k] == s[..k] && (s + t)[k + 2..] == s[k + 2..] + t;
      if k > 0 && ApplyLine(h, s[..k]).Some? {
        ParsePrefix(ApplyLine(h, s[..k]).value, s[k + 2..], t);
      }
    }
  }

  // ---------------------------------------------------------------- the format being parsed

  /** A header field in the shape of section 3.2 of RFC 7230: `text` is all that stands behind the
      colon, optional blanks included. */
  datatype Field = Field(name: string, text: string)

  /** Its line, line end included, fits the buffer. */
  ghost predicate FieldShape(f: Field) {
    && |Line(f)| + 2 <= CAPACITY
    && (forall c :: c in f.name ==> c != ':' && c != '\r' && c != '\0')
    && (forall c :: c in f.text ==> c != '\r' && c != '\n' && c != '\0')
  }

  /** The fields the client can take: a name of at most 31 characters and a value that is not blank. */
  predicate Understood(f: Field) {
    1 <= |f.name| <= 31 && SkipSpace(f.text) != ""
  }

  /** The part of a value that the client sees. */
  function Shown(value: string): string {
    var t := SkipSpace(value);
    t[..Min(|t|, 31)]
  }

  function Line(f: Field): string {
    f.name + ":" + f.text
  }

  /** The header section, ended by an empty line. */
  function Format(fs: seq<Field>): string {
    if fs == [] then "\r\n" else Line(fs[0]) + "\r\n" + Format(fs[1..])
  }

  /** What one field means to the client. */
  function Meaning(h: Headers, f: Field): Headers {
    var value := Shown(f.text);
    if f.name == "Content-Length" then
      var len := match ScanInt(value) case None => h.contentLen case Some((v, _)) => Wrap(v);
      h.(contentLen := len, retrieveLen := len)
    else if f.name == "Transfer-Encoding" && (value == "Chunked" || value == "chunked") then
      Headers(true, 0, 0)
    else h
  }

  function MeaningAll(h: Headers, fs: seq<Field>): Headers
    decreases |fs|
  {
    if fs == [] then h else MeaningAll(Meaning(h, fs[0]), fs[1..])
  }

  lemma {:induction false} SpanStops(a: string, rest: string, stop: set<char>, room: nat)
    requires (forall c :: c in a ==> c !in stop) && |a| <= room
    requires rest == "" || rest[0] in stop || |a| == room
    ensures Span(a + rest, stop, room) == |a|
    decreases |a|
  {
    if a == "" {
      assert a + rest == rest;
    } else {
      assert (a + rest)[1..] == a[1..] + rest && a[0] in a;
      SpanStops(a[1..], rest, stop, room - 1);
    }
  }

  lemma {:induction false} SkipSuffix(s: string)
    ensures forall c :: c in SkipSpace(s) ==> c in s
    decreases |s|
  {
    if s != "" && IsSpace(s[0]) {
      SkipSuffix(s[1..]);
    }
  }

  lemma ValueSpan(value: string)
    requires forall c :: c in value ==> c != '\r' && c != '\n'
    ensures var t := SkipSpace(value);
      t[..Span(t, {'\r', '\n'}, 31)] == Shown(value) && (Span(t, {'\r', '\n'}, 31) == 0 <==> t == "")
  {
    hide Span, SkipSpace;
    SkipSuffix(value);
    var t := SkipSpace(value);
    var m := Min(|t|, 31);
    assert t[..m] + t[m..] == t;
    assert forall c :: c in t[..m] ==> c in t;
    SpanStops(t[..m], t[m..], {'\r', '\n'}, 31);
  }

  lemma NameSpan(f: Field)
    requires FieldShape(f)
    ensures Span(Line(f), {':'}, 31) == Min(|f.name|, 31)
  {
    hide Span;
    var m := Min(|f.name|, 31);
    var rest := f.name[m..] + ":" + f.text;
    assert Line(f) == f.name[..m] + rest;
    assert forall c :: c in f.name[..m] ==> c in f.name;
    SpanStops(f.name[..m], rest, {':'}, 31);
  }

  /** What the scan makes of a header line. */
  lemma LineScans(f: Field)
    requires FieldShape(f)
    ensures KeyValue(Line(f)) == if Understood(f) then Some((f.name, Shown(f.text))) else None
  {
    hide Span, SkipSpace, IsSpace, Shown;
    var line, k := Line(f), |f.name|;
    NameSpan(f);
    ValueSpan(f.text);
    if k > 31 {
      assert line[31] == f.name[31] && f.name[31] in f.name;
    } else {
      assert line[..k] == f.name && line[k] == ':' && line[k + 1..] == f.text;
    }
  }

  lemma {:induction false} CrlfAfter(a: string, rest: string)
    requires forall c :: c in a ==> c != '\r' && c != '\0'
    ensures FindCrlf(a + "\r\n" + rest) == Some(|a|)
    decreases |a|
  {
    var s := a + "\r\n" + rest;
    if a == "" {
      assert s == "\r\n" + rest;
    } else {
      assert s[0] in a && s[1..] == a[1..] + "\r\n" + rest;
      assert forall c :: c in a[1..] ==> c in a;
      CrlfAfter(a[1..], rest);
    }
  }

  ghost predicate AllUnderstood(fs: seq<Field>) {
    forall f :: f in fs ==> Understood(f)
  }

  /** A header section whose lines fit the buffer is understood, field by field and with the
      body behind it, if and only if every name has at most 31 characters and no value is
      blank; otherwise the response is refused. */
  lemma {:induction false} ParsesFormat(h: Headers, fs: seq<Field>, body: string)
    requires forall f :: f in fs ==> FieldShape(f)
    ensures Parse(h, Format(fs) + body) == if AllUnderstood(fs) then Done(MeaningAll(h, fs), body) else Failed
    decreases |fs|
  {
    hide KeyValue, Meaning, FindCrlf, Understood, ApplyLine;
    var s := Format(fs) + body;
    var line := if fs == [] then "" else Line(fs[0]);
    var rest := if fs == [] then body else Format(fs[1..]) + body;
    assert s == line + "\r\n" + rest;
    if fs != [] {
      LineMeans(h, fs[0]);
      LineChars(fs[0]);
      assert AllUnderstood(fs) <==> Understood(fs[0]) && AllUnderstood(fs[1..]);
    }
    var shown := Visible(s)[|line| + 2..];
    assert Visible(s) == line + "\r\n" + shown;
    CrlfAfter(line, shown);
    assert s[..|line|] == line && s[|line| + 2..] == rest;
    if fs != [] {
      ParsesFormat(Meaning(h, fs[0]), fs[1..], body);
    }
  }

  lemma LineChars(f: Field)
    requires FieldShape(f)
    ensures forall c :: c in Line(f) ==> c != '\r' && c != '\0'
  {
  }

  lemma LineMeans(h: Headers, f: Field)
    requires FieldShape(f)
    ensures ApplyLine(h, Line(f)) == if Understood(f) then Some(Meaning(h, f)) else None
  {
    hide KeyValue, Understood, Shown;
    LineScans(f);
  }

  lemma {:induction false} SkipBlanks(blanks: string, s: string)
    requires forall c :: c in blanks ==> c == ' ' || c == '\t'
    ensures SkipSpace(blanks + s) == SkipSpace(s)
    decreases |blanks|
  {
    if blanks == "" {
      assert blanks + s == s;
    } else {
      assert blanks[0] in blanks && (blanks + s)[1..] == blanks[1..] + s;
      assert forall c :: c in blanks[1..] ==> c in blanks;
      SkipBlanks(blanks[1..], s);
    }
  }

  lemma DecimalShown(n: nat)
    requires n < 0x8000_0000
    ensures Decimal(n) != "" && SkipSpace(Decimal(n)) == Decimal(n) && |Decimal(n)| <= 31
  {
    hide Decimal;
    assert Pow10(5) == 100000 && Pow10(10) == 100000 * Pow10(5);
    DecimalShort(n, 10);
    DecimalScanned(n, "");
    assert Decimal(n) + "" == Decimal(n);
  }

  /** A Content-Length field, with any blanks or none behind the colon, is understood and read
      back exactly. */
  lemma ContentLengthRead(h: Headers, blanks: string, n: nat)
    requires n < 0x8000_0000 && forall c :: c in blanks ==> c == ' ' || c == '\t'
    ensures var f := Field("Content-Length", blanks + Decimal(n));
      Understood(f) && Meaning(h, f) == h.(contentLen := n, retrieveLen := n)
  {
    hide Decimal, ScanInt, SkipSpace;
    DecimalShown(n);
    DecimalScanned(n, "");
    assert Decimal(n) + "" == Decimal(n);
    SkipBlanks(blanks, Decimal(n));
    assert Shown(blanks + Decimal(n)) == Decimal(n);
  }

  /** Such a field has the shape of a header line. */
  lemma LengthFieldShape(n: nat)
    requires n < 0x8000_0000
    ensures FieldShape(Field("Content-Length", " " + Decimal(n)))
  {
    hide Decimal, SkipSpace, FieldShape;
    DecimalShown(n);
    var digits := Decimal(n);
    assert forall c :: c in digits ==> IsDigit(c);
    DigitsShape(digits);
  }

  lemma DigitsShape(digits: string)
    requires |digits| <= 31 && forall c :: c in digits ==> IsDigit(c)
    ensures FieldShape(Field("Content-Length", " " + digits))
  {
    var text := " " + digits;
    forall c | c in text
      ensures c != '\r' && c != '\n' && c != '\0'
    {
      assert c == ' ' || c in digits;
    }
  }

  /** A Transfer-Encoding field switches to chunks in the two spellings that the code knows, in no
      other; fields of other names mean nothing. */
  lemma OtherFieldsRead(h: Headers, f: Field)
    ensures f.name == "Transfer-Encoding" ==>
      Meaning(h, f) == if Shown(f.text) == "chunked" || Shown(f.text) == "Chunked" then Headers(true, 0, 0) else h
    ensures f.name != "Transfer-Encoding" && f.name != "Content-Length" ==> Meaning(h, f) == h
  {
  }

  lemma ChunkedRead(h: Headers, blanks: string, word: string)
    requires word == "chunked" || word == "Chunked"
    requires forall c :: c in blanks ==> c == ' ' || c == '\t'
    ensures Meaning(h, Field("Transfer-Encoding", blanks + word)) == Headers(true, 0, 0)
  {
    SkipBlanks(blanks, word);
    assert Shown(blanks + word) == word;
  }

  // ---------------------------------------------------------------- parts of a stream

  /** The incomplete line at the end of a stream whose headers are not decided yet. */
  function Pending(h: Headers, s: string): string
    decreases |s|
  {
    match FindCrlf(Visible(s))
    case None => s
    case Some(k) =>
      if k == 0 then s
      else match ApplyLine(h, s[..k])
        case None => s
        case Some(h1) => Pending(h1, s[k + 2..])
  }

  lemma {:induction false} PendingShort(h: Headers, s: string)
    requires Parse(h, s) == Undecided
    ensures |Pending(h, s)| < CAPACITY
    decreases |s|
  {
    hide FindCrlf, ApplyLine, Visible;
    var f := FindCrlf(Visible(s));
    if f.Some? {
      PendingShort(ApplyLine(h, s[..f.value]).value, s[f.value + 2..]);
    }
  }

  /** What the buffered part of the stream decides about the next step of the parse. */
  lemma ParseStep(h: Headers, buf: string, rest: string)
    requires |buf| <= CAPACITY
    ensures FindCrlf(buf).None? ==>
      Parse(h, buf) == (if |buf| == CAPACITY then Failed else Undecided) && Pending(h, buf) == buf
    ensures FindCrlf(buf).Some? ==>
      var s, k := buf + rest, FindCrlf(buf).value;
      && Parse(h, s) == (if k == 0 then Done(h, s[2..])
                         else match ApplyLine(h, s[..k]) case None => Failed case Some(h1) => Parse(h1, s[k + 2..]))
      && (k > 0 && ApplyLine(h, s[..k]).Some? ==> Pending(h, s) == Pending(ApplyLine(h, s[..k]).value, s[k + 2..]))
  {
    hide FindCrlf, ApplyLine;
    FindInVisible(buf, rest);
    assert Visible(buf) == buf;
  }

  /** Segmentation independence: two ways of cutting and reading the same stream that both decide
      the headers decide them alike, and leave the same body. */
  lemma SegmentationIndependent(h0: Headers, got: string, rest: string, got': string, rest': string)
    requires got + rest == got' + rest'
    requires Parse(h0, got) != Undecided && Parse(h0, got') != Undecided
    ensures match Parse(h0, got)
      case Failed => Parse(h0, got') == Failed
      case Done(h, body) => Parse(h0, got').Done? && Parse(h0, got').h == h && Parse(h0, got').body + rest' == body + rest
  {
    ParsePrefix(h0, got, rest);
    ParsePrefix(h0, got', rest');
  }

  /** The split of the status line does matter: the first read finds the end of the status line
      exactly when it is long enough to contain it; a shorter one is refused although the
      stream as a whole parses. */
  lemma {:induction false} StatusLineMustComeFirst(s: string, m: nat)
    requires m <= |s| && FindCrlf(s).Some?
    ensures FindCrlf(s[..m]) == if m >= FindCrlf(s).value + 2 then FindCrlf(s) else None
    decreases |s|
  {
    if m >= 2 && !(s[0] == '\r' && s[1] == '\n') {
      assert s[..m][1..] == s[1..][..m - 1];
      StatusLineMustComeFirst(s[1..], m - 1);
    }
  }

  /** In a header section whose lines have at most `width` characters, at most one character
      more is pending. */
  lemma {:induction false} PendingWithinLine(h: Headers, fs: seq<Field>, body: string, p: nat, width: nat)
    requires forall f :: f in fs ==> FieldShape(f) && |Line(f)| <= width
    requires p <= |Format(fs) + body| && Parse(h, (Format(fs) + body)[..p]) == Undecided
    ensures |Pending(h, (Format(fs) + body)[..p])| <= width + 1
    decreases |fs|
  {
    hide Parse, Pending, FindCrlf, ApplyLine, FieldShape, Line;
    var all := Format(fs) + body;
    var s := all[..p];
    var line := if fs == [] then "" else Line(fs[0]);
    var rest := if fs == [] then body else Format(fs[1..]) + body;
    assert all == line + "\r\n" + rest;
    if fs != [] {
      assert fs[0] in fs && forall f :: f in fs[1..] ==> f in fs;
      LineFits(fs[0]);
    }
    CrlfAfter(line, rest);
    StatusLineMustComeFirst(all, p);
    if p < |line| + 2 {
      ParseStep(h, s, "");
    } else {
      var buf := all[..|line| + 2];
      StatusLineMustComeFirst(all, |line| + 2);
      assert buf + s[|line| + 2..] == s && s[..|line|] == line;
      ParseStep(h, buf, s[|line| + 2..]);
      if fs != [] && ApplyLine(h, line).Some? {
        assert s[|line| + 2..] == rest[..p - (|line| + 2)];
        PendingWithinLine(ApplyLine(h, line).value, fs[1..], body, p - (|line| + 2), width);
      }
    }
  }

  lemma LineFits(f: Field)
    requires FieldShape(f)
    ensures |Line(f)| + 2 <= CAPACITY && Line(f) != ""
    ensures forall c :: c in Line(f) ==> c != '\r' && c != '\0'
  {
    LineChars(f);
  }
}
