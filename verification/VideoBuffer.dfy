/** app/video_work/video_buffer.c: camera frames travel as numbered packets; a receive callback
    reassembles them into the buffer of a reader that waits on a semaphore. */
module VideoBuffer {
  import opened Words
  import opened Seqs
  import Ring

  const HDR_LEN: nat := 4

  /** BUF_STA_INIT .. BUF_STA_ERR. */
  datatype Status = Init | Copy | Get | Full | Err

  /** g_vbuf: the reader's buffer (armed or not) with its contents, the frame being assembled,
      and the tokens in the semaphore. */
  datatype Vbuf = Vbuf(armed: bool, cells: seq<byte>, frameId: nat, pktCnt: nat, frameLen: nat,
                       status: Status, sem: nat)

  // ---------------------------------------------------------------- one callback

  /** The check of a complete frame: start marker, end marker, and the length trailer. The
      code forms the marker address by subtracting 7, so shorter frames are not its business. */
  predicate RightImage(frame: seq<byte>) {
    var n := |frame|;
    && n >= 7
    && frame[0] == 0xFF && frame[1] == 0xD8
    && frame[n - 7] == 0xFF && frame[n - 6] == 0xD9
    && Le32(frame[n - 4..]) == n - 5
  }

  /** What a complete image is: start marker, body, end marker, one byte more, and a 32-bit trailer
      that holds its own place minus one. */
  ghost predicate CompleteImage(frame: seq<byte>) {
    exists body, x: byte :: Marked(frame, body, x)
  }

  ghost predicate Marked(frame: seq<byte>, body: seq<byte>, x: byte) {
    |body| < 0xFFFF_FFFC && frame == [0xFF, 0xD8] + body + [0xFF, 0xD9, x] + ToLe32(|body| + 4)
  }

  /** The byte comparisons accept exactly the complete images. */
  lemma RightImageIs(frame: seq<byte>)
    ensures RightImage(frame) <==> CompleteImage(frame)
  {
    hide Le32, ToLe32;
    if RightImage(frame) {
      Trailed(frame);
    }
    if CompleteImage(frame) {
      var body, x: byte :| Marked(frame, body, x);
      assert frame[|frame| - 4..] == ToLe32(|body| + 4);
      ToLe32RoundTrip(|body| + 4);
    }
  }

  lemma Trailed(frame: seq<byte>)
    requires RightImage(frame)
    ensures CompleteImage(frame)
  {
    hide Le32, ToLe32;
    var n := |frame|;
    assert n != 7 && n != 8;
    var body, x := frame[2..n - 7], frame[n - 5];
    Le32RoundTrip(frame[n - 4..]);
    assert frame == [0xFF, 0xD8] + body + [0xFF, 0xD9, x] + frame[n - 4..];
    assert Marked(frame, body, x);
  }

  predicate StartsFrame(v: Vbuf, data: seq<byte>)
    requires |data| >= HDR_LEN
  {
    data[0] != v.frameId && data[3] == 1
  }

  function Restart(v: Vbuf, data: seq<byte>): Vbuf
    requires |data| >= HDR_LEN
  {
    if StartsFrame(v, data) then v.(frameId := data[0], frameLen := 0, pktCnt := 0, status := Copy) else v
  }

  predicate Continues(v: Vbuf, data: seq<byte>)
    requires |data| >= HDR_LEN
  {
    data[0] == v.frameId && v.pktCnt + 1 == data[3] && v.status == Copy
  }

  /** The payload of the expected packet: appended if it fits, and judged if it is the last. */
  function Append(v: Vbuf, data: seq<byte>): Vbuf
    requires |data| >= HDR_LEN
  {
    var p := data[HDR_LEN..];
    if v.frameLen + |p| > |v.cells| then v.(status := Full, sem := v.sem + 1)
    else
      var v1 := v.(cells := Overlay(v.cells, v.frameLen, p), frameLen := v.frameLen + |p|, pktCnt := v.pktCnt + 1);
      if data[1] == 1 then
        v1.(status := if RightImage(v1.cells[..v1.frameLen]) then Get else Err, sem := v1.sem + 1)
      else v1
  }

  predicate Listening(v: Vbuf) {
    v.armed && (v.status == Copy || v.status == Init)
  }

  /** video_buffer_recv_video_data. */
  function Recv(v: Vbuf, data: seq<byte>): Vbuf {
    if !Listening(v) || |data| < HDR_LEN then v
    else
      var v1 := Restart(v, data);
      if Continues(v1, data) then Append(v1, data) else v1
  }

  // ---------------------------------------------------------------- frames and packets

  type Frame = seq<seq<byte>>

  /** Packet j (from 1) of frame number f as video_buffer_add_pkt_header marks it; the third
      header byte is the driver's frame length. */
  function Packet(frames: seq<Frame>, f: nat, j: nat): (data: seq<byte>)
    requires f < |frames| && 1 <= j <= |frames[f]|
    ensures |data| >= HDR_LEN
  {
    [f % 256, if j == |frames[f]| then 1 else 0, 0, j % 256] + frames[f][j - 1]
  }

  /** Frames of at most 256 packets, whose numbers fit the header byte, and of at least the
      seven bytes that the check of the end marker looks at. */
  ghost predicate FramesOk(frames: seq<Frame>) {
    forall f :: 0 <= f < |frames| ==> 1 <= |frames[f]| <= 256 && |Flat(frames[f])| >= 7
  }

  // ---------------------------------------------------------------- the step system

  /** Where the reader stands in video_buffer_read_frame. */
  datatype Reader = Idle | Drained | Waiting | Woken | TimedOut | Judged(err: int, len: nat)

  /** The buffer, the reader, and as history: the packets delivered so far, the frame last
      started, and the number of deliveries at and of signals since the last arming. */
  datatype World = World(v: Vbuf, reader: Reader, log: seq<(nat, nat)>, cur: nat, armedAt: nat, signals: nat)

  /** Packets may be delivered in any order, any number of times, or not at all. */
  datatype Step = Deliver(f: nat, j: nat) | Drain | Arm(cells: seq<byte>) | Take | Expire | Judge | Disarm

  function Start(): World {
    World(Vbuf(false, [], 0xFFFF, 0, 0, Init, 0), Idle, [], 0, 0, 0)
  }

  predicate OfSender(frames: seq<Frame>, f: nat, j: nat) {
    f < |frames| && 1 <= j <= |frames[f]|
  }

  function ErrorCode(v: Vbuf): int {
    match v.status
    case Get => 0
    case Full => -2
    case Err => -3
    case Init => -4
    case Copy => -4
  }

  function Next(frames: seq<Frame>, w: World, s: Step): World {
    match s
    case Deliver(f, j) =>
      if !OfSender(frames, f, j) then w
      else
        var data := Packet(frames, f, j);
        var v := Recv(w.v, data);
        w.(v := v, log := w.log + [(f, j)],
           cur := if Listening(w.v) && StartsFrame(w.v, data) then f else w.cur,
           signals := w.signals + v.sem - Min(v.sem, w.v.sem))
    case Drain => if w.reader == Idle then w.(reader := Drained, v := w.v.(sem := 0)) else w
    case Arm(cells) =>
      if w.reader == Drained && cells != [] then
        w.(reader := Waiting, v := w.v.(armed := true, cells := cells), armedAt := |w.log|, signals := 0)
      else w
    case Take => if w.reader == Waiting && w.v.sem > 0 then w.(reader := Woken, v := w.v.(sem := w.v.sem - 1)) else w
    case Expire => if w.reader == Waiting then w.(reader := TimedOut) else w
    case Judge =>
      if w.reader == Woken then
        w.(reader := Judged(ErrorCode(w.v), if w.v.status == Get then Min(w.v.frameLen, |w.v.cells|) else 0))
      else if w.reader == TimedOut then w.(reader := Judged(-5, 0))
      else w
    case Disarm =>
      if w.reader.Judged? then w.(reader := Idle, v := w.v.(armed := false, cells := [], status := Init)) else w
  }

  function Run(frames: seq<Frame>, steps: seq<Step>): World {
    if steps == [] then Start() else Next(frames, Run(frames, steps[..|steps| - 1]), steps[|steps| - 1])
  }

  lemma PrefixRun(frames: seq<Frame>, steps: seq<Step>, n: nat)
    requires n < |steps|
    ensures Run(frames, steps[..n + 1]) == Next(frames, Run(frames, steps[..n]), steps[n])
  {
    assert steps[..n + 1][..n] == steps[..n];
  }

  // ---------------------------------------------------------------- the handshake

  predicate Final(st: Status) {
    st == Get || st == Full || st == Err
  }

  ghost predicate InRoom(v: Vbuf) {
    v.status == Copy || v.status == Get || v.status == Err ==> v.frameLen <= |v.cells|
  }

  /** The semaphore handshake, reader position by reader position. */
  ghost predicate ReaderInv(w: World) {
    && w.v.sem <= 1 && w.signals <= 1 && w.armedAt <= |w.log|
    && (w.v.armed <==> w.reader.Waiting? || w.reader.Woken? || w.reader.TimedOut? || w.reader.Judged?)
    && (!w.v.armed ==> w.v.status == Init)
    && InRoom(w.v)
    && (w.reader == Drained ==> w.v.sem == 0)
    && (w.v.armed ==> (w.signals == 1 <==> Final(w.v.status)))
    && (w.reader == Waiting || w.reader == TimedOut ==> w.v.sem == w.signals)
    && (w.reader == Woken ==> w.v.sem == 0 && w.signals == 1)
    && (w.reader.Judged? ==> w.v.sem <= w.signals)
    && (w.reader.Judged? && w.reader.err != -5 ==> Final(w.v.status) && w.reader.err == ErrorCode(w.v))
    && (w.reader.Judged? && w.reader.err == 0 ==> w.reader.len == w.v.frameLen)
  }

  /** What any packet does to the parts of the buffer that the reader looks at. */
  lemma RecvSignals(v: Vbuf, data: seq<byte>)
    requires InRoom(v)
    ensures var v1 := Recv(v, data);
      && v1.armed == v.armed && |v1.cells| == |v.cells| && InRoom(v1)
      && (!Listening(v) ==> v1 == v)
      && (Listening(v) ==> v1.sem == v.sem + (if Final(v1.status) then 1 else 0))
  {
    hide RightImage, Overlay;
  }

  lemma NextKeepsReader(frames: seq<Frame>, w: World, s: Step)
    requires ReaderInv(w)
    ensures ReaderInv(Next(frames, w, s))
  {
    if s.Deliver? {
      hide Recv, Packet, StartsFrame;
      if OfSender(frames, s.f, s.j) {
        RecvSignals(w.v, Packet(frames, s.f, s.j));
      }
    }
  }

  lemma {:induction false} ReaderAlways(frames: seq<Frame>, steps: seq<Step>)
    ensures ReaderInv(Run(frames, steps))
    decreases |steps|
  {
    hide Next;
    if steps != [] {
      ReaderAlways(frames, steps[..|steps| - 1]);
      NextKeepsReader(frames, Run(frames, steps[..|steps| - 1]), steps[|steps| - 1]);
    }
  }

  // ---------------------------------------------------------------- what the buffer holds

  /** The buffer holds the first packets of one frame, nothing skipped and nothing mixed in. */
  ghost predicate Assembled(frames: seq<Frame>, v: Vbuf, cur: nat) {
    && cur < |frames| && v.frameId == cur % 256 && v.pktCnt <= |frames[cur]|
    && v.frameLen == |Flat(frames[cur][..v.pktCnt])| <= |v.cells|
    && v.cells[..v.frameLen] == Flat(frames[cur][..v.pktCnt])
  }

  /** The same of the frame last started, once one was. */
  ghost predicate Whole(frames: seq<Frame>, w: World) {
    w.v.status != Init ==> Assembled(frames, w.v, w.cur)
  }

  /** A packet of another frame that the receiver takes for the next one of the frame it is
      assembling: identifiers have 8 bits, so the frame numbers agree modulo 256. */
  ghost predicate Aliasing(frames: seq<Frame>, w: World, s: Step) {
    && s.Deliver? && OfSender(frames, s.f, s.j)
    && Listening(w.v) && s.f != w.cur && Continues(w.v, Packet(frames, s.f, s.j))
  }

  /** Such a packet with a payload that the frame does not have there, and room for it. */
  ghost predicate Mixing(frames: seq<Frame>, w: World, s: Step) {
    && Aliasing(frames, w, s)
    && w.v.frameLen + |frames[s.f][s.j - 1]| <= |w.v.cells|
    && !(w.cur < |frames| && s.j <= |frames[w.cur]| && frames[w.cur][s.j - 1] == frames[s.f][s.j - 1])
  }

  /** Appending a packet keeps the buffer assembled exactly if it is the next one by content. */
  lemma AppendAssembles(frames: seq<Frame>, v: Vbuf, cur: nat, data: seq<byte>)
    requires Assembled(frames, v, cur) && |data| >= HDR_LEN
    ensures Assembled(frames, Append(v, data), cur) <==>
      v.frameLen + |data[HDR_LEN..]| > |v.cells|
      || (v.pktCnt < |frames[cur]| && data[HDR_LEN..] == frames[cur][v.pktCnt])
  {
    hide RightImage, Flat;
    var p, n := data[HDR_LEN..], v.frameLen;
    if n + |p| <= |v.cells| && v.pktCnt < |frames[cur]| {
      FlatNext(frames[cur], v.pktCnt);
      var cells := Overlay(v.cells, n, p);
      assert cells[..n + |p|] == v.cells[..n] + p;
      var q := frames[cur][v.pktCnt];
      if v.cells[..n] + p == v.cells[..n] + q {
        assert p == (v.cells[..n] + p)[n..] == q;
      }
    }
  }

  lemma PacketFacts(frames: seq<Frame>, f: nat, j: nat)
    requires FramesOk(frames) && OfSender(frames, f, j)
    ensures var data := Packet(frames, f, j);
      && data[0] == f % 256 && data[HDR_LEN..] == frames[f][j - 1]
      && (data[3] == j || (data[3] == 0 && j == 256))
      && (data[1] == 1 <==> j == |frames[f]|)
  {
    assert 1 <= |frames[f]| <= 256;
  }

  lemma StartedOk(frames: seq<Frame>, v: Vbuf, f: nat, j: nat)
    requires FramesOk(frames) && OfSender(frames, f, j) && StartsFrame(v, Packet(frames, f, j))
    ensures var v1 := Restart(v, Packet(frames, f, j));
      j == 1 && Assembled(frames, v1, f) && Continues(v1, Packet(frames, f, j)) && v1.pktCnt == 0 && v1.armed == v.armed
  {
    PacketFacts(frames, f, j);
    FlatNext(frames[f], 0);
  }

  lemma AssembledInRange(frames: seq<Frame>, v: Vbuf, cur: nat)
    requires Assembled(frames, v, cur)
    ensures cur < |frames| && v.frameId == cur % 256
  {
  }

  lemma DeliverWhole(frames: seq<Frame>, w: World, f: nat, j: nat)
    requires FramesOk(frames) && Whole(frames, w) && OfSender(frames, f, j)
    ensures Whole(frames, Next(frames, w, Deliver(f, j))) <==> !Mixing(frames, w, Deliver(f, j))
  {
    hide Assembled, Append, Flat, Packet;
    var data := Packet(frames, f, j);
    PacketFacts(frames, f, j);
    if Listening(w.v) {
      if StartsFrame(w.v, data) {
        StartedOk(frames, w.v, f, j);
        AppendAssembles(frames, Restart(w.v, data), f, data);
        AppendStarts(Restart(w.v, data), data);
      } else if Continues(w.v, data) {
        AssembledInRange(frames, w.v, w.cur);
        AppendAssembles(frames, w.v, w.cur, data);
        AppendStarts(w.v, data);
      }
    }
  }

  lemma AppendStarts(v: Vbuf, data: seq<byte>)
    requires |data| >= HDR_LEN && v.status == Copy
    ensures Append(v, data).status != Init && Append(v, data).armed == v.armed
  {
  }

  /** Exactly which step spoils the buffer. */
  lemma StepWhole(frames: seq<Frame>, w: World, s: Step)
    requires FramesOk(frames) && ReaderInv(w) && Whole(frames, w)
    ensures Whole(frames, Next(frames, w, s)) <==> !Mixing(frames, w, s)
  {
    hide Flat;
    if s.Deliver? && OfSender(frames, s.f, s.j) {
      DeliverWhole(frames, w, s.f, s.j);
    }
  }

  /** A property that exactly the steps `bad` break holds throughout a run if and only if none
      of them is taken. */
  lemma HoldsUnless(frames: seq<Frame>, steps: seq<Step>, inv: World -> bool, bad: (World, Step) -> bool)
    requires inv(Start())
    requires forall w, s :: ReaderInv(w) && inv(w) ==> (inv(Next(frames, w, s)) <==> !bad(w, s))
    ensures (forall n :: 0 <= n <= |steps| ==> inv(Run(frames, steps[..n])))
       <==> forall n :: 0 <= n < |steps| ==> !bad(Run(frames, steps[..n]), steps[n])
  {
    hide Next, Run, ReaderInv;
    if forall n :: 0 <= n <= |steps| ==> inv(Run(frames, steps[..n])) {
      forall n | 0 <= n < |steps|
        ensures !bad(Run(frames, steps[..n]), steps[n])
      {
        PrefixRun(frames, steps, n);
        ReaderAlways(frames, steps[..n]);
        assert inv(Run(frames, steps[..n + 1]));
      }
    }
    if forall n :: 0 <= n < |steps| ==> !bad(Run(frames, steps[..n]), steps[n]) {
      forall n | 0 <= n <= |steps|
        ensures inv(Run(frames, steps[..n]))
      {
        HoldsSoFar(frames, steps, inv, bad, n);
      }
    }
  }

  lemma {:induction false} HoldsSoFar(frames: seq<Frame>, steps: seq<Step>,
                                      inv: World -> bool, bad: (World, Step) -> bool, n: nat)
    requires n <= |steps| && inv(Start())
    requires forall w, s :: ReaderInv(w) && inv(w) ==> (inv(Next(frames, w, s)) <==> !bad(w, s))
    requires forall m :: 0 <= m < n ==> !bad(Run(frames, steps[..m]), steps[m])
    ensures inv(Run(frames, steps[..n]))
  {
    hide Next, ReaderInv;
    if n > 0 {
      HoldsSoFar(frames, steps, inv, bad, n - 1);
      ReaderAlways(frames, steps[..n - 1]);
      PrefixRun(frames, steps, n - 1);
    }
  }

  lemma WholeSoFar(frames: seq<Frame>, steps: seq<Step>, n: nat)
    requires FramesOk(frames) && n <= |steps|
    requires forall m :: 0 <= m < n ==> !Mixing(frames, Run(frames, steps[..m]), steps[m])
    ensures Whole(frames, Run(frames, steps[..n]))
  {
    hide Next, Run, Mixing, ReaderInv, FramesOk;
    forall w, s | ReaderInv(w) && Whole(frames, w)
      ensures Whole(frames, Next(frames, w, s)) <==> !Mixing(frames, w, s)
    {
      StepWhole(frames, w, s);
    }
    HoldsSoFar(frames, steps, w => Whole(frames, w), (w, s) => Mixing(frames, w, s), n);
  }

  /** Over any run, packets lost, repeated and reordered at will: at every moment the buffer
      holds exactly the first packets of the frame last started, if and only if no aliasing
      packet with a different payload is taken. */
  lemma AssembledUnlessMixed(frames: seq<Frame>, steps: seq<Step>)
    requires FramesOk(frames)
    ensures (forall n :: 0 <= n <= |steps| ==> Whole(frames, Run(frames, steps[..n])))
       <==> forall n :: 0 <= n < |steps| ==> !Mixing(frames, Run(frames, steps[..n]), steps[n])
  {
    hide Next, Run, Mixing, ReaderInv, FramesOk;
    forall w, s | ReaderInv(w) && Whole(frames, w)
      ensures Whole(frames, Next(frames, w, s)) <==> !Mixing(frames, w, s)
    {
      StepWhole(frames, w, s);
    }
    HoldsUnless(frames, steps, w => Whole(frames, w), (w, s) => Mixing(frames, w, s));
  }

  // ---------------------------------------------------------------- what the status means

  /** What the status says about how far the frame is. */
  ghost predicate Settled(frames: seq<Frame>, v: Vbuf, cur: nat)
    requires cur < |frames|
  {
    && (v.status == Copy ==> v.pktCnt < |frames[cur]|)
    && (v.status == Get ==> v.pktCnt == |frames[cur]| && RightImage(Flat(frames[cur])))
    && (v.status == Err ==> v.pktCnt == |frames[cur]| && !RightImage(Flat(frames[cur])))
    && (v.status == Full ==> v.pktCnt < |frames[cur]| && |Flat(frames[cur][..v.pktCnt + 1])| > |v.cells|)
  }

  /** The packets of the frame being assembled were all delivered after the buffer was armed. */
  ghost predicate Fresh(w: World) {
    && w.armedAt <= |w.log|
    && forall j :: 1 <= j <= w.v.pktCnt ==> (w.cur, j) in w.log[w.armedAt..]
  }

  ghost predicate BufferInv(frames: seq<Frame>, w: World) {
    w.v.status != Init ==> w.cur < |frames| && Assembled(frames, w.v, w.cur) && Settled(frames, w.v, w.cur) && Fresh(w)
  }

  /** The expected packet of the frame being assembled. */
  lemma AppendKeeps(frames: seq<Frame>, v: Vbuf, cur: nat)
    requires FramesOk(frames) && Assembled(frames, v, cur) && v.status == Copy && v.pktCnt < |frames[cur]|
    ensures var v1 := Append(v, Packet(frames, cur, v.pktCnt + 1));
      && Assembled(frames, v1, cur) && Settled(frames, v1, cur)
      && v.pktCnt <= v1.pktCnt <= v.pktCnt + 1 && v1.status != Init
  {
    hide RightImage, Overlay, Packet, Flat;
    var data := Packet(frames, cur, v.pktCnt + 1);
    PacketFacts(frames, cur, v.pktCnt + 1);
    AppendAssembles(frames, v, cur, data);
    FlatNext(frames[cur], v.pktCnt);
  }

  lemma LogGrows(w: World, x: (nat, nat))
    requires w.armedAt <= |w.log|
    ensures (w.log + [x])[w.armedAt..] == w.log[w.armedAt..] + [x]
  {
  }

  lemma DeliverKeeps(frames: seq<Frame>, w: World, f: nat, j: nat)
    requires FramesOk(frames) && ReaderInv(w) && BufferInv(frames, w) && OfSender(frames, f, j)
    requires !Aliasing(frames, w, Deliver(f, j))
    ensures BufferInv(frames, Next(frames, w, Deliver(f, j)))
  {
    hide Assembled, Settled, Append, Flat, Packet, FramesOk;
    var data := Packet(frames, f, j);
    PacketFacts(frames, f, j);
    LogGrows(w, (f, j));
    if Listening(w.v) {
      if StartsFrame(w.v, data) {
        StartedOk(frames, w.v, f, j);
        AppendKeeps(frames, Restart(w.v, data), f);
      } else if Continues(w.v, data) {
        SettledCopy(frames, w.v, w.cur);
        AppendKeeps(frames, w.v, f);
      }
    }
  }

  lemma SettledCopy(frames: seq<Frame>, v: Vbuf, cur: nat)
    requires cur < |frames| && Settled(frames, v, cur) && v.status == Copy
    ensures v.pktCnt < |frames[cur]|
  {
  }

  lemma NextKeepsBuffer(frames: seq<Frame>, w: World, s: Step)
    requires FramesOk(frames) && ReaderInv(w) && BufferInv(frames, w) && !Aliasing(frames, w, s)
    ensures BufferInv(frames, Next(frames, w, s))
  {
    hide Flat, RightImage;
    if s.Deliver? && OfSender(frames, s.f, s.j) {
      DeliverKeeps(frames, w, s.f, s.j);
    }
  }

  /** No packet of the run is taken for one of another frame. */
  ghost predicate NeverAliased(frames: seq<Frame>, steps: seq<Step>) {
    forall n :: 0 <= n < |steps| ==> !Aliasing(frames, Run(frames, steps[..n]), steps[n])
  }

  lemma {:induction false} BufferSoFar(frames: seq<Frame>, steps: seq<Step>, n: nat)
    requires FramesOk(frames) && n <= |steps|
    requires forall m :: 0 <= m < n ==> !Aliasing(frames, Run(frames, steps[..m]), steps[m])
    ensures BufferInv(frames, Run(frames, steps[..n]))
  {
    hide Next, Aliasing, ReaderInv, FramesOk, Assembled, Settled;
    if n > 0 {
      BufferSoFar(frames, steps, n - 1);
      ReaderAlways(frames, steps[..n - 1]);
      PrefixRun(frames, steps, n - 1);
      NextKeepsBuffer(frames, Run(frames, steps[..n - 1]), steps[n - 1]);
    }
  }

  lemma BufferAlways(frames: seq<Frame>, steps: seq<Step>)
    requires FramesOk(frames) && NeverAliased(frames, steps)
    ensures BufferInv(frames, Run(frames, steps))
  {
    hide Run, Aliasing, FramesOk, BufferInv;
    BufferSoFar(frames, steps, |steps|);
    assert steps[..|steps|] == steps;
  }

  // ---------------------------------------------------------------- main results

  /** Whether the next packet's payload, and its being the last, are those of the frame. */
  ghost predicate SameAsOwn(frames: seq<Frame>, v: Vbuf, cur: nat, data: seq<byte>)
    requires cur < |frames| && v.pktCnt < |frames[cur]| && |data| >= HDR_LEN
  {
    var p, q := data[HDR_LEN..], frames[cur][v.pktCnt];
    if v.frameLen + |p| <= |v.cells| then p == q && (data[1] == 1 <==> v.pktCnt + 1 == |frames[cur]|)
    else v.frameLen + |q| > |v.cells|
  }

  /** A packet keeps contents and status right exactly if it has the same effect as the frame's
      own next packet. */
  lemma AppendSettles(frames: seq<Frame>, v: Vbuf, cur: nat, data: seq<byte>)
    requires Assembled(frames, v, cur) && Settled(frames, v, cur) && v.status == Copy && |data| >= HDR_LEN
    ensures var v1 := Append(v, data);
      Assembled(frames, v1, cur) && Settled(frames, v1, cur) <==> SameAsOwn(frames, v, cur, data)
  {
    hide RightImage, Overlay, Flat;
    AppendAssembles(frames, v, cur, data);
    FlatNext(frames[cur], v.pktCnt);
  }

  /** Contents and status are right: the buffer is the front of one frame; GET and ERR say that it
      is complete, with or without both markers and the right length trailer; FULL says that it
      does not fit. */
  ghost predicate Right(frames: seq<Frame>, w: World) {
    w.v.status != Init ==> w.cur < |frames| && Assembled(frames, w.v, w.cur) && Settled(frames, w.v, w.cur)
  }

  /** An aliasing packet whose effect differs from that of the frame's own next packet. */
  ghost predicate Misleading(frames: seq<Frame>, w: World, s: Step) {
    && Aliasing(frames, w, s)
    && w.cur < |frames| && w.v.pktCnt < |frames[w.cur]|
    && !SameAsOwn(frames, w.v, w.cur, Packet(frames, s.f, s.j))
  }

  lemma DeliverRight(frames: seq<Frame>, w: World, f: nat, j: nat)
    requires FramesOk(frames) && ReaderInv(w) && Right(frames, w) && OfSender(frames, f, j)
    ensures Right(frames, Next(frames, w, Deliver(f, j))) <==> !Misleading(frames, w, Deliver(f, j))
  {
    hide Assembled, Settled, Append, Flat, Packet, FramesOk, SameAsOwn;
    var data := Packet(frames, f, j);
    PacketFacts(frames, f, j);
    if Listening(w.v) {
      if StartsFrame(w.v, data) {
        StartedOk(frames, w.v, f, j);
        AppendKeeps(frames, Restart(w.v, data), f);
      } else if Continues(w.v, data) {
        SettledCopy(frames, w.v, w.cur);
        AppendStarts(w.v, data);
        if f == w.cur {
          AppendKeeps(frames, w.v, f);
        } else {
          AppendSettles(frames, w.v, w.cur, data);
        }
      }
    }
  }

  lemma StepRight(frames: seq<Frame>, w: World, s: Step)
    requires FramesOk(frames) && ReaderInv(w) && Right(frames, w)
    ensures Right(frames, Next(frames, w, s)) <==> !Misleading(frames, w, s)
  {
    hide Flat, RightImage, SameAsOwn;
    if s.Deliver? && OfSender(frames, s.f, s.j) {
      DeliverRight(frames, w, s.f, s.j);
    }
  }

  /** Over any run: contents and status are right at every moment if and only if no aliasing
      packet is taken that differs in effect from the frame's own next packet. */
  lemma RightUnlessMisled(frames: seq<Frame>, steps: seq<Step>)
    requires FramesOk(frames)
    ensures (forall n :: 0 <= n <= |steps| ==> Right(frames, Run(frames, steps[..n])))
       <==> forall n :: 0 <= n < |steps| ==> !Misleading(frames, Run(frames, steps[..n]), steps[n])
  {
    hide Next, Run, Misleading, ReaderInv, FramesOk;
    forall w, s | ReaderInv(w) && Right(frames, w)
      ensures Right(frames, Next(frames, w, s)) <==> !Misleading(frames, w, s)
    {
      StepRight(frames, w, s);
    }
    HoldsUnless(frames, steps, w => Right(frames, w), (w, s) => Misleading(frames, w, s));
  }

  /** What a reader relies on: the buffer is the front of one frame, and all of it, with markers
      and trailer, when it is announced as good. */
  ghost predicate CompleteAtGet(frames: seq<Frame>, w: World) {
    && Whole(frames, w)
    && (w.v.status == Get ==>
          w.cur < |frames| && w.v.pktCnt == |frames[w.cur]| && RightImage(Flat(frames[w.cur])))
  }

  /** An aliasing packet with the right payload that ends its own frame but not the one being
      assembled, when the front so far happens to pass the check of a complete frame. */
  ghost predicate Truncating(frames: seq<Frame>, w: World, s: Step) {
    && Aliasing(frames, w, s) && w.cur < |frames| && s.j <= |frames[w.cur]|
    && w.v.frameLen + |frames[s.f][s.j - 1]| <= |w.v.cells|
    && frames[w.cur][s.j - 1] == frames[s.f][s.j - 1]
    && s.j == |frames[s.f]| && s.j != |frames[w.cur]|
    && RightImage(Flat(frames[w.cur][..s.j]))
  }

  /** When an appended packet makes the status GET. */
  lemma AppendGets(frames: seq<Frame>, v: Vbuf, cur: nat, data: seq<byte>)
    requires Assembled(frames, v, cur) && v.status == Copy && |data| >= HDR_LEN
    requires Assembled(frames, Append(v, data), cur)
    ensures var fits := v.frameLen + |data[HDR_LEN..]| <= |v.cells|;
      && Append(v, data).pktCnt == (if fits then v.pktCnt + 1 else v.pktCnt)
      && (Append(v, data).status == Get <==>
            fits && data[1] == 1 && RightImage(Flat(frames[cur][..v.pktCnt + 1])))
  {
    hide RightImage, Overlay, Flat;
  }

  lemma DeliverComplete(frames: seq<Frame>, w: World, f: nat, j: nat)
    requires FramesOk(frames) && CompleteAtGet(frames, w) && OfSender(frames, f, j)
    ensures CompleteAtGet(frames, Next(frames, w, Deliver(f, j)))
       <==> !Mixing(frames, w, Deliver(f, j)) && !Truncating(frames, w, Deliver(f, j))
  {
    hide Append, Flat, Packet, RightImage, FramesOk, Assembled;
    var data, w1 := Packet(frames, f, j), Next(frames, w, Deliver(f, j));
    PacketFacts(frames, f, j);
    DeliverWhole(frames, w, f, j);
    if Listening(w.v) && Whole(frames, w1) {
      if StartsFrame(w.v, data) {
        StartedOk(frames, w.v, f, j);
        AppendStarts(Restart(w.v, data), data);
        AppendGets(frames, Restart(w.v, data), f, data);
        WholeFrame(frames[f]);
      } else if Continues(w.v, data) {
        AssembledInRange(frames, w.v, w.cur);
        AppendStarts(w.v, data);
        AppendGets(frames, w.v, w.cur, data);
        AssembledInRange(frames, w1.v, w.cur);
        WholeFrame(frames[w.cur]);
      }
    }
  }

  lemma WholeFrame(frame: Frame)
    ensures frame[..|frame|] == frame
  {
  }

  lemma StepComplete(frames: seq<Frame>, w: World, s: Step)
    requires FramesOk(frames) && ReaderInv(w) && CompleteAtGet(frames, w)
    ensures CompleteAtGet(frames, Next(frames, w, s)) <==> !Mixing(frames, w, s) && !Truncating(frames, w, s)
  {
    hide Flat, RightImage;
    if s.Deliver? && OfSender(frames, s.f, s.j) {
      DeliverComplete(frames, w, s.f, s.j);
    }
  }

  /** Over any run: GET always means a complete frame, and the buffer is always the front of one,
      if and only if no step is mixing or truncating. */
  lemma CompleteUnlessTruncated(frames: seq<Frame>, steps: seq<Step>)
    requires FramesOk(frames)
    ensures (forall n :: 0 <= n <= |steps| ==> CompleteAtGet(frames, Run(frames, steps[..n])))
       <==> forall n :: 0 <= n < |steps| ==>
              !Mixing(frames, Run(frames, steps[..n]), steps[n]) && !Truncating(frames, Run(frames, steps[..n]), steps[n])
  {
    hide Next, Run, Mixing, Truncating, ReaderInv, FramesOk;
    forall w, s | ReaderInv(w) && CompleteAtGet(frames, w)
      ensures CompleteAtGet(frames, Next(frames, w, s)) <==> !(Mixing(frames, w, s) || Truncating(frames, w, s))
    {
      StepComplete(frames, w, s);
    }
    HoldsUnless(frames, steps, w => CompleteAtGet(frames, w),
                (w, s) => Mixing(frames, w, s) || Truncating(frames, w, s));
  }

  /** On every run in which no packet misleads, whatever else was lost, repeated or reordered:
      while a frame is being copied the buffer holds exactly the concatenation of its first
      packets; a buffer announced as good holds a complete frame with both markers and the right
      length trailer; one announced as full or wrong really is. */
  lemma ReassemblyCorrect(frames: seq<Frame>, steps: seq<Step>)
    requires FramesOk(frames)
    requires forall n :: 0 <= n < |steps| ==> !Misleading(frames, Run(frames, steps[..n]), steps[n])
    ensures var w := Run(frames, steps);
      w.v.status != Init ==>
        && w.cur < |frames| && w.v.pktCnt <= |frames[w.cur]| && w.v.frameLen <= |w.v.cells|
        && w.v.cells[..w.v.frameLen] == Flat(frames[w.cur][..w.v.pktCnt])
        && (w.v.status == Get ==> w.v.pktCnt == |frames[w.cur]| && CompleteImage(Flat(frames[w.cur])))
        && (w.v.status == Err ==> w.v.pktCnt == |frames[w.cur]| && !CompleteImage(Flat(frames[w.cur])))
        && (w.v.status == Full ==> |Flat(frames[w.cur])| > |w.v.cells|)
  {
    RightUnlessMisled(frames, steps);
    hide Run, Right, CompleteImage, FramesOk, Misleading, Flat;
    assert steps[..|steps|] == steps;
    assert Right(frames, Run(frames, steps[..|steps|]));
    if Run(frames, steps).v.status != Init {
      RightMeans(frames, Run(frames, steps));
    }
  }

  lemma RightMeans(frames: seq<Frame>, w: World)
    requires Right(frames, w) && w.v.status != Init
    ensures w.cur < |frames| && w.v.pktCnt <= |frames[w.cur]| && w.v.frameLen <= |w.v.cells|
    ensures w.v.cells[..w.v.frameLen] == Flat(frames[w.cur][..w.v.pktCnt])
    ensures w.v.status == Get ==> w.v.pktCnt == |frames[w.cur]| && CompleteImage(Flat(frames[w.cur]))
    ensures w.v.status == Err ==> w.v.pktCnt == |frames[w.cur]| && !CompleteImage(Flat(frames[w.cur]))
    ensures w.v.status == Full ==> |Flat(frames[w.cur])| > |w.v.cells|
  {
    hide RightImage, CompleteImage, Flat;
    if w.v.status == Full {
      FlatGrows(frames[w.cur], w.v.pktCnt + 1);
    } else {
      RightImageIs(Flat(frames[w.cur]));
    }
  }

  /** Some delivered packet was packet j of its frame, with the payload of packet j of frame cur. */
  ghost predicate Brought(frames: seq<Frame>, log: seq<(nat, nat)>, cur: nat, j: nat)
    requires cur < |frames| && 1 <= j <= |frames[cur]|
  {
    exists x :: x in log && x.1 == j && OfSender(frames, x.0, j) && frames[x.0][j - 1] == frames[cur][j - 1]
  }

  /** All payloads in the buffer were delivered after it was armed. */
  ghost predicate Recent(frames: seq<Frame>, w: World) {
    w.armedAt <= |w.log| && (w.v.status != Init ==>
      && w.cur < |frames| && w.v.pktCnt <= |frames[w.cur]|
      && forall j :: 1 <= j <= w.v.pktCnt ==> Brought(frames, w.log[w.armedAt..], w.cur, j))
  }

  lemma BroughtStays(frames: seq<Frame>, log: seq<(nat, nat)>, x: (nat, nat), cur: nat, j: nat)
    requires cur < |frames| && 1 <= j <= |frames[cur]|
    ensures Brought(frames, log, cur, j) ==> Brought(frames, log + [x], cur, j)
    ensures x.1 == j && OfSender(frames, x.0, j) && frames[x.0][j - 1] == frames[cur][j - 1] ==>
      Brought(frames, log + [x], cur, j)
  {
    if Brought(frames, log, cur, j) {
      var y :| y in log && y.1 == j && OfSender(frames, y.0, j) && frames[y.0][j - 1] == frames[cur][j - 1];
      assert y in log + [x];
    }
    assert x in log + [x];
  }

  lemma AppendCounts(v: Vbuf, data: seq<byte>)
    requires |data| >= HDR_LEN
    ensures Append(v, data).pktCnt == if v.frameLen + |data[HDR_LEN..]| <= |v.cells| then v.pktCnt + 1 else v.pktCnt
    ensures Append(v, data).status != Init || v.status == Init
  {
  }

  /** The packet that a delivery adds to the buffer, if it adds one. */
  lemma DeliverAdds(frames: seq<Frame>, w: World, f: nat, j: nat)
    requires FramesOk(frames) && OfSender(frames, f, j) && Whole(frames, w) && !Mixing(frames, w, Deliver(f, j))
    requires w.v.armed || w.v.status == Init
    ensures var w1 := Next(frames, w, Deliver(f, j));
      w1.v.status != Init ==>
        || (w.v.status != Init && w1.cur == w.cur && w1.v.pktCnt == w.v.pktCnt)
        || w1.v.pktCnt == 0
        || (w1.v.pktCnt == j && w1.cur < |frames| && j <= |frames[w1.cur]| && frames[f][j - 1] == frames[w1.cur][j - 1]
            && (j == 1 || (w.v.status != Init && w1.cur == w.cur && w.v.pktCnt == j - 1)))
  {
    hide Append, Flat, Packet, RightImage, FramesOk, Assembled, Overlay;
    var data := Packet(frames, f, j);
    PacketFacts(frames, f, j);
    if Listening(w.v) {
      if StartsFrame(w.v, data) {
        StartedOk(frames, w.v, f, j);
        AppendCounts(Restart(w.v, data), data);
      } else if Continues(w.v, data) {
        AppendCounts(w.v, data);
        AssembledInRange(frames, w.v, w.cur);
      }
    }
  }

  lemma DeliverRecent(frames: seq<Frame>, w: World, f: nat, j: nat)
    requires FramesOk(frames) && ReaderInv(w) && OfSender(frames, f, j) && Recent(frames, w)
    requires Whole(frames, w) && !Mixing(frames, w, Deliver(f, j)) && Whole(frames, Next(frames, w, Deliver(f, j)))
    ensures Recent(frames, Next(frames, w, Deliver(f, j)))
  {
    hide Recv, Packet, RightImage, FramesOk, Mixing, Flat, Brought;
    var w1, log := Next(frames, w, Deliver(f, j)), w.log[w.armedAt..];
    LogGrows(w, (f, j));
    DeliverAdds(frames, w, f, j);
    if w1.v.status != Init {
      forall i | 1 <= i <= w1.v.pktCnt
        ensures Brought(frames, w1.log[w1.armedAt..], w1.cur, i)
      {
        BroughtStays(frames, log, (f, j), w1.cur, i);
      }
    }
  }

  lemma NextKeepsRecent(frames: seq<Frame>, w: World, s: Step)
    requires FramesOk(frames) && ReaderInv(w) && Whole(frames, w) && Recent(frames, w) && !Mixing(frames, w, s)
    ensures Whole(frames, Next(frames, w, s)) && Recent(frames, Next(frames, w, s))
  {
    hide Flat, RightImage, Brought, Assembled, FramesOk;
    StepWhole(frames, w, s);
    if s.Deliver? && OfSender(frames, s.f, s.j) {
      DeliverRecent(frames, w, s.f, s.j);
    }
  }

  lemma {:induction false} RecentSoFar(frames: seq<Frame>, steps: seq<Step>, n: nat)
    requires FramesOk(frames) && n <= |steps|
    requires forall m :: 0 <= m < n ==> !Mixing(frames, Run(frames, steps[..m]), steps[m])
    ensures Whole(frames, Run(frames, steps[..n])) && Recent(frames, Run(frames, steps[..n]))
  {
    hide Next, Mixing, ReaderInv, FramesOk, Assembled, Brought;
    if n > 0 {
      RecentSoFar(frames, steps, n - 1);
      ReaderAlways(frames, steps[..n - 1]);
      PrefixRun(frames, steps, n - 1);
      NextKeepsRecent(frames, Run(frames, steps[..n - 1]), steps[n - 1]);
    }
  }

  /** On every run without exception: the semaphore never holds more than one token, an armed
      buffer is signalled at most once, a reader that was woken finds a decided frame, and the
      unknown error never occurs. If no step was mixing or truncating, a read that reports success
      returns exactly one frame of the sender, checked, all of whose payloads were delivered after
      this read armed its buffer; in the frame's own packets if none was taken for one of another
      frame. */
  lemma HandshakeCorrect(frames: seq<Frame>, steps: seq<Step>)
    ensures var w := Run(frames, steps);
      && w.v.sem <= 1 && w.signals <= 1 && w.armedAt <= |w.log|
      && (w.reader == Woken ==> Final(w.v.status))
      && (w.reader.Judged? ==> w.reader.err == 0 || w.reader.err == -2 || w.reader.err == -3 || w.reader.err == -5)
      && (w.reader.Judged? && w.reader.err == 0 ==> w.v.status == Get && w.reader.len == w.v.frameLen <= |w.v.cells|)
      && (w.reader.Judged? && w.reader.err == -2 ==> w.v.status == Full)
      && (w.reader.Judged? && w.reader.err == -3 ==> w.v.status == Err)
    ensures var w := Run(frames, steps);
      FramesOk(frames) && w.reader.Judged? && w.reader.err == 0
      && (forall n :: 0 <= n < |steps| ==>
            !Mixing(frames, Run(frames, steps[..n]), steps[n]) && !Truncating(frames, Run(frames, steps[..n]), steps[n])) ==>
        && w.cur < |frames|
        && w.v.cells[..w.reader.len] == Flat(frames[w.cur]) && CompleteImage(Flat(frames[w.cur]))
        && (forall j :: 1 <= j <= |frames[w.cur]| ==> Brought(frames, w.log[w.armedAt..], w.cur, j))
        && (NeverAliased(frames, steps) ==> forall j :: 1 <= j <= |frames[w.cur]| ==> (w.cur, j) in w.log[w.armedAt..])
  {
    ReaderAlways(frames, steps);
    hide Run, RightImage, CompleteImage, FramesOk, NeverAliased, Mixing, Truncating, Brought;
    var w := Run(frames, steps);
    assert steps[..|steps|] == steps;
    if FramesOk(frames) && w.v.status == Get
       && forall n :: 0 <= n < |steps| ==>
            !Mixing(frames, Run(frames, steps[..n]), steps[n]) && !Truncating(frames, Run(frames, steps[..n]), steps[n]) {
      CompleteUnlessTruncated(frames, steps);
      assert CompleteAtGet(frames, Run(frames, steps[..|steps|]));
      RecentSoFar(frames, steps, |steps|);
      WholeFrame(frames[w.cur]);
      RightImageIs(Flat(frames[w.cur]));
      if NeverAliased(frames, steps) {
        BufferAlways(frames, steps);
      }
    }
  }

  // ---------------------------------------------------------------- a sender that is never aliased

  /** The number of the last first packet delivered, -1 if there was none. */
  ghost function LastFirst(log: seq<(nat, nat)>): int {
    if log == [] then -1
    else if log[|log| - 1].1 == 1 then log[|log| - 1].0
    else LastFirst(log[..|log| - 1])
  }

  /** The delivery is in the sender's order, and of the 256 frames up to this one the first
      packet of at least one was delivered. */
  ghost predicate Orderly(frames: seq<Frame>, w: World, s: Step) {
    s.Deliver? && OfSender(frames, s.f, s.j) ==>
      && (w.log != [] ==> var (f, j) := w.log[|w.log| - 1]; f < s.f || (f == s.f && j < s.j))
      && (LastFirst(w.log) >= 0 ==> s.f - LastFirst(w.log) < 256)
  }

  ghost predicate OrderInv(w: World) {
    w.v.status == Copy ==> w.cur == LastFirst(w.log) && w.log != [] && w.log[|w.log| - 1].0 >= w.cur
  }

  lemma LastFirstSnoc(log: seq<(nat, nat)>, x: (nat, nat))
    ensures LastFirst(log + [x]) == if x.1 == 1 then x.0 else LastFirst(log)
  {
    assert (log + [x])[..|log|] == log;
  }

  lemma RecvCopies(v: Vbuf, data: seq<byte>)
    requires |data| >= HDR_LEN && Recv(v, data).status == Copy && Listening(v)
    ensures StartsFrame(v, data) || v.status == Copy
  {
  }

  lemma OrderlyStep(frames: seq<Frame>, w: World, s: Step)
    requires FramesOk(frames) && Whole(frames, w) && ReaderInv(w) && OrderInv(w) && Orderly(frames, w, s)
    ensures !Aliasing(frames, w, s) && OrderInv(Next(frames, w, s))
  {
    hide Recv, Packet, LastFirst, Flat;
    if s.Deliver? && OfSender(frames, s.f, s.j) {
      PacketFacts(frames, s.f, s.j);
      var data := Packet(frames, s.f, s.j);
      LastFirstSnoc(w.log, (s.f, s.j));
      RecvSignals(w.v, data);
      if Listening(w.v) && Recv(w.v, data).status == Copy {
        RecvCopies(w.v, data);
      }
      if w.v.status == Copy && s.f % 256 == w.cur % 256 {
        assert 0 <= s.f - w.cur < 256;
      }
    }
  }

  lemma {:induction false} OrderlySoFar(frames: seq<Frame>, steps: seq<Step>, n: nat)
    requires FramesOk(frames) && n <= |steps|
    requires forall m :: 0 <= m < n ==> Orderly(frames, Run(frames, steps[..m]), steps[m])
    ensures OrderInv(Run(frames, steps[..n]))
    ensures forall m :: 0 <= m < n ==> !Aliasing(frames, Run(frames, steps[..m]), steps[m])
  {
    hide Next, Aliasing, ReaderInv, FramesOk, OrderInv, Orderly, Whole;
    if n == 0 {
      assert OrderInv(Run(frames, steps[..0])) by { StartOrdered(frames, steps); }
    } else {
      OrderlySoFar(frames, steps, n - 1);
      var w := Run(frames, steps[..n - 1]);
      assert forall m :: 0 <= m < n - 1 ==> !Mixing(frames, Run(frames, steps[..m]), steps[m]);
      WholeSoFar(frames, steps, n - 1);
      ReaderAlways(frames, steps[..n - 1]);
      PrefixRun(frames, steps, n - 1);
      OrderlyStep(frames, w, steps[n - 1]);
    }
  }

  lemma StartOrdered(frames: seq<Frame>, steps: seq<Step>)
    ensures OrderInv(Run(frames, steps[..0]))
  {
  }

  /** Over channels that keep the order, no packet is taken for one of another frame as long as
      the first packets of 256 frames in a row are not all lost. */
  lemma OrderlyNeverAliased(frames: seq<Frame>, steps: seq<Step>)
    requires FramesOk(frames)
    requires forall n :: 0 <= n < |steps| ==> Orderly(frames, Run(frames, steps[..n]), steps[n])
    ensures NeverAliased(frames, steps)
  {
    hide Run, Aliasing, FramesOk, Orderly;
    OrderlySoFar(frames, steps, |steps|);
  }

  /** One step in detail: a packet of another frame is taken as the continuation exactly when
      the frame numbers agree modulo 256 and the packet number is the expected one. */
  lemma MixesExactlyOnAlias(frames: seq<Frame>, v: Vbuf, cur: nat, f: nat, j: nat)
    requires FramesOk(frames) && f < |frames| && f != cur && 1 <= j <= |frames[f]|
    requires cur < |frames| && Assembled(frames, v, cur) && v.status == Copy && v.armed && v.pktCnt > 0
    requires v.pktCnt < |frames[cur]|
    ensures var v1, p := Recv(v, Packet(frames, f, j)), frames[f][j - 1];
      (v1.pktCnt == v.pktCnt + 1 && v1.frameId == v.frameId && v1.frameLen == v.frameLen + |p|
        && v1.cells == Overlay(v.cells, v.frameLen, p))
      <==> f % 256 == cur % 256 && j == v.pktCnt + 1 < 256 && v.frameLen + |p| <= |v.cells|
  {
    hide RightImage, Flat, Le32;
    assert 1 <= |frames[f]| <= 256 && 1 <= |frames[cur]| <= 256;
    var data := Packet(frames, f, j);
    assert data[HDR_LEN..] == frames[f][j - 1];
  }

  lemma RunSnoc(frames: seq<Frame>, steps: seq<Step>, s: Step)
    ensures Run(frames, steps + [s]) == Next(frames, Run(frames, steps), s)
  {
    assert (steps + [s])[..|steps|] == steps;
  }

  /** The state after arming and the first packet of frame 0. */
  lemma FirstTaken(frames: seq<Frame>, cells: seq<byte>)
    requires FramesOk(frames) && |frames| > 0 && |frames[0]| >= 2 && |frames[0][0]| < |cells|
    ensures var w := Run(frames, [Drain, Arm(cells), Deliver(0, 1)]);
      && w.cur == 0 && w.v.armed && w.v.status == Copy && w.v.frameId == 0 && w.v.pktCnt == 1
      && w.v.frameLen == |frames[0][0]| && |w.v.cells| == |cells|
  {
    RunSnoc(frames, [], Drain);
    assert [] + [Drain] == [Drain];
    RunSnoc(frames, [Drain], Arm(cells));
    assert [Drain] + [Arm(cells)] == [Drain, Arm(cells)];
    RunSnoc(frames, [Drain, Arm(cells)], Deliver(0, 1));
    assert [Drain, Arm(cells)] + [Deliver(0, 1)] == [Drain, Arm(cells), Deliver(0, 1)];
    PacketFacts(frames, 0, 1);
  }

  /** Loss alone can mix frames: of any sender whose frames 0 and 256 have different second
      packets, those two packets are mixed when everything else in between is lost. */
  lemma LossCanMix(frames: seq<Frame>)
    requires FramesOk(frames) && |frames| > 256 && |frames[0]| >= 2 && |frames[256]| >= 2
    requires frames[0][1] != frames[256][1]
    ensures exists steps, s :: Mixing(frames, Run(frames, steps), s)
  {
    var zero: byte := 0;
    var cells := seq(|frames[0][0]| + |frames[256][1]| + 1, _ => zero);
    var steps := [Drain, Arm(cells), Deliver(0, 1)];
    FirstTaken(frames, cells);
    PacketFacts(frames, 256, 2);
    assert Mixing(frames, Run(frames, steps), Deliver(256, 2));
  }

  /** Loss alone can also cut a frame short: when frame 256 ends after the second packet with the
      payload that frame 0 has there, and those two packets pass for an image, GET announces them
      although frame 0 goes on. */
  lemma LossCanTruncate(frames: seq<Frame>)
    requires FramesOk(frames) && |frames| > 256 && |frames[0]| > 2 && |frames[256]| == 2
    requires frames[0][1] == frames[256][1] && RightImage(Flat(frames[0][..2]))
    ensures exists steps, s :: Truncating(frames, Run(frames, steps), s)
  {
    hide Flat, RightImage;
    var zero: byte := 0;
    var cells := seq(|frames[0][0]| + |frames[256][1]| + 1, _ => zero);
    var steps := [Drain, Arm(cells), Deliver(0, 1)];
    FirstTaken(frames, cells);
    PacketFacts(frames, 256, 2);
    assert Truncating(frames, Run(frames, steps), Deliver(256, 2));
  }

  /** With no callback in between, the reader's code is these steps in a row. */
  lemma ReaderCodeIsSteps(frames: seq<Frame>, w: World, cells: seq<byte>)
    requires cells != []
    ensures w.reader == Idle ==>
      Next(frames, Next(frames, w, Drain), Arm(cells)).v == w.v.(sem := 0, armed := true, cells := cells)
    ensures w.reader == Waiting && w.v.sem > 0 ==>
      var w1 := Next(frames, Next(frames, w, Take), Judge);
      && w1.reader.Judged? && w1.reader.err == ErrorCode(w.v)
      && Next(frames, w1, Disarm).v == w.v.(sem := w.v.sem - 1, armed := false, cells := [], status := Init)
    ensures w.reader == Waiting ==>
      var w1 := Next(frames, Next(frames, w, Expire), Judge);
      && w1 == w.(reader := Judged(-5, 0))
      && Next(frames, w1, Disarm).v == w.v.(armed := false, cells := [], status := Init)
  {
  }

  // ---------------------------------------------------------------- the code

  /** The sending side: g_pkt_seq and the header it produces. */
  class PacketCounter {
    var pktSeq: u32

    constructor ()
      ensures pktSeq == 0
    {
      pktSeq := 0;
    }

    /** video_buffer_add_pkt_header: called for the packets of one frame after another, it
        numbers them as Packet assumes and starts over after the last. */
    method AddPktHeader(frameId: u32, isEof: bool, frameLen: u32, ghost frames: seq<Frame>) returns (hdr: seq<byte>)
      requires frameId < |frames| && pktSeq < |frames[frameId]| < 0x1_0000_0000
      requires isEof <==> pktSeq + 1 == |frames[frameId]|
      modifies this
      ensures |hdr| == HDR_LEN && hdr[2] == frameLen % 256
      ensures var p := Packet(frames, frameId, old(pktSeq) + 1);
        hdr[0] == p[0] && hdr[1] == p[1] && hdr[3] == p[3]
      ensures pktSeq == if isEof then 0 else old(pktSeq) + 1
    {
      pktSeq := Wrap(pktSeq + 1);
      hdr := [frameId % 256, if isEof then 1 else 0, frameLen % 256, pktSeq % 256];
      if isEof {
        pktSeq := 0;
      }
    }
  }

  /** g_vbuf with the reader's buffer on the heap. */
  class Receiver {
    var bufBase: array?<byte>
    var frameId: nat
    var framePktCnt: nat
    var frameLen: nat
    var startBuf: Status
    var sem: nat

    ghost predicate Valid()
      reads this
    {
      if bufBase == null then startBuf == Init
      else startBuf == Copy || startBuf == Get ==> frameLen <= bufBase.Length
    }

    ghost function Value(): Vbuf
      reads this, bufBase
    {
      Vbuf(bufBase != null, if bufBase == null then [] else bufBase[..], frameId, framePktCnt, frameLen, startBuf, sem)
    }

    /** video_buffer_open. */
    constructor ()
      ensures Valid() && Value() == Start().v
    {
      bufBase, frameId, framePktCnt, frameLen, startBuf, sem := null, 0xFFFF, 0, 0, Init, 0;
    }

    /** The check after the last packet of a frame, and the signal to the reader. */
    method JudgeFrame()
      requires bufBase != null && frameLen <= bufBase.Length
      modifies `startBuf, `sem
      ensures startBuf == if RightImage(bufBase[..frameLen]) then Get else Err
      ensures startBuf == Get <==> CompleteImage(bufBase[..frameLen])
      ensures sem == old(sem) + 1
    {
      RightImageIs(bufBase[..frameLen]);
      hide CompleteImage;
      var rightImage, n := false, frameLen;
      if n >= 7 && bufBase[0] == 0xFF && bufBase[1] == 0xD8 && bufBase[n - 7] == 0xFF && bufBase[n - 6] == 0xD9 {
        assert bufBase[..n][n - 4..] == bufBase[n - 4..n];
        var pLen := Le32(bufBase[n - 4..n]);
        if pLen == n - 5 {
          rightImage := true;
        }
      }
      startBuf := if rightImage then Get else Err;
      sem := sem + 1;
    }

    /** The expected packet: copied behind the others and judged if it is the last, or too long. */
    method TakePacket(data: seq<byte>)
      requires Valid() && bufBase != null && startBuf == Copy && |data| >= HDR_LEN
      modifies this`startBuf, this`sem, this`frameLen, this`framePktCnt, bufBase
      ensures Valid() && Value() == Append(old(Value()), data)
    {
      hide RightImage, Le32, Overlay;
      var orgLen := |data| - HDR_LEN;
      var leftLen := bufBase.Length - frameLen;
      if orgLen <= leftLen {
        Ring.MemCpy(bufBase, frameLen, data[HDR_LEN..]);
        frameLen := frameLen + orgLen;
        framePktCnt := framePktCnt + 1;
        if data[1] == 1 {
          JudgeFrame();
        }
      } else {
        startBuf := Full;
        sem := sem + 1;
      }
    }

    method RecvVideoData(data: seq<byte>)
      requires Valid()
      modifies this, bufBase
      ensures Valid() && bufBase == old(bufBase) && Value() == Recv(old(Value()), data)
    {
      hide Append;
      if bufBase != null && (startBuf == Copy || startBuf == Init) {
        if |data| < HDR_LEN {
          return;
        }
        if data[0] != frameId && data[3] == 1 {
          frameId := data[0];
          frameLen := 0;
          framePktCnt := 0;
          startBuf := Copy;
        }
        if data[0] == frameId && framePktCnt + 1 == data[3] && startBuf == Copy {
          TakePacket(data);
        }
      }
    }

    /** video_buffer_read_frame up to the wait: stale tokens are taken, then the buffer armed. */
    method Arm(buf: array<byte>)
      requires Valid() && bufBase == null && buf.Length > 0
      modifies this
      ensures Valid() && bufBase == buf
      ensures Value() == old(Value()).(sem := 0, armed := true, cells := buf[..])
    {
      while sem > 0
        invariant Valid() && bufBase == null && Value() == old(Value()).(sem := sem)
      {
        sem := sem - 1;
      }
      bufBase := buf;
    }

    /** video_buffer_read_frame from the wait on; `inTime` is whether it ended before the timeout. */
    method Conclude(inTime: bool) returns (err: int, len: nat)
      requires Valid() && bufBase != null && (inTime ==> sem > 0)
      modifies this
      ensures Valid() && bufBase == null
      ensures err == (if inTime then ErrorCode(old(Value())) else -5)
      ensures inTime ==> (err == 0 <==> old(startBuf) == Get) && (err == -2 <==> old(startBuf) == Full)
                         && (err == -3 <==> old(startBuf) == Err)
      ensures len == if err == 0 then old(Value()).frameLen else 0
      ensures Value() == old(Value()).(sem := if inTime then old(sem) - 1 else old(sem),
                                       armed := false, cells := [], status := Init)
    {
      len := 0;
      if inTime {
        sem := sem - 1;
        match startBuf
        case Get =>
          len := frameLen;
          err := 0;
        case Full => err := -2;
        case Err => err := -3;
        case _ => err := -4;
      } else {
        err := -5;
      }
      startBuf := Init;
      if len >= bufBase.Length {
        len := bufBase.Length;
      }
      bufBase := null;
    }
  }
}
