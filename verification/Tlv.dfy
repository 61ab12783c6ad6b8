/** app/net_work/video_demo_softap.c: the nested type-length-value search over the user
    configuration in flash, and the reader of the general parameters built on it. */
module Tlv {
  import opened Words
  import opened Seqs

  const HEAD := 8
  const BK_TLV_HEADER: u32 := 0x00564c54
  const ARCH_CONFIG_GENERAL: u32 := 0

  const GENERAL_TYPE_ROLE: u32 := 0
  const GENERAL_TYPE_DHCP: u32 := 1
  const GENERAL_TYPE_IP: u32 := 2
  const GENERAL_TYPE_MASK: u32 := 3
  const GENERAL_TYPE_GW: u32 := 4

  // ---------------------------------------------------------------- images

  datatype RecordValue = Record(kind: u32, payload: seq<byte>)

  type Rec = r: RecordValue | |r.payload| < 0x1_0000_0000 witness Record(0, [])

  /** A record as it lies in flash: type and length, little-endian, then the payload. */
  function Encode(r: Rec): (b: seq<byte>)
    ensures |b| == HEAD + |r.payload|
  {
    ToLe32(r.kind) + ToLe32(|r.payload|) + r.payload
  }

  function EncodeAll(rs: seq<Rec>): seq<byte> {
    if rs == [] then [] else Encode(rs[0]) + EncodeAll(rs[1..])
  }

  /** At `start` lies a record, of any type, whose payload is the records `rs`. */
  ghost predicate Holds(flash: seq<byte>, start: nat, rs: seq<Rec>) {
    && start + HEAD + |EncodeAll(rs)| <= |flash| < 0x1_0000_0000
    && HeadLen(flash, start) == |EncodeAll(rs)|
    && flash[start + HEAD..start + HEAD + |EncodeAll(rs)|] == EncodeAll(rs)
  }

  /** Index of the first record of a type, or the number of records. */
  function FirstOf(rs: seq<Rec>, kind: u32): (i: nat)
    ensures i <= |rs|
    ensures i < |rs| ==> rs[i].kind == kind
    ensures forall j :: 0 <= j < i ==> rs[j].kind != kind
  {
    if rs == [] || rs[0].kind == kind then 0 else 1 + FirstOf(rs[1..], kind)
  }

  ghost predicate Present(rs: seq<Rec>, kind: u32) {
    exists r :: r in rs && r.kind == kind
  }

  lemma FirstIfPresent(rs: seq<Rec>, kind: u32)
    ensures Present(rs, kind) <==> FirstOf(rs, kind) < |rs|
  {
    if FirstOf(rs, kind) < |rs| {
      assert rs[FirstOf(rs, kind)] in rs;
    }
  }

  /** Offset of record `i` inside the container's payload. */
  function OffsetOf(rs: seq<Rec>, i: nat): nat
    requires i <= |rs|
  {
    if i == 0 then 0 else HEAD + |rs[0].payload| + OffsetOf(rs[1..], i - 1)
  }

  // ---------------------------------------------------------------- the search

  function HeadKind(flash: seq<byte>, addr: nat): u32
    requires addr + HEAD <= |flash|
  {
    Le32(flash[addr..addr + 4])
  }

  function HeadLen(flash: seq<byte>, addr: nat): u32
    requires addr + HEAD <= |flash|
  {
    Le32(flash[addr + 4..addr + 8])
  }

  /** The next address the loop tries, in 32 bits. */
  function After(flash: seq<byte>, addr: nat): u32
    requires addr + HEAD <= |flash|
  {
    Wrap(addr + HEAD + HeadLen(flash, addr))
  }

  function EndOf(flash: seq<byte>, start: u32): u32
    requires start + HEAD <= |flash|
  {
    Wrap(Wrap(start + HEAD) + HeadLen(flash, start))
  }

  /** The loop, entered at `addr`, leaves after at most `n` advances, all heads within flash. */
  ghost predicate Ends(flash: seq<byte>, kind: u32, addr: u32, end: u32, n: nat)
    decreases n
  {
    || addr >= end
    || (addr + HEAD <= |flash|
        && (HeadKind(flash, addr) == kind || (n > 0 && Ends(flash, kind, After(flash, addr), end, n - 1))))
  }

  /** Where it leaves. */
  ghost function Walk(flash: seq<byte>, kind: u32, addr: u32, end: u32, n: nat): u32
    requires Ends(flash, kind, addr, end, n)
    decreases n
  {
    if addr >= end then 0
    else if HeadKind(flash, addr) == kind then addr
    else Walk(flash, kind, After(flash, addr), end, n - 1)
  }

  /** search_by_type, wherever its loop terminates. */
  method SearchByType(flash: seq<byte>, kind: u32, start: u32, ghost n: nat) returns (addr: u32)
    requires start + HEAD <= |flash|
    requires Ends(flash, kind, Wrap(start + HEAD), EndOf(flash, start), n)
    ensures addr == Walk(flash, kind, Wrap(start + HEAD), EndOf(flash, start), n)
    ensures addr != 0 ==> addr + HEAD <= |flash| && HeadKind(flash, addr) == kind
  {
    hide HeadKind, HeadLen, Wrap;
    addr := Wrap(start + HEAD);
    var end := Wrap(addr + HeadLen(flash, start));
    ghost var k := n;
    while addr < end
      invariant Ends(flash, kind, addr, end, k)
      invariant Walk(flash, kind, addr, end, k) == Walk(flash, kind, Wrap(start + HEAD), EndOf(flash, start), n)
      invariant addr < end ==> addr + HEAD <= |flash|
      decreases k
    {
      if kind == HeadKind(flash, addr) {
        break;
      }
      WrapAdd(addr + HEAD, HeadLen(flash, addr));
      var len := HeadLen(flash, addr);
      addr := Wrap(addr + HEAD);
      addr := Wrap(addr + len);
      k := k - 1;
    }
    if addr >= end {
      addr := 0;
    }
  }

  // ---------------------------------------------------------------- the search finds the first record

  lemma SliceOfSlice<T>(s: seq<T>, a: nat, b: nat, i: nat, j: nat)
    requires i <= j <= b - a && b <= |s|
    ensures s[a..b][i..j] == s[a + i..a + j]
  {
    var l, r := s[a..b][i..j], s[a + i..a + j];
    assert forall k :: 0 <= k < j - i ==> l[k] == r[k];
  }

  lemma HeadOfRecord(flash: seq<byte>, addr: nat, r: Rec)
    requires addr + HEAD + |r.payload| <= |flash|
    requires flash[addr..addr + HEAD + |r.payload|] == Encode(r)
    ensures HeadKind(flash, addr) == r.kind && HeadLen(flash, addr) == |r.payload|
    ensures flash[addr + HEAD..addr + HEAD + |r.payload|] == r.payload
  {
    var e := Encode(r);
    ToLe32RoundTrip(r.kind);
    ToLe32RoundTrip(|r.payload|);
    assert e[0..4] == ToLe32(r.kind) && e[4..8] == ToLe32(|r.payload|) && e[8..|e|] == r.payload;
    SliceOfSlice(flash, addr, addr + |e|, 0, 4);
    SliceOfSlice(flash, addr, addr + |e|, 4, 8);
    SliceOfSlice(flash, addr, addr + |e|, 8, |e|);
  }

  lemma SplitRecords(flash: seq<byte>, addr: nat, end: nat, rs: seq<Rec>)
    requires addr <= end <= |flash| && flash[addr..end] == EncodeAll(rs) && rs != []
    ensures var next := addr + HEAD + |rs[0].payload|;
      next <= end && flash[addr..next] == Encode(rs[0]) && flash[next..end] == EncodeAll(rs[1..])
  {
    var e := Encode(rs[0]);
    assert EncodeAll(rs) == e + EncodeAll(rs[1..]);
    var next := addr + |e|;
    assert flash[addr..end][..|e|] == flash[addr..next] && flash[addr..end][|e|..] == flash[next..end];
  }

  lemma {:induction false} WalkFinds(flash: seq<byte>, kind: u32, addr: u32, end: u32, rs: seq<Rec>)
    requires 0 < addr <= end <= |flash| < 0x1_0000_0000
    requires flash[addr..end] == EncodeAll(rs)
    ensures Ends(flash, kind, addr, end, |rs|)
    ensures var i := FirstOf(rs, kind);
      if i == |rs| then Walk(flash, kind, addr, end, |rs|) == 0
      else
        var at := addr + OffsetOf(rs, i);
        && Walk(flash, kind, addr, end, |rs|) == at
        && at + HEAD + |rs[i].payload| <= |flash|
        && flash[at..at + HEAD + |rs[i].payload|] == Encode(rs[i])
    decreases |rs|
  {
    hide Encode, EncodeAll, HeadKind, HeadLen, Le32, ToLe32, After;
    if rs == [] {
      EmptyContainer(flash, addr, end);
    } else {
      SplitRecords(flash, addr, end, rs);
      HeadOfRecord(flash, addr, rs[0]);
      var next := addr + HEAD + |rs[0].payload|;
      AfterRecord(flash, addr, rs[0]);
      WalkFinds(flash, kind, next, end, rs[1..]);
      assert rs[0].kind != kind && FirstOf(rs[1..], kind) < |rs[1..]| ==>
        rs[FirstOf(rs, kind)] == rs[1..][FirstOf(rs[1..], kind)];
    }
  }

  lemma EmptyContainer(flash: seq<byte>, addr: nat, end: nat)
    requires addr <= end <= |flash| && flash[addr..end] == EncodeAll([])
    ensures addr == end
  {
  }

  lemma AfterRecord(flash: seq<byte>, addr: u32, r: Rec)
    requires addr + HEAD + |r.payload| <= |flash| < 0x1_0000_0000 && HeadLen(flash, addr) == |r.payload|
    ensures After(flash, addr) == addr + HEAD + |r.payload|
  {
    hide HeadLen;
  }

  /** `addr` is where the first record of the type lies, whole, or 0 if there is none. */
  ghost predicate FirstRecordAt(flash: seq<byte>, start: nat, rs: seq<Rec>, kind: u32, addr: u32) {
    if !Present(rs, kind) then addr == 0
    else
      var i := FirstOf(rs, kind);
      && i < |rs|
      && addr == start + HEAD + OffsetOf(rs, i)
      && RecordAt(flash, addr, rs[i])
  }

  ghost predicate RecordAt(flash: seq<byte>, addr: nat, r: Rec) {
    && addr + HEAD + |r.payload| <= |flash|
    && HeadKind(flash, addr) == r.kind
    && HeadLen(flash, addr) == |r.payload|
    && flash[addr + HEAD..addr + HEAD + |r.payload|] == r.payload
  }

  lemma ContainerBounds(flash: seq<byte>, start: u32, rs: seq<Rec>)
    requires Holds(flash, start, rs)
    ensures Wrap(start + HEAD) == start + HEAD && EndOf(flash, start) == start + HEAD + |EncodeAll(rs)|
  {
    hide EncodeAll;
  }

  /** The search in a well-formed container: it terminates and returns the address of the first
      record of the type, or 0 if there is none. */
  lemma SearchFindsFirst(flash: seq<byte>, kind: u32, start: u32, rs: seq<Rec>)
    requires Holds(flash, start, rs)
    ensures Ends(flash, kind, Wrap(start + HEAD), EndOf(flash, start), |rs|)
    ensures FirstRecordAt(flash, start, rs, kind, Walk(flash, kind, Wrap(start + HEAD), EndOf(flash, start), |rs|))
  {
    hide Walk, Ends, EncodeAll, Encode, FirstOf, OffsetOf, HeadKind, HeadLen, Wrap, EndOf;
    var addr, end := start + HEAD, start + HEAD + |EncodeAll(rs)|;
    ContainerBounds(flash, start, rs);
    WalkFinds(flash, kind, addr, end, rs);
    FirstIfPresent(rs, kind);
    var i := FirstOf(rs, kind);
    if i < |rs| {
      HeadOfRecord(flash, addr + OffsetOf(rs, i), rs[i]);
    }
  }

  // ---------------------------------------------------------------- when the search ends

  /** The loop goes on from this address: in front of the end, with a head of another type. */
  ghost predicate GoesOn(flash: seq<byte>, kind: u32, addr: u32, end: u32) {
    addr < end && addr + HEAD <= |flash| && HeadKind(flash, addr) != kind
  }

  /** The address the loop tries after k advances, as long as it goes on. */
  ghost function Visit(flash: seq<byte>, kind: u32, addr: u32, end: u32, k: nat): u32 {
    if k == 0 then addr
    else
      var a := Visit(flash, kind, addr, end, k - 1);
      if GoesOn(flash, kind, a, end) then After(flash, a) else a
  }

  ghost predicate GoesOnFor(flash: seq<byte>, kind: u32, addr: u32, end: u32, n: nat) {
    forall k :: 0 <= k < n ==> GoesOn(flash, kind, Visit(flash, kind, addr, end, k), end)
  }

  ghost predicate NeverEnds(flash: seq<byte>, kind: u32, addr: u32, end: u32) {
    forall n: nat :: GoesOn(flash, kind, Visit(flash, kind, addr, end, n), end)
  }

  lemma {:induction false} VisitAfter(flash: seq<byte>, kind: u32, addr: u32, end: u32, k: nat)
    requires GoesOn(flash, kind, addr, end)
    ensures Visit(flash, kind, addr, end, k + 1) == Visit(flash, kind, After(flash, addr), end, k)
  {
    hide After;
    if k > 0 {
      VisitAfter(flash, kind, addr, end, k - 1);
    } else {
      assert Visit(flash, kind, addr, end, 0) == addr;
      assert Visit(flash, kind, addr, end, 1) == After(flash, addr);
    }
  }

  /** The two views of the loop agree: it goes on for ever, or ends, or leaves the flash. */
  lemma {:induction false} EndsWhereItStops(flash: seq<byte>, kind: u32, addr: u32, end: u32, n: nat)
    requires GoesOnFor(flash, kind, addr, end, n)
    ensures var a := Visit(flash, kind, addr, end, n);
      Ends(flash, kind, addr, end, n) <==> a >= end || (a + HEAD <= |flash| && HeadKind(flash, a) == kind)
    decreases n
  {
    hide HeadKind, After;
    if n > 0 {
      assert GoesOn(flash, kind, Visit(flash, kind, addr, end, 0), end);
      VisitAfter(flash, kind, addr, end, n - 1);
      var next := After(flash, addr);
      forall k | 0 <= k < n - 1
        ensures GoesOn(flash, kind, Visit(flash, kind, next, end, k), end)
      {
        VisitAfter(flash, kind, addr, end, k);
        assert GoesOn(flash, kind, Visit(flash, kind, addr, end, k + 1), end);
      }
      EndsWhereItStops(flash, kind, next, end, n - 1);
    }
  }

  /** The same address leads on the same way. */
  lemma {:induction false} SameFromThere(flash: seq<byte>, kind: u32, addr: u32, end: u32, i: nat, j: nat, k: nat)
    requires Visit(flash, kind, addr, end, i) == Visit(flash, kind, addr, end, j)
    ensures Visit(flash, kind, addr, end, i + k) == Visit(flash, kind, addr, end, j + k)
  {
    hide GoesOn, After;
    if k > 0 {
      SameFromThere(flash, kind, addr, end, i, j, k - 1);
    }
  }

  /** An address visited twice is visited for ever. */
  lemma {:induction false} CycleGoesOn(flash: seq<byte>, kind: u32, addr: u32, end: u32, i: nat, j: nat, n: nat)
    requires i < j && GoesOnFor(flash, kind, addr, end, j)
    requires Visit(flash, kind, addr, end, i) == Visit(flash, kind, addr, end, j)
    ensures GoesOn(flash, kind, Visit(flash, kind, addr, end, n), end)
    decreases n
  {
    hide GoesOn, Visit;
    if n >= j {
      SameFromThere(flash, kind, addr, end, i, j, n - j);
      CycleGoesOn(flash, kind, addr, end, i, j, n - (j - i));
    }
  }

  ghost predicate Repeats(flash: seq<byte>, kind: u32, addr: u32, end: u32, i: nat, j: nat) {
    i < j && Visit(flash, kind, addr, end, i) == Visit(flash, kind, addr, end, j)
  }

  ghost function Visited(flash: seq<byte>, kind: u32, addr: u32, end: u32, n: nat): set<int> {
    if n == 0 then {} else Visited(flash, kind, addr, end, n - 1) + {Visit(flash, kind, addr, end, n - 1) as int}
  }

  ghost predicate IsVisited(flash: seq<byte>, kind: u32, addr: u32, end: u32, n: nat, x: int) {
    exists i: nat :: i < n && Visit(flash, kind, addr, end, i) == x
  }

  lemma {:induction false} VisitedAre(flash: seq<byte>, kind: u32, addr: u32, end: u32, n: nat, x: int)
    requires x in Visited(flash, kind, addr, end, n)
    ensures IsVisited(flash, kind, addr, end, n, x)
  {
    hide Visit;
    if x == Visit(flash, kind, addr, end, n - 1) {
      assert IsVisited(flash, kind, addr, end, n, x);
    } else {
      VisitedAre(flash, kind, addr, end, n - 1, x);
      var i: nat :| i < n - 1 && Visit(flash, kind, addr, end, i) == x;
      assert i < n;
    }
  }

  lemma {:induction false} VisitedSize(flash: seq<byte>, kind: u32, addr: u32, end: u32, n: nat)
    requires forall i, j :: 0 <= i < j < n ==> !Repeats(flash, kind, addr, end, i, j)
    ensures |Visited(flash, kind, addr, end, n)| == n
  {
    hide Visit;
    if n > 0 {
      VisitedSize(flash, kind, addr, end, n - 1);
      var x: int := Visit(flash, kind, addr, end, n - 1);
      forall i | 0 <= i < n - 1
        ensures Visit(flash, kind, addr, end, i) != x
      {
        assert !Repeats(flash, kind, addr, end, i, n - 1);
      }
      assert !IsVisited(flash, kind, addr, end, n - 1, x);
      if x in Visited(flash, kind, addr, end, n - 1) {
        VisitedAre(flash, kind, addr, end, n - 1, x);
      }
    }
  }

  /** The numbers below n. */
  function Below(n: nat): set<int> {
    if n == 0 then {} else Below(n - 1) + {n - 1}
  }

  lemma {:induction false} BelowSize(n: nat)
    ensures |Below(n)| == n
    ensures forall x :: x in Below(n) <==> 0 <= x < n
  {
    if n > 0 {
      BelowSize(n - 1);
    }
  }

  lemma SubsetSize(a: set<int>, b: set<int>)
    requires a <= b
    ensures |a| <= |b|
  {
    assert b == a + (b - a);
  }

  /** The search never ends if and only if it comes back to an address it has tried. */
  lemma NeverEndsIffCycle(flash: seq<byte>, kind: u32, addr: u32, end: u32)
    ensures NeverEnds(flash, kind, addr, end) <==>
      exists i: nat, j: nat :: GoesOnFor(flash, kind, addr, end, j) && Repeats(flash, kind, addr, end, i, j)
  {
    hide GoesOn, Visit;
    if NeverEnds(flash, kind, addr, end) {
      var n := |flash| + 1;
      if forall i, j :: 0 <= i < j < n ==> !Repeats(flash, kind, addr, end, i, j) {
        VisitedSize(flash, kind, addr, end, n);
        BelowSize(|flash|);
        forall x | x in Visited(flash, kind, addr, end, n)
          ensures x in Below(|flash|)
        {
          VisitedAre(flash, kind, addr, end, n, x);
          var i: nat :| i < n && Visit(flash, kind, addr, end, i) == x;
          InFlash(flash, kind, Visit(flash, kind, addr, end, i), end);
        }
        SubsetSize(Visited(flash, kind, addr, end, n), Below(|flash|));
        assert false;
      }
      var i, j :| 0 <= i < j < n && Repeats(flash, kind, addr, end, i, j);
      assert GoesOnFor(flash, kind, addr, end, j);
    }
    if i: nat, j: nat :| GoesOnFor(flash, kind, addr, end, j) && Repeats(flash, kind, addr, end, i, j) {
      forall n: nat
        ensures GoesOn(flash, kind, Visit(flash, kind, addr, end, n), end)
      {
        CycleGoesOn(flash, kind, addr, end, i, j, n);
      }
    }
  }

  lemma InFlash(flash: seq<byte>, kind: u32, addr: u32, end: u32)
    requires GoesOn(flash, kind, addr, end)
    ensures addr < |flash|
  {
  }

  /** A search that never ends has no number of advances after which it ends. */
  lemma NeverEndsNever(flash: seq<byte>, kind: u32, addr: u32, end: u32, n: nat)
    requires NeverEnds(flash, kind, addr, end)
    ensures !Ends(flash, kind, addr, end, n)
  {
    hide Visit;
    EndsWhereItStops(flash, kind, addr, end, n);
  }

  /** The smallest cycle: a record whose length is 0xFFFFFFF8 is followed by itself. */
  lemma SelfFollowingRecord(flash: seq<byte>, kind: u32, addr: u32, end: u32)
    requires GoesOn(flash, kind, addr, end) && HeadLen(flash, addr) == 0xFFFFFFF8
    ensures NeverEnds(flash, kind, addr, end)
  {
    assert After(flash, addr) == addr;
    assert Visit(flash, kind, addr, end, 0) == addr && Visit(flash, kind, addr, end, 1) == addr;
    assert Repeats(flash, kind, addr, end, 0, 1) && GoesOnFor(flash, kind, addr, end, 1);
    NeverEndsIffCycle(flash, kind, addr, end);
  }

  /** Every head the loop meets lies in flash, and none of those it passes has a length that
      wraps the address. */
  ghost predicate Advances(flash: seq<byte>, kind: u32, addr: u32, end: u32)
    decreases if addr < end then end - addr else 0
  {
    addr < end ==>
      && addr + HEAD <= |flash|
      && (HeadKind(flash, addr) != kind ==>
            && addr + HEAD + HeadLen(flash, addr) < 0x1_0000_0000
            && Advances(flash, kind, After(flash, addr), end))
  }

  /** In a container damaged in any way the search ends if no length that it passes wraps, after
      at most one advance for every eight bytes. */
  lemma {:induction false} ForwardWalkEnds(flash: seq<byte>, kind: u32, addr: u32, end: u32)
    requires Advances(flash, kind, addr, end)
    ensures Ends(flash, kind, addr, end, if addr < end then (end - addr + 7) / 8 else 0)
    decreases if addr < end then end - addr else 0
  {
    hide HeadKind, HeadLen;
    if addr < end && HeadKind(flash, addr) != kind {
      var next := After(flash, addr);
      ForwardWalkEnds(flash, kind, next, end);
      EndsMonotone(flash, kind, next, end, if next < end then (end - next + 7) / 8 else 0, (end - addr + 7) / 8 - 1);
    }
  }

  lemma {:induction false} EndsMonotone(flash: seq<byte>, kind: u32, addr: u32, end: u32, n: nat, m: nat)
    requires Ends(flash, kind, addr, end, n) && n <= m
    ensures Ends(flash, kind, addr, end, m)
    decreases n
  {
    if addr < end && HeadKind(flash, addr) != kind {
      EndsMonotone(flash, kind, After(flash, addr), end, n - 1, m - 1);
    }
  }

  // ---------------------------------------------------------------- the general parameters

  /** general_param_t as it lies in memory: role, dhcp_enable, two bytes of padding, three words. */
  const SIZEOF_GENERAL := 16

  function FieldOffset(kind: u32): nat {
    match kind
    case 0 => 0
    case 1 => 1
    case 2 => 4
    case 3 => 8
    case _ => 12
  }

  /** The values the struct's fields have. */
  datatype General = General(role: byte, dhcpEnable: byte, ipAddr: u32, ipMask: u32, ipGw: u32)

  function Fields(mem: seq<byte>): General
    requires |mem| == SIZEOF_GENERAL
  {
    General(mem[0], mem[1], Le32(mem[4..8]), Le32(mem[8..12]), Le32(mem[12..16]))
  }

  /** What a record carrying a field starts with; longer payloads spill into what follows. */
  function FieldBytes(g: General, kind: u32): seq<byte> {
    match kind
    case 0 => [g.role]
    case 1 => [g.dhcpEnable]
    case 2 => ToLe32(g.ipAddr)
    case 3 => ToLe32(g.ipMask)
    case _ => ToLe32(g.ipGw)
  }

  /** Every field record the reader will copy stays inside the struct. */
  ghost predicate Fits(rs: seq<Rec>) {
    forall kind: u32 :: kind <= GENERAL_TYPE_GW && FirstOf(rs, kind) < |rs| ==>
      FieldOffset(kind) + |rs[FirstOf(rs, kind)].payload| <= SIZEOF_GENERAL
  }

  /** The user configuration: classes at `start`, the first general class holding `fields`. */
  ghost predicate WellFormed(flash: seq<byte>, start: u32, classes: seq<Rec>, fields: seq<Rec>) {
    && Holds(flash, start, classes)
    && (var i := FirstOf(classes, ARCH_CONFIG_GENERAL); i < |classes| ==> classes[i].payload == EncodeAll(fields))
    && Fits(fields)
  }

  /** The struct after the fields before `kind` have been read in order. */
  ghost function Filled(mem: seq<byte>, rs: seq<Rec>, kind: u32): (m: seq<byte>)
    requires |mem| == SIZEOF_GENERAL && kind <= GENERAL_TYPE_GW + 1 && Fits(rs)
    requires forall j: u32 :: j < kind ==> FirstOf(rs, j) < |rs|
    ensures |m| == SIZEOF_GENERAL
  {
    if kind == 0 then mem
    else Overlay(Filled(mem, rs, kind - 1), FieldOffset(kind - 1), rs[FirstOf(rs, kind - 1)].payload)
  }

  /** Width of a field; fields do not overlap, and are laid out in the order they are read. */
  function FieldWidth(kind: u32): nat {
    if kind <= 1 then 1 else 4
  }

  lemma OverlayReads(mem: seq<byte>, at: nat, p: seq<byte>, width: nat)
    requires at + |p| <= |mem| && width <= |p|
    ensures Overlay(mem, at, p)[at..at + width] == p[..width]
  {
  }

  lemma OverlayKeeps(mem: seq<byte>, at: nat, p: seq<byte>, from: nat, upto: nat)
    requires at + |p| <= |mem| && from <= upto <= at
    ensures Overlay(mem, at, p)[from..upto] == mem[from..upto]
  {
  }

  lemma {:induction false} FilledKeeps(mem: seq<byte>, rs: seq<Rec>, kind: u32, upto: u32)
    requires |mem| == SIZEOF_GENERAL && Fits(rs) && kind < upto <= GENERAL_TYPE_GW + 1
    requires forall j: u32 :: j < upto ==> FirstOf(rs, j) < |rs|
    requires FieldWidth(kind) <= |rs[FirstOf(rs, kind)].payload|
    ensures var at := FieldOffset(kind);
      && at + FieldWidth(kind) <= SIZEOF_GENERAL
      && Filled(mem, rs, upto)[at..at + FieldWidth(kind)] == rs[FirstOf(rs, kind)].payload[..FieldWidth(kind)]
  {
    hide Overlay, FirstOf;
    var at, last := FieldOffset(kind), upto - 1;
    var before := Filled(mem, rs, last);
    var p := rs[FirstOf(rs, last)].payload;
    if kind < last {
      FilledKeeps(mem, rs, kind, last);
      assert at + FieldWidth(kind) <= FieldOffset(last);
      OverlayKeeps(before, FieldOffset(last), p, at, at + FieldWidth(kind));
    } else {
      OverlayReads(before, at, p, FieldWidth(kind));
    }
  }

  /** The records carry the fields of `g`, each at the start of the first record of its type. */
  ghost predicate Carries(rs: seq<Rec>, g: General) {
    forall kind: u32 :: kind <= GENERAL_TYPE_GW ==> FirstOf(rs, kind) < |rs| && CarriesField(rs, g, kind)
  }

  ghost predicate CarriesField(rs: seq<Rec>, g: General, kind: u32) {
    FirstOf(rs, kind) < |rs| && FieldBytes(g, kind) <= rs[FirstOf(rs, kind)].payload
  }

  lemma FieldRecovered(mem: seq<byte>, rs: seq<Rec>, g: General, kind: u32)
    requires |mem| == SIZEOF_GENERAL && Fits(rs) && Carries(rs, g) && kind <= GENERAL_TYPE_GW
    ensures FieldOffset(kind) + FieldWidth(kind) <= SIZEOF_GENERAL
    ensures Filled(mem, rs, 5)[FieldOffset(kind)..FieldOffset(kind) + FieldWidth(kind)] == FieldBytes(g, kind)
  {
    hide Filled, FirstOf;
    assert CarriesField(rs, g, kind);
    FilledKeeps(mem, rs, kind, 5);
  }

  /** The fields of the struct, read completely, are the encoded ones: each record copied
      later starts behind the fields copied before it, so even payloads that spill over do no
      harm in this order. */
  lemma FieldsRecovered(mem: seq<byte>, rs: seq<Rec>, g: General)
    requires |mem| == SIZEOF_GENERAL && Fits(rs) && Carries(rs, g)
    ensures Fields(Filled(mem, rs, GENERAL_TYPE_GW + 1)) == g
  {
    hide Filled, FirstOf, Fits, Carries;
    assert forall j: u32 :: j < 5 ==> FirstOf(rs, j) < |rs| by {
      CarriedArePresent(rs, g);
    }
    FieldRecovered(mem, rs, g, 0);
    FieldRecovered(mem, rs, g, 1);
    FieldRecovered(mem, rs, g, 2);
    FieldRecovered(mem, rs, g, 3);
    FieldRecovered(mem, rs, g, 4);
    ByteFields(Filled(mem, rs, 5), g);
    ToLe32RoundTrip(g.ipAddr);
    ToLe32RoundTrip(g.ipMask);
    ToLe32RoundTrip(g.ipGw);
  }

  /** The five field records in plain numbers: type, length, value. */
  function FieldRecords(g: General): seq<Rec> {
    [Record(0, [g.role]), Record(1, [g.dhcpEnable]), Record(2, ToLe32(g.ipAddr)), Record(3, ToLe32(g.ipMask)),
     Record(4, ToLe32(g.ipGw))]
  }

  lemma FirstOfField(g: General, kind: u32)
    requires kind <= 4
    ensures FirstOf(FieldRecords(g), kind) == kind
  {
    var rs := FieldRecords(g);
    assert forall i :: 0 <= i < 5 ==> rs[i].kind == i;
    assert FirstOf(rs, kind) < |rs| ==> rs[FirstOf(rs, kind)].kind == kind;
    assert rs[kind].kind == kind;
  }

  /** They carry every set of parameters and fit the struct. */
  lemma RecordsCarry(g: General)
    ensures Fits(FieldRecords(g)) && Carries(FieldRecords(g), g)
  {
    hide ToLe32, FirstOf;
    forall kind: u32 | kind <= GENERAL_TYPE_GW
      ensures FirstOf(FieldRecords(g), kind) == kind
    {
      FirstOfField(g, kind);
    }
  }

  /** The bytes of the field records. */
  lemma RecordBytes(g: General)
    ensures EncodeAll(FieldRecords(g)) ==
      [0, 0, 0, 0, 1, 0, 0, 0, g.role] + [1, 0, 0, 0, 1, 0, 0, 0, g.dhcpEnable]
      + [2, 0, 0, 0, 4, 0, 0, 0] + ToLe32(g.ipAddr) + [3, 0, 0, 0, 4, 0, 0, 0] + ToLe32(g.ipMask)
      + [4, 0, 0, 0, 4, 0, 0, 0] + ToLe32(g.ipGw)
  {
    hide EncodeAll, ToLe32;
    var rs := FieldRecords(g);
    forall k: byte
      ensures ToLe32(k) == [k, 0, 0, 0]
    {
      LittleEndian(k, 0, 0, 0);
    }
    var r0, r1, r2, r3, r4 := rs[0], rs[1], rs[2], rs[3], rs[4];
    assert Encode(r0) == [0, 0, 0, 0, 1, 0, 0, 0, g.role] && Encode(r1) == [1, 0, 0, 0, 1, 0, 0, 0, g.dhcpEnable];
    assert Encode(r2) == [2, 0, 0, 0, 4, 0, 0, 0] + ToLe32(g.ipAddr);
    assert Encode(r3) == [3, 0, 0, 0, 4, 0, 0, 0] + ToLe32(g.ipMask);
    assert Encode(r4) == [4, 0, 0, 0, 4, 0, 0, 0] + ToLe32(g.ipGw);
    FiveRecords(r0, r1, r2, r3, r4);
  }

  lemma FiveRecords(r0: Rec, r1: Rec, r2: Rec, r3: Rec, r4: Rec)
    ensures EncodeAll([r0, r1, r2, r3, r4]) == Encode(r0) + Encode(r1) + Encode(r2) + Encode(r3) + Encode(r4)
  {
    hide Encode;
    EncodeCons(r4, []);
    EncodeCons(r3, [r4]);
    EncodeCons(r2, [r3, r4]);
    EncodeCons(r1, [r2, r3, r4]);
    EncodeCons(r0, [r1, r2, r3, r4]);
    assert [r4] + [] == [r4] && [r3] + [r4] == [r3, r4] && [r2] + [r3, r4] == [r2, r3, r4];
    assert [r1] + [r2, r3, r4] == [r1, r2, r3, r4] && [r0] + [r1, r2, r3, r4] == [r0, r1, r2, r3, r4];
  }

  lemma EncodeCons(r: Rec, rs: seq<Rec>)
    ensures EncodeAll([r] + rs) == Encode(r) + EncodeAll(rs) && EncodeAll([]) == []
  {
    assert ([r] + rs)[1..] == rs;
  }

  /** A configuration table byte by byte, anywhere in flash: its marker, the length of its classes,
      the general class, its fields. The reader takes it for what it is. */
  lemma ConfigImage(flash: seq<byte>, before: seq<byte>, after: seq<byte>, g: General)
    requires |flash| < 0x1_0000_0000
    requires flash == before + [0x54, 0x4C, 0x56, 0x00] + [62, 0, 0, 0]
                      + ([0, 0, 0, 0] + [54, 0, 0, 0] + EncodeAll(FieldRecords(g))) + after
    ensures var classes := [Record(0, EncodeAll(FieldRecords(g)))];
      && |before| + HEAD <= |flash| && HasHeader(flash, |before|) && |EncodeAll(FieldRecords(g))| == 54
      && WellFormed(flash, |before|, classes, FieldRecords(g)) && Present(classes, ARCH_CONFIG_GENERAL)
  {
    hide ToLe32, Le32, EncodeAll, FieldRecords, Fits, Carries;
    RecordBytes(g);
    RecordsCarry(g);
    var fields := EncodeAll(FieldRecords(g));
    var general: Rec := Record(0, fields);
    EncodeCons(general, []);
    assert [general] + [] == [general];
    LittleEndian(0x54, 0x4C, 0x56, 0);
    LittleEndian(62, 0, 0, 0);
    LittleEndian(54, 0, 0, 0);
    LittleEndian(0, 0, 0, 0);
    var start := |before|;
    assert EncodeAll([general]) == [0, 0, 0, 0] + [54, 0, 0, 0] + fields;
    assert flash[start..start + 4] == [0x54, 0x4C, 0x56, 0x00];
    assert flash[start + 4..start + 8] == [62, 0, 0, 0];
    assert flash[start + 8..start + 8 + 62] == EncodeAll([general]);
    assert general in [general];
    assert [general][0] == general;
  }

  lemma CarriedArePresent(rs: seq<Rec>, g: General)
    requires Carries(rs, g)
    ensures forall j: u32 :: j <= GENERAL_TYPE_GW ==> FirstOf(rs, j) < |rs|
  {
    hide FirstOf;
  }

  lemma ByteFields(m: seq<byte>, g: General)
    requires |m| == SIZEOF_GENERAL && m[0..1] == [g.role] && m[1..2] == [g.dhcpEnable]
    ensures m[0] == g.role && m[1] == g.dhcpEnable
  {
    assert m[0..1][0] == m[0] && m[1..2][0] == m[1];
  }

  /** search_opt_tab. */
  method SearchOptTab(flash: seq<byte>, start: u32) returns (r: u32)
    requires start + HEAD <= |flash|
    ensures r == 1 <==> flash[start..start + 4] == ToLe32(BK_TLV_HEADER)
    ensures r == 0 || r == 1
  {
    ToLe32RoundTrip(BK_TLV_HEADER);
    Le32RoundTrip(flash[start..start + 4]);
    r := if HeadKind(flash, start) == BK_TLV_HEADER then 1 else 0;
  }

  /** The record found is itself a container: the address a search returns starts the next one. */
  lemma NestedContainer(flash: seq<byte>, addr: nat, r: Rec, inner: seq<Rec>)
    requires |flash| < 0x1_0000_0000 && RecordAt(flash, addr, r) && r.payload == EncodeAll(inner)
    ensures Holds(flash, addr, inner)
  {
  }

  /** ddev_read into the struct. */
  method ReadFlash(flash: seq<byte>, general: array<byte>, at: nat, len: nat, addr: nat)
    requires at + len <= general.Length && addr + len <= |flash|
    modifies general
    ensures general[..] == Overlay(old(general[..]), at, flash[addr..addr + len])
  {
    var i := 0;
    while i < len
      invariant i <= len
      invariant forall k :: at <= k < at + i ==> general[k] == flash[addr + (k - at)]
      invariant forall k :: 0 <= k < general.Length && !(at <= k < at + i) ==> general[k] == old(general[k])
    {
      general[at + i] := flash[addr + i];
      i := i + 1;
    }
    ghost var was, p := old(general[..]), flash[addr..addr + len];
    forall k | 0 <= k < general.Length
      ensures general[..][k] == Overlay(was, at, p)[k]
    {
      if at <= k < at + len {
        assert general[k] == p[k - at];
      }
    }
  }

  /** One of the five steps of the reader: search the class for the field and copy it. */
  method ReadField(flash: seq<byte>, general: array<byte>, classAddr: u32, kind: u32, ghost fields: seq<Rec>)
    returns (found: bool)
    requires general.Length == SIZEOF_GENERAL && kind <= GENERAL_TYPE_GW
    requires Holds(flash, classAddr, fields) && Fits(fields)
    modifies general
    ensures found <==> FirstOf(fields, kind) < |fields|
    ensures general[..] ==
            if found then Overlay(old(general[..]), FieldOffset(kind), fields[FirstOf(fields, kind)].payload)
            else old(general[..])
  {
    hide Walk, Ends, EncodeAll, FirstOf, OffsetOf, Overlay, HeadKind, HeadLen, EndOf, Wrap;
    SearchFindsFirst(flash, kind, classAddr, fields);
    FirstIfPresent(fields, kind);
    var addr := SearchByType(flash, kind, classAddr, |fields|);
    found := addr != 0;
    if found {
      ReadFlash(flash, general, FieldOffset(kind), HeadLen(flash, addr), addr + HEAD);
    }
  }

  /** The first of the five types that no record has, or 5. */
  function FirstMissing(rs: seq<Rec>, kind: u32): (m: u32)
    requires kind <= GENERAL_TYPE_GW + 1
    ensures kind <= m <= GENERAL_TYPE_GW + 1
    ensures forall j: u32 :: kind <= j < m ==> FirstOf(rs, j) < |rs|
    ensures m <= GENERAL_TYPE_GW ==> FirstOf(rs, m) == |rs|
    decreases 5 - kind
  {
    if kind > GENERAL_TYPE_GW || FirstOf(rs, kind) == |rs| then kind else FirstMissing(rs, kind + 1)
  }

  ghost predicate HasHeader(flash: seq<byte>, start: u32)
    requires start + HEAD <= |flash|
  {
    flash[start..start + 4] == ToLe32(BK_TLV_HEADER)
  }

  /** app_demo_softap_get_general_paramters: without the table's header, the destination or the
      general class nothing is written; otherwise the fields in front of the first missing one
      are, and 0 is returned exactly if none is missing. Whatever general parameters the
      records carry are then the ones read. */
  method GetGeneralParameters(flash: seq<byte>, start: u32, general: array?<byte>,
                              ghost classes: seq<Rec>, ghost fields: seq<Rec>)
    returns (r: int)
    requires start + HEAD <= |flash|
    requires general != null ==> general.Length == SIZEOF_GENERAL
    requires HasHeader(flash, start) && general != null ==> WellFormed(flash, start, classes, fields)
    modifies general
    ensures r == 0 || r == -1
    ensures !HasHeader(flash, start) || general == null || !Present(classes, ARCH_CONFIG_GENERAL) ==>
      r == -1 && (general != null ==> general[..] == old(general[..]))
    ensures HasHeader(flash, start) && general != null && Present(classes, ARCH_CONFIG_GENERAL) ==>
      && general[..] == Filled(old(general[..]), fields, FirstMissing(fields, 0))
      && (r == 0 <==> FirstMissing(fields, 0) == GENERAL_TYPE_GW + 1)
      && forall g :: Carries(fields, g) ==> r == 0 && Fields(general[..]) == g
  {
    var tab := SearchOptTab(flash, start);
    if tab == 0 {
      return -1;
    }
    if general == null {
      return -1;
    }
    ClassFound(flash, start, classes, fields);
    var classAddr := SearchByType(flash, ARCH_CONFIG_GENERAL, start, |classes|);
    if classAddr == 0 {
      return -1;
    }
    r := ReadFields(flash, general, classAddr, fields);
  }

  lemma ClassFound(flash: seq<byte>, start: u32, classes: seq<Rec>, fields: seq<Rec>)
    requires WellFormed(flash, start, classes, fields)
    ensures start + HEAD <= |flash|
    ensures Ends(flash, ARCH_CONFIG_GENERAL, Wrap(start + HEAD), EndOf(flash, start), |classes|)
    ensures var addr := Walk(flash, ARCH_CONFIG_GENERAL, Wrap(start + HEAD), EndOf(flash, start), |classes|);
      && (addr == 0 <==> !Present(classes, ARCH_CONFIG_GENERAL))
      && (addr != 0 ==> Holds(flash, addr, fields))
  {
    hide Walk, Ends, EncodeAll, FirstOf, OffsetOf, HeadKind, HeadLen, EndOf, Wrap;
    SearchFindsFirst(flash, ARCH_CONFIG_GENERAL, start, classes);
    var addr := Walk(flash, ARCH_CONFIG_GENERAL, Wrap(start + HEAD), EndOf(flash, start), |classes|);
    if addr != 0 {
      NestedContainer(flash, addr, classes[FirstOf(classes, ARCH_CONFIG_GENERAL)], fields);
    }
  }

  lemma MissingIs(rs: seq<Rec>, m: u32)
    requires m <= GENERAL_TYPE_GW + 1 && (m <= GENERAL_TYPE_GW ==> FirstOf(rs, m) == |rs|)
    requires forall j: u32 :: j < m ==> FirstOf(rs, j) < |rs|
    ensures FirstMissing(rs, 0) == m
  {
    hide FirstMissing, FirstOf;
  }

  /** The reader from the point where the general class has been found. */
  method ReadFields(flash: seq<byte>, general: array<byte>, classAddr: u32, ghost fields: seq<Rec>) returns (r: int)
    requires general.Length == SIZEOF_GENERAL
    requires Holds(flash, classAddr, fields) && Fits(fields)
    modifies general
    ensures r == 0 || r == -1
    ensures general[..] == Filled(old(general[..]), fields, FirstMissing(fields, 0))
    ensures r == 0 <==> FirstMissing(fields, 0) == GENERAL_TYPE_GW + 1
    ensures forall g :: Carries(fields, g) ==> r == 0 && Fields(general[..]) == g
  {
    hide Walk, Ends, EncodeAll, FirstOf, OffsetOf, Overlay, HeadKind, HeadLen, EndOf, Wrap, FirstMissing;
    ghost var was := general[..];
    forall g | Carries(fields, g)
      ensures FirstMissing(fields, 0) == 5 && Fields(Filled(was, fields, 5)) == g
    {
      CarriedArePresent(fields, g);
      FieldsRecovered(was, fields, g);
    }
    var found := ReadField(flash, general, classAddr, GENERAL_TYPE_ROLE, fields);
    if !found {
      MissingIs(fields, 0);
      return -1;
    }
    assert general[..] == Filled(was, fields, 1);
    found := ReadField(flash, general, classAddr, GENERAL_TYPE_DHCP, fields);
    if !found {
      MissingIs(fields, 1);
      return -1;
    }
    assert general[..] == Filled(was, fields, 2);
    found := ReadField(flash, general, classAddr, GENERAL_TYPE_IP, fields);
    if !found {
      MissingIs(fields, 2);
      return -1;
    }
    assert general[..] == Filled(was, fields, 3);
    found := ReadField(flash, general, classAddr, GENERAL_TYPE_MASK, fields);
    if !found {
      MissingIs(fields, 3);
      return -1;
    }
    assert general[..] == Filled(was, fields, 4);
    found := ReadField(flash, general, classAddr, GENERAL_TYPE_GW, fields);
    if !found {
      MissingIs(fields, 4);
      return -1;
    }
    assert general[..] == Filled(was, fields, 5);
    MissingIs(fields, 5);
    return 0;
  }
}
