/** app/http/utils_httpc.c: the base64 encoder behind HTTP basic authentication. */
module Base64 {
  import opened Words

  /** HTTPCLIENT_AUTHB_SIZE and the two stack buffers of httpclient_send_auth. */
  const AUTHB_SIZE := 128
  const BASE64BUFF_SIZE := AUTHB_SIZE + 3
  const B_AUTH_SIZE := (AUTHB_SIZE + 3) * 4 / 3 + 1

  /** Entry v of the digit table: A-Z, a-z, 0-9, '+', '/'. */
  function Digit(v: nat): char
    requires v < 64
  {
    if v < 26 then 'A' + v as char
    else if v < 52 then 'a' + (v - 26) as char
    else if v < 62 then '0' + (v - 52) as char
    else if v == 62 then '+' else '/'
  }

  // ---------------------------------------------------------------- RFC 4648, section 4

  /** The digits of one group of one to three bytes, before padding. */
  function Group(g: seq<byte>): (r: string)
    requires 1 <= |g| <= 3
    ensures |r| == |g| + 1
  {
    if |g| == 1 then [Digit(g[0] / 4), Digit(g[0] % 4 * 16)]
    else if |g| == 2 then [Digit(g[0] / 4), Digit(g[0] % 4 * 16 + g[1] / 16), Digit(g[1] % 16 * 4)]
    else [Digit(g[0] / 4), Digit(g[0] % 4 * 16 + g[1] / 16), Digit(g[1] % 16 * 4 + g[2] / 64), Digit(g[2] % 64)]
  }

  function Pad(g: string): (r: string)
    requires 2 <= |g| <= 4
    ensures |r| == 4
  {
    if |g| == 2 then g + "==" else if |g| == 3 then g + "=" else g
  }

  function Encode(bs: seq<byte>): (r: string)
    ensures |r| == 4 * ((|bs| + 2) / 3)
  {
    if bs == [] then ""
    else if |bs| <= 3 then Pad(Group(bs))
    else Group(bs[..3]) + Encode(bs[3..])
  }

  /** The value of a base64 digit, 64 for anything else. */
  function Value(c: char): (v: nat)
    ensures v <= 64
  {
    if 'A' <= c <= 'Z' then c as int - 'A' as int
    else if 'a' <= c <= 'z' then c as int - 'a' as int + 26
    else if '0' <= c <= '9' then c as int - '0' as int + 52
    else if c == '+' then 62
    else if c == '/' then 63
    else 64
  }

  datatype Decoded = Bytes(bytes: seq<byte>) | Malformed

  /** A decoder as section 4 of RFC 4648 describes it: quantums of four digits, the last
      one possibly padded. */
  function Decode(s: string): Decoded {
    if s == "" then Bytes([])
    else if |s| < 4 then Malformed
    else
      var a, b, c, d := Value(s[0]), Value(s[1]), Value(s[2]), Value(s[3]);
      if a == 64 || b == 64 then Malformed
      else if s[2] == '=' && s[3] == '=' then
        if |s| == 4 && b % 16 == 0 then Bytes([a * 4 + b / 16]) else Malformed
      else if c == 64 then Malformed
      else if s[3] == '=' then
        if |s| == 4 && c % 4 == 0 then Bytes([a * 4 + b / 16, b % 16 * 16 + c / 4]) else Malformed
      else if d == 64 then Malformed
      else match Decode(s[4..])
        case Malformed => Malformed
        case Bytes(rest) => Bytes([a * 4 + b / 16, b % 16 * 16 + c / 4, c % 4 * 64 + d] + rest)
  }

  lemma ValueOfDigit(v: nat)
    requires v < 64
    ensures Value(Digit(v)) == v && Digit(v) != '='
  {
  }

  /** Decoding what was encoded gives the bytes back, for every byte string. */
  lemma {:induction false} RoundTrip(bs: seq<byte>)
    ensures Decode(Encode(bs)) == Bytes(bs)
    decreases |bs|
  {
    hide Group, Pad, Decode;
    if |bs| > 3 {
      RoundTrip(bs[3..]);
      FullQuantum(bs[..3], Encode(bs[3..]), bs[3..]);
      assert bs == bs[..3] + bs[3..];
    } else if bs != [] {
      LastQuantum(bs);
    } else {
      assert Decode("") == Bytes([]) by { EmptyDecodes(); }
    }
  }

  lemma EmptyDecodes()
    ensures Decode("") == Bytes([])
  {
  }

  lemma FullQuantum(g: seq<byte>, s: string, rest: seq<byte>)
    requires |g| == 3 && Decode(s) == Bytes(rest)
    ensures Decode(Group(g) + s) == Bytes(g + rest)
  {
    hide Value, Digit, Group, Decode;
    var q := Group(g);
    GroupDigits(g);
    Regroup(g[0], g[1], g[2]);
    assert q + s == [q[0], q[1], q[2], q[3]] + s;
    DecodeFull(q[0], q[1], q[2], q[3], s);
    assert g == [g[0], g[1], g[2]];
  }

  /** One full quantum of the decoder. */
  lemma DecodeFull(c0: char, c1: char, c2: char, c3: char, s: string)
    requires Value(c0) < 64 && Value(c1) < 64 && Value(c2) < 64 && Value(c3) < 64 && c2 != '=' && c3 != '='
    ensures Decode([c0, c1, c2, c3] + s) ==
      match Decode(s)
        case Malformed => Malformed
        case Bytes(rest) =>
          Bytes([Value(c0) * 4 + Value(c1) / 16, Value(c1) % 16 * 16 + Value(c2) / 4, Value(c2) % 4 * 64 + Value(c3)] + rest)
  {
    hide Value;
    assert ([c0, c1, c2, c3] + s)[4..] == s;
  }

  lemma LastQuantum(g: seq<byte>)
    requires 1 <= |g| <= 3
    ensures Decode(Pad(Group(g))) == Bytes(g)
  {
    hide Value, Digit;
    GroupDigits(g);
    Regroup(g[0], if |g| > 1 then g[1] else 0, if |g| > 2 then g[2] else 0);
    if |g| == 3 {
      EmptyDecodes();
      FullQuantum(g, "", []);
      assert Group(g) + "" == Group(g) && g + [] == g;
    } else {
      ValueOfPad();
    }
  }

  lemma ValueOfPad()
    ensures Value('=') == 64
  {
  }

  lemma Regroup(x: byte, y: byte, z: byte)
    ensures x / 4 * 4 + (x % 4 * 16 + y / 16) / 16 == x
    ensures (x % 4 * 16 + y / 16) % 16 * 16 + (y % 16 * 4 + z / 64) / 4 == y
    ensures (y % 16 * 4 + z / 64) % 4 * 64 + z % 64 == z
  {
  }

  lemma GroupDigits(g: seq<byte>)
    requires 1 <= |g| <= 3
    ensures Value(Group(g)[0]) == g[0] / 4 < 64
    ensures Value(Group(g)[1]) == g[0] % 4 * 16 + (if |g| > 1 then g[1] / 16 else 0) < 64
    ensures |g| > 1 ==> Value(Group(g)[2]) == g[1] % 16 * 4 + (if |g| > 2 then g[2] / 64 else 0) < 64 && Group(g)[2] != '='
    ensures |g| > 2 ==> Value(Group(g)[3]) == g[2] % 64 && Group(g)[3] != '='
  {
    ValueOfDigit(g[0] / 4);
    ValueOfDigit(g[0] % 4 * 16 + (if |g| > 1 then g[1] / 16 else 0));
    if |g| > 1 {
      ValueOfDigit(g[1] % 16 * 4 + (if |g| > 2 then g[2] / 64 else 0));
    }
    if |g| > 2 {
      ValueOfDigit(g[2] % 64);
    }
  }

  // ---------------------------------------------------------------- the encoder

  /** The digits already complete after the bytes bs, i.e. without left-over bits. */
  function Stem(bs: seq<byte>): (r: string)
    ensures |r| == |bs| / 3 * 4 + |bs| % 3
  {
    if |bs| >= 3 then Group(bs[..3]) + Stem(bs[3..])
    else if |bs| == 2 then [Digit(bs[0] / 4), Digit(bs[0] % 4 * 16 + bs[1] / 16)]
    else if |bs| == 1 then [Digit(bs[0] / 4)]
    else ""
  }

  /** The digits that one more byte completes, given the byte before it. */
  function Completed(phase: nat, last: byte, c: byte): string
    requires phase < 3
  {
    if phase == 0 then [Digit(c / 4)]
    else if phase == 1 then [Digit(last % 4 * 16 + c / 16)]
    else [Digit(last % 16 * 4 + c / 64), Digit(c % 64)]
  }

  /** The final digit from the left-over bits, and the padding. */
  function Ending(phase: nat, last: byte): string
    requires phase < 3
  {
    if phase == 0 then ""
    else if phase == 1 then [Digit(last % 4 * 16)] + "=="
    else [Digit(last % 16 * 4)] + "="
  }

  function Last(bs: seq<byte>): byte {
    if bs == [] then 0 else bs[|bs| - 1]
  }

  lemma {:induction false} StemSnoc(bs: seq<byte>, c: byte)
    ensures Stem(bs + [c]) == Stem(bs) + Completed(|bs| % 3, Last(bs), c)
    decreases |bs|
  {
    hide Digit, Group, Completed;
    if |bs| >= 3 {
      StemSnoc(bs[3..], c);
      var all := bs + [c];
      assert all[..3] == bs[..3] && all[3..] == bs[3..] + [c];
      if |bs| == 3 {
        CompletedFirst(Last(bs), Last(bs[3..]), c);
      } else {
        assert Last(bs[3..]) == Last(bs);
      }
      assert Group(bs[..3]) + (Stem(bs[3..]) + Completed(|bs| % 3, Last(bs), c))
          == Group(bs[..3]) + Stem(bs[3..]) + Completed(|bs| % 3, Last(bs), c);
    } else {
      StemSnocShort(bs, bs + [c], c);
    }
  }

  lemma CompletedFirst(last: byte, last': byte, c: byte)
    ensures Completed(0, last, c) == Completed(0, last', c)
  {
  }

  lemma StemOfThree(g: seq<byte>)
    requires |g| == 3
    ensures Stem(g) == Group(g)
  {
    hide Group;
    assert g[..3] == g && g[3..] == [];
    assert Stem([]) == "";
    assert Group(g) + "" == Group(g);
  }

  lemma StemSnocShort(bs: seq<byte>, all: seq<byte>, c: byte)
    requires |bs| < 3 && all == bs + [c]
    ensures Stem(all) == Stem(bs) + Completed(|bs| % 3, Last(bs), c)
  {
    hide Digit, Stem, Group, Completed;
    if |bs| == 0 {
      FirstByte(bs, all, c);
    } else if |bs| == 1 {
      SecondByte(bs, all, c);
    } else {
      ThirdByte(bs, all, c);
    }
  }

  lemma FirstByte(bs: seq<byte>, all: seq<byte>, c: byte)
    requires |bs| == 0 && all == bs + [c]
    ensures Stem(all) == Stem(bs) + Completed(|bs| % 3, Last(bs), c)
  {
    hide Digit, Group;
    assert all[0] == c;
  }

  lemma SecondByte(bs: seq<byte>, all: seq<byte>, c: byte)
    requires |bs| == 1 && all == bs + [c]
    ensures Stem(all) == Stem(bs) + Completed(|bs| % 3, Last(bs), c)
  {
    hide Digit, Group;
    assert all[0] == bs[0] && all[1] == c;
  }

  lemma ThirdByte(bs: seq<byte>, all: seq<byte>, c: byte)
    requires |bs| == 2 && all == bs + [c]
    ensures Stem(all) == Stem(bs) + Completed(|bs| % 3, Last(bs), c)
  {
    hide Digit;
    assert all[0] == bs[0] && all[1] == bs[1] && all[2] == c;
    StemOfThree(all);
  }

  lemma StemOfLess(bs: seq<byte>)
    requires |bs| < 3
    ensures |bs| == 0 ==> Stem(bs) == ""
    ensures |bs| == 1 ==> Stem(bs) == [Digit(bs[0] / 4)]
    ensures |bs| == 2 ==> Stem(bs) == [Digit(bs[0] / 4), Digit(bs[0] % 4 * 16 + bs[1] / 16)]
  {
    hide Digit, Group;
  }

  lemma {:induction false} EncodeIsStemAndEnding(bs: seq<byte>)
    ensures Encode(bs) == Stem(bs) + Ending(|bs| % 3, Last(bs))
    decreases |bs|
  {
    hide Digit, Group, Ending, Pad;
    if |bs| > 3 {
      EncodeIsStemAndEnding(bs[3..]);
      assert Group(bs[..3]) + (Stem(bs[3..]) + Ending(|bs| % 3, Last(bs)))
          == Group(bs[..3]) + Stem(bs[3..]) + Ending(|bs| % 3, Last(bs));
    } else {
      LastGroupEnds(bs);
    }
  }

  lemma LastGroupEnds(bs: seq<byte>)
    requires |bs| <= 3
    ensures Encode(bs) == Stem(bs) + Ending(|bs| % 3, Last(bs))
  {
    hide Digit, Stem, Group, Pad, Ending;
    EndingOf(bs);
    if |bs| == 3 {
      StemOfThree(bs);
      FullPad(Group(bs));
      assert Group(bs) + "" == Group(bs);
    } else {
      StemOfLess(bs);
      if bs != [] {
        ShortGroup(bs);
      }
    }
  }

  lemma EndingOf(bs: seq<byte>)
    requires |bs| <= 3
    ensures |bs| == 0 || |bs| == 3 ==> Ending(|bs| % 3, Last(bs)) == ""
    ensures |bs| == 1 ==> Ending(|bs| % 3, Last(bs)) == [Digit(bs[0] % 4 * 16)] + "=="
    ensures |bs| == 2 ==> Ending(|bs| % 3, Last(bs)) == [Digit(bs[1] % 16 * 4)] + "="
  {
    hide Digit;
  }

  lemma FullPad(g: string)
    requires |g| == 4
    ensures Pad(g) == g
  {
  }

  lemma ShortGroup(bs: seq<byte>)
    requires 1 <= |bs| <= 2
    ensures |bs| == 1 ==> Pad(Group(bs)) == [Digit(bs[0] / 4)] + ([Digit(bs[0] % 4 * 16)] + "==")
    ensures |bs| == 2 ==>
      Pad(Group(bs)) == [Digit(bs[0] / 4), Digit(bs[0] % 4 * 16 + bs[1] / 16)] + ([Digit(bs[1] % 16 * 4)] + "=")
  {
    hide Digit;
  }

  /** `x >> k`. */
  function Shr(x: nat, k: nat): nat {
    if k == 0 then x else Shr(x / 2, k - 1)
  }

  /** `(x >> k) & 0x3f`, the mask being 2^6 - 1. */
  function Sextet(x: u32, k: nat): nat {
    And(Shr(x, k), Pow2(6) - 1)
  }

  lemma SextetIsDigitValue(x: u32, k: nat)
    ensures Sextet(x, k) == Shr(x, k) % 64 < 64
  {
    hide And, Mod, Shr;
    AndMask(Shr(x, k), 6);
    ModIsRemainder(Shr(x, k), 64);
    assert Pow2(6) == 64;
  }

  lemma ShrByTwos(x: nat)
    ensures Shr(x, 0) == x && Shr(x, 2) == x / 4
    ensures Shr(x, 4) == x / 16 && Shr(x, 6) == x / 64
  {
    ShrTwice(x, 0);
    ShrTwice(x, 2);
    ShrTwice(x, 4);
    assert x / 4 / 4 == x / 16 && x / 16 / 4 == x / 64;
    ShrTwice(x / 4, 0);
    ShrTwice(x / 4, 2);
    ShrTwice(x / 16, 0);
  }

  lemma ShrTwice(x: nat, k: nat)
    ensures Shr(x, k + 2) == Shr(x / 4, k)
  {
    assert x / 2 / 2 == x / 4;
  }

  /** The accumulator may have wrapped, but the bits that are still pending are exact. */
  lemma PendingBits(x: u32, c: byte)
    ensures var y := Wrap(x * 256 + c);
      && Sextet(y, 2) == c / 4
      && Sextet(y, 4) == x % 4 * 16 + c / 16
      && Sextet(y, 6) == x % 16 * 4 + c / 64
      && Sextet(y, 0) == c % 64
      && y % 4 == c % 4 && y % 16 == c % 16
  {
    hide Wrap, Sextet, Shr;
    var y := Wrap(x * 256 + c);
    SextetIsDigitValue(y, 2);
    SextetIsDigitValue(y, 4);
    SextetIsDigitValue(y, 6);
    SextetIsDigitValue(y, 0);
    ShrByTwos(y);
    Shifted(x, c, y);
  }

  lemma Shifted(x: u32, c: byte, y: u32)
    requires y == Wrap(x * 256 + c)
    ensures y / 4 % 64 == c / 4 && y / 16 % 64 == x % 4 * 16 + c / 16
    ensures y / 64 % 64 == x % 16 * 4 + c / 64 && y % 64 == c % 64
    ensures y % 4 == c % 4 && y % 16 == c % 16
  {
    hide Wrap;
    WrapQuotient(x * 256 + c);
    LowBits(x);
    ShiftedAux(x, x / 16, x % 16, c, y, (x * 256 + c) / 0x1_0000_0000);
  }

  lemma LowBits(x: nat)
    ensures x == 16 * (x / 16) + x % 16 && 0 <= x % 16 < 16 && x % 16 % 4 == x % 4
  {
    var u, v := x / 16, x % 16;
    DivBy4(4 * u + v / 4, v % 4, x);
  }

  lemma ShiftedAux(x: u32, u: int, v: nat, c: byte, y: int, q: int)
    requires v < 16 && x == 16 * u + v && v % 4 == x % 4
    requires x * 256 + c == y + q * 0x1_0000_0000
    ensures y / 4 % 64 == c / 4 && y / 16 % 64 == x % 4 * 16 + c / 16
    ensures y / 64 % 64 == v * 4 + c / 64 && y % 64 == c % 64
    ensures y % 4 == c % 4 && y % 16 == c % 16
  {
    LowTwelveBits(u - q * 0x10_0000, v, c);
  }

  lemma LowTwelveBits(t: int, v: nat, c: byte)
    requires v < 16
    ensures var y := 4096 * t + 256 * v + c;
      && y / 4 % 64 == c / 4 && y / 16 % 64 == v % 4 * 16 + c / 16
      && y / 64 % 64 == v * 4 + c / 64 && y % 64 == c % 64
      && y % 4 == c % 4 && y % 16 == c % 16
  {
    var y := 4096 * t + 256 * v + c;
    var q4, q16, q64 := 1024 * t + 64 * v + c / 4, 256 * t + 16 * v + c / 16, 64 * t + 4 * v + c / 64;
    DivBy4(q4, c % 4, y);
    DivBy16(q16, c % 16, y);
    DivBy64(q64, c % 64, y);
    DivBy64(16 * t + v, c / 4, q4);
    DivBy64(4 * t + v / 4, v % 4 * 16 + c / 16, q16);
    DivBy64(t, v * 4 + c / 64, q64);
  }

  lemma DivBy4(q: int, r: nat, y: int)
    requires r < 4 && y == 4 * q + r
    ensures y / 4 == q && y % 4 == r
  {
  }

  lemma DivBy16(q: int, r: nat, y: int)
    requires r < 16 && y == 16 * q + r
    ensures y / 16 == q && y % 16 == r
  {
  }

  lemma DivBy64(q: int, r: nat, y: int)
    requires r < 64 && y == 64 * q + r
    ensures y / 64 == q && y % 64 == r
  {
  }

  /** strlen: the bytes before the terminator. */
  function StrLen(s: seq<byte>): (n: nat)
    requires 0 in s
    ensures n < |s| && s[n] == 0 && 0 !in s[..n]
  {
    if s[0] == 0 then 0 else
      assert s[1..][..StrLen(s[1..])] == s[1..1 + StrLen(s[1..])];
      assert s == [s[0]] + s[1..];
      1 + StrLen(s[1..])
  }

  /** The final digit: the pending bits moved to the top of a sextet. */
  lemma FinalBits(x: u32)
    ensures Sextet(Wrap(x * Pow2(4)), 0) == x % 4 * 16
    ensures Sextet(Wrap(x * Pow2(2)), 0) == x % 16 * 4
  {
    hide Wrap, Sextet, Shr;
    assert Pow2(2) == 4 && Pow2(4) == 16;
    SextetIsDigitValue(Wrap(x * 16), 0);
    SextetIsDigitValue(Wrap(x * 4), 0);
    ShrByTwos(Wrap(x * 16));
    ShrByTwos(Wrap(x * 4));
    WrapQuotient(x * 16);
    WrapQuotient(x * 4);
    ShiftedLow(x, 16, x / 4, x % 4, Wrap(x * 16), (x * 16) / 0x1_0000_0000);
    ShiftedLow(x, 4, x / 16, x % 16, Wrap(x * 4), (x * 4) / 0x1_0000_0000);
  }

  lemma ShiftedLow(x: u32, m: nat, hi: int, lo: nat, y: int, q: int)
    requires (m == 16 && lo < 4 && x == 4 * hi + lo) || (m == 4 && lo < 16 && x == 16 * hi + lo)
    requires x * m == y + q * 0x1_0000_0000
    ensures y % 64 == lo * m
  {
    DivBy64(hi - q * 0x400_0000, lo * m, y);
  }

  /** The digit written while `l` bits are pending is the next completed one. */
  lemma NextDigit(y: u32, x: u32, phase: nat, last: byte, c: byte, l: nat)
    requires phase < 3 && y == Wrap(x * 256 + c)
    requires l >= 6
    requires phase == 1 ==> x % 4 == last % 4
    requires phase == 2 ==> x % 16 == last % 16
    requires l == 8 + 2 * phase || (phase == 2 && l == 6)
    ensures var j := if l == 8 + 2 * phase then 0 else 1;
      j < |Completed(phase, last, c)| && Sextet(y, l - 6) < 64 && Digit(Sextet(y, l - 6)) == Completed(phase, last, c)[j]
  {
    hide Digit, Sextet, Wrap;
    PendingBits(x, c);
  }

  lemma StemFits(k: nat, n: nat)
    requires k <= n
    ensures k / 3 * 4 + k % 3 <= n / 3 * 4 + n % 3 <= 4 * ((n + 2) / 3)
  {
  }

  /** The inner loop: every six bits that are ready become a digit. */
  method EmitReady(out: array<char>, x: u32, start: nat, bits: nat,
                   ghost x0: u32, ghost phase: nat, ghost last: byte, ghost c: byte, ghost stem: string, ghost was: string)
    returns (i: nat, l: nat)
    requires phase < 3 && x == Wrap(x0 * 256 + c) && bits == 8 + 2 * phase
    requires (phase == 1 ==> x0 % 4 == last % 4) && (phase == 2 ==> x0 % 16 == last % 16)
    requires start == |stem| && |stem| + |Completed(phase, last, c)| < out.Length == |was|
    requires out[..] == Filled(stem, was)
    modifies out
    ensures i == start + |Completed(phase, last, c)| && l == 2 * ((phase + 1) % 3)
    ensures out[..] == Filled(stem + Completed(phase, last, c), was)
  {
    hide Digit, Completed, Sextet, And, Wrap, Filled;
    ghost var done := Completed(phase, last, c);
    CompletedLength(phase, last, c);
    i, l := start, bits;
    assert stem + done[..0] == stem;
    while l >= 6
      invariant start <= i <= start + |done|
      invariant l == 8 + 2 * phase - 6 * (i - start)
      invariant out[..] == Filled(stem + done[..i - start], was)
    {
      NextDigit(x, x0, phase, last, c, l);
      TakeOneMore(stem, done, i - start);
      Emit(out, i, Digit(Sextet(x, l - 6)), stem + done[..i - start], was);
      i := i + 1;
      l := l - 6;
    }
    assert done[..i - start] == done;
  }

  /** httpclient_base64enc: `input` is a terminated byte string; the accumulator is the C int
      taken as 32 unsigned bits, of which only the low 12 are ever looked at. */
  method Base64Enc(out: array<char>, input: seq<byte>)
    requires 0 in input
    requires out.Length > |Encode(input[..StrLen(input)])|
    modifies out
    ensures var e := Encode(input[..StrLen(input)]);
      out[..] == Filled(e + ['\0'], old(out[..]))
  {
    hide Encode, Stem, Digit, Completed, Ending, Sextet, Shr, Pow2, And, Wrap, Filled, Group, StrLen;
    ghost var n, was := StrLen(input), out[..];
    ghost var text := input[..n];
    var i, x: u32, l, k := 0, 0, 0, 0;
    NothingFilled(was);
    while input[k] != 0
      invariant 0 <= k <= n
      invariant i == |Stem(text[..k])|
      invariant out[..] == Filled(Stem(text[..k]), was)
      invariant l == 2 * (k % 3)
      invariant k % 3 == 1 ==> x % 4 == Last(text[..k]) % 4
      invariant k % 3 == 2 ==> x % 16 == Last(text[..k]) % 16
      decreases n - k
    {
      var c := input[k];
      ghost var stem, phase, last, x0 := Stem(text[..k]), k % 3, Last(text[..k]), x;
      assert text[..k + 1] == text[..k] + [c];
      StemSnoc(text[..k], c);
      StemFits(k + 1, n);
      PendingBits(x, c);
      x := Wrap(x * 256 + c);
      i, l := EmitReady(out, x, i, l + 8, x0, phase, last, c, stem, was);
      k := k + 1;
    }
    assert text[..k] == text;
    Finish(out, x, i, l, text, was);
  }

  /** The end of httpclient_base64enc: left-over bits, padding and terminator. */
  method Finish(out: array<char>, bits: u32, start: nat, l: nat, ghost text: seq<byte>, ghost was: string)
    requires start == |Stem(text)| && |Encode(text)| < out.Length == |was|
    requires out[..] == Filled(Stem(text), was)
    requires l == 2 * (|text| % 3)
    requires l == 2 ==> bits % 4 == Last(text) % 4
    requires l == 4 ==> bits % 16 == Last(text) % 16
    modifies out
    ensures out[..] == Filled(Encode(text) + ['\0'], was)
  {
    hide Encode, Stem, Digit, Ending, Sextet, And, Filled;
    EncodeIsStemAndEnding(text);
    EndingDigits(|text| % 3, Last(text));
    ghost var stem, ending := Stem(text), Ending(|text| % 3, Last(text));
    var i, x := start, bits;
    assert stem + ending[..0] == stem;
    if l > 0 {
      FinalBits(x);
      x := Wrap(x * Pow2(6 - l));
      TakeOneMore(stem, ending, 0);
      Emit(out, i, Digit(Sextet(x, 0)), stem, was);
      i := i + 1;
    }
    while i % 4 != 0
      invariant start <= i <= start + |ending|
      invariant l > 0 ==> i > start
      invariant out[..] == Filled(stem + ending[..i - start], was)
      decreases start + |ending| - i
    {
      TakeOneMore(stem, ending, i - start);
      Emit(out, i, '=', stem + ending[..i - start], was);
      i := i + 1;
    }
    assert ending[..i - start] == ending;
    Emit(out, i, '\0', stem + ending, was);
  }

  /** A buffer whose front has been overwritten. */
  ghost function Filled(front: string, was: string): string
    requires |front| <= |was|
  {
    front + was[|front|..]
  }

  lemma NothingFilled(was: string)
    ensures Filled(Stem([]), was) == was
  {
  }

  lemma TakeOneMore(a: string, b: string, j: nat)
    requires j < |b|
    ensures a + b[..j + 1] == (a + b[..j]) + [b[j]]
  {
  }

  method Emit(out: array<char>, i: nat, c: char, ghost front: string, ghost was: string)
    requires |was| == out.Length && i == |front| < out.Length && out[..] == Filled(front, was)
    modifies out
    ensures out[..] == Filled(front + [c], was)
  {
    out[i] := c;
  }

  lemma CompletedLength(phase: nat, last: byte, c: byte)
    requires phase < 3
    ensures |Completed(phase, last, c)| == if phase == 2 then 2 else 1
  {
  }

  lemma EndingDigits(phase: nat, last: byte)
    requires phase < 3
    ensures var e := Ending(phase, last);
      && |e| == (if phase == 0 then 0 else 4 - phase)
      && (phase == 1 ==> e[0] == Digit(last % 4 * 16))
      && (phase == 2 ==> e[0] == Digit(last % 16 * 4))
      && forall j :: 1 <= j < |e| ==> e[j] == '='
  {
  }

  // ---------------------------------------------------------------- basic authentication

  /** httpclient_basic_auth: the pair is refused when its lengths sum to the limit or more. */
  predicate AuthAccepted(user: seq<byte>, password: seq<byte>) {
    |user| + |password| < AUTHB_SIZE
  }

  method BasicAuth(user: seq<byte>, password: seq<byte>) returns (ok: bool)
    ensures ok == AuthAccepted(user, password) && (ok <==> |user| + |password| < 128)
  {
    ok := |user| + |password| < AUTHB_SIZE;
  }

  const COLON: byte := 58

  /** The text httpclient_send_auth encodes: sprintf "%s:%s". */
  function Credentials(user: seq<byte>, password: seq<byte>): seq<byte> {
    user + [COLON] + password
  }

  /** Every accepted pair fits both stack buffers: the text with its terminator in base64buff,
      the digits with the appended newline and terminator in b_auth; and the server's decoder
      gets the pair back. */
  lemma AcceptedCredentialsFit(user: seq<byte>, password: seq<byte>)
    requires AuthAccepted(user, password)
    ensures |Credentials(user, password)| + 1 <= BASE64BUFF_SIZE == 131
    ensures |Encode(Credentials(user, password))| + 2 <= B_AUTH_SIZE == 175
    ensures Decode(Encode(Credentials(user, password))) == Bytes(user + [':' as int] + password)
  {
    RoundTrip(Credentials(user, password));
  }

  /** httpclient_send_auth: `line` is what is appended to the request after the fixed prefix. */
  method SendAuth(user: seq<byte>, password: seq<byte>) returns (line: string)
    requires AuthAccepted(user, password) && 0 !in user && 0 !in password
    ensures line == Encode(Credentials(user, password)) + "\n"
    ensures line != "" && line[|line| - 1] == '\n' && Decode(line[..|line| - 1]) == Bytes(user + [':' as int] + password)
  {
    hide Encode, Decode;
    var text := Credentials(user, password);
    AcceptedCredentialsFit(user, password);
    var base64buff := text + [0];
    TerminatedLength(text);
    var bAuth := new char[B_AUTH_SIZE];
    Base64Enc(bAuth, base64buff);
    ghost var e := Encode(text);
    assert base64buff[..|text|] == text;
    var len := 4 * ((|text| + 2) / 3);
    assert bAuth[..len] == e;
    bAuth[len + 1] := '\0';
    bAuth[len] := '\n';
    line := bAuth[..len + 1];
    assert line == e + "\n" && line[..|line| - 1] == e;
  }

  lemma {:induction false} TerminatedLength(text: seq<byte>)
    requires 0 !in text
    ensures 0 in text + [0] && StrLen(text + [0]) == |text|
  {
    var s := text + [0];
    assert s[|text|] == 0;
    if text != [] {
      assert s[1..] == text[1..] + [0];
      TerminatedLength(text[1..]);
    }
  }
}
