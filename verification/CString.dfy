/** Strings as the C library functions see them: characters of a byte buffer, white space,
    decimal numbers. */
module CString {
  import opened Words
  import opened Seqs

  // ---------------------------------------------------------------- bytes and characters

  /** The bytes of a buffer as characters. */
  function Text(bytes: seq<byte>): (s: string)
    ensures |s| == |bytes|
  {
    seq(|bytes|, i requires 0 <= i < |bytes| => bytes[i] as char)
  }

  /** Characters as the bytes of a buffer. */
  function ToBytes(s: string): (bytes: seq<byte>)
    ensures |bytes| == |s|
  {
    seq(|s|, i requires 0 <= i < |s| => (s[i] as int) % 0x100)
  }

  lemma BytesOfText(bytes: seq<byte>)
    ensures ToBytes(Text(bytes)) == bytes
  {
  }

  lemma TextOfBytes(s: string)
    requires forall c :: c in s ==> c < 256 as char
    ensures Text(ToBytes(s)) == s
  {
    forall i | 0 <= i < |s|
      ensures Text(ToBytes(s))[i] == s[i]
    {
      assert s[i] in s;
    }
  }

  lemma TextParts(a: seq<byte>, b: seq<byte>)
    ensures Text(a + b) == Text(a) + Text(b)
  {
  }

  lemma TextSlice(bytes: seq<byte>, i: nat, j: nat)
    requires i <= j <= |bytes|
    ensures Text(bytes)[i..j] == Text(bytes[i..j])
  {
  }

  lemma BytesParts(s: string, t: string)
    ensures ToBytes(s + t) == ToBytes(s) + ToBytes(t)
  {
  }

  // ---------------------------------------------------------------- numbers

  predicate IsSpace(c: char) {
    c == ' ' || c == '\t' || c == '\n' || c == '\r' || c == 11 as char || c == 12 as char
  }

  function SkipSpace(s: string): string {
    if s != "" && IsSpace(s[0]) then SkipSpace(s[1..]) else s
  }

  predicate IsDigit(c: char) {
    '0' <= c <= '9'
  }

  /** A run of digits and what follows it. */
  function Digits(s: string, acc: nat): (nat, string) {
    if s != "" && IsDigit(s[0]) then Digits(s[1..], acc * 10 + (s[0] as int - '0' as int)) else (acc, s)
  }

  /** The conversion %d: white space, an optional sign, at least one digit. */
  function ScanInt(s: string): Option<(int, string)> {
    var t := SkipSpace(s);
    var neg := t != "" && t[0] == '-';
    var u := if t != "" && (t[0] == '-' || t[0] == '+') then t[1..] else t;
    if u == "" || !IsDigit(u[0]) then None
    else
      var (v, rest) := Digits(u, 0);
      Some((if neg then -(v as int) else v, rest))
  }

  /** os_strtoul in base 10: 0 without digits, the largest value when they do not fit 32 bits. */
  function StrToUl(s: string): u32 {
    match ScanInt(s)
    case None => 0
    case Some((v, _)) => if v > 0xFFFF_FFFF || -v > 0xFFFF_FFFF then 0xFFFF_FFFF else Wrap(v)
  }

  function Decimal(n: nat): (s: string)
    ensures s != "" && forall c :: c in s ==> IsDigit(c)
  {
    if n < 10 then [('0' as int + n) as char] else Decimal(n / 10) + [('0' as int + n % 10) as char]
  }

  lemma {:induction false} DigitsSnoc(s: string, c: char, acc: nat)
    requires (forall d :: d in s ==> IsDigit(d)) && IsDigit(c)
    ensures Digits(s, acc).1 == "" && Digits(s + [c], acc) == (Digits(s, acc).0 * 10 + (c as int - '0' as int), "")
    decreases |s|
  {
    if s == "" {
      assert s + [c] == [c] && [c][1..] == "";
    } else {
      assert s[0] in s && (s + [c])[1..] == s[1..] + [c];
      DigitsSnoc(s[1..], c, acc * 10 + (s[0] as int - '0' as int));
    }
  }

  lemma {:induction false} DigitsEnd(s: string, rest: string, acc: nat)
    requires (forall d :: d in s ==> IsDigit(d)) && (rest == "" || !IsDigit(rest[0]))
    ensures Digits(s + rest, acc) == (Digits(s, acc).0, rest)
    decreases |s|
  {
    if s == "" {
      assert s + rest == rest;
    } else {
      assert s[0] in s && (s + rest)[1..] == s[1..] + rest;
      assert forall d :: d in s[1..] ==> d in s;
      DigitsEnd(s[1..], rest, acc * 10 + (s[0] as int - '0' as int));
    }
  }

  lemma {:induction false} DigitsOfDecimal(n: nat)
    ensures Digits(Decimal(n), 0) == (n, "")
    decreases n
  {
    if n < 10 {
      assert Decimal(n)[1..] == "";
    } else {
      DigitsOfDecimal(n / 10);
      DigitsSnoc(Decimal(n / 10), ('0' as int + n % 10) as char, 0);
    }
  }

  lemma {:induction false} DecimalShort(n: nat, k: nat)
    requires k > 0 && n < Pow10(k)
    ensures |Decimal(n)| <= k
    decreases k
  {
    if n >= 10 {
      DecimalShort(n / 10, k - 1);
    }
  }

  /** A decimal number is read back, whatever follows it. */
  lemma DecimalScanned(n: nat, rest: string)
    requires rest == "" || !IsDigit(rest[0])
    ensures SkipSpace(Decimal(n) + rest) == Decimal(n) + rest
    ensures ScanInt(Decimal(n) + rest) == Some((n, rest))
  {
    hide Decimal, Digits;
    DigitsOfDecimal(n);
    DigitsEnd(Decimal(n), rest, 0);
    var s := Decimal(n);
    assert s[0] in s && IsDigit(s[0]) && (s + rest)[0] == s[0];
  }

  lemma {:induction false} SkipsSpaces(spaces: string, s: string)
    requires (forall c :: c in spaces ==> c in " \t\n\r" || c == 11 as char || c == 12 as char)
    ensures SkipSpace(spaces + s) == SkipSpace(s)
    decreases |spaces|
  {
    if spaces == "" {
      assert spaces + s == s;
    } else {
      assert spaces[0] in spaces && (spaces + s)[1..] == spaces[1..] + s;
      assert forall c :: c in spaces[1..] ==> c in spaces;
      SkipsSpaces(spaces[1..], s);
    }
  }

  /** White space and a sign in front of a number. */
  lemma SignedScanned(spaces: string, sign: string, n: nat, rest: string)
    requires (forall c :: c in spaces ==> c in " \t\n\r" || c == 11 as char || c == 12 as char)
    requires sign == "" || sign == "-" || sign == "+"
    requires rest == "" || !IsDigit(rest[0])
    ensures ScanInt(spaces + sign + Decimal(n) + rest) == Some((if sign == "-" then -(n as int) else n, rest))
  {
    hide Decimal;
    var t := sign + (Decimal(n) + rest);
    assert spaces + sign + Decimal(n) + rest == spaces + t;
    SkipsSpaces(spaces, t);
    DecimalScanned(n, rest);
    assert (Decimal(n) + rest)[0] == Decimal(n)[0] && Decimal(n)[0] in Decimal(n);
    assert sign == "" ==> t == Decimal(n) + rest;
    assert sign != "" ==> t[1..] == Decimal(n) + rest;
  }

  /** Text that does not begin with a number, a sign or white space. */
  lemma NothingScanned(s: string)
    requires s == "" || !(IsSpace(s[0]) || IsDigit(s[0]) || s[0] == '-' || s[0] == '+')
    ensures ScanInt(s) == None && StrToUl(s) == 0
  {
  }

  /** os_strtoul as C defines it: the number modulo 2^32, the largest value when the digits alone
      exceed it. */
  lemma UnsignedScanned(spaces: string, sign: string, n: nat, rest: string)
    requires (forall c :: c in spaces ==> c in " \t\n\r" || c == 11 as char || c == 12 as char)
    requires sign == "" || sign == "-" || sign == "+"
    requires rest == "" || !IsDigit(rest[0])
    ensures StrToUl(spaces + sign + Decimal(n) + rest)
         == if n > 0xFFFF_FFFF then 0xFFFF_FFFF else if sign == "-" && n > 0 then 0x1_0000_0000 - n else n
  {
    hide Decimal, ScanInt;
    SignedScanned(spaces, sign, n, rest);
  }
}
