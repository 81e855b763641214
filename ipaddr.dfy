// The parts of Go's `net` package that the docker IPAM allocator relies on,
// for IPv4 only: 16-byte IPv4-in-IPv6 addresses, the byte-wise increment with
// carry, dotted-decimal parsing and printing, and CIDR networks.
module IpAddr {

  import opened Wrappers
  import opened Strings

  type Byte = x: int | 0 <= x < 256

  /** Length of an IPv4 address in bytes (net.IPv4len). */
  const IPv4Len: nat := 4
  /** Number of IPv4 addresses. */
  const IPv4Space: nat := 0x1_0000_0000

  function Pow256(n: nat): (r: nat)
    ensures r >= 1
  {
    if n == 0 then 1 else 256 * Pow256(n - 1)
  }

  function Pow2(n: nat): (r: nat)
    ensures r >= 1
  {
    if n == 0 then 1 else 2 * Pow2(n - 1)
  }

  /** The big-endian value of a byte string. */
  function Value(b: seq<Byte>): (v: nat)
    ensures v < Pow256(|b|)
  {
    if |b| == 0 then 0
    else
      var high := Value(b[..|b| - 1]);
      assert high * 256 + 255 <= (Pow256(|b| - 1) - 1) * 256 + 255;
      high * 256 + b[|b| - 1]
  }

  /** The n-byte big-endian encoding of x. */
  function BytesOf(x: nat, n: nat): (r: seq<Byte>)
    requires x < Pow256(n)
    ensures |r| == n && Value(r) == x
  {
    if n == 0 then []
    else
      var init := BytesOf(x / 256, n - 1);
      var r := init + [x % 256];
      assert r[..n - 1] == init;
      r
  }

  lemma {:induction false} BytesOfValue(b: seq<Byte>)
    ensures BytesOf(Value(b), |b|) == b
  {
    if |b| > 0 {
      var init := b[..|b| - 1];
      var v := Value(b);
      assert v == Value(init) * 256 + b[|b| - 1];
      assert v / 256 == Value(init) && v % 256 == b[|b| - 1];
      BytesOfValue(init);
      assert init + [b[|b| - 1]] == b;
    }
  }

  /** Encoding is injective on equal-length byte strings. */
  lemma {:induction false} ValueInjective(a: seq<Byte>, b: seq<Byte>)
    requires |a| == |b| && Value(a) == Value(b)
    ensures a == b
  {
    BytesOfValue(a);
    BytesOfValue(b);
  }

  // ---------------------------------------------------------------------
  // The increment used by the allocator: add one to the last byte and carry
  // towards the first, stopping at the first byte that does not wrap to 0.

  function Succ(b: seq<Byte>): (r: seq<Byte>)
    ensures |r| == |b|
  {
    if |b| == 0 then []
    else if b[|b| - 1] < 255 then b[..|b| - 1] + [b[|b| - 1] + 1]
    else Succ(b[..|b| - 1]) + [0]
  }

  /** One step of the carry: Succ of the first i + 1 bytes, by the byte at i. */
  lemma SuccPrefix(b: seq<Byte>, i: nat)
    requires i < |b|
    ensures Succ(b[..i + 1]) ==
              if b[i] < 255 then b[..i] + [b[i] + 1] else Succ(b[..i]) + [0]
  {
    assert b[..i + 1][..i] == b[..i];
  }

  /** Without a carry out of the first byte, Succ adds one to the value. */
  lemma {:induction false} SuccValue(b: seq<Byte>)
    requires Value(b) + 1 < Pow256(|b|)
    ensures Value(Succ(b)) == Value(b) + 1
  {
    if |b| > 0 {
      var init := b[..|b| - 1];
      var last := b[|b| - 1];
      if last < 255 {
        assert Succ(b)[..|b| - 1] == init;
      } else {
        assert Value(b) + 1 == (Value(init) + 1) * 256;
        SuccValue(init);
        assert Succ(b)[..|b| - 1] == Succ(init);
      }
    }
  }

  /** The carry stays inside the suffix a when a is not all 255s. */
  lemma {:induction false} SuccInside(p: seq<Byte>, a: seq<Byte>)
    requires Value(a) + 1 < Pow256(|a|)
    ensures Succ(p + a) == p + Succ(a)
    decreases |a|
  {
    assert |a| > 0;
    var init := a[..|a| - 1];
    assert (p + a)[..|p + a| - 1] == p + init;
    if a[|a| - 1] == 255 {
      assert Value(a) + 1 == (Value(init) + 1) * 256;
      SuccInside(p, init);
    }
  }

  /** When a is all 255s the carry leaves it, and a wraps to zeros. */
  lemma {:induction false} SuccOverflow(p: seq<Byte>, a: seq<Byte>)
    requires Value(a) + 1 == Pow256(|a|)
    ensures Succ(p + a) == Succ(p) + Zeros(|a|)
    decreases |a|
  {
    if |a| > 0 {
      var init := a[..|a| - 1];
      assert (p + a)[..|p + a| - 1] == p + init;
      assert Value(a) == Value(init) * 256 + a[|a| - 1];
      assert a[|a| - 1] == 255;
      assert (Value(init) + 1) * 256 == Pow256(|init|) * 256;
      SuccOverflow(p, init);
      assert Zeros(|a|) == Zeros(|init|) + [0];
    } else {
      assert p + a == p;
    }
  }

  function Zeros(n: nat): (r: seq<Byte>)
    ensures |r| == n && forall k :: 0 <= k < n ==> r[k] == 0
  {
    if n == 0 then [] else Zeros(n - 1) + [0]
  }

  // ---------------------------------------------------------------------
  // 16-byte addresses: net.ParseIP stores an IPv4 address as ::ffff:a.b.c.d.

  const V4InV6Prefix: seq<Byte> := [0, 0, 0, 0, 0, 0, 0, 0, 0, 0, 255, 255]

  /** IP.To4: the 4-byte form of an IPv4 address, None for anything else. */
  function To4(ip: seq<Byte>): (r: Option<seq<Byte>>)
    ensures r.Some? ==> |r.value| == 4
  {
    if |ip| == 4 then Some(ip)
    else if |ip| == 16 && ip[..12] == V4InV6Prefix then Some(ip[12..])
    else None
  }

  /** Incrementing a 16-byte IPv4 address below 255.255.255.255: it stays an
      IPv4 address and its value grows by one. */
  lemma {:induction false} IncrementMapped(a: seq<Byte>)
    requires |a| == 4 && Value(a) + 1 < IPv4Space
    ensures To4(Succ(V4InV6Prefix + a)) == Some(Succ(a))
    ensures Value(Succ(a)) == Value(a) + 1
  {
    assert Pow256(4) == IPv4Space;
    SuccInside(V4InV6Prefix, a);
    SuccValue(a);
    assert (V4InV6Prefix + Succ(a))[..12] == V4InV6Prefix;
    assert (V4InV6Prefix + Succ(a))[12..] == Succ(a);
  }

  /** Incrementing ::ffff:255.255.255.255 carries out of the IPv4 part, so the
      result is no longer an IPv4 address. */
  lemma {:induction false} IncrementMappedOverflow(a: seq<Byte>)
    requires |a| == 4 && Value(a) + 1 == IPv4Space
    ensures To4(Succ(V4InV6Prefix + a)) == None
  {
    assert Pow256(4) == IPv4Space;
    SuccOverflow(V4InV6Prefix, a);
    PrefixSucc();
    assert (Succ(V4InV6Prefix) + Zeros(4))[..12] == Succ(V4InV6Prefix);
  }

  /** The carry into the prefix turns its byte 9 from 0 into 1. */
  lemma {:induction false} PrefixSucc()
    ensures Succ(V4InV6Prefix)[9] == 1
  {
    var p := V4InV6Prefix;
    assert p[..11][..10] == p[..10];
    assert p[..10][..9] == p[..9];
    assert Succ(p[..10]) == p[..9] + [1];
    assert Succ(p[..11]) == Succ(p[..10]) + [0];
    assert Succ(p) == Succ(p[..11]) + [0];
  }

  // ---------------------------------------------------------------------
  // Dotted-decimal text. Go's parser reads the four fields of an IPv4
  // address from left to right: each a run of decimal digits without a
  // leading zero and worth at most 255, a dot between fields and nothing
  // after the last. IP.String prints each byte in its shortest decimal form.
  // The parser here scans by index, as the Go loop does.

  predicate IsDigit(c: char)
  {
    '0' <= c <= '9'
  }

  function DigitOf(c: char): int
  {
    c as int - '0' as int
  }

  function Digit(d: nat): (c: char)
    requires d < 10
    ensures IsDigit(c) && DigitOf(c) == d
  {
    ('0' as int + d) as char
  }

  /** The number of decimal digits in s from index i on. */
  function DigitRun(s: string, i: nat): (n: nat)
    requires i <= |s|
    ensures i + n <= |s|
    decreases |s| - i
  {
    if i < |s| && IsDigit(s[i]) then 1 + DigitRun(s, i + 1) else 0
  }

  /** The decimal value of the n characters from index i; the parsers pass
      only digits. */
  function Decimal(s: string, i: nat, n: nat): nat
    requires i + n <= |s|
    decreases n
  {
    if n == 0 then 0
    else Decimal(s, i, n - 1) * 10 + (if IsDigit(s[i + n - 1]) then DigitOf(s[i + n - 1]) else 0)
  }

  /** One field from index i: its byte and the index after it. */
  function ParseOctet(s: string, i: nat): (r: Option<(Byte, nat)>)
    requires i <= |s|
    ensures r.Some? ==> i < r.value.1 <= |s|
  {
    var n := DigitRun(s, i);
    if n == 0 || (n > 1 && s[i] == '0') || Decimal(s, i, n) > 255 then None
    else Some((Decimal(s, i, n), i + n))
  }

  /** `count` fields from index i on, a dot before each but the first, and
      nothing after the last. */
  function ParseFields(s: string, i: nat, count: nat): (r: Option<seq<Byte>>)
    requires i <= |s| && count >= 1
    ensures r.Some? ==> |r.value| == count
    decreases |s| - i
  {
    match ParseOctet(s, i)
    case None => None
    case Some((b, j)) =>
      if count == 1 then
        if j == |s| then Some([b]) else None
      else if j < |s| && s[j] == '.' then
        match ParseFields(s, j + 1, count - 1)
        case Some(bs) => Some([b] + bs)
        case None => None
      else None
  }

  /** Parsing of IPv4 text. */
  function ParseIPv4(s: string): (r: Option<seq<Byte>>)
    ensures r.Some? ==> |r.value| == 4
  {
    ParseFields(s, 0, 4)
  }

  /** net.ParseIP restricted to IPv4 text: the 16-byte form, or nil. */
  function ParseIP(s: string): (r: seq<Byte>)
    ensures |r| == 0 || |r| == 16
  {
    match ParseIPv4(s)
    case Some(a) => V4InV6Prefix + a
    case None => []
  }

  /** The shortest decimal text of a number, as Go's itoa writes it. */
  function DecimalText(n: nat): (r: string)
    ensures |r| >= 1
    decreases n
  {
    if n < 10 then [Digit(n)] else DecimalText(n / 10) + [Digit(n % 10)]
  }

  /** The text IP.String prints for one byte. */
  function OctetText(n: Byte): (r: string)
    ensures 1 <= |r| <= 3
  {
    OctetDigitsOf(n);
    DecimalText(n)
  }

  /** The one, two or three digits of a byte's text, written out. */
  lemma OctetDigitsOf(n: Byte)
    ensures n < 10 ==> DecimalText(n) == [Digit(n)]
    ensures 10 <= n < 100 ==> DecimalText(n) == [Digit(n / 10), Digit(n % 10)]
    ensures 100 <= n ==> DecimalText(n) == [Digit(n / 100), Digit(n / 10 % 10), Digit(n % 10)]
  {
    if n >= 100 {
      assert DecimalText(n / 100) == [Digit(n / 100)];
      assert n / 10 / 10 == n / 100;
    }
  }

  /** The shortest decimal text is made of digits, without a leading zero. */
  lemma OctetDigits(n: Byte)
    ensures forall k | 0 <= k < |OctetText(n)| :: IsDigit(OctetText(n)[k])
    ensures |OctetText(n)| > 1 ==> OctetText(n)[0] != '0'
  {
    OctetDigitsOf(n);
  }

  /** The printed fields of an address, joined by dots. */
  function FormatFields(a: seq<Byte>): (r: string)
    requires |a| >= 1
    ensures |r| >= 2 * |a| - 1
  {
    if |a| == 1 then OctetText(a[0]) else OctetText(a[0]) + ("." + FormatFields(a[1..]))
  }

  /** IP.String for an IPv4 address. */
  function Format4(a: seq<Byte>): (r: string)
    requires |a| == 4
  {
    FormatFields(a)
  }

  /** A run of k digits at index i that ends at the end or at a non-digit. */
  lemma {:induction false} DigitRunOf(s: string, i: nat, k: nat)
    requires i + k <= |s|
    requires forall m | i <= m < i + k :: IsDigit(s[m])
    requires i + k == |s| || !IsDigit(s[i + k])
    ensures DigitRun(s, i) == k
    decreases k
  {
    if k > 0 {
      DigitRunOf(s, i + 1, k - 1);
    }
  }

  /** The characters DigitRun counts are digits. */
  lemma {:induction false} DigitRunDigits(s: string, i: nat)
    requires i <= |s|
    ensures forall m | i <= m < i + DigitRun(s, i) :: IsDigit(s[m])
    decreases |s| - i
  {
    if i < |s| && IsDigit(s[i]) {
      DigitRunDigits(s, i + 1);
    }
  }

  /** The value of one, two and three digits, written out. */
  lemma {:induction false} DecimalShort(s: string, i: nat, n: nat)
    requires 1 <= n <= 3 && i + n <= |s|
    requires forall m | i <= m < i + n :: IsDigit(s[m])
    ensures n == 1 ==> Decimal(s, i, n) == DigitOf(s[i])
    ensures n == 2 ==> Decimal(s, i, n) == DigitOf(s[i]) * 10 + DigitOf(s[i + 1])
    ensures n == 3 ==> Decimal(s, i, n) == DigitOf(s[i]) * 100 + DigitOf(s[i + 1]) * 10 + DigitOf(s[i + 2])
  {
    assert Decimal(s, i, 0) == 0;
    assert Decimal(s, i, 1) == DigitOf(s[i]);
    if n >= 2 {
      assert Decimal(s, i, 2) == DigitOf(s[i]) * 10 + DigitOf(s[i + 1]);
    }
  }

  /** A run of four or more digits that starts with a non-zero digit is worth
      more than a byte. */
  lemma {:induction false} DecimalLarge(s: string, i: nat, n: nat)
    requires 4 <= n && i + n <= |s| && IsDigit(s[i]) && s[i] != '0'
    ensures Decimal(s, i, n) >= 1000
    decreases n
  {
    if n == 4 {
      assert Decimal(s, i, 1) >= 1;
      assert Decimal(s, i, 2) >= 10;
      assert Decimal(s, i, 3) >= 100;
    } else {
      DecimalLarge(s, i, n - 1);
    }
  }

  /** A printed byte after the text p, followed by the end or a dot, parses
      back. */
  lemma {:induction false} OctetAt(p: string, b: Byte, rest: string)
    requires |rest| == 0 || rest[0] == '.'
    ensures ParseOctet(p + (OctetText(b) + rest), |p|) == Some((b, |p| + |OctetText(b)|))
  {
    var t := OctetText(b);
    var s := p + (t + rest);
    var k := |t|;
    OctetDigits(b);
    forall m | |p| <= m < |p| + k
      ensures IsDigit(s[m])
    {
      assert s[m] == t[m - |p|];
    }
    DigitRunOf(s, |p|, k);
    DecimalShift(p, t, rest, k);
    OctetValue(b);
    assert s[|p|] == t[0];
  }

  /** The value of the first k characters of t does not depend on what
      surrounds t. */
  lemma {:induction false} DecimalShift(p: string, t: string, rest: string, k: nat)
    requires k <= |t|
    ensures Decimal(p + (t + rest), |p|, k) == Decimal(t, 0, k)
    decreases k
  {
    if k > 0 {
      DecimalShift(p, t, rest, k - 1);
      assert (p + (t + rest))[|p| + k - 1] == t[k - 1];
    }
  }

  /** The printed text of a byte is worth that byte. */
  lemma OctetValue(b: Byte)
    ensures Decimal(OctetText(b), 0, |OctetText(b)|) == b
  {
    var t := OctetText(b);
    OctetDigitsOf(b);
    OctetDigits(b);
    DecimalShort(t, 0, |t|);
    Recompose(b);
  }

  /** A number below 1000 is the sum of its digits times their weights. */
  lemma Recompose(b: int)
    requires 0 <= b
    ensures b == b / 10 * 10 + b % 10
    ensures b == b / 100 * 100 + b / 10 % 10 * 10 + b % 10
  {
    assert b / 10 / 10 == b / 100;
    assert b / 10 == b / 10 / 10 * 10 + b / 10 % 10;
  }

  /** The last field, which ends the text. */
  lemma {:induction false} ParseFieldsOne(s: string, i: nat, b: Byte)
    requires i <= |s| && ParseOctet(s, i) == Some((b, |s|))
    ensures ParseFields(s, i, 1) == Some([b])
  {
  }

  /** A field, a dot, and the fields after it. */
  lemma {:induction false} ParseFieldsCons(s: string, i: nat, b: Byte, j: nat, bs: seq<Byte>)
    requires i <= |s| && |bs| >= 1 && ParseOctet(s, i) == Some((b, j))
    requires j < |s| && s[j] == '.' && ParseFields(s, j + 1, |bs|) == Some(bs)
    ensures ParseFields(s, i, |bs| + 1) == Some([b] + bs)
  {
  }

  /** A field t after the text p, a dot, and fields f that parse on their own. */
  lemma {:induction false} ParseFieldsDot(p: string, t: string, f: string, b: Byte, bs: seq<Byte>)
    requires |bs| >= 1 && ParseOctet(p + (t + ("." + f)), |p|) == Some((b, |p| + |t|))
    requires ParseFields(p + t + "." + f, |p + t + "."|, |bs|) == Some(bs)
    ensures ParseFields(p + (t + ("." + f)), |p|, |bs| + 1) == Some([b] + bs)
  {
    var s := p + (t + ("." + f));
    assert s == p + t + "." + f;
    ParseFieldsCons(s, |p|, b, |p| + |t|, bs);
  }

  /** The last printed field after the text p parses back. */
  lemma {:induction false} ParseFieldsLast(p: string, b: Byte)
    ensures ParseFields(p + FormatFields([b]), |p|, 1) == Some([b])
  {
    assert p + FormatFields([b]) == p + (OctetText(b) + "");
    OctetAt(p, b, "");
    ParseFieldsOne(p + FormatFields([b]), |p|, b);
  }

  /** Printed fields after the text p parse back, field by field. */
  lemma {:induction false} ParseFieldsFormat(p: string, a: seq<Byte>)
    requires |a| >= 1
    ensures ParseFields(p + FormatFields(a), |p|, |a|) == Some(a)
    decreases |a|
  {
    hide ParseFields;
    if |a| == 1 {
      ParseFieldsLast(p, a[0]);
      assert [a[0]] == a;
    } else {
      ParseFieldsFormat(p + OctetText(a[0]) + ".", a[1..]);
      ParseFieldsFormatCons(p, a);
    }
  }

  /** The step of ParseFieldsFormat: the first field, then the rest. */
  lemma ParseFieldsFormatCons(p: string, a: seq<Byte>)
    requires |a| >= 2
    requires ParseFields(p + OctetText(a[0]) + "." + FormatFields(a[1..]), |p + OctetText(a[0]) + "."|, |a| - 1)
             == Some(a[1..])
    ensures ParseFields(p + FormatFields(a), |p|, |a|) == Some(a)
  {
    hide ParseFields;
    hide ParseOctet;
    var t := OctetText(a[0]);
    var bs := a[1..];
    var f := FormatFields(bs);
    assert FormatFields(a) == t + ("." + f);
    OctetAt(p, a[0], "." + f);
    ParseFieldsDot(p, t, f, a[0], bs);
    assert [a[0]] + bs == a;
  }

  /** Printing then parsing gives the address back. */
  lemma ParseFormat(a: seq<Byte>)
    requires |a| == 4
    ensures ParseIPv4(Format4(a)) == Some(a)
  {
    ParseFieldsFormat("", a);
    assert "" + Format4(a) == Format4(a);
  }

  lemma DigitText(c: char)
    requires IsDigit(c)
    ensures Digit(DigitOf(c)) == c
  {
  }

  /** The three digits of a number below 1000, recovered by division. */
  lemma DigitsOfThree(d0: int, d1: int, d2: int)
    requires 0 <= d0 < 10 && 0 <= d1 < 10 && 0 <= d2 < 10
    ensures (d0 * 100 + d1 * 10 + d2) / 100 == d0
    ensures (d0 * 100 + d1 * 10 + d2) / 10 % 10 == d1
    ensures (d0 * 100 + d1 * 10 + d2) % 10 == d2
  {
    var b := d0 * 100 + d1 * 10 + d2;
    assert b == (d0 * 10 + d1) * 10 + d2;
    assert b / 10 == d0 * 10 + d1;
  }

  /** A field that parses is the shortest text of its byte: the parser
      accepts only what OctetText prints. */
  lemma {:induction false} OctetCanonical(s: string, i: nat)
    requires i <= |s| && ParseOctet(s, i).Some?
    ensures s[i..ParseOctet(s, i).value.1] == OctetText(ParseOctet(s, i).value.0)
  {
    var n := DigitRun(s, i);
    DigitRunDigits(s, i);
    if n >= 4 {
      DecimalLarge(s, i, n);
    }
    DecimalShort(s, i, n);
    var b := Decimal(s, i, n);
    OctetDigitsOf(b);
    var d0 := DigitOf(s[i]);
    DigitText(s[i]);
    if n == 1 {
      assert s[i..i + 1] == [s[i]];
    } else if n == 2 {
      var d1 := DigitOf(s[i + 1]);
      DigitText(s[i + 1]);
      assert b / 10 == d0 && b % 10 == d1;
      assert s[i..i + 2] == [s[i], s[i + 1]];
    } else {
      var d1 := DigitOf(s[i + 1]);
      var d2 := DigitOf(s[i + 2]);
      DigitText(s[i + 1]);
      DigitText(s[i + 2]);
      DigitsOfThree(d0, d1, d2);
      assert s[i..i + 3] == [s[i], s[i + 1], s[i + 2]];
    }
  }

  /** s[i..] split at the character j. */
  lemma Around(s: string, i: nat, j: nat)
    requires i <= j < |s|
    ensures s[i..] == s[i..j] + ([s[j]] + s[j + 1..])
  {
  }

  /** A text that parses from index i on is the printed form of what it
      parses to. */
  lemma {:induction false} FormatOfParse(s: string, i: nat, count: nat)
    requires i <= |s| && count >= 1 && ParseFields(s, i, count).Some?
    ensures s[i..] == FormatFields(ParseFields(s, i, count).value)
    decreases count
  {
    var (b, j) := ParseOctet(s, i).value;
    OctetCanonical(s, i);
    var a := ParseFields(s, i, count).value;
    if count == 1 {
      assert a == [b];
    } else {
      FormatOfParse(s, j + 1, count - 1);
      var bs := ParseFields(s, j + 1, count - 1).value;
      assert a == [b] + bs;
      assert a[1..] == bs;
      Around(s, i, j);
    }
  }

  /** The parser accepts only printed addresses. */
  lemma FormatParse(s: string)
    requires ParseIPv4(s).Some?
    ensures s == Format4(ParseIPv4(s).value)
  {
    FormatOfParse(s, 0, 4);
    assert s[0..] == s;
  }

  /** The printed form of two or more fields ends in a dot and the last field. */
  lemma {:induction false} FormatLast(a: seq<Byte>) returns (head: string)
    requires |a| >= 2
    ensures FormatFields(a) == head + "." + OctetText(a[|a| - 1])
    decreases |a|
  {
    var first := OctetText(a[0]);
    if |a| == 2 {
      head := first;
      assert a[1..][0] == a[1];
    } else {
      var inner := FormatLast(a[1..]);
      assert a[1..][|a| - 2] == a[|a| - 1];
      head := first + "." + inner;
      DotRegroup(first, inner, OctetText(a[|a| - 1]));
    }
  }

  /** Regrouping of a dotted text around its middle part. */
  lemma DotRegroup(x: string, y: string, z: string)
    ensures x + ("." + (y + "." + z)) == x + "." + y + "." + z
  {
  }

  /** The printed form ends in ".0" (".1") exactly when the last byte is 0 (1). */
  lemma FormatSuffix(a: seq<Byte>)
    requires |a| == 4
    ensures HasSuffix(Format4(a), ".0") <==> a[3] == 0
    ensures HasSuffix(Format4(a), ".1") <==> a[3] == 1
  {
    var t := OctetText(a[3]);
    var head := FormatLast(a);
    OctetDigits(a[3]);
    OctetDigitsOf(a[3]);
    DotDigitSuffix(head, t, '0');
    DotDigitSuffix(head, t, '1');
  }

  /** Text ending in a dot and a run of digits ends in a dot and the digit c
      exactly when the run is c alone. */
  lemma DotDigitSuffix(head: string, t: string, c: char)
    requires 1 <= |t| && IsDigit(c)
    requires forall k | 0 <= k < |t| :: IsDigit(t[k])
    ensures HasSuffix(head + "." + t, ['.', c]) <==> t == [c]
  {
    var s := head + "." + t;
    var last2 := s[|s| - 2..];
    if |t| == 1 {
      assert last2 == ['.', t[0]];
    } else {
      assert last2[0] == t[|t| - 2];
    }
  }

  // ---------------------------------------------------------------------
  // CIDR networks.

  type Prefix = p: nat | p <= 32

  /** An IPv4 network: the masked network address and the prefix length. */
  datatype IPNet = IPNet(ip: seq<Byte>, prefix: Prefix)

  /** Number of addresses in a network with the given prefix length. */
  function Size(p: Prefix): (r: nat)
    ensures 1 <= r <= IPv4Space
  {
    Pow2Monotone(32 - p, 32);
    Pow2Space();
    Pow2(32 - p)
  }

  lemma {:induction false} Pow2Monotone(k: nat, m: nat)
    requires k <= m
    ensures Pow2(k) <= Pow2(m)
    decreases m - k
  {
    if k < m {
      Pow2Monotone(k + 1, m);
    }
  }

  lemma {:induction false} Pow2Space()
    ensures Pow2(32) == IPv4Space
  {
    assert Pow2(8) == 256;
    assert Pow2(16) == 65536;
    assert Pow2(24) == 0x100_0000;
  }

  // Euclidean division facts the network arithmetic needs.

  lemma {:induction false} MulStep(a: int, b: int, w: int)
    requires a > b && w > 0
    ensures a * w >= b * w + w
  {
    assert a * w == (a - b - 1) * w + b * w + w;
    assert (a - b - 1) * w >= 0;
  }

  lemma {:induction false} DivUnique(y: int, w: int, q: int)
    requires w > 0 && q * w <= y < q * w + w
    ensures y / w == q
  {
    var d := y / w;
    assert d * w + y % w == y && 0 <= y % w < w;
    if d > q {
      MulStep(d, q, w);
    } else if d < q {
      MulStep(q, d, w);
    }
  }

  lemma {:induction false} DivMonotone(x: int, y: int, w: int)
    requires w > 0 && x <= y
    ensures x / w <= y / w
  {
    var a, b := x / w, y / w;
    assert a * w + x % w == x && b * w + y % w == y;
    if a > b {
      MulStep(a, b, w);
    }
  }

  /** Clearing the host bits keeps the network part. */
  lemma {:induction false} DivMul(v: nat, w: nat)
    requires w >= 1
    ensures v / w * w <= v && (v / w * w) / w == v / w
  {
    assert v / w * w + v % w == v;
    DivUnique(v / w * w, w, v / w);
  }

  /** Euclidean quotient by repeated subtraction. */
  function Quot(v: nat, w: nat): nat
    requires w >= 1
    decreases v
  {
    if v < w then 0 else 1 + Quot(v - w, w)
  }

  /** Euclidean remainder by repeated subtraction. */
  function Rem(v: nat, w: nat): (r: nat)
    requires w >= 1
    ensures r < w
    decreases v
  {
    if v < w then v else Rem(v - w, w)
  }

  lemma {:induction false} QuotRem(v: nat, w: nat)
    requires w >= 1
    ensures Quot(v, w) == v / w && Rem(v, w) == v % w
    decreases v
  {
    if v < w {
      DivUnique(v, w, 0);
    } else {
      QuotRem(v - w, w);
      var q := (v - w) / w;
      assert q * w + (v - w) % w == v - w;
      assert (q + 1) * w == q * w + w;
      DivUnique(v, w, q + 1);
    }
  }

  /** IPNet.Contains's comparison: the top `prefix` bits of the address value
      v agree with those of the network address. */
  predicate SameNetwork(n: IPNet, v: nat)
  {
    Quot(v, Size(n.prefix)) == Quot(Value(n.ip), Size(n.prefix))
  }

  /** IPNet.Contains for a 16-byte or 4-byte address. */
  predicate NetContains(n: IPNet, ip: seq<Byte>)
  {
    match To4(ip)
    case Some(x) => |n.ip| == 4 && SameNetwork(n, Value(x))
    case None => false
  }

  /** A network as ParseCIDR builds it: four bytes, host bits clear. */
  predicate Aligned(n: IPNet)
  {
    |n.ip| == 4 && Rem(Value(n.ip), Size(n.prefix)) == 0
  }

  /** The addresses of a network, as an interval of values. */
  predicate InNet(n: IPNet, v: int)
  {
    Value(n.ip) <= v < Value(n.ip) + Size(n.prefix) && v < IPv4Space
  }

  /** For a network with its host bits clear, the bit comparison of
      IPNet.Contains selects exactly the interval InNet. */
  lemma {:induction false} SameNetworkIsInterval(n: IPNet, v: nat)
    requires Aligned(n) && v < IPv4Space
    ensures SameNetwork(n, v) <==> InNet(n, v)
  {
    var w := Size(n.prefix);
    QuotRem(v, w);
    QuotRem(Value(n.ip), w);
    SameQuotient(Value(n.ip), v, w);
  }

  /** For a multiple lo of w, v has the quotient of lo exactly when it lies in
      [lo, lo + w). */
  lemma {:induction false} SameQuotient(lo: nat, v: nat, w: nat)
    requires w >= 1 && lo % w == 0
    ensures v / w == lo / w <==> lo <= v < lo + w
  {
    var q, vq := lo / w, v / w;
    assert lo == q * w by {
      assert q * w + lo % w == lo;
    }
    assert vq * w + v % w == v && 0 <= v % w < w;
    if lo <= v < lo + w {
      DivUnique(v, w, q);
    }
    if vq == q {
      assert vq * w == lo;
    }
  }

  /** Containment of an address whose 4-byte form is x, as an interval test. */
  lemma {:induction false} ContainsIsInterval(n: IPNet, ip: seq<Byte>, x: seq<Byte>)
    requires Aligned(n) && To4(ip) == Some(x)
    ensures NetContains(n, ip) <==> InNet(n, Value(x))
  {
    assert Pow256(4) == IPv4Space;
    SameNetworkIsInterval(n, Value(x));
  }

  /** The network of prefix length p around address a: a with its host bits
      cleared (IP.Mask). The address itself lies in it. */
  function Network(a: seq<Byte>, p: Prefix): (r: IPNet)
    requires |a| == 4
    ensures Aligned(r) && r.prefix == p
    ensures InNet(r, Value(a))
  {
    var w := Size(p);
    var v := Value(a);
    var lo := v - Rem(v, w);
    RoundDown(v, w);
    assert Pow256(4) == IPv4Space;
    var b := BytesOf(lo, 4);
    assert Value(b) == lo;
    IPNet(b, p)
  }

  /** Clearing the remainder leaves a multiple of w. */
  lemma {:induction false} RoundDown(v: nat, w: nat)
    requires w >= 1
    ensures Rem(v, w) <= v && Rem(v - Rem(v, w), w) == 0
  {
    QuotRem(v, w);
    DivMul(v, w);
    MulMod(v / w, w);
    assert v == v / w * w + v % w;
    QuotRem(v - Rem(v, w), w);
  }

  lemma {:induction false} MulMod(q: nat, w: nat)
    requires w >= 1
    ensures (q * w) % w == 0
  {
    DivUnique(q * w, w, q);
    assert (q * w) / w * w + (q * w) % w == q * w;
  }

  /** net.ParseCIDR: the address up to the first '/', a decimal prefix length
      (leading zeros allowed) of at most 32 after it; the network is the
      address with its host bits cleared. */
  function ParseCIDR(s: string): (r: Option<IPNet>)
    ensures r.Some? ==> Aligned(r.value)
  {
    var i := FindFrom(s, '/', 0);
    if i == |s| then None
    else
      var a := ParseIPv4(s[..i]);
      var n := DigitRun(s, i + 1);
      if a.None? || n == 0 || i + 1 + n != |s| || Decimal(s, i + 1, n) > 32 then None
      else Some(Network(a.value, Decimal(s, i + 1, n)))
  }

  /** The address before the '/' of a valid CIDR lies in the network. */
  lemma {:induction false} BaseInNet(s: string)
    requires ParseCIDR(s).Some?
    ensures ParseIPv4(Before(s, '/')).Some?
    ensures InNet(ParseCIDR(s).value, Value(ParseIPv4(Before(s, '/')).value))
  {
  }

  /** The text of an IPv4 address given by its value. */
  function Text(v: nat): string
    requires v < IPv4Space
  {
    assert Pow256(IPv4Len) == IPv4Space;
    Format4(BytesOf(v, IPv4Len))
  }

  /** The value of an IPv4 text, None when it does not parse. */
  function AddrValue(s: string): (r: Option<nat>)
    ensures r.Some? ==> r.value < IPv4Space
  {
    assert Pow256(4) == IPv4Space;
    match ParseIPv4(s)
    case Some(a) => Some(Value(a))
    case None => None
  }

  lemma {:induction false} TextValue(v: nat)
    requires v < IPv4Space
    ensures AddrValue(Text(v)) == Some(v)
  {
    assert Pow256(IPv4Len) == IPv4Space;
    ParseFormat(BytesOf(v, IPv4Len));
  }

  /** An address text is determined by its value. */
  lemma {:induction false} AddrText(s: string)
    requires AddrValue(s).Some?
    ensures s == Text(AddrValue(s).value)
  {
    assert Pow256(4) == IPv4Space;
    var a := ParseIPv4(s).value;
    FormatParse(s);
    BytesOfValue(a);
  }

  lemma {:induction false} AddrValueInjective(s: string, t: string)
    requires AddrValue(s).Some? && AddrValue(s) == AddrValue(t)
    ensures s == t
  {
    AddrText(s);
    AddrText(t);
  }

  /** An address text has at least two characters (a digit and a dot). */
  lemma {:induction false} AddrLength(s: string)
    requires AddrValue(s).Some?
    ensures |s| >= 2
  {
    FormatParse(s);
  }
}
