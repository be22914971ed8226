/**
 * Base64 with the standard alphabet and mandatory padding (section 4 of
 * RFC 4648), decoded the way Go's StdEncoding does it when encoding/json fills
 * a []byte field: carriage returns and line feeds are skipped, padding may
 * only close the last quantum, and unused trailing bits are ignored.
 */
module Base64 {
  import opened Wrappers

  /** A byte of the decoded payload. */
  type Byte = x: int | 0 <= x < 256

  /** A 6-bit value, one base64 digit. */
  type Sextet = x: int | 0 <= x < 64

  /** A 24-bit group: three bytes or four base64 digits. */
  type Group = x: int | 0 <= x < 0x100_0000

  /** The character that stands for a 6-bit value in the standard alphabet. */
  function Alphabet(i: Sextet): (c: char)
    ensures c != '=' && c != '\r' && c != '\n'
  {
    if i < 26 then ('A' as int + i) as char
    else if i < 52 then ('a' as int + (i - 26)) as char
    else if i < 62 then ('0' as int + (i - 52)) as char
    else if i == 62 then '+'
    else '/'
  }

  /** The 6-bit value of an alphabet character; None for any other character. */
  function IndexOf(c: char): (r: Option<Sextet>)
    ensures r.Some? ==> Alphabet(r.value) == c
  {
    if 'A' <= c <= 'Z' then Some(c as int - 'A' as int)
    else if 'a' <= c <= 'z' then Some(c as int - 'a' as int + 26)
    else if '0' <= c <= '9' then Some(c as int - '0' as int + 52)
    else if c == '+' then Some(62)
    else if c == '/' then Some(63)
    else None
  }

  lemma IndexOfAlphabet(i: Sextet)
    ensures IndexOf(Alphabet(i)) == Some(i)
  {
  }

  /** Three bytes as one 24-bit group, most significant first. */
  function Join(b0: Byte, b1: Byte, b2: Byte): (n: Group)
  {
    b0 * 0x1_0000 + b1 * 0x100 + b2
  }

  /** The k-th 6-bit digit (k = 0 is the most significant) of a 24-bit group. */
  function Digit(n: Group, k: nat): (d: Sextet)
    requires k < 4
  {
    if k == 0 then n / 0x4_0000
    else if k == 1 then (n / 0x1000) % 64
    else if k == 2 then (n / 64) % 64
    else n % 64
  }

  /** Four 6-bit digits as one 24-bit group. */
  function Pack(c0: Sextet, c1: Sextet, c2: Sextet, c3: Sextet): (n: Group)
  {
    c0 * 0x4_0000 + c1 * 0x1000 + c2 * 64 + c3
  }

  /** The k-th byte (k = 0 is the most significant) of a 24-bit group. */
  function ByteOf(n: Group, k: nat): (b: Byte)
    requires k < 3
  {
    if k == 0 then n / 0x1_0000
    else if k == 1 then (n / 0x100) % 0x100
    else n % 0x100
  }

  lemma PackDigits(n: Group)
    ensures Pack(Digit(n, 0), Digit(n, 1), Digit(n, 2), Digit(n, 3)) == n
  {
    var d0, r0 := n / 0x4_0000, n % 0x4_0000;
    var d1, r1 := r0 / 0x1000, r0 % 0x1000;
    var d2, d3 := r1 / 64, r1 % 64;
    assert n / 0x1000 == d0 * 64 + d1;
    assert Digit(n, 1) == d1;
    assert n / 64 == (d0 * 64 + d1) * 64 + d2;
    assert Digit(n, 2) == d2;
    assert Digit(n, 3) == d3;
  }

  /** One byte survives its two padded digits. */
  lemma OneByteDigits(b0: Byte)
    ensures var n := Join(b0, 0, 0);
            ByteOf(Pack(Digit(n, 0), Digit(n, 1), 0, 0), 0) == b0
  {
    var n := Join(b0, 0, 0);
    PackDigits(n);
    JoinBytes(b0, 0, 0);
    assert n == 0x1000 * (b0 * 16);
    assert n / 64 == 64 * (b0 * 16);
    assert Digit(n, 2) == 0 && Digit(n, 3) == 0;
  }

  /** Two bytes survive their three padded digits. */
  lemma TwoByteDigits(b0: Byte, b1: Byte)
    ensures var n := Join(b0, b1, 0);
            var m := Pack(Digit(n, 0), Digit(n, 1), Digit(n, 2), 0);
            ByteOf(m, 0) == b0 && ByteOf(m, 1) == b1
  {
    var n := Join(b0, b1, 0);
    PackDigits(n);
    JoinBytes(b0, b1, 0);
    assert n == 64 * (b0 * 1024 + b1 * 4);
    assert Digit(n, 3) == 0;
    assert Pack(Digit(n, 0), Digit(n, 1), Digit(n, 2), 0) == n;
  }

  /** Three bytes survive their four digits. */
  lemma ThreeByteDigits(b0: Byte, b1: Byte, b2: Byte)
    ensures var n := Join(b0, b1, b2);
            var m := Pack(Digit(n, 0), Digit(n, 1), Digit(n, 2), Digit(n, 3));
            ByteOf(m, 0) == b0 && ByteOf(m, 1) == b1 && ByteOf(m, 2) == b2
  {
    var n := Join(b0, b1, b2);
    PackDigits(n);
    JoinBytes(b0, b1, b2);
  }

  lemma JoinBytes(b0: Byte, b1: Byte, b2: Byte)
    ensures ByteOf(Join(b0, b1, b2), 0) == b0
    ensures ByteOf(Join(b0, b1, b2), 1) == b1
    ensures ByteOf(Join(b0, b1, b2), 2) == b2
  {
    var n := Join(b0, b1, b2);
    var high := b0 * 0x100 + b1;
    assert n == high * 0x100 + b2;
    assert n / 0x100 == high && n % 0x100 == b2;
    assert high % 0x100 == b1;
    assert n == b0 * 0x1_0000 + (b1 * 0x100 + b2);
  }

  /** The four alphabet characters of a full 24-bit group. */
  function Quantum(n: Group): (q: string)
    ensures |q| == 4
  {
    [Alphabet(Digit(n, 0)), Alphabet(Digit(n, 1)), Alphabet(Digit(n, 2)), Alphabet(Digit(n, 3))]
  }

  /** Standard padded encoding: each 3-byte group becomes 4 characters. */
  function Encode(bs: seq<Byte>): (s: string)
    ensures |s| == 0 <==> |bs| == 0
    decreases |bs|
  {
    if |bs| == 0 then ""
    else if |bs| == 1 then
      var n := Join(bs[0], 0, 0);
      [Alphabet(Digit(n, 0)), Alphabet(Digit(n, 1)), '=', '=']
    else if |bs| == 2 then
      var n := Join(bs[0], bs[1], 0);
      [Alphabet(Digit(n, 0)), Alphabet(Digit(n, 1)), Alphabet(Digit(n, 2)), '=']
    else
      Quantum(Join(bs[0], bs[1], bs[2])) + Encode(bs[3..])
  }

  /** The input with every carriage return and line feed removed. */
  function SkipNewlines(s: string): (r: string)
    ensures |r| <= |s|
    ensures '\r' !in r && '\n' !in r
    ensures '\r' !in s && '\n' !in s ==> r == s
  {
    if |s| == 0 then ""
    else if s[0] == '\r' || s[0] == '\n' then SkipNewlines(s[1..])
    else [s[0]] + SkipNewlines(s[1..])
  }

  /**
   * One 4-character quantum. Padding is accepted only when the quantum is the
   * last one: "xx==" gives one byte, "xxx=" two, "xxxx" three.
   */
  function DecodeQuantum(a: char, b: char, c: char, d: char, last: bool): (r: Option<seq<Byte>>)
    ensures r.Some? ==> 1 <= |r.value| <= 3
    ensures r.Some? && !last ==> |r.value| == 3
  {
    if IndexOf(a).None? || IndexOf(b).None? then None
    else if c == '=' then
      if last && d == '=' then
        Some([ByteOf(Pack(IndexOf(a).value, IndexOf(b).value, 0, 0), 0)])
      else None
    else if IndexOf(c).None? then None
    else if d == '=' then
      if last then
        var n := Pack(IndexOf(a).value, IndexOf(b).value, IndexOf(c).value, 0);
        Some([ByteOf(n, 0), ByteOf(n, 1)])
      else None
    else if IndexOf(d).None? then None
    else
      var n := Pack(IndexOf(a).value, IndexOf(b).value, IndexOf(c).value, IndexOf(d).value);
      Some([ByteOf(n, 0), ByteOf(n, 1), ByteOf(n, 2)])
  }

  /**
   * Decodes a newline-free text quantum by quantum; the length must be a
   * multiple of 4. Every 4 characters give 3 bytes, except that the last
   * quantum may give only 1 or 2.
   */
  function DecodeQuanta(s: string): (r: Option<seq<Byte>>)
    ensures r.Some? ==> 4 * |r.value| <= 3 * |s| <= 4 * |r.value| + 8
    decreases |s|
  {
    if |s| == 0 then Some([])
    else if |s| < 4 then None
    else
      match DecodeQuantum(s[0], s[1], s[2], s[3], |s| == 4)
      case None => None
      case Some(head) =>
        match DecodeQuanta(s[4..])
        case None => None
        case Some(tail) => Some(head + tail)
  }

  /** A decodable non-empty text starts with a whole quantum, and what follows it decodes too. */
  lemma DecodeQuantaTail(s: string)
    requires |s| > 0
    ensures DecodeQuanta(s).Some? ==> |s| >= 4 && DecodeQuanta(s[4..]).Some?
  {
  }

  /** Only text made of whole 4-character quanta decodes. */
  lemma {:induction false} DecodeQuantaWholeQuanta(s: string)
    requires DecodeQuanta(s).Some?
    ensures |s| % 4 == 0
    decreases |s|
  {
    if |s| > 0 {
      DecodeQuantaTail(s);
      var rest := s[4..];
      DecodeQuantaWholeQuanta(rest);
      OneMoreQuantum(|rest|);
      assert |s| == |rest| + 4;
    }
  }

  lemma OneMoreQuantum(n: nat)
    requires n % 4 == 0
    ensures (n + 4) % 4 == 0
  {
  }

  /** Go's base64.StdEncoding.DecodeString: None stands for a CorruptInputError. */
  function Decode(s: string): (r: Option<seq<Byte>>)
    ensures r.Some? ==> 4 * |r.value| <= 3 * |s|
    ensures r.Some? && '\r' !in s && '\n' !in s ==> 3 * |s| <= 4 * |r.value| + 8
  {
    DecodeQuanta(SkipNewlines(s))
  }

  /** Skipping newlines works piecewise: the kept characters stay in order. */
  lemma {:induction false} SkipNewlinesAppend(a: string, b: string)
    ensures SkipNewlines(a + b) == SkipNewlines(a) + SkipNewlines(b)
    decreases |a|
  {
    if |a| > 0 {
      assert (a + b)[0] == a[0] && (a + b)[1..] == a[1..] + b;
      SkipNewlinesAppend(a[1..], b);
    } else {
      assert a + b == b;
    }
  }

  /** Removing one carriage return or line feed leaves the same newline-free text. */
  lemma SkipNewlinesDropsNewline(a: string, b: string, c: char)
    requires c == '\r' || c == '\n'
    ensures SkipNewlines(a + [c] + b) == SkipNewlines(a + b)
  {
    var n := SkipNewlines([c]);
    assert [c][1..] == "";
    assert n == "";
    SkipNewlinesAppend(a + [c], b);
    SkipNewlinesAppend(a, [c]);
    SkipNewlinesAppend(a, b);
    assert SkipNewlines(a + [c]) == SkipNewlines(a) + n == SkipNewlines(a);
  }

  /** A carriage return or line feed anywhere in the input does not change what it decodes to. */
  lemma DecodeIgnoresNewline(a: string, b: string, c: char)
    requires c == '\r' || c == '\n'
    ensures Decode(a + [c] + b) == Decode(a + b)
  {
    SkipNewlinesDropsNewline(a, b, c);
  }

  lemma {:induction false} EncodeHasNoNewlines(bs: seq<Byte>)
    ensures '\r' !in Encode(bs) && '\n' !in Encode(bs)
    decreases |bs|
  {
    if |bs| >= 3 {
      EncodeHasNoNewlines(bs[3..]);
    }
  }

  lemma DecodeOneByte(b0: Byte)
    ensures DecodeQuanta(Encode([b0])) == Some([b0])
  {
    var n := Join(b0, 0, 0);
    IndexOfAlphabet(Digit(n, 0));
    IndexOfAlphabet(Digit(n, 1));
    OneByteDigits(b0);
    var q := Encode([b0]);
    assert q == [Alphabet(Digit(n, 0)), Alphabet(Digit(n, 1)), '=', '='];
    assert DecodeQuantum(q[0], q[1], q[2], q[3], true) == Some([b0]);
    assert q[4..] == "";
    assert DecodeQuanta(q) == Some([b0] + []);
    assert [b0] + [] == [b0];
  }

  lemma DecodeTwoBytes(b0: Byte, b1: Byte)
    ensures DecodeQuanta(Encode([b0, b1])) == Some([b0, b1])
  {
    var n := Join(b0, b1, 0);
    IndexOfAlphabet(Digit(n, 0));
    IndexOfAlphabet(Digit(n, 1));
    IndexOfAlphabet(Digit(n, 2));
    TwoByteDigits(b0, b1);
    var q := Encode([b0, b1]);
    assert q == [Alphabet(Digit(n, 0)), Alphabet(Digit(n, 1)), Alphabet(Digit(n, 2)), '='];
    assert DecodeQuantum(q[0], q[1], q[2], q[3], true) == Some([b0, b1]);
    assert q[4..] == "";
    assert DecodeQuanta(q) == Some([b0, b1] + []);
    assert [b0, b1] + [] == [b0, b1];
  }

  lemma DecodeThreeBytes(b0: Byte, b1: Byte, b2: Byte, last: bool)
    ensures var q := Quantum(Join(b0, b1, b2));
            DecodeQuantum(q[0], q[1], q[2], q[3], last) == Some([b0, b1, b2])
  {
    var n := Join(b0, b1, b2);
    IndexOfAlphabet(Digit(n, 0));
    IndexOfAlphabet(Digit(n, 1));
    IndexOfAlphabet(Digit(n, 2));
    IndexOfAlphabet(Digit(n, 3));
    ThreeByteDigits(b0, b1, b2);
  }

  lemma {:induction false} DecodeQuantaEncode(bs: seq<Byte>)
    ensures DecodeQuanta(Encode(bs)) == Some(bs)
    decreases |bs|
  {
    if |bs| == 0 {
    } else if |bs| == 1 {
      assert bs == [bs[0]];
      DecodeOneByte(bs[0]);
    } else if |bs| == 2 {
      assert bs == [bs[0], bs[1]];
      DecodeTwoBytes(bs[0], bs[1]);
    } else {
      var q := Quantum(Join(bs[0], bs[1], bs[2]));
      var rest := Encode(bs[3..]);
      var s := q + rest;
      assert Encode(bs) == s;
      assert s[0] == q[0] && s[1] == q[1] && s[2] == q[2] && s[3] == q[3];
      assert s[4..] == rest;
      DecodeThreeBytes(bs[0], bs[1], bs[2], |s| == 4);
      DecodeQuantaEncode(bs[3..]);
      assert DecodeQuanta(s) == Some([bs[0], bs[1], bs[2]] + bs[3..]);
      assert bs == [bs[0], bs[1], bs[2]] + bs[3..];
    }
  }

  /** Round trip: decoding the standard encoding of any bytes gives them back. */
  lemma DecodeEncode(bs: seq<Byte>)
    ensures Decode(Encode(bs)) == Some(bs)
  {
    EncodeHasNoNewlines(bs);
    DecodeQuantaEncode(bs);
  }
}
