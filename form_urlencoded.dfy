/** The application/x-www-form-urlencoded serializer of section 5.2 of the
    WHATWG URL Standard, which `URLSearchParams.prototype.toString()` runs,
    and the parser of section 5.1, kept here as the serializer's inverse.

    Strings are sequences of Unicode scalar values; a value is first encoded
    as UTF-8 and every byte outside the unreserved set is percent-encoded,
    except the space, which becomes `+`. */
module FormUrlEncoded {
  import opened Strings

  type Byte = b: int | 0 <= b < 256

  /** A name-value pair as `URLSearchParams.append` stores it. */
  type Pair = (string, string)

  // ---------------------------------------------------------------------
  // Serializer (section 5.2)
  // ---------------------------------------------------------------------

  /** The code points the application/x-www-form-urlencoded percent-encode
      set leaves as they are: ASCII alphanumerics and `*`, `-`, `.`, `_`. */
  predicate IsUnreserved(c: char)
  {
    ('a' <= c <= 'z') || ('A' <= c <= 'Z') || ('0' <= c <= '9')
    || c == '*' || c == '-' || c == '.' || c == '_'
  }

  /** The characters a serialized name or value can contain. */
  predicate IsSerializedChar(c: char)
  {
    IsUnreserved(c) || c == '+' || c == '%'
  }

  /** UTF-8 encoding of one scalar value (RFC 3629, section 3). */
  function Utf8(c: char): (bs: seq<Byte>)
    ensures 1 <= |bs| <= 4
    ensures |bs| == 1 <==> c as int < 0x80
  {
    var n := c as int;
    if n < 0x80 then [n]
    else if n < 0x800 then [0xC0 + n / 64, 0x80 + n % 64]
    else if n < 0x10000 then [0xE0 + n / 4096, 0x80 + n / 64 % 64, 0x80 + n % 64]
    else [0xF0 + n / 262144, 0x80 + n / 4096 % 64, 0x80 + n / 64 % 64, 0x80 + n % 64]
  }

  /** Upper-case hexadecimal digit, as percent-encoding writes it. */
  function HexDigit(d: int): (c: char)
    requires 0 <= d < 16
    ensures IsUnreserved(c)
  {
    if d < 10 then ('0' as int + d) as char else ('A' as int + d - 10) as char
  }

  predicate IsHexDigit(c: char)
  {
    ('0' <= c <= '9') || ('A' <= c <= 'F') || ('a' <= c <= 'f')
  }

  function HexValue(c: char): (v: int)
    requires IsHexDigit(c)
    ensures 0 <= v < 16
  {
    if '0' <= c <= '9' then c as int - '0' as int
    else if 'A' <= c <= 'F' then c as int - 'A' as int + 10
    else c as int - 'a' as int + 10
  }

  /** `%XY` for one byte. */
  function PercentByte(b: Byte): string
  {
    ['%', HexDigit(b / 16), HexDigit(b % 16)]
  }

  function PercentEncode(bs: seq<Byte>): (s: string)
    ensures |s| == 3 * |bs|
    ensures forall i :: 0 <= i < |s| ==> IsSerializedChar(s[i])
  {
    if bs == [] then [] else PercentByte(bs[0]) + PercentEncode(bs[1..])
  }

  function EncodeChar(c: char): string
  {
    if c == ' ' then "+"
    else if IsUnreserved(c) then [c]
    else PercentEncode(Utf8(c))
  }

  /** The urlencoded serialization of one name or value. Its output never
      holds the `&` and `=` that delimit pairs. */
  function Encode(s: string): (r: string)
    ensures forall i :: 0 <= i < |r| ==> IsSerializedChar(r[i])
    ensures '&' !in r && '=' !in r
  {
    if s == [] then [] else EncodeChar(s[0]) + Encode(s[1..])
  }

  function EncodePair(p: Pair): string
  {
    Encode(p.0) + "=" + Encode(p.1)
  }

  /** `name=value` for every pair, in order, joined by `&`. */
  function Serialize(pairs: seq<Pair>): (r: string)
    ensures r == "" <==> pairs == []
    ensures forall i :: 0 <= i < |r| ==> IsSerializedChar(r[i]) || r[i] == '=' || r[i] == '&'
  {
    if pairs == [] then ""
    else if |pairs| == 1 then EncodePair(pairs[0])
    else EncodePair(pairs[0]) + "&" + Serialize(pairs[1..])
  }

  // ---------------------------------------------------------------------
  // Parser (section 5.1), the serializer's partner
  // ---------------------------------------------------------------------

  /** Reads one `%XY` byte from the front of `s`. */
  function ReadByte(s: string): (r: Option<(Byte, string)>)
    ensures r.Some? ==> 3 <= |s| && r.value.1 == s[3..]
  {
    if 3 <= |s| && s[0] == '%' && IsHexDigit(s[1]) && IsHexDigit(s[2])
    then Some((16 * HexValue(s[1]) + HexValue(s[2]), s[3..]))
    else None
  }

  /** Reads one percent-encoded UTF-8 continuation byte and gives its six
      payload bits. */
  function ReadContinuation(s: string): (r: Option<(int, string)>)
    ensures r.Some? ==> 0 <= r.value.0 < 64 && |r.value.1| == |s| - 3
  {
    match ReadByte(s)
    case None => None
    case Some((b, rest)) => if 0x80 <= b < 0xC0 then Some((b - 0x80, rest)) else None
  }

  /** Reads the percent-encoded UTF-8 sequence of one scalar value. Overlong
      forms, surrogates and values past U+10FFFF are rejected. */
  function ReadScalar(s: string): (r: Option<(char, string)>)
    ensures r.Some? ==> |r.value.1| < |s|
  {
    match ReadByte(s)
    case None => None
    case Some((b0, s1)) => ReadSequence(b0, s1)
  }

  /** The rest of a sequence whose lead byte `b0` has been read. */
  function ReadSequence(b0: Byte, s1: string): (r: Option<(char, string)>)
    ensures r.Some? ==> |r.value.1| <= |s1|
  {
    if b0 < 0x80 then Some((b0 as char, s1))
    else if 0xC2 <= b0 < 0xE0 then ReadTwo(b0, s1)
    else if 0xE0 <= b0 < 0xF0 then ReadThree(b0, s1)
    else if 0xF0 <= b0 < 0xF5 then ReadFour(b0, s1)
    else None
  }

  function ReadTwo(b0: Byte, s1: string): (r: Option<(char, string)>)
    requires 0xC2 <= b0 < 0xE0
    ensures r.Some? ==> |r.value.1| < |s1|
  {
    match ReadContinuation(s1)
    case None => None
    case Some((x1, s2)) => Some((((b0 - 0xC0) * 64 + x1) as char, s2))
  }

  function ReadThree(b0: Byte, s1: string): (r: Option<(char, string)>)
    requires 0xE0 <= b0 < 0xF0
    ensures r.Some? ==> |r.value.1| < |s1|
  {
    match ReadContinuation(s1)
    case None => None
    case Some((x1, s2)) =>
      match ReadContinuation(s2)
      case None => None
      case Some((x2, s3)) =>
        var v := (b0 - 0xE0) * 4096 + x1 * 64 + x2;
        if 0x800 <= v && !(0xD800 <= v < 0xE000) then Some((v as char, s3)) else None
  }

  function ReadFour(b0: Byte, s1: string): (r: Option<(char, string)>)
    requires 0xF0 <= b0 < 0xF5
    ensures r.Some? ==> |r.value.1| < |s1|
  {
    match ReadContinuation(s1)
    case None => None
    case Some((x1, s2)) =>
      match ReadContinuation(s2)
      case None => None
      case Some((x2, s3)) =>
        match ReadContinuation(s3)
        case None => None
        case Some((x3, s4)) =>
          var v := (b0 - 0xF0) * 262144 + x1 * 4096 + x2 * 64 + x3;
          if 0x10000 <= v < 0x110000 then Some((v as char, s4)) else None
  }

  function Prepend(c: char, o: Option<string>): Option<string>
  {
    match o
    case None => None
    case Some(t) => Some([c] + t)
  }

  /** Decodes one name or value: `+` is a space, `%XY` runs are UTF-8, and a
      `%` not followed by two hex digits stands for itself. A malformed UTF-8
      run gives None. */
  function Decode(s: string): Option<string>
    decreases |s|
  {
    if s == [] then Some([])
    else if s[0] == '+' then Prepend(' ', Decode(s[1..]))
    else if s[0] == '%' && ReadByte(s).None? then Prepend('%', Decode(s[1..]))
    else if s[0] == '%' then
      (match ReadScalar(s)
       case None => None
       case Some((c, rest)) => Prepend(c, Decode(rest)))
    else Prepend(s[0], Decode(s[1..]))
  }

  /** Splits `s` at every `d`; there is always at least one piece. */
  function Split(s: string, d: char): (pieces: seq<string>)
    ensures |pieces| >= 1
  {
    if s == [] then [[]]
    else
      var rest := Split(s[1..], d);
      if s[0] == d then [[]] + rest else [[s[0]] + rest[0]] + rest[1..]
  }

  /** Splits `s` at its first `d`; without one, the second part is empty. */
  function SplitOnce(s: string, d: char): (string, string)
  {
    if s == [] then ([], [])
    else if s[0] == d then ([], s[1..])
    else
      var r := SplitOnce(s[1..], d);
      ([s[0]] + r.0, r.1)
  }

  function ParsePieces(pieces: seq<string>): Option<seq<Pair>>
  {
    if pieces == [] then Some([])
    else if pieces[0] == [] then ParsePieces(pieces[1..])
    else
      var nv := SplitOnce(pieces[0], '=');
      match (Decode(nv.0), Decode(nv.1), ParsePieces(pieces[1..]))
      case (Some(n), Some(v), Some(ps)) => Some([(n, v)] + ps)
      case _ => None
  }

  /** The urlencoded parser: split on `&`, skip empty pieces, split each
      piece on its first `=`, decode both halves. */
  function Parse(q: string): Option<seq<Pair>>
  {
    ParsePieces(Split(q, '&'))
  }

  // ---------------------------------------------------------------------
  // Round trip
  // ---------------------------------------------------------------------

  lemma {:induction false} HexRoundTrip(d: int)
    requires 0 <= d < 16
    ensures IsHexDigit(HexDigit(d)) && HexValue(HexDigit(d)) == d
  {
  }

  lemma {:induction false} ReadPercentByte(b: Byte, t: string)
    ensures ReadByte(PercentByte(b) + t) == Some((b, t))
  {
    var s := PercentByte(b) + t;
    HexRoundTrip(b / 16);
    HexRoundTrip(b % 16);
    assert s[0] == '%' && s[1] == HexDigit(b / 16) && s[2] == HexDigit(b % 16);
    assert s[3..] == t;
  }

  lemma {:induction false} ReadContinuationByte(b: Byte, t: string)
    requires 0x80 <= b < 0xC0
    ensures ReadContinuation(PercentByte(b) + t) == Some((b - 0x80, t))
  {
    ReadPercentByte(b, t);
  }

  /** Percent-encoding a byte sequence emits the bytes one after another. */
  lemma {:induction false} PercentEncodeCons(b: Byte, bs: seq<Byte>, t: string)
    ensures PercentEncode([b] + bs) + t == PercentByte(b) + (PercentEncode(bs) + t)
  {
    assert ([b] + bs)[1..] == bs;
  }

  lemma {:induction false} DivSplit(n: int, k: int)
    requires 0 <= n && 0 < k
    ensures n == k * (n / k) + n % k && 0 <= n % k < k
  {
  }

  lemma {:induction false} DivDiv64(n: int)
    requires 0 <= n
    ensures n / 64 / 64 == n / 4096 && n / 4096 / 64 == n / 262144
  {
  }

  lemma {:induction false} PercentUtf8Two(c: char, t: string)
    requires 0x80 <= c as int < 0x800
    ensures var n := c as int;
      PercentEncode(Utf8(c)) + t == PercentByte(0xC0 + n / 64) + (PercentByte(0x80 + n % 64) + t)
  {
    var n := c as int;
    var b0: Byte, b1: Byte := 0xC0 + n / 64, 0x80 + n % 64;
    assert Utf8(c) == [b0, b1];
    PercentEncodeCons(b0, [b1], t);
    PercentEncodeCons(b1, [], t);
  }

  lemma {:induction false} ReadTwoBytes(b0: Byte, b1: Byte, t: string)
    requires 0xC2 <= b0 < 0xE0 && 0x80 <= b1 < 0xC0
    ensures ReadScalar(PercentByte(b0) + (PercentByte(b1) + t))
         == Some((((b0 - 0xC0) * 64 + (b1 - 0x80)) as char, t))
  {
    var s1 := PercentByte(b1) + t;
    ReadPercentByte(b0, s1);
    ReadContinuationByte(b1, t);
    assert ReadTwo(b0, s1) == Some((((b0 - 0xC0) * 64 + (b1 - 0x80)) as char, t));
  }

  lemma {:induction false} ReadUtf8Two(c: char, t: string)
    requires 0x80 <= c as int < 0x800
    ensures var n := c as int;
      ReadScalar(PercentByte(0xC0 + n / 64) + (PercentByte(0x80 + n % 64) + t)) == Some((c, t))
  {
    var n := c as int;
    var b0: Byte, b1: Byte := 0xC0 + n / 64, 0x80 + n % 64;
    DivSplit(n, 64);
    ReadTwoBytes(b0, b1, t);
  }

  lemma {:induction false} ReadScalarTwo(c: char, t: string)
    requires 0x80 <= c as int < 0x800
    ensures ReadScalar(PercentEncode(Utf8(c)) + t) == Some((c, t))
  {
    PercentUtf8Two(c, t);
    ReadUtf8Two(c, t);
  }

  lemma {:induction false} Utf8ThreeValue(n: int)
    requires 0 <= n
    ensures n < 0x10000 ==> n / 4096 < 16
    ensures (n / 4096) * 4096 + (n / 64 % 64) * 64 + n % 64 == n
  {
    DivSplit(n, 64);
    DivSplit(n / 64, 64);
    DivDiv64(n);
  }

  lemma {:induction false} Utf8FourValue(n: int)
    requires 0 <= n < 0x110000
    ensures n / 262144 < 5
    ensures (n / 262144) * 262144 + (n / 4096 % 64) * 4096 + (n / 64 % 64) * 64 + n % 64 == n
  {
    Utf8ThreeValue(n);
    DivSplit(n / 4096, 64);
    DivDiv64(n);
  }

  /** `ReadThree` once the two continuation bytes have been read. */
  lemma {:induction false} ReadThreeSteps(b0: Byte, s1: string, x1: int, s2: string, x2: int, s3: string)
    requires 0xE0 <= b0 < 0xF0
    requires ReadContinuation(s1) == Some((x1, s2))
    requires ReadContinuation(s2) == Some((x2, s3))
    requires var v := (b0 - 0xE0) * 4096 + x1 * 64 + x2; 0x800 <= v && !(0xD800 <= v < 0xE000)
    ensures ReadThree(b0, s1) == Some((((b0 - 0xE0) * 4096 + x1 * 64 + x2) as char, s3))
  {
  }

  /** Reading three percent-encoded bytes whose scalar value is that of `c`. */
  lemma {:induction false} ReadThreeBytes(b0: Byte, b1: Byte, b2: Byte, c: char, t: string)
    requires 0xE0 <= b0 < 0xF0 && 0x80 <= b1 < 0xC0 && 0x80 <= b2 < 0xC0
    requires 0x800 <= c as int
    requires (b0 - 0xE0) * 4096 + (b1 - 0x80) * 64 + (b2 - 0x80) == c as int
    ensures ReadScalar(PercentByte(b0) + (PercentByte(b1) + (PercentByte(b2) + t))) == Some((c, t))
  {
    var s2 := PercentByte(b2) + t;
    var s1 := PercentByte(b1) + s2;
    ReadPercentByte(b0, s1);
    ReadContinuationByte(b1, s2);
    ReadContinuationByte(b2, t);
    ReadThreeSteps(b0, s1, b1 - 0x80, s2, b2 - 0x80, t);
  }

  /** `ReadFour` once the three continuation bytes have been read. */
  lemma {:induction false} ReadFourSteps(b0: Byte, s1: string, x1: int, s2: string, x2: int, s3: string, x3: int, s4: string)
    requires 0xF0 <= b0 < 0xF5
    requires ReadContinuation(s1) == Some((x1, s2))
    requires ReadContinuation(s2) == Some((x2, s3))
    requires ReadContinuation(s3) == Some((x3, s4))
    requires 0x10000 <= (b0 - 0xF0) * 262144 + x1 * 4096 + x2 * 64 + x3 < 0x110000
    ensures ReadFour(b0, s1) == Some((((b0 - 0xF0) * 262144 + x1 * 4096 + x2 * 64 + x3) as char, s4))
  {
  }

  /** Reading four percent-encoded bytes whose scalar value is that of `c`. */
  lemma {:induction false} ReadFourBytes(b0: Byte, b1: Byte, b2: Byte, b3: Byte, c: char, t: string)
    requires 0xF0 <= b0 < 0xF5 && 0x80 <= b1 < 0xC0 && 0x80 <= b2 < 0xC0 && 0x80 <= b3 < 0xC0
    requires 0x10000 <= c as int
    requires (b0 - 0xF0) * 262144 + (b1 - 0x80) * 4096 + (b2 - 0x80) * 64 + (b3 - 0x80) == c as int
    ensures ReadScalar(PercentByte(b0) + (PercentByte(b1) + (PercentByte(b2) + (PercentByte(b3) + t))))
         == Some((c, t))
  {
    var s3 := PercentByte(b3) + t;
    var s2 := PercentByte(b2) + s3;
    var s1 := PercentByte(b1) + s2;
    ReadPercentByte(b0, s1);
    ReadContinuationByte(b1, s2);
    ReadContinuationByte(b2, s3);
    ReadContinuationByte(b3, t);
    ReadFourSteps(b0, s1, b1 - 0x80, s2, b2 - 0x80, s3, b3 - 0x80, t);
  }

  lemma {:induction false} PercentUtf8Three(c: char, t: string)
    requires 0x800 <= c as int < 0x10000
    ensures var n := c as int;
      PercentEncode(Utf8(c)) + t
      == PercentByte(0xE0 + n / 4096) + (PercentByte(0x80 + n / 64 % 64) + (PercentByte(0x80 + n % 64) + t))
  {
    var n := c as int;
    assert n / 4096 < 16;
    var b0: Byte, b1: Byte, b2: Byte := 0xE0 + n / 4096, 0x80 + n / 64 % 64, 0x80 + n % 64;
    assert Utf8(c) == [b0, b1, b2];
    PercentEncodeChain3(b0, [b1, b2], t);
  }

  lemma {:induction false} ReadUtf8Three(c: char, t: string)
    requires 0x800 <= c as int < 0x10000
    ensures var n := c as int;
      ReadScalar(PercentByte(0xE0 + n / 4096) + (PercentByte(0x80 + n / 64 % 64) + (PercentByte(0x80 + n % 64) + t)))
      == Some((c, t))
  {
    var n := c as int;
    Utf8ThreeValue(n);
    ReadThreeBytes(0xE0 + n / 4096, 0x80 + n / 64 % 64, 0x80 + n % 64, c, t);
  }

  lemma {:induction false} ReadScalarThree(c: char, t: string)
    requires 0x800 <= c as int < 0x10000
    ensures ReadScalar(PercentEncode(Utf8(c)) + t) == Some((c, t))
  {
    PercentUtf8Three(c, t);
    ReadUtf8Three(c, t);
  }

  lemma {:induction false} PercentEncodeChain3(b0: Byte, bs: seq<Byte>, t: string)
    requires |bs| == 2
    ensures PercentEncode([b0] + bs) + t
         == PercentByte(b0) + (PercentByte(bs[0]) + (PercentByte(bs[1]) + t))
  {
    PercentEncodeCons(b0, bs, t);
    PercentEncodeCons(bs[0], bs[1..], t);
    PercentEncodeCons(bs[1], [], t);
    assert [bs[0]] + bs[1..] == bs;
    assert [bs[1]] + [] == bs[1..];
  }

  lemma {:induction false} PercentUtf8Four(c: char, t: string)
    requires 0x10000 <= c as int
    ensures var n := c as int;
      PercentEncode(Utf8(c)) + t
      == PercentByte(0xF0 + n / 262144) + (PercentByte(0x80 + n / 4096 % 64)
         + (PercentByte(0x80 + n / 64 % 64) + (PercentByte(0x80 + n % 64) + t)))
  {
    var n := c as int;
    assert n / 262144 < 5;
    var b0: Byte, b1: Byte, b2: Byte, b3: Byte :=
      0xF0 + n / 262144, 0x80 + n / 4096 % 64, 0x80 + n / 64 % 64, 0x80 + n % 64;
    assert Utf8(c) == [b0, b1, b2, b3];
    PercentEncodeChain4(b0, [b1, b2, b3], t);
  }

  lemma {:induction false} ReadUtf8Four(c: char, t: string)
    requires 0x10000 <= c as int
    ensures var n := c as int;
      ReadScalar(PercentByte(0xF0 + n / 262144) + (PercentByte(0x80 + n / 4096 % 64)
         + (PercentByte(0x80 + n / 64 % 64) + (PercentByte(0x80 + n % 64) + t))))
      == Some((c, t))
  {
    var n := c as int;
    Utf8FourValue(n);
    ReadFourBytes(0xF0 + n / 262144, 0x80 + n / 4096 % 64, 0x80 + n / 64 % 64, 0x80 + n % 64, c, t);
  }

  lemma {:induction false} ReadScalarFour(c: char, t: string)
    requires 0x10000 <= c as int
    ensures ReadScalar(PercentEncode(Utf8(c)) + t) == Some((c, t))
  {
    PercentUtf8Four(c, t);
    ReadUtf8Four(c, t);
  }

  lemma {:induction false} PercentEncodeChain4(b0: Byte, bs: seq<Byte>, t: string)
    requires |bs| == 3
    ensures PercentEncode([b0] + bs) + t
         == PercentByte(b0) + (PercentByte(bs[0]) + (PercentByte(bs[1]) + (PercentByte(bs[2]) + t)))
  {
    PercentEncodeCons(b0, bs, t);
    PercentEncodeCons(bs[0], bs[1..], t);
    PercentEncodeCons(bs[1], bs[2..], t);
    PercentEncodeCons(bs[2], [], t);
    assert [bs[0]] + bs[1..] == bs;
    assert [bs[1]] + bs[2..] == bs[1..];
    assert [bs[2]] + [] == bs[2..];
  }

  lemma {:induction false} DecodeEncodeChar(c: char, t: string)
    ensures Decode(EncodeChar(c) + t) == Prepend(c, Decode(t))
  {
    var s := EncodeChar(c) + t;
    if c == ' ' || IsUnreserved(c) {
      assert s[1..] == t;
    } else {
      var n := c as int;
      if n < 0x80 {
        assert Utf8(c) == [n];
        PercentEncodeCons(n, [], t);
        ReadPercentByte(n, t);
      } else if n < 0x800 {
        ReadScalarTwo(c, t);
      } else if n < 0x10000 {
        ReadScalarThree(c, t);
      } else {
        ReadScalarFour(c, t);
      }
      assert s[0] == '%';
      assert ReadScalar(s) == Some((c, t));
    }
  }

  /** Decoding undoes encoding, for every string. */
  lemma {:induction false} DecodeEncode(s: string)
    ensures Decode(Encode(s)) == Some(s)
  {
    if s != [] {
      DecodeEncode(s[1..]);
      DecodeEncodeChar(s[0], Encode(s[1..]));
      assert [s[0]] + s[1..] == s;
    }
  }

  /** Two different values never serialize alike. */
  lemma {:induction false} EncodeInjective(s: string, t: string)
    requires Encode(s) == Encode(t)
    ensures s == t
  {
    DecodeEncode(s);
    DecodeEncode(t);
  }

  /** A value made only of unreserved characters is serialized as it is. */
  lemma {:induction false} EncodeUnreserved(s: string)
    requires forall i :: 0 <= i < |s| ==> IsUnreserved(s[i])
    ensures Encode(s) == s
  {
    if s != [] {
      EncodeUnreserved(s[1..]);
      assert [s[0]] + s[1..] == s;
    }
  }

  /** Values are serialized character by character, so serializing a
      concatenation concatenates the serializations. */
  lemma {:induction false} EncodeConcat(a: string, b: string)
    ensures Encode(a + b) == Encode(a) + Encode(b)
  {
    if a == [] {
      assert a + b == b;
    } else {
      assert (a + b)[0] == a[0];
      assert (a + b)[1..] == a[1..] + b;
      EncodeConcat(a[1..], b);
    }
  }

  lemma {:induction false} EncodeSingle(c: char)
    ensures Encode([c]) == EncodeChar(c)
  {
    assert [c][1..] == [];
  }

  /** A space inside a value is written as `+`, and the text around it is
      serialized as it would be on its own. */
  lemma {:induction false} SpaceBecomesPlus(a: string, b: string)
    ensures Encode(a + " " + b) == Encode(a) + "+" + Encode(b)
  {
    EncodeConcat(a + [' '], b);
    EncodeConcat(a, [' ']);
    EncodeSingle(' ');
  }

  lemma {:induction false} SplitNoDelimiter(p: string, d: char)
    requires d !in p
    ensures Split(p, d) == [p]
  {
    if p != [] {
      SplitNoDelimiter(p[1..], d);
      assert [p[0]] + p[1..] == p;
    }
  }

  lemma {:induction false} SplitAtDelimiter(p: string, d: char, t: string)
    requires d !in p
    ensures Split(p + [d] + t, d) == [p] + Split(t, d)
  {
    var s := p + [d] + t;
    if p == [] {
      assert s[1..] == t;
    } else {
      SplitAtDelimiter(p[1..], d, t);
      assert s[1..] == p[1..] + [d] + t;
      assert [p[0]] + p[1..] == p;
    }
  }

  lemma {:induction false} SplitOnceAtDelimiter(n: string, d: char, v: string)
    requires d !in n
    ensures SplitOnce(n + [d] + v, d) == (n, v)
  {
    var s := n + [d] + v;
    if n == [] {
      assert s[1..] == v;
    } else {
      SplitOnceAtDelimiter(n[1..], d, v);
      assert s[1..] == n[1..] + [d] + v;
      assert [n[0]] + n[1..] == n;
    }
  }

  lemma {:induction false} ParseEncodedPair(p: Pair, rest: seq<string>)
    ensures ParsePieces([EncodePair(p)] + rest) == Prepend2(p, ParsePieces(rest))
  {
    var piece := EncodePair(p);
    assert piece == Encode(p.0) + ['='] + Encode(p.1);
    assert piece != [];
    SplitOnceAtDelimiter(Encode(p.0), '=', Encode(p.1));
    DecodeEncode(p.0);
    DecodeEncode(p.1);
    assert ([piece] + rest)[1..] == rest;
  }

  function Prepend2(p: Pair, o: Option<seq<Pair>>): Option<seq<Pair>>
  {
    match o
    case None => None
    case Some(ps) => Some([p] + ps)
  }

  /** Parsing a serialization gives back the same pairs in the same order. */
  lemma {:induction false} ParseSerialize(pairs: seq<Pair>)
    ensures Parse(Serialize(pairs)) == Some(pairs)
  {
    if pairs == [] {
    } else if |pairs| == 1 {
      var piece := EncodePair(pairs[0]);
      assert '&' !in piece;
      SplitNoDelimiter(piece, '&');
      ParseEncodedPair(pairs[0], []);
      assert [pairs[0]] + [] == pairs;
    } else {
      var piece := EncodePair(pairs[0]);
      assert '&' !in piece;
      SplitAtDelimiter(piece, '&', Serialize(pairs[1..]));
      ParseSerialize(pairs[1..]);
      ParseEncodedPair(pairs[0], Split(Serialize(pairs[1..]), '&'));
      assert [pairs[0]] + pairs[1..] == pairs;
    }
  }

  /** `SerializePieces` for pairs whose names the encoder leaves as they are:
      each piece is the name itself, `=` and the encoded value. */
  lemma {:induction false} PlainNamePieces(pairs: seq<Pair>)
    requires pairs != []
    requires forall i :: 0 <= i < |pairs| ==> Encode(pairs[i].0) == pairs[i].0
    ensures |Split(Serialize(pairs), '&')| == |pairs|
    ensures forall i :: 0 <= i < |pairs| ==> Split(Serialize(pairs), '&')[i] == pairs[i].0 + "=" + Encode(pairs[i].1)
  {
    SerializePieces(pairs);
  }

  /** Splitting a serialization at `&` gives one `name=value` piece per
      pair, in order. */
  lemma {:induction false} SerializePieces(pairs: seq<Pair>)
    requires pairs != []
    ensures |Split(Serialize(pairs), '&')| == |pairs|
    ensures forall i :: 0 <= i < |pairs| ==> Split(Serialize(pairs), '&')[i] == EncodePair(pairs[i])
  {
    var s := Serialize(pairs);
    var piece := EncodePair(pairs[0]);
    assert '&' !in piece;
    if |pairs| == 1 {
      SplitNoDelimiter(piece, '&');
      assert s == piece;
    } else {
      var rest := Serialize(pairs[1..]);
      assert s == piece + ['&'] + rest;
      SplitAtDelimiter(piece, '&', rest);
      SerializePieces(pairs[1..]);
      var tail := Split(rest, '&');
      assert Split(s, '&') == [piece] + tail;
      forall i | 1 <= i < |pairs|
        ensures Split(s, '&')[i] == EncodePair(pairs[i])
      {
        assert Split(s, '&')[i] == tail[i - 1];
        assert pairs[1..][i - 1] == pairs[i];
      }
    }
  }
}
