/** `StringUtil::escapeForJson` against the string grammar of section 7 of RFC 8259. */
module JsonEscape {
  import opened Common

  const QUOTE: byte := 0x22
  const BACKSLASH: byte := 0x5c

  /** Lower-case hexadecimal digit, as `std::hex` prints it. */
  function HexDigit(d: nat): (b: byte)
    requires d < 16
    ensures HexValue(b) == Some(d) && b >= 0x20
  {
    if d < 10 then 0x30 + d else 0x61 + (d - 10)
  }

  /** HEXDIG in either case. */
  function HexValue(b: byte): (r: Option<nat>)
    ensures r.Some? ==> r.value < 16
  {
    if 0x30 <= b <= 0x39 then Some(b - 0x30)
    else if 0x61 <= b <= 0x66 then Some(b - 0x61 + 10)
    else if 0x41 <= b <= 0x46 then Some(b - 0x41 + 10)
    else None
  }

  /** What the two-character escape `\b` stands for; `u` is not one of these. */
  function ShortEscape(b: byte): Option<byte> {
    if b == 0x22 || b == 0x5c || b == 0x2f then Some(b)
    else if b == 0x62 then Some(0x08)
    else if b == 0x66 then Some(0x0c)
    else if b == 0x6e then Some(0x0a)
    else if b == 0x72 then Some(0x0d)
    else if b == 0x74 then Some(0x09)
    else None
  }

  /** UTF-8 of a basic-plane code point; a surrogate stands for no character by itself. */
  function Utf8(code: nat): Option<seq<byte>>
    requires code < 0x1_0000
  {
    if code < 0x80 then Some([code])
    else if code < 0x800 then Some([0xc0 + code / 64, 0x80 + code % 64])
    else if 0xd800 <= code < 0xe000 then None
    else Some([0xe0 + code / 4096, 0x80 + code / 64 % 64, 0x80 + code % 64])
  }

  /** The character of `\uabcd`. */
  function ReadUnicode(a: byte, b: byte, c: byte, d: byte): (r: Option<(nat, seq<byte>)>)
    ensures r.Some? ==> r.value.0 == 6
  {
    match (HexValue(a), HexValue(b), HexValue(c), HexValue(d))
    case (Some(w), Some(x), Some(y), Some(z)) =>
      (match Utf8(w * 4096 + x * 256 + y * 16 + z)
       case Some(t) => Some((6, t))
       case None => None)
    case _ => None
  }

  /** The first `char` of the RFC's string grammar: how many bytes it takes and what it denotes.
      Raw quotes and raw control characters are not in the grammar. */
  function ReadChar(s: seq<byte>): (r: Option<(nat, seq<byte>)>)
    requires s != []
    ensures r.Some? ==> 0 < r.value.0 <= |s|
  {
    if s[0] < 0x20 || s[0] == QUOTE then None
    else if s[0] != BACKSLASH then Some((1, [s[0]]))
    else if |s| < 2 then None
    else if s[1] == 0x75 then
      if |s| < 6 then None else ReadUnicode(s[2], s[3], s[4], s[5])
    else
      match ShortEscape(s[1])
      case Some(b) => Some((2, [b]))
      case None => None
  }

  /** The bytes a JSON string body denotes, or None when it is not one. */
  function Unescape(s: seq<byte>): Option<seq<byte>> {
    if s == [] then Some([])
    else
      match ReadChar(s)
      case None => None
      case Some((n, t)) =>
        match Unescape(s[n..])
        case None => None
        case Some(rest) => Some(t + rest)
  }

  /** What the loop body writes for one byte. A `char` is signed on the platforms the proxy targets,
      so bytes from 0x80 up compare below '\x00' and are written raw. */
  function EscapeByte(c: byte): (o: seq<byte>)
    ensures o != [] && forall i :: 0 <= i < |o| ==> o[i] >= 0x20
    ensures c >= 0x20 && c != QUOTE && c != BACKSLASH ==> o == [c]
  {
    if c == QUOTE then [BACKSLASH, QUOTE]
    else if c == BACKSLASH then [BACKSLASH, BACKSLASH]
    else if c == 0x08 then [BACKSLASH, 0x62]
    else if c == 0x0c then [BACKSLASH, 0x66]
    else if c == 0x0a then [BACKSLASH, 0x6e]
    else if c == 0x0d then [BACKSLASH, 0x72]
    else if c == 0x09 then [BACKSLASH, 0x74]
    else if c <= 0x1f then [BACKSLASH, 0x75, HexDigit(0), HexDigit(0), HexDigit(c / 16), HexDigit(c % 16)]
    else [c]
  }

  /** The whole output. */
  function Escape(source: seq<byte>): seq<byte> {
    if source == [] then [] else EscapeByte(source[0]) + Escape(source[1..])
  }

  /** Whatever follows, the reader takes exactly the escape of `c` and gets `c`. */
  lemma ReadEscaped(c: byte, rest: seq<byte>)
    ensures ReadChar(EscapeByte(c) + rest) == Some((|EscapeByte(c)|, [c]))
  {
    var o := EscapeByte(c);
    var s := o + rest;
    assert s[0] == o[0] && (|o| > 1 ==> s[1] == o[1]);
    if |o| == 6 {
      assert s[2] == o[2] && s[3] == o[3] && s[4] == o[4] && s[5] == o[5];
    }
  }

  /** Unescaping the escape of a byte string gives it back, and the escape holds no control byte. */
  lemma {:induction false} UnescapeEscape(source: seq<byte>)
    ensures Unescape(Escape(source)) == Some(source)
    ensures forall i :: 0 <= i < |Escape(source)| ==> Escape(source)[i] >= 0x20
  {
    if source != [] {
      var o, rest := EscapeByte(source[0]), Escape(source[1..]);
      UnescapeEscape(source[1..]);
      ReadEscaped(source[0], rest);
      UnescapeStep(o + rest, |o|, [source[0]], source[1..]);
      assert [source[0]] + source[1..] == source;
    }
  }

  lemma UnescapeStep(s: seq<byte>, n: nat, t: seq<byte>, rest: seq<byte>)
    requires s != [] && ReadChar(s) == Some((n, t)) && Unescape(s[n..]) == Some(rest)
    ensures Unescape(s) == Some(t + rest)
  {
  }

  /** The two-byte escapes and the six-byte ones, in small hexadecimal digits. */
  lemma EscapeForms(c: byte)
    ensures EscapeByte(0x22) == [0x5c, 0x22] && EscapeByte(0x5c) == [0x5c, 0x5c]
    ensures EscapeByte(0x08) == [0x5c, 0x62] && EscapeByte(0x0c) == [0x5c, 0x66]
    ensures EscapeByte(0x0a) == [0x5c, 0x6e] && EscapeByte(0x0d) == [0x5c, 0x72] && EscapeByte(0x09) == [0x5c, 0x74]
    ensures |EscapeByte(c)| == 6 <==> c < 0x20 && c !in {0x08, 0x09, 0x0a, 0x0c, 0x0d}
    ensures |EscapeByte(c)| == 6 ==> EscapeByte(c)[..5] == [0x5c, 0x75, 0x30, 0x30, if c < 0x10 then 0x30 else 0x31]
    ensures |EscapeByte(c)| == 6 ==>
      EscapeByte(c)[5] == if c % 16 < 10 then 0x30 + c % 16 else 0x61 + c % 16 - 10
  {
  }

  /** Bytes that need no escape stay as they are, and nothing else does. */
  lemma {:induction false} EscapeUnchanged(source: seq<byte>)
    ensures Escape(source) == source <==>
      forall i :: 0 <= i < |source| ==> source[i] >= 0x20 && source[i] != 0x22 && source[i] != 0x5c
    ensures |Escape(source)| >= |source|
  {
    if source != [] {
      var c, rest := source[0], source[1..];
      EscapeUnchanged(rest);
      assert source == [c] + rest;
      if c >= 0x20 && c != 0x22 && c != 0x5c {
        assert Escape(source) == [c] + Escape(rest);
        assert Escape(source) == source ==> Escape(source)[1..] == rest && Escape(source)[1..] == Escape(rest);
      } else {
        assert |Escape(source)| > |source|;
      }
    }
  }

  lemma EscapeStep(o: seq<byte>, source: seq<byte>, i: nat)
    requires i < |source|
    ensures o + Escape(source[i..]) == o + EscapeByte(source[i]) + Escape(source[i + 1..])
  {
    var c, rest := EscapeByte(source[i]), Escape(source[i + 1..]);
    assert source[i..][1..] == source[i + 1..];
    assert o + (c + rest) == o + c + rest;
  }

  /** Unescaping the output gives back every byte string, and the output holds no control byte; that
      it holds no unescaped quote is part of being a string body at all. */
  method EscapeForJson(source: seq<byte>) returns (o: seq<byte>)
    ensures Unescape(o) == Some(source)
    ensures forall i :: 0 <= i < |o| ==> o[i] >= 0x20
    ensures o == Escape(source)
  {
    o := [];
    for i := 0 to |source|
      invariant o + Escape(source[i..]) == Escape(source)
    {
      EscapeStep(o, source, i);
      o := o + EscapeByte(source[i]);
    }
    assert source[|source|..] == [];
    assert o + [] == o;
    UnescapeEscape(source);
  }
}
