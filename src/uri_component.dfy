/** `encodeURIComponent` and `decodeURIComponent` of section 19.2.6 of
    ECMA-262 (2023), over strings of Unicode scalar values: each character
    outside the unescaped set is written as the '%XX' escapes of its UTF-8
    bytes, and decoding reverses that, failing (a URIError in JavaScript)
    on a malformed escape or an invalid UTF-8 sequence. */
module UriComponent {
  import opened Wrappers

  /** The characters `encodeURIComponent` leaves as they are: letters,
      decimal digits and - _ . ! ~ * ' ( ). */
  predicate Unescaped(c: char) {
    ('a' <= c <= 'z') || ('A' <= c <= 'Z') || ('0' <= c <= '9') ||
    c == '-' || c == '_' || c == '.' || c == '!' || c == '~' || c == '*' ||
    c == '\'' || c == '(' || c == ')'
  }

  /** Upper-case hexadecimal digit of a value below 16. */
  function HexDigit(d: int): (c: char)
    requires 0 <= d < 16
    ensures HexValue(c) == Some(d)
  {
    if d < 10 then ('0' as int + d) as char else ('A' as int + d - 10) as char
  }

  /** The value of a hexadecimal digit of either case. */
  function HexValue(c: char): (r: Option<int>)
    ensures r.Some? ==> 0 <= r.value < 16
  {
    if '0' <= c <= '9' then Some(c as int - '0' as int)
    else if 'A' <= c <= 'F' then Some(c as int - 'A' as int + 10)
    else if 'a' <= c <= 'f' then Some(c as int - 'a' as int + 10)
    else None
  }

  /** The UTF-8 encoding of a Unicode scalar value. */
  function Utf8(cp: int): (bytes: seq<int>)
    requires 0 <= cp < 0x11_0000
    ensures 1 <= |bytes| <= 4
    ensures forall i :: 0 <= i < |bytes| ==> 0 <= bytes[i] < 256
  {
    if cp < 0x80 then [cp]
    else if cp < 0x800 then [0xC0 + cp / 64, 0x80 + cp % 64]
    else if cp < 0x1_0000 then [0xE0 + cp / 4096, 0x80 + (cp / 64) % 64, 0x80 + cp % 64]
    else [0xF0 + cp / 262144, 0x80 + (cp / 4096) % 64, 0x80 + (cp / 64) % 64, 0x80 + cp % 64]
  }

  /** '%XX' escapes, upper-case, one per byte. */
  function Escape(bytes: seq<int>): (s: string)
    requires forall i :: 0 <= i < |bytes| ==> 0 <= bytes[i] < 256
    ensures |s| == 3 * |bytes|
    decreases |bytes|
  {
    if bytes == [] then []
    else ['%', HexDigit(bytes[0] / 16), HexDigit(bytes[0] % 16)] + Escape(bytes[1..])
  }

  function EncodeChar(c: char): string {
    if Unescaped(c) then [c] else Escape(Utf8(c as int))
  }

  /** `encodeURIComponent(s)`. */
  function Encode(s: string): string
    decreases |s|
  {
    if s == [] then [] else EncodeChar(s[0]) + Encode(s[1..])
  }

  /** The byte written by the escape at `s[i..i+3]`, if there is one. */
  function ReadByte(s: string, i: nat): (r: Option<int>)
    ensures r.Some? ==> 0 <= r.value < 256
  {
    if i + 3 <= |s| && s[i] == '%' && HexValue(s[i + 1]).Some? && HexValue(s[i + 2]).Some?
    then Some(HexValue(s[i + 1]).value * 16 + HexValue(s[i + 2]).value)
    else None
  }

  /** The number of bytes of the UTF-8 sequence that starts with `b`; 0 for
      a byte that cannot start one. */
  function SequenceLength(b: int): nat {
    if b < 0x80 then 1
    else if 0xC0 <= b < 0xE0 then 2
    else if 0xE0 <= b < 0xF0 then 3
    else if 0xF0 <= b < 0xF8 then 4
    else 0
  }

  /** A UTF-8 continuation byte: 10xxxxxx. */
  predicate Continuation(b: int) {
    0x80 <= b < 0xC0
  }

  /** A code point that is a Unicode scalar value (a Dafny `char`). */
  predicate Scalar(cp: int) {
    (0 <= cp < 0xD800) || (0xE000 <= cp < 0x11_0000)
  }

  /** Decodes the escaped UTF-8 sequence at the start of `s` (which starts
      with '%'): the character and the number of characters read. */
  function DecodeEscapes(s: string): (r: Option<(char, nat)>)
    ensures r.Some? ==> 3 <= r.value.1 <= |s|
  {
    match ReadByte(s, 0)
    case None => None
    case Some(b0) =>
      var n := SequenceLength(b0);
      if n == 0 then None
      else if n == 1 then Some((b0 as char, 3))
      else
        match ReadByte(s, 3)
        case None => None
        case Some(b1) =>
          if !Continuation(b1) then None
          else if n == 2 then
            var cp := (b0 - 0xC0) * 64 + (b1 - 0x80);
            if 0x80 <= cp then Some((cp as char, 6)) else None
          else
            match ReadByte(s, 6)
            case None => None
            case Some(b2) =>
              if !Continuation(b2) then None
              else if n == 3 then
                var cp := (b0 - 0xE0) * 4096 + (b1 - 0x80) * 64 + (b2 - 0x80);
                if 0x800 <= cp && Scalar(cp) then Some((cp as char, 9)) else None
              else
                match ReadByte(s, 9)
                case None => None
                case Some(b3) =>
                  if !Continuation(b3) then None
                  else
                    var cp := (b0 - 0xF0) * 262144 + (b1 - 0x80) * 4096 + (b2 - 0x80) * 64 + (b3 - 0x80);
                    if 0x1_0000 <= cp < 0x11_0000 then Some((cp as char, 12)) else None
  }

  /** `decodeURIComponent(s)`; `None` where JavaScript throws a URIError. */
  function Decode(s: string): Option<string>
    decreases |s|
  {
    if s == [] then Some([])
    else if s[0] != '%' then
      match Decode(s[1..])
      case None => None
      case Some(t) => Some([s[0]] + t)
    else
      match DecodeEscapes(s)
      case None => None
      case Some((c, len)) =>
        match Decode(s[len..])
        case None => None
        case Some(t) => Some([c] + t)
  }

  /** Characters other than '%' decode as themselves. */
  lemma {:induction false} DecodePlainPrefix(p: string, s: string)
    requires '%' !in p
    ensures Decode(p + s) == if Decode(s).Some? then Some(p + Decode(s).value) else None
    decreases |p|
  {
    if p == [] {
      assert p + s == s;
      if Decode(s).Some? {
        assert p + Decode(s).value == Decode(s).value;
      }
    } else {
      assert (p + s)[0] == p[0] && (p + s)[1..] == p[1..] + s;
      DecodePlainPrefix(p[1..], s);
      if Decode(s).Some? {
        assert [p[0]] + (p[1..] + Decode(s).value) == p + Decode(s).value;
      }
    }
  }

  /** A lower-case escape of '/' followed by plain text decodes to '/'
      and that text. */
  lemma DecodeSlashNode()
    ensures Decode("%2fnode") == Some("/node")
  {
    var escaped := "%2fnode";
    DecodePlainPrefix("node", []);
    assert "node" + [] == "node";
    assert ReadByte(escaped, 0) == Some(47);
    assert DecodeEscapes(escaped) == Some(('/', 3));
    assert escaped[0] == '%' && escaped[3..] == "node";
    assert ['/'] + "node" == "/node";
  }

  /** The name npm sends for "@types/node", with a lower-case escape of
      '/', decodes back to it. */
  lemma DecodeScopedName()
    ensures Decode("@types%2fnode") == Some("@types/node")
  {
    DecodeSlashNode();
    DecodePlainPrefix("@types", "%2fnode");
    assert "@types" + "%2fnode" == "@types%2fnode";
    assert "@types" + "/node" == "@types/node";
  }

  /** The escape of a byte reads back as that byte. */
  lemma ReadHead(b: int, t: string)
    requires 0 <= b < 256
    ensures ReadByte(['%', HexDigit(b / 16), HexDigit(b % 16)] + t, 0) == Some(b)
  {
    var s := ['%', HexDigit(b / 16), HexDigit(b % 16)] + t;
    assert s[1] == HexDigit(b / 16) && s[2] == HexDigit(b % 16);
  }

  /** Reading past a three-character prefix. */
  lemma ReadShift(head: string, t: string, i: nat)
    requires |head| == 3
    ensures ReadByte(head + t, i + 3) == ReadByte(t, i)
  {
    var s := head + t;
    if i + 3 <= |t| {
      assert s[i + 3] == t[i] && s[i + 4] == t[i + 1] && s[i + 5] == t[i + 2];
    }
  }

  /** The escapes of a byte sequence read back as those bytes. */
  lemma {:induction false} ReadEscaped(bytes: seq<int>, rest: string, j: nat)
    requires forall i :: 0 <= i < |bytes| ==> 0 <= bytes[i] < 256
    requires j < |bytes|
    ensures ReadByte(Escape(bytes) + rest, 3 * j) == Some(bytes[j])
    decreases |bytes|
  {
    var head := ['%', HexDigit(bytes[0] / 16), HexDigit(bytes[0] % 16)];
    var t := Escape(bytes[1..]) + rest;
    assert Escape(bytes) + rest == head + t;
    if j == 0 {
      ReadHead(bytes[0], t);
    } else {
      ReadEscaped(bytes[1..], rest, j - 1);
      ReadShift(head, t, 3 * (j - 1));
    }
  }

  lemma DecodeTwo(s: string, cp: int)
    requires 0x80 <= cp < 0x800
    requires ReadByte(s, 0) == Some(0xC0 + cp / 64) && ReadByte(s, 3) == Some(0x80 + cp % 64)
    ensures DecodeEscapes(s) == Some((cp as char, 6))
  {
    assert (cp / 64) * 64 + cp % 64 == cp;
  }

  lemma DecodeThree(s: string, cp: int)
    requires 0x800 <= cp < 0x1_0000 && Scalar(cp)
    requires ReadByte(s, 0) == Some(0xE0 + cp / 4096)
    requires ReadByte(s, 3) == Some(0x80 + (cp / 64) % 64)
    requires ReadByte(s, 6) == Some(0x80 + cp % 64)
    ensures DecodeEscapes(s) == Some((cp as char, 9))
  {
    Digits64(cp);
  }

  lemma DecodeFour(s: string, cp: int)
    requires 0x1_0000 <= cp < 0x11_0000
    requires ReadByte(s, 0) == Some(0xF0 + cp / 262144)
    requires ReadByte(s, 3) == Some(0x80 + (cp / 4096) % 64)
    requires ReadByte(s, 6) == Some(0x80 + (cp / 64) % 64)
    requires ReadByte(s, 9) == Some(0x80 + cp % 64)
    ensures DecodeEscapes(s) == Some((cp as char, 12))
  {
    Digits64(cp);
    Digits64(cp / 64);
    assert cp / 262144 == (cp / 4096) / 64;
  }

  /** Decoding the escapes of a character that is escaped yields it. */
  lemma DecodeEscapesOfChar(c: char, rest: string)
    requires !Unescaped(c)
    ensures DecodeEscapes(EncodeChar(c) + rest) == Some((c, |EncodeChar(c)|))
  {
    var cp := c as int;
    var bytes := Utf8(cp);
    var s := EncodeChar(c) + rest;
    assert s == Escape(bytes) + rest;
    ReadEscaped(bytes, rest, 0);
    if cp < 0x80 {
    } else if cp < 0x800 {
      ReadEscaped(bytes, rest, 1);
      DecodeTwo(s, cp);
    } else if cp < 0x1_0000 {
      ReadEscaped(bytes, rest, 1);
      ReadEscaped(bytes, rest, 2);
      DecodeThree(s, cp);
    } else {
      ReadEscaped(bytes, rest, 1);
      ReadEscaped(bytes, rest, 2);
      ReadEscaped(bytes, rest, 3);
      DecodeFour(s, cp);
    }
  }

  /** Base-64 digits: how a value splits into its last three 6-bit groups. */
  lemma Digits64(x: nat)
    ensures x == (x / 4096) * 4096 + ((x / 64) % 64) * 64 + x % 64
    ensures x / 4096 == (x / 64) / 64
  {
  }

  /** Decoding undoes encoding. */
  lemma {:induction false} DecodeEncode(s: string)
    ensures Decode(Encode(s)) == Some(s)
    decreases |s|
  {
    if s != [] {
      DecodeEncode(s[1..]);
      var c := s[0];
      var e := Encode(s);
      assert e == EncodeChar(c) + Encode(s[1..]);
      if Unescaped(c) {
        assert e[1..] == Encode(s[1..]);
      } else {
        DecodeEscapesOfChar(c, Encode(s[1..]));
        assert e[|EncodeChar(c)|..] == Encode(s[1..]);
      }
      assert s == [c] + s[1..];
    }
  }

  /** Every character of an encoding is unescaped, '%' or a hexadecimal
      digit; in particular no '/' survives encoding. */
  lemma {:induction false} EncodeAlphabet(s: string)
    ensures forall i :: 0 <= i < |Encode(s)| ==>
      Unescaped(Encode(s)[i]) || Encode(s)[i] == '%' || HexValue(Encode(s)[i]).Some?
    ensures '/' !in Encode(s)
    decreases |s|
  {
    if s != [] {
      EncodeAlphabet(s[1..]);
      if !Unescaped(s[0]) {
        EscapeAlphabet(Utf8(s[0] as int));
      }
    }
  }

  lemma {:induction false} EscapeAlphabet(bytes: seq<int>)
    requires forall i :: 0 <= i < |bytes| ==> 0 <= bytes[i] < 256
    ensures forall i :: 0 <= i < |Escape(bytes)| ==> Escape(bytes)[i] == '%' || HexValue(Escape(bytes)[i]).Some?
    decreases |bytes|
  {
    if bytes != [] {
      EscapeAlphabet(bytes[1..]);
    }
  }
}
