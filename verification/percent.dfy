/** `percent_encode`: Python's `quote(str(value), safe="~-._")`, the
    percent-encoding of section 3.6 of RFC 5849, with its inverse. */
module Percent {
  import opened Wrappers
  import opened Utf8

  /** The unreserved set of section 3.6 of RFC 5849: ALPHA, DIGIT, "-", ".",
      "_" and "~". These are the characters `quote` leaves alone with
      `safe="~-._"`. */
  predicate Unreserved(c: char) {
    || 'A' <= c <= 'Z'
    || 'a' <= c <= 'z'
    || '0' <= c <= '9'
    || c == '-' || c == '.' || c == '_' || c == '~'
  }

  /** The upper-case hexadecimal digit of `d`, as `"%02X"` writes it. */
  function HexDigit(d: int): (c: char)
    requires 0 <= d < 16
    ensures IsUpperHex(c)
  {
    if d < 10 then ('0' as int + d) as char else ('A' as int + d - 10) as char
  }

  predicate IsUpperHex(c: char) {
    '0' <= c <= '9' || 'A' <= c <= 'F'
  }

  /** The characters an encoded string can contain. */
  predicate EncodedChar(c: char) {
    Unreserved(c) || c == '%'
  }

  lemma HexValueOfDigit(d: int)
    requires 0 <= d < 16
    ensures HexValue(HexDigit(d)) == d
  {
  }

  /** One byte: itself when it is an unreserved ASCII character, otherwise
      "%" and two upper-case hexadecimal digits. */
  function EncodeByte(b: byte): (r: string)
    ensures |r| == 1 || |r| == 3
    ensures |r| == 1 <==> b < 0x80 && Unreserved(b as int as char)
    ensures |r| == 1 ==> r[0] as int == b as int
    ensures |r| == 3 ==> r[0] == '%' && IsUpperHex(r[1]) && IsUpperHex(r[2])
    ensures |r| == 3 ==> HexValue(r[1]) * 16 + HexValue(r[2]) == b as int
    ensures forall i :: 0 <= i < |r| ==> EncodedChar(r[i])
  {
    if b < 0x80 && Unreserved(b as int as char) then [b as int as char]
    else
      HexValueOfDigit(b as int / 16);
      HexValueOfDigit(b as int % 16);
      ['%', HexDigit(b as int / 16), HexDigit(b as int % 16)]
  }

  function EncodeBytes(bs: seq<byte>): (r: string)
    ensures forall i :: 0 <= i < |r| ==> EncodedChar(r[i])
  {
    if |bs| == 0 then "" else EncodeByte(bs[0]) + EncodeBytes(bs[1..])
  }

  /** `percent_encode(s)`: the UTF-8 bytes of `s`, each encoded. */
  function Encode(s: string): (r: string)
    ensures forall i :: 0 <= i < |r| ==> EncodedChar(r[i])
  {
    EncodeBytes(Utf8.Encode(s))
  }

  /** The value of a hexadecimal digit (upper case, as `quote` writes it). */
  function HexValue(c: char): (v: int)
    ensures 0 <= v < 16
  {
    if '0' <= c <= '9' then c as int - '0' as int
    else if 'A' <= c <= 'F' then c as int - 'A' as int + 10
    else 0
  }

  /** Strict percent-decoding to bytes: `None` unless every character is an
      ASCII character or a complete upper-case "%XX" escape. */
  function DecodeBytes(s: string): Option<seq<byte>>
    decreases |s|
  {
    if |s| == 0 then Some([])
    else if s[0] == '%' then
      if |s| >= 3 && IsUpperHex(s[1]) && IsUpperHex(s[2]) then
        match DecodeBytes(s[3..])
        case None => None
        case Some(rest) => Some([(HexValue(s[1]) * 16 + HexValue(s[2])) as byte] + rest)
      else None
    else if s[0] as int < 0x80 then
      match DecodeBytes(s[1..])
      case None => None
      case Some(rest) => Some([s[0] as int as byte] + rest)
    else None
  }

  /** The inverse of `Encode`: percent-decoding followed by UTF-8 decoding. */
  function Decode(s: string): Option<string> {
    match DecodeBytes(s)
    case None => None
    case Some(bs) => Utf8.Decode(bs)
  }

  lemma EncodeBytesAppend(a: seq<byte>, b: seq<byte>)
    ensures EncodeBytes(a + b) == EncodeBytes(a) + EncodeBytes(b)
  {
    if |a| > 0 {
      assert (a + b)[0] == a[0];
      assert (a + b)[1..] == a[1..] + b;
      EncodeBytesAppend(a[1..], b);
      assert EncodeBytes(a + b) == EncodeByte(a[0]) + (EncodeBytes(a[1..]) + EncodeBytes(b));
    } else {
      assert a + b == b;
    }
  }

  /** Encoding distributes over concatenation. */
  lemma EncodeAppend(a: string, b: string)
    ensures Encode(a + b) == Encode(a) + Encode(b)
  {
    Utf8.EncodeAppend(a, b);
    EncodeBytesAppend(Utf8.Encode(a), Utf8.Encode(b));
  }

  lemma DecodeEncodeByte(b: byte, rest: string)
    ensures DecodeBytes(EncodeByte(b) + rest) ==
      match DecodeBytes(rest)
      case None => None
      case Some(r) => Some([b] + r)
  {
    var e := EncodeByte(b);
    if |e| == 1 {
      assert (e + rest)[1..] == rest;
    } else {
      assert (e + rest)[3..] == rest;
    }
  }

  lemma {:induction false} DecodeEncodeBytes(bs: seq<byte>)
    ensures DecodeBytes(EncodeBytes(bs)) == Some(bs)
    decreases |bs|
  {
    if |bs| > 0 {
      DecodeEncodeByte(bs[0], EncodeBytes(bs[1..]));
      DecodeEncodeBytes(bs[1..]);
      assert bs == [bs[0]] + bs[1..];
    }
  }

  /** Decoding an encoded string gives back the original string. */
  lemma DecodeEncode(s: string)
    ensures Decode(Encode(s)) == Some(s)
  {
    DecodeEncodeBytes(Utf8.Encode(s));
    Utf8.DecodeEncode(s);
  }

  /** Encoding is injective: distinct values never share an encoding. */
  lemma EncodeInjective(s: string, t: string)
    requires Encode(s) == Encode(t)
    ensures s == t
  {
    DecodeEncode(s);
    DecodeEncode(t);
  }

  /** An encoded string never contains "&", "=", '"', "," or a space, so it
      can sit between the delimiters of the base string, the parameter string
      and the Authorization header. */
  lemma EncodedHasNoDelimiters(s: string)
    ensures '&' !in Encode(s) && '=' !in Encode(s) && '"' !in Encode(s)
    ensures ',' !in Encode(s) && ' ' !in Encode(s)
  {
    var r := Encode(s);
    assert forall i :: 0 <= i < |r| ==> EncodedChar(r[i]);
  }

  /** The encoding of one character. */
  lemma EncodeChar(c: char, rest: string)
    ensures Unreserved(c) ==> Encode([c] + rest) == [c] + Encode(rest)
    ensures !Unreserved(c) ==> |Encode([c] + rest)| >= 3 + |Encode(rest)|
  {
    var s := [c] + rest;
    assert s[0] == c && s[1..] == rest;
    var e := Utf8.EncodeChar(c);
    EncodeBytesAppend(e, Utf8.Encode(rest));
    if |e| == 1 {
      assert EncodeBytes(e) == EncodeByte(e[0]);
    } else {
      assert EncodeBytes(e) == EncodeByte(e[0]) + EncodeBytes(e[1..]);
    }
  }

  /** Encoding never shortens a string, and leaves it unchanged exactly when
      every character is unreserved. */
  lemma {:induction false} EncodeIdentityIff(s: string)
    ensures |Encode(s)| >= |s|
    ensures Encode(s) == s <==> forall i :: 0 <= i < |s| ==> Unreserved(s[i])
    ensures (exists i :: 0 <= i < |s| && !Unreserved(s[i])) ==> |Encode(s)| >= |s| + 2
    decreases |s|
  {
    if |s| > 0 {
      var rest := s[1..];
      assert s == [s[0]] + rest;
      EncodeChar(s[0], rest);
      EncodeIdentityIff(rest);
      if !Unreserved(s[0]) {
        assert Encode(s) != s;
      } else if exists i :: 0 <= i < |s| && !Unreserved(s[i]) {
        var i :| 0 <= i < |s| && !Unreserved(s[i]);
        assert !Unreserved(rest[i - 1]);
      } else {
        assert forall i :: 0 <= i < |rest| ==> Unreserved(rest[i]) by {
          forall i | 0 <= i < |rest| ensures Unreserved(rest[i]) {
            assert rest[i] == s[i + 1];
          }
        }
      }
    }
  }

  /** A space is escaped as "%20", never as "+". */
  lemma EncodeSpace()
    ensures Encode(" ") == "%20"
  {
    assert Utf8.Encode(" ") == [0x20];
    assert EncodeBytes([0x20]) == EncodeByte(0x20);
  }

  /** A plus sign is escaped as "%2B". */
  lemma EncodePlus()
    ensures Encode("+") == "%2B"
  {
    assert Utf8.Encode("+") == [0x2B];
    assert EncodeBytes([0x2B]) == EncodeByte(0x2B);
  }

}
