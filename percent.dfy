/**
  `percent_encode` and `percent_encode_dict` of py/oauth.py: the encoding of
  section 3.6 of RFC 5849. Text is first encoded as UTF-8 (RFC 3629); every
  byte that is an ASCII letter, an ASCII digit or one of `-._~` is kept as
  that character, every other byte becomes `%` and two upper-case hex digits.
 */
module Percent {
  import opened Wrappers
  import opened Strings
  import opened Dicts

  type byte = b: int | 0 <= b < 256

  // ---------------------------------------------------------------------
  // UTF-8
  // ---------------------------------------------------------------------

  /** The UTF-8 bytes of one Unicode scalar value. */
  function Utf8Char(ch: char): (bs: seq<byte>)
    ensures 1 <= |bs| <= 4
  {
    var c := ch as int;
    if c < 0x80 then [c]
    else if c < 0x800 then [0xC0 + c / 64, 0x80 + c % 64]
    else if c < 0x1_0000 then [0xE0 + c / 4096, 0x80 + (c / 64) % 64, 0x80 + c % 64]
    else [0xF0 + c / 0x4_0000, 0x80 + (c / 4096) % 64, 0x80 + (c / 64) % 64, 0x80 + c % 64]
  }

  /** `bytearray(s, 'utf-8')` */
  function Utf8(s: string): seq<byte>
  {
    if s == [] then [] else Utf8Char(s[0]) + Utf8(s[1..])
  }

  function CodePoints(s: string): seq<int>
  {
    seq(|s|, i requires 0 <= i < |s| => s[i] as int)
  }

  /** The length of a UTF-8 sequence, read from its first byte. */
  function Utf8SequenceLength(lead: byte): (n: nat)
    ensures 1 <= n <= 4
  {
    if lead < 0x80 then 1 else if lead < 0xE0 then 2 else if lead < 0xF0 then 3 else 4
  }

  /** The code point a UTF-8 sequence of one to four bytes denotes. */
  function Utf8Value(bs: seq<byte>): int
    requires 1 <= |bs| <= 4
  {
    var b: seq<int> := bs;
    if |b| == 1 then b[0]
    else if |b| == 2 then (b[0] - 0xC0) * 64 + (b[1] - 0x80)
    else if |b| == 3 then (b[0] - 0xE0) * 4096 + (b[1] - 0x80) * 64 + (b[2] - 0x80)
    else (b[0] - 0xF0) * 0x4_0000 + (b[1] - 0x80) * 4096 + (b[2] - 0x80) * 64 + (b[3] - 0x80)
  }

  /** Decoding UTF-8 into code points; `None` for a truncated sequence. */
  function Utf8Decode(bs: seq<byte>): Option<seq<int>>
    decreases |bs|
  {
    if bs == [] then Some([])
    else
      var n := Utf8SequenceLength(bs[0]);
      if |bs| < n then None
      else
        match Utf8Decode(bs[n..])
        case None => None
        case Some(rest) => Some([Utf8Value(bs[..n])] + rest)
  }

  lemma Utf8CharDecodes(ch: char)
    ensures Utf8SequenceLength(Utf8Char(ch)[0]) == |Utf8Char(ch)|
    ensures Utf8Value(Utf8Char(ch)) == ch as int
  {
    var c := ch as int;
    if 0x800 <= c < 0x1_0000 {
      assert c / 64 == (c / 4096) * 64 + (c / 64) % 64;
    } else if 0x1_0000 <= c {
      assert c / 64 == (c / 4096) * 64 + (c / 64) % 64;
      assert c / 4096 == (c / 0x4_0000) * 64 + (c / 4096) % 64;
    }
  }

  /** Decoding the UTF-8 encoding of a text gives back its code points. */
  lemma {:induction false} Utf8RoundTrip(s: string)
    ensures Utf8Decode(Utf8(s)) == Some(CodePoints(s))
  {
    if s != [] {
      var head, tail := Utf8Char(s[0]), Utf8(s[1..]);
      var bs := head + tail;
      Utf8CharDecodes(s[0]);
      assert bs[0] == head[0];
      assert bs[|head|..] == tail;
      assert bs[..|head|] == head;
      Utf8RoundTrip(s[1..]);
      assert Utf8(s) == bs;
      assert Utf8SequenceLength(bs[0]) == |head|;
      assert Utf8Decode(bs) == Some([Utf8Value(head)] + CodePoints(s[1..]));
      assert Utf8Value(head) == s[0] as int;
      assert CodePoints(s) == [s[0] as int] + CodePoints(s[1..]);
    } else {
      assert CodePoints(s) == [];
    }
  }

  /** Different texts have different UTF-8 encodings. */
  lemma Utf8Injective(s: string, t: string)
    requires Utf8(s) == Utf8(t)
    ensures s == t
  {
    Utf8RoundTrip(s);
    Utf8RoundTrip(t);
    assert CodePoints(s) == CodePoints(t);
    assert |s| == |t|;
    forall i | 0 <= i < |s| ensures s[i] == t[i] {
      assert CodePoints(s)[i] == CodePoints(t)[i];
    }
  }

  /** An ASCII text is its own UTF-8 encoding. */
  lemma {:induction false} Utf8OfAscii(s: string)
    requires forall i :: 0 <= i < |s| ==> s[i] as int < 0x80
    ensures Utf8(s) == CodePoints(s)
  {
    if s != [] {
      Utf8OfAscii(s[1..]);
      assert CodePoints(s) == [s[0] as int] + CodePoints(s[1..]);
    }
  }

  // ---------------------------------------------------------------------
  // Percent-encoding of bytes
  // ---------------------------------------------------------------------

  /** The characters `dont_percent_encode` holds: `ASCII_DIGITS + '-._~'`. */
  const UnreservedCharacters := AsciiLettersAndDigits + "-._~"

  predicate IsUnreserved(c: char)
  {
    IsAsciiAlphanumeric(c) || c == '-' || c == '.' || c == '_' || c == '~'
  }

  lemma UnreservedCharactersExactly(c: char)
    ensures c in UnreservedCharacters <==> IsUnreserved(c)
  {
    var n := |AsciiLettersAndDigits|;
    if c in UnreservedCharacters {
      var k :| 0 <= k < |UnreservedCharacters| && UnreservedCharacters[k] == c;
      if k < n {
        assert AsciiLettersAndDigits[k] == c;
        LettersAndDigitsAreAlphanumeric(k);
      } else {
        assert "-._~"[k - n] == c;
      }
    }
    if IsAsciiAlphanumeric(c) {
      var k := AlphanumericIndex(c);
      assert UnreservedCharacters[k] == c;
    }
    if !IsAsciiAlphanumeric(c) && IsUnreserved(c) {
      var k := if c == '-' then 0 else if c == '.' then 1 else if c == '_' then 2 else 3;
      assert UnreservedCharacters[n + k] == "-._~"[k] == c;
    }
  }

  predicate IsUpperHexDigit(c: char)
  {
    '0' <= c <= '9' || 'A' <= c <= 'F'
  }

  function HexValue(c: char): (v: nat)
    requires IsUpperHexDigit(c)
    ensures v < 16
  {
    if c <= '9' then c as int - '0' as int else c as int - 'A' as int + 10
  }

  /** An upper-case hex digit, as `'{:02X}'` writes it. */
  function HexDigit(v: nat): (c: char)
    requires v < 16
    ensures IsUpperHexDigit(c) && HexValue(c) == v
  {
    if v < 10 then ('0' as int + v) as char else ('A' as int + v - 10) as char
  }

  /** One byte, as `percent_encode` writes it: kept when it is in `dont_percent_encode`, else escaped. */
  function EncodeByte(b: byte): string
  {
    if IsUnreserved(b as char) then [b as char]
    else ['%', HexDigit(b / 16), HexDigit(b % 16)]
  }

  function EncodeBytes(bs: seq<byte>): string
  {
    if bs == [] then "" else EncodeByte(bs[0]) + EncodeBytes(bs[1..])
  }

  /** `percent_encode(s)` */
  function PercentEncode(s: string): string
  {
    if s == "" then s else EncodeBytes(Utf8(s))
  }

  /** Every `%` starts an escape of two upper-case hex digits. */
  predicate WellFormedEscapes(r: string)
  {
    forall i :: 0 <= i < |r| && r[i] == '%' ==> i + 2 < |r| && IsUpperHexDigit(r[i + 1]) && IsUpperHexDigit(r[i + 2])
  }

  /** The output alphabet: unreserved characters and `%`. */
  predicate InEncodedAlphabet(r: string)
  {
    forall i :: 0 <= i < |r| ==> IsUnreserved(r[i]) || r[i] == '%'
  }

  lemma EncodeByteShape(b: byte)
    ensures InEncodedAlphabet(EncodeByte(b)) && WellFormedEscapes(EncodeByte(b))
    ensures |EncodeByte(b)| == 1 <==> IsUnreserved(b as char)
    ensures |EncodeByte(b)| == 1 ==> EncodeByte(b) == [b as char]
    ensures |EncodeByte(b)| != 1 ==> |EncodeByte(b)| == 3 && EncodeByte(b)[0] == '%'
                                     && HexValue(EncodeByte(b)[1]) * 16 + HexValue(EncodeByte(b)[2]) == b
  {
  }

  /** The alphabet and the escapes survive concatenation. */
  lemma ShapeConcat(x: string, y: string)
    requires InEncodedAlphabet(x) && WellFormedEscapes(x)
    requires InEncodedAlphabet(y) && WellFormedEscapes(y)
    ensures InEncodedAlphabet(x + y) && WellFormedEscapes(x + y)
  {
    var r := x + y;
    forall i | 0 <= i < |r| ensures IsUnreserved(r[i]) || r[i] == '%' {
      if i >= |x| {
        assert r[i] == y[i - |x|];
      }
    }
    forall i | 0 <= i < |r| && r[i] == '%'
      ensures i + 2 < |r| && IsUpperHexDigit(r[i + 1]) && IsUpperHexDigit(r[i + 2])
    {
      if i >= |x| {
        assert r[i] == y[i - |x|];
        assert r[i + 1] == y[i + 1 - |x|] && r[i + 2] == y[i + 2 - |x|];
      }
    }
  }

  lemma {:induction false} EncodeBytesShape(bs: seq<byte>)
    ensures InEncodedAlphabet(EncodeBytes(bs)) && WellFormedEscapes(EncodeBytes(bs))
  {
    if bs != [] {
      EncodeByteShape(bs[0]);
      EncodeBytesShape(bs[1..]);
      ShapeConcat(EncodeByte(bs[0]), EncodeBytes(bs[1..]));
    }
  }

  /** A character outside the encoded alphabet never occurs in an encoded string. */
  lemma NotInEncodedAlphabet(r: string, c: char)
    requires InEncodedAlphabet(r) && !IsUnreserved(c) && c != '%'
    ensures c !in r
  {
  }

  /** Every character of `percent_encode(s)` is an ASCII letter, a digit, one of `-._~` or `%`,
      and every `%` is followed by two upper-case hex digits. */
  lemma PercentEncodeShape(s: string)
    ensures InEncodedAlphabet(PercentEncode(s)) && WellFormedEscapes(PercentEncode(s))
  {
    EncodeBytesShape(Utf8(s));
  }

  /** None of the separators the signer joins with can occur in an encoded string. */
  lemma PercentEncodeHasNoSeparators(s: string)
    ensures '&' !in PercentEncode(s) && '=' !in PercentEncode(s)
    ensures ',' !in PercentEncode(s) && '"' !in PercentEncode(s) && ' ' !in PercentEncode(s)
  {
    var r := PercentEncode(s);
    PercentEncodeShape(s);
    NotInEncodedAlphabet(r, '&');
    NotInEncodedAlphabet(r, '=');
    NotInEncodedAlphabet(r, ',');
    NotInEncodedAlphabet(r, '"');
    NotInEncodedAlphabet(r, ' ');
  }

  /** An unreserved character is a one-byte UTF-8 sequence that encodes as itself. */
  lemma EncodeUnreservedChar(c: char)
    requires IsUnreserved(c)
    ensures Utf8Char(c) == [c as int]
    ensures EncodeByte(c as int) == [c]
  {
  }

  /** Text made of unreserved characters only is left as it is. */
  lemma {:induction false} PercentEncodeKeepsUnreserved(s: string)
    requires forall i :: 0 <= i < |s| ==> IsUnreserved(s[i])
    ensures PercentEncode(s) == s
  {
    if s != [] {
      var tail := EncodeBytes(Utf8(s[1..]));
      PercentEncodeKeepsUnreserved(s[1..]);
      assert tail == s[1..];
      EncodeUnreservedChar(s[0]);
      assert Utf8(s) == [s[0] as int] + Utf8(s[1..]);
      assert EncodeBytes(Utf8(s)) == [s[0]] + tail;
      assert [s[0]] + s[1..] == s;
    }
  }

  lemma PercentEncodeEmpty()
    ensures PercentEncode("") == ""
  {
  }

  // ---------------------------------------------------------------------
  // Decoding, the inverse of percent_encode
  // ---------------------------------------------------------------------

  /** The bytes an encoded string stands for; `None` for a character outside the encoded form. */
  function PercentDecode(s: string): Option<seq<byte>>
    decreases |s|
  {
    if s == [] then Some([])
    else if s[0] == '%' then
      if |s| >= 3 && IsUpperHexDigit(s[1]) && IsUpperHexDigit(s[2]) then
        match PercentDecode(s[3..])
        case None => None
        case Some(rest) => Some([HexValue(s[1]) * 16 + HexValue(s[2])] + rest)
      else None
    else if IsUnreserved(s[0]) then
      match PercentDecode(s[1..])
      case None => None
      case Some(rest) => Some([s[0] as int] + rest)
    else None
  }

  lemma PercentDecodeEncodeByte(b: byte, tail: string, rest: seq<byte>)
    requires PercentDecode(tail) == Some(rest)
    ensures PercentDecode(EncodeByte(b) + tail) == Some([b] + rest)
  {
    var head := EncodeByte(b);
    var r := head + tail;
    EncodeByteShape(b);
    assert r[|head|..] == tail;
    assert r[0] == head[0];
    if |head| == 3 {
      assert r[1] == head[1] && r[2] == head[2];
    }
  }

  lemma {:induction false} PercentDecodeEncodeBytes(bs: seq<byte>)
    ensures PercentDecode(EncodeBytes(bs)) == Some(bs)
  {
    if bs != [] {
      PercentDecodeEncodeBytes(bs[1..]);
      PercentDecodeEncodeByte(bs[0], EncodeBytes(bs[1..]), bs[1..]);
      assert bs == [bs[0]] + bs[1..];
    }
  }

  /** Decoding `percent_encode(s)` gives back the UTF-8 bytes of `s`, and from them `s` itself. */
  lemma PercentRoundTrip(s: string)
    ensures PercentDecode(PercentEncode(s)) == Some(Utf8(s))
    ensures Utf8Decode(Utf8(s)) == Some(CodePoints(s))
  {
    PercentDecodeEncodeBytes(Utf8(s));
    Utf8RoundTrip(s);
  }

  /** `percent_encode` maps different texts to different encodings. */
  lemma PercentEncodeInjective(s: string, t: string)
    requires PercentEncode(s) == PercentEncode(t)
    ensures s == t
  {
    PercentRoundTrip(s);
    PercentRoundTrip(t);
    Utf8Injective(s, t);
  }

  // ---------------------------------------------------------------------
  // percent_encode_dict
  // ---------------------------------------------------------------------

  /** `percent_encode_dict(d)`, the values already in their `str()` form. */
  function EncodeDict(d: Dict<string>): Dict<string>
  {
    if d == [] then []
    else seq(|d|, i requires 0 <= i < |d| => (PercentEncode(d[i].0), PercentEncode(d[i].1)))
  }

  /** Entry `i` of the encoded dict is entry `i` of `d`, key and value encoded; no key is lost. */
  lemma EncodeDictEntries(d: Dict<string>)
    requires DistinctKeys(d)
    ensures |EncodeDict(d)| == |d| && DistinctKeys(EncodeDict(d))
    ensures forall i :: 0 <= i < |d| ==> EncodeDict(d)[i] == (PercentEncode(d[i].0), PercentEncode(d[i].1))
  {
    var e := EncodeDict(d);
    forall i, j | 0 <= i < j < |e| ensures Keys(e)[i] != Keys(e)[j] {
      assert Keys(d)[i] != Keys(d)[j];
      if Keys(e)[i] == Keys(e)[j] {
        PercentEncodeInjective(d[i].0, d[j].0);
      }
    }
  }

  lemma EncodeDictEmpty()
    ensures EncodeDict([]) == []
  {
  }

  /** The keys of the encoded dict are exactly the encoded keys. */
  lemma EncodeDictKeys(d: Dict<string>, key: string)
    requires DistinctKeys(d)
    ensures key in Keys(EncodeDict(d)) <==> exists k :: k in Keys(d) && key == PercentEncode(k)
  {
    EncodeDictEntries(d);
    var e := EncodeDict(d);
    if key in Keys(e) {
      var i :| 0 <= i < |e| && Keys(e)[i] == key;
      assert Keys(d)[i] in Keys(d);
    }
    if exists k :: k in Keys(d) && key == PercentEncode(k) {
      var k :| k in Keys(d) && key == PercentEncode(k);
      var i :| 0 <= i < |d| && Keys(d)[i] == k;
      assert Keys(e)[i] == key;
    }
  }

  /** The encoded dict maps `percent_encode(k)` to `percent_encode(d[k])`. */
  lemma EncodeDictLookup(d: Dict<string>, k: string)
    requires DistinctKeys(d) && k in Keys(d)
    ensures PercentEncode(k) in Keys(EncodeDict(d))
    ensures Lookup(EncodeDict(d), PercentEncode(k)) == PercentEncode(Lookup(d, k))
  {
    EncodeDictEntries(d);
    var e := EncodeDict(d);
    var i :| 0 <= i < |d| && Keys(d)[i] == k;
    LookupAt(d, i);
    LookupAt(e, i);
    assert Keys(e)[i] == PercentEncode(k);
  }

  /** Equal dicts (in any order) have equal encodings. */
  lemma EncodeDictRespectsEq(d1: Dict<string>, d2: Dict<string>)
    requires DistinctKeys(d1) && DistinctKeys(d2) && DictEq(d1, d2)
    ensures DictEq(EncodeDict(d1), EncodeDict(d2))
  {
    var e1, e2 := EncodeDict(d1), EncodeDict(d2);
    forall key ensures key in Keys(e1) <==> key in Keys(e2) {
      EncodeDictKeys(d1, key);
      EncodeDictKeys(d2, key);
    }
    forall key | key in Keys(e1) ensures Lookup(e1, key) == Lookup(e2, key) {
      EncodeDictKeys(d1, key);
      var k :| k in Keys(d1) && key == PercentEncode(k);
      EncodeDictLookup(d1, k);
      EncodeDictLookup(d2, k);
    }
  }
}
