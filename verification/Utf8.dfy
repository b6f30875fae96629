/** UTF-8 (section 3 of RFC 3629) as Python's `str.encode` and `bytes.decode(errors="ignore")` use it.
    A Dafny `char` is a Unicode scalar value, which is exactly the text Python can encode. */
module Utf8 {
  import opened Prelude
  import opened Text

  type Byte = b: int | 0 <= b < 256

  /** Six payload bits per continuation byte. */
  function Push(high: int, low: Byte): int { high * 64 + (low - 0x80) }

  function EncodeChar(c: char): (bytes: seq<Byte>)
    ensures 1 <= |bytes| <= 4
  {
    var u := c as int;
    var q := u / 64;
    var r := q / 64;
    if u < 0x80 then [u]
    else if u < 0x800 then [0xC0 + q, 0x80 + u % 64]
    else if u < 0x10000 then [0xE0 + r, 0x80 + q % 64, 0x80 + u % 64]
    else [0xF0 + r / 64, 0x80 + r % 64, 0x80 + q % 64, 0x80 + u % 64]
  }

  /** Table of section 3 of RFC 3629: length by range, marker bits of each byte, and the payload. */
  lemma EncodeCharMeaning(c: char)
    ensures var u, b := c as int, EncodeChar(c);
            if u <= 0x7F then b == [u]
            else if u <= 0x7FF then
              |b| == 2 && 0xC0 <= b[0] <= 0xDF && 0x80 <= b[1] <= 0xBF
              && u == (b[0] as int - 0xC0) * 64 + (b[1] as int - 0x80)
            else if u <= 0xFFFF then
              |b| == 3 && 0xE0 <= b[0] <= 0xEF && 0x80 <= b[1] <= 0xBF && 0x80 <= b[2] <= 0xBF
              && u == (b[0] as int - 0xE0) * 4096 + (b[1] as int - 0x80) * 64 + (b[2] as int - 0x80)
            else
              |b| == 4 && 0xF0 <= b[0] <= 0xF4 && 0x80 <= b[1] <= 0xBF && 0x80 <= b[2] <= 0xBF && 0x80 <= b[3] <= 0xBF
              && u == (b[0] as int - 0xF0) * 262144 + (b[1] as int - 0x80) * 4096
                      + (b[2] as int - 0x80) * 64 + (b[3] as int - 0x80)
  {
  }

  function Encode(s: string): seq<Byte> {
    FlatMap(EncodeChar, s)
  }

  predicate Continuation(b: Byte) { 0x80 <= b < 0xC0 }

  function Decode3(b0: Byte, b1: Byte, b2: Byte): (c: Option<char>)
    requires 0xE0 <= b0 < 0xF0 && Continuation(b1) && Continuation(b2)
    ensures c.Some? ==> EncodeChar(c.value) == [b0, b1, b2]
  {
    var q := Push((b0 as int) - 0xE0, b1);
    var u := Push(q, b2);
    if 0x800 <= u < 0xD800 || 0xE000 <= u then
      assert u / 64 == q;
      Some(u as char)
    else None
  }

  function Decode4(b0: Byte, b1: Byte, b2: Byte, b3: Byte): (c: Option<char>)
    requires 0xF0 <= b0 < 0xF5 && Continuation(b1) && Continuation(b2) && Continuation(b3)
    ensures c.Some? ==> EncodeChar(c.value) == [b0, b1, b2, b3]
  {
    var r := Push((b0 as int) - 0xF0, b1);
    var q := Push(r, b2);
    var u := Push(q, b3);
    if 0x10000 <= u < 0x110000 then
      assert q / 64 == r;
      assert u / 64 == q;
      Some(u as char)
    else None
  }

  /** The code point a byte sequence starts with, if its first bytes are one whole well-formed
      sequence: no overlong form, no surrogate, nothing above U+10FFFF. */
  function DecodeFirst(b: seq<Byte>): (c: Option<char>)
    ensures c.Some? ==> EncodeChar(c.value) <= b
  {
    if |b| >= 1 && b[0] < 0x80 then
      Some(b[0] as char)
    else if |b| >= 2 && 0xC2 <= b[0] < 0xE0 && Continuation(b[1]) then
      Some(Push((b[0] as int) - 0xC0, b[1]) as char)
    else if |b| >= 3 && 0xE0 <= b[0] < 0xF0 && Continuation(b[1]) && Continuation(b[2]) then
      Decode3(b[0], b[1], b[2])
    else if |b| >= 4 && 0xF0 <= b[0] < 0xF5 && Continuation(b[1]) && Continuation(b[2]) && Continuation(b[3]) then
      Decode4(b[0], b[1], b[2], b[3])
    else None
  }

  /** Lenient decoding: bytes that start no well-formed sequence are dropped. Dropping one byte at a
      time or a whole ill-formed run gives the same text, for the rest of such a run are continuation
      bytes, which start nothing themselves. */
  function DecodeIgnore(b: seq<Byte>): string {
    if b == [] then []
    else
      match DecodeFirst(b)
      case Some(c) => [c] + DecodeIgnore(b[|EncodeChar(c)|..])
      case None => DecodeIgnore(b[1..])
  }

  // ----- Encoding is a homomorphism and lenient decoding inverts it -----

  lemma EncodeConcat(s: string, t: string)
    ensures Encode(s + t) == Encode(s) + Encode(t)
  {
    FlatMapConcat(EncodeChar, s, t);
  }

  lemma EncodeHead(s: string)
    requires s != []
    ensures Encode(s) == EncodeChar(s[0]) + Encode(s[1..])
  {
  }

  lemma CharShape(c: char)
    ensures forall i :: 1 <= i < |EncodeChar(c)| ==> Continuation(EncodeChar(c)[i])
  {
  }

  lemma DecodeFirstOfEncoded(c: char, rest: seq<Byte>)
    ensures DecodeFirst(EncodeChar(c) + rest) == Some(c)
  {
    var e, b := EncodeChar(c), EncodeChar(c) + rest;
    assert forall i :: 0 <= i < |e| ==> b[i] == e[i];
  }

  /** A code point cut short, or only continuation bytes, start nothing. */
  lemma DecodeFirstOfCut(c: char, k: nat)
    requires k < |EncodeChar(c)|
    ensures DecodeFirst(EncodeChar(c)[..k]) == None
  {
  }

  lemma DecodeChar(c: char, rest: seq<Byte>)
    ensures DecodeIgnore(EncodeChar(c) + rest) == [c] + DecodeIgnore(rest)
  {
    DecodeFirstOfEncoded(c, rest);
    CutShifted(EncodeChar(c), rest, 0);
  }

  lemma DropByte(b: seq<Byte>)
    requires b != [] && DecodeFirst(b) == None
    ensures DecodeIgnore(b) == DecodeIgnore(b[1..])
  {
  }

  lemma {:induction false} DecodeContinuations(junk: seq<Byte>, rest: seq<Byte>)
    requires forall i :: 0 <= i < |junk| ==> Continuation(junk[i])
    ensures DecodeIgnore(junk + rest) == DecodeIgnore(rest)
  {
    if junk == [] {
      assert junk + rest == rest;
    } else {
      var b := junk + rest;
      assert b[1..] == junk[1..] + rest;
      assert Continuation(b[0]);
      DropByte(b);
      DecodeContinuations(junk[1..], rest);
    }
  }

  lemma DecodeCut(c: char, k: nat)
    requires k < |EncodeChar(c)|
    ensures DecodeIgnore(EncodeChar(c)[..k]) == []
  {
    var cut := EncodeChar(c)[..k];
    if cut != [] {
      DecodeFirstOfCut(c, k);
      DropByte(cut);
      CharShape(c);
      DecodeContinuations(cut[1..], []);
      assert cut[1..] + [] == cut[1..];
    }
  }

  lemma {:induction false} DecodeEncodedThen(s: string, rest: seq<Byte>)
    ensures DecodeIgnore(Encode(s) + rest) == s + DecodeIgnore(rest)
  {
    if s == [] {
      assert Encode(s) + rest == rest;
    } else {
      EncodeHead(s);
      Assoc(EncodeChar(s[0]), Encode(s[1..]), rest);
      DecodeChar(s[0], Encode(s[1..]) + rest);
      DecodeEncodedThen(s[1..], rest);
      Assoc([s[0]], s[1..], DecodeIgnore(rest));
      assert s == [s[0]] + s[1..];
    }
  }

  lemma DecodeIgnoreRoundTrip(s: string)
    ensures DecodeIgnore(Encode(s)) == s
  {
    DecodeEncodedThen(s, []);
    assert Encode(s) + [] == Encode(s);
  }

  // ----- Cutting encoded text: prefixes -----

  /** The longest prefix of whole code points whose encoding has at most `limit` bytes. */
  function FitPrefix(s: string, limit: nat): string {
    if s == [] || |EncodeChar(s[0])| > limit then []
    else [s[0]] + FitPrefix(s[1..], limit - |EncodeChar(s[0])|)
  }

  lemma {:induction false} FitPrefixIsLongest(s: string, limit: nat, other: string)
    requires other <= s && |Encode(other)| <= limit
    ensures FitPrefix(s, limit) <= s
    ensures |Encode(FitPrefix(s, limit))| <= limit
    ensures other <= FitPrefix(s, limit)
    ensures |Encode(s)| <= limit ==> FitPrefix(s, limit) == s
    ensures |Encode(s)| >= limit ==> |Encode(FitPrefix(s, limit))| >= limit - 3
  {
    if s == [] || |EncodeChar(s[0])| > limit {
      if other != [] {
        EncodeHead(other);
        assert false;
      }
    } else {
      var rest := if other == [] then [] else other[1..];
      if other != [] {
        assert other[0] == s[0];
      }
      FitPrefixIsLongest(s[1..], limit - |EncodeChar(s[0])|, rest);
      var p := FitPrefix(s, limit);
      assert p[1..] == FitPrefix(s[1..], limit - |EncodeChar(s[0])|);
    }
  }

  /** The first `limit` bytes of encoded text are what fits, plus less than one code point. */
  lemma {:induction false} PrefixShape(s: string, limit: nat) returns (c: char, k: nat)
    requires limit < |Encode(s)|
    ensures k < |EncodeChar(c)|
    ensures Encode(s)[..limit] == Encode(FitPrefix(s, limit)) + EncodeChar(c)[..k]
  {
    EncodeHead(s);
    var head, tail := EncodeChar(s[0]), Encode(s[1..]);
    if |head| > limit {
      CutWithin(head, tail, limit);
      c, k := s[0], limit;
    } else {
      c, k := PrefixShape(s[1..], limit - |head|);
      CutShifted(head, tail, limit - |head|);
      EncodeHead(FitPrefix(s, limit));
      assert FitPrefix(s, limit)[1..] == FitPrefix(s[1..], limit - |head|);
      Assoc(head, Encode(FitPrefix(s[1..], limit - |head|)), EncodeChar(c)[..k]);
    }
  }

  /** Slicing encoded text at an arbitrary byte and decoding leniently keeps exactly the code points
      that fit: nothing is split, nothing that fits is lost. */
  lemma DecodePrefix(s: string, limit: nat)
    requires limit <= |Encode(s)|
    ensures DecodeIgnore(Encode(s)[..limit]) == FitPrefix(s, limit)
  {
    if limit == |Encode(s)| {
      FitPrefixIsLongest(s, limit, s);
      DecodeIgnoreRoundTrip(s);
      assert Encode(s)[..limit] == Encode(s);
    } else {
      var c, k := PrefixShape(s, limit);
      DecodeEncodedThen(FitPrefix(s, limit), EncodeChar(c)[..k]);
      DecodeCut(c, k);
    }
  }

  lemma FitPrefixHead(s: string, t: string, limit: nat)
    requires s != [] && |EncodeChar(s[0])| <= limit
    ensures FitPrefix(s + t, limit) == [s[0]] + FitPrefix(s[1..] + t, limit - |EncodeChar(s[0])|)
  {
    assert (s + t)[1..] == s[1..] + t && (s + t)[0] == s[0];
  }

  /** Text that already fits, followed by more: the cut only concerns the remaining room. */
  lemma {:induction false} FitPrefixConcat(s: string, t: string, limit: nat)
    requires |Encode(s)| <= limit
    ensures FitPrefix(s + t, limit) == s + FitPrefix(t, limit - |Encode(s)|)
  {
    if s == [] {
      assert s + t == t;
    } else {
      EncodeHead(s);
      var room := limit - |EncodeChar(s[0])|;
      FitPrefixConcat(s[1..], t, room);
      FitPrefixHead(s, t, limit);
      Assoc([s[0]], s[1..], FitPrefix(t, limit - |Encode(s)|));
      assert s == [s[0]] + s[1..];
    }
  }

  /** Once a code point did not fit, later text changes nothing. */
  lemma {:induction false} FitPrefixClosed(s: string, t: string, limit: nat)
    requires |Encode(s)| > limit
    ensures FitPrefix(s + t, limit) == FitPrefix(s, limit)
  {
    EncodeHead(s);
    if |EncodeChar(s[0])| <= limit {
      FitPrefixHead(s, t, limit);
      FitPrefixClosed(s[1..], t, limit - |EncodeChar(s[0])|);
    } else {
      assert (s + t)[0] == s[0];
    }
  }

  // ----- Cutting encoded text: suffixes -----

  /** The longest suffix of whole code points whose encoding has at most `limit` bytes. */
  function FitSuffix(s: string, limit: nat): string {
    if |Encode(s)| <= limit then s else FitSuffix(s[1..], limit)
  }

  lemma {:induction false} FitSuffixIsLongest(s: string, limit: nat, k: nat)
    requires k <= |s| && |Encode(s[k..])| <= limit
    ensures |Encode(FitSuffix(s, limit))| <= limit
    ensures |FitSuffix(s, limit)| <= |s| && FitSuffix(s, limit) == s[|s| - |FitSuffix(s, limit)|..]
    ensures |FitSuffix(s, limit)| >= |s| - k
    ensures |Encode(s)| >= limit ==> |Encode(FitSuffix(s, limit))| >= limit - 3
  {
    if |Encode(s)| > limit {
      assert k > 0;
      assert s[1..][k - 1..] == s[k..];
      FitSuffixIsLongest(s[1..], limit, k - 1);
      EncodeHead(s);
    }
  }

  /** The last `limit` bytes of encoded text are continuation bytes, then the longest whole suffix. */
  lemma {:induction false} SuffixShape(s: string, limit: nat) returns (junk: seq<Byte>)
    requires limit <= |Encode(s)|
    ensures forall i :: 0 <= i < |junk| ==> Continuation(junk[i])
    ensures Encode(s)[|Encode(s)| - limit..] == junk + Encode(FitSuffix(s, limit))
  {
    if |Encode(s)| == limit {
      junk := [];
    } else {
      EncodeHead(s);
      var head, tail := EncodeChar(s[0]), Encode(s[1..]);
      if |tail| >= limit {
        CutShifted(head, tail, |tail| - limit);
        junk := SuffixShape(s[1..], limit);
      } else {
        junk := head[|head| + |tail| - limit..];
        CutWithin(head, tail, |head| + |tail| - limit);
        CharShape(s[0]);
      }
    }
  }

  /** Lenient decoding of the last bytes of encoded text keeps the longest whole suffix. */
  lemma DecodeSuffix(s: string, limit: nat)
    requires limit <= |Encode(s)|
    ensures DecodeIgnore(Encode(s)[|Encode(s)| - limit..]) == FitSuffix(s, limit)
  {
    var junk := SuffixShape(s, limit);
    DecodeContinuations(junk, Encode(FitSuffix(s, limit)));
    DecodeIgnoreRoundTrip(FitSuffix(s, limit));
  }

  /** More text that fits as a whole. */
  lemma WholeFits(s: string, t: string, limit: nat)
    requires |Encode(s)| + |Encode(t)| <= limit
    ensures FitPrefix(s + t, limit) == s + t
    ensures |Encode(s + t)| == |Encode(s)| + |Encode(t)|
  {
    EncodeConcat(s, t);
    FitPrefixIsLongest(s + t, limit, s + t);
  }

  /** More text that does not fit: what its first bytes decode to is all that is added. */
  lemma PartFits(s: string, t: string, limit: nat)
    requires |Encode(s)| <= limit < |Encode(s)| + |Encode(t)|
    ensures var part := DecodeIgnore(Encode(t)[..limit - |Encode(s)|]);
            && FitPrefix(s + t, limit) == s + part
            && |Encode(s + part)| == |Encode(s)| + |Encode(part)| <= limit
            && |Encode(s + t)| == |Encode(s)| + |Encode(t)|
  {
    var room := limit - |Encode(s)|;
    var part := DecodeIgnore(Encode(t)[..room]);
    DecodePrefix(t, room);
    FitPrefixConcat(s, t, limit);
    FitPrefixIsLongest(t, room, []);
    EncodeConcat(s, part);
    EncodeConcat(s, t);
  }
}
