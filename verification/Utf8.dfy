/** UTF-8 (RFC 3629): the byte form of a string, the grammar of valid byte sequences, and character boundaries. */
module Utf8 {
  import opened Prelude

  type byte = x: int | 0 <= x < 256
  type Bytes = seq<byte>

  /** A continuation byte, `10xxxxxx`. */
  predicate IsTail(b: byte) { 0x80 <= b < 0xC0 }

  /** The length of the character that a valid sequence starts with (RFC 3629 section 4), or 0 for none. */
  function CharLength(s: Bytes): (n: nat)
    ensures n <= 4 && n <= |s|
    ensures forall i :: 0 < i < n ==> IsTail(s[i])
    ensures n > 0 ==> !IsTail(s[0])
  {
    if |s| >= 1 && s[0] < 0x80 then 1
    else if |s| >= 2 && 0xC2 <= s[0] <= 0xDF && IsTail(s[1]) then 2
    else if |s| >= 3 && ThreeByteHead(s[0], s[1]) && IsTail(s[2]) then 3
    else if |s| >= 4 && FourByteHead(s[0], s[1]) && IsTail(s[2]) && IsTail(s[3]) then 4
    else 0
  }

  predicate ThreeByteHead(a: byte, b: byte) {
    || (a == 0xE0 && 0xA0 <= b <= 0xBF)
    || (0xE1 <= a <= 0xEC && IsTail(b))
    || (a == 0xED && 0x80 <= b <= 0x9F)
    || (0xEE <= a <= 0xEF && IsTail(b))
  }

  predicate FourByteHead(a: byte, b: byte) {
    || (a == 0xF0 && 0x90 <= b <= 0xBF)
    || (0xF1 <= a <= 0xF3 && IsTail(b))
    || (a == 0xF4 && 0x80 <= b <= 0x8F)
  }

  /** `UTF8-octets = *( UTF8-char )`. */
  predicate Valid(s: Bytes) {
    s == [] || (CharLength(s) > 0 && Valid(s[CharLength(s)..]))
  }

  /** `str::is_char_boundary`. */
  predicate IsCharBoundary(s: Bytes, n: nat) {
    n == 0 || (if n >= |s| then n == |s| else !IsTail(s[n]))
  }

  /** `str::get(..n)`. */
  function GetTo(s: Bytes, n: nat): Option<Bytes> {
    if n <= |s| && IsCharBoundary(s, n) then Some(s[..n]) else None
  }

  // ------------------------------------------------------------------------------------------------------------
  // Boundaries
  // ------------------------------------------------------------------------------------------------------------

  lemma CharLengthPrefix(s: Bytes, t: Bytes)
    requires CharLength(s) > 0
    ensures CharLength(s + t) == CharLength(s)
  {
    var n := CharLength(s);
    assert forall i :: 0 <= i < n ==> (s + t)[i] == s[i];
  }

  lemma {:induction false} ValidConcat(s: Bytes, t: Bytes)
    requires Valid(s)
    ensures Valid(s + t) <==> Valid(t)
  {
    if s == [] {
      assert s + t == t;
    } else {
      CharLengthPrefix(s, t);
      var n := CharLength(s);
      assert (s + t)[n..] == s[n..] + t;
      ValidConcat(s[n..], t);
    }
  }

  /** Past the first character, a cut is a cut of the rest. */
  lemma BoundaryPastFirst(s: Bytes, n: nat)
    requires Valid(s) && s != [] && CharLength(s) <= n <= |s|
    ensures var c := CharLength(s);
            && (IsCharBoundary(s, n) <==> IsCharBoundary(s[c..], n - c))
            && s[n..] == s[c..][n - c..]
  {
    var c := CharLength(s);
    if n < |s| {
      assert s[c..][n - c] == s[n];
      if n == c {
        FirstByteNoTail(s[c..]);
      }
    }
  }

  lemma PrefixPastFirst(s: Bytes, n: nat)
    requires 0 < CharLength(s) <= n <= |s|
    ensures Valid(s[..n]) <==> Valid(s[CharLength(s)..][..n - CharLength(s)])
  {
    var c := CharLength(s);
    CutAtChar(s);
    CharLengthPrefix(s[..c], s[c..n]);
    assert s[..c] + s[c..n] == s[..n];
    assert s[..n][c..] == s[c..][..n - c];
  }

  /** Rust's byte test finds the places where a valid string can be cut: both pieces are then valid, and conversely. */
  lemma {:induction false} BoundaryIsSplit(s: Bytes, n: nat)
    requires Valid(s) && n <= |s|
    ensures IsCharBoundary(s, n) <==> Valid(s[..n])
    ensures IsCharBoundary(s, n) <==> Valid(s[n..]) && Valid(s[..n])
  {
    if n == 0 {
      assert s[..0] == [] && s[0..] == s;
    } else if n < CharLength(s) {
      assert IsTail(s[n]);
      ShortPrefixInvalid(s, n);
    } else {
      BoundaryPastFirst(s, n);
      PrefixPastFirst(s, n);
      BoundaryIsSplit(s[CharLength(s)..], n - CharLength(s));
    }
  }

  lemma FirstByteNoTail(s: Bytes)
    requires Valid(s) && s != []
    ensures !IsTail(s[0])
  {}

  lemma CutAtChar(s: Bytes)
    requires CharLength(s) > 0
    ensures CharLength(s[..CharLength(s)]) == CharLength(s)
  {}

  lemma ShortPrefixInvalid(s: Bytes, n: nat)
    requires 0 < n < CharLength(s)
    ensures !Valid(s[..n])
  {
    assert CharLength(s[..n]) == 0;
  }

  // ------------------------------------------------------------------------------------------------------------
  // Encoding
  // ------------------------------------------------------------------------------------------------------------

  /** The bytes of one character; `char` excludes the surrogates. */
  function EncodeChar(c: char): (b: Bytes)
    ensures 1 <= |b| <= 4
    ensures (c as int) < 0x80 ==> b == [c as int]
    ensures (c as int) >= 0x80 ==> forall x :: x in b ==> x >= 0x80
  {
    var n := c as int;
    if n < 0x80 then [n]
    else if n < 0x800 then [0xC0 + n / 64, 0x80 + n % 64]
    else if n < 0x1_0000 then [0xE0 + n / 4096, 0x80 + n / 64 % 64, 0x80 + n % 64]
    else [0xF0 + n / 262144, 0x80 + n / 4096 % 64, 0x80 + n / 64 % 64, 0x80 + n % 64]
  }

  /** `str::as_bytes`. */
  function Encode(s: string): Bytes {
    if s == "" then [] else EncodeChar(s[0]) + Encode(s[1..])
  }

  lemma EncodeCharValid(c: char)
    ensures CharLength(EncodeChar(c)) == |EncodeChar(c)|
  {
    var n := c as int;
    if n >= 0x1_0000 {
      assert n <= 0x10_FFFF;
    }
  }

  /** Every string encodes to a valid byte sequence. */
  lemma {:induction false} EncodeValid(s: string)
    ensures Valid(Encode(s))
  {
    if s == "" {
    } else {
      EncodeValid(s[1..]);
      EncodeCharValid(s[0]);
      CharLengthPrefix(EncodeChar(s[0]), Encode(s[1..]));
      var n := |EncodeChar(s[0])|;
      assert Encode(s)[n..] == Encode(s[1..]);
    }
  }

  /** The six bits a continuation byte carries. */
  function TailBits(b: byte): int { (b as int) - 0x80 }

  /** The character that a valid sequence starts with. */
  function DecodeChar(s: Bytes): char
    requires CharLength(s) > 0
  {
    var n := CharLength(s);
    var head: int := s[0];
    if n == 1 then head as char
    else if n == 2 then ((head - 0xC0) * 64 + TailBits(s[1])) as char
    else if n == 3 then ((head - 0xE0) * 4096 + TailBits(s[1]) * 64 + TailBits(s[2])) as char
    else ((head - 0xF0) * 262144 + TailBits(s[1]) * 4096 + TailBits(s[2]) * 64 + TailBits(s[3])) as char
  }

  lemma DecodeCharInverts(s: Bytes)
    requires CharLength(s) > 0
    ensures EncodeChar(DecodeChar(s)) == s[..CharLength(s)]
  {
    var n := CharLength(s);
    if n == 1 {
      assert s[..1] == [s[0]];
    } else if n == 2 {
      assert s[..2] == [s[0], s[1]];
    } else if n == 3 {
      DecodeThree(s);
    } else {
      DecodeFour(s);
    }
  }

  lemma DecodeThree(s: Bytes)
    requires CharLength(s) == 3
    ensures EncodeChar(DecodeChar(s)) == s[..3]
  {
    var a, b, c := (s[0] as int) - 0xE0, TailBits(s[1]), TailBits(s[2]);
    ThreeDigits(a, b, c);
    var n := DecodeChar(s) as int;
    assert n == a * 4096 + b * 64 + c && 0x800 <= n < 0x1_0000;
    assert EncodeChar(DecodeChar(s)) == [0xE0 + a, 0x80 + b, 0x80 + c];
  }

  lemma DecodeFour(s: Bytes)
    requires CharLength(s) == 4
    ensures EncodeChar(DecodeChar(s)) == s[..4]
  {
    var a, b, c, d := (s[0] as int) - 0xF0, TailBits(s[1]), TailBits(s[2]), TailBits(s[3]);
    FourDigits(a, b, c, d);
    var n := DecodeChar(s) as int;
    assert n == a * 262144 + b * 4096 + c * 64 + d && 0x1_0000 <= n;
    assert EncodeChar(DecodeChar(s)) == [0xF0 + a, 0x80 + b, 0x80 + c, 0x80 + d];
  }

  lemma ThreeDigits(a: nat, b: nat, c: nat)
    requires b < 64 && c < 64
    ensures var n := a * 4096 + b * 64 + c; n / 4096 == a && n / 64 % 64 == b && n % 64 == c
  {
    var n := a * 4096 + b * 64 + c;
    assert n / 64 == a * 64 + b;
  }

  lemma FourDigits(a: nat, b: nat, c: nat, d: nat)
    requires b < 64 && c < 64 && d < 64
    ensures var n := a * 262144 + b * 4096 + c * 64 + d;
            n / 262144 == a && n / 4096 % 64 == b && n / 64 % 64 == c && n % 64 == d
  {
    var n := a * 262144 + b * 4096 + c * 64 + d;
    assert n / 64 == a * 4096 + b * 64 + c;
    assert n / 4096 == a * 64 + b;
  }

  lemma EncodeCons(c: char, rest: string)
    ensures Encode([c] + rest) == EncodeChar(c) + Encode(rest)
  {
    assert ([c] + rest)[1..] == rest;
  }

  /** The grammar is exact: a byte sequence is valid only if it is the encoding of a string. */
  lemma {:induction false} ValidIsEncoded(s: Bytes) returns (text: string)
    requires Valid(s)
    ensures Encode(text) == s
  {
    if s == [] {
      text := "";
    } else {
      var n := CharLength(s);
      var rest := ValidIsEncoded(s[n..]);
      DecodeCharInverts(s);
      EncodeCons(DecodeChar(s), rest);
      text := [DecodeChar(s)] + rest;
      assert s[..n] + s[n..] == s;
    }
  }

  predicate IsAscii(s: string) { forall i :: 0 <= i < |s| ==> (s[i] as int) < 0x80 }

  predicate AllAsciiBytes(b: Bytes) { forall i :: 0 <= i < |b| ==> b[i] < 0x80 }

  lemma {:induction false} AsciiBytes(s: string)
    requires IsAscii(s)
    ensures |Encode(s)| == |s| && forall i :: 0 <= i < |s| ==> Encode(s)[i] == s[i] as int
  {
    if s == "" {
    } else {
      AsciiBytes(s[1..]);
      assert forall i :: 0 < i < |s| ==> s[i] == s[1..][i - 1];
      assert EncodeChar(s[0]) == [s[0] as int];
    }
  }

  lemma {:induction false} NonAsciiBytes(s: string)
    requires !IsAscii(s)
    ensures !AllAsciiBytes(Encode(s))
  {
    var head, tail := EncodeChar(s[0]), Encode(s[1..]);
    assert s == [s[0]] + s[1..];
    if (s[0] as int) >= 0x80 {
      assert head[0] in head;
      assert Encode(s)[0] >= 0x80;
    } else {
      NonAsciiBytes(s[1..]);
      var i :| 0 <= i < |tail| && tail[i] >= 0x80;
      assert Encode(s)[|head| + i] == tail[i];
    }
  }

  lemma {:induction false} EncodeAtLeastAsLong(s: string)
    ensures |Encode(s)| >= |s|
  {
    if s == "" {
    } else {
      EncodeAtLeastAsLong(s[1..]);
    }
  }

  /** Ascii bytes are exactly ascii characters, one for one. */
  lemma AsciiEncode(s: string)
    ensures AllAsciiBytes(Encode(s)) <==> IsAscii(s)
    ensures IsAscii(s) ==> |Encode(s)| == |s| && forall i :: 0 <= i < |s| ==> Encode(s)[i] == s[i] as int
  {
    if IsAscii(s) {
      AsciiBytes(s);
      assert forall i :: 0 <= i < |s| ==> Encode(s)[i] == s[i] as int;
    } else {
      NonAsciiBytes(s);
    }
  }
}
