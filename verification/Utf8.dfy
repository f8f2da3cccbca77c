/** Go's `range` over a string: the UTF-8 decoder that turns bytes into runes, and the
    characters the path rules refuse. A malformed sequence decodes to U+FFFD, one byte wide. */
module Utf8 {
  import opened GoStrings

  const RUNE_ERROR := 0xFFFD

  datatype Decoded = Decoded(rune: int, width: nat)

  predicate Continues(s: Str, i: nat, low: int, high: int) {
    i < |s| && low <= s[i] <= high
  }

  /** The six payload bits of a continuation byte. */
  function Low(s: Str, i: nat): int
    requires i < |s|
  {
    (s[i] as int) - 0x80
  }

  function DecodeRune(s: Str): (d: Decoded)
    requires s != []
    ensures 1 <= d.width <= |s|
    ensures d.rune < 0x80 <==> s[0] < 0x80
    ensures s[0] < 0x80 ==> d == Decoded(s[0], 1)
    ensures forall i :: 0 <= i < d.width && d.width > 1 ==> s[i] >= 0x80
  {
    var b: int := s[0];
    if b < 0x80 then
      Decoded(b, 1)
    else if 0xC2 <= b <= 0xDF && Continues(s, 1, 0x80, 0xBF) then
      Decoded((b - 0xC0) * 0x40 + Low(s, 1), 2)
    else if 0xE0 <= b <= 0xEF
            && Continues(s, 1, if b == 0xE0 then 0xA0 else 0x80, if b == 0xED then 0x9F else 0xBF)
            && Continues(s, 2, 0x80, 0xBF) then
      Decoded((b - 0xE0) * 0x1000 + Low(s, 1) * 0x40 + Low(s, 2), 3)
    else if 0xF0 <= b <= 0xF4
            && Continues(s, 1, if b == 0xF0 then 0x90 else 0x80, if b == 0xF4 then 0x8F else 0xBF)
            && Continues(s, 2, 0x80, 0xBF) && Continues(s, 3, 0x80, 0xBF) then
      Decoded((b - 0xF0) * 0x40000 + Low(s, 1) * 0x1000 + Low(s, 2) * 0x40 + Low(s, 3), 4)
    else
      Decoded(RUNE_ERROR, 1)
  }

  /** The code points UTF-8 can write. */
  predicate Scalar(rune: int) {
    0 <= rune < 0xD800 || 0xE000 <= rune < 0x11_0000
  }

  /** The bytes of a code point: six bits each from the low end, the rest in the leading byte. */
  function Encode(rune: int): Str
    requires Scalar(rune)
  {
    var q := rune / 0x40;
    var p := q / 0x40;
    if rune < 0x80 then [rune]
    else if rune < 0x800 then [0xC0 + q, 0x80 + rune % 0x40]
    else if rune < 0x1_0000 then [0xE0 + p, 0x80 + q % 0x40, 0x80 + rune % 0x40]
    else [0xF0 + p / 0x40, 0x80 + p % 0x40, 0x80 + q % 0x40, 0x80 + rune % 0x40]
  }

  /** Decoding looks at no byte beyond the rune it reads. */
  lemma DecodeLocal(e: Str, rest: Str)
    requires e != [] && DecodeRune(e) != Decoded(RUNE_ERROR, 1)
    ensures DecodeRune(e + rest) == DecodeRune(e)
  {
    var s := e + rest;
    assert forall i :: 0 <= i < |e| ==> s[i] == e[i];
  }

  lemma DecodeOwnBytes(rune: int)
    requires Scalar(rune)
    ensures DecodeRune(Encode(rune)) == Decoded(rune, |Encode(rune)|)
  {
    var q := rune / 0x40;
    var p := q / 0x40;
    if rune < 0x800 {
    } else if rune < 0x1_0000 {
      assert Encode(rune) == [0xE0 + p, 0x80 + q % 0x40, 0x80 + rune % 0x40];
    } else {
      assert Encode(rune) == [0xF0 + p / 0x40, 0x80 + p % 0x40, 0x80 + q % 0x40, 0x80 + rune % 0x40];
    }
  }

  /** Every code point written anywhere is read back, and no more bytes than its own. */
  lemma DecodeEncoded(rune: int, rest: Str)
    requires Scalar(rune)
    ensures DecodeRune(Encode(rune) + rest) == Decoded(rune, |Encode(rune)|)
  {
    DecodeOwnBytes(rune);
    DecodeLocal(Encode(rune), rest);
  }

  /** Whatever is read, save a single malformed byte, is a code point in its own bytes. */
  lemma EncodeDecoded(s: Str)
    requires s != []
    ensures var d := DecodeRune(s);
            d == Decoded(RUNE_ERROR, 1) || (Scalar(d.rune) && Encode(d.rune) == s[..d.width])
  {
    var d := DecodeRune(s);
    if d.width == 2 {
      var b: int := s[0];
      assert s[..2] == [s[0], s[1]];
      Sextet(b - 0xC0, Low(s, 1));
    } else if d.width == 3 {
      EncodeThree(s);
    } else if d.width == 4 {
      EncodeFour(s);
    }
  }

  lemma EncodeThree(s: Str)
    requires s != [] && DecodeRune(s).width == 3
    ensures Scalar(DecodeRune(s).rune) && Encode(DecodeRune(s).rune) == s[..3]
  {
    var b: int := s[0];
    assert s[..3] == [s[0], s[1], s[2]];
    Sextet((b - 0xE0) * 0x40 + Low(s, 1), Low(s, 2));
    Sextet(b - 0xE0, Low(s, 1));
  }

  lemma EncodeFour(s: Str)
    requires s != [] && DecodeRune(s).width == 4
    ensures Scalar(DecodeRune(s).rune) && Encode(DecodeRune(s).rune) == s[..4]
  {
    var b: int := s[0];
    assert s[..4] == [s[0], s[1], s[2], s[3]];
    Sextet(((b - 0xF0) * 0x40 + Low(s, 1)) * 0x40 + Low(s, 2), Low(s, 3));
    Sextet((b - 0xF0) * 0x40 + Low(s, 1), Low(s, 2));
    Sextet(b - 0xF0, Low(s, 1));
  }

  lemma Sextet(high: int, low: int)
    requires 0 <= low < 0x40
    ensures (high * 0x40 + low) / 0x40 == high && (high * 0x40 + low) % 0x40 == low
  {
  }

  /** The table of refused runes; everything above U+FFFF is allowed. */
  predicate Forbidden(rune: int) {
    0x0000 <= rune <= 0x001F || 0x007F <= rune <= 0x009F || 0xD800 <= rune <= 0xF8FF || 0xFFF0 <= rune <= 0xFFFF
  }

  /** Every rune of `s` is allowed. A malformed sequence is never clean, since U+FFFD is refused. */
  predicate Clean(s: Str) {
    s == [] || (!Forbidden(DecodeRune(s).rune) && Clean(s[DecodeRune(s).width..]))
  }

  /** So a text with a malformed sequence anywhere along its runes is refused. */
  lemma MalformedIsRefused(s: Str)
    requires s != [] && DecodeRune(s) == Decoded(RUNE_ERROR, 1)
    ensures !Clean(s)
  {
  }

  function EncodeAll(runes: seq<int>): Str
    requires forall i :: 0 <= i < |runes| ==> Scalar(runes[i])
  {
    if runes == [] then [] else Encode(runes[0]) + EncodeAll(runes[1..])
  }

  /** A text is clean iff none of its code points is refused. */
  lemma {:induction false} CleanText(runes: seq<int>)
    requires forall i :: 0 <= i < |runes| ==> Scalar(runes[i])
    ensures Clean(EncodeAll(runes)) <==> forall i :: 0 <= i < |runes| ==> !Forbidden(runes[i])
  {
    if runes != [] {
      var first, rest := runes[0], runes[1..];
      DecodeEncoded(first, EncodeAll(rest));
      assert EncodeAll(runes)[|Encode(first)|..] == EncodeAll(rest);
      CleanText(rest);
      assert forall i :: 0 < i < |runes| ==> runes[i] == rest[i - 1];
    }
  }

  /** An ASCII byte is never part of a longer rune, so decoding does not run across one. */
  lemma DecodeBeforeAscii(s: Str, t: Str)
    requires s != [] && (t != [] ==> t[0] < 0x80)
    ensures DecodeRune(s + t) == DecodeRune(s)
  {
    var u := s + t;
    assert forall i :: 0 <= i < |s| ==> u[i] == s[i];
    assert t != [] ==> u[|s|] == t[0];
  }

  lemma {:induction false} CleanAppend(s: Str, t: Str)
    requires t != [] ==> t[0] < 0x80
    ensures Clean(s + t) <==> Clean(s) && Clean(t)
    decreases |s|
  {
    if s == [] {
      assert s + t == t;
    } else {
      var w := DecodeRune(s).width;
      DecodeBeforeAscii(s, t);
      assert (s + t)[w..] == s[w..] + t;
      CleanAppend(s[w..], t);
    }
  }

  lemma CleanAcrossSlash(s: Str, rest: Str)
    ensures Clean(s + [SLASH] + rest) <==> Clean(s) && Clean(rest)
  {
    var t := [SLASH] + rest;
    assert s + [SLASH] + rest == s + t;
    CleanAppend(s, t);
    assert t[1..] == rest;
  }

  lemma {:induction false} AsciiIsClean(s: Str)
    requires forall i :: 0 <= i < |s| ==> 0x20 <= s[i] < 0x7F
    ensures Clean(s)
  {
    if s != [] {
      AsciiIsClean(s[1..]);
    }
  }
}
