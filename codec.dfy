/**
 * The suffix codec of the `short_url` library (`encode_url`, `decode_url`).
 *
 * The library itself is not part of this model. This module is a concrete
 * stand-in with the two properties the shortener relies on, both proved below:
 * decoding an encoded id gives the id back (DecodeEncode), and an id that fits
 * in `width` characters is encoded in exactly `width` characters
 * (EncodeLength). The stand-in writes ids in base 36 over `0-9a-z`, most
 * significant digit first, left-padded with `0` to the requested width; like
 * the library's minimum-length argument, the width is a minimum and an id too
 * large for it gets a longer string. A failed decode (`None`) stands for the
 * library's `ValueError`.
 */
module Codec {
  import opened Wrappers

  const Base: nat := 36

  /** The character for digit `i`. */
  function Digit(i: nat): (c: char)
    requires i < Base
    ensures IsDigitChar(c) && DigitValue(c) == i
  {
    if i < 10 then ('0' as int + i) as char else ('a' as int + (i - 10)) as char
  }

  predicate IsDigitChar(c: char) {
    ('0' <= c <= '9') || ('a' <= c <= 'z')
  }

  /** The digit a character stands for; inverse of Digit. */
  function DigitValue(c: char): (v: nat)
    requires IsDigitChar(c)
    ensures v < Base
  {
    if c <= '9' then c as int - '0' as int else c as int - 'a' as int + 10
  }

  lemma DigitOfValue(c: char)
    requires IsDigitChar(c)
    ensures Digit(DigitValue(c)) == c
  {
  }

  /** Number of ids that fit in `width` characters: Base to the power `width`. */
  function Capacity(width: nat): (n: nat)
    ensures n >= 1
  {
    if width == 0 then 1 else Base * Capacity(width - 1)
  }

  /** `encode_url(n, width)`: `n` in base 36, padded on the left to at least `width` characters. */
  function Encode(n: nat, width: nat): (s: string)
    ensures AllDigits(s) && |s| >= width
    decreases n, width
  {
    if n == 0 && width == 0 then ""
    else Encode(n / Base, if width == 0 then 0 else width - 1) + [Digit(n % Base)]
  }

  predicate AllDigits(s: string) {
    forall i :: 0 <= i < |s| ==> IsDigitChar(s[i])
  }

  /** The number a string of digits denotes, most significant digit first. */
  function Value(s: string): (v: nat)
    requires AllDigits(s)
  {
    if s == [] then 0 else Value(s[..|s| - 1]) * Base + DigitValue(s[|s| - 1])
  }

  /** `decode_url(s)`: fails exactly when `s` holds a character outside the alphabet. */
  function Decode(s: string): (r: Option<nat>)
    ensures r.Some? <==> AllDigits(s)
  {
    if AllDigits(s) then Some(Value(s)) else None
  }

  /** Round trip: every encoded id decodes to itself, whatever the width. */
  lemma {:induction false} DecodeEncode(n: nat, width: nat)
    ensures AllDigits(Encode(n, width))
    ensures Decode(Encode(n, width)) == Some(n)
    decreases n, width
  {
    if n == 0 && width == 0 {
    } else {
      var w := if width == 0 then 0 else width - 1;
      var p := Encode(n / Base, w);
      DecodeEncode(n / Base, w);
      var s := p + [Digit(n % Base)];
      assert s[..|s| - 1] == p;
      assert Value(s) == Value(p) * Base + n % Base;
    }
  }

  /**
   * Length: an encoding is never shorter than the width asked for, and it is
   * exactly that wide if and only if the id fits in that many characters.
   */
  lemma {:induction false} EncodeLength(n: nat, width: nat)
    ensures |Encode(n, width)| >= width
    ensures |Encode(n, width)| == width <==> n < Capacity(width)
    decreases n, width
  {
    if n == 0 && width == 0 {
    } else {
      var w := if width == 0 then 0 else width - 1;
      EncodeLength(n / Base, w);
      if width == 0 {
        assert n > 0;
      } else {
        assert n / Base < Capacity(w) <==> n < Capacity(width);
      }
    }
  }

  /**
   * Converse round trip: a string that decodes is the encoding of its value at
   * its own length, so every decodable string of a width is produced by Encode.
   */
  lemma {:induction false} EncodeDecode(s: string)
    requires Decode(s).Some?
    ensures Encode(Decode(s).value, |s|) == s
  {
    if s != [] {
      var p := s[..|s| - 1];
      var c := s[|s| - 1];
      assert AllDigits(p);
      EncodeDecode(p);
      DigitOfValue(c);
      var v := Value(s);
      assert v / Base == Value(p) && v % Base == DigitValue(c);
      assert s == p + [c];
    }
  }
}
