/** Optional values, used for lookups that can come back empty. */
module Options {

  datatype Option<+T> = None | Some(value: T)
}

/**
 The word format of the serial link: a program word travels as a string of
 binary digits, zero-padded to 14 places by the host, and is parsed back
 with base-2 integer parsing when the programmer answers a read.
 */
module Wire {
  import opened Options

  /** Width of a PIC16 program word, in bits. */
  const WordWidth: nat := 14

  /** 2^14: the first value that no longer fits in a program word. */
  const WordLimit: nat := 0x4000

  /** The value an erased cell holds, and the padding default of the image. */
  const Erased: nat := 0xFFFF

  predicate IsBit(c: char) {
    c == '0' || c == '1'
  }

  predicate AllBits(s: string) {
    forall i :: 0 <= i < |s| ==> IsBit(s[i])
  }

  function Pow2(n: nat): nat {
    if n == 0 then 1 else 2 * Pow2(n - 1)
  }

  function Digit(b: nat): char
    requires b < 2
  {
    if b == 0 then '0' else '1'
  }

  /**
   The binary numeral of `v`, most significant digit first, zero-padded on
   the left to at least `width` digits and never truncated.
   */
  function Numeral(v: nat, width: nat): string
    decreases v + width
  {
    if v < 2 && width <= 1 then [Digit(v)]
    else Numeral(v / 2, if width == 0 then 0 else width - 1) + [Digit(v % 2)]
  }

  /** The value of a string of binary digits, most significant first. */
  function BinValue(s: string): nat
    requires AllBits(s)
  {
    if s == [] then 0
    else 2 * BinValue(s[..|s| - 1]) + (if s[|s| - 1] == '1' then 1 else 0)
  }

  /**
   Base-2 parsing of a response line: a non-empty string of binary digits
   has a value, anything else is a parse error.
   */
  function ParseBinary(s: string): Option<nat> {
    if s != [] && AllBits(s) then Some(BinValue(s)) else None
  }

  /**
   The payload the host sends to write `v`: its binary numeral, zero-padded
   to 14 digits.
   */
  function FormatWord(v: nat): string {
    Numeral(v, WordWidth)
  }

  /** Base-2 parsing gives back the value a numeral was formatted from. */
  lemma {:induction false} NumeralValue(v: nat, width: nat)
    ensures AllBits(Numeral(v, width))
    ensures BinValue(Numeral(v, width)) == v
    decreases v + width
  {
    if !(v < 2 && width <= 1) {
      var w := if width == 0 then 0 else width - 1;
      var s := Numeral(v, width);
      NumeralValue(v / 2, w);
      assert s[..|s| - 1] == Numeral(v / 2, w);
    }
  }

  /** A numeral padded to `width` digits has at least that many, and no more exactly when `v < 2^width`. */
  lemma {:induction false} NumeralWidth(v: nat, width: nat)
    requires width >= 1
    ensures |Numeral(v, width)| >= width
    ensures |Numeral(v, width)| == width <==> v < Pow2(width)
    decreases v + width
  {
    if v < 2 && width <= 1 {
      assert Pow2(1) == 2;
    } else if width == 1 {
      assert Pow2(1) == 2;
      NumeralAtLeastOne(v / 2, 0);
    } else {
      NumeralWidth(v / 2, width - 1);
    }
  }

  lemma NumeralAtLeastOne(v: nat, width: nat)
    ensures |Numeral(v, width)| >= 1
  {
  }

  /** Round trip of the write payload: parsing `FormatWord(v)` as binary gives back `v`, for every `v`. */
  lemma FormatWordRoundTrip(v: nat)
    ensures AllBits(FormatWord(v))
    ensures ParseBinary(FormatWord(v)) == Some(v)
  {
    NumeralValue(v, WordWidth);
    NumeralAtLeastOne(v, WordWidth);
  }

  /** The payload has at least 14 digits, and exactly 14 precisely when `v` fits a program word. */
  lemma FormatWordWidth(v: nat)
    ensures |FormatWord(v)| >= WordWidth
    ensures |FormatWord(v)| == WordWidth <==> v < WordLimit
  {
    NumeralWidth(v, WordWidth);
    assert Pow2(WordWidth) == WordLimit;
  }

  /** Distinct words are sent as distinct payloads. */
  lemma FormatWordInjective(v: nat, w: nat)
    requires FormatWord(v) == FormatWord(w)
    ensures v == w
  {
    FormatWordRoundTrip(v);
    FormatWordRoundTrip(w);
  }
}
