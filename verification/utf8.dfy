/** UTF-8 as Rust's `str::from_utf8` sees it (RFC 3629 section 4): the
    validator that reports how far the input is valid (`valid_up_to`) and how
    long the offending sequence is (`error_len`, absent when the input simply
    ends too early), the decoder of valid input, and the encoder it inverts. */
module Utf8 {
  import opened Results
  import opened Strings

  type byte = x: int | 0 <= x < 256

  predicate IsContinuation(b: byte) {
    0x80 <= b <= 0xBF
  }

  /** `utf8_char_width`: how many bytes a sequence opened by `b` has, or 0 when
      `b` cannot open one (a continuation byte, 0xC0, 0xC1, or 0xF5 and above). */
  function CharWidth(b: byte): nat {
    if b < 0x80 then 1
    else if b < 0xC2 then 0
    else if b < 0xE0 then 2
    else if b < 0xF0 then 3
    else if b < 0xF5 then 4
    else 0
  }

  /** The second bytes a three-byte lead admits: no overlong forms after 0xE0,
      no surrogates after 0xED. */
  predicate SecondOfThree(b0: byte, b1: byte) {
    || (b0 == 0xE0 && 0xA0 <= b1 <= 0xBF)
    || (0xE1 <= b0 <= 0xEC && 0x80 <= b1 <= 0xBF)
    || (b0 == 0xED && 0x80 <= b1 <= 0x9F)
    || (0xEE <= b0 <= 0xEF && 0x80 <= b1 <= 0xBF)
  }

  /** The second bytes a four-byte lead admits: no overlong forms after 0xF0,
      nothing above U+10FFFF after 0xF4. */
  predicate SecondOfFour(b0: byte, b1: byte) {
    || (b0 == 0xF0 && 0x90 <= b1 <= 0xBF)
    || (0xF1 <= b0 <= 0xF3 && 0x80 <= b1 <= 0xBF)
    || (b0 == 0xF4 && 0x80 <= b1 <= 0x8F)
  }

  /** The scalar value a well-formed two-, three- or four-byte sequence
      carries: the lead byte's payload bits followed by six bits per
      continuation byte. */
  function Value2(b0: byte, b1: byte): int {
    (b0 as int - 0xC0) * 64 + (b1 as int - 0x80)
  }

  function Value3(b0: byte, b1: byte, b2: byte): int {
    (b0 as int - 0xE0) * 0x1000 + (b1 as int - 0x80) * 64 + (b2 as int - 0x80)
  }

  function Value4(b0: byte, b1: byte, b2: byte, b3: byte): int {
    (b0 as int - 0xF0) * 0x40000 + (b1 as int - 0x80) * 0x1000 + (b2 as int - 0x80) * 64 + (b3 as int - 0x80)
  }

  /** What the validator finds at the start of a non-empty input: a well-formed
      character of `len` bytes, an invalid sequence of `errorLen` bytes (the
      longest prefix of a well-formed sequence, at least the lead byte), or a
      well-formed beginning cut off by the end of the input. */
  datatype Step = Char(len: nat, c: char) | Invalid(errorLen: nat) | Truncated

  function Scan(bs: seq<byte>): (r: Step)
    requires |bs| > 0
    ensures r.Char? ==> 1 <= r.len <= 4 && r.len <= |bs|
    ensures r.Invalid? ==> 1 <= r.errorLen <= 3 && r.errorLen <= |bs|
    ensures r.Truncated? ==> 2 <= CharWidth(bs[0]) && |bs| < CharWidth(bs[0])
  {
    var b0 := bs[0];
    var w := CharWidth(b0);
    if w == 1 then
      Char(1, b0 as char)
    else if w == 2 then
      if |bs| < 2 then Truncated
      else if !IsContinuation(bs[1]) then Invalid(1)
      else Char(2, Value2(b0, bs[1]) as char)
    else if w == 3 then
      if |bs| < 2 then Truncated
      else if !SecondOfThree(b0, bs[1]) then Invalid(1)
      else if |bs| < 3 then Truncated
      else if !IsContinuation(bs[2]) then Invalid(2)
      else Char(3, Value3(b0, bs[1], bs[2]) as char)
    else if w == 4 then
      if |bs| < 2 then Truncated
      else if !SecondOfFour(b0, bs[1]) then Invalid(1)
      else if |bs| < 3 then Truncated
      else if !IsContinuation(bs[2]) then Invalid(2)
      else if |bs| < 4 then Truncated
      else if !IsContinuation(bs[3]) then Invalid(3)
      else Char(4, Value4(b0, bs[1], bs[2], bs[3]) as char)
    else
      Invalid(1)
  }

  /** The validator only looks at the bytes of the character it accepts. */
  lemma ScanPrefix(bs: seq<byte>, t: seq<byte>)
    requires |bs| > 0 && Scan(bs).Char?
    requires Scan(bs).len <= |t| && t[..Scan(bs).len] == bs[..Scan(bs).len]
    ensures Scan(t) == Scan(bs)
  {
    var n := Scan(bs).len;
    assert forall i :: 0 <= i < n ==> t[i] == bs[i] by {
      forall i | 0 <= i < n ensures t[i] == bs[i] {
        assert t[..n][i] == bs[..n][i];
      }
    }
  }

  /** `Utf8Error`: the length of the valid prefix, and the length of the
      invalid sequence after it (`None` when the input ends inside a sequence). */
  datatype Utf8Error = Utf8Error(validUpTo: nat, errorLen: Option<nat>)

  /** `str::from_utf8`: the decoded string, or where and how decoding fails. */
  function FromUtf8(bs: seq<byte>): (r: Result<string, Utf8Error>)
    ensures r.Err? ==> r.error.validUpTo < |bs|
    ensures r.Err? && r.error.errorLen.Some? ==>
      1 <= r.error.errorLen.value && r.error.validUpTo + r.error.errorLen.value <= |bs|
    decreases |bs|
  {
    if |bs| == 0 then Ok([])
    else match Scan(bs)
      case Char(n, c) =>
        (match FromUtf8(bs[n..])
         case Ok(s) => Ok([c] + s)
         case Err(e) => Err(Utf8Error(e.validUpTo + n, e.errorLen)))
      case Invalid(k) => Err(Utf8Error(0, Some(k)))
      case Truncated => Err(Utf8Error(0, None))
  }

  /** Past a well-formed first character, `from_utf8` fails exactly where it
      fails on the rest, shifted by that character's length. */
  lemma FromUtf8ErrorStep(bs: seq<byte>)
    requires |bs| > 0 && Scan(bs).Char? && FromUtf8(bs).Err?
    ensures FromUtf8(bs[Scan(bs).len..]).Err?
    ensures FromUtf8(bs).error.validUpTo == FromUtf8(bs[Scan(bs).len..]).error.validUpTo + Scan(bs).len
    ensures FromUtf8(bs).error.errorLen == FromUtf8(bs[Scan(bs).len..]).error.errorLen
  {
  }

  /** Decoding a prefix that extends past the first character starts with
      that character. */
  lemma DecodePrefix(bs: seq<byte>, v: nat)
    requires |bs| > 0 && Scan(bs).Char? && Scan(bs).len <= v <= |bs|
    requires FromUtf8(bs[Scan(bs).len..v]).Ok?
    ensures FromUtf8(bs[..v]).Ok?
    ensures FromUtf8(bs[..v]).value == [Scan(bs).c] + FromUtf8(bs[Scan(bs).len..v]).value
  {
    var n := Scan(bs).len;
    var prefix := bs[..v];
    ScanPrefix(bs, prefix);
    Reslice(bs, n, v - n);
  }

  /** `from_utf8_unchecked`, applied only to input known to be valid. */
  function DecodeValid(bs: seq<byte>): string
    requires FromUtf8(bs).Ok?
  {
    FromUtf8(bs).value
  }

  /** What `Utf8Error` promises: everything before `valid_up_to` is valid, and
      at `valid_up_to` the validator finds exactly the reported failure. */
  lemma ErrorPosition(bs: seq<byte>)
    requires FromUtf8(bs).Err?
    ensures var e := FromUtf8(bs).error;
      && FromUtf8(bs[..e.validUpTo]).Ok?
      && (e.errorLen.None? ==> Scan(bs[e.validUpTo..]).Truncated?)
      && (e.errorLen.Some? ==> Scan(bs[e.validUpTo..]) == Invalid(e.errorLen.value))
  {
    ErrorPrefixValid(bs);
    ErrorScan(bs);
  }

  /** The bytes before `valid_up_to` are valid. */
  lemma {:induction false} ErrorPrefixValid(bs: seq<byte>)
    requires FromUtf8(bs).Err?
    ensures FromUtf8(bs[..FromUtf8(bs).error.validUpTo]).Ok?
    decreases |bs|
  {
    match Scan(bs)
    case Char(n, c) =>
      ErrorPrefixValid(bs[n..]);
      FromUtf8ErrorStep(bs);
      var v' := FromUtf8(bs[n..]).error.validUpTo;
      Reslice(bs, n, v');
      DecodePrefix(bs, n + v');
    case Invalid(k) =>
    case Truncated =>
  }

  /** At `valid_up_to` the validator finds exactly the reported failure. */
  lemma {:induction false} ErrorScan(bs: seq<byte>)
    requires FromUtf8(bs).Err?
    ensures var e := FromUtf8(bs).error;
      && (e.errorLen.None? ==> Scan(bs[e.validUpTo..]).Truncated?)
      && (e.errorLen.Some? ==> Scan(bs[e.validUpTo..]) == Invalid(e.errorLen.value))
    decreases |bs|
  {
    match Scan(bs)
    case Char(n, c) =>
      ErrorScan(bs[n..]);
      FromUtf8ErrorStep(bs);
      Reslice(bs, n, FromUtf8(bs[n..]).error.validUpTo);
    case Invalid(k) =>
      assert bs[0..] == bs;
    case Truncated =>
      assert bs[0..] == bs;
  }

  /* ---------------------------------------------------------------------- */
  /*  Encoding                                                              */
  /* ---------------------------------------------------------------------- */

  /** The UTF-8 encoding of one scalar value (RFC 3629 section 3). */
  function EncodeChar(c: char): (r: seq<byte>)
    ensures 1 <= |r| <= 4
  {
    var n := c as int;
    if n < 0x80 then [n]
    else if n < 0x800 then [0xC0 + n / 64, 0x80 + n % 64]
    else if n < 0x10000 then [0xE0 + n / 0x1000, 0x80 + (n / 64) % 64, 0x80 + n % 64]
    else [0xF0 + n / 0x40000, 0x80 + (n / 0x1000) % 64, 0x80 + (n / 64) % 64, 0x80 + n % 64]
  }

  function Encode(s: string): seq<byte> {
    if |s| == 0 then [] else EncodeChar(s[0]) + Encode(s[1..])
  }

  lemma EncodeTwo(n: int)
    requires 0x80 <= n < 0x800
    ensures CharWidth(0xC0 + n / 64) == 2 && IsContinuation(0x80 + n % 64)
    ensures Value2(0xC0 + n / 64, 0x80 + n % 64) == n
  {
  }

  lemma EncodeThree(n: int)
    requires 0x800 <= n < 0x10000 && !(0xD800 <= n < 0xE000)
    ensures CharWidth(0xE0 + n / 0x1000) == 3
    ensures SecondOfThree(0xE0 + n / 0x1000, 0x80 + (n / 64) % 64)
    ensures IsContinuation(0x80 + n % 64)
    ensures Value3(0xE0 + n / 0x1000, 0x80 + (n / 64) % 64, 0x80 + n % 64) == n
  {
    var q, m := n / 64, n % 64;
    assert n == q * 64 + m;
    assert q / 64 == n / 0x1000;
    assert q == (q / 64) * 64 + q % 64;
  }

  lemma EncodeFour(n: int)
    requires 0x10000 <= n < 0x110000
    ensures CharWidth(0xF0 + n / 0x40000) == 4
    ensures SecondOfFour(0xF0 + n / 0x40000, 0x80 + (n / 0x1000) % 64)
    ensures IsContinuation(0x80 + (n / 64) % 64) && IsContinuation(0x80 + n % 64)
    ensures Value4(0xF0 + n / 0x40000, 0x80 + (n / 0x1000) % 64, 0x80 + (n / 64) % 64, 0x80 + n % 64) == n
  {
    var q, m := n / 64, n % 64;
    var q2 := q / 64;
    assert n == q * 64 + m;
    assert q == q2 * 64 + q % 64;
    assert q2 == n / 0x1000;
    assert q2 / 64 == n / 0x40000;
    assert q2 == (q2 / 64) * 64 + q2 % 64;
  }

  /** The validator accepts an encoded character as exactly that character. */
  lemma ScanEncodeChar(c: char, rest: seq<byte>)
    ensures Scan(EncodeChar(c) + rest) == Char(|EncodeChar(c)|, c)
  {
    var n := c as int;
    var e := EncodeChar(c);
    var bs := e + rest;
    assert bs[..|e|] == e;
    if n < 0x80 {
    } else if n < 0x800 {
      EncodeTwo(n);
    } else if n < 0x10000 {
      EncodeThree(n);
    } else {
      EncodeFour(n);
    }
  }

  /** A character the validator accepts is the encoding of what it decodes to. */
  lemma ScanIsEncoding(bs: seq<byte>)
    requires |bs| > 0 && Scan(bs).Char?
    ensures bs[..Scan(bs).len] == EncodeChar(Scan(bs).c)
  {
    var n := Scan(bs).len;
    if n == 2 {
      DecodeTwo(bs[0], bs[1]);
    } else if n == 3 {
      DecodeThree(bs[0], bs[1], bs[2]);
    } else if n == 4 {
      DecodeFour(bs[0], bs[1], bs[2], bs[3]);
    }
  }

  lemma DecodeTwo(b0: byte, b1: byte)
    requires CharWidth(b0) == 2 && IsContinuation(b1)
    ensures var n := Value2(b0, b1); 0x80 <= n < 0x800 && n / 64 == b0 - 0xC0 && n % 64 == b1 - 0x80
  {
  }

  lemma DecodeThree(b0: byte, b1: byte, b2: byte)
    requires CharWidth(b0) == 3 && SecondOfThree(b0, b1) && IsContinuation(b2)
    ensures var n := Value3(b0, b1, b2);
      && 0x800 <= n < 0x10000 && !(0xD800 <= n < 0xE000)
      && n / 0x1000 == b0 - 0xE0 && (n / 64) % 64 == b1 - 0x80 && n % 64 == b2 - 0x80
  {
    var n := Value3(b0, b1, b2);
    assert n / 64 == (b0 - 0xE0) * 64 + (b1 - 0x80);
  }

  lemma DecodeFour(b0: byte, b1: byte, b2: byte, b3: byte)
    requires CharWidth(b0) == 4 && SecondOfFour(b0, b1) && IsContinuation(b2) && IsContinuation(b3)
    ensures var n := Value4(b0, b1, b2, b3);
      && 0x10000 <= n < 0x110000
      && n / 0x40000 == b0 - 0xF0 && (n / 0x1000) % 64 == b1 - 0x80
      && (n / 64) % 64 == b2 - 0x80 && n % 64 == b3 - 0x80
  {
    var n := Value4(b0, b1, b2, b3);
    assert n / 64 == (b0 - 0xF0) * 0x1000 + (b1 - 0x80) * 64 + (b2 - 0x80);
    assert n / 0x1000 == (b0 - 0xF0) * 64 + (b1 - 0x80);
  }

  /** `from_utf8` accepts exactly the encodings of strings, and decodes each to
      the string it encodes. */
  lemma {:induction false} FromUtf8Encode(s: string)
    ensures FromUtf8(Encode(s)) == Ok(s)
  {
    if |s| > 0 {
      var head := EncodeChar(s[0]);
      var bs := Encode(s);
      ScanEncodeChar(s[0], Encode(s[1..]));
      DropPrefix(head, Encode(s[1..]));
      FromUtf8Encode(s[1..]);
      assert s == [s[0]] + s[1..];
    }
  }

  lemma {:induction false} FromUtf8IsEncoding(bs: seq<byte>)
    requires FromUtf8(bs).Ok?
    ensures Encode(FromUtf8(bs).value) == bs
    decreases |bs|
  {
    if |bs| > 0 {
      var n, c := Scan(bs).len, Scan(bs).c;
      var tail := bs[n..];
      FromUtf8Step(bs);
      ScanIsEncoding(bs);
      FromUtf8IsEncoding(tail);
      var t := FromUtf8(tail).value;
      var s := FromUtf8(bs).value;
      DropPrefix([c], t);
      assert Encode(s) == EncodeChar(c) + Encode(t);
      Split(bs, n);
    }
  }

  /** One step of `from_utf8` on valid input: the first character, then the
      decoding of the rest. */
  lemma FromUtf8Step(bs: seq<byte>)
    requires |bs| > 0 && FromUtf8(bs).Ok?
    ensures Scan(bs).Char? && FromUtf8(bs[Scan(bs).len..]).Ok?
    ensures FromUtf8(bs).value == [Scan(bs).c] + FromUtf8(bs[Scan(bs).len..]).value
  {
  }

}
