/** Making a Lua string safe to display (`src/inspect.rs`): `remove_invalid`
    keeps the well-formed UTF-8 of a byte string and writes each byte of an
    invalid sequence as `\xHH`; `escape_control` then replaces every control
    character by a backslash escape; `cleanup_string` is the two in turn. */
module Inspect {
  import opened Results
  import opened Strings
  import opened Utf8

  /* ---------------------------------------------------------------------- */
  /*  remove_invalid                                                        */
  /* ---------------------------------------------------------------------- */

  /** `format!("\\x{:X?}", b)`: a backslash, `x`, and the byte in upper-case
      hexadecimal without padding. */
  function EscapeByte(b: byte): string {
    "\\x" + HexUpper(b)
  }

  function EscapeBytes(bs: seq<byte>): string {
    if |bs| == 0 then [] else EscapeByte(bs[0]) + EscapeBytes(bs[1..])
  }

  /** Reference reading of the sanitiser, one validator step at a time: a
      well-formed character is kept, each byte of an invalid sequence is
      escaped, and a sequence cut short by the end of the input ends the
      output. */
  function Sanitize(bs: seq<byte>): string
    decreases |bs|
  {
    if |bs| == 0 then []
    else match Scan(bs)
      case Char(n, c) => [c] + Sanitize(bs[n..])
      case Invalid(k) => EscapeBytes(bs[..k]) + Sanitize(bs[k..])
      case Truncated => []
  }

  /** Valid input is decoded, nothing more. */
  lemma {:induction false} SanitizeValid(bs: seq<byte>)
    requires FromUtf8(bs).Ok?
    ensures Sanitize(bs) == FromUtf8(bs).value
    decreases |bs|
  {
    if |bs| > 0 {
      FromUtf8Step(bs);
      SanitizeValid(bs[Scan(bs).len..]);
    }
  }

  /** Where `from_utf8` fails, the sanitised output is the decoded valid
      prefix followed by the sanitised remainder. */
  lemma SanitizeAtError(bs: seq<byte>)
    requires FromUtf8(bs).Err?
    ensures var v := FromUtf8(bs).error.validUpTo;
      FromUtf8(bs[..v]).Ok? && Sanitize(bs) == DecodeValid(bs[..v]) + Sanitize(bs[v..])
  {
    var v := FromUtf8(bs).error.validUpTo;
    ErrorPrefixValid(bs);
    var s := DecodeValid(bs[..v]);
    FromUtf8IsEncoding(bs[..v]);
    Split(bs, v);
    SanitizeAfterValid(s, bs[v..]);
  }

  /** A well-formed first character is copied, then the rest is sanitised. */
  lemma SanitizeChar(bs: seq<byte>)
    requires |bs| > 0 && Scan(bs).Char?
    ensures Sanitize(bs) == [Scan(bs).c] + Sanitize(bs[Scan(bs).len..])
  {
  }

  /** One turn of the `remove_invalid` loop on input `from_utf8` rejects:
      the valid prefix is decoded, then an input that ends inside a sequence
      yields nothing more, and otherwise the `error_len` offending bytes are
      escaped and the rest is sanitised in turn. */
  lemma SanitizeErrorStep(bs: seq<byte>)
    requires FromUtf8(bs).Err?
    ensures var e := FromUtf8(bs).error;
      && FromUtf8(bs[..e.validUpTo]).Ok?
      && (e.errorLen.None? ==> Sanitize(bs) == DecodeValid(bs[..e.validUpTo]))
      && (e.errorLen.Some? ==>
            Sanitize(bs) == DecodeValid(bs[..e.validUpTo])
                            + EscapeBytes(bs[e.validUpTo..e.validUpTo + e.errorLen.value])
                            + Sanitize(bs[e.validUpTo + e.errorLen.value..]))
  {
    var e := FromUtf8(bs).error;
    match e.errorLen
    case Some(k) => SanitizeAtInvalid(bs, e.validUpTo, k);
    case None => SanitizeAtTruncated(bs, e.validUpTo);
  }

  lemma SanitizeAtInvalid(bs: seq<byte>, v: nat, k: nat)
    requires FromUtf8(bs) == Err(Utf8Error(v, Some(k)))
    ensures v + k <= |bs| && FromUtf8(bs[..v]).Ok?
    ensures Sanitize(bs) == DecodeValid(bs[..v]) + EscapeBytes(bs[v..v + k]) + Sanitize(bs[v + k..])
  {
    SanitizeAtError(bs);
    var rest := bs[v..];
    var d, x, y := DecodeValid(bs[..v]), EscapeBytes(bs[v..v + k]), Sanitize(bs[v + k..]);
    assert Sanitize(rest) == x + y by {
      ErrorPosition(bs);
      SanitizeInvalid(rest, k);
      Reslice(bs, v, k);
    }
    Regroup(d, x, y);
  }

  lemma SanitizeAtTruncated(bs: seq<byte>, v: nat)
    requires FromUtf8(bs) == Err(Utf8Error(v, None))
    ensures FromUtf8(bs[..v]).Ok? && Sanitize(bs) == DecodeValid(bs[..v])
  {
    SanitizeAtError(bs);
    assert Sanitize(bs[v..]) == [] by {
      ErrorPosition(bs);
      SanitizeTruncated(bs[v..]);
    }
  }

  /** The bytes of an invalid sequence are escaped one by one. */
  lemma SanitizeInvalid(bs: seq<byte>, k: nat)
    requires |bs| > 0 && Scan(bs) == Invalid(k)
    ensures Sanitize(bs) == EscapeBytes(bs[..k]) + Sanitize(bs[k..])
  {
  }

  /** A sequence cut short by the end of the input ends the output. */
  lemma SanitizeTruncated(bs: seq<byte>)
    requires |bs| > 0 && Scan(bs).Truncated?
    ensures Sanitize(bs) == []
  {
  }

  /** `remove_invalid`, loop for loop: decode as far as `from_utf8` allows,
      copy that prefix, then either stop (the input ended inside a sequence)
      or escape the `error_len` offending bytes and continue after them. */
  method RemoveInvalid(input: seq<byte>) returns (buffer: string)
    ensures buffer == Sanitize(input)
  {
    var bytes := input;
    buffer := [];
    while true
      invariant buffer + Sanitize(bytes) == Sanitize(input)
      decreases |bytes|
    {
      var piece, rest, done := RemoveInvalidTurn(bytes);
      if done {
        buffer := buffer + piece;
        return;
      }
      BufferTakesPiece(buffer, piece, Sanitize(rest), Sanitize(bytes), Sanitize(input));
      buffer := buffer + piece;
      bytes := rest;
    }
  }

  /** Moving a turn's piece from the output still to come into the buffer
      keeps their concatenation. */
  lemma BufferTakesPiece(buffer: string, piece: string, later: string, now: string, all: string)
    requires buffer + now == all && piece + later == now
    ensures (buffer + piece) + later == all
  {
  }

  /** The body of the `remove_invalid` loop: what it appends to the buffer,
      whether it returns, and the bytes it leaves for the next turn, which
      are always fewer. */
  method RemoveInvalidTurn(bytes: seq<byte>) returns (piece: string, rest: seq<byte>, done: bool)
    ensures done ==> piece == Sanitize(bytes)
    ensures !done ==> |rest| < |bytes| && piece + Sanitize(rest) == Sanitize(bytes)
  {
    rest := [];
    var result := FromUtf8(bytes);
    if result.Ok? {
      SanitizeValid(bytes);
      return result.value, rest, true;
    }
    var v := result.error.validUpTo;
    match result.error.errorLen {
      case None =>
        SanitizeAtTruncated(bytes, v);
        piece := [];
        if v > 0 {
          piece := DecodeValid(bytes[..v]);
        }
        return piece, rest, true;
      case Some(errorLen) =>
        SanitizeAtInvalid(bytes, v, errorLen);
        var valid, invalid := bytes[..v], bytes[v..];
        Reslice(bytes, v, errorLen);
        piece := [];
        if |valid| > 0 {
          piece := DecodeValid(valid);
        }
        piece := piece + EscapeBytes(invalid[..errorLen]);
        rest := invalid[errorLen..];
        done := false;
    }
  }

  /** Every string survives the sanitiser when handed over as its UTF-8
      encoding. */
  lemma SanitizeEncode(s: string)
    ensures Sanitize(Encode(s)) == s
  {
    FromUtf8Encode(s);
    SanitizeValid(Encode(s));
  }

  /** A well-formed prefix passes through, whatever follows it. */
  lemma {:induction false} SanitizeAfterValid(s: string, rest: seq<byte>)
    ensures Sanitize(Encode(s) + rest) == s + Sanitize(rest)
  {
    if |s| > 0 {
      var head := EncodeChar(s[0]);
      var bs := Encode(s) + rest;
      Regroup(head, Encode(s[1..]), rest);
      ScanEncodeChar(s[0], Encode(s[1..]) + rest);
      SanitizeChar(bs);
      DropPrefix(head, Encode(s[1..]) + rest);
      SanitizeAfterValid(s[1..], rest);
      Regroup([s[0]], s[1..], Sanitize(rest));
      assert s == [s[0]] + s[1..];
    } else {
      assert Encode(s) + rest == rest;
    }
  }

  /** A character cut short by the end of the input disappears from the
      output, while the same lead byte followed by a byte that cannot
      continue it is escaped: `E2 82` at the end gives nothing, `E2 41`
      gives `\xE2A`. */
  lemma TruncatedTailDropped(s: string, tail: seq<byte>)
    requires |tail| > 0 && Scan(tail).Truncated?
    ensures Sanitize(Encode(s) + tail) == s
  {
    SanitizeAfterValid(s, tail);
  }

  lemma CutShortVersusInvalid()
    ensures Sanitize([0xE2, 0x82]) == ""
    ensures Sanitize([0xE2, 0x41]) == "\\xE2A"
  {
    assert Scan([0xE2, 0x82]).Truncated?;
    var bad: seq<byte> := [0xE2, 0x41];
    assert Scan(bad) == Invalid(1);
    assert EscapeBytes(bad[..1]) == "\\xE2" by {
      assert HexUpper(0xE2) == "E2";
    }
    assert bad[1..] == [0x41];
    assert Scan(bad[1..]) == Char(1, 'A');
    assert Sanitize(bad[1..]) == "A" by {
      assert bad[1..][1..] == [];
    }
  }

  /** The bytes of an invalid sequence are never ASCII, so each is written as
      exactly four characters, `\x` and two hexadecimal digits. */
  lemma InvalidBytesEscapeToFour(bs: seq<byte>)
    requires |bs| > 0 && Scan(bs).Invalid?
    ensures forall i :: 0 <= i < Scan(bs).errorLen ==> 0x80 <= bs[i] && |EscapeByte(bs[i])| == 4
  {
  }

  /* ---------------------------------------------------------------------- */
  /*  escape_control                                                        */
  /* ---------------------------------------------------------------------- */

  /** Control characters: U+0000 to U+001F and DEL. */
  predicate IsControl(c: char) {
    c < ' ' || c == '\U{7F}'
  }

  predicate NoControl(s: string) {
    forall i :: 0 <= i < |s| ==> !IsControl(s[i])
  }

  /** `AC_REPLACEMENTS`: the named escapes first, then every code below 32 as
      a backslash and its decimal value, in the order they are pushed. */
  function Replacements(): seq<(char, string)> {
    NamedEscapes() + NumberedEscapes()
  }

  function NamedEscapes(): seq<(char, string)> {
    [ ('\U{7}', "\\a"), ('\U{8}', "\\b"), ('\U{C}', "\\f"), ('\n', "\\n"),
      ('\r', "\\r"), ('\t', "\\t"), ('\U{B}', "\\v"), ('\U{7F}', "\\127") ]
  }

  function NumberedEscapes(): seq<(char, string)> {
    seq(32, i requires 0 <= i < 32 => (i as char, "\\" + Decimal(i)))
  }

  /** The replacement of the first pattern equal to `c`; for two equal
      patterns the earlier one wins. */
  function Lookup(table: seq<(char, string)>, c: char): Option<string> {
    if |table| == 0 then None
    else if table[0].0 == c then Some(table[0].1)
    else Lookup(table[1..], c)
  }

  /** What the Aho-Corasick replacement does to one character: every pattern
      is one ASCII character, so matches never overlap. */
  function EscapeChar(c: char): string {
    match Lookup(Replacements(), c)
    case Some(r) => r
    case None => [c]
  }

  /** The replacement table, in closed form: the seven named escapes, `\127`
      for DEL, a decimal escape for every other control character, and every
      other character unchanged. */
  lemma EscapeCharTable(c: char)
    ensures c == '\U{7}' ==> EscapeChar(c) == "\\a"
    ensures c == '\U{8}' ==> EscapeChar(c) == "\\b"
    ensures c == '\t' ==> EscapeChar(c) == "\\t"
    ensures c == '\n' ==> EscapeChar(c) == "\\n"
    ensures c == '\U{B}' ==> EscapeChar(c) == "\\v"
    ensures c == '\U{C}' ==> EscapeChar(c) == "\\f"
    ensures c == '\r' ==> EscapeChar(c) == "\\r"
    ensures c == '\U{7F}' ==> EscapeChar(c) == "\\127"
    ensures (c < '\U{7}' || ('\U{E}' <= c < ' ')) ==> EscapeChar(c) == "\\" + Decimal(c as int)
    ensures !IsControl(c) ==> EscapeChar(c) == [c]
  {
    LookupAppend(NamedEscapes(), NumberedEscapes(), c);
    LookupNamed(c);
    if c < ' ' {
      LookupNumbered(c);
    } else if c != '\U{7F}' {
      LookupNumberedMiss(c);
    }
  }

  lemma LookupAppend(a: seq<(char, string)>, b: seq<(char, string)>, c: char)
    ensures Lookup(a + b, c) == if Lookup(a, c).Some? then Lookup(a, c) else Lookup(b, c)
  {
    if |a| > 0 {
      assert (a + b)[1..] == a[1..] + b;
      LookupAppend(a[1..], b, c);
    } else {
      assert a + b == b;
    }
  }

  /** One entry of a lookup. */
  lemma LookupAt(t: seq<(char, string)>, j: nat, c: char)
    requires j < |t|
    ensures Lookup(t[j..], c) == if t[j].0 == c then Some(t[j].1) else Lookup(t[j + 1..], c)
  {
    assert t[j..][1..] == t[j + 1..];
  }

  lemma LookupNamed(c: char)
    ensures Lookup(NamedEscapes(), c) ==
      if c == '\U{7}' then Some("\\a")
      else if c == '\U{8}' then Some("\\b")
      else if c == '\U{C}' then Some("\\f")
      else if c == '\n' then Some("\\n")
      else if c == '\r' then Some("\\r")
      else if c == '\t' then Some("\\t")
      else if c == '\U{B}' then Some("\\v")
      else if c == '\U{7F}' then Some("\\127")
      else None
  {
    var t := NamedEscapes();
    assert t[0..] == t;
    LookupAt(t, 0, c);
    LookupAt(t, 1, c);
    LookupAt(t, 2, c);
    LookupAt(t, 3, c);
    LookupAt(t, 4, c);
    LookupAt(t, 5, c);
    LookupAt(t, 6, c);
    LookupAt(t, 7, c);
    assert t[8..] == [];
  }

  /** Entry `i` of the numbered part is the first whose pattern is `i`. */
  lemma LookupNumbered(c: char)
    requires c < ' '
    ensures Lookup(NumberedEscapes(), c) == Some("\\" + Decimal(c as int))
  {
    var t := NumberedEscapes();
    assert t[0..] == t;
    LookupFrom(t, 0, c as int);
  }

  lemma LookupFrom(t: seq<(char, string)>, j: nat, i: nat)
    requires t == NumberedEscapes()
    requires j <= i < 32
    ensures Lookup(t[j..], i as char) == Some("\\" + Decimal(i))
    decreases i - j
  {
    if j < i {
      assert t[j..][1..] == t[j + 1..];
      LookupFrom(t, j + 1, i);
    }
  }

  lemma LookupNumberedMiss(c: char)
    requires ' ' <= c
    ensures Lookup(NumberedEscapes(), c).None?
  {
    var t := NumberedEscapes();
    assert t[0..] == t;
    LookupMissFrom(t, 0, c);
  }

  lemma LookupMissFrom(t: seq<(char, string)>, j: nat, c: char)
    requires t == NumberedEscapes()
    requires ' ' <= c && j <= 32
    ensures Lookup(t[j..], c).None?
    decreases 32 - j
  {
    if j < 32 {
      assert t[j..][1..] == t[j + 1..];
      LookupMissFrom(t, j + 1, c);
    }
  }

  /** No replacement contains a control character. */
  lemma EscapeCharNoControl(c: char)
    ensures NoControl(EscapeChar(c))
  {
    EscapeCharTable(c);
  }

  /** `ESCAPER.replace_all(s, &AC_REPLACEMENTS.1)`. */
  function ReplaceControl(s: string): (r: string)
    ensures NoControl(r)
  {
    if |s| == 0 then []
    else
      EscapeCharNoControl(s[0]);
      EscapeChar(s[0]) + ReplaceControl(s[1..])
  }

  /** A string with no control character passes the replacement unchanged. */
  lemma {:induction false} ReplaceControlIdentity(s: string)
    requires NoControl(s)
    ensures ReplaceControl(s) == s
  {
    if |s| > 0 {
      EscapeCharTable(s[0]);
      ReplaceControlIdentity(s[1..]);
      assert s == [s[0]] + s[1..];
    }
  }

  /** A backslash, a backslash and `x` start at index `i` of `s`. */
  predicate EscapedXAt(s: string, i: int) {
    0 <= i && i + 3 <= |s| && s[i] == '\\' && s[i + 1] == '\\' && s[i + 2] == 'x'
  }

  /** `.replace("\\\\x", "\\x")`: one left-to-right pass that turns every
      non-overlapping backslash-backslash-`x` into backslash-`x`. */
  function CollapseEscapedX(s: string): string {
    if |s| == 0 then []
    else if EscapedXAt(s, 0) then "\\x" + CollapseEscapedX(s[3..])
    else [s[0]] + CollapseEscapedX(s[1..])
  }

  /** The collapse only drops characters, so it brings no control character
      in. */
  lemma {:induction false} CollapseNoControl(s: string)
    requires NoControl(s)
    ensures NoControl(CollapseEscapedX(s))
  {
    if |s| > 0 {
      if EscapedXAt(s, 0) {
        CollapseNoControl(s[3..]);
      } else {
        CollapseNoControl(s[1..]);
      }
    }
  }

  /** The opposite replacement: every non-overlapping backslash-`x` doubled to
      backslash-backslash-`x`. */
  function DoubleEscapedX(s: string): string {
    if |s| == 0 then []
    else if |s| >= 2 && s[0] == '\\' && s[1] == 'x' then "\\\\x" + DoubleEscapedX(s[2..])
    else [s[0]] + DoubleEscapedX(s[1..])
  }

  /** Doubling keeps the first character, and puts an `x` second only by
      copying an `x` that did not follow a backslash. */
  lemma DoubledStart(s: string)
    requires |s| > 0
    ensures DoubleEscapedX(s)[0] == s[0]
    ensures |DoubleEscapedX(s)| >= 2 && DoubleEscapedX(s)[1] == 'x' ==> |s| >= 2 && s[1] == 'x' && s[0] != '\\'
  {
    if |s| >= 2 && s[0] == '\\' && s[1] == 'x' {
    } else if |s| >= 2 {
      DoubledStart(s[1..]);
    }
  }

  /** The collapse undoes the doubling, so the collapse loses nothing that
      the doubling put in. */
  lemma {:induction false} CollapseDoubled(s: string)
    ensures CollapseEscapedX(DoubleEscapedX(s)) == s
  {
    if |s| >= 2 && s[0] == '\\' && s[1] == 'x' {
      CollapseDoubledEscape(s);
      CollapseDoubled(s[2..]);
      Split(s, 2);
      assert s[..2] == "\\x";
    } else if |s| > 0 {
      CollapseDoubledOther(s);
      CollapseDoubled(s[1..]);
      Split(s, 1);
      assert s[..1] == [s[0]];
    }
  }

  lemma CollapseDoubledEscape(s: string)
    requires |s| >= 2 && s[0] == '\\' && s[1] == 'x'
    ensures CollapseEscapedX(DoubleEscapedX(s)) == "\\x" + CollapseEscapedX(DoubleEscapedX(s[2..]))
  {
    DropPrefix("\\\\x", DoubleEscapedX(s[2..]));
    assert EscapedXAt(DoubleEscapedX(s), 0);
  }

  lemma CollapseDoubledOther(s: string)
    requires |s| > 0 && !(|s| >= 2 && s[0] == '\\' && s[1] == 'x')
    ensures CollapseEscapedX(DoubleEscapedX(s)) == [s[0]] + CollapseEscapedX(DoubleEscapedX(s[1..]))
  {
    NotEscapedXAfterDoubling(s);
    DropPrefix([s[0]], DoubleEscapedX(s[1..]));
  }

  /** A doubled string that does not open with backslash-`x` does not open
      with backslash-backslash-`x` either. */
  lemma NotEscapedXAfterDoubling(s: string)
    requires |s| > 0 && !(|s| >= 2 && s[0] == '\\' && s[1] == 'x')
    ensures !EscapedXAt(DoubleEscapedX(s), 0)
  {
    var d := DoubleEscapedX(s);
    var rest := DoubleEscapedX(s[1..]);
    assert d == [s[0]] + rest;
    if EscapedXAt(d, 0) {
      assert |s| >= 2;
      DoubledStart(s[1..]);
      assert false;
    }
  }

  /** Text with no backslash-backslash-`x` is left alone by the collapse. */
  lemma {:induction false} CollapseIdentity(s: string)
    requires forall i :: 0 <= i < |s| ==> !EscapedXAt(s, i)
    ensures CollapseEscapedX(s) == s
  {
    if |s| > 0 {
      forall i | 0 <= i < |s| - 1
        ensures !EscapedXAt(s[1..], i)
      {
        assert EscapedXAt(s[1..], i) ==> EscapedXAt(s, i + 1);
      }
      CollapseIdentity(s[1..]);
      assert s == [s[0]] + s[1..];
    }
  }

  /** `escape_control`: no control character survives. */
  function EscapeControl(s: string): (r: string)
    ensures NoControl(r)
  {
    CollapseNoControl(ReplaceControl(s));
    CollapseEscapedX(ReplaceControl(s))
  }

  /** Printable text without a backslash-backslash-`x` is displayed as is. */
  lemma EscapeControlIdentity(s: string)
    requires NoControl(s)
    requires forall i :: 0 <= i < |s| ==> !EscapedXAt(s, i)
    ensures EscapeControl(s) == s
  {
    ReplaceControlIdentity(s);
    CollapseIdentity(s);
  }

  /** `cleanup_string`: the bytes of a Lua string, made valid and printable. */
  method CleanupString(bytes: seq<byte>) returns (r: string)
    ensures r == EscapeControl(Sanitize(bytes))
    ensures NoControl(r)
  {
    var valid := RemoveInvalid(bytes);
    r := EscapeControl(valid);
  }
}
