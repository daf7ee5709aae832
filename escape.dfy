/** Escaping of raw byte patterns into the text form the RXP rule compiler
    reads: alphanumeric bytes pass through, every other byte becomes `\xHH`
    with two lower-case hexadecimal digits. */
module Escape {

  import opened Wrappers

  /** An unsigned 8-bit value, as the source's `uint8_t`. */
  newtype byte = x: int | 0 <= x < 256

  /** `isalnum` in the C locale: ASCII `[0-9A-Za-z]`. */
  predicate IsAlnum(b: byte) {
    (48 <= b <= 57) || (65 <= b <= 90) || (97 <= b <= 122)
  }

  /** The character printed for a byte that passes through unchanged. */
  predicate IsAlnumChar(c: char) {
    ('0' <= c <= '9') || ('A' <= c <= 'Z') || ('a' <= c <= 'z')
  }

  /** The characters `%x` produces: `[0-9a-f]`. */
  predicate IsLowerHex(c: char) {
    ('0' <= c <= '9') || ('a' <= c <= 'f')
  }

  function HexDigit(d: nat): (c: char)
    requires d < 16
    ensures IsLowerHex(c) && HexValue(c) == d
  {
    if d < 10 then ((48 + d) as char) else ((97 + d - 10) as char)
  }

  function HexValue(c: char): (d: nat)
    requires IsLowerHex(c)
    ensures d < 16
  {
    if c <= '9' then c as int - 48 else c as int - 97 + 10
  }

  /** What one byte turns into (the loop body of the escaper). */
  function EscapeByte(b: byte): (s: string)
    ensures IsAlnum(b) ==> |s| == 1 && s[0] as int == b as int && IsAlnumChar(s[0])
    ensures !IsAlnum(b) ==>
      |s| == 4 && s[0] == '\\' && s[1] == 'x' && IsLowerHex(s[2]) && IsLowerHex(s[3]) &&
      HexValue(s[2]) * 16 + HexValue(s[3]) == b as int
  {
    if IsAlnum(b) then [(b as int) as char]
    else ['\\', 'x', HexDigit(b as nat / 16), HexDigit(b as nat % 16)]
  }

  /** The escaped text of a whole pattern: the per-byte texts, in order. */
  function EscapedText(p: seq<byte>): string
  {
    if |p| == 0 then [] else EscapedText(p[..|p| - 1]) + EscapeByte(p[|p| - 1])
  }

  /** The escaper's result: nothing for an empty pattern, the text otherwise. */
  function Escaped(p: seq<byte>): Option<string>
  {
    if |p| == 0 then None else Some(EscapedText(p))
  }

  /** `rxp_escape_pattern`: a loop appending each byte's text. */
  method EscapePattern(pat: seq<byte>) returns (escpat: Option<string>)
    ensures escpat == Escaped(pat)
    ensures escpat.None? <==> |pat| == 0
  {
    if |pat| == 0 {
      return None;
    }
    var s: string := [];
    var i := 0;
    while i < |pat|
      invariant 0 <= i <= |pat|
      invariant s == EscapedText(pat[..i])
    {
      assert pat[..i + 1][..i] == pat[..i];
      s := s + EscapeByte(pat[i]);
      i := i + 1;
    }
    assert pat[..|pat|] == pat;
    escpat := Some(s);
  }

  /** Escaping distributes over concatenation: the output is the in-order
      concatenation of the per-byte texts. */
  lemma {:induction false} EscapedTextAppend(p: seq<byte>, q: seq<byte>)
    ensures EscapedText(p + q) == EscapedText(p) + EscapedText(q)
    decreases |q|
  {
    if |q| == 0 {
      assert p + q == p;
    } else {
      var q' := q[..|q| - 1];
      assert (p + q)[..|p + q| - 1] == p + q';
      assert (p + q)[|p + q| - 1] == q[|q| - 1];
      EscapedTextAppend(p, q');
    }
  }

  /** A single byte's text is the escaped text of the one-byte pattern. */
  lemma EscapedTextSingle(b: byte)
    ensures EscapedText([b]) == EscapeByte(b)
  {
    assert [b][..0] == [];
  }

  /** The escaped text of `[b] + rest` starts with the text of `b`. */
  lemma EscapedTextCons(b: byte, rest: seq<byte>)
    ensures EscapedText([b] + rest) == EscapeByte(b) + EscapedText(rest)
  {
    EscapedTextAppend([b], rest);
    EscapedTextSingle(b);
  }

  /** The number of bytes that are written as `\xHH`. */
  function NonAlnumCount(p: seq<byte>): (n: nat)
    ensures n <= |p|
  {
    if |p| == 0 then 0
    else NonAlnumCount(p[..|p| - 1]) + (if IsAlnum(p[|p| - 1]) then 0 else 1)
  }

  /** Each byte contributes exactly 1 or 4 characters. */
  lemma {:induction false} EscapedTextLength(p: seq<byte>)
    ensures |EscapedText(p)| == |p| + 3 * NonAlnumCount(p)
    ensures |p| <= |EscapedText(p)| <= 4 * |p|
  {
    if |p| != 0 {
      EscapedTextLength(p[..|p| - 1]);
    }
  }

  /** The escaped text only holds alphanumerics and backslashes (the `x` and
      the hex digits are alphanumerics), so it never contains the `,`, the
      space or the line break of the rule-file layout. */
  lemma {:induction false} EscapedTextAlphabet(p: seq<byte>)
    ensures forall k :: 0 <= k < |EscapedText(p)| ==>
      IsAlnumChar(EscapedText(p)[k]) || EscapedText(p)[k] == '\\'
  {
    if |p| != 0 {
      EscapedTextAlphabet(p[..|p| - 1]);
    }
  }

  /** Reads an escaped text back into bytes; only canonical text is accepted:
      an alphanumeric character, or `\x` with two lower-case hex digits that
      encode a byte which is not alphanumeric. */
  function Unescape(s: string): Option<seq<byte>>
    decreases |s|
  {
    if |s| == 0 then Some([])
    else if IsAlnumChar(s[0]) then
      match Unescape(s[1..])
      case None => None
      case Some(rest) => Some([(s[0] as int) as byte] + rest)
    else if |s| >= 4 && s[0] == '\\' && s[1] == 'x' && IsLowerHex(s[2]) && IsLowerHex(s[3]) &&
            !IsAlnum((HexValue(s[2]) * 16 + HexValue(s[3])) as byte) then
      match Unescape(s[4..])
      case None => None
      case Some(rest) => Some([(HexValue(s[2]) * 16 + HexValue(s[3])) as byte] + rest)
    else None
  }

  lemma IsAlnumCharByte(c: char)
    requires IsAlnumChar(c)
    ensures 0 <= c as int < 256 && IsAlnum((c as int) as byte)
  {
  }

  /** Unescaping undoes escaping. */
  lemma {:induction false} UnescapeEscaped(p: seq<byte>)
    ensures Unescape(EscapedText(p)) == Some(p)
    decreases |p|
  {
    if |p| != 0 {
      var b, rest := p[0], p[1..];
      assert p == [b] + rest;
      EscapedTextCons(b, rest);
      var s := EscapedText(p);
      var e := EscapeByte(b);
      assert s == e + EscapedText(rest);
      UnescapeEscaped(rest);
      if IsAlnum(b) {
        assert s[1..] == EscapedText(rest);
        assert !(s[0] == '\\');
      } else {
        assert s[4..] == EscapedText(rest);
        assert !IsAlnumChar(s[0]);
      }
    }
  }

  /** Escaping is canonical: a text that unescapes is the escaped form of what
      it unescapes to. */
  lemma {:induction false} EscapedUnescape(s: string, p: seq<byte>)
    requires Unescape(s) == Some(p)
    ensures EscapedText(p) == s
    decreases |s|
  {
    if |s| != 0 {
      if IsAlnumChar(s[0]) {
        var rest := Unescape(s[1..]).value;
        var b := (s[0] as int) as byte;
        IsAlnumCharByte(s[0]);
        assert p == [b] + rest;
        EscapedUnescape(s[1..], rest);
        EscapedTextCons(b, rest);
        assert s == [s[0]] + s[1..];
      } else {
        var rest := Unescape(s[4..]).value;
        var b := (HexValue(s[2]) * 16 + HexValue(s[3])) as byte;
        assert p == [b] + rest;
        EscapedUnescape(s[4..], rest);
        EscapedTextCons(b, rest);
        var e := EscapeByte(b);
        assert HexValue(e[2]) == HexValue(s[2]) && HexValue(e[3]) == HexValue(s[3]);
        HexValueInjective(e[2], s[2]);
        HexValueInjective(e[3], s[3]);
        assert s == s[..4] + s[4..];
        assert s[..4] == e;
      }
    }
  }

  lemma HexValueInjective(c: char, d: char)
    requires IsLowerHex(c) && IsLowerHex(d) && HexValue(c) == HexValue(d)
    ensures c == d
  {
  }

  /** Two raw patterns are merged exactly when they are equal: escaping loses
      nothing. */
  lemma EscapedTextInjective(p: seq<byte>, q: seq<byte>)
    ensures EscapedText(p) == EscapedText(q) <==> p == q
  {
    if EscapedText(p) == EscapedText(q) {
      UnescapeEscaped(p);
      UnescapeEscaped(q);
    }
  }
}
