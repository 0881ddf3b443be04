/**
  The operations of Go's `strings`, `encoding/hex` and `net/url` packages that the
  denylist code calls. A Go string is a sequence of bytes: here one `char` stands for
  one byte, and `IsBytes` says so where it matters.
 */
module GoStrings {
  import opened Options

  predicate IsBytes(s: string) {
    forall i | 0 <= i < |s| :: s[i] as int < 256
  }

  predicate IsAscii(s: string) {
    forall i | 0 <= i < |s| :: s[i] as int < 128
  }

  predicate HasSuffix(s: string, suffix: string) {
    |suffix| <= |s| && s[|s| - |suffix|..] == suffix
  }

  function TrimPrefix(s: string, prefix: string): string {
    if prefix <= s then s[|prefix|..] else s
  }

  function TrimSuffix(s: string, suffix: string): string {
    if HasSuffix(s, suffix) then s[..|s| - |suffix|] else s
  }

  /** strings.Cut with a one-byte separator: the text before it, the text after it, and whether it occurs. */
  function Cut(s: string, sep: char): (r: (string, string, bool))
    ensures r.2 <==> sep in s
    ensures r.2 ==> s == r.0 + [sep] + r.1
    ensures !r.2 ==> r.0 == s && r.1 == ""
    ensures sep !in r.0
  {
    if s == "" then (s, "", false)
    else if s[0] == sep then ("", s[1..], true)
    else
      var rest := Cut(s[1..], sep);
      ([s[0]] + rest.0, rest.1, rest.2)
  }

  /** The cut is the only one: whatever stands before a first separator is what Cut returns. */
  lemma {:induction false} CutAt(before: string, sep: char, after: string)
    requires sep !in before
    ensures Cut(before + [sep] + after, sep) == (before, after, true)
  {
    if before != "" {
      CutAt(before[1..], sep, after);
      HeadOfText(before, sep, after);
    } else {
      assert before + [sep] + after == [sep] + after;
      assert ([sep] + after)[1..] == after;
    }
  }

  lemma HeadOfText(before: string, sep: char, after: string)
    requires before != ""
    ensures (before + [sep] + after)[0] == before[0]
    ensures (before + [sep] + after)[1..] == before[1..] + [sep] + after
    ensures [before[0]] + before[1..] == before
  {
  }

  lemma Associate<T>(a: seq<T>, b: seq<T>, c: seq<T>)
    ensures a + b + c == a + (b + c)
  {
  }

  function Join(parts: seq<string>, sep: string): string {
    if |parts| == 0 then ""
    else if |parts| == 1 then parts[0]
    else parts[0] + sep + Join(parts[1..], sep)
  }

  /**
    The number of bytes of the white-space rune a string starts with, 0 if it starts with
    none. The multi-byte cases are the UTF-8 forms of U+0085, U+00A0, U+1680,
    U+2000-U+200A, U+2028, U+2029, U+202F, U+205F and U+3000. The first byte of such a form
    never occurs inside the form of another rune, so decoding rune by rune and looking
    at every byte find the same ones.
   */
  function SpaceWidth(s: string): (w: nat)
    ensures w <= |s|
  {
    if s == "" then 0
    else if s[0] in {' ', '\t', '\n', '\r', 11 as char, 12 as char} then 1
    else if |s| >= 2 && s[0] as int == 0xC2 && s[1] as int in {0x85, 0xA0} then 2
    else if |s| < 3 then 0
    else
      var (a, b, c) := (s[0] as int, s[1] as int, s[2] as int);
      if (a == 0xE1 && b == 0x9A && c == 0x80)
         || (a == 0xE2 && b == 0x80 && (0x80 <= c <= 0x8A || c in {0xA8, 0xA9, 0xAF}))
         || (a == 0xE2 && b == 0x81 && c == 0x9F)
         || (a == 0xE3 && b == 0x80 && c == 0x80)
      then 3
      else 0
  }

  /** The length of the longest prefix in which no white space starts. */
  function WordLength(s: string): (n: nat)
    ensures n <= |s|
    ensures s != "" && SpaceWidth(s) == 0 ==> n > 0
  {
    if s == "" || SpaceWidth(s) > 0 then 0 else 1 + WordLength(s[1..])
  }

  /** strings.Fields: the maximal runs of bytes between white space, in order. */
  function Fields(s: string): (r: seq<string>)
    ensures forall i | 0 <= i < |r| :: r[i] != ""
    decreases |s|
  {
    if s == "" then []
    else if SpaceWidth(s) > 0 then Fields(s[SpaceWidth(s)..])
    else [s[..WordLength(s)]] + Fields(s[WordLength(s)..])
  }

  /** A word: not empty, and no white space starts anywhere in it. */
  predicate IsWord(w: string) {
    w != "" && forall i | 0 <= i < |w| :: SpaceWidth(w[i..]) == 0
  }

  lemma WordBeforeSpace(w: string, rest: string)
    requires w != "" && SpaceWidth(w) == 0
    requires rest == "" || rest[0] == ' '
    ensures SpaceWidth(w + rest) == 0
  {
  }

  lemma {:induction false} WordLengthOfWord(w: string, rest: string)
    requires w == "" || IsWord(w)
    requires rest == "" || rest[0] == ' '
    ensures WordLength(w + rest) == |w|
  {
    if w == "" {
      assert w + rest == rest;
    } else {
      assert SpaceWidth(w[0..]) == 0 && w[0..] == w;
      WordBeforeSpace(w, rest);
      assert (w + rest)[1..] == w[1..] + rest;
      assert forall i | 0 <= i < |w| - 1 :: w[1..][i..] == w[i + 1..];
      WordLengthOfWord(w[1..], rest);
    }
  }

  /** Words joined by single spaces are exactly the fields of the joined text. */
  lemma {:induction false} FieldsOfJoin(words: seq<string>)
    requires forall i | 0 <= i < |words| :: IsWord(words[i])
    ensures Fields(Join(words, " ")) == words
  {
    var s := Join(words, " ");
    if |words| == 0 {
    } else {
      var rest := if |words| == 1 then "" else " " + Join(words[1..], " ");
      assert s == words[0] + rest;
      WordLengthOfWord(words[0], rest);
      assert words[0][0..] == words[0];
      WordBeforeSpace(words[0], rest);
      assert s[|words[0]|..] == rest && s[..|words[0]|] == words[0];
      if |words| > 1 {
        assert SpaceWidth(rest) == 1 && rest[1..] == Join(words[1..], " ");
        FieldsOfJoin(words[1..]);
      }
    }
  }

  /** Fields finds nothing exactly in a string made of white space only. */
  ghost predicate OnlySpace(s: string)
    decreases |s|
  {
    s == "" || (SpaceWidth(s) > 0 && OnlySpace(s[SpaceWidth(s)..]))
  }

  lemma {:induction false} NoFieldsIffOnlySpace(s: string)
    ensures Fields(s) == [] <==> OnlySpace(s)
    decreases |s|
  {
    if s == "" || SpaceWidth(s) == 0 {
    } else {
      NoFieldsIffOnlySpace(s[SpaceWidth(s)..]);
    }
  }

  // ---- words and white space of any kind ----

  /** The UTF-8 forms of the white-space runes. */
  predicate IsSpaceRune(s: string) {
    || (|s| == 1 && s[0] as int in {9, 10, 11, 12, 13, 32})
    || (|s| == 2 && s[0] as int == 0xC2 && s[1] as int in {0x85, 0xA0})
    || (|s| == 3 && s[0] as int == 0xE1 && s[1] as int == 0x9A && s[2] as int == 0x80)
    || (|s| == 3 && s[0] as int == 0xE2 && s[1] as int == 0x80
        && s[2] as int in {0x80, 0x81, 0x82, 0x83, 0x84, 0x85, 0x86, 0x87, 0x88, 0x89, 0x8A, 0xA8, 0xA9, 0xAF})
    || (|s| == 3 && s[0] as int == 0xE2 && s[1] as int == 0x81 && s[2] as int == 0x9F)
    || (|s| == 3 && s[0] as int == 0xE3 && s[1] as int == 0x80 && s[2] as int == 0x80)
  }

  lemma SpaceRuneHasWidth(rune: string, rest: string)
    requires IsSpaceRune(rune)
    ensures SpaceWidth(rune + rest) == |rune|
  {
    var s := rune + rest;
    assert s[0] == rune[0] && (|rune| > 1 ==> s[1] == rune[1]) && (|rune| > 2 ==> s[2] == rune[2]);
  }

  predicate IsInk(w: string) {
    w != "" && forall i | 0 <= i < |w| :: 33 <= w[i] as int < 127
  }

  /** Pieces of a line: printable ASCII words, and white-space runes. */
  datatype Piece = Ink(word: string) | Space(rune: string) {
    predicate Good() {
      match this
      case Ink(w) => IsInk(w)
      case Space(s) => IsSpaceRune(s)
    }

    function Text(): string {
      match this
      case Ink(w) => w
      case Space(s) => s
    }
  }

  /** Any pieces, but no two words in a row. */
  predicate GoodLine(pieces: seq<Piece>) {
    && (forall i | 0 <= i < |pieces| :: pieces[i].Good())
    && (forall i | 0 <= i < |pieces| - 1 :: pieces[i].Ink? ==> pieces[i + 1].Space?)
  }

  function LineOf(pieces: seq<Piece>): string {
    if pieces == [] then "" else pieces[0].Text() + LineOf(pieces[1..])
  }

  function WordsOf(pieces: seq<Piece>): seq<string> {
    if pieces == [] then []
    else (if pieces[0].Ink? then [pieces[0].word] else []) + WordsOf(pieces[1..])
  }

  lemma {:induction false} InkLength(w: string, rest: string)
    requires w == "" || IsInk(w)
    requires rest == "" || SpaceWidth(rest) > 0
    ensures WordLength(w + rest) == |w|
  {
    if w == "" {
      assert w + rest == rest;
    } else {
      assert (w + rest)[1..] == w[1..] + rest;
      InkLength(w[1..], rest);
      assert (w + rest)[0] == w[0];
    }
  }

  lemma SpaceBegins(pieces: seq<Piece>)
    requires GoodLine(pieces) && (pieces == [] || pieces[0].Space?)
    ensures LineOf(pieces) == "" || SpaceWidth(LineOf(pieces)) > 0
  {
    if pieces != [] {
      SpaceRuneHasWidth(pieces[0].rune, LineOf(pieces[1..]));
    }
  }

  lemma FieldsOfInk(w: string, rest: string)
    requires IsInk(w) && (rest == "" || SpaceWidth(rest) > 0)
    ensures Fields(w + rest) == [w] + Fields(rest)
  {
    InkLength(w, rest);
    assert (w + rest)[0] == w[0];
    assert (w + rest)[..|w|] == w && (w + rest)[|w|..] == rest;
  }

  lemma FieldsOfSpace(rune: string, rest: string)
    requires IsSpaceRune(rune)
    ensures Fields(rune + rest) == Fields(rest)
  {
    SpaceRuneHasWidth(rune, rest);
    assert (rune + rest)[|rune|..] == rest;
  }

  /** Whatever white space stands around and between them, the fields of a line are its words. */
  lemma {:induction false} FieldsAreWords(pieces: seq<Piece>)
    requires GoodLine(pieces)
    ensures Fields(LineOf(pieces)) == WordsOf(pieces)
  {
    if pieces == [] {
    } else {
      FieldsAreWords(pieces[1..]);
      match pieces[0] {
        case Ink(w) =>
          SpaceBegins(pieces[1..]);
          FieldsOfInk(w, LineOf(pieces[1..]));
        case Space(rune) => FieldsOfSpace(rune, LineOf(pieces[1..]));
      }
    }
  }

  // ---- hexadecimal digits ----

  predicate IsHex(c: char) {
    '0' <= c <= '9' || 'a' <= c <= 'f' || 'A' <= c <= 'F'
  }

  function HexValue(c: char): (v: nat)
    requires IsHex(c)
    ensures v < 16
  {
    if '0' <= c <= '9' then c as int - '0' as int
    else if 'a' <= c <= 'f' then c as int - 'a' as int + 10
    else c as int - 'A' as int + 10
  }

  function HexDigit(v: nat): (c: char)
    requires v < 16
    ensures IsHex(c) && HexValue(c) == v
  {
    if v < 10 then (v + '0' as int) as char else (v - 10 + 'A' as int) as char
  }

  /** hex.DecodeString: two digits of either case a byte, nothing on odd length or another byte. */
  function HexDecode(s: string): (r: Option<string>)
    ensures r.Some? ==> |s| == 2 * |r.value| && IsBytes(r.value)
  {
    if s == "" then Some("")
    else if |s| < 2 || !IsHex(s[0]) || !IsHex(s[1]) then None
    else
      match HexDecode(s[2..])
      case None => None
      case Some(rest) => Some([(16 * HexValue(s[0]) + HexValue(s[1])) as char] + rest)
  }

  const LOWER_DIGITS := "0123456789abcdef"
  const UPPER_DIGITS := "0123456789ABCDEF"

  /** The character is the digit of this value, in lower or in upper case. */
  predicate IsDigitOf(c: char, v: int) {
    0 <= v < 16 && (c == LOWER_DIGITS[v] || c == UPPER_DIGITS[v])
  }

  lemma DigitHasValue(c: char, v: int)
    ensures IsDigitOf(c, v) <==> IsHex(c) && HexValue(c) == v
  {
  }

  /** The text is the bytes in hexadecimal, two digits a byte, in either case. */
  predicate InHex(text: string, bytes: string) {
    && |text| == 2 * |bytes| && IsBytes(bytes)
    && forall i | 0 <= i < |bytes| ::
         IsDigitOf(text[2 * i], bytes[i] as int / 16) && IsDigitOf(text[2 * i + 1], bytes[i] as int % 16)
  }

  lemma InHexBehind(text: string, bytes: string)
    requires |text| >= 2 && bytes != "" && |text| == 2 * |bytes| && (bytes[0] as int) < 256
    ensures InHex(text, bytes) <==>
            IsDigitOf(text[0], bytes[0] as int / 16) && IsDigitOf(text[1], bytes[0] as int % 16) && InHex(text[2..], bytes[1..])
  {
    var text', bytes' := text[2..], bytes[1..];
    assert forall i | 0 <= i < |bytes'| :: text'[2 * i] == text[2 * (i + 1)] && text'[2 * i + 1] == text[2 * (i + 1) + 1];
    if IsDigitOf(text[0], bytes[0] as int / 16) && IsDigitOf(text[1], bytes[0] as int % 16) && InHex(text', bytes') {
      forall i | 0 <= i < |bytes|
        ensures IsDigitOf(text[2 * i], bytes[i] as int / 16) && IsDigitOf(text[2 * i + 1], bytes[i] as int % 16)
      {
        if i > 0 {
          assert bytes[i] == bytes'[i - 1];
        }
      }
      assert forall i | 0 <= i < |bytes| :: i == 0 || bytes[i] == bytes'[i - 1];
    }
    if InHex(text, bytes) {
      forall i | 0 <= i < |bytes'|
        ensures IsDigitOf(text'[2 * i], bytes'[i] as int / 16) && IsDigitOf(text'[2 * i + 1], bytes'[i] as int % 16)
      {
        assert bytes'[i] == bytes[i + 1];
      }
    }
  }

  lemma PairIsByte(hi: char, lo: char, b: char)
    requires (b as int) < 256
    ensures IsDigitOf(hi, b as int / 16) && IsDigitOf(lo, b as int % 16) <==>
            IsHex(hi) && IsHex(lo) && 16 * HexValue(hi) + HexValue(lo) == b as int
  {
    DigitHasValue(hi, b as int / 16);
    DigitHasValue(lo, b as int % 16);
  }

  /** Decoding succeeds exactly on the hexadecimal texts, in either case, and gives the bytes that they stand for. */
  lemma {:induction false} HexDecodeExactly(text: string, bytes: string)
    ensures HexDecode(text) == Some(bytes) <==> InHex(text, bytes)
  {
    if |text| < 2 {
    } else if bytes == "" {
    } else if |text| != 2 * |bytes| {
    } else if bytes[0] as int >= 256 {
    } else {
      HexDecodeExactly(text[2..], bytes[1..]);
      InHexBehind(text, bytes);
      PairIsByte(text[0], text[1], bytes[0]);
      assert bytes == [bytes[0]] + bytes[1..];
    }
  }

  // ---- url.QueryUnescape ----

  /** `%XX` is a byte, `+` is a space, every other byte stands for itself; a `%` without two digits is an error. */
  function QueryUnescape(s: string): Option<string> {
    if s == "" then Some("")
    else if s[0] == '%' then
      if |s| < 3 || !IsHex(s[1]) || !IsHex(s[2]) then None
      else
        match QueryUnescape(s[3..])
        case None => None
        case Some(rest) => Some([(16 * HexValue(s[1]) + HexValue(s[2])) as char] + rest)
    else
      match QueryUnescape(s[1..])
      case None => None
      case Some(rest) => Some([if s[0] == '+' then ' ' else s[0]] + rest)
  }

  /** What can be written in an escaped text: an escaped byte, a plus for a space, or any other byte for itself. */
  datatype Token = Escaped(hi: char, lo: char, byte: char) | Plus | Plain(c: char) {
    predicate Good() {
      match this
      case Escaped(hi, lo, b) => (b as int) < 256 && IsDigitOf(hi, b as int / 16) && IsDigitOf(lo, b as int % 16)
      case Plus => true
      case Plain(c) => c != '%' && c != '+'
    }

    function Text(): string {
      match this
      case Escaped(hi, lo, _) => ['%', hi, lo]
      case Plus => "+"
      case Plain(c) => [c]
    }

    function Meaning(): char {
      match this
      case Escaped(_, _, b) => b
      case Plus => ' '
      case Plain(c) => c
    }
  }

  predicate AllGood(tokens: seq<Token>) {
    forall i | 0 <= i < |tokens| :: tokens[i].Good()
  }

  function Written(tokens: seq<Token>): string {
    if tokens == [] then "" else tokens[0].Text() + Written(tokens[1..])
  }

  function Meant(tokens: seq<Token>): string {
    seq(|tokens|, i requires 0 <= i < |tokens| => tokens[i].Meaning())
  }

  lemma UnescapeToken(t: Token, rest: string)
    requires t.Good()
    ensures QueryUnescape(t.Text() + rest)
         == match QueryUnescape(rest) case None => None case Some(s) => Some([t.Meaning()] + s)
  {
    var text := t.Text() + rest;
    match t {
      case Escaped(hi, lo, b) =>
        PairIsByte(hi, lo, b);
        assert text[3..] == rest;
      case _ => assert text[1..] == rest;
    }
  }

  lemma {:induction false} UnescapeWritten(tokens: seq<Token>)
    requires AllGood(tokens)
    ensures QueryUnescape(Written(tokens)) == Some(Meant(tokens))
  {
    if tokens == [] {
      assert Meant(tokens) == "";
    } else {
      UnescapeWritten(tokens[1..]);
      UnescapeToken(tokens[0], Written(tokens[1..]));
      assert Meant(tokens) == [tokens[0].Meaning()] + Meant(tokens[1..]);
    }
  }

  lemma {:induction false} TokensOf(s: string) returns (tokens: seq<Token>)
    requires QueryUnescape(s).Some?
    ensures AllGood(tokens) && Written(tokens) == s
    decreases |s|
  {
    if s == "" {
      tokens := [];
    } else {
      var first, width := if s[0] == '+' then Plus else Plain(s[0]), 1;
      if s[0] == '%' {
        var b := (16 * HexValue(s[1]) + HexValue(s[2])) as char;
        PairIsByte(s[1], s[2], b);
        first, width := Escaped(s[1], s[2], b), 3;
      }
      var rest := TokensOf(s[width..]);
      tokens := [first] + rest;
      assert tokens[1..] == rest;
      assert first.Text() == s[..width] && s == s[..width] + s[width..];
    }
  }

  /**
    A text is unescaped exactly if it is written in tokens, and then it is what these mean: bytes
    escaped in either case, spaces for plus signs, any other byte for itself. A percent sign without
    two hexadecimal digits is no token.
   */
  lemma UnescapeExactly(s: string, out: string)
    ensures QueryUnescape(s) == Some(out) <==> exists tokens :: AllGood(tokens) && Written(tokens) == s && Meant(tokens) == out
  {
    if QueryUnescape(s) == Some(out) {
      var tokens := TokensOf(s);
      UnescapeWritten(tokens);
    }
    forall tokens | AllGood(tokens) && Written(tokens) == s && Meant(tokens) == out ensures QueryUnescape(s) == Some(out) {
      UnescapeWritten(tokens);
    }
  }

  /** The bytes a percent-escaper leaves alone. `*` and `+` are not among them. */
  predicate Unreserved(c: char) {
    '0' <= c <= '9' || 'a' <= c <= 'z' || 'A' <= c <= 'Z' || c in {'-', '_', '.', '~', '/'}
  }

  function EscapeByte(c: char): string
    requires c as int < 256
  {
    if Unreserved(c) then [c] else ['%', HexDigit(c as int / 16), HexDigit(c as int % 16)]
  }

  /** A percent-escaper, the printing counterpart of QueryUnescape. */
  function PercentEscape(s: string): string
    requires IsBytes(s)
  {
    if s == "" then ""
    else EscapeByte(s[0]) + PercentEscape(s[1..])
  }

  lemma {:induction false} UnescapeOfEscape(s: string)
    requires IsBytes(s)
    ensures QueryUnescape(PercentEscape(s)) == Some(s)
  {
    if s == "" {
    } else {
      var c := s[0];
      var rest := PercentEscape(s[1..]);
      UnescapeOfEscape(s[1..]);
      if Unreserved(c) {
        assert PercentEscape(s)[1..] == rest;
      } else {
        assert PercentEscape(s)[3..] == rest;
      }
      assert [c] + s[1..] == s;
    }
  }

  predicate Visible(c: char) {
    33 <= c as int < 127 && c != '*'
  }

  /** Escaped text holds neither a star nor white space. */
  lemma {:induction false} EscapedIsVisible(s: string)
    requires IsBytes(s)
    ensures forall i | 0 <= i < |PercentEscape(s)| :: Visible(PercentEscape(s)[i])
    ensures s != "" <==> PercentEscape(s) != ""
  {
    if s == "" {
    } else {
      var c := s[0];
      EscapedIsVisible(s[1..]);
      if !Unreserved(c) {
        assert Visible(HexDigit(c as int / 16)) && Visible(HexDigit(c as int % 16));
      }
    }
  }

  lemma {:induction false} EscapeOfConcat(a: string, b: string)
    requires IsBytes(a) && IsBytes(b)
    ensures PercentEscape(a + b) == PercentEscape(a) + PercentEscape(b)
  {
    if a == "" {
      assert a + b == b;
    } else {
      EscapeOfConcat(a[1..], b);
      assert (a + b)[1..] == a[1..] + b;
      Associate(EscapeByte(a[0]), PercentEscape(a[1..]), PercentEscape(b));
    }
  }

  lemma LastByte(s: string, c: char)
    ensures HasSuffix(s, [c]) <==> |s| > 0 && s[|s| - 1] == c
  {
    if |s| > 0 {
      assert s[|s| - 1..] == [s[|s| - 1]];
    }
  }

  lemma EscapeOfByte(c: char)
    requires c as int < 256
    ensures var e := PercentEscape([c]);
            |e| > 0 && (e[|e| - 1] == '/' <==> c == '/') && (c == '/' ==> e == "/")
  {
    assert [c][1..] == "";
  }

  /** It ends with a slash exactly if the text did. */
  lemma EscapedEnd(s: string, c: char)
    requires IsBytes(s) && c as int < 256
    ensures HasSuffix(PercentEscape(s + [c]), "/") <==> c == '/'
    ensures c == '/' ==> PercentEscape(s + [c]) == PercentEscape(s) + "/"
  {
    EscapeOfConcat(s, [c]);
    EscapeOfByte(c);
    LastByte(PercentEscape(s + [c]), '/');
  }

  lemma VisibleIsWord(w: string)
    requires w != ""
    requires forall i | 0 <= i < |w| :: Visible(w[i])
    ensures IsWord(w)
  {
  }
}
