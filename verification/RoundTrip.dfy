/** Printing CID rules and path rules, and parsing the lines back. */
module RoundTrip {
  import opened Options
  import opened GoStrings
  import opened BlockedPaths
  import opened Entries
  import opened Multiformats
  import opened Rules

  datatype Hint = Hint(key: string, value: string)

  function HintWord(h: Hint): string {
    h.key + "=" + h.value
  }

  function HintWords(hints: seq<Hint>): seq<string> {
    seq(|hints|, i requires 0 <= i < |hints| => HintWord(hints[i]))
  }

  /** The hints a reader expects: the header's, overwritten by the list in turn. */
  function Overwrite(base: Hints, hints: seq<Hint>): Hints {
    if hints == [] then base
    else Overwrite(base, hints[..|hints| - 1])[hints[|hints| - 1].key := hints[|hints| - 1].value]
  }

  /** A key without `=`, and no white space in either part. */
  predicate GoodHint(h: Hint) {
    '=' !in h.key && IsWord(HintWord(h))
  }

  /**
    A CID or IPNS rule to print: the mark of an exception if any, the protocol, the CID's text or the
    name, whether a slash and subpath follow, whether these are a prefix, and the hints.
   */
  datatype Printable = Printable(mark: string, protocol: string, key: string, slash: bool, subpath: string, star: bool, hints: seq<Hint>) {
    predicate Good() {
      && mark in {"", "-", "+", "!"}
      && protocol in {"/ipfs/", "/ipld/", "/ipns/"}
      && IsWord(key) && '/' !in key
      && IsBytes(subpath) && (!slash ==> subpath == "" && !star)
      && forall i | 0 <= i < |hints| :: GoodHint(hints[i])
    }

    function PathText(): string
      requires Good()
    {
      PercentEscape(subpath) + if star then "*" else ""
    }

    function Rest(): string
      requires Good()
    {
      if slash then "/" + PathText() else ""
    }

    function RuleText(): string
      requires Good()
    {
      protocol + (key + Rest())
    }

    /** The line without its end. */
    function Text(): string
      requires Good()
    {
      LineText(mark, RuleText(), hints)
    }

    /** What the parser makes of the subpath. */
    function Path(): BlockedPath {
      BlockedPath(TrimSlashes(if star then TrimSuffix(subpath, "/") else subpath), star)
    }
  }

  /** The words of a line: the rule with its mark, and the hints. */
  function LineText(mark: string, rule: string, hints: seq<Hint>): string {
    Join([mark + rule] + HintWords(hints), " ")
  }

  // ---- words ----

  lemma WordConcat(a: string, b: string)
    requires IsWord(a) && IsWord(b) && (b[0] as int) < 128
    ensures IsWord(a + b)
  {
    forall i | 0 <= i < |a + b| ensures SpaceWidth((a + b)[i..]) == 0 {
      if i < |a| {
        assert (a + b)[i..] == a[i..] + b;
        NoSpaceAcross(a[i..], b);
      } else {
        assert (a + b)[i..] == b[i - |a|..];
      }
    }
  }

  lemma NoSpaceAcross(a: string, b: string)
    requires a != "" && SpaceWidth(a) == 0 && b != "" && (b[0] as int) < 128
    ensures SpaceWidth(a + b) == 0
  {
  }

  lemma VisibleConcat(a: string, b: string)
    requires forall i | 0 <= i < |a| :: Visible(a[i])
    requires IsWord(b)
    requires (b[0] as int) < 128
    ensures IsWord(a + b)
  {
    if a == "" {
      assert a + b == b;
    } else {
      VisibleIsWord(a);
      WordConcat(a, b);
    }
  }

  lemma PathTextIsWord(p: Printable)
    requires p.Good()
    ensures IsWord("/" + p.PathText())
  {
    var e := PercentEscape(p.subpath);
    EscapedIsVisible(p.subpath);
    if p.star {
      VisibleConcat("/" + e, "*");
      assert "/" + p.PathText() == "/" + e + "*";
    } else {
      assert p.PathText() == e;
      VisibleIsWord("/" + e);
    }
  }

  lemma KeyAndRestIsWord(p: Printable)
    requires p.Good()
    ensures IsWord(p.key + p.Rest())
  {
    if p.slash {
      PathTextIsWord(p);
      WordConcat(p.key, "/" + p.PathText());
    } else {
      assert p.key + "" == p.key;
    }
  }

  lemma RuleIsWord(p: Printable)
    requires p.Good()
    ensures RuleWord(p.RuleText())
  {
    KeyAndRestIsWord(p);
    HeadConcat(p.protocol, p.key + p.Rest());
  }

  /** Before a word, visible ASCII text ends no white space. */
  lemma HeadConcat(a: string, b: string)
    requires a != "" && (forall i | 0 <= i < |a| :: Visible(a[i])) && IsWord(b)
    ensures IsWord(a + b)
  {
    forall i | 0 <= i < |a + b| ensures SpaceWidth((a + b)[i..]) == 0 {
      if i < |a| {
        assert (a + b)[i..][0] == a[i];
      } else {
        assert (a + b)[i..] == b[i - |a|..];
      }
    }
  }

  // ---- hints ----

  lemma {:induction false} HintsReadBack(base: Hints, hints: seq<Hint>)
    requires forall i | 0 <= i < |hints| :: GoodHint(hints[i])
    ensures MergeHints(base, HintWords(hints)) == Overwrite(base, hints)
  {
    if hints == [] {
    } else {
      var front, last := hints[..|hints| - 1], hints[|hints| - 1];
      HintsReadBack(base, front);
      var words := HintWords(hints);
      assert words[..|words| - 1] == HintWords(front);
      CutAt(last.key, '=', last.value);
      assert HintWord(last) == last.key + ['='] + last.value;
    }
  }

  // ---- lines ----

  /** A rule that is a word and does not look like a mark or a comment. */
  predicate RuleWord(rule: string) {
    IsWord(rule) && rule[0] !in {'-', '+', '!', '#'}
  }

  lemma MarkedWord(mark: string, rule: string)
    requires mark in {"", "-", "+", "!"} && RuleWord(rule)
    ensures IsWord(mark + rule) && (mark + rule)[0] != '#'
    ensures StripAllow(mark + rule) == (mark != "", rule)
  {
    if mark == "" {
      assert mark + rule == rule;
    } else {
      HeadConcat(mark, rule);
      assert (mark + rule)[1..] == rule;
    }
  }

  lemma FieldsOfWords(word: string, hints: seq<Hint>)
    requires IsWord(word) && forall i | 0 <= i < |hints| :: GoodHint(hints[i])
    ensures var text := Join([word] + HintWords(hints), " ");
            TrimSuffix(text + "\n", "\n") == text && Fields(text) == [word] + HintWords(hints)
  {
    assert forall i | 0 <= i < |hints| :: IsWord(HintWord(hints[i]));
    FieldsOfJoin([word] + HintWords(hints));
    LastByte(Join([word] + HintWords(hints), " ") + "\n", '\n');
  }

  lemma FirstOfJoin(first: string, rest: seq<string>)
    requires first != ""
    ensures Join([first] + rest, " ") != "" && Join([first] + rest, " ")[0] == first[0]
  {
    assert ([first] + rest)[1..] == rest;
  }

  /** Parsing a text by its words. */
  lemma WordsParse(x: Codecs, base: Hints, text: string, word: string, words: seq<string>, number: nat)
    requires !IsComment(text) && Fields(text) == [word] + words
    ensures var (allow, rule) := StripAllow(word);
            ParseText(x, base, text, number)
            == ParseRule(x, Entry(number, allow, MergeHints(base, words), text, "", EMPTY_PATH), rule)
  {
    assert ([word] + words)[1..] == words;
  }

  /** A printed line is parsed by its rule, with the flag of its mark and the hints. */
  lemma LineParses(x: Codecs, base: Hints, mark: string, rule: string, hints: seq<Hint>, number: nat)
    requires mark in {"", "-", "+", "!"} && RuleWord(rule)
    requires forall i | 0 <= i < |hints| :: GoodHint(hints[i])
    ensures var text := LineText(mark, rule, hints);
            ParseLine(x, base, text + "\n", number)
            == ParseRule(x, Entry(number, mark != "", Overwrite(base, hints), text, "", EMPTY_PATH), rule)
  {
    var words := HintWords(hints);
    MarkedWord(mark, rule);
    FieldsOfWords(mark + rule, hints);
    HintsReadBack(base, hints);
    FirstOfJoin(mark + rule, words);
    WordsParse(x, base, LineText(mark, rule, hints), mark + rule, words, number);
  }

  // ---- CID and IPNS rules ----

  lemma KeyAndSubpath(p: Printable)
    requires p.Good()
    ensures p.RuleText()[6..] == p.key + p.Rest()
    ensures Cut(p.key + p.Rest(), '/').0 == p.key && Cut(p.key + p.Rest(), '/').1 == p.PathText()
  {
    if p.slash {
      assert p.key + p.Rest() == p.key + ['/'] + p.PathText();
      CutAt(p.key, '/', p.PathText());
    } else {
      assert p.key + p.Rest() == p.key && p.PathText() == "";
    }
  }

  lemma PathReadBack(p: Printable)
    requires p.Good()
    ensures NewBlockedPath(p.PathText()) == Some(p.Path())
  {
    if p.star {
      PrefixPathRoundTrip(p.subpath);
    } else {
      assert p.PathText() == PercentEscape(p.subpath);
      ExactPathRoundTrip(p.subpath);
    }
  }

  lemma ProtocolOfRule(p: Printable)
    requires p.Good()
    ensures p.protocol <= p.RuleText() && !("//" <= p.RuleText())
    ensures p.RuleText()[3] == p.protocol[3]
  {
    assert p.RuleText()[1] == p.protocol[1] == 'i';
  }

  lemma RoutedToCid(x: Codecs, e: Entry, p: Printable, c: Cid)
    requires p.Good() && p.protocol != "/ipns/" && x.decodeCid(p.key) == Some(c) && !x.IsSafe(c)
    ensures ParseRule(x, e, p.RuleText())
         == Accepted(Rule(e.(mh := c.hash, path := p.Path()), OnCid(x.toB58(c.hash))))
  {
    ProtocolOfRule(p);
    KeyAndSubpath(p);
    PathReadBack(p);
    assert (p.key + p.Rest())[0] == p.key[0] && p.key[0] in p.key;
    assert TrimPrefix(TrimPrefix(p.RuleText(), "/ipfs/"), "/ipld/") == p.key + p.Rest();
    assert CidOutcome(x, e, p.RuleText())
        == Accepted(Rule(e.(mh := c.hash, path := p.Path()), OnCid(x.toB58(c.hash))));
  }

  /** A printed CID rule parses to one entry with that multihash, flag, hints and path. */
  lemma RuleRoundTrip(x: Codecs, base: Hints, p: Printable, c: Cid, number: nat)
    requires p.Good() && p.protocol != "/ipns/" && x.decodeCid(p.key) == Some(c) && !x.IsSafe(c)
    ensures ParseLine(x, base, p.Text() + "\n", number)
         == Accepted(Rule(Entry(number, p.mark != "", Overwrite(base, p.hints), p.Text(), c.hash, p.Path()),
                          OnCid(x.toB58(c.hash))))
  {
    RuleIsWord(p);
    LineParses(x, base, p.mark, p.RuleText(), p.hints, number);
    RoutedToCid(x, Entry(number, p.mark != "", Overwrite(base, p.hints), p.Text(), "", EMPTY_PATH), p, c);
  }

  lemma RoutedByName(x: Codecs, e: Entry, rule: string)
    requires "/ipns/" <= rule
    ensures ParseRule(x, e, rule) == NameOutcome(x, e, rule[6..])
  {
    assert rule[1] == 'i' && rule[3] == 'n';
  }

  lemma RoutedToName(x: Codecs, e: Entry, p: Printable)
    requires p.Good() && p.protocol == "/ipns/"
    ensures ParseRule(x, e, p.RuleText())
         == Accepted(Rule(e.(path := p.Path()),
                          OnName(match x.decodeCid(p.key) case Some(c) => x.toB58(c.hash) case None => p.key)))
  {
    ProtocolOfRule(p);
    KeyAndSubpath(p);
    PathReadBack(p);
    RoutedByName(x, e, p.RuleText());
  }

  /** A printed IPNS rule parses to one entry with these parts, under the hash of its CID, or the name as it stands. */
  lemma NameRuleRoundTrip(x: Codecs, base: Hints, p: Printable, number: nat)
    requires p.Good() && p.protocol == "/ipns/"
    ensures ParseLine(x, base, p.Text() + "\n", number)
         == Accepted(Rule(Entry(number, p.mark != "", Overwrite(base, p.hints), p.Text(), "", p.Path()),
                          OnName(match x.decodeCid(p.key) case Some(c) => x.toB58(c.hash) case None => p.key)))
  {
    RuleIsWord(p);
    LineParses(x, base, p.mark, p.RuleText(), p.hints, number);
    RoutedToName(x, Entry(number, p.mark != "", Overwrite(base, p.hints), p.Text(), "", EMPTY_PATH), p);
  }

  // ---- double-hash rules ----

  /** What a double-hash text can be read as: a base58 multihash of a known function other than identity. */
  ghost predicate ReadsAsMultihash(x: Codecs, text: string, key: HashKey) {
    && x.fromB58(text) == Some(key.mh) && key.code != 0
    && exists length :: x.decodeMultihash(key.mh) == Some((key.code, length)) && x.hasHasher(key.code, length)
  }

  /** Or the hexadecimal digits of a SHA2-256 digest, of which the multihash is made with code and length. */
  ghost predicate ReadsAsDigest(text: string, key: HashKey) {
    key.code == 0x12 && exists digest :: |digest| == 32 && InHex(text, digest) && key.mh == [0x12 as char, 32 as char] + digest
  }

  lemma MultihashReading(x: Codecs, text: string, key: HashKey)
    ensures AsMultihash(x, text) == Some(key) <==> ReadsAsMultihash(x, text, key)
  {
  }

  lemma DigestReading(text: string, key: HashKey)
    ensures AsHexDigest(text) == Some(key) <==> ReadsAsDigest(text, key)
  {
    if AsHexDigest(text) == Some(key) {
      HexDecodeExactly(text, HexDecode(text).value);
    }
    forall digest | |digest| == 32 && InHex(text, digest) && key.mh == [0x12 as char, 32 as char] + digest && key.code == 0x12
      ensures AsHexDigest(text) == Some(key)
    {
      HexDecodeExactly(text, digest);
    }
  }

  /** The readings of a text are the keys that its rule is stored under. */
  lemma Readings(x: Codecs, text: string, key: HashKey)
    ensures key in Keys(AsMultihash(x, text)) + Keys(AsHexDigest(text)) <==>
            ReadsAsMultihash(x, text, key) || ReadsAsDigest(text, key)
  {
    MultihashReading(x, text, key);
    DigestReading(text, key);
  }

  /**
    A printed double-hash rule is accepted exactly if its text has a reading, with one entry with flag and
    hints, and it is stored under exactly its readings. Digits may be of either case.
   */
  lemma HashRuleRoundTrip(x: Codecs, base: Hints, mark: string, text: string, hints: seq<Hint>, number: nat)
    requires mark in {"", "-", "+", "!"} && IsWord(text) && forall i | 0 <= i < |hints| :: GoodHint(hints[i])
    ensures var line := LineText(mark, "//" + text, hints);
            match ParseLine(x, base, line + "\n", number)
            case Accepted(r) =>
              && r.entry == Entry(number, mark != "", Overwrite(base, hints), line, "", EMPTY_PATH)
              && r.target.OnDoubleHash? && r.target.keys != []
              && forall key :: key in r.target.keys <==> ReadsAsMultihash(x, text, key) || ReadsAsDigest(text, key)
            case other => other.Rejected? && forall key :: !ReadsAsMultihash(x, text, key) && !ReadsAsDigest(text, key)
  {
    var rule := "//" + text;
    HeadConcat("//", text);
    LineParses(x, base, mark, rule, hints, number);
    assert rule[2..] == text;
    forall key ensures key in Keys(AsMultihash(x, text)) + Keys(AsHexDigest(text)) <==>
                       ReadsAsMultihash(x, text, key) || ReadsAsDigest(text, key)
    {
      Readings(x, text, key);
    }
  }

  // ---- path rules ----

  /** A rule's text that no other kind of rule claims. */
  predicate PathRuleText(rule: string) {
    RuleWord(rule) && !("//" <= rule) && !("/ipfs/" <= rule) && !("/ipld/" <= rule) && !("/ipns/" <= rule)
  }

  /** A line with such a text is a path rule. */
  lemma PathLineParses(x: Codecs, base: Hints, mark: string, rule: string, hints: seq<Hint>, number: nat)
    requires mark in {"", "-", "+", "!"} && PathRuleText(rule)
    requires forall i | 0 <= i < |hints| :: GoodHint(hints[i])
    ensures var text := LineText(mark, rule, hints);
            ParseLine(x, base, text + "\n", number)
            == PathOutcome(Entry(number, mark != "", Overwrite(base, hints), text, "", EMPTY_PATH), rule)
  {
    LineParses(x, base, mark, rule, hints, number);
  }

  lemma BareLine(mark: string, rule: string)
    ensures LineText(mark, rule, []) == mark + rule
  {
    assert [mark + rule] + HintWords([]) == [mark + rule];
  }

  /** The same without hints: the line is just the rule's text. */
  lemma BareLineParses(x: Codecs, base: Hints, mark: string, rule: string, number: nat)
    requires mark in {"", "-", "+", "!"} && PathRuleText(rule)
    ensures ParseLine(x, base, mark + rule + "\n", number)
         == PathOutcome(Entry(number, mark != "", base, mark + rule, "", EMPTY_PATH), rule)
  {
    PathLineParses(x, base, mark, rule, [], number);
    BareLine(mark, rule);
  }

  /** What a path rule on a line of its own becomes, once its path is known. */
  lemma BareLineAccepted(x: Codecs, base: Hints, mark: string, rule: string, path: BlockedPath, number: nat)
    requires mark in {"", "-", "+", "!"} && PathRuleText(rule) && NewBlockedPath(rule) == Some(path)
    ensures ParseLine(x, base, mark + rule + "\n", number)
         == Accepted(Rule(Entry(number, mark != "", base, mark + rule, "", path),
                          if path.prefix then OnPathPrefix else OnPath(rule)))
  {
    BareLineParses(x, base, mark, rule, number);
  }

  lemma UnmarkedLineAccepted(x: Codecs, base: Hints, rule: string, path: BlockedPath, number: nat)
    requires PathRuleText(rule) && NewBlockedPath(rule) == Some(path)
    ensures ParseLine(x, base, rule + "\n", number)
         == Accepted(Rule(Entry(number, false, base, rule, "", path), if path.prefix then OnPathPrefix else OnPath(rule)))
  {
    BareLineAccepted(x, base, "", rule, path, number);
    assert "" + rule == rule;
  }

  lemma EscapedHead(s: string)
    requires IsBytes(s) && s != "" && s[0] !in {'-', '/'}
    ensures PercentEscape(s) != "" && PercentEscape(s)[0] !in {'-', '+', '!', '#', '/'}
  {
    assert PercentEscape(s)[0] == EscapeByte(s[0])[0];
  }

  lemma EscapedPathText(s: string, star: bool)
    requires IsBytes(s) && s != "" && s[0] !in {'-', '/'}
    ensures PathRuleText(PercentEscape(s) + if star then "*" else "")
  {
    var e := PercentEscape(s);
    EscapedHead(s);
    EscapedIsVisible(s);
    if star {
      VisibleConcat(e, "*");
    } else {
      VisibleIsWord(e);
      assert e + "" == e;
    }
  }

  /**
    A printed path rule, for a subpath that begins with neither a dash nor a slash, parses to one
    entry with these parts: under its text when it is exact, in the prefix list when it is not.
   */
  lemma PathRuleRoundTrip(x: Codecs, base: Hints, mark: string, s: string, star: bool, hints: seq<Hint>, number: nat)
    requires mark in {"", "-", "+", "!"} && forall i | 0 <= i < |hints| :: GoodHint(hints[i])
    requires IsBytes(s) && s != "" && s[0] !in {'-', '/'}
    ensures var rule := PercentEscape(s) + if star then "*" else "";
            var path := BlockedPath(TrimSlashes(if star then TrimSuffix(s, "/") else s), star);
            ParseLine(x, base, LineText(mark, rule, hints) + "\n", number)
            == Accepted(Rule(Entry(number, mark != "", Overwrite(base, hints), LineText(mark, rule, hints), "", path),
                             if star then OnPathPrefix else OnPath(PercentEscape(s))))
  {
    var rule := PercentEscape(s) + if star then "*" else "";
    EscapedPathText(s, star);
    PathLineParses(x, base, mark, rule, hints, number);
    if star {
      PrefixPathRoundTrip(s);
    } else {
      ExactPathRoundTrip(s);
      assert rule == PercentEscape(s);
    }
  }

  /** The parsed path is the printed subpath itself exactly when no slash stands at its ends. */
  lemma PathKept(p: Printable)
    requires !p.star
    ensures p.Path() == BlockedPath(p.subpath, false) <==> Clean(p.subpath)
  {
    TrimSlashesIsIdentity(p.subpath);
  }

  /** An escaped star never makes a prefix rule: a printed rule is a prefix rule only if the star was asked for. */
  lemma EscapedStarIsNoPrefix(p: Printable)
    requires p.Good()
    ensures NewBlockedPath(p.PathText()).Some? && NewBlockedPath(p.PathText()).value.prefix == p.star
  {
    PathReadBack(p);
  }

  /** Read back, an exact rule matches exactly its own subpath, unless that subpath is the lone star that matches all. */
  lemma ExactRuleMeaning(p: Printable, subpath: string)
    requires !p.star && Clean(p.subpath) && Clean(subpath)
    ensures p.Path().Matches(subpath) <==> p.subpath == subpath || p.subpath == "*"
  {
    TrimSlashesIsIdentity(p.subpath);
    MatchesClean(p.Path(), subpath);
  }
}
