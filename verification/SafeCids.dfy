/** CID rules and the CIDs that are never to be blocked: those are told by CID, but rules are stored by multihash. */
module SafeCids {
  import opened Options
  import opened GoStrings
  import opened BlockedPaths
  import opened Entries
  import opened Multiformats
  import opened Rules
  import opened Index
  import opened Lookup
  import opened QueryLaws
  import opened RoundTrip

  /** The text of a CID with this multihash that is not one of the safe ones. */
  predicate NamesUnsafe(x: Codecs, text: string, h: Multihash) {
    '/' !in text && x.decodeCid(text).Some? && !x.IsSafe(x.decodeCid(text).value) && x.decodeCid(text).value.hash == h
  }

  /** A CID rule is accepted only for a CID that is not safe. */
  lemma CidRuleIsUnsafe(x: Codecs, e: Entry, rule: string) returns (text: string)
    requires ParseRule(x, e, rule).Accepted? && ParseRule(x, e, rule).rule.target.OnCid?
    ensures NamesUnsafe(x, text, ParseRule(x, e, rule).rule.entry.mh)
  {
    text := Cut(TrimPrefix(TrimPrefix(rule, "/ipfs/"), "/ipld/"), '/').0;
  }

  lemma BareCidRule(x: Codecs, e: Entry, text: string, h: Multihash)
    requires NamesUnsafe(x, text, h)
    ensures ParseRule(x, e, "/ipfs/" + text)
         == Accepted(Rule(e.(mh := h, path := EMPTY_PATH), OnCid(x.toB58(h))))
  {
    var rule := "/ipfs/" + text;
    assert rule[6..] == text && rule[1] == 'i';
    assert text != "" ==> text[0] in text;
    assert TrimPrefix(TrimPrefix(rule, "/ipfs/"), "/ipld/") == text;
    assert Cut(text, '/') == (text, "", false);
    assert ParseRule(x, e, rule) == CidOutcome(x, e, rule);
  }

  predicate RuleBlocks(x: Codecs, e: Entry, rule: string, h: Multihash) {
    ParseRule(x, e, rule).Accepted? && Hits(ParseRule(x, e, rule).rule, CidProbe(h, ""))
  }

  lemma BareCidRuleBlocks(x: Codecs, e: Entry, text: string, h: Multihash)
    requires NamesUnsafe(x, text, h)
    ensures RuleBlocks(x, e, "/ipfs/" + text, h)
  {
    BareCidRule(x, e, text, h);
  }

  /**
    Some CID rule blocks a CID, safe or not, exactly when some CID with the same multihash is not
    safe: the same block under another version or codec, for one.
   */
  lemma BlockableCids(x: Codecs, e: Entry, c: Cid)
    ensures (exists rule :: RuleBlocks(x, e, rule, c.hash)) <==> exists text :: NamesUnsafe(x, text, c.hash)
  {
    if rule :| RuleBlocks(x, e, rule, c.hash) {
      var text := CidRuleIsUnsafe(x, e, rule);
      assert NamesUnsafe(x, text, c.hash);
    }
    if text :| NamesUnsafe(x, text, c.hash) {
      BareCidRuleBlocks(x, e, text, c.hash);
    }
  }

  lemma LineIsUnsafe(x: Codecs, base: Hints, line: string, number: nat) returns (text: string)
    requires ParseLine(x, base, line, number).Accepted? && ParseLine(x, base, line, number).rule.target.OnCid?
    ensures NamesUnsafe(x, text, ParseLine(x, base, line, number).rule.entry.mh)
  {
    var raw := TrimSuffix(line, "\n");
    var fields := Fields(raw);
    var (allow, rule) := StripAllow(fields[0]);
    text := CidRuleIsUnsafe(x, Entry(number, allow, MergeHints(base, fields[1..]), raw, "", EMPTY_PATH), rule);
  }

  lemma LineMisses(x: Codecs, base: Hints, line: string, number: nat, h: Multihash, s: string)
    requires forall text :: !NamesUnsafe(x, text, h)
    ensures forall r | r in Accepts(Parser(x, base)(line, number)) :: !Hits(r, CidProbe(h, s))
  {
    ParserParses(x, base, line, number);
    var outcome := ParseLine(x, base, line, number);
    if outcome.Accepted? && outcome.rule.target.OnCid? {
      var text := LineIsUnsafe(x, base, line, number);
    }
  }

  /** What no line gives, no file gives. */
  lemma {:induction false} LinesMiss(parse: LineParser, lines: seq<string>, before: nat, probe: Probe)
    requires forall line: string, number: nat, r | r in Accepts(parse(line, number)) :: !Hits(r, probe)
    ensures forall r | r in RulesOf(parse, lines, before) :: !Hits(r, probe)
  {
    if lines == [] {
    } else {
      LinesMiss(parse, lines[..|lines| - 1], before, probe);
    }
  }

  /** A CID none of whose namesakes is unsafe is hit by no CID rule of any file. */
  lemma SafeCidsStay(x: Codecs, base: Hints, lines: seq<string>, before: nat, h: Multihash, s: string)
    requires forall text :: !NamesUnsafe(x, text, h)
    ensures Scan(RulesOf(Parser(x, base), lines, before), CidProbe(h, s)) == NotFound
  {
    var rules := RulesOf(Parser(x, base), lines, before);
    forall line: string, number: nat, r | r in Accepts(Parser(x, base)(line, number)) ensures !Hits(r, CidProbe(h, s)) {
      LineMisses(x, base, line, number, h, s);
    }
    LinesMiss(Parser(x, base), lines, before, CidProbe(h, s));
    OthersDoNotMatter([], rules, CidProbe(h, s));
    assert [] + rules == rules;
  }

  // ---- lines that are left out ----

  /** The safe CIDs are those of seven texts. */
  lemma SafeExactly(x: Codecs, c: Cid)
    ensures x.IsSafe(c) <==> exists text | text in SAFE_CIDS :: x.decodeCid(text) == Some(c)
  {
    forall i | 0 <= i < |SAFE_CIDS| ensures SAFE_CIDS[i] in SAFE_CIDS {
    }
  }

  /** A rule for one of them, however marked and with whatever subpath, is left out. */
  lemma SafeRuleSkipped(x: Codecs, base: Hints, p: Printable, number: nat)
    requires p.Good() && p.protocol != "/ipns/" && p.key in SAFE_CIDS && x.decodeCid(p.key).Some?
    ensures ParseLine(x, base, p.Text() + "\n", number) == Skipped
  {
    SafeExactly(x, x.decodeCid(p.key).value);
    RuleIsWord(p);
    LineParses(x, base, p.mark, p.RuleText(), p.hints, number);
    RoutedToSafe(x, Entry(number, p.mark != "", Overwrite(base, p.hints), p.Text(), "", EMPTY_PATH), p);
  }

  lemma RoutedToSafe(x: Codecs, e: Entry, p: Printable)
    requires p.Good() && p.protocol != "/ipns/" && x.decodeCid(p.key).Some? && x.IsSafe(x.decodeCid(p.key).value)
    ensures ParseRule(x, e, p.RuleText()) == Skipped
  {
    ProtocolOfRule(p);
    KeyAndSubpath(p);
    assert (p.key + p.Rest())[0] == p.key[0] && p.key[0] in p.key;
    assert TrimPrefix(TrimPrefix(p.RuleText(), "/ipfs/"), "/ipld/") == p.key + p.Rest();
    SkippedRule(x, e, p.RuleText());
  }

  /** The line's rule names a safe CID. */
  predicate NamesSafe(x: Codecs, line: string) {
    var fields := Fields(TrimSuffix(line, "\n"));
    fields != [] &&
    var rule := StripAllow(fields[0]).1;
    && ("/ipfs/" <= rule || "/ipld/" <= rule)
    && var c := x.decodeCid(Cut(TrimPrefix(TrimPrefix(rule, "/ipfs/"), "/ipld/"), '/').0);
       c.Some? && x.IsSafe(c.value)
  }

  lemma CommentLines(line: string)
    ensures IsComment(TrimSuffix(line, "\n")) <==> line == "" || line == "\n" || line[0] == '#'
  {
    LastByte(line, '\n');
  }

  lemma SkippedRule(x: Codecs, e: Entry, rule: string)
    ensures ParseRule(x, e, rule).Skipped? <==>
            ("/ipfs/" <= rule || "/ipld/" <= rule)
            && var c := x.decodeCid(Cut(TrimPrefix(TrimPrefix(rule, "/ipfs/"), "/ipld/"), '/').0); c.Some? && x.IsSafe(c.value)
  {
    if "/ipfs/" <= rule || "/ipld/" <= rule {
      assert rule[1] == 'i';
    }
  }

  /** Exactly the empty lines, those that begin with a hash sign, and rules for safe CIDs are left out without an error. */
  lemma SkippedExactly(x: Codecs, base: Hints, line: string, number: nat)
    ensures ParseLine(x, base, line, number).Skipped? <==>
            line == "" || line == "\n" || line[0] == '#' || NamesSafe(x, line)
  {
    var text := TrimSuffix(line, "\n");
    CommentLines(line);
    if IsComment(text) {
      assert ParseLine(x, base, line, number).Skipped?;
    } else if Fields(text) != [] {
      var (allow, rule) := StripAllow(Fields(text)[0]);
      SkippedRule(x, Entry(number, allow, MergeHints(base, Fields(text)[1..]), text, "", EMPTY_PATH), rule);
    }
  }
}
