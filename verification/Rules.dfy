/** What one line of a denylist file means: the outcome of parsing it, and the rule it adds. */
module Rules {
  import opened Options
  import opened GoStrings
  import opened BlockedPaths
  import opened Entries
  import opened Multiformats

  /** Where a rule applies. The double-hash form carries one key a way of reading it. */
  datatype Target =
    | OnCid(key: string)
    | OnName(key: string)
    | OnPath(key: string)
    | OnPathPrefix
    | OnDoubleHash(keys: seq<HashKey>)

  datatype HashKey = HashKey(code: nat, mh: Multihash)

  /** An accepted rule: the entry recorded for the line, and where it applies. */
  datatype Rule = Rule(entry: Entry, target: Target)

  /** Panicked stands for the index out of range that a line of white space causes. */
  datatype Outcome = Skipped | Rejected | Panicked | Accepted(rule: Rule)

  // ---- hints ----

  function AddHint(hints: Hints, word: string): Hints {
    var (key, value, found) := Cut(word, '=');
    if found then hints[key := value] else hints
  }

  function MergeHints(base: Hints, words: seq<string>): Hints {
    if words == [] then base
    else AddHint(MergeHints(base, words[..|words| - 1]), words[|words| - 1])
  }

  predicate IsHintFor(word: string, key: string) {
    Cut(word, '=').2 && Cut(word, '=').0 == key
  }

  /** A key maps to the last hint for it. */
  lemma {:induction false} LastHintWins(base: Hints, words: seq<string>, key: string, i: nat)
    requires i < |words| && IsHintFor(words[i], key)
    requires forall j | i < j < |words| :: !IsHintFor(words[j], key)
    ensures key in MergeHints(base, words) && MergeHints(base, words)[key] == Cut(words[i], '=').1
  {
    if i == |words| - 1 {
    } else {
      LastHintWins(base, words[..|words| - 1], key, i);
    }
  }

  /** A key no hint mentions keeps the header's value, or stays absent. */
  lemma {:induction false} HeaderHintsRemain(base: Hints, words: seq<string>, key: string)
    requires forall j | 0 <= j < |words| :: !IsHintFor(words[j], key)
    ensures key in MergeHints(base, words) <==> key in base
    ensures key in base ==> MergeHints(base, words)[key] == base[key]
  {
    if words == [] {
    } else {
      HeaderHintsRemain(base, words[..|words| - 1], key);
    }
  }

  // ---- parsing ----

  function StripAllow(field: string): (bool, string) {
    if "-" <= field || "+" <= field || "!" <= field then (true, field[1..]) else (false, field)
  }

  /** Reading a double-hash rule as a base58 multihash of a known, non-identity function. */
  function AsMultihash(x: Codecs, text: string): Option<HashKey> {
    match x.fromB58(text)
    case None => None
    case Some(mh) =>
      match x.decodeMultihash(mh)
      case None => None
      case Some((code, length)) =>
        if code == IDENTITY || !x.hasHasher(code, length) then None else Some(HashKey(code, mh))
  }

  /** Reading it as 64 hexadecimal digits of a SHA2-256 digest. */
  function AsHexDigest(text: string): Option<HashKey> {
    if |text| != 64 then None
    else
      match HexDecode(text)
      case None => None
      case Some(digest) => Some(HashKey(SHA2_256, Sha256Multihash(digest)))
  }

  function Keys(o: Option<HashKey>): seq<HashKey> {
    match o
    case None => []
    case Some(k) => [k]
  }

  function NameKey(x: Codecs, name: string): string {
    match x.decodeCid(name)
    case None => name
    case Some(c) => x.toB58(c.hash)
  }

  function HashOutcome(x: Codecs, e: Entry, text: string): Outcome {
    var keys := Keys(AsMultihash(x, text)) + Keys(AsHexDigest(text));
    if keys == [] then Rejected else Accepted(Rule(e, OnDoubleHash(keys)))
  }

  function CidOutcome(x: Codecs, e: Entry, rule: string): Outcome {
    var (cidText, subpath, _) := Cut(TrimPrefix(TrimPrefix(rule, "/ipfs/"), "/ipld/"), '/');
    match x.decodeCid(cidText)
    case None => Rejected
    case Some(c) =>
      if x.IsSafe(c) then Skipped
      else
        match NewBlockedPath(subpath)
        case None => Rejected
        case Some(bp) => Accepted(Rule(e.(mh := c.hash, path := bp), OnCid(x.toB58(c.hash))))
  }

  function NameOutcome(x: Codecs, e: Entry, text: string): Outcome {
    var (name, subpath, _) := Cut(text, '/');
    match NewBlockedPath(subpath)
    case None => Rejected
    case Some(bp) => Accepted(Rule(e.(path := bp), OnName(NameKey(x, name))))
  }

  function PathOutcome(e: Entry, rule: string): Outcome {
    match NewBlockedPath(rule)
    case None => Rejected
    case Some(bp) => Accepted(Rule(e.(path := bp), if bp.prefix then OnPathPrefix else OnPath(rule)))
  }

  function ParseRule(x: Codecs, e: Entry, rule: string): Outcome {
    if "//" <= rule then HashOutcome(x, e, rule[2..])
    else if "/ipfs/" <= rule || "/ipld/" <= rule then CidOutcome(x, e, rule)
    else if "/ipns/" <= rule then NameOutcome(x, e, rule[6..])
    else PathOutcome(e, rule)
  }

  predicate IsComment(text: string) {
    text == "" || text[0] == '#'
  }

  function ParseText(x: Codecs, base: Hints, text: string, number: nat): Outcome {
    if IsComment(text) then Skipped
    else
      var fields := Fields(text);
      if fields == [] then Panicked
      else
        var (allow, rule) := StripAllow(fields[0]);
        ParseRule(x, Entry(number, allow, MergeHints(base, fields[1..]), text, "", EMPTY_PATH), rule)
  }

  function ParseLine(x: Codecs, base: Hints, line: string, number: nat): Outcome {
    ParseText(x, base, TrimSuffix(line, "\n"), number)
  }

  /** Whether parsing the line fails outright, whatever the codecs, hints and number. */
  predicate Panics(line: string) {
    var text := TrimSuffix(line, "\n");
    !IsComment(text) && Fields(text) == []
  }

  /** Exactly the non-empty lines of white space alone panic. */
  lemma PanicsOnBlankLines(line: string)
    ensures Panics(line) <==> TrimSuffix(line, "\n") != "" && OnlySpace(TrimSuffix(line, "\n"))
  {
    NoFieldsIffOnlySpace(TrimSuffix(line, "\n"));
  }

  lemma PanicIsPanics(x: Codecs, base: Hints, line: string, number: nat)
    ensures ParseLine(x, base, line, number).Panicked? <==> Panics(line)
  {
  }

  /** What every accepted rule satisfies. */
  ghost predicate WellFormed(x: Codecs, r: Rule) {
    match r.target
    case OnCid(key) => key == x.toB58(r.entry.mh) && exists s :: x.decodeCid(s).Some? && x.decodeCid(s).value.hash == r.entry.mh
    case OnName(key) => r.entry.mh == ""
    case OnPath(key) => !r.entry.path.prefix && NewBlockedPath(key) == Some(r.entry.path)
    case OnPathPrefix => r.entry.path.prefix
    case OnDoubleHash(keys) => 1 <= |keys| <= 2 && r.entry.path == EMPTY_PATH
  }

  lemma ParseRuleResult(x: Codecs, e: Entry, rule: string)
    requires e.mh == "" && e.path == EMPTY_PATH
    requires ParseRule(x, e, rule).Accepted?
    ensures WellFormed(x, ParseRule(x, e, rule).rule)
    ensures var got := ParseRule(x, e, rule).rule.entry;
            got.(mh := e.mh, path := e.path) == e
  {
    if "//" <= rule {
    } else if "/ipfs/" <= rule || "/ipld/" <= rule {
      var (cidText, subpath, _) := Cut(TrimPrefix(TrimPrefix(rule, "/ipfs/"), "/ipld/"), '/');
      assert x.decodeCid(cidText).Some?;
    } else if "/ipns/" <= rule {
    } else {
      assert rule == "" ==> NewBlockedPath(rule) == Some(EMPTY_PATH);
    }
  }

  /** Every accepted rule has the shape of its target and the number of its line. */
  lemma AcceptedIsWellFormed(x: Codecs, base: Hints, line: string, number: nat)
    requires ParseLine(x, base, line, number).Accepted?
    ensures WellFormed(x, ParseLine(x, base, line, number).rule)
    ensures ParseLine(x, base, line, number).rule.entry.line == number
    ensures ParseLine(x, base, line, number).rule.entry.raw == TrimSuffix(line, "\n")
    ensures ParseLine(x, base, line, number).rule.entry.hints
         == MergeHints(base, Fields(TrimSuffix(line, "\n"))[1..])
  {
    var text := TrimSuffix(line, "\n");
    var fields := Fields(text);
    var (allow, rule) := StripAllow(fields[0]);
    ParseRuleResult(x, Entry(number, allow, MergeHints(base, fields[1..]), text, "", EMPTY_PATH), rule);
  }

  /** A key maps to the last of the words' hints for it, else to the base value, else to nothing. */
  ghost predicate HintsFollow(base: Hints, words: seq<string>, key: string, hints: Hints) {
    && (forall i | 0 <= i < |words| && IsHintFor(words[i], key)
                   && (forall j | i < j < |words| :: !IsHintFor(words[j], key)) ::
          key in hints && hints[key] == Cut(words[i], '=').1)
    && ((forall i | 0 <= i < |words| :: !IsHintFor(words[i], key)) ==>
          if key in base then key in hints && hints[key] == base[key] else key !in hints)
  }

  lemma MergeFollows(base: Hints, words: seq<string>, key: string)
    ensures HintsFollow(base, words, key, MergeHints(base, words))
  {
    forall i | 0 <= i < |words| && IsHintFor(words[i], key) && forall j | i < j < |words| :: !IsHintFor(words[j], key)
      ensures key in MergeHints(base, words) && MergeHints(base, words)[key] == Cut(words[i], '=').1
    {
      LastHintWins(base, words, key, i);
    }
    if forall i | 0 <= i < |words| :: !IsHintFor(words[i], key) {
      HeaderHintsRemain(base, words, key);
    }
  }

  /** The hints of an accepted rule: the header's, overridden by the rule's own, the last one for a key. */
  lemma AcceptedHints(x: Codecs, base: Hints, line: string, number: nat, key: string)
    requires ParseLine(x, base, line, number).Accepted?
    ensures HintsFollow(base, Fields(TrimSuffix(line, "\n"))[1..], key,
                        ParseLine(x, base, line, number).rule.entry.hints)
  {
    AcceptedIsWellFormed(x, base, line, number);
    MergeFollows(base, Fields(TrimSuffix(line, "\n"))[1..], key);
  }
}
