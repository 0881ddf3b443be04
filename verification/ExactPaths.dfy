/** Exact path rules are stored under their text. When does that find what they mean? */
module ExactPaths {
  import opened Options
  import opened GoStrings
  import opened BlockedPaths
  import opened Entries
  import opened Multiformats
  import opened Rules
  import opened Lookup
  import opened RoundTrip
  import opened QueryLaws
  import opened LiveQueries

  predicate MeansPath(r: Rule, subpath: string) {
    r.target.OnPath? && r.entry.path.Matches(subpath)
  }

  /** The scan a reader of the rules expects: the last exact path rule that matches the subpath. */
  function ScanByMeaning(rules: seq<Rule>, subpath: string): Answer {
    if rules == [] then NotFound
    else if MeansPath(rules[|rules| - 1], subpath) then Verdict(rules[|rules| - 1].entry)
    else ScanByMeaning(rules[..|rules| - 1], subpath)
  }

  // ---- the subpaths of paths ----

  /** A segment of a path. */
  predicate IsSegment(s: string) {
    s != "" && '/' !in s
  }

  predicate AreSegments(segments: seq<string>) {
    forall i | 0 <= i < |segments| :: IsSegment(segments[i])
  }

  /** A subpath that a path can have: no slash at its ends, and no two in a row. */
  predicate RealSubpath(s: string) {
    && s != "" && s[0] != '/' && s[|s| - 1] != '/'
    && forall i | 0 <= i < |s| - 1 && s[i] == '/' :: s[i + 1] != '/'
  }

  lemma RealIsClean(s: string)
    requires RealSubpath(s)
    ensures Clean(s)
  {
    LastByte(s, '/');
  }

  lemma RealAfterSegment(a: string, b: string)
    requires IsSegment(a)
    ensures RealSubpath(a + "/" + b) <==> RealSubpath(b)
  {
    var s, n := a + "/" + b, |a| + 1;
    assert s[n..] == b && s[|a|] == '/';
    if RealSubpath(s) {
      assert forall i | 0 <= i < |b| :: b[i] == s[n + i];
    }
  }

  lemma SegmentIsReal(a: string)
    requires IsSegment(a)
    ensures RealSubpath(a)
  {
  }

  lemma {:induction false} JoinIsReal(segments: seq<string>)
    requires segments != [] && AreSegments(segments)
    ensures RealSubpath(Join(segments, "/"))
  {
    if |segments| == 1 {
      SegmentIsReal(segments[0]);
    } else {
      JoinIsReal(segments[1..]);
      RealAfterSegment(segments[0], Join(segments[1..], "/"));
    }
  }

  lemma {:induction false} SegmentsOf(s: string) returns (segments: seq<string>)
    requires RealSubpath(s)
    ensures segments != [] && AreSegments(segments) && Join(segments, "/") == s
    decreases |s|
  {
    var (a, b, found) := Cut(s, '/');
    if !found {
      segments := [s];
    } else {
      assert s == a + "/" + b && s[|a|] == '/';
      RealAfterSegment(a, b);
      var rest := SegmentsOf(b);
      segments := [a] + rest;
      assert segments[1..] == rest;
    }
  }

  /** The real subpaths are exactly the joined segments of some path. */
  lemma RealSubpathsAreJoins(s: string)
    ensures RealSubpath(s) <==> exists segments :: segments != [] && AreSegments(segments) && Join(segments, "/") == s
  {
    if RealSubpath(s) {
      var segments := SegmentsOf(s);
    }
    forall segments | segments != [] && AreSegments(segments) ensures RealSubpath(Join(segments, "/")) {
      JoinIsReal(segments);
    }
  }

  // ---- one subpath ----

  /** For this subpath the rule's text is as good as its meaning. */
  predicate FoundAsMeant(r: Rule, subpath: string) {
    MeansPath(r, subpath) ==> r.target.key == subpath
  }

  lemma {:induction false} ScansAgree(rules: seq<Rule>, s: string)
    requires forall r | r in rules :: FoundAsMeant(r, s)
    ensures Scan(rules, PathProbe(s)) == ScanByMeaning(rules, s)
  {
    if rules == [] {
    } else {
      assert FoundAsMeant(rules[|rules| - 1], s);
      ScansAgree(rules[..|rules| - 1], s);
    }
  }

  /** A rule whose text differs from the subpath it means is missed, whatever came before it. */
  lemma ScansDiffer(front: seq<Rule>, r: Rule, s: string)
    requires !FoundAsMeant(r, s)
    requires forall q | q in front :: q.entry.line < r.entry.line
    ensures ScanByMeaning(front + [r], s) == Verdict(r.entry)
    ensures Scan(front + [r], PathProbe(s)) != Verdict(r.entry)
    ensures Scan(front + [r], PrefixProbe(s)) != Verdict(r.entry)
  {
    assert (front + [r])[..|front|] == front;
    OtherVerdict(front, r, PathProbe(s));
    OtherVerdict(front, r, PrefixProbe(s));
  }

  lemma OtherVerdict(front: seq<Rule>, r: Rule, probe: Probe)
    requires !probe.Fail? && !probe.HashProbe? && !Hits(r, probe)
    requires forall q | q in front :: q.entry.line < r.entry.line
    ensures Scan(front + [r], probe) != Verdict(r.entry)
  {
    OthersDoNotMatter(front, [r], probe);
    if Scan(front, probe).Defined() {
      var i := AnswerComesFromRule(front, probe);
      assert front[i] in front;
    }
  }

  ghost predicate Ordered(rules: seq<Rule>) {
    forall i, j | 0 <= i < j < |rules| :: rules[i].entry.line < rules[j].entry.line
  }

  /** The lookup by text and the scan by meaning agree on a subpath, at every point of the file. */
  ghost predicate CallsAgree(rules: seq<Rule>, s: string) {
    forall k | 0 <= k <= |rules| :: Scan(rules[..k], PathProbe(s)) == ScanByMeaning(rules[..k], s)
  }

  /** For any text that a caller may pass, they agree exactly when it is the text of every rule that matches it. */
  lemma CallsByMeaning(rules: seq<Rule>, s: string)
    requires Ordered(rules)
    ensures CallsAgree(rules, s) <==> forall r | r in rules :: FoundAsMeant(r, s)
  {
    if forall r | r in rules :: FoundAsMeant(r, s) {
      forall k | 0 <= k <= |rules| ensures Scan(rules[..k], PathProbe(s)) == ScanByMeaning(rules[..k], s) {
        ScansAgree(rules[..k], s);
      }
    } else {
      var i :| 0 <= i < |rules| && !FoundAsMeant(rules[i], s);
      assert rules[..i + 1] == rules[..i] + [rules[i]];
      ScansDiffer(rules[..i], rules[i], s);
    }
  }

  // ---- every subpath ----

  /** An exact path rule whose text is its path, or whose path is none that a path can have. */
  predicate Indexable(r: Rule) {
    r.target.OnPath? ==> r.entry.path.path == r.target.key || !RealSubpath(r.entry.path.path)
  }

  lemma StarIsNoExactPath()
    ensures NewBlockedPath("*").Some? ==> NewBlockedPath("*").value.prefix
    ensures RealSubpath("*")
  {
    LastByte("*", '*');
  }

  /** Some real subpath is not found by the text of a rule that is not indexable. */
  lemma MissedSubpath(x: Codecs, r: Rule) returns (s: string)
    requires WellFormed(x, r) && !Indexable(r)
    ensures RealSubpath(s) && !FoundAsMeant(r, s)
  {
    s := r.entry.path.path;
    if s == "*" {
      s := if r.target.key == "a" then "b" else "a";
    }
    RealIsClean(s);
    MatchesClean(r.entry.path, s);
  }

  /** Indexable rules are those that every real subpath finds as meant. */
  lemma IndexableIsFound(x: Codecs, r: Rule)
    requires WellFormed(x, r)
    ensures Indexable(r) <==> forall s | RealSubpath(s) :: FoundAsMeant(r, s)
  {
    if Indexable(r) {
      forall s | RealSubpath(s) ensures FoundAsMeant(r, s) {
        StarIsNoExactPath();
        RealIsClean(s);
        MatchesClean(r.entry.path, s);
      }
    } else {
      var s := MissedSubpath(x, r);
    }
  }

  /**
    The exact path index, keyed by rule text, answers by meaning at every point of a file's
    life and for every subpath of a path, exactly when all exact path rules are indexable.
   */
  lemma ExactPathsByMeaning(x: Codecs, rules: seq<Rule>)
    requires Ordered(rules) && forall r | r in rules :: WellFormed(x, r)
    ensures (forall s | RealSubpath(s) :: CallsAgree(rules, s)) <==> forall r | r in rules :: Indexable(r)
  {
    forall s ensures CallsAgree(rules, s) <==> forall r | r in rules :: FoundAsMeant(r, s) {
      CallsByMeaning(rules, s);
    }
    forall r | r in rules ensures Indexable(r) <==> forall s | RealSubpath(s) :: FoundAsMeant(r, s) {
      IndexableIsFound(x, r);
    }
  }

  // ---- whole path queries ----

  /** The answer to a path query whose exact path tier goes by meaning; the other tiers are as they are. */
  function AnswerByMeaning(x: Codecs, rules: seq<Rule>, segments: seq<string>, order: seq<nat>): Answer {
    if |segments| < 2 then Errored
    else
      var subpath := Join(segments[2..], "/");
      var exact := if subpath == "" then NotFound else ScanByMeaning(rules, subpath);
      if exact.Defined() then exact else Reference(rules, OtherTiers(x, segments, order))
  }

  function OtherTiers(x: Codecs, segments: seq<string>, order: seq<nat>): seq<Probe>
    requires |segments| >= 2
  {
    var subpath := Join(segments[2..], "/");
    (if subpath == "" then [] else [PrefixProbe(subpath)])
    + ProtocolPlan(x, segments[0], segments[1], subpath, order)
  }

  lemma ExactTierFirst(x: Codecs, rules: seq<Rule>, segments: seq<string>, order: seq<nat>)
    requires |segments| >= 2
    ensures var subpath := Join(segments[2..], "/");
            var exact := if subpath == "" then NotFound else Scan(rules, PathProbe(subpath));
            Reference(rules, PathPlan(x, segments, order))
            == if exact.Defined() then exact else Reference(rules, OtherTiers(x, segments, order))
  {
    var subpath := Join(segments[2..], "/");
    if subpath != "" {
      assert PathPlan(x, segments, order) == [PathProbe(subpath)] + OtherTiers(x, segments, order);
      ReferenceOfCons(rules, PathProbe(subpath), OtherTiers(x, segments, order));
    }
  }

  /** With indexable rules only, a path query is answered by meaning. */
  lemma PathQueryByMeaning(x: Codecs, rules: seq<Rule>, segments: seq<string>, order: seq<nat>)
    requires AreSegments(segments) && forall r | r in rules :: WellFormed(x, r) && Indexable(r)
    ensures Reference(rules, PathPlan(x, segments, order)) == AnswerByMeaning(x, rules, segments, order)
  {
    if |segments| < 2 {
      ReferenceOfOne(rules, Fail);
    } else {
      var subpath := Join(segments[2..], "/");
      ExactTierFirst(x, rules, segments, order);
      if |segments| > 2 {
        JoinIsReal(segments[2..]);
        forall r | r in rules ensures FoundAsMeant(r, subpath) {
          IndexableIsFound(x, r);
        }
        ScansAgree(rules, subpath);
      }
    }
  }

  /** The segments of a path in one of the three namespaces. */
  predicate IsPath(segments: seq<string>) {
    |segments| >= 2 && segments[0] in {"ipfs", "ipns", "ipld"} && AreSegments(segments)
  }

  /** All path queries are answered by meaning, at every point of the file. */
  ghost predicate QueriesAgree(x: Codecs, rules: seq<Rule>) {
    forall k, segments, order | 0 <= k <= |rules| && IsPath(segments) ::
      Reference(rules[..k], PathPlan(x, segments, order)) == AnswerByMeaning(x, rules[..k], segments, order)
  }

  lemma QueriesAgreeIfIndexable(x: Codecs, rules: seq<Rule>)
    requires forall r | r in rules :: WellFormed(x, r) && Indexable(r)
    ensures QueriesAgree(x, rules)
  {
    forall k, segments, order | 0 <= k <= |rules| && IsPath(segments)
      ensures Reference(rules[..k], PathPlan(x, segments, order)) == AnswerByMeaning(x, rules[..k], segments, order)
    {
      PathQueryByMeaning(x, rules[..k], segments, order);
    }
  }

  lemma QueriesDisagreeAfter(x: Codecs, rules: seq<Rule>, i: nat)
    requires Ordered(rules) && i < |rules| && WellFormed(x, rules[i]) && !Indexable(rules[i])
    ensures !QueriesAgree(x, rules)
  {
    var segments := MissingQuery(x, rules[..i], rules[i], []);
    assert rules[..i + 1] == rules[..i] + [rules[i]];
  }

  /** The same exact condition for whole path queries. */
  lemma PathQueriesByMeaning(x: Codecs, rules: seq<Rule>)
    requires Ordered(rules) && forall r | r in rules :: WellFormed(x, r)
    ensures QueriesAgree(x, rules) <==> forall r | r in rules :: Indexable(r)
  {
    if forall r | r in rules :: Indexable(r) {
      QueriesAgreeIfIndexable(x, rules);
    } else {
      var i :| 0 <= i < |rules| && !Indexable(rules[i]);
      assert rules[i] in rules;
      QueriesDisagreeAfter(x, rules, i);
    }
  }

  /** A path of this subpath. */
  lemma PathWithSubpath(s: string) returns (segments: seq<string>)
    requires RealSubpath(s)
    ensures IsPath(segments) && segments[0] == "ipns" && Join(segments[2..], "/") == s
  {
    var rest := SegmentsOf(s);
    segments := ["ipns", "a"] + rest;
    assert segments[2..] == rest;
  }

  /** No tier that the last rule is not in reports that rule. */
  lemma OtherAnswer(front: seq<Rule>, r: Rule, plan: seq<Probe>)
    requires forall q | q in front :: q.entry.line < r.entry.line
    requires forall probe | probe in plan :: !Hits(r, probe)
    ensures Reference(front + [r], plan) != Verdict(r.entry)
  {
    QueryUnchanged(front, [r], plan);
    var i := FirstDefinedIs(Scans(front, plan));
    if Reference(front, plan) != NotFound && !plan[i].Fail? {
      var j := AnswerComesFromRule(front, plan[i]);
      assert front[j] in front;
    }
  }

  lemma {:induction false} HashesMissPathRule(x: Codecs, r: Rule, key: string, order: seq<nat>)
    requires r.target.OnPath?
    ensures forall probe | probe in AllHashProbes(x, key, order) :: !Hits(r, probe)
  {
    if order == [] {
    } else {
      HashesMissPathRule(x, r, key, order[1..]);
    }
  }

  lemma NameTiersMissPathRule(x: Codecs, r: Rule, name: string, s: string, order: seq<nat>)
    requires r.target.OnPath?
    ensures forall probe | probe in IpnsPlan(x, name, s, order) :: !Hits(r, probe)
  {
    var subpath := TrimPrefix(s, "/");
    match x.newPath(WithSubpath("/ipns/" + name, subpath)) {
      case None =>
      case Some(p) =>
        HashesMissPathRule(x, r, p, order);
        match x.decodeCid(name) {
          case None =>
          case Some(c) => HashesMissPathRule(x, r, WithSubpath(x.toB58(c.hash), subpath), order);
        }
    }
  }

  /** A rule that is not indexable is missed by some path query. */
  lemma MissingQuery(x: Codecs, front: seq<Rule>, r: Rule, order: seq<nat>) returns (segments: seq<string>)
    requires WellFormed(x, r) && !Indexable(r)
    requires forall q | q in front :: q.entry.line < r.entry.line
    ensures IsPath(segments)
    ensures Reference(front + [r], PathPlan(x, segments, order)) != AnswerByMeaning(x, front + [r], segments, order)
  {
    var s := MissedSubpath(x, r);
    segments := PathWithSubpath(s);
    ScansDiffer(front, r, s);
    ExactTierFirst(x, front + [r], segments, order);
    NameTiersMissPathRule(x, r, segments[1], s, order);
    OtherAnswer(front, r, OtherTiers(x, segments, order));
  }

  // ---- subpaths with slashes at their ends, which only direct calls can pass ----

  predicate EndsAdded(s: string, t: string) {
    t == "/" + s || t == s + "/" || t == "/" + s + "/"
  }

  lemma EndsAreUnclean(s: string, t: string)
    requires EndsAdded(s, t)
    ensures !Clean(t)
  {
    LastByte(t, '/');
  }

  lemma MatchIgnoresEnds(bp: BlockedPath, s: string, t: string)
    requires Clean(s) && EndsAdded(s, t)
    ensures bp.Matches(t) == bp.Matches(s)
  {
    MatchesIgnoresEndSlash(bp, s);
  }

  lemma {:induction false} MeaningIgnoresEnds(rules: seq<Rule>, s: string, t: string)
    requires Clean(s) && EndsAdded(s, t)
    ensures ScanByMeaning(rules, t) == ScanByMeaning(rules, s)
  {
    if rules == [] {
    } else {
      MatchIgnoresEnds(rules[|rules| - 1].entry.path, s, t);
      MeaningIgnoresEnds(rules[..|rules| - 1], s, t);
    }
  }

  lemma {:induction false} PrefixesIgnoreEnds(rules: seq<Rule>, s: string, t: string)
    requires Clean(s) && EndsAdded(s, t)
    ensures Scan(rules, PrefixProbe(t)) == Scan(rules, PrefixProbe(s))
  {
    if rules == [] {
    } else {
      MatchIgnoresEnds(rules[|rules| - 1].entry.path, s, t);
      PrefixesIgnoreEnds(rules[..|rules| - 1], s, t);
    }
  }

  /**
    A slash added to a subpath changes nothing of what the rules mean, but no rule with a clean
    text is found by it any more: a direct call is then answered by the prefix rules alone.
   */
  lemma EndSlashesMissExactRules(rules: seq<Rule>, s: string, t: string)
    requires Clean(s) && EndsAdded(s, t)
    requires forall r | r in rules && r.target.OnPath? :: Clean(r.target.key)
    ensures ScanByMeaning(rules, t) == ScanByMeaning(rules, s)
    ensures Reference(rules, SubpathPlan(t)) == Scan(rules, PrefixProbe(s))
  {
    MeaningIgnoresEnds(rules, s, t);
    PrefixesIgnoreEnds(rules, s, t);
    EndsAreUnclean(s, t);
    OthersDoNotMatter([], rules, PathProbe(t));
    assert [] + rules == rules;
    assert SubpathPlan(t) == [PathProbe(t)] + [PrefixProbe(t)];
    ReferenceOfCons(rules, PathProbe(t), [PrefixProbe(t)]);
    ReferenceOfOne(rules, PrefixProbe(t));
  }

  // ---- which rules are found at all ----

  /** No call finds a rule exactly when its path does not match its own text. */
  lemma NeverFound(r: Rule)
    requires r.target.OnPath?
    ensures (forall s :: !Hits(r, PathProbe(s))) <==> !r.entry.path.Matches(r.target.key)
  {
    assert Hits(r, PathProbe(r.target.key)) <==> r.entry.path.Matches(r.target.key);
  }

  lemma {:induction false} EscapeIsIdentity(s: string)
    requires IsBytes(s)
    ensures |PercentEscape(s)| >= |s|
    ensures PercentEscape(s) == s <==> forall i | 0 <= i < |s| :: Unreserved(s[i])
  {
    if s == "" {
    } else {
      EscapeIsIdentity(s[1..]);
      assert s == [s[0]] + s[1..];
      assert PercentEscape(s)[0] == EscapeByte(s[0])[0];
      if Unreserved(s[0]) {
        assert PercentEscape(s)[1..] == PercentEscape(s[1..]);
        assert forall i | 1 <= i < |s| :: s[i] == s[1..][i - 1];
      }
    }
  }

  // ---- three kinds of rule ----

  /** Text that a percent-escaper leaves alone. */
  predicate Plain(s: string) {
    forall i | 0 <= i < |s| :: Unreserved(s[i])
  }

  lemma PlainPath(s: string)
    requires Plain(s)
    ensures NewBlockedPath(s) == Some(BlockedPath(TrimSlashes(s), false))
  {
    EscapeIsIdentity(s);
    ExactPathRoundTrip(s);
  }

  lemma PlainWord(s: string)
    requires Plain(s) && s != ""
    ensures IsWord(s)
  {
    VisibleIsWord(s);
  }

  function PlainRule(base: Hints, text: string, path: string, number: nat): Rule {
    Rule(Entry(number, false, base, text, "", BlockedPath(path, false)), OnPath(text))
  }

  lemma SlashedText(u: string)
    requires IsSegment(u) && Plain(u)
    ensures PathRuleText("/" + u) && Plain("/" + u) && TrimSlashes("/" + u) == u
  {
    var text := "/" + u;
    assert text[1..] == u;
    PlainWord(text);
    if |text| > 5 {
      assert text[5] == u[4] != '/';
    }
    LastByte(u, '/');
  }

  /** What a list of one exact path rule answers. */
  lemma OneRule(r: Rule, s: string)
    requires r.target.OnPath?
    ensures Scan([r], PathProbe(s)) == if s == r.target.key && r.entry.path.Matches(s) then Verdict(r.entry) else NotFound
    ensures ScanByMeaning([r], s) == if r.entry.path.Matches(s) then Verdict(r.entry) else NotFound
  {
    assert [r][..0] == [];
  }

  lemma SlashedParses(x: Codecs, base: Hints, u: string, number: nat)
    requires IsSegment(u) && Plain(u)
    ensures ParseLine(x, base, "/" + u + "\n", number) == Accepted(PlainRule(base, "/" + u, u, number))
  {
    SlashedText(u);
    PlainPath("/" + u);
    UnmarkedLineAccepted(x, base, "/" + u, BlockedPath(u, false), number);
  }

  lemma SlashedMatches(r: Rule, u: string, s: string)
    requires IsSegment(u) && r.target == OnPath("/" + u) && r.entry.path == BlockedPath(u, false)
    ensures MeansPath(r, u) && r.entry.path.Matches("/" + u) && !Indexable(r)
    ensures RealSubpath(s) ==> s != "/" + u
  {
    SegmentIsReal(u);
    RealIsClean(u);
    MatchesClean(r.entry.path, u);
    MatchesIgnoresEndSlash(r.entry.path, u);
  }

  /**
    A rule written with a slash in front, such as `/foo`, is accepted and found by a direct call
    with just this text, but by no path query.
   */
  lemma SlashedRule(x: Codecs, base: Hints, u: string, number: nat, s: string)
    requires IsSegment(u) && Plain(u)
    ensures ParseLine(x, base, "/" + u + "\n", number) == Accepted(PlainRule(base, "/" + u, u, number))
    ensures var r := PlainRule(base, "/" + u, u, number);
            && Scan([r], PathProbe("/" + u)) == Verdict(r.entry) == ScanByMeaning([r], u)
            && !Indexable(r) && (RealSubpath(s) ==> Scan([r], PathProbe(s)) == NotFound)
  {
    var r := PlainRule(base, "/" + u, u, number);
    SlashedParses(x, base, u, number);
    SlashedMatches(r, u, s);
    OneRule(r, "/" + u);
    OneRule(r, u);
    OneRule(r, s);
  }

  lemma EscapedIsClean(s: string)
    requires IsBytes(s) && RealSubpath(s)
    ensures Clean(PercentEscape(s))
  {
    assert s == s[..|s| - 1] + [s[|s| - 1]];
    EscapedEnd(s[..|s| - 1], s[|s| - 1]);
    assert PercentEscape(s)[0] == EscapeByte(s[0])[0];
  }

  lemma EscapedText(s: string)
    requires IsBytes(s) && RealSubpath(s) && s[0] != '-'
    ensures PathRuleText(PercentEscape(s)) && NewBlockedPath(PercentEscape(s)) == Some(BlockedPath(s, false))
  {
    EscapedPathText(s, false);
    assert PercentEscape(s) + "" == PercentEscape(s);
    ExactPathRoundTrip(s);
    RealIsClean(s);
    TrimSlashesIsIdentity(s);
  }

  lemma EscapedParses(x: Codecs, base: Hints, s: string, number: nat)
    requires IsBytes(s) && RealSubpath(s) && s[0] != '-'
    ensures ParseLine(x, base, PercentEscape(s) + "\n", number) == Accepted(PlainRule(base, PercentEscape(s), s, number))
  {
    EscapedText(s);
    UnmarkedLineAccepted(x, base, PercentEscape(s), BlockedPath(s, false), number);
  }

  lemma EscapedMatches(bp: BlockedPath, s: string)
    requires IsBytes(s) && RealSubpath(s) && s != "*" && bp == BlockedPath(s, false)
    ensures bp.Matches(s) && (bp.Matches(PercentEscape(s)) <==> Plain(s))
  {
    RealIsClean(s);
    EscapedIsClean(s);
    EscapeIsIdentity(s);
    MatchesClean(bp, PercentEscape(s));
    MatchesClean(bp, s);
  }

  /**
    A printed rule, other than a lone star, is found by its own subpath exactly when nothing in
    it had to be escaped. If something had, as in `a%20b`, it is accepted and no call ever finds it.
   */
  lemma EscapedRule(x: Codecs, base: Hints, s: string, number: nat, t: string)
    requires IsBytes(s) && RealSubpath(s) && s[0] != '-' && s != "*"
    ensures ParseLine(x, base, PercentEscape(s) + "\n", number) == Accepted(PlainRule(base, PercentEscape(s), s, number))
    ensures var r := PlainRule(base, PercentEscape(s), s, number);
            && ScanByMeaning([r], s) == Verdict(r.entry)
            && (Plain(s) ==> Scan([r], PathProbe(s)) == Verdict(r.entry))
            && (!Plain(s) ==> Scan([r], PathProbe(t)) == NotFound)
  {
    var r := PlainRule(base, PercentEscape(s), s, number);
    EscapedParses(x, base, s, number);
    EscapedMatches(r.entry.path, s);
    EscapeIsIdentity(s);
    OneRule(r, s);
    OneRule(r, t);
  }

  /** A rule found by its own subpath, such as `foo`, is not found by a direct call with a slash added. */
  lemma FoundWithoutSlash(r: Rule, s: string, t: string)
    requires Clean(s) && r.target == OnPath(s) && r.entry.path == BlockedPath(s, false) && EndsAdded(s, t)
    ensures Scan([r], PathProbe(s)) == Verdict(r.entry) == ScanByMeaning([r], t)
    ensures Scan([r], PathProbe(t)) == NotFound
  {
    MatchesClean(r.entry.path, s);
    OneRule(r, s);
    OneRule(r, t);
    MeaningIgnoresEnds([r], s, t);
    EndsAreUnclean(s, t);
  }

  /** A plain rule is found by its own subpath, and missed by a direct call with a slash behind it. */
  lemma PlainlyFound(x: Codecs, base: Hints, s: string)
    requires RealSubpath(s) && Plain(s) && s[0] != '-'
    ensures ParseLine(x, base, s + "\n", 1) == Accepted(PlainRule(base, s, s, 1))
    ensures var r := PlainRule(base, s, s, 1);
            && Scan([r], PathProbe(s)) == Verdict(r.entry) == ScanByMeaning([r], s + "/")
            && Scan([r], PathProbe(s + "/")) == NotFound
  {
    EscapeIsIdentity(s);
    EscapedParses(x, base, s, 1);
    RealIsClean(s);
    FoundWithoutSlash(PlainRule(base, s, s, 1), s, s + "/");
  }

  // ---- two lines that confuse a live query ----

  function ExceptionRule(base: Hints, s: string): Rule {
    Rule(Entry(1, true, base, "-" + s, "", BlockedPath(s, false)), OnPath(s))
  }

  function PrefixBlock(base: Hints, s: string): Rule {
    Rule(Entry(2, false, base, s + "*", "", BlockedPath(s, true)), OnPathPrefix)
  }

  lemma ExceptionParses(x: Codecs, base: Hints, s: string)
    requires RealSubpath(s) && Plain(s) && s[0] != '-'
    ensures ParseLine(x, base, "-" + s + "\n", 1) == Accepted(ExceptionRule(base, s))
  {
    EscapeIsIdentity(s);
    EscapedText(s);
    BareLineAccepted(x, base, "-", s, BlockedPath(s, false), 1);
  }

  lemma PrefixText(s: string)
    requires RealSubpath(s) && Plain(s) && s[0] != '-'
    ensures PathRuleText(s + "*") && NewBlockedPath(s + "*") == Some(BlockedPath(s, true))
  {
    EscapeIsIdentity(s);
    EscapedPathText(s, true);
    PrefixPathRoundTrip(s);
    RealIsClean(s);
    TrimSlashesIsIdentity(s);
    LastByte(s, '/');
  }

  lemma PrefixBlockParses(x: Codecs, base: Hints, s: string)
    requires RealSubpath(s) && Plain(s) && s[0] != '-'
    ensures ParseLine(x, base, s + "*" + "\n", 2) == Accepted(PrefixBlock(base, s))
  {
    PrefixText(s);
    UnmarkedLineAccepted(x, base, s + "*", BlockedPath(s, true), 2);
  }

  /**
    A file of the two lines `-a` and `a*`, or the like, read while `a` is asked for: Blocked, which
    it was neither before, nor between, nor after them.
   */
  lemma MixedFileLive(x: Codecs, base: Hints, s: string)
    requires RealSubpath(s) && Plain(s) && s[0] != '-'
    ensures ParseLine(x, base, "-" + s + "\n", 1) == Accepted(ExceptionRule(base, s))
    ensures ParseLine(x, base, s + "*" + "\n", 2) == Accepted(PrefixBlock(base, s))
    ensures var rules := [ExceptionRule(base, s), PrefixBlock(base, s)];
            && FirstDefined(LiveScans(rules, SubpathPlan(s), [0, 2])).Blocked?
            && forall k | 0 <= k <= 2 :: !Reference(rules[..k], SubpathPlan(s)).Blocked?
  {
    ExceptionParses(x, base, s);
    PrefixBlockParses(x, base, s);
    RealIsClean(s);
    MatchesClean(BlockedPath(s, false), s);
    MatchesClean(BlockedPath(s, true), s);
    LiveStatusCanBeNoStatus(ExceptionRule(base, s), PrefixBlock(base, s), s);
  }

  // ---- the same at concrete lines ----

  lemma SlashedFoo(x: Codecs, base: Hints, s: string)
    requires s == "foo"
    ensures ParseLine(x, base, "/" + s + "\n", 1) == Accepted(PlainRule(base, "/" + s, s, 1))
    ensures var r := PlainRule(base, "/" + s, s, 1);
            && Scan([r], PathProbe("/" + s)) == Verdict(r.entry) == ScanByMeaning([r], s)
            && Scan([r], PathProbe(s)) == NotFound
  {
    SlashedRule(x, base, s, 1, s);
  }

  lemma EscapeOfSpace()
    ensures PercentEscape("a b") == "a%20b"
  {
    assert "a b"[1..] == " b" && " b"[1..] == "b" && "b"[1..] == "";
    assert EscapeByte(' ') == "%20";
  }

  lemma EscapedSpace(x: Codecs, base: Hints, text: string, s: string, t: string)
    requires text == "a%20b" && s == "a b"
    ensures ParseLine(x, base, text + "\n", 1) == Accepted(PlainRule(base, text, s, 1))
    ensures var r := PlainRule(base, text, s, 1);
            ScanByMeaning([r], s) == Verdict(r.entry) && Scan([r], PathProbe(t)) == NotFound
  {
    EscapeOfSpace();
    assert !Unreserved(s[1]);
    EscapedRule(x, base, s, 1, t);
  }

  lemma FooWithSlash(x: Codecs, base: Hints, s: string)
    requires s == "foo"
    ensures ParseLine(x, base, s + "\n", 1) == Accepted(PlainRule(base, s, s, 1))
    ensures var r := PlainRule(base, s, s, 1);
            && Scan([r], PathProbe(s)) == Verdict(r.entry) == ScanByMeaning([r], s + "/")
            && Scan([r], PathProbe(s + "/")) == NotFound
  {
    PlainlyFound(x, base, s);
  }
}
