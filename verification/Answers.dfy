/**
  Which rule decides a query, said without plans or probes: a rule covers a query in a tier, the
  first tier in which some rule covers it decides, and in it the last rule.
 */
module Answers {
  import opened Options
  import opened GoStrings
  import opened BlockedPaths
  import opened Entries
  import opened Multiformats
  import opened Rules
  import opened DnsLink
  import opened Lookup
  import opened QueryLaws

  /** What is asked for, besides the subpath. */
  datatype Subject =
    | OfCid(c: Cid)
    | OfCidName(c: Cid)                     // an IPNS name that is a CID
    | OfName(name: string, path: string)    // any other IPNS name, with the path it makes
    | Broken                                // no path, or no CID where there must be one
    | Nothing                               // another namespace

  datatype Question = Question(subject: Subject, subpath: string)

  function Behind(head: string, subpath: string): string {
    if subpath == "" then head else head + "/" + subpath
  }

  function SubjectOf(x: Codecs, protocol: string, key: string, subpath: string): Subject {
    if protocol !in {"ipfs", "ipld", "ipns"} then Nothing
    else
      match x.newPath(Behind("/" + protocol + "/" + key, subpath))
      case None => Broken
      case Some(path) =>
        match x.decodeCid(key)
        case Some(c) => if protocol == "ipns" then OfCidName(c) else OfCid(c)
        case None => if protocol == "ipns" then OfName(key, path) else Broken
  }

  // ---- the tiers ----

  const EXACT_PATH: nat := 0
  const PREFIX_PATH: nat := 1
  const KEY: nat := 2
  const LEGACY_HASH: nat := 3
  const HASH: nat := 4  // and one tier for every function in the order

  /** The text of the legacy double hash: version-1 base32 CID or name, a slash, the subpath. */
  function LegacyText(x: Codecs, q: Question): Option<string> {
    match q.subject
    case OfCid(c) => LegacyOfCid(x, c, q.subpath)
    case OfCidName(c) => LegacyOfCid(x, c, q.subpath)
    case OfName(name, _) => Some(name + "/" + q.subpath)
    case _ => None
  }

  function LegacyOfCid(x: Codecs, c: Cid, subpath: string): Option<string> {
    match x.cidV1Base32(c.codec, c.hash)
    case None => None
    case Some(b32) => Some(b32 + "/" + subpath)
  }

  /** The text of the double hash: base58 multihash and subpath, or the whole path of a name. */
  function HashText(x: Codecs, q: Question): Option<string> {
    match q.subject
    case OfCid(c) => Some(Behind(x.toB58(c.hash), q.subpath))
    case OfCidName(c) => Some(Behind(x.toB58(c.hash), q.subpath))
    case OfName(_, path) => Some(path)
    case _ => None
  }

  predicate CoversHash(x: Codecs, r: Rule, text: Option<string>, code: nat) {
    && r.target.OnDoubleHash? && text.Some? && x.sum(text.value, code).Some?
    && HashKey(code, x.sum(text.value, code).value) in r.target.keys
  }

  predicate CoversKey(x: Codecs, r: Rule, q: Question) {
    match q.subject
    case OfCid(c) => r.target.OnCid? && r.entry.mh == c.hash && r.entry.path.Matches(q.subpath)
    case OfCidName(c) => r.target == OnName(x.toB58(c.hash)) && r.entry.path.Matches(q.subpath)
    case OfName(name, _) => r.target == OnName(if '.' in name then name else ToFqdn(name)) && r.entry.path.Matches(q.subpath)
    case _ => false
  }

  /** The rule covers the question in this tier. */
  predicate Covers(x: Codecs, r: Rule, q: Question, order: seq<nat>, tier: nat) {
    if tier == EXACT_PATH then q.subpath != "" && r.target == OnPath(q.subpath) && r.entry.path.Matches(q.subpath)
    else if tier == PREFIX_PATH then q.subpath != "" && r.target.OnPathPrefix? && r.entry.path.Matches(q.subpath)
    else if tier == KEY then CoversKey(x, r, q)
    else if tier == LEGACY_HASH then CoversHash(x, r, LegacyText(x, q), 0x12)
    else tier - HASH < |order| && CoversHash(x, r, HashText(x, q), order[tier - HASH])
  }

  /** The tier at which the question fails, or one after all. */
  function FailsAt(x: Codecs, q: Question, order: seq<nat>): nat {
    if q.subject.Broken? then KEY
    else if !q.subject.Nothing? && LegacyText(x, q).None? then LEGACY_HASH
    else HASH + |order|
  }

  function Reports(x: Codecs, r: Rule, q: Question, order: seq<nat>, tier: nat): Entry
    requires Covers(x, r, q, order, tier)
  {
    if tier < LEGACY_HASH then r.entry
    else if tier == LEGACY_HASH then r.entry.(mh := x.sum(LegacyText(x, q).value, 0x12).value, path := EMPTY_PATH)
    else r.entry.(mh := x.sum(HashText(x, q).value, order[tier - HASH]).value, path := EMPTY_PATH)
  }

  /** No rule covers the question in a tier before this one. */
  ghost predicate Uncovered(x: Codecs, rules: seq<Rule>, q: Question, order: seq<nat>, tier: nat) {
    forall m, k: nat | 0 <= m < |rules| && k < tier :: !Covers(x, rules[m], q, order, k)
  }

  /** Rule n is the last that covers the question in the first tier in which any does. */
  ghost predicate Decides(x: Codecs, rules: seq<Rule>, q: Question, order: seq<nat>, n: nat, tier: nat) {
    && n < |rules| && tier < FailsAt(x, q, order) && Covers(x, rules[n], q, order, tier)
    && (forall m | n < m < |rules| :: !Covers(x, rules[m], q, order, tier))
    && Uncovered(x, rules, q, order, tier)
  }

  /** What a question should be answered. */
  ghost predicate Answered(x: Codecs, rules: seq<Rule>, q: Question, order: seq<nat>, a: Answer) {
    && (forall n: nat, tier: nat | Decides(x, rules, q, order, n, tier) :: a == Verdict(Reports(x, rules[n], q, order, tier)))
    && (a == Errored <==> FailsAt(x, q, order) < HASH && Uncovered(x, rules, q, order, FailsAt(x, q, order)))
    && (a == NotFound <==> FailsAt(x, q, order) >= HASH && Uncovered(x, rules, q, order, HASH + |order|))
  }

  // ---- tiers of probes ----

  function Flat(tiers: seq<seq<Probe>>): seq<Probe> {
    if tiers == [] then [] else tiers[0] + Flat(tiers[1..])
  }

  lemma {:induction false} FlatConcat(a: seq<seq<Probe>>, b: seq<seq<Probe>>)
    ensures Flat(a + b) == Flat(a) + Flat(b)
  {
    if a == [] {
      assert a + b == b;
    } else {
      FlatConcat(a[1..], b);
      assert (a + b)[1..] == a[1..] + b;
      Associate(a[0], Flat(a[1..]), Flat(b));
    }
  }

  lemma FlatAt(tiers: seq<seq<Probe>>, k: nat)
    requires k < |tiers|
    ensures Flat(tiers) == Flat(tiers[..k]) + (tiers[k] + Flat(tiers[k + 1..]))
  {
    assert tiers == tiers[..k] + tiers[k..];
    FlatConcat(tiers[..k], tiers[k..]);
    assert tiers[k..][0] == tiers[k] && tiers[k..][1..] == tiers[k + 1..];
  }

  /** A tier holds one probe, which is no failure, or none. */
  predicate Plain(tier: seq<Probe>) {
    tier == [] || (|tier| == 1 && !tier[0].Fail?)
  }

  predicate HitsTier(r: Rule, tier: seq<Probe>) {
    tier != [] && Hits(r, tier[0])
  }

  lemma {:induction false} FlatMiss(rules: seq<Rule>, tiers: seq<seq<Probe>>)
    requires forall k | 0 <= k < |tiers| :: Plain(tiers[k]) && forall m | 0 <= m < |rules| :: !HitsTier(rules[m], tiers[k])
    ensures Reference(rules, Flat(tiers)) == NotFound
  {
    ReferenceOfNothing(rules);
    if tiers == [] {
    } else {
      FlatMiss(rules, tiers[1..]);
      ReferenceOfConcat(rules, tiers[0], Flat(tiers[1..]));
      if tiers[0] != [] {
        OthersDoNotMatter([], rules, tiers[0][0]);
        assert [] + rules == rules && tiers[0] == [tiers[0][0]];
        ReferenceOfOne(rules, tiers[0][0]);
      }
    }
  }

  /** The answer of the tiers up to k when all before k miss. */
  lemma FlatBehind(rules: seq<Rule>, tiers: seq<seq<Probe>>, k: nat, probe: Probe)
    requires k < |tiers| && tiers[k] == [probe] && Scan(rules, probe).Defined()
    requires forall j | 0 <= j < k :: Plain(tiers[j]) && forall m | 0 <= m < |rules| :: !HitsTier(rules[m], tiers[j])
    ensures Reference(rules, Flat(tiers)) == Scan(rules, probe)
  {
    FlatAt(tiers, k);
    FlatMiss(rules, tiers[..k]);
    ReferenceOfConcat(rules, Flat(tiers[..k]), [probe] + Flat(tiers[k + 1..]));
    ReferenceOfCons(rules, probe, Flat(tiers[k + 1..]));
  }

  lemma LastHitDecides(rules: seq<Rule>, probe: Probe, n: nat)
    requires n < |rules| && Hits(rules[n], probe)
    requires forall m | n < m < |rules| :: !Hits(rules[m], probe)
    ensures Scan(rules, probe) == Verdict(Reported(rules[n], probe))
  {
    RuleOverrides(rules[..n], rules[n], rules[n + 1..], probe);
    assert rules[..n] + [rules[n]] + rules[n + 1..] == rules;
  }

  // ---- the tiers of a question ----

  function PathTiers(subpath: string): seq<seq<Probe>> {
    if subpath == "" then [[], []] else [[PathProbe(subpath)], [PrefixProbe(subpath)]]
  }

  function KeyTier(x: Codecs, q: Question): seq<Probe> {
    match q.subject
    case OfCid(c) => [CidProbe(c.hash, q.subpath)]
    case OfCidName(c) => [NameProbe(x.toB58(c.hash), q.subpath)]
    case OfName(name, _) => [NameProbe(if '.' in name then name else ToFqdn(name), q.subpath)]
    case Broken => [Fail]
    case Nothing => []
  }

  function HashTier(x: Codecs, text: Option<string>, code: nat): seq<Probe> {
    if text.None? then [] else HashProbes(x, text.value, code)
  }

  function HashTiers(x: Codecs, text: Option<string>, order: seq<nat>): seq<seq<Probe>> {
    seq(|order|, i requires 0 <= i < |order| => HashTier(x, text, order[i]))
  }

  function TiersOf(x: Codecs, q: Question, order: seq<nat>): (tiers: seq<seq<Probe>>)
    ensures |tiers| == HASH + |order|
  {
    PathTiers(q.subpath)
    + [KeyTier(x, q)]
    + (if FailsAt(x, q, order) == LEGACY_HASH then [[Fail]] + HashTiers(x, None, order)
       else [HashTier(x, LegacyText(x, q), SHA2_256)] + HashTiers(x, HashText(x, q), order))
  }

  lemma TierIsCover(x: Codecs, r: Rule, q: Question, order: seq<nat>, k: nat)
    requires k < FailsAt(x, q, order)
    ensures Plain(TiersOf(x, q, order)[k])
    ensures HitsTier(r, TiersOf(x, q, order)[k]) <==> Covers(x, r, q, order, k)
  {
    if k < LEGACY_HASH {
    } else if k == LEGACY_HASH {
      assert TiersOf(x, q, order)[k] == HashTier(x, LegacyText(x, q), SHA2_256);
    } else {
      assert TiersOf(x, q, order)[k] == HashTier(x, HashText(x, q), order[k - HASH]);
    }
  }

  lemma TierReports(x: Codecs, r: Rule, q: Question, order: seq<nat>, k: nat)
    requires k < FailsAt(x, q, order) && Covers(x, r, q, order, k)
    ensures var tier := TiersOf(x, q, order)[k];
            |tier| == 1 && Reported(r, tier[0]) == Reports(x, r, q, order, k)
  {
    TierIsCover(x, r, q, order, k);
    if k < LEGACY_HASH {
    } else if k == LEGACY_HASH {
      assert TiersOf(x, q, order)[k] == HashTier(x, LegacyText(x, q), SHA2_256);
    } else {
      assert TiersOf(x, q, order)[k] == HashTier(x, HashText(x, q), order[k - HASH]);
    }
  }

  /** The answer of the tiers is the one described. */
  lemma DecidingRule(x: Codecs, rules: seq<Rule>, q: Question, order: seq<nat>, n: nat, tier: nat)
    requires Decides(x, rules, q, order, n, tier)
    ensures Reference(rules, Flat(TiersOf(x, q, order))) == Verdict(Reports(x, rules[n], q, order, tier))
  {
    var tiers := TiersOf(x, q, order);
    TierIsCover(x, rules[n], q, order, tier);
    TierReports(x, rules[n], q, order, tier);
    var probe := tiers[tier][0];
    forall m | n < m < |rules| ensures !Hits(rules[m], probe) {
      TierIsCover(x, rules[m], q, order, tier);
    }
    LastHitDecides(rules, probe, n);
    UncoveredTiersMiss(x, rules, q, order, tier);
    FlatBehind(rules, tiers, tier, probe);
  }

  lemma UncoveredTiersMiss(x: Codecs, rules: seq<Rule>, q: Question, order: seq<nat>, tier: nat)
    requires tier <= FailsAt(x, q, order) && tier <= HASH + |order| && Uncovered(x, rules, q, order, tier)
    ensures forall j | 0 <= j < tier :: Plain(TiersOf(x, q, order)[j])
                                        && forall m | 0 <= m < |rules| :: !HitsTier(rules[m], TiersOf(x, q, order)[j])
  {
    forall j | 0 <= j < tier
      ensures Plain(TiersOf(x, q, order)[j]) && forall m | 0 <= m < |rules| :: !HitsTier(rules[m], TiersOf(x, q, order)[j])
    {
      TierIsCover(x, Rule(Entry(0, false, map[], "", "", EMPTY_PATH), OnPathPrefix), q, order, j);
      forall m | 0 <= m < |rules| ensures !HitsTier(rules[m], TiersOf(x, q, order)[j]) {
        TierIsCover(x, rules[m], q, order, j);
      }
    }
  }

  lemma FailingQuestion(x: Codecs, rules: seq<Rule>, q: Question, order: seq<nat>)
    requires FailsAt(x, q, order) < HASH && Uncovered(x, rules, q, order, FailsAt(x, q, order))
    ensures Reference(rules, Flat(TiersOf(x, q, order))) == Errored
  {
    UncoveredTiersMiss(x, rules, q, order, FailsAt(x, q, order));
    FlatBehind(rules, TiersOf(x, q, order), FailsAt(x, q, order), Fail);
  }

  lemma UncoveredQuestion(x: Codecs, rules: seq<Rule>, q: Question, order: seq<nat>)
    requires FailsAt(x, q, order) >= HASH && Uncovered(x, rules, q, order, HASH + |order|)
    ensures Reference(rules, Flat(TiersOf(x, q, order))) == NotFound
  {
    UncoveredTiersMiss(x, rules, q, order, HASH + |order|);
    FlatMiss(rules, TiersOf(x, q, order));
  }

  /** The last rule of the first covered tier. */
  lemma SomethingDecides(x: Codecs, rules: seq<Rule>, q: Question, order: seq<nat>, tier: nat) returns (n: nat, k: nat)
    requires tier <= FailsAt(x, q, order) && !Uncovered(x, rules, q, order, tier)
    ensures Decides(x, rules, q, order, n, k)
  {
    var m, j: nat :| 0 <= m < |rules| && j < tier && Covers(x, rules[m], q, order, j);
    if !Uncovered(x, rules, q, order, j) {
      n, k := SomethingDecides(x, rules, q, order, j);
    } else {
      n := LastCovering(x, rules, q, order, j, m);
      k := j;
    }
  }

  lemma LastCovering(x: Codecs, rules: seq<Rule>, q: Question, order: seq<nat>, tier: nat, m: nat) returns (n: nat)
    requires m < |rules| && Covers(x, rules[m], q, order, tier)
    ensures n < |rules| && Covers(x, rules[n], q, order, tier)
    ensures forall i | n < i < |rules| :: !Covers(x, rules[i], q, order, tier)
    decreases |rules| - m
  {
    n := m;
    if i :| m < i < |rules| && Covers(x, rules[i], q, order, tier) {
      n := LastCovering(x, rules, q, order, tier, i);
    }
  }

  lemma TiersAnswer(x: Codecs, rules: seq<Rule>, q: Question, order: seq<nat>)
    ensures Answered(x, rules, q, order, Reference(rules, Flat(TiersOf(x, q, order))))
  {
    forall n: nat, tier: nat | Decides(x, rules, q, order, n, tier)
      ensures Reference(rules, Flat(TiersOf(x, q, order))) == Verdict(Reports(x, rules[n], q, order, tier))
    {
      DecidingRule(x, rules, q, order, n, tier);
    }
    var e := FailsAt(x, q, order);
    if !Uncovered(x, rules, q, order, e) {
      var n, tier := SomethingDecides(x, rules, q, order, e);
      if e >= HASH {
        assert e == HASH + |order|;
      }
    } else if e < HASH {
      FailingQuestion(x, rules, q, order);
    } else {
      UncoveredQuestion(x, rules, q, order);
    }
  }

  // ---- the queries ----

  lemma {:induction false} FlatHashTiers(x: Codecs, text: string, order: seq<nat>)
    ensures Flat(HashTiers(x, Some(text), order)) == AllHashProbes(x, text, order)
  {
    if order == [] {
    } else {
      FlatHashTiers(x, text, order[1..]);
      assert HashTiers(x, Some(text), order)[1..] == HashTiers(x, Some(text), order[1..]);
    }
  }

  lemma {:induction false} NoHashTiers(x: Codecs, order: seq<nat>)
    ensures Flat(HashTiers(x, None, order)) == []
  {
    if order == [] {
    } else {
      NoHashTiers(x, order[1..]);
      assert HashTiers(x, None, order)[1..] == HashTiers(x, None, order[1..]);
    }
  }

  /** The probes of a question behind its path tiers. */
  function SubjectProbes(x: Codecs, q: Question, order: seq<nat>): seq<Probe> {
    match q.subject
    case OfCid(c) => KeyTier(x, q) + HashPlan(x, c, q.subpath, order)
    case OfCidName(c) => KeyTier(x, q) + HashPlan(x, c, q.subpath, order)
    case OfName(name, path) => KeyTier(x, q) + (HashProbes(x, name + "/" + q.subpath, SHA2_256) + AllHashProbes(x, path, order))
    case Broken => [Fail]
    case Nothing => []
  }

  lemma FlatOfTiers(x: Codecs, q: Question, order: seq<nat>)
    ensures Flat(TiersOf(x, q, order)) == (if q.subpath == "" then [] else SubpathPlan(q.subpath)) + SubjectProbes(x, q, order)
  {
    var front, rest := PathTiers(q.subpath), TiersOf(x, q, order)[2..];
    FlatConcat(front, rest);
    assert TiersOf(x, q, order) == front + rest;
    FlatOfPathTiers(q.subpath);
    FlatOfSubject(x, q, order);
  }

  lemma FlatOfPathTiers(subpath: string)
    ensures Flat(PathTiers(subpath)) == if subpath == "" then [] else SubpathPlan(subpath)
  {
    var tiers := PathTiers(subpath);
    assert tiers[1..] == [tiers[1]] && tiers[1..][1..] == [];
    assert Flat(tiers) == tiers[0] + (tiers[1] + Flat(tiers[1..][1..]));
  }

  lemma FlatOfSubject(x: Codecs, q: Question, order: seq<nat>)
    ensures Flat(TiersOf(x, q, order)[2..]) == SubjectProbes(x, q, order)
  {
    var rest := TiersOf(x, q, order)[2..];
    assert rest[0] == KeyTier(x, q) && rest[1..][1..] == TiersOf(x, q, order)[4..];
    NoHashTiers(x, order);
    if FailsAt(x, q, order) == LEGACY_HASH {
      assert rest[1] == [Fail] && rest[2..] == HashTiers(x, None, order);
    } else {
      assert rest[1] == HashTier(x, LegacyText(x, q), SHA2_256) && rest[2..] == HashTiers(x, HashText(x, q), order);
      if HashText(x, q).Some? {
        FlatHashTiers(x, HashText(x, q).value, order);
      }
    }
    assert Flat(rest) == rest[0] + (rest[1] + Flat(rest[2..]));
  }

  lemma SubjectOfProtocol(x: Codecs, protocol: string, key: string, subpath: string, order: seq<nat>)
    requires !("/" <= subpath)
    ensures ProtocolPlan(x, protocol, key, subpath, order)
         == SubjectProbes(x, Question(SubjectOf(x, protocol, key, subpath), subpath), order)
  {
    assert "/" + "ipfs" + "/" + key == "/ipfs/" + key;
    assert "/" + "ipns" + "/" + key == "/ipns/" + key;
    assert "/" + "ipld" + "/" + key == "/ipld/" + key;
  }

  /**
    A path is answered by the last rule that covers it in the first tier in which any does; it is an error
    exactly if it fails before, and NotFound exactly if nothing covers it.
   */
  lemma PathAnswered(x: Codecs, rules: seq<Rule>, segments: seq<string>, order: seq<nat>)
    requires |segments| >= 2 && !("/" <= Join(segments[2..], "/"))
    ensures var subpath := Join(segments[2..], "/");
            Answered(x, rules, Question(SubjectOf(x, segments[0], segments[1], subpath), subpath), order,
                     Reference(rules, PathPlan(x, segments, order)))
  {
    var subpath := Join(segments[2..], "/");
    var q := Question(SubjectOf(x, segments[0], segments[1], subpath), subpath);
    SubjectOfProtocol(x, segments[0], segments[1], subpath, order);
    FlatOfTiers(x, q, order);
    TiersAnswer(x, rules, q, order);
  }

  /** And so is a CID. */
  lemma CidAnswered(x: Codecs, rules: seq<Rule>, c: Cid, order: seq<nat>)
    ensures Answered(x, rules, Question(OfCid(c), ""), order, Reference(rules, CidPlan(x, c, order)))
  {
    FlatOfTiers(x, Question(OfCid(c), ""), order);
    TiersAnswer(x, rules, Question(OfCid(c), ""), order);
    assert [] + CidPlan(x, c, order) == CidPlan(x, c, order);
  }

  // ---- what one rule does ----

  lemma {:induction false} InSomeTier(tiers: seq<seq<Probe>>, probe: Probe) returns (k: nat)
    requires probe in Flat(tiers)
    ensures k < |tiers| && probe in tiers[k]
  {
    if probe in tiers[0] {
      k := 0;
    } else {
      k := InSomeTier(tiers[1..], probe);
      k := k + 1;
    }
  }

  lemma BehindFailure(x: Codecs, q: Question, order: seq<nat>, k: nat)
    requires FailsAt(x, q, order) <= k < HASH + |order|
    ensures forall probe | probe in TiersOf(x, q, order)[k] :: probe.Fail?
  {
    if k >= HASH {
      assert TiersOf(x, q, order)[k] == [];
    }
  }

  /** A rule that covers a question in no tier leaves its answer alone. */
  lemma UncoveringRule(x: Codecs, front: seq<Rule>, r: Rule, q: Question, order: seq<nat>)
    requires forall k: nat :: !Covers(x, r, q, order, k)
    ensures var probes := Flat(TiersOf(x, q, order));
            Reference(front + [r], probes) == Reference(front, probes)
  {
    var tiers := TiersOf(x, q, order);
    forall probe | probe in Flat(tiers) ensures !Hits(r, probe) {
      var k := InSomeTier(tiers, probe);
      if k < FailsAt(x, q, order) {
        TierIsCover(x, r, q, order, k);
      } else {
        BehindFailure(x, q, order, k);
      }
    }
    QueryUnchanged(front, [r], Flat(tiers));
  }

  /** No rule of the list is a path rule for the subpath. */
  ghost predicate NoPathRule(rules: seq<Rule>, subpath: string) {
    forall m | 0 <= m < |rules| && subpath != "" ::
      (rules[m].target == OnPath(subpath) || rules[m].target.OnPathPrefix?) ==> !rules[m].entry.path.Matches(subpath)
  }

  lemma CidRuleCovers(x: Codecs, r: Rule, q: Question, order: seq<nat>, k: nat)
    requires r.target.OnCid? && q.subject.OfCid?
    ensures Covers(x, r, q, order, k) <==> k == KEY && r.entry.mh == q.subject.c.hash && r.entry.path.Matches(q.subpath)
  {
  }

  lemma CidRuleOnQuestion(x: Codecs, front: seq<Rule>, r: Rule, q: Question, order: seq<nat>)
    requires r.target.OnCid? && q.subject.OfCid? && NoPathRule(front, q.subpath)
    ensures var probes := Flat(TiersOf(x, q, order));
            Reference(front + [r], probes)
            == if r.entry.mh == q.subject.c.hash && r.entry.path.Matches(q.subpath) then Verdict(r.entry)
               else Reference(front, probes)
  {
    if r.entry.mh == q.subject.c.hash && r.entry.path.Matches(q.subpath) {
      var rules := front + [r];
      CidRuleCovers(x, r, q, order, KEY);
      forall m, k: nat | 0 <= m < |rules| && k < KEY ensures !Covers(x, rules[m], q, order, k) {
        CidRuleCovers(x, r, q, order, k);
        assert m < |front| ==> rules[m] == front[m];
      }
      assert rules[|front|] == r;
      DecidingRule(x, rules, q, order, |front|, KEY);
    } else {
      forall k: nat ensures !Covers(x, r, q, order, k) {
        CidRuleCovers(x, r, q, order, k);
      }
      UncoveringRule(x, front, r, q, order);
    }
  }

  /**
    Unless a path rule is there for the subpath, a CID rule that comes last answers exactly the ipfs
    and ipld paths of its multihash whose subpath it matches, and changes nothing for any other.
   */
  lemma CidRuleDecides(x: Codecs, front: seq<Rule>, r: Rule, c: Cid, segments: seq<string>, order: seq<nat>)
    requires r.target.OnCid? && |segments| >= 2 && segments[0] in {"ipfs", "ipld"} && x.decodeCid(segments[1]) == Some(c)
    requires var s := Join(segments[2..], "/");
             && !("/" <= s) && NoPathRule(front, s) && x.newPath(Behind("/" + segments[0] + "/" + segments[1], s)).Some?
    ensures var s := Join(segments[2..], "/");
            Reference(front + [r], PathPlan(x, segments, order))
            == if r.entry.mh == c.hash && r.entry.path.Matches(s) then Verdict(r.entry)
               else Reference(front, PathPlan(x, segments, order))
  {
    var s := Join(segments[2..], "/");
    var q := Question(SubjectOf(x, segments[0], segments[1], s), s);
    SubjectOfProtocol(x, segments[0], segments[1], s, order);
    FlatOfTiers(x, q, order);
    CidRuleOnQuestion(x, front, r, q, order);
  }

  lemma SameCidPlan(x: Codecs, text: string, s: string, order: seq<nat>)
    requires !("/" <= s)
    requires x.newPath(Behind("/ipfs/" + text, s)).Some? && x.newPath(Behind("/ipld/" + text, s)).Some?
    ensures ProtocolPlan(x, "ipld", text, s, order) == ProtocolPlan(x, "ipfs", text, s, order)
  {
    assert "/" + "ipfs" + "/" + text == "/ipfs/" + text;
    assert "/" + "ipld" + "/" + text == "/ipld/" + text;
    assert IpfsPlan(x, text, s, "ipld", order) == IpfsPlan(x, text, s, "ipfs", order);
  }

  /** The ipld and the ipfs path of a CID and subpath get the same answer. */
  lemma NamespacesAgree(x: Codecs, rules: seq<Rule>, text: string, rest: seq<string>, order: seq<nat>)
    requires var s := Join(rest, "/");
             !("/" <= s) && x.newPath(Behind("/ipfs/" + text, s)).Some? && x.newPath(Behind("/ipld/" + text, s)).Some?
    ensures Reference(rules, PathPlan(x, ["ipld", text] + rest, order)) == Reference(rules, PathPlan(x, ["ipfs", text] + rest, order))
  {
    assert (["ipld", text] + rest)[2..] == rest == (["ipfs", text] + rest)[2..];
    SameCidPlan(x, text, Join(rest, "/"), order);
  }
}
