/** Laws of the answers that a denylist gives. */
module QueryLaws {
  import opened Options
  import opened GoStrings
  import opened Entries
  import opened Multiformats
  import opened Rules
  import opened Lookup

  predicate SameStatus(a: Answer, b: Answer) {
    a.NotFound? == b.NotFound? && a.Blocked? == b.Blocked? && a.Allowed? == b.Allowed?
  }

  // ---- later rules override earlier ones ----

  /** Rules that a probe does not hit leave its answer alone. */
  lemma {:induction false} OthersDoNotMatter(rules: seq<Rule>, more: seq<Rule>, probe: Probe)
    requires forall r | r in more :: !Hits(r, probe)
    ensures Scan(rules + more, probe) == Scan(rules, probe)
  {
    if more == [] {
      assert rules + more == rules;
    } else {
      var all := rules + more;
      assert all[|all| - 1] == more[|more| - 1] && more[|more| - 1] in more;
      assert all[..|all| - 1] == rules + more[..|more| - 1];
      OthersDoNotMatter(rules, more[..|more| - 1], probe);
    }
  }

  /** A rule, in particular an exception, overrides every earlier rule until a later one hits again. */
  lemma RuleOverrides(before: seq<Rule>, r: Rule, after: seq<Rule>, probe: Probe)
    requires !probe.Fail? && Hits(r, probe)
    requires forall q | q in after :: !Hits(q, probe)
    ensures Scan(before + [r] + after, probe) == Verdict(Reported(r, probe))
  {
    OthersDoNotMatter(before + [r], after, probe);
  }

  /** Rules that no probe of the query hits leave the answer to the whole query alone. */
  lemma QueryUnchanged(rules: seq<Rule>, more: seq<Rule>, plan: seq<Probe>)
    requires forall r, probe | r in more && probe in plan :: !Hits(r, probe)
    ensures Reference(rules + more, plan) == Reference(rules, plan)
  {
    forall i | 0 <= i < |plan| ensures Scan(rules + more, plan[i]) == Scan(rules, plan[i]) {
      OthersDoNotMatter(rules, more, plan[i]);
    }
    assert Scans(rules + more, plan) == Scans(rules, plan);
  }

  /** Probe i is the first of the plan that the rule hits. */
  predicate FirstHitAt(r: Rule, plan: seq<Probe>, i: nat) {
    i < |plan| && Hits(r, plan[i]) && forall j | 0 <= j < i :: !Hits(r, plan[j])
  }

  lemma SplitAt<T>(s: seq<T>, i: nat)
    requires i < |s|
    ensures s == s[..i] + ([s[i]] + s[i + 1..])
    ensures s[i] in s[..i + 1] && forall e | e in s[..i] :: e in s[..i + 1]
  {
    assert s[..i + 1] == s[..i] + [s[i]];
  }

  /** To the probes before the first that it hits, a rule makes no difference. */
  lemma TiersBefore(before: seq<Rule>, r: Rule, after: seq<Rule>, plan: seq<Probe>, i: nat)
    requires FirstHitAt(r, plan, i)
    requires forall q, probe | q in after && probe in plan[..i] :: !Hits(q, probe)
    ensures Reference(before + [r] + after, plan[..i]) == Reference(before, plan[..i])
  {
    forall q, probe | q in [r] + after && probe in plan[..i] ensures !Hits(q, probe) {
      if q !in after {
        assert q == r;
      }
    }
    QueryUnchanged(before, [r] + after, plan[..i]);
    assert before + [r] + after == before + ([r] + after);
  }

  /**
    What one rule does to a whole query: it decides, overriding all earlier rules and later tiers,
    unless a tier before the first that it hits was defined already. So it does until later rules hit.
   */
  lemma RuleDecidesQuery(before: seq<Rule>, r: Rule, after: seq<Rule>, plan: seq<Probe>, i: nat)
    requires FirstHitAt(r, plan, i)
    requires forall q, probe | q in after && probe in plan[..i + 1] :: !Hits(q, probe)
    ensures Reference(before + [r] + after, plan)
         == if Reference(before, plan[..i]).Defined() then Reference(before, plan[..i]) else Verdict(Reported(r, plan[i]))
  {
    var rules := before + [r] + after;
    SplitAt(plan, i);
    TiersBefore(before, r, after, plan, i);
    RuleOverrides(before, r, after, plan[i]);
    ReferenceOfConcat(rules, plan[..i], [plan[i]] + plan[i + 1..]);
    ReferenceOfCons(rules, plan[i], plan[i + 1..]);
  }

  /** A defined answer comes from a rule that the probe hits. */
  lemma {:induction false} AnswerComesFromRule(rules: seq<Rule>, probe: Probe) returns (i: nat)
    requires !probe.Fail? && Scan(rules, probe).Defined()
    ensures i < |rules| && Hits(rules[i], probe) && Scan(rules, probe) == Verdict(Reported(rules[i], probe))
  {
    i := |rules| - 1;
    if !Hits(rules[i], probe) {
      i := AnswerComesFromRule(rules[..i], probe);
    }
  }

  // ---- the two routes to a CID ----

  lemma PlanWithoutSubpath(x: Codecs, protocol: string, text: string, order: seq<nat>)
    ensures PathPlan(x, [protocol, text], order) == ProtocolPlan(x, protocol, text, "", order)
  {
    assert [protocol, text][2..] == [];
    assert [] + ProtocolPlan(x, protocol, text, "", order) == ProtocolPlan(x, protocol, text, "", order);
  }

  /** Asking for a CID and asking for its path of two segments, ipfs or ipld, is the same question. */
  lemma RoutesAgree(x: Codecs, rules: seq<Rule>, protocol: string, text: string, c: Cid, order: seq<nat>)
    requires protocol in {"ipfs", "ipld"} && x.decodeCid(text) == Some(c)
    requires x.newPath("/" + protocol + "/" + text).Some?
    ensures Reference(rules, PathPlan(x, [protocol, text], order)) == Reference(rules, CidPlan(x, c, order))
  {
    PlanWithoutSubpath(x, protocol, text, order);
    assert TrimPrefix("", "/") == "";
    assert IpfsPlan(x, text, "", protocol, order) == CidPlan(x, c, order);
  }

  function LegacyPlan(x: Codecs, c: Cid): seq<Probe> {
    match x.cidV1Base32(c.codec, c.hash)
    case None => [Fail]
    case Some(b32) => HashProbes(x, b32 + "/" + "", SHA2_256)
  }

  /** CIDs with the same multihash get the same answer whenever the legacy lookup misses for both. */
  lemma SameHashSameAnswer(x: Codecs, rules: seq<Rule>, c: Cid, d: Cid, order: seq<nat>)
    requires c.hash == d.hash
    requires Reference(rules, LegacyPlan(x, c)) == NotFound == Reference(rules, LegacyPlan(x, d))
    ensures Reference(rules, CidPlan(x, c, order)) == Reference(rules, CidPlan(x, d, order))
  {
    CidAnswerWithoutLegacy(x, rules, c, order);
    CidAnswerWithoutLegacy(x, rules, d, order);
  }

  lemma CidAnswerWithoutLegacy(x: Codecs, rules: seq<Rule>, c: Cid, order: seq<nat>)
    requires Reference(rules, LegacyPlan(x, c)) == NotFound
    ensures Reference(rules, CidPlan(x, c, order))
         == Reference(rules, [CidProbe(c.hash, "")] + AllHashProbes(x, x.toB58(c.hash), order))
  {
    ReferenceOfOne(rules, Fail);
    var modern := AllHashProbes(x, x.toB58(c.hash), order);
    ReferenceOfConcat(rules, LegacyPlan(x, c), modern);
    ReferenceOfCons(rules, CidProbe(c.hash, ""), HashPlan(x, c, "", order));
    ReferenceOfCons(rules, CidProbe(c.hash, ""), modern);
  }

  // ---- the first defined answer ----

  predicate FirstDefinedAt(answers: seq<Answer>, i: nat) {
    i < |answers| && answers[i].Defined() && forall j | 0 <= j < i :: !answers[j].Defined()
  }

  lemma {:induction false} FirstDefinedIs(answers: seq<Answer>) returns (i: nat)
    ensures FirstDefined(answers) == NotFound ==> forall j | 0 <= j < |answers| :: !answers[j].Defined()
    ensures FirstDefined(answers) != NotFound ==> FirstDefinedAt(answers, i) && FirstDefined(answers) == answers[i]
  {
    i := 0;
    if answers == [] || answers[0].Defined() {
    } else {
      var k := FirstDefinedIs(answers[1..]);
      i := k + 1;
      assert forall j | 1 <= j < |answers| :: answers[j] == answers[1..][j - 1];
    }
  }

  lemma {:induction false} FirstDefinedFrom(answers: seq<Answer>, i: nat)
    requires FirstDefinedAt(answers, i)
    ensures FirstDefined(answers) == answers[i]
  {
    if i == 0 {
    } else {
      FirstDefinedFrom(answers[1..], i - 1);
    }
  }

  lemma {:induction false} AllUndefined(answers: seq<Answer>)
    requires forall j | 0 <= j < |answers| :: !answers[j].Defined()
    ensures FirstDefined(answers) == NotFound
  {
    if answers == [] {
    } else {
      AllUndefined(answers[1..]);
    }
  }

  // ---- order independence ----

  ghost predicate Agreeing(answers: seq<Answer>) {
    forall a, b | a in answers && b in answers && a.Defined() && b.Defined() :: SameStatus(a, b)
  }

  lemma PermutedMembers<T>(a: seq<T>, b: seq<T>)
    requires multiset(a) == multiset(b)
    ensures forall e :: e in a <==> e in b
  {
    forall e ensures e in a <==> e in b {
      assert e in a <==> e in multiset(a);
      assert e in b <==> e in multiset(b);
    }
  }

  /** In whatever order lists or hash functions come up, NotFound means all miss, and any other answer is one of theirs. */
  lemma FirstDefinedOfPermutation(a: seq<Answer>, b: seq<Answer>)
    requires multiset(a) == multiset(b)
    ensures FirstDefined(b) == NotFound <==> forall e | e in a :: !e.Defined()
    ensures FirstDefined(b) != NotFound ==> FirstDefined(b) in a && FirstDefined(b).Defined()
  {
    PermutedMembers(a, b);
    var i := FirstDefinedIs(b);
    if forall e | e in a :: !e.Defined() {
      AllUndefined(b);
    }
    if FirstDefined(b) == NotFound {
      forall e | e in a ensures !e.Defined() {
        assert e in b;
      }
    }
  }

  lemma BringToFront<T>(a: seq<T>, e: T) returns (b: seq<T>)
    requires e in a
    ensures multiset(b) == multiset(a) && b != [] && b[0] == e
  {
    var i :| 0 <= i < |a| && a[i] == e;
    b := [e] + (a[..i] + a[i + 1..]);
    assert a == a[..i] + [e] + a[i + 1..];
  }

  /** All orders give the same status exactly when the defined answers agree. */
  lemma StatusIndependentOfOrder(a: seq<Answer>)
    ensures Agreeing(a) <==>
            forall b, c | multiset(b) == multiset(a) && multiset(c) == multiset(a) ::
              SameStatus(FirstDefined(b), FirstDefined(c))
  {
    if Agreeing(a) {
      forall b, c | multiset(b) == multiset(a) && multiset(c) == multiset(a)
        ensures SameStatus(FirstDefined(b), FirstDefined(c))
      {
        FirstDefinedOfPermutation(a, b);
        FirstDefinedOfPermutation(a, c);
      }
    } else {
      var d, e :| d in a && e in a && d.Defined() && e.Defined() && !SameStatus(d, e);
      var b := BringToFront(a, d);
      var c := BringToFront(a, e);
      assert FirstDefined(b) == d && FirstDefined(c) == e;
    }
  }

  /** The answers of named sources, in the order in which the sources come up. */
  function Listed<T>(answers: map<T, Answer>, order: seq<T>): seq<Answer>
    requires forall o | o in order :: o in answers
  {
    if order == [] then [] else [answers[order[0]]] + Listed(answers, order[1..])
  }

  lemma {:induction false} ListedWithout<T>(answers: map<T, Answer>, order: seq<T>, i: nat)
    requires i < |order| && forall o | o in order :: o in answers
    ensures multiset(Listed(answers, order))
         == multiset(Listed(answers, order[..i] + order[i + 1..])) + multiset{answers[order[i]]}
  {
    var rest := order[..i] + order[i + 1..];
    if i == 0 {
      assert rest == order[1..];
    } else {
      ListedWithout(answers, order[1..], i - 1);
      assert rest[1..] == order[1..][..i - 1] + order[1..][i..];
    }
  }

  lemma {:induction false} PermutedListed<T>(answers: map<T, Answer>, a: seq<T>, b: seq<T>)
    requires multiset(a) == multiset(b)
    requires (forall o | o in a :: o in answers) && (forall o | o in b :: o in answers)
    ensures multiset(Listed(answers, a)) == multiset(Listed(answers, b))
    decreases |a|
  {
    if a == [] {
      assert |multiset(b)| == 0;
    } else {
      assert a[0] in multiset(a);
      var i := IndexOfMember(b, a[0]);
      var restA, restB := a[..0] + a[1..], b[..i] + b[i + 1..];
      assert multiset(restA) == multiset(restB) by {
        SameRest(a, b, i);
      }
      PermutedListed(answers, restA, restB);
      assert multiset(Listed(answers, a)) == multiset(Listed(answers, restA)) + multiset{answers[a[0]]} by {
        ListedWithout(answers, a, 0);
      }
      assert multiset(Listed(answers, b)) == multiset(Listed(answers, restB)) + multiset{answers[b[i]]} by {
        ListedWithout(answers, b, i);
      }
    }
  }

  lemma IndexOfMember<T>(s: seq<T>, e: T) returns (i: nat)
    requires e in multiset(s)
    ensures i < |s| && s[i] == e
  {
    assert e in s;
    i :| 0 <= i < |s| && s[i] == e;
  }

  lemma SameRest<T>(a: seq<T>, b: seq<T>, i: nat)
    requires multiset(a) == multiset(b) && a != [] && i < |b| && b[i] == a[0]
    ensures multiset(a[..0] + a[1..]) == multiset(b[..i] + b[i + 1..])
  {
    Without(a, 0);
    Without(b, i);
  }

  lemma Without<T>(s: seq<T>, i: nat)
    requires i < |s|
    ensures multiset(s[..i] + s[i + 1..]) == multiset(s) - multiset{s[i]}
  {
    assert s == s[..i] + [s[i]] + s[i + 1..];
  }

  /** An order in which the same sources may come up. */
  ghost predicate Reordered<T(!new)>(answers: map<T, Answer>, a: seq<T>, b: seq<T>) {
    multiset(b) == multiset(a) && forall o | o in b :: o in answers
  }

  /** NotFound in one order of the sources exactly when in the other. */
  lemma MissInAllOrders<T(!new)>(answers: map<T, Answer>, a: seq<T>, b: seq<T>)
    requires Reordered(answers, a, a) && Reordered(answers, a, b)
    ensures FirstDefined(Listed(answers, a)) == NotFound <==> FirstDefined(Listed(answers, b)) == NotFound
  {
    PermutedListed(answers, a, b);
    FirstDefinedOfPermutation(Listed(answers, a), Listed(answers, a));
    FirstDefinedOfPermutation(Listed(answers, a), Listed(answers, b));
  }

  /** All orders of the sources give the same status exactly when the sources' defined answers agree. */
  lemma OrderOfSources<T(!new)>(answers: map<T, Answer>, a: seq<T>)
    requires Reordered(answers, a, a)
    ensures Agreeing(Listed(answers, a)) <==>
            forall b, c | Reordered(answers, a, b) && Reordered(answers, a, c) ::
              SameStatus(FirstDefined(Listed(answers, b)), FirstDefined(Listed(answers, c)))
  {
    if Agreeing(Listed(answers, a)) {
      forall b, c | Reordered(answers, a, b) && Reordered(answers, a, c)
        ensures SameStatus(FirstDefined(Listed(answers, b)), FirstDefined(Listed(answers, c)))
      {
        PermutedListed(answers, a, b);
        PermutedListed(answers, a, c);
        StatusIndependentOfOrder(Listed(answers, a));
      }
    } else {
      var d, e :| d in Listed(answers, a) && e in Listed(answers, a) && d.Defined() && e.Defined() && !SameStatus(d, e);
      var b := SourceFirst(answers, a, d);
      var c := SourceFirst(answers, a, e);
      assert Reordered(answers, a, b) && Reordered(answers, a, c);
    }
  }

  /** Some order brings a source with this answer to the front. */
  lemma SourceFirst<T(!new)>(answers: map<T, Answer>, a: seq<T>, d: Answer) returns (b: seq<T>)
    requires Reordered(answers, a, a) && d in Listed(answers, a) && d.Defined()
    ensures Reordered(answers, a, b) && FirstDefined(Listed(answers, b)) == d
  {
    var o := SourceOf(answers, a, d);
    b := BringToFront(a, o);
    PermutedMembers(a, b);
  }

  lemma {:induction false} SourceOf<T(!new)>(answers: map<T, Answer>, a: seq<T>, d: Answer) returns (o: T)
    requires (forall o | o in a :: o in answers) && d in Listed(answers, a)
    ensures o in a && answers[o] == d
  {
    if answers[a[0]] == d {
      o := a[0];
    } else {
      o := SourceOf(answers, a[1..], d);
    }
  }

  // ---- the order of the hash functions ----

  function HashAnswers(x: Codecs, rules: seq<Rule>, key: string, order: seq<nat>): map<nat, Answer> {
    map c | c in order :: Reference(rules, HashProbes(x, key, c))
  }

  lemma {:induction false} DoubleHashIsFirstDefined(x: Codecs, rules: seq<Rule>, key: string, order: seq<nat>, answers: map<nat, Answer>)
    requires forall c | c in order :: c in answers && answers[c] == Reference(rules, HashProbes(x, key, c))
    ensures Reference(rules, AllHashProbes(x, key, order)) == FirstDefined(Listed(answers, order))
  {
    ReferenceOfNothing(rules);
    if order == [] {
    } else {
      ReferenceOfConcat(rules, HashProbes(x, key, order[0]), AllHashProbes(x, key, order[1..]));
      DoubleHashIsFirstDefined(x, rules, key, order[1..], answers);
    }
  }

  function InOrder(x: Codecs, rules: seq<Rule>, key: string, order: seq<nat>): Answer {
    Reference(rules, AllHashProbes(x, key, order))
  }

  lemma InOrderIsListed(x: Codecs, rules: seq<Rule>, key: string, a: seq<nat>, b: seq<nat>)
    requires multiset(b) == multiset(a)
    ensures Reordered(HashAnswers(x, rules, key, a), a, b)
    ensures InOrder(x, rules, key, b) == FirstDefined(Listed(HashAnswers(x, rules, key, a), b))
  {
    PermutedMembers(a, b);
    DoubleHashIsFirstDefined(x, rules, key, b, HashAnswers(x, rules, key, a));
  }

  /** The double-hash tier answers NotFound in one order of its functions exactly when it does in every other. */
  lemma DoubleHashMiss(x: Codecs, rules: seq<Rule>, key: string, a: seq<nat>, b: seq<nat>)
    requires multiset(b) == multiset(a)
    ensures InOrder(x, rules, key, a) == NotFound <==> InOrder(x, rules, key, b) == NotFound
  {
    InOrderIsListed(x, rules, key, a, a);
    InOrderIsListed(x, rules, key, a, b);
    MissInAllOrders(HashAnswers(x, rules, key, a), a, b);
  }

  /** The tier gives one status in all orders of its functions. */
  ghost predicate OneStatus(x: Codecs, rules: seq<Rule>, key: string, a: seq<nat>) {
    forall b: seq<nat>, c: seq<nat> | multiset(b) == multiset(a) && multiset(c) == multiset(a) ::
      SameStatus(InOrder(x, rules, key, b), InOrder(x, rules, key, c))
  }

  /** It does exactly when the defined answers of the functions agree. */
  lemma DoubleHashOrder(x: Codecs, rules: seq<Rule>, key: string, a: seq<nat>)
    ensures Agreeing(Listed(HashAnswers(x, rules, key, a), a)) <==> OneStatus(x, rules, key, a)
  {
    var answers := HashAnswers(x, rules, key, a);
    InOrderIsListed(x, rules, key, a, a);
    OrderOfSources(answers, a);
    if Agreeing(Listed(answers, a)) {
      forall b: seq<nat>, c: seq<nat> | multiset(b) == multiset(a) && multiset(c) == multiset(a)
        ensures SameStatus(InOrder(x, rules, key, b), InOrder(x, rules, key, c))
      {
        InOrderIsListed(x, rules, key, a, b);
        InOrderIsListed(x, rules, key, a, c);
      }
    } else {
      var b, c :| Reordered(answers, a, b) && Reordered(answers, a, c)
                  && !SameStatus(FirstDefined(Listed(answers, b)), FirstDefined(Listed(answers, c)));
      InOrderIsListed(x, rules, key, a, b);
      InOrderIsListed(x, rules, key, a, c);
    }
  }
}
