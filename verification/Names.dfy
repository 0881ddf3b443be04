/** IPNS rules and the names that reach them. */
module Names {
  import opened Options
  import opened GoStrings
  import opened Entries
  import opened Multiformats
  import opened Rules
  import opened DnsLink
  import opened Lookup
  import opened QueryLaws
  import opened LiveQueries

  lemma {:induction false} NoDashNoChange(name: string)
    requires IsAscii(name) && '-' !in name
    ensures ToFqdn(name) == name
  {
    if name == "" {
    } else {
      NoDashNoChange(name[1..]);
      assert [name[0]] + name[1..] == name;
    }
  }

  function Dashes(n: nat): string {
    seq(n, _ => '-')
  }

  lemma {:induction false} NeverMoreDashes(name: string, n: nat)
    requires IsBytes(name) && n > 0
    ensures ToFqdn(name) != Dashes(n) + name
    decreases |name|
  {
    var more := Dashes(n) + name;
    if name == "" {
      assert |more| == n;
    } else if "--" <= name {
      NeverMoreDashes(name[2..], n + 1);
      assert more[1..] == Dashes(n + 1) + name[2..];
      assert ToFqdn(name)[1..] == ToFqdn(name[2..]);
    } else {
      assert more[0] == '-';
    }
  }

  predicate IsHigh(s: string) {
    s != "" && forall i | 0 <= i < |s| :: 128 <= s[i] as int < 256
  }

  lemma ShiftHigh(high: string, wide: string, rest: string)
    requires IsHigh(high) && IsHigh(wide)
    ensures (high + (wide + rest))[1..] == (high[1..] + wide) + rest && IsHigh(high[1..] + wide)
  {
  }

  lemma WideIsHigh(c: char)
    requires 128 <= c as int < 256
    ensures IsHigh(WriteRune(c))
  {
  }

  lemma {:induction false} NeverFewerHighBytes(name: string, high: string)
    requires IsHigh(high)
    ensures name != high + ToFqdn(name)
    decreases |name|
  {
    if name == "" || name[0] != high[0] {
    } else {
      WideIsHigh(name[0]);
      ShiftHigh(high, WriteRune(name[0]), ToFqdn(name[1..]));
      NeverFewerHighBytes(name[1..], high[1..] + WriteRune(name[0]));
      assert ToFqdn(name) == WriteRune(name[0]) + ToFqdn(name[1..]);
    }
  }

  lemma HighByteChanges(name: string)
    requires IsBytes(name) && name != "" && name[0] as int >= 128
    ensures ToFqdn(name) != name
  {
    var w := WriteRune(name[0]);
    NeverFewerHighBytes(name[1..], [w[1]]);
    assert ToFqdn(name)[1..] == [w[1]] + ToFqdn(name[1..]);
  }

  /** Decoding leaves a name alone exactly when it is ASCII without a dash. */
  lemma {:induction false} UnchangedExactly(name: string)
    requires IsBytes(name)
    ensures ToFqdn(name) == name <==> '-' !in name && IsAscii(name)
  {
    if '-' !in name && IsAscii(name) {
      NoDashNoChange(name);
    } else if "--" <= name {
      NeverMoreDashes(name[2..], 1);
      assert name[1..] == Dashes(1) + name[2..];
      assert ToFqdn(name)[1..] == ToFqdn(name[2..]);
    } else if name[0] == '-' {
      assert ToFqdn(name)[0] == '.';
    } else if name[0] as int >= 128 {
      HighByteChanges(name);
    } else {
      UnchangedExactly(name[1..]);
      assert name == [name[0]] + name[1..];
      assert ToFqdn(name)[1..] == ToFqdn(name[1..]);
    }
  }

  /**
    A rule for a name is found by a query for the same name exactly when it is a CID, has a dot,
    or is ASCII without a dash.
   */
  lemma FoundByOwnName(x: Codecs, r: Rule, name: string, s: string)
    requires IsBytes(name) && r.target == OnName(NameKey(x, name)) && r.entry.path.Matches(s)
    ensures Hits(r, NameProbe(NameQueryKey(x, name), s)) <==>
            x.decodeCid(name).Some? || '.' in name || ('-' !in name && IsAscii(name))
  {
    UnchangedExactly(name);
  }

  /**
    The names that are no CIDs and reach a rule for a name that is none: a name with a dot
    reaches its own rule only, a label the rule of the name it encodes.
   */
  lemma ReachingNames(x: Codecs, r: Rule, name: string, q: string, s: string)
    requires IsBytes(name) && IsBytes(q) && x.decodeCid(name) == None == x.decodeCid(q)
    requires r.target == OnName(NameKey(x, name)) && r.entry.path.Matches(s)
    ensures Hits(r, NameProbe(NameQueryKey(x, q), s)) <==>
            if '.' in q then q == name else Decoded(name) && q == ToLabel(name)
  {
    if '.' !in q {
      LabelEncodes(q, name);
    }
  }

  /** A DNSLink label and the name with dots that it encodes. */
  ghost predicate LabelOfName(x: Codecs, host: string, name: string) {
    && '.' !in host && name == ToFqdn(host) && '.' in name
    && x.decodeCid(host) == None == x.decodeCid(name)
  }

  /** The hashes of a name, of which the IPNS path with this subpath can be made. */
  function HashesOfName(x: Codecs, name: string, rawSubpath: string, order: seq<nat>): seq<Probe>
    requires PathExists(x, name, rawSubpath)
  {
    var subpath := TrimPrefix(rawSubpath, "/");
    NameHashPlan(x, name, subpath, x.newPath(WithSubpath("/ipns/" + name, subpath)).value, order)
  }

  predicate PathExists(x: Codecs, name: string, rawSubpath: string) {
    x.newPath(WithSubpath("/ipns/" + name, TrimPrefix(rawSubpath, "/"))).Some?
  }

  /** A label and its name get the same answer when the IPNS tier has one for either. */
  lemma LabelAgreesWithName(x: Codecs, rules: seq<Rule>, host: string, name: string, rawSubpath: string, order: seq<nat>)
    requires LabelOfName(x, host, name)
    requires PathExists(x, host, rawSubpath) && PathExists(x, name, rawSubpath)
    requires Scan(rules, NameProbe(name, TrimPrefix(rawSubpath, "/"))).Defined()
    ensures Reference(rules, IpnsPlan(x, host, rawSubpath, order)) == Reference(rules, IpnsPlan(x, name, rawSubpath, order))
         == Scan(rules, NameProbe(name, TrimPrefix(rawSubpath, "/")))
  {
    var first := NameProbe(name, TrimPrefix(rawSubpath, "/"));
    PlanOfName(x, host, name, rawSubpath, order);
    PlanOfName(x, name, name, rawSubpath, order);
    ReferenceOfCons(rules, first, HashesOfName(x, host, rawSubpath, order));
    ReferenceOfCons(rules, first, HashesOfName(x, name, rawSubpath, order));
  }

  // ---- the double-hash tiers hash what was asked for ----

  predicate HitsSome(r: Rule, plan: seq<Probe>) {
    exists i | 0 <= i < |plan| :: Hits(r, plan[i])
  }

  predicate HashesOnly(plan: seq<Probe>) {
    forall i | 0 <= i < |plan| :: plan[i].HashProbe?
  }

  lemma {:induction false} AllAreHashes(x: Codecs, key: string, order: seq<nat>)
    ensures HashesOnly(AllHashProbes(x, key, order))
  {
    if order == [] {
    } else {
      AllAreHashes(x, key, order[1..]);
    }
  }

  lemma NamePlanHashes(x: Codecs, name: string, subpath: string, p: string, order: seq<nat>)
    requires x.decodeCid(name) == None
    ensures HashesOnly(NameHashPlan(x, name, subpath, p, order))
  {
    AllAreHashes(x, p, order);
  }

  lemma {:induction false} NothingHit(rules: seq<Rule>, plan: seq<Probe>)
    requires HashesOnly(plan) && forall r | r in rules :: !HitsSome(r, plan)
    ensures Reference(rules, plan) == NotFound
  {
    if plan == [] {
      ReferenceOfNothing(rules);
    } else {
      forall r | r in rules ensures !HitsSome(r, plan[1..]) && !Hits(r, plan[0]) {
        assert !HitsSome(r, plan);
        assert forall i | 1 <= i < |plan| :: plan[1..][i - 1] == plan[i];
      }
      NothingHit(rules, plan[1..]);
      OthersDoNotMatter([], rules, plan[0]);
      assert [] + rules == rules && plan == [plan[0]] + plan[1..];
      ReferenceOfCons(rules, plan[0], plan[1..]);
    }
  }

  lemma {:induction false} FirstHit(r: Rule, plan: seq<Probe>, n: nat) returns (i: nat)
    requires n < |plan| && Hits(r, plan[n])
    ensures FirstHitAt(r, plan, i)
  {
    if forall j | 0 <= j < n :: !Hits(r, plan[j]) {
      i := n;
    } else {
      var j :| 0 <= j < n && Hits(r, plan[j]);
      i := FirstHit(r, plan, j);
    }
  }

  /** A last rule that alone hits the plan decides it. */
  lemma OnlyRule(front: seq<Rule>, r: Rule, plan: seq<Probe>) returns (i: nat)
    requires HashesOnly(plan) && HitsSome(r, plan) && forall q | q in front :: !HitsSome(q, plan)
    ensures i < |plan| && Hits(r, plan[i])
    ensures Reference(front + [r], plan) == Verdict(Reported(r, plan[i]))
  {
    var n :| 0 <= n < |plan| && Hits(r, plan[n]);
    i := FirstHit(r, plan, n);
    forall q | q in front ensures !HitsSome(q, plan[..i]) {
      assert !HitsSome(q, plan);
      assert forall j | 0 <= j < i :: plan[..i][j] == plan[j];
    }
    NothingHit(front, plan[..i]);
    RuleDecidesQuery(front, r, [], plan, i);
    assert front + [r] + [] == front + [r];
  }

  /** No probe of one plan has the multihash of a probe of the other. */
  predicate HashesApart(a: seq<Probe>, b: seq<Probe>) {
    forall p, q | p in a && q in b && p.HashProbe? && q.HashProbe? :: p.key.mh != q.key.mh
  }

  /** Before every rule that hits one of the plans there is one that the first probe hits. */
  ghost predicate Covered(rules: seq<Rule>, first: Probe, a: seq<Probe>, b: seq<Probe>) {
    forall i | 0 <= i < |rules| && (HitsSome(rules[i], a) || HitsSome(rules[i], b)) :: Scan(rules[..i], first).Defined()
  }

  ghost predicate AlwaysAgree(rules: seq<Rule>, a: seq<Probe>, b: seq<Probe>) {
    forall k | 0 <= k <= |rules| :: Reference(rules[..k], a) == Reference(rules[..k], b)
  }

  lemma AgreeIfCovered(rules: seq<Rule>, k: nat, first: Probe, a: seq<Probe>, b: seq<Probe>)
    requires k <= |rules| && HashesOnly(a) && HashesOnly(b) && Covered(rules, first, a, b)
    ensures Reference(rules[..k], [first] + a) == Reference(rules[..k], [first] + b)
  {
    ReferenceOfCons(rules[..k], first, a);
    ReferenceOfCons(rules[..k], first, b);
    if !Scan(rules[..k], first).Defined() {
      UncoveredHitNothing(rules, k, first, a, b);
      NothingHit(rules[..k], a);
      NothingHit(rules[..k], b);
    }
  }

  /** As long as the first probe is undefined, covered rules hit neither plan. */
  lemma UncoveredHitNothing(rules: seq<Rule>, k: nat, first: Probe, a: seq<Probe>, b: seq<Probe>)
    requires k <= |rules| && !Scan(rules[..k], first).Defined() && Covered(rules, first, a, b)
    ensures forall r | r in rules[..k] :: !HitsSome(r, a) && !HitsSome(r, b)
  {
    forall i | 0 <= i < k ensures !HitsSome(rules[i], a) && !HitsSome(rules[i], b) {
      if Scan(rules[..i], first).Defined() {
        DefinedStays(rules, first, i, k);
      }
    }
  }

  /** With the first probe undefined and nothing hit so far, the last rule answers or nothing does. */
  lemma LastAnswers(front: seq<Rule>, r: Rule, first: Probe, plan: seq<Probe>) returns (i: nat)
    requires HashesOnly(plan) && (forall q | q in front :: !HitsSome(q, plan))
    requires !Scan(front, first).Defined() && !Hits(r, first)
    ensures HitsSome(r, plan) ==> i < |plan| && Hits(r, plan[i])
    ensures Reference(front + [r], [first] + plan) == if HitsSome(r, plan) then Verdict(Reported(r, plan[i])) else NotFound
  {
    OthersDoNotMatter(front, [r], first);
    ReferenceOfCons(front + [r], first, plan);
    i := 0;
    if HitsSome(r, plan) {
      i := OnlyRule(front, r, plan);
    } else {
      NothingHit(front + [r], plan);
    }
  }

  lemma DisagreeWhere(front: seq<Rule>, r: Rule, first: Probe, a: seq<Probe>, b: seq<Probe>)
    requires first.NameProbe? && HashesOnly(a) && HashesOnly(b) && HashesApart(a, b)
    requires !Scan(front, first).Defined() && Covered(front, first, a, b)
    requires HitsSome(r, a) || HitsSome(r, b)
    ensures Reference(front + [r], [first] + a) != Reference(front + [r], [first] + b)
  {
    assert front[..|front|] == front;
    UncoveredHitNothing(front, |front|, first, a, b);
    var i := LastAnswers(front, r, first, a);
    var j := LastAnswers(front, r, first, b);
    if HitsSome(r, a) && HitsSome(r, b) {
      assert a[i] in a && b[j] in b;
    }
  }

  lemma FirstUncovered(rules: seq<Rule>, i: nat, first: Probe, a: seq<Probe>, b: seq<Probe>) returns (j: nat)
    requires i < |rules| && (HitsSome(rules[i], a) || HitsSome(rules[i], b)) && !Scan(rules[..i], first).Defined()
    ensures j < |rules| && (HitsSome(rules[j], a) || HitsSome(rules[j], b)) && !Scan(rules[..j], first).Defined()
    ensures Covered(rules[..j], first, a, b)
    decreases i
  {
    if Covered(rules[..i], first, a, b) {
      j := i;
    } else {
      var k :| 0 <= k < i && (HitsSome(rules[..i][k], a) || HitsSome(rules[..i][k], b)) && !Scan(rules[..i][..k], first).Defined();
      assert rules[..i][..k] == rules[..k];
      j := FirstUncovered(rules, k, first, a, b);
    }
  }

  /** Two plans of hashes behind the same first probe agree, at every point of the file, exactly when all rules that hit them are covered. */
  lemma AgreeExactlyIfCovered(rules: seq<Rule>, first: Probe, a: seq<Probe>, b: seq<Probe>)
    requires first.NameProbe? && HashesOnly(a) && HashesOnly(b) && HashesApart(a, b)
    ensures AlwaysAgree(rules, [first] + a, [first] + b) <==> Covered(rules, first, a, b)
  {
    if Covered(rules, first, a, b) {
      forall k | 0 <= k <= |rules| ensures Reference(rules[..k], [first] + a) == Reference(rules[..k], [first] + b) {
        AgreeIfCovered(rules, k, first, a, b);
      }
    } else {
      var i :| 0 <= i < |rules| && (HitsSome(rules[i], a) || HitsSome(rules[i], b)) && !Scan(rules[..i], first).Defined();
      var j := FirstUncovered(rules, i, first, a, b);
      DisagreeWhere(rules[..j], rules[j], first, a, b);
      assert rules[..j + 1] == rules[..j] + [rules[j]];
    }
  }

  lemma PlanOfName(x: Codecs, asked: string, name: string, rawSubpath: string, order: seq<nat>)
    requires NameQueryKey(x, asked) == name && PathExists(x, asked, rawSubpath) && x.decodeCid(asked) == None
    ensures IpnsPlan(x, asked, rawSubpath, order)
         == [NameProbe(name, TrimPrefix(rawSubpath, "/"))] + HashesOfName(x, asked, rawSubpath, order)
    ensures HashesOnly(HashesOfName(x, asked, rawSubpath, order))
  {
    var subpath := TrimPrefix(rawSubpath, "/");
    NamePlanHashes(x, asked, subpath, x.newPath(WithSubpath("/ipns/" + asked, subpath)).value, order);
  }

  /**
    A label and its name get the same answer at every point of the file exactly when an IPNS rule
    for the name and subpath stands before every double-hash rule that hits a hash of either. The
    hash functions are taken to give the two different multihashes.
   */
  lemma LabelAgreesExactly(x: Codecs, rules: seq<Rule>, host: string, name: string, rawSubpath: string, order: seq<nat>)
    requires LabelOfName(x, host, name) && PathExists(x, host, rawSubpath) && PathExists(x, name, rawSubpath)
    requires HashesApart(HashesOfName(x, host, rawSubpath, order), HashesOfName(x, name, rawSubpath, order))
    ensures AlwaysAgree(rules, IpnsPlan(x, host, rawSubpath, order), IpnsPlan(x, name, rawSubpath, order)) <==>
            Covered(rules, NameProbe(name, TrimPrefix(rawSubpath, "/")),
                    HashesOfName(x, host, rawSubpath, order), HashesOfName(x, name, rawSubpath, order))
  {
    PlanOfName(x, host, name, rawSubpath, order);
    PlanOfName(x, name, name, rawSubpath, order);
    AgreeExactlyIfCovered(rules, NameProbe(name, TrimPrefix(rawSubpath, "/")),
                          HashesOfName(x, host, rawSubpath, order), HashesOfName(x, name, rawSubpath, order));
  }

  /** In any list in which the IPNS tier misses, rules that hit only hashes of the name answer the name and miss the label. */
  lemma HashedNameMissesLabel(x: Codecs, rules: seq<Rule>, host: string, name: string, rawSubpath: string, order: seq<nat>)
    requires LabelOfName(x, host, name) && PathExists(x, host, rawSubpath) && PathExists(x, name, rawSubpath)
    requires !Scan(rules, NameProbe(name, TrimPrefix(rawSubpath, "/"))).Defined()
    requires forall r | r in rules :: !HitsSome(r, HashesOfName(x, host, rawSubpath, order))
    ensures Reference(rules, IpnsPlan(x, host, rawSubpath, order)) == NotFound
    ensures Reference(rules, IpnsPlan(x, name, rawSubpath, order)) == Reference(rules, HashesOfName(x, name, rawSubpath, order))
    ensures Reference(rules, HashesOfName(x, name, rawSubpath, order)) == NotFound <==>
            forall r | r in rules :: !HitsSome(r, HashesOfName(x, name, rawSubpath, order))
  {
    var first := NameProbe(name, TrimPrefix(rawSubpath, "/"));
    var a, b := HashesOfName(x, host, rawSubpath, order), HashesOfName(x, name, rawSubpath, order);
    PlanOfName(x, host, name, rawSubpath, order);
    PlanOfName(x, name, name, rawSubpath, order);
    ReferenceOfCons(rules, first, a);
    ReferenceOfCons(rules, first, b);
    NothingHit(rules, a);
    if forall r | r in rules :: !HitsSome(r, b) {
      NothingHit(rules, b);
    } else {
      var r :| r in rules && HitsSome(r, b);
      SomethingHit(rules, r, b);
    }
  }

  lemma HitIsDefined(rules: seq<Rule>, n: nat, probe: Probe)
    requires n < |rules| && Hits(rules[n], probe)
    ensures Scan(rules, probe).Defined()
  {
    RuleOverrides(rules[..n], rules[n], [], probe);
    assert rules[..n] + [rules[n]] + [] == rules[..n + 1];
    DefinedStays(rules, probe, n + 1, |rules|);
    assert rules[..|rules|] == rules;
  }

  lemma SomethingHit(rules: seq<Rule>, r: Rule, plan: seq<Probe>)
    requires r in rules && HitsSome(r, plan)
    ensures Reference(rules, plan) != NotFound
  {
    var i :| 0 <= i < |plan| && Hits(r, plan[i]);
    var n :| 0 <= n < |rules| && rules[n] == r;
    HitIsDefined(rules, n, plan[i]);
    var _ := FirstDefinedIs(Scans(rules, plan));
    assert Scans(rules, plan)[i].Defined();
  }
}
