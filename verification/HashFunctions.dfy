/** The double-hash functions in use, and the answers of those that no rule uses. */
module HashFunctions {
  import opened GoStrings
  import opened Entries
  import opened Multiformats
  import opened Rules
  import opened Index
  import opened Lookup
  import opened QueryLaws

  /** The functions of a rule's keys. */
  predicate RuleUses(r: Rule, code: nat) {
    r.target.OnDoubleHash? && exists i | 0 <= i < |r.target.keys| :: r.target.keys[i].code == code
  }

  ghost predicate UsesOnly(rules: seq<Rule>, codes: set<nat>) {
    forall i, code | 0 <= i < |rules| && RuleUses(rules[i], code) :: code in codes
  }

  // ---- a denylist keeps a store for every function its rules use, and for no other ----

  lemma {:induction false} KeysPut(x: Codecs, double: map<nat, Multimap>, e: Entry, keys: seq<HashKey>, code: nat)
    ensures code in PutHashKeys(x, double, e, keys) <==>
            code in double || exists i | 0 <= i < |keys| :: keys[i].code == code
  {
    if keys == [] {
    } else {
      var front := keys[..|keys| - 1];
      KeysPut(x, double, e, front, code);
      assert forall i | 0 <= i < |front| :: keys[i] == front[i];
    }
  }

  lemma {:induction false} StoresAreUsed(x: Codecs, rules: seq<Rule>, code: nat)
    ensures code in IndexOf(x, rules).doubleHash <==> exists i | 0 <= i < |rules| :: RuleUses(rules[i], code)
  {
    if rules == [] {
    } else {
      var front, last := rules[..|rules| - 1], rules[|rules| - 1];
      StoresAreUsed(x, front, code);
      assert forall i | 0 <= i < |front| :: rules[i] == front[i];
      if last.target.OnDoubleHash? {
        KeysPut(x, IndexOf(x, front).doubleHash, last.entry, last.target.keys, code);
      }
    }
  }

  /** The functions with a store are those, and only those, that the rules use. */
  lemma InUse(x: Codecs, rules: seq<Rule>)
    ensures UsesOnly(rules, IndexOf(x, rules).doubleHash.Keys)
    ensures forall code | code in IndexOf(x, rules).doubleHash.Keys :: exists i | 0 <= i < |rules| :: RuleUses(rules[i], code)
  {
    forall code ensures code in IndexOf(x, rules).doubleHash <==> exists i | 0 <= i < |rules| :: RuleUses(rules[i], code) {
      StoresAreUsed(x, rules, code);
    }
  }

  // ---- other functions answer NotFound ----

  /** A function that no rule uses finds nothing. */
  lemma UnusedFunctionMisses(x: Codecs, rules: seq<Rule>, codes: set<nat>, key: string, code: nat)
    requires UsesOnly(rules, codes) && code !in codes
    ensures Reference(rules, HashProbes(x, key, code)) == NotFound
  {
    ReferenceOfNothing(rules);
    match x.sum(key, code) {
      case None =>
      case Some(m) =>
        var probe := HashProbe(HashKey(code, m));
        forall r | r in rules ensures !Hits(r, probe) {
          var i :| 0 <= i < |rules| && rules[i] == r;
          assert !RuleUses(rules[i], code);
        }
        OthersDoNotMatter([], rules, probe);
        assert [] + rules == rules;
        ReferenceOfOne(rules, probe);
    }
  }

  /** Those functions of an order that are among the given ones. */
  function Only(order: seq<nat>, codes: set<nat>): (only: seq<nat>)
    ensures forall c :: c in only <==> c in order && c in codes
  {
    if order == [] then []
    else if order[0] in codes then [order[0]] + Only(order[1..], codes)
    else Only(order[1..], codes)
  }

  predicate NoRepeats(order: seq<nat>) {
    forall i, j | 0 <= i < j < |order| :: order[i] != order[j]
  }

  lemma {:induction false} OnlyOnce(order: seq<nat>, codes: set<nat>)
    requires NoRepeats(order)
    ensures NoRepeats(Only(order, codes))
  {
    if order == [] {
    } else {
      OnlyOnce(order[1..], codes);
      assert order[0] !in order[1..];
    }
  }

  lemma {:induction false} UnusedDoNotMatter(x: Codecs, rules: seq<Rule>, codes: set<nat>, key: string, order: seq<nat>)
    requires UsesOnly(rules, codes)
    ensures Reference(rules, AllHashProbes(x, key, order)) == Reference(rules, AllHashProbes(x, key, Only(order, codes)))
  {
    if order == [] {
    } else {
      UnusedDoNotMatter(x, rules, codes, key, order[1..]);
      var first, rest := HashProbes(x, key, order[0]), AllHashProbes(x, key, order[1..]);
      ReferenceOfConcat(rules, first, rest);
      if order[0] in codes {
        var only := Only(order, codes);
        assert only[1..] == Only(order[1..], codes);
        ReferenceOfConcat(rules, first, AllHashProbes(x, key, only[1..]));
      } else {
        UnusedFunctionMisses(x, rules, codes, key, order[0]);
      }
    }
  }

  // ---- whole queries ----

  lemma SameBehind(rules: seq<Rule>, front: seq<Probe>, a: seq<Probe>, b: seq<Probe>)
    requires Reference(rules, a) == Reference(rules, b)
    ensures Reference(rules, front + a) == Reference(rules, front + b)
  {
    ReferenceOfConcat(rules, front, a);
    ReferenceOfConcat(rules, front, b);
  }

  lemma CidHashesInUse(x: Codecs, rules: seq<Rule>, codes: set<nat>, c: Cid, subpath: string, order: seq<nat>)
    requires UsesOnly(rules, codes)
    ensures Reference(rules, HashPlan(x, c, subpath, order)) == Reference(rules, HashPlan(x, c, subpath, Only(order, codes)))
  {
    match x.cidV1Base32(c.codec, c.hash) {
      case None =>
      case Some(b32) =>
        var key := WithSubpath(x.toB58(c.hash), subpath);
        UnusedDoNotMatter(x, rules, codes, key, order);
        SameBehind(rules, HashProbes(x, b32 + "/" + subpath, SHA2_256),
                   AllHashProbes(x, key, order), AllHashProbes(x, key, Only(order, codes)));
    }
  }

  /** A CID query is answered by the functions in use, whatever others its order has. */
  lemma CidQueryInUse(x: Codecs, rules: seq<Rule>, codes: set<nat>, c: Cid, order: seq<nat>)
    requires UsesOnly(rules, codes)
    ensures Reference(rules, CidPlan(x, c, order)) == Reference(rules, CidPlan(x, c, Only(order, codes)))
  {
    CidHashesInUse(x, rules, codes, c, "", order);
    SameBehind(rules, [CidProbe(c.hash, "")], HashPlan(x, c, "", order), HashPlan(x, c, "", Only(order, codes)));
  }

  lemma IpfsQueryInUse(x: Codecs, rules: seq<Rule>, codes: set<nat>, cidText: string, rawSubpath: string,
                       protocol: string, order: seq<nat>)
    requires UsesOnly(rules, codes)
    ensures Reference(rules, IpfsPlan(x, cidText, rawSubpath, protocol, order))
         == Reference(rules, IpfsPlan(x, cidText, rawSubpath, protocol, Only(order, codes)))
  {
    var subpath := TrimPrefix(rawSubpath, "/");
    match x.decodeCid(cidText) {
      case None =>
      case Some(c) =>
        CidHashesInUse(x, rules, codes, c, subpath, order);
        SameBehind(rules, [CidProbe(c.hash, subpath)], HashPlan(x, c, subpath, order), HashPlan(x, c, subpath, Only(order, codes)));
    }
  }

  lemma NameHashesInUse(x: Codecs, rules: seq<Rule>, codes: set<nat>, name: string, subpath: string, p: string, order: seq<nat>)
    requires UsesOnly(rules, codes)
    ensures Reference(rules, NameHashPlan(x, name, subpath, p, order))
         == Reference(rules, NameHashPlan(x, name, subpath, p, Only(order, codes)))
  {
    match x.decodeCid(name) {
      case Some(c) => CidHashesInUse(x, rules, codes, c, subpath, order);
      case None =>
        UnusedDoNotMatter(x, rules, codes, p, order);
        SameBehind(rules, HashProbes(x, name + "/" + subpath, SHA2_256),
                   AllHashProbes(x, p, order), AllHashProbes(x, p, Only(order, codes)));
    }
  }

  lemma IpnsQueryInUse(x: Codecs, rules: seq<Rule>, codes: set<nat>, name: string, rawSubpath: string, order: seq<nat>)
    requires UsesOnly(rules, codes)
    ensures Reference(rules, IpnsPlan(x, name, rawSubpath, order))
         == Reference(rules, IpnsPlan(x, name, rawSubpath, Only(order, codes)))
  {
    var subpath := TrimPrefix(rawSubpath, "/");
    match x.newPath(WithSubpath("/ipns/" + name, subpath)) {
      case None =>
      case Some(p) =>
        NameHashesInUse(x, rules, codes, name, subpath, p, order);
        SameBehind(rules, [NameProbe(NameQueryKey(x, name), subpath)],
                   NameHashPlan(x, name, subpath, p, order), NameHashPlan(x, name, subpath, p, Only(order, codes)));
    }
  }

  lemma ProtocolQueryInUse(x: Codecs, rules: seq<Rule>, codes: set<nat>, protocol: string, key: string, subpath: string, order: seq<nat>)
    requires UsesOnly(rules, codes)
    ensures Reference(rules, ProtocolPlan(x, protocol, key, subpath, order))
         == Reference(rules, ProtocolPlan(x, protocol, key, subpath, Only(order, codes)))
  {
    if protocol == "ipns" {
      IpnsQueryInUse(x, rules, codes, key, subpath, order);
    } else if protocol == "ipfs" || protocol == "ipld" {
      IpfsQueryInUse(x, rules, codes, key, subpath, protocol, order);
    }
  }

  /**
    A path query is answered by the functions in use, whatever others its order has: an order that
    comes up during a live query gives, for the rules at its start, the answer of an order at its start.
   */
  lemma PathQueryInUse(x: Codecs, rules: seq<Rule>, codes: set<nat>, segments: seq<string>, order: seq<nat>)
    requires UsesOnly(rules, codes)
    ensures Reference(rules, PathPlan(x, segments, order)) == Reference(rules, PathPlan(x, segments, Only(order, codes)))
  {
    if |segments| >= 2 {
      var subpath := Join(segments[2..], "/");
      ProtocolQueryInUse(x, rules, codes, segments[0], segments[1], subpath, order);
      SameBehind(rules, if subpath == "" then [] else SubpathPlan(subpath),
                 ProtocolPlan(x, segments[0], segments[1], subpath, order),
                 ProtocolPlan(x, segments[0], segments[1], subpath, Only(order, codes)));
    }
  }
}
