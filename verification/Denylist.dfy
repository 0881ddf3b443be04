/** A denylist: the parser that fills its indexes and the lookups that read them. */
module Denylist {
  import opened Options
  import opened GoStrings
  import opened BlockedPaths
  import opened Entries
  import opened Multiformats
  import opened Rules
  import opened Index
  import opened BlocksDB
  import opened DnsLink
  import opened Lookup
  import opened ExactPaths
  import opened Answers
  import opened HashFunctions

  lemma UpdateTwice<K, V>(m: map<K, V>, k: K, v: V, w: V)
    ensures m[k := v][k := w] == m[k := w]
  {
  }

  class Denylist {
    const codecs: Codecs
    const hints: Hints  // of the header

    var entries: seq<Entry>
    const ipfs: BlocksDB
    const ipns: BlocksDB
    var doubleHash: map<nat, BlocksDB>
    const paths: BlocksDB
    var prefixes: seq<Entry>

    ghost var rules: seq<Rule>                  // every rule accepted so far
    ghost var hashContents: map<nat, Multimap>  // what the double-hash stores hold

    /** The objects a denylist is made of. */
    ghost function Repr(): set<object>
      reads this`doubleHash
    {
      {this, ipfs, ipns, paths} + doubleHash.Values
    }

    /** The stores of the hash functions are different and hold `hashContents`. */
    ghost predicate HashHolds()
      reads this`doubleHash, this`hashContents, doubleHash.Values
    {
      && doubleHash.Keys == hashContents.Keys
      && (forall c, d | c in doubleHash && d in doubleHash && c != d :: doubleHash[c] != doubleHash[d])
      && (forall c | c in doubleHash :: doubleHash[c].Valid() && doubleHash[c].Contents() == hashContents[c])
    }

    /** No store serves two indexes, and each is valid. */
    ghost predicate Shape()
      reads this`doubleHash, this`hashContents, ipfs, ipns, paths, doubleHash.Values
    {
      && ipfs != ipns && ipfs != paths && ipns != paths
      && ipfs !in doubleHash.Values && ipns !in doubleHash.Values && paths !in doubleHash.Values
      && ipfs.Valid() && ipns.Valid() && paths.Valid() && HashHolds()
    }

    ghost function Value(): Indexes
      requires ipfs.Valid() && ipns.Valid() && paths.Valid()
      reads this, ipfs, ipns, paths
    {
      Indexes(ipfs.Contents(), ipns.Contents(), paths.Contents(), prefixes, hashContents, entries)
    }

    ghost predicate AllWellFormed()
      reads this`rules
    {
      forall r | r in rules :: WellFormed(codecs, r)
    }

    /** The indexes are those of the rules accepted so far. */
    ghost predicate Valid()
      reads this, ipfs, ipns, paths, doubleHash.Values
    {
      Shape() && Value() == IndexOf(codecs, rules) && AllWellFormed()
    }

    constructor (codecs: Codecs, hints: Hints)
      ensures Valid()
      ensures fresh(this) && fresh(ipfs) && fresh(ipns) && fresh(paths) && doubleHash == map[]
      ensures rules == [] && this.codecs == codecs && this.hints == hints
    {
      this.codecs, this.hints := codecs, hints;
      entries, prefixes, doubleHash, rules, hashContents := [], [], map[], [], map[];
      ipfs := new BlocksDB();
      ipns := new BlocksDB();
      paths := new BlocksDB();
    }

    /** The hash functions keep their stores; those of new functions are freshly made. */
    twostate predicate OnlyNewStores()
      reads this
    {
      forall c | c in doubleHash :: if c in old(doubleHash) then doubleHash[c] == old(doubleHash)[c] else fresh(doubleHash[c])
    }

    /** The store of a hash function is made on first use. */
    method StoreFor(code: nat)
      requires Shape()
      modifies this`doubleHash, this`hashContents
      ensures Shape() && OnlyNewStores() && code in doubleHash
      ensures hashContents == old(hashContents)[code := SubIndex(old(hashContents), code)]
    {
      if code !in doubleHash {
        var db := new BlocksDB();
        doubleHash := doubleHash[code := db];
        hashContents := hashContents[code := map[]];
      }
    }

    method StoreHash(code: nat, key: string, e: Entry)
      requires Shape() && code in doubleHash
      modifies this`hashContents, doubleHash[code]
      ensures Shape()
      ensures hashContents == old(hashContents)[code := Put(old(hashContents)[code], key, e)]
    {
      doubleHash[code].Store(key, e);
      hashContents := hashContents[code := Put(hashContents[code], key, e)];
    }

    /** The addRule step of a double-hash rule. */
    method AddHashKey(e: Entry, key: HashKey)
      requires Shape()
      modifies this`doubleHash, this`hashContents, doubleHash.Values
      ensures Shape() && OnlyNewStores()
      ensures hashContents == PutHashKey(codecs, old(hashContents), e, key)
    {
      StoreFor(key.code);
      UpdateTwice(old(hashContents), key.code, SubIndex(old(hashContents), key.code),
                  Put(SubIndex(old(hashContents), key.code), codecs.toB58(key.mh), HashEntry(e, key)));
      StoreHash(key.code, codecs.toB58(key.mh), HashEntry(e, key));
    }

    /** Appends the rule's entry, once its stores hold it. */
    method Record(r: Rule)
      requires Shape() && AllWellFormed() && WellFormed(codecs, r)
      requires Value().(entries := entries + [r.entry]) == IndexOf(codecs, rules + [r])
      modifies this`entries, this`rules
      ensures Valid() && rules == old(rules) + [r]
    {
      entries := entries + [r.entry];
      rules := rules + [r];
    }

    // ---- parsing ----

    method StoreReading(e: Entry, reading: Option<HashKey>)
      requires Shape()
      modifies this`doubleHash, this`hashContents, doubleHash.Values
      ensures Shape() && OnlyNewStores()
      ensures hashContents == PutHashKeys(codecs, old(hashContents), e, Keys(reading))
    {
      match reading {
        case None =>
        case Some(key) =>
          assert [key][..0] == [];
          AddHashKey(e, key);
      }
    }

    /** Stores a double-hash rule under its base58 reading, its hexadecimal reading, or both. */
    method StoreReadings(e: Entry, text: string) returns (keys: seq<HashKey>)
      requires Shape()
      modifies this`doubleHash, this`hashContents, doubleHash.Values
      ensures Shape() && OnlyNewStores()
      ensures keys == Keys(AsMultihash(codecs, text)) + Keys(AsHexDigest(text))
      ensures hashContents == PutHashKeys(codecs, old(hashContents), e, keys)
    {
      var first, second := AsMultihash(codecs, text), AsHexDigest(text);
      var original := Place(e);
      var clone := Clone(original);
      StoreReading(clone.Value(), first);
      StoreReading(e, second);
      keys := Keys(first) + Keys(second);
      PutMoreHashKeys(codecs, old(hashContents), e, Keys(first), Keys(second));
    }

    /** Records a double-hash rule whose keys have just been stored on top of `before`. */
    method RecordHashRule(e: Entry, keys: seq<HashKey>, ghost before: map<nat, Multimap>)
      requires Shape() && AllWellFormed() && WellFormed(codecs, Rule(e, OnDoubleHash(keys)))
      requires Value().(doubleHash := before) == IndexOf(codecs, rules)
      requires hashContents == PutHashKeys(codecs, before, e, keys)
      modifies this`entries, this`rules
      ensures Valid() && rules == old(rules) + [Rule(e, OnDoubleHash(keys))]
    {
      IndexOfOneMore(codecs, rules, Rule(e, OnDoubleHash(keys)));
      Record(Rule(e, OnDoubleHash(keys)));
    }

    method ParseDoubleHash(e: Entry, text: string) returns (outcome: Outcome)
      requires Valid() && e.path == EMPTY_PATH
      modifies this`entries, this`rules, this`doubleHash, this`hashContents, doubleHash.Values
      ensures Valid() && OnlyNewStores()
      ensures outcome == HashOutcome(codecs, e, text)
      ensures rules == old(rules) + Accepts(outcome)
    {
      ghost var before := hashContents;
      var keys := StoreReadings(e, text);
      if keys == [] {
        return Rejected;
      }
      RecordHashRule(e, keys, before);
      outcome := Accepted(Rule(e, OnDoubleHash(keys)));
    }

    method AddCidRule(e: Entry, key: string)
      requires Valid() && WellFormed(codecs, Rule(e, OnCid(key)))
      modifies this`entries, this`rules, ipfs
      ensures Valid() && rules == old(rules) + [Rule(e, OnCid(key))]
    {
      ipfs.Store(key, e);
      IndexOfOneMore(codecs, rules, Rule(e, OnCid(key)));
      Record(Rule(e, OnCid(key)));
    }

    method AddNameRule(e: Entry, key: string)
      requires Valid() && WellFormed(codecs, Rule(e, OnName(key)))
      modifies this`entries, this`rules, ipns
      ensures Valid() && rules == old(rules) + [Rule(e, OnName(key))]
    {
      ipns.Store(key, e);
      IndexOfOneMore(codecs, rules, Rule(e, OnName(key)));
      Record(Rule(e, OnName(key)));
    }

    method AddPathRule(e: Entry, key: string)
      requires Valid() && WellFormed(codecs, Rule(e, OnPath(key)))
      modifies this`entries, this`rules, paths
      ensures Valid() && rules == old(rules) + [Rule(e, OnPath(key))]
    {
      paths.Store(key, e);
      IndexOfOneMore(codecs, rules, Rule(e, OnPath(key)));
      Record(Rule(e, OnPath(key)));
    }

    method AddPrefixRule(e: Entry)
      requires Valid() && WellFormed(codecs, Rule(e, OnPathPrefix))
      modifies this`entries, this`rules, this`prefixes
      ensures Valid() && rules == old(rules) + [Rule(e, OnPathPrefix)]
    {
      prefixes := prefixes + [e];
      IndexOfOneMore(codecs, rules, Rule(e, OnPathPrefix));
      Record(Rule(e, OnPathPrefix));
    }

    method ParseIpfs(e: Entry, rule: string) returns (outcome: Outcome)
      requires Valid()
      modifies this`entries, this`rules, ipfs
      ensures Valid()
      ensures outcome == CidOutcome(codecs, e, rule)
      ensures rules == old(rules) + Accepts(outcome)
    {
      var (cidText, subpath, _) := Cut(TrimPrefix(TrimPrefix(rule, "/ipfs/"), "/ipld/"), '/');
      var c := codecs.decodeCid(cidText);
      if c == None {
        return Rejected;
      }
      if codecs.IsSafe(c.value) {
        return Skipped;
      }
      var bp := NewBlockedPath(subpath);
      if bp == None {
        return Rejected;
      }
      var e' := e.(mh := c.value.hash, path := bp.value);
      var key := codecs.toB58(e'.mh);
      AddCidRule(e', key);
      outcome := Accepted(Rule(e', OnCid(key)));
    }

    method ParseIpns(e: Entry, text: string) returns (outcome: Outcome)
      requires Valid() && e.mh == ""
      modifies this`entries, this`rules, ipns
      ensures Valid()
      ensures outcome == NameOutcome(codecs, e, text)
      ensures rules == old(rules) + Accepts(outcome)
    {
      var (name, subpath, _) := Cut(text, '/');
      var c := codecs.decodeCid(name);
      var key := if c.Some? then codecs.toB58(c.value.hash) else name;
      var bp := NewBlockedPath(subpath);
      if bp == None {
        return Rejected;
      }
      var e' := e.(path := bp.value);
      AddNameRule(e', key);
      outcome := Accepted(Rule(e', OnName(key)));
    }

    method ParsePath(e: Entry, rule: string) returns (outcome: Outcome)
      requires Valid()
      modifies this`entries, this`rules, this`prefixes, paths
      ensures Valid()
      ensures outcome == PathOutcome(e, rule)
      ensures rules == old(rules) + Accepts(outcome)
    {
      var bp := NewBlockedPath(rule);
      if bp == None {
        return Rejected;
      }
      var e' := e.(path := bp.value);
      if bp.value.prefix {
        AddPrefixRule(e');
        outcome := Accepted(Rule(e', OnPathPrefix));
      } else {
        AddPathRule(e', rule);
        outcome := Accepted(Rule(e', OnPath(rule)));
      }
    }

    /** Sends the rule to the index its prefix calls for. */
    method RouteRule(e: Entry, rule: string) returns (outcome: Outcome)
      requires Valid() && e.mh == "" && e.path == EMPTY_PATH
      modifies this, ipfs, ipns, paths, doubleHash.Values
      ensures Valid() && OnlyNewStores()
      ensures outcome == ParseRule(codecs, e, rule)
      ensures rules == old(rules) + Accepts(outcome)
    {
      if "//" <= rule {
        outcome := ParseDoubleHash(e, rule[2..]);
      } else if "/ipfs/" <= rule || "/ipld/" <= rule {
        outcome := ParseIpfs(e, rule);
      } else if "/ipns/" <= rule {
        outcome := ParseIpns(e, rule[6..]);
      } else {
        outcome := ParsePath(e, rule);
      }
    }

    /**
      Processes one full line. The rules grow by the line's rule if it has one; a comment, an
      empty line, a safe CID, a rejected line and a panic leave everything as it was.
     */
    method ParseLine(line: string, number: nat) returns (outcome: Outcome)
      requires Valid()
      modifies Repr()
      ensures Valid() && fresh(Repr() - old(Repr()))
      ensures outcome == Rules.ParseLine(codecs, hints, line, number) == Parser(codecs, hints)(line, number)
      ensures rules == old(rules) + Accepts(outcome)
      ensures !outcome.Accepted? ==> Value() == old(Value())
    {
      ParserParses(codecs, hints, line, number);
      var text := TrimSuffix(line, "\n");
      if IsComment(text) {
        return Skipped;
      }
      var fields := Fields(text);
      if fields == [] {
        return Panicked;
      }
      var ruleHints := CollectHints(hints, fields[1..]);
      var (allow, rule) := StripAllow(fields[0]);
      var e := Entry(number, allow, ruleHints, text, "", EMPTY_PATH);
      outcome := RouteRule(e, rule);
      assert !outcome.Accepted? ==> rules == old(rules);
    }

    // ---- lookups ----

    /** The order in which a Go range over the double-hash map may come up: every function once. */
    ghost predicate HashOrder(order: seq<nat>)
      reads this`doubleHash
    {
      && (forall c | c in order :: c in doubleHash)
      && (forall c | c in doubleHash :: c in order)
      && (forall i, j | 0 <= i < j < |order| :: order[i] != order[j])
    }

    /** Of an order that also has functions added later, what this list has now is an order of its own, and answers the same. */
    lemma LaterFunctionsMiss(segments: seq<string>, order: seq<nat>)
      requires Valid() && NoRepeats(order) && forall c | c in doubleHash :: c in order
      ensures HashOrder(Only(order, doubleHash.Keys))
      ensures Reference(rules, PathPlan(codecs, segments, order))
           == Reference(rules, PathPlan(codecs, segments, Only(order, doubleHash.Keys)))
    {
      InUse(codecs, rules);
      OnlyOnce(order, doubleHash.Keys);
      PathQueryInUse(codecs, rules, doubleHash.Keys, segments, order);
    }

    method CheckDoubleHashWithFn(key: string, code: nat) returns (a: Answer)
      requires Valid() && codecs.Lawful()
      ensures a == Reference(rules, HashProbes(codecs, key, code))
    {
      ReferenceOfNothing(rules);
      ghost var sum := codecs.sum(key, code);
      if sum.Some? {
        ReadIsScan(codecs, rules, HashProbe(HashKey(code, sum.value)));
        ReferenceOfOne(rules, HashProbe(HashKey(code, sum.value)));
      }
      if code !in doubleHash {
        return NotFound;
      }
      match codecs.sum(key, code) {
        case None => return NotFound;
        case Some(m) =>
          var found := doubleHash[code].LoadEntries(codecs.toB58(m));
          a := CheckPathStatus(found, "");
      }
    }

    method CheckDoubleHash(key: string, order: seq<nat>) returns (a: Answer)
      requires Valid() && codecs.Lawful() && HashOrder(order)
      ensures a == Reference(rules, AllHashProbes(codecs, key, order))
    {
      assert order[0..] == order;
      for i := 0 to |order|
        invariant Reference(rules, AllHashProbes(codecs, key, order))
               == Reference(rules, AllHashProbes(codecs, key, order[i..]))
      {
        assert order[i..][1..] == order[i + 1..];
        ReferenceOfConcat(rules, HashProbes(codecs, key, order[i]), AllHashProbes(codecs, key, order[i + 1..]));
        a := CheckDoubleHashWithFn(key, order[i]);
        if a != NotFound {
          return;
        }
      }
      ReferenceOfNothing(rules);
      a := NotFound;
    }

    method IsSubpathBlocked(subpath: string) returns (a: Answer)
      requires Valid() && codecs.Lawful()
      ensures a == Reference(rules, SubpathPlan(subpath))
    {
      ReferenceOfCons(rules, PathProbe(subpath), [PrefixProbe(subpath)]);
      ReferenceOfOne(rules, PrefixProbe(subpath));
      assert SubpathPlan(subpath) == [PathProbe(subpath)] + [PrefixProbe(subpath)];
      ReadIsScan(codecs, rules, PathProbe(subpath));
      ReadIsScan(codecs, rules, PrefixProbe(subpath));
      var found := paths.LoadEntries(subpath);
      a := CheckPathStatus(found, subpath);
      if a != NotFound {
        return;
      }
      a := CheckPathStatus(prefixes, subpath);
    }

    /** The two double-hash tiers of a CID: the legacy form first, then every function in use. */
    method CheckCidHashes(c: Cid, subpath: string, order: seq<nat>) returns (a: Answer)
      requires Valid() && codecs.Lawful() && HashOrder(order)
      ensures a == Reference(rules, HashPlan(codecs, c, subpath, order))
    {
      match codecs.cidV1Base32(c.codec, c.hash) {
        case None =>
          ReferenceOfOne(rules, Fail);
          return Errored;
        case Some(b32) =>
          ghost var modern := AllHashProbes(codecs, WithSubpath(codecs.toB58(c.hash), subpath), order);
          ReferenceOfConcat(rules, HashProbes(codecs, b32 + "/" + subpath, SHA2_256), modern);
          a := CheckDoubleHashWithFn(b32 + "/" + subpath, SHA2_256);
          if a != NotFound {
            return;
          }
          var key := codecs.toB58(c.hash);
          if subpath != "" {
            key := key + "/" + subpath;
          }
          a := CheckDoubleHash(key, order);
      }
    }

    method IsCidBlocked(c: Cid, order: seq<nat>) returns (a: Answer)
      requires Valid() && codecs.Lawful() && HashOrder(order)
      ensures a == Reference(rules, CidPlan(codecs, c, order))
      ensures Answered(codecs, rules, Question(OfCid(c), ""), order, a)
    {
      CidAnswered(codecs, rules, c, order);
      a := AskCid(c, order);
    }

    method AskCid(c: Cid, order: seq<nat>) returns (a: Answer)
      requires Valid() && codecs.Lawful() && HashOrder(order)
      ensures a == Reference(rules, CidPlan(codecs, c, order))
    {
      ReadIsScan(codecs, rules, CidProbe(c.hash, ""));
      ReferenceOfCons(rules, CidProbe(c.hash, ""), HashPlan(codecs, c, "", order));
      var found := ipfs.LoadEntries(codecs.toB58(c.hash));
      a := CheckPathStatus(found, "");
      if a != NotFound {
        return;
      }
      a := CheckCidHashes(c, "", order);
    }

    /** A 46-byte `Qm` text serves as the key undecoded; it is decoded only once its tier has missed. */
    method IsIpfsIpldPathBlocked(cidText: string, rawSubpath: string, protocol: string, order: seq<nat>)
      returns (a: Answer)
      requires Valid() && codecs.Lawful() && HashOrder(order)
      ensures a == Reference(rules, IpfsPlan(codecs, cidText, rawSubpath, protocol, order))
    {
      ReferenceOfOne(rules, Fail);
      var subpath := TrimPrefix(rawSubpath, "/");
      if codecs.newPath(WithSubpath("/" + protocol + "/" + cidText, subpath)) == None {
        return Errored;
      }
      var key := cidText;
      var c: Option<Cid> := None;
      if |key| != 46 || key[..2] != "Qm" {
        c := codecs.decodeCid(key);
        if c == None {
          return Errored;
        }
        key := codecs.toB58(c.value.hash);
      }
      CidKeyReads(codecs, rules, cidText, key, subpath, order);
      var found := ipfs.LoadEntries(key);
      a := CheckPathStatus(found, subpath);
      if a != NotFound {
        return;
      }
      if c == None {
        c := codecs.decodeCid(cidText);
        if c == None {
          return Errored;
        }
      }
      a := CheckCidHashes(c.value, subpath, order);
    }

    method IsIpnsPathBlocked(name: string, rawSubpath: string, order: seq<nat>) returns (a: Answer)
      requires Valid() && codecs.Lawful() && HashOrder(order)
      ensures a == Reference(rules, IpnsPlan(codecs, name, rawSubpath, order))
    {
      ReferenceOfOne(rules, Fail);
      var subpath := TrimPrefix(rawSubpath, "/");
      var p := codecs.newPath(WithSubpath("/ipns/" + name, subpath));
      if p == None {
        return Errored;
      }
      var key := name;
      var c := codecs.decodeCid(name);
      if c.Some? {
        key := codecs.toB58(c.value.hash);
      } else if '.' !in key {
        key := ToDNSLinkFQDN(key);
      }
      NameKeyReads(codecs, rules, name, subpath, p.value, order);
      var found := ipns.LoadEntries(key);
      a := CheckPathStatus(found, subpath);
      if a != NotFound {
        return;
      }
      a := CheckNameHashes(name, c, subpath, p.value, order);
    }

    /** The double-hash tiers of an IPNS name: those of its CID, or the legacy and modern forms of the name. */
    method CheckNameHashes(name: string, c: Option<Cid>, subpath: string, p: string, order: seq<nat>) returns (a: Answer)
      requires Valid() && codecs.Lawful() && HashOrder(order) && c == codecs.decodeCid(name)
      ensures a == Reference(rules, NameHashPlan(codecs, name, subpath, p, order))
    {
      if c.Some? {
        a := CheckCidHashes(c.value, subpath, order);
        return;
      }
      ReferenceOfConcat(rules, HashProbes(codecs, name + "/" + subpath, SHA2_256), AllHashProbes(codecs, p, order));
      a := CheckDoubleHashWithFn(name + "/" + subpath, SHA2_256);
      if a != NotFound {
        return;
      }
      a := CheckDoubleHash(p, order);
    }

    /** With indexable rules, the reference for a path goes by meaning. */
    lemma ByMeaning(segments: seq<string>, order: seq<nat>)
      requires Valid() && AreSegments(segments) && forall r | r in rules :: Indexable(r)
      ensures Reference(rules, PathPlan(codecs, segments, order)) == AnswerByMeaning(codecs, rules, segments, order)
    {
      PathQueryByMeaning(codecs, rules, segments, order);
    }

    /** What a path asks for. */
    function Asked(segments: seq<string>): Question
      requires |segments| >= 2
    {
      var subpath := Join(segments[2..], "/");
      Question(SubjectOf(codecs, segments[0], segments[1], subpath), subpath)
    }

    /**
      The answer for a path is what scanning the accepted rules tier by tier gives: that of the last rule
      that covers it in the first tier in which any does. With indexable exact path rules, it is what they
      mean, whatever their text.
     */
    method IsPathBlocked(segments: seq<string>, order: seq<nat>) returns (a: Answer)
      requires Valid() && codecs.Lawful() && HashOrder(order)
      ensures a == Reference(rules, PathPlan(codecs, segments, order))
      ensures AreSegments(segments) && (forall r | r in rules :: Indexable(r)) ==>
                a == AnswerByMeaning(codecs, rules, segments, order)
      ensures |segments| < 2 ==> a == Errored
      ensures |segments| >= 2 && !("/" <= Join(segments[2..], "/")) ==> Answered(codecs, rules, Asked(segments), order, a)
    {
      if |segments| >= 2 && !("/" <= Join(segments[2..], "/")) {
        PathAnswered(codecs, rules, segments, order);
      }
      if AreSegments(segments) && forall r | r in rules :: Indexable(r) {
        ByMeaning(segments, order);
      }
      a := AskPath(segments, order);
    }

    method AskPath(segments: seq<string>, order: seq<nat>) returns (a: Answer)
      requires Valid() && codecs.Lawful() && HashOrder(order)
      ensures a == Reference(rules, PathPlan(codecs, segments, order)) && (|segments| < 2 ==> a == Errored)
    {
      ReferenceOfOne(rules, Fail);
      if |segments| < 2 {
        return Errored;
      }
      var subpath := Join(segments[2..], "/");
      ghost var rest := ProtocolPlan(codecs, segments[0], segments[1], subpath, order);
      if subpath != "" {
        ReferenceOfConcat(rules, SubpathPlan(subpath), rest);
        a := IsSubpathBlocked(subpath);
        if a != NotFound {
          return;
        }
      } else {
        assert [] + rest == rest;
      }
      match segments[0] {
        case "ipns" => a := IsIpnsPathBlocked(segments[1], subpath, order);
        case "ipfs" => a := IsIpfsIpldPathBlocked(segments[1], subpath, "ipfs", order);
        case "ipld" => a := IsIpfsIpldPathBlocked(segments[1], subpath, "ipld", order);
        case _ =>
          ReferenceOfNothing(rules);
          a := NotFound;
      }
    }
  }

  /** The header's hints, overwritten by the `key=value` words in turn. */
  method CollectHints(base: Hints, words: seq<string>) returns (hints: Hints)
    ensures hints == MergeHints(base, words)
  {
    hints := base;
    assert words[..|words|] == words;
    for i := 0 to |words|
      invariant hints == MergeHints(base, words[..i])
    {
      assert words[..i + 1][..i] == words[..i];
      var (key, value, found) := Cut(words[i], '=');
      if !found {
        continue;
      }
      hints := hints[key := value];
    }
  }
}
