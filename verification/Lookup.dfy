/**
  What a query should answer, said without any index: a query is a plan of probes, a probe
  is answered by the last accepted rule it hits, and the first defined probe decides.
 */
module Lookup {
  import opened Options
  import opened GoStrings
  import opened Entries
  import opened Multiformats
  import opened Rules
  import opened Index
  import opened DnsLink

  datatype Probe =
    | PathProbe(subpath: string)
    | PrefixProbe(subpath: string)
    | CidProbe(hash: Multihash, subpath: string)
    | NameProbe(name: string, subpath: string)
    | HashProbe(key: HashKey)
    | Fail

  predicate Hits(r: Rule, probe: Probe) {
    match probe
    case PathProbe(s) => r.target == OnPath(s) && r.entry.path.Matches(s)
    case PrefixProbe(s) => r.target.OnPathPrefix? && r.entry.path.Matches(s)
    case CidProbe(h, s) => r.target.OnCid? && r.entry.mh == h && r.entry.path.Matches(s)
    case NameProbe(n, s) => r.target == OnName(n) && r.entry.path.Matches(s)
    case HashProbe(key) => r.target.OnDoubleHash? && key in r.target.keys
    case Fail => false
  }

  /** The entry a probe reports for a rule it hits. */
  function Reported(r: Rule, probe: Probe): Entry {
    if probe.HashProbe? then HashEntry(r.entry, probe.key) else r.entry
  }

  /** The linear scan: the last rule hit decides. */
  function Scan(rules: seq<Rule>, probe: Probe): Answer {
    if probe.Fail? then Errored
    else if rules == [] then NotFound
    else if Hits(rules[|rules| - 1], probe) then Verdict(Reported(rules[|rules| - 1], probe))
    else Scan(rules[..|rules| - 1], probe)
  }

  function FirstDefined(answers: seq<Answer>): Answer {
    if answers == [] then NotFound
    else if answers[0].Defined() then answers[0]
    else FirstDefined(answers[1..])
  }

  function Scans(rules: seq<Rule>, plan: seq<Probe>): seq<Answer> {
    seq(|plan|, i requires 0 <= i < |plan| => Scan(rules, plan[i]))
  }

  function Reference(rules: seq<Rule>, plan: seq<Probe>): Answer {
    FirstDefined(Scans(rules, plan))
  }

  // ---- the plans of the queries ----

  /** One double-hash function: no probe at all when the key cannot be hashed with it. */
  function HashProbes(x: Codecs, key: string, code: nat): seq<Probe> {
    match x.sum(key, code)
    case None => []
    case Some(m) => [HashProbe(HashKey(code, m))]
  }

  /** All double-hash functions in use, in the given order. */
  function AllHashProbes(x: Codecs, key: string, order: seq<nat>): seq<Probe> {
    if order == [] then [] else HashProbes(x, key, order[0]) + AllHashProbes(x, key, order[1..])
  }

  function WithSubpath(head: string, subpath: string): string {
    if subpath == "" then head else head + "/" + subpath
  }

  /** The legacy form hashes the base32 version-1 CID, a slash, and the subpath; the modern one the base58 hash. */
  function HashPlan(x: Codecs, c: Cid, subpath: string, order: seq<nat>): seq<Probe> {
    match x.cidV1Base32(c.codec, c.hash)
    case None => [Fail]
    case Some(b32) =>
      HashProbes(x, b32 + "/" + subpath, SHA2_256)
      + AllHashProbes(x, WithSubpath(x.toB58(c.hash), subpath), order)
  }

  function CidPlan(x: Codecs, c: Cid, order: seq<nat>): seq<Probe> {
    [CidProbe(c.hash, "")] + HashPlan(x, c, "", order)
  }

  function IpfsPlan(x: Codecs, cidText: string, rawSubpath: string, protocol: string, order: seq<nat>): seq<Probe> {
    var subpath := TrimPrefix(rawSubpath, "/");
    if x.newPath(WithSubpath("/" + protocol + "/" + cidText, subpath)).None? then [Fail]
    else
      match x.decodeCid(cidText)
      case None => [Fail]
      case Some(c) => [CidProbe(c.hash, subpath)] + HashPlan(x, c, subpath, order)
  }

  /** The key an IPNS name is looked up by: its hash when it is a CID, else the name, dots restored. */
  function NameQueryKey(x: Codecs, name: string): string {
    match x.decodeCid(name)
    case Some(c) => x.toB58(c.hash)
    case None => if '.' in name then name else ToFqdn(name)
  }

  /** A name that is a CID is hashed as that CID; any other name in the legacy form `name/subpath`, then as its path. */
  function NameHashPlan(x: Codecs, name: string, subpath: string, p: string, order: seq<nat>): seq<Probe> {
    match x.decodeCid(name)
    case Some(c) => HashPlan(x, c, subpath, order)
    case None => HashProbes(x, name + "/" + subpath, SHA2_256) + AllHashProbes(x, p, order)
  }

  function IpnsPlan(x: Codecs, name: string, rawSubpath: string, order: seq<nat>): seq<Probe> {
    var subpath := TrimPrefix(rawSubpath, "/");
    match x.newPath(WithSubpath("/ipns/" + name, subpath))
    case None => [Fail]
    case Some(p) =>
      [NameProbe(NameQueryKey(x, name), subpath)] + NameHashPlan(x, name, subpath, p, order)
  }

  function SubpathPlan(subpath: string): seq<Probe> {
    [PathProbe(subpath), PrefixProbe(subpath)]
  }

  function ProtocolPlan(x: Codecs, protocol: string, key: string, subpath: string, order: seq<nat>): seq<Probe> {
    match protocol
    case "ipns" => IpnsPlan(x, key, subpath, order)
    case "ipfs" => IpfsPlan(x, key, subpath, "ipfs", order)
    case "ipld" => IpfsPlan(x, key, subpath, "ipld", order)
    case _ => []
  }

  function PathPlan(x: Codecs, segments: seq<string>, order: seq<nat>): seq<Probe> {
    if |segments| < 2 then [Fail]
    else
      var subpath := Join(segments[2..], "/");
      (if subpath == "" then [] else SubpathPlan(subpath))
      + ProtocolPlan(x, segments[0], segments[1], subpath, order)
  }

  // ---- one index read answers one probe ----

  function SlotOf(x: Codecs, probe: Probe): Slot
    requires !probe.Fail?
  {
    match probe
    case PathProbe(s) => PathSlot(s)
    case PrefixProbe(_) => PrefixSlot
    case CidProbe(h, _) => CidSlot(x.toB58(h))
    case NameProbe(n, _) => NameSlot(n)
    case HashProbe(key) => HashSlot(key.code, x.toB58(key.mh))
  }

  function PathOf(probe: Probe): string
    requires !probe.Fail?
  {
    if probe.HashProbe? then "" else probe.subpath
  }

  lemma {:induction false} LastMatchOfConcat(a: seq<Entry>, b: seq<Entry>, p: string)
    ensures LastMatch(a + b, p) == if LastMatch(b, p).Defined() then LastMatch(b, p) else LastMatch(a, p)
  {
    if b == [] {
      assert a + b == a;
    } else {
      LastMatchOfConcat(a, b[..|b| - 1], p);
      assert (a + b)[..|a + b| - 1] == a + b[..|b| - 1];
    }
  }

  lemma {:induction false} HashShareMatch(x: Codecs, e: Entry, keys: seq<HashKey>, key: HashKey)
    requires x.Lawful()
    ensures LastMatch(HashShare(x, e, keys, key.code, x.toB58(key.mh)), "")
         == if key in keys then Verdict(HashEntry(e, key)) else NotFound
  {
    if keys == [] {
    } else {
      var front, last := keys[..|keys| - 1], keys[|keys| - 1];
      HashShareMatch(x, e, front, key);
      var share := HashShare(x, e, front, key.code, x.toB58(key.mh));
      if last.code == key.code && x.toB58(last.mh) == x.toB58(key.mh) {
        assert last == key;
        assert LastMatch([HashEntry(e, last)], "") == Verdict(HashEntry(e, key));
        LastMatchOfConcat(share, [HashEntry(e, last)], "");
      } else {
        assert share + [] == share;
        assert last != key;
      }
    }
  }

  lemma ShareAnswers(x: Codecs, r: Rule, probe: Probe)
    requires x.Lawful() && WellFormed(x, r) && !probe.Fail?
    ensures LastMatch(Share(x, r, SlotOf(x, probe)), PathOf(probe))
         == if Hits(r, probe) then Verdict(Reported(r, probe)) else NotFound
  {
    if probe.HashProbe? && r.target.OnDoubleHash? {
      HashShareMatch(x, r.entry, r.target.keys, probe.key);
    }
  }

  /** A single index read finds what scanning all rules finds. */
  lemma {:induction false} ReadIsScan(x: Codecs, rules: seq<Rule>, probe: Probe)
    requires x.Lawful() && (forall r | r in rules :: WellFormed(x, r)) && !probe.Fail?
    ensures LastMatch(Read(IndexOf(x, rules), SlotOf(x, probe)), PathOf(probe)) == Scan(rules, probe)
  {
    var slot := SlotOf(x, probe);
    if rules == [] {
    } else {
      var front, last := rules[..|rules| - 1], rules[|rules| - 1];
      ReadIsScan(x, front, probe);
      AddAppendsShare(x, IndexOf(x, front), last, slot);
      ShareAnswers(x, last, probe);
      LastMatchOfConcat(Read(IndexOf(x, front), slot), Share(x, last, slot), PathOf(probe));
    }
  }

  /** No CID rule sits under a 46-byte `Qm` text that does not decode. */
  lemma {:induction false} NothingUnderUndecodable(x: Codecs, rules: seq<Rule>, text: string)
    requires x.Lawful() && forall r | r in rules :: WellFormed(x, r)
    requires LooksLikeV0(text) ==> x.decodeCid(text) == None
    ensures LooksLikeV0(text) ==> Read(IndexOf(x, rules), CidSlot(text)) == []
  {
    if rules == [] || !LooksLikeV0(text) {
    } else {
      var front, last := rules[..|rules| - 1], rules[|rules| - 1];
      NothingUnderUndecodable(x, front, text);
      AddAppendsShare(x, IndexOf(x, front), last, CidSlot(text));
      assert WellFormed(x, last);
    }
  }

  // ---- composing plans ----

  lemma {:induction false} FirstDefinedOfConcat(a: seq<Answer>, b: seq<Answer>)
    ensures FirstDefined(a + b) == if FirstDefined(a).Defined() then FirstDefined(a) else FirstDefined(b)
  {
    if a == [] {
      assert a + b == b;
    } else {
      assert (a + b)[1..] == a[1..] + b;
      FirstDefinedOfConcat(a[1..], b);
    }
  }

  lemma ReferenceOfConcat(rules: seq<Rule>, p: seq<Probe>, q: seq<Probe>)
    ensures Reference(rules, p + q)
         == if Reference(rules, p).Defined() then Reference(rules, p) else Reference(rules, q)
  {
    assert Scans(rules, p + q) == Scans(rules, p) + Scans(rules, q);
    FirstDefinedOfConcat(Scans(rules, p), Scans(rules, q));
  }

  lemma ReferenceOfNothing(rules: seq<Rule>)
    ensures Reference(rules, []) == NotFound
  {
    assert Scans(rules, []) == [];
  }

  lemma ReferenceOfOne(rules: seq<Rule>, probe: Probe)
    ensures Reference(rules, [probe]) == Scan(rules, probe)
  {
    assert Scans(rules, [probe]) == [Scan(rules, probe)];
    assert FirstDefined([Scan(rules, probe)]) == Scan(rules, probe);
  }

  lemma ReferenceOfCons(rules: seq<Rule>, probe: Probe, q: seq<Probe>)
    ensures Reference(rules, [probe] + q)
         == if Scan(rules, probe).Defined() then Scan(rules, probe) else Reference(rules, q)
  {
    ReferenceOfConcat(rules, [probe], q);
    ReferenceOfOne(rules, probe);
  }

  /** Reading the CID index by the query's key settles the first probe of the plan, decodable or not. */
  lemma CidKeyReads(x: Codecs, rules: seq<Rule>, cidText: string, key: string, subpath: string, order: seq<nat>)
    requires x.Lawful() && forall r | r in rules :: WellFormed(x, r)
    requires if LooksLikeV0(cidText) then key == cidText
             else x.decodeCid(cidText).Some? && key == x.toB58(x.decodeCid(cidText).value.hash)
    ensures var found := LastMatch(Get(IndexOf(x, rules).ipfs, key), subpath);
            match x.decodeCid(cidText)
            case None => found == NotFound
            case Some(c) =>
              var hashes := HashPlan(x, c, subpath, order);
              Reference(rules, [CidProbe(c.hash, subpath)] + hashes)
              == if found.Defined() then found else Reference(rules, hashes)
  {
    match x.decodeCid(cidText) {
      case None => NothingUnderUndecodable(x, rules, cidText);
      case Some(c) =>
        ReadIsScan(x, rules, CidProbe(c.hash, subpath));
        ReferenceOfCons(rules, CidProbe(c.hash, subpath), HashPlan(x, c, subpath, order));
    }
  }

  lemma NameKeyReads(x: Codecs, rules: seq<Rule>, name: string, subpath: string, p: string, order: seq<nat>)
    requires x.Lawful() && forall r | r in rules :: WellFormed(x, r)
    ensures var key, hashes := NameQueryKey(x, name), NameHashPlan(x, name, subpath, p, order);
            var found := LastMatch(Get(IndexOf(x, rules).ipns, key), subpath);
            Reference(rules, [NameProbe(key, subpath)] + hashes) == if found.Defined() then found else Reference(rules, hashes)
  {
    var key := NameQueryKey(x, name);
    ReadIsScan(x, rules, NameProbe(key, subpath));
    ReferenceOfCons(rules, NameProbe(key, subpath), NameHashPlan(x, name, subpath, p, order));
  }
}
