/** The five indexes of a denylist as values, and what adding rules to them does. */
module Index {
  import opened GoStrings
  import opened Entries
  import opened BlockedPaths
  import opened Multiformats
  import opened Rules

  type Multimap = map<string, seq<Entry>>

  function Get(m: Multimap, key: string): seq<Entry> {
    if key in m then m[key] else []
  }

  function Put(m: Multimap, key: string, e: Entry): Multimap {
    m[key := Get(m, key) + [e]]
  }

  datatype Indexes = Indexes(
    ipfs: Multimap, ipns: Multimap, paths: Multimap, prefixes: seq<Entry>,
    doubleHash: map<nat, Multimap>, entries: seq<Entry>)

  const EMPTY_INDEXES := Indexes(map[], map[], map[], [], map[], [])

  function SubIndex(double: map<nat, Multimap>, code: nat): Multimap {
    if code in double then double[code] else map[]
  }

  /** The entry a double-hash rule stores under one of its keys. */
  function HashEntry(e: Entry, key: HashKey): Entry {
    e.(mh := key.mh, path := EMPTY_PATH)
  }

  function PutHashKey(x: Codecs, double: map<nat, Multimap>, e: Entry, key: HashKey): map<nat, Multimap> {
    double[key.code := Put(SubIndex(double, key.code), x.toB58(key.mh), HashEntry(e, key))]
  }

  function PutHashKeys(x: Codecs, double: map<nat, Multimap>, e: Entry, keys: seq<HashKey>): map<nat, Multimap> {
    if keys == [] then double
    else PutHashKey(x, PutHashKeys(x, double, e, keys[..|keys| - 1]), e, keys[|keys| - 1])
  }

  lemma {:induction false} PutMoreHashKeys(x: Codecs, double: map<nat, Multimap>, e: Entry, a: seq<HashKey>, b: seq<HashKey>)
    ensures PutHashKeys(x, double, e, a + b) == PutHashKeys(x, PutHashKeys(x, double, e, a), e, b)
  {
    if b == [] {
      assert a + b == a;
    } else {
      PutMoreHashKeys(x, double, e, a, b[..|b| - 1]);
      assert (a + b)[..|a + b| - 1] == a + b[..|b| - 1];
    }
  }

  /** Adding one rule. */
  function Add(x: Codecs, idx: Indexes, r: Rule): Indexes {
    var e := r.entry;
    var routed :=
      match r.target
      case OnCid(key) => idx.(ipfs := Put(idx.ipfs, key, e))
      case OnName(key) => idx.(ipns := Put(idx.ipns, key, e))
      case OnPath(key) => idx.(paths := Put(idx.paths, key, e))
      case OnPathPrefix => idx.(prefixes := idx.prefixes + [e])
      case OnDoubleHash(keys) => idx.(doubleHash := PutHashKeys(x, idx.doubleHash, e, keys));
    routed.(entries := idx.entries + [e])
  }

  function IndexOf(x: Codecs, rules: seq<Rule>): Indexes {
    if rules == [] then EMPTY_INDEXES
    else Add(x, IndexOf(x, rules[..|rules| - 1]), rules[|rules| - 1])
  }

  lemma IndexOfOneMore(x: Codecs, rules: seq<Rule>, r: Rule)
    ensures IndexOf(x, rules + [r]) == Add(x, IndexOf(x, rules), r)
  {
    assert (rules + [r])[..|rules|] == rules;
  }

  // ---- what every slot of the indexes holds ----

  datatype Slot = CidSlot(key: string) | NameSlot(key: string) | PathSlot(key: string) | PrefixSlot
    | HashSlot(code: nat, key: string)

  function Read(idx: Indexes, slot: Slot): seq<Entry> {
    match slot
    case CidSlot(key) => Get(idx.ipfs, key)
    case NameSlot(key) => Get(idx.ipns, key)
    case PathSlot(key) => Get(idx.paths, key)
    case PrefixSlot => idx.prefixes
    case HashSlot(code, key) => Get(SubIndex(idx.doubleHash, code), key)
  }

  /** The entries that a double-hash rule puts under one text key of one function. */
  function HashShare(x: Codecs, e: Entry, keys: seq<HashKey>, code: nat, key: string): seq<Entry> {
    if keys == [] then []
    else
      var last := keys[|keys| - 1];
      HashShare(x, e, keys[..|keys| - 1], code, key)
      + if last.code == code && x.toB58(last.mh) == key then [HashEntry(e, last)] else []
  }

  /** The entries one rule puts into a slot, read off the rule alone. */
  function Share(x: Codecs, r: Rule, slot: Slot): seq<Entry> {
    match (r.target, slot)
    case (OnCid(k), CidSlot(key)) => if k == key then [r.entry] else []
    case (OnName(k), NameSlot(key)) => if k == key then [r.entry] else []
    case (OnPath(k), PathSlot(key)) => if k == key then [r.entry] else []
    case (OnPathPrefix, PrefixSlot) => [r.entry]
    case (OnDoubleHash(keys), HashSlot(code, key)) => HashShare(x, r.entry, keys, code, key)
    case _ => []
  }

  function Shares(x: Codecs, rules: seq<Rule>, slot: Slot): seq<Entry> {
    if rules == [] then []
    else Shares(x, rules[..|rules| - 1], slot) + Share(x, rules[|rules| - 1], slot)
  }

  lemma {:induction false} PutHashKeysShare(x: Codecs, double: map<nat, Multimap>, e: Entry, keys: seq<HashKey>,
                                            code: nat, key: string)
    ensures Get(SubIndex(PutHashKeys(x, double, e, keys), code), key)
         == Get(SubIndex(double, code), key) + HashShare(x, e, keys, code, key)
  {
    if keys == [] {
    } else {
      PutHashKeysShare(x, double, e, keys[..|keys| - 1], code, key);
    }
  }

  /** Adding a rule appends exactly its share to every slot, and touches no other. */
  lemma AddAppendsShare(x: Codecs, idx: Indexes, r: Rule, slot: Slot)
    ensures Read(Add(x, idx, r), slot) == Read(idx, slot) + Share(x, r, slot)
  {
    match (r.target, slot) {
      case (OnDoubleHash(keys), HashSlot(code, key)) => PutHashKeysShare(x, idx.doubleHash, r.entry, keys, code, key);
      case _ =>
    }
  }

  /** Every slot holds the shares of all rules, in order: each entry sits under the key its rule derives. */
  lemma {:induction false} SlotHoldsShares(x: Codecs, rules: seq<Rule>, slot: Slot)
    ensures Read(IndexOf(x, rules), slot) == Shares(x, rules, slot)
  {
    if rules == [] {
    } else {
      SlotHoldsShares(x, rules[..|rules| - 1], slot);
      AddAppendsShare(x, IndexOf(x, rules[..|rules| - 1]), rules[|rules| - 1], slot);
    }
  }

  lemma {:induction false} EntriesOfRules(x: Codecs, rules: seq<Rule>)
    ensures |IndexOf(x, rules).entries| == |rules|
    ensures forall i | 0 <= i < |rules| :: IndexOf(x, rules).entries[i] == rules[i].entry
  {
    if rules == [] {
    } else {
      EntriesOfRules(x, rules[..|rules| - 1]);
    }
  }

  lemma {:induction false} HashShareIsKeyed(x: Codecs, e: Entry, keys: seq<HashKey>, code: nat, key: string)
    ensures forall h | h in HashShare(x, e, keys, code, key) ::
              x.toB58(h.mh) == key && HashKey(code, h.mh) in keys && h == HashEntry(e, HashKey(code, h.mh))
  {
    if keys == [] {
    } else {
      HashShareIsKeyed(x, e, keys[..|keys| - 1], code, key);
      forall h | h in HashShare(x, e, keys, code, key)
        ensures x.toB58(h.mh) == key && HashKey(code, h.mh) in keys && h == HashEntry(e, HashKey(code, h.mh))
      {
        var last := keys[|keys| - 1];
        if h == HashEntry(e, last) && last.code == code && x.toB58(last.mh) == key {
          assert HashKey(code, h.mh) == last;
        } else {
          assert h in HashShare(x, e, keys[..|keys| - 1], code, key);
        }
      }
    }
  }

  /** In the CID and double-hash indexes the key is the base58 text of the entry's multihash. */
  lemma {:induction false} KeysAreBase58(x: Codecs, rules: seq<Rule>, slot: Slot)
    requires forall r | r in rules :: WellFormed(x, r)
    requires slot.CidSlot? || slot.HashSlot?
    ensures forall e | e in Read(IndexOf(x, rules), slot) :: x.toB58(e.mh) == slot.key
  {
    SlotHoldsShares(x, rules, slot);
    if rules == [] {
    } else {
      var front, last := rules[..|rules| - 1], rules[|rules| - 1];
      KeysAreBase58(x, front, slot);
      SlotHoldsShares(x, front, slot);
      assert WellFormed(x, last);
      if last.target.OnDoubleHash? && slot.HashSlot? {
        HashShareIsKeyed(x, last.entry, last.target.keys, slot.code, slot.key);
      }
    }
  }

  // ---- conservation ----

  ghost function Size(m: Multimap): nat {
    if m == map[] then 0
    else
      var k :| k in m;
      |m[k]| + Size(m - {k})
  }

  ghost function HashSize(double: map<nat, Multimap>): nat {
    if double == map[] then 0
    else
      var c :| c in double;
      Size(double[c]) + HashSize(double - {c})
  }

  ghost function TotalSize(idx: Indexes): nat {
    Size(idx.ipfs) + Size(idx.ipns) + Size(idx.paths) + |idx.prefixes| + HashSize(idx.doubleHash)
  }

  lemma {:induction false} SizeWithout(m: Multimap, k: string)
    requires k in m
    ensures Size(m) == |m[k]| + Size(m - {k})
  {
    var j :| j in m && Size(m) == |m[j]| + Size(m - {j});
    if j == k {
    } else {
      SizeWithout(m - {j}, k);
      SizeWithout(m - {k}, j);
      assert m - {j} - {k} == m - {k} - {j};
    }
  }

  lemma SizeOfPut(m: Multimap, k: string, e: Entry)
    ensures Size(Put(m, k, e)) == Size(m) + 1
  {
    SizeWithout(Put(m, k, e), k);
    assert Put(m, k, e) - {k} == m - {k};
    if k in m {
      SizeWithout(m, k);
    } else {
      assert m - {k} == m;
    }
  }

  lemma {:induction false} HashSizeWithout(double: map<nat, Multimap>, c: nat)
    requires c in double
    ensures HashSize(double) == Size(double[c]) + HashSize(double - {c})
  {
    var d :| d in double && HashSize(double) == Size(double[d]) + HashSize(double - {d});
    if d == c {
    } else {
      HashSizeWithout(double - {d}, c);
      HashSizeWithout(double - {c}, d);
      assert double - {d} - {c} == double - {c} - {d};
    }
  }

  lemma {:induction false} HashSizeOfPut(x: Codecs, double: map<nat, Multimap>, e: Entry, keys: seq<HashKey>)
    ensures HashSize(PutHashKeys(x, double, e, keys)) == HashSize(double) + |keys|
  {
    if keys == [] {
    } else {
      var key := keys[|keys| - 1];
      var before := PutHashKeys(x, double, e, keys[..|keys| - 1]);
      var after := PutHashKey(x, before, e, key);
      HashSizeOfPut(x, double, e, keys[..|keys| - 1]);
      HashSizeWithout(after, key.code);
      SizeOfPut(SubIndex(before, key.code), x.toB58(key.mh), HashEntry(e, key));
      assert after - {key.code} == before - {key.code};
      if key.code in before {
        HashSizeWithout(before, key.code);
      } else {
        assert before - {key.code} == before;
      }
    }
  }

  /** How many rules are double-hash rules read both as base58 and as hexadecimal. */
  function TwoWay(rules: seq<Rule>): nat {
    if rules == [] then 0
    else
      var t := rules[|rules| - 1].target;
      TwoWay(rules[..|rules| - 1]) + if t.OnDoubleHash? && |t.keys| == 2 then 1 else 0
  }

  /** Nothing is lost and nothing is stored twice, save the double-hash rules read in two ways. */
  lemma {:induction false} Conservation(x: Codecs, rules: seq<Rule>)
    requires forall r | r in rules :: WellFormed(x, r)
    ensures TotalSize(IndexOf(x, rules)) == |IndexOf(x, rules).entries| + TwoWay(rules)
  {
    if rules == [] {
    } else {
      var front, last := rules[..|rules| - 1], rules[|rules| - 1];
      var idx := IndexOf(x, front);
      Conservation(x, front);
      assert WellFormed(x, last);
      match last.target {
        case OnCid(key) => SizeOfPut(idx.ipfs, key, last.entry);
        case OnName(key) => SizeOfPut(idx.ipns, key, last.entry);
        case OnPath(key) => SizeOfPut(idx.paths, key, last.entry);
        case OnPathPrefix =>
        case OnDoubleHash(keys) => HashSizeOfPut(x, idx.doubleHash, last.entry, keys);
      }
    }
  }

  // ---- from lines to rules ----

  /** How a line of a given number parses. */
  type LineParser = (string, nat) -> Outcome

  function Parser(x: Codecs, base: Hints): LineParser {
    (line: string, number: nat) => ParseLine(x, base, line, number)
  }

  function Accepts(o: Outcome): seq<Rule> {
    match o
    case Accepted(r) => [r]
    case _ => []
  }

  /** The rules of consecutive lines, the first of which has number `before + 1`. */
  function RulesOf(parse: LineParser, lines: seq<string>, before: nat): seq<Rule> {
    if lines == [] then []
    else RulesOf(parse, lines[..|lines| - 1], before)
         + Accepts(parse(lines[|lines| - 1], before + |lines|))
  }

  lemma RulesOfOneMore(parse: LineParser, lines: seq<string>, line: string, before: nat)
    ensures RulesOf(parse, lines + [line], before)
         == RulesOf(parse, lines, before) + Accepts(parse(line, before + |lines| + 1))
  {
    assert (lines + [line])[..|lines|] == lines;
  }

  /** Parsing one more line under its number adds what that line parses to. */
  lemma RulesOfNext(parse: LineParser, lines: seq<string>, line: string, before: nat, rules0: seq<Rule>)
    ensures rules0 + RulesOf(parse, lines, before) + Accepts(parse(line, before + |lines| + 1))
         == rules0 + RulesOf(parse, lines + [line], before)
  {
    RulesOfOneMore(parse, lines, line, before);
    Associate(rules0, RulesOf(parse, lines, before), Accepts(parse(line, before + |lines| + 1)));
  }

  /** The rules of lines are those that each line gives under its own number. */
  lemma {:induction false} RulesOfLines(parse: LineParser, lines: seq<string>, before: nat, r: Rule)
    ensures r in RulesOf(parse, lines, before) <==>
            exists j | 0 <= j < |lines| :: parse(lines[j], before + j + 1) == Accepted(r)
  {
    if lines == [] {
    } else {
      var front := lines[..|lines| - 1];
      RulesOfLines(parse, front, before, r);
      assert forall j | 0 <= j < |front| :: lines[j] == front[j];
      assert RulesOf(parse, lines, before) == RulesOf(parse, front, before) + Accepts(parse(lines[|lines| - 1], before + |lines|));
    }
  }

  lemma ParserParses(x: Codecs, base: Hints, line: string, number: nat)
    ensures Parser(x, base)(line, number) == ParseLine(x, base, line, number)
  {
  }

  ghost predicate Sound(x: Codecs, parse: LineParser) {
    forall line: string, number: nat | parse(line, number).Accepted? ::
      WellFormed(x, parse(line, number).rule) && parse(line, number).rule.entry.line == number
  }

  lemma ParserIsSound(x: Codecs, base: Hints)
    ensures Sound(x, Parser(x, base))
  {
    forall line: string, number: nat | Parser(x, base)(line, number).Accepted?
      ensures WellFormed(x, Parser(x, base)(line, number).rule) && Parser(x, base)(line, number).rule.entry.line == number
    {
      AcceptedIsWellFormed(x, base, line, number);
    }
  }

  /** Line numbers grow strictly along the rules, and stay within the lines read. */
  lemma {:induction false} LinesIncrease(x: Codecs, parse: LineParser, lines: seq<string>, before: nat)
    requires Sound(x, parse)
    ensures var rules := RulesOf(parse, lines, before);
            && (forall r | r in rules :: WellFormed(x, r) && before < r.entry.line <= before + |lines|)
            && (forall i, j | 0 <= i < j < |rules| :: rules[i].entry.line < rules[j].entry.line)
  {
    if lines == [] {
    } else {
      LinesIncrease(x, parse, lines[..|lines| - 1], before);
    }
  }
}
