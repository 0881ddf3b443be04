/** Entries of a denylist and the search for the last one that matches a path. */
module Entries {
  import opened BlockedPaths

  type Multihash = string
  type Hints = map<string, string>

  /** A rule line. The multihash is empty (Go's nil) for rules that carry none. */
  datatype Entry = Entry(line: nat, allow: bool, hints: Hints, raw: string, mh: Multihash, path: BlockedPath)

  /** A status with the entry that caused it. */
  datatype Answer = NotFound | Blocked(entry: Entry) | Allowed(entry: Entry) | Errored {
    predicate Defined() {
      !NotFound?
    }
  }

  function Verdict(e: Entry): Answer {
    if e.allow then Allowed(e) else Blocked(e)
  }

  /** The verdict of the last entry whose path matches. */
  function LastMatch(es: seq<Entry>, p: string): Answer {
    if es == [] then NotFound
    else if es[|es| - 1].path.Matches(p) then Verdict(es[|es| - 1])
    else LastMatch(es[..|es| - 1], p)
  }

  predicate SomeMatch(es: seq<Entry>, p: string) {
    exists i | 0 <= i < |es| :: es[i].path.Matches(p)
  }

  /** Entry i matches and no later one does. */
  predicate LastMatchAt(es: seq<Entry>, p: string, i: nat) {
    i < |es| && es[i].path.Matches(p) && forall j | i < j < |es| :: !es[j].path.Matches(p)
  }

  lemma {:induction false} LastMatchIsLast(es: seq<Entry>, p: string, i: nat)
    requires LastMatchAt(es, p, i)
    ensures LastMatch(es, p) == Verdict(es[i])
  {
    if i == |es| - 1 {
    } else {
      LastMatchIsLast(es[..|es| - 1], p, i);
    }
  }

  lemma {:induction false} NotFoundIffNoMatch(es: seq<Entry>, p: string)
    ensures LastMatch(es, p) == NotFound <==> !SomeMatch(es, p)
  {
    if es == [] {
    } else {
      var front := es[..|es| - 1];
      NotFoundIffNoMatch(front, p);
      if SomeMatch(front, p) {
        var i :| 0 <= i < |front| && front[i].path.Matches(p);
        assert es[i].path.Matches(p);
      }
    }
  }

  lemma LastMatchMeaning(es: seq<Entry>, p: string)
    ensures LastMatch(es, p) == NotFound <==> !SomeMatch(es, p)
    ensures forall i: nat | LastMatchAt(es, p, i) :: LastMatch(es, p) == Verdict(es[i])
  {
    NotFoundIffNoMatch(es, p);
    forall i: nat | LastMatchAt(es, p, i) ensures LastMatch(es, p) == Verdict(es[i]) {
      LastMatchIsLast(es, p, i);
    }
  }

  /** The backward search of the source. */
  method CheckPathStatus(entries: seq<Entry>, p: string) returns (a: Answer)
    ensures a == LastMatch(entries, p)
    ensures a == NotFound <==> !SomeMatch(entries, p)
    ensures forall i: nat | LastMatchAt(entries, p, i) :: a == Verdict(entries[i])
  {
    LastMatchMeaning(entries, p);
    assert entries[..|entries|] == entries;
    var i := |entries|;
    while i > 0
      invariant 0 <= i <= |entries|
      invariant LastMatch(entries, p) == LastMatch(entries[..i], p)
    {
      i := i - 1;
      ghost var seen := entries[..i + 1];
      assert seen[..i] == entries[..i] && seen[i] == entries[i];
      var e := entries[i];
      if e.path.Matches(p) {
        return if e.allow then Allowed(e) else Blocked(e);
      }
    }
    return NotFound;
  }

  // ---- cloning ----

  /** A Go map of hints: an object that several entries may share. */
  class HintMap {
    var values: Hints

    constructor (values: Hints)
      ensures this.values == values
    {
      this.values := values;
    }

    method Set(key: string, value: string)
      modifies this
      ensures values == old(values)[key := value]
    {
      values := values[key := value];
    }
  }

  /** An entry as it lies in memory, with its map of hints. */
  datatype EntryInMemory = EntryInMemory(line: nat, allow: bool, hints: HintMap, raw: string, mh: Multihash, path: BlockedPath) {
    function Value(): Entry
      reads hints
    {
      Entry(line, allow, hints.values, raw, mh, path)
    }
  }

  /** The entry with a map of its own. */
  method Place(e: Entry) returns (m: EntryInMemory)
    ensures fresh(m.hints) && m.Value() == e
  {
    var hints := new HintMap(e.hints);
    m := EntryInMemory(e.line, e.allow, hints, e.raw, e.mh, e.path);
  }

  /** Clone copies the hints key by key into a map of its own, and leaves the original as it is. */
  method Clone(e: EntryInMemory) returns (c: EntryInMemory)
    ensures fresh(c.hints) && c.hints != e.hints
    ensures c.Value() == e.Value() == old(e.Value())
  {
    var hints := new HintMap(map[]);
    var todo := e.hints.values.Keys;
    while todo != {}
      invariant fresh(hints) && e.hints.values == old(e.hints.values)
      invariant todo <= e.hints.values.Keys
      invariant hints.values == map k | k in e.hints.values && k !in todo :: e.hints.values[k]
      decreases todo
    {
      var k :| k in todo;
      hints.Set(k, e.hints.values[k]);
      todo := todo - {k};
    }
    assert hints.values == e.hints.values;
    c := e.(hints := hints);
  }

  // ---- laws of searching a list ----

  lemma {:induction false} LastMatchIgnoresEndSlash(es: seq<Entry>, p: string)
    requires Clean(p)
    ensures LastMatch(es, "/" + p) == LastMatch(es, p) == LastMatch(es, p + "/") == LastMatch(es, "/" + p + "/")
  {
    if es == [] {
    } else {
      MatchesIgnoresEndSlash(es[|es| - 1].path, p);
      LastMatchIgnoresEndSlash(es[..|es| - 1], p);
    }
  }

  /** A list of prefix block rules blocks an upward-closed set of paths. */
  lemma {:induction false} PrefixBlocksAreUpwardClosed(es: seq<Entry>, p: string, longer: string)
    requires forall i | 0 <= i < |es| :: es[i].path.prefix && !es[i].allow
    requires Clean(p) && Clean(longer) && p <= longer
    requires LastMatch(es, p).Blocked?
    ensures LastMatch(es, longer).Blocked?
  {
    if es == [] {
    } else {
      if es[|es| - 1].path.Matches(p) {
        PrefixMatchExtends(es[|es| - 1].path, p, longer);
      } else if !es[|es| - 1].path.Matches(longer) {
        PrefixBlocksAreUpwardClosed(es[..|es| - 1], p, longer);
      }
    }
  }
}
