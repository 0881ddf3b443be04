/** Several denylists bound together: the first one with a defined status decides. */
module Blocker {
  import opened Entries
  import opened Multiformats
  import opened Rules
  import opened Denylist
  import opened Lookup
  import opened QueryLaws

  class Blocker {
    const denylists: map<string, Denylist>
    ghost const Repr: set<object>  // the lists and what they are made of

    constructor (denylists: map<string, Denylist>, ghost Repr: set<object>)
      ensures this.denylists == denylists && this.Repr == Repr
    {
      this.denylists, this.Repr := denylists, Repr;
    }

    /** Every list is valid, and its hash functions come up in the given order. */
    ghost predicate Ready(hashOrders: map<string, seq<nat>>)
      reads Repr
    {
      && denylists.Keys <= hashOrders.Keys
      && (forall n | n in denylists :: denylists[n] in Repr && denylists[n].Repr() <= Repr)
      && (forall n | n in denylists ::
            denylists[n].Valid() && denylists[n].codecs.Lawful() && denylists[n].HashOrder(hashOrders[n]))
    }

    ghost predicate Hold(rules: map<string, seq<Rule>>)
      reads denylists.Values
    {
      denylists.Keys == rules.Keys && forall n | n in denylists :: denylists[n].rules == rules[n]
    }

    /** The order in which a Go range over the lists may come up: every list once. */
    predicate ListOrder(order: seq<string>) {
      && (forall n | n in order :: n in denylists)
      && (forall n | n in denylists :: n in order)
      && (forall i, j | 0 <= i < j < |order| :: order[i] != order[j])
    }

    ghost function PathAnswers(rules: map<string, seq<Rule>>, segments: seq<string>, hashOrders: map<string, seq<nat>>): map<string, Answer>
      requires denylists.Keys <= hashOrders.Keys && denylists.Keys == rules.Keys
    {
      map n | n in denylists :: Reference(rules[n], PathPlan(denylists[n].codecs, segments, hashOrders[n]))
    }

    ghost function CidAnswers(rules: map<string, seq<Rule>>, c: Cid, hashOrders: map<string, seq<nat>>): map<string, Answer>
      requires denylists.Keys <= hashOrders.Keys && denylists.Keys == rules.Keys
    {
      map n | n in denylists :: Reference(rules[n], CidPlan(denylists[n].codecs, c, hashOrders[n]))
    }

    method AskPath(name: string, segments: seq<string>, hashOrders: map<string, seq<nat>>, ghost rules: map<string, seq<Rule>>)
      returns (a: Answer)
      requires name in denylists && Ready(hashOrders) && Hold(rules)
      ensures Ready(hashOrders) && Hold(rules)
      ensures a == PathAnswers(rules, segments, hashOrders)[name]
    {
      a := denylists[name].IsPathBlocked(segments, hashOrders[name]);
    }

    method AskCid(name: string, c: Cid, hashOrders: map<string, seq<nat>>, ghost rules: map<string, seq<Rule>>)
      returns (a: Answer)
      requires name in denylists && Ready(hashOrders) && Hold(rules)
      ensures Ready(hashOrders) && Hold(rules)
      ensures a == CidAnswers(rules, c, hashOrders)[name]
    {
      a := denylists[name].IsCidBlocked(c, hashOrders[name]);
    }

    /** The first defined answer among the lists' own answers; `rules` names the rules they hold. */
    method IsPathBlocked(segments: seq<string>, order: seq<string>, hashOrders: map<string, seq<nat>>, ghost rules: map<string, seq<Rule>>)
      returns (a: Answer)
      requires ListOrder(order) && Ready(hashOrders) && Hold(rules)
      ensures a == FirstDefined(Listed(PathAnswers(rules, segments, hashOrders), order))
      ensures a == NotFound <==> forall n | n in denylists :: PathAnswers(rules, segments, hashOrders)[n] == NotFound
    {
      ghost var answers := PathAnswers(rules, segments, hashOrders);
      for i := 0 to |order|
        invariant Ready(hashOrders) && Hold(rules)
        invariant AllMiss(answers, order, i)
      {
        a := AskPath(order[i], segments, hashOrders, rules);
        if a != NotFound {
          FirstHit(answers, order, i);
          return;
        }
        MissOneMore(answers, order, i);
      }
      NoHit(answers, order);
      a := NotFound;
    }

    method IsCidBlocked(c: Cid, order: seq<string>, hashOrders: map<string, seq<nat>>, ghost rules: map<string, seq<Rule>>)
      returns (a: Answer)
      requires ListOrder(order) && Ready(hashOrders) && Hold(rules)
      ensures a == FirstDefined(Listed(CidAnswers(rules, c, hashOrders), order))
      ensures a == NotFound <==> forall n | n in denylists :: CidAnswers(rules, c, hashOrders)[n] == NotFound
    {
      ghost var answers := CidAnswers(rules, c, hashOrders);
      for i := 0 to |order|
        invariant Ready(hashOrders) && Hold(rules)
        invariant AllMiss(answers, order, i)
      {
        a := AskCid(order[i], c, hashOrders, rules);
        if a != NotFound {
          FirstHit(answers, order, i);
          return;
        }
        MissOneMore(answers, order, i);
      }
      NoHit(answers, order);
      a := NotFound;
    }
  }

  ghost predicate AllMiss(answers: map<string, Answer>, order: seq<string>, i: nat) {
    && i <= |order|
    && (forall n | n in order :: n in answers)
    && forall j | 0 <= j < i :: answers[order[j]] == NotFound
  }

  lemma MissOneMore(answers: map<string, Answer>, order: seq<string>, i: nat)
    requires AllMiss(answers, order, i) && i < |order| && answers[order[i]] == NotFound
    ensures AllMiss(answers, order, i + 1)
  {
  }

  lemma {:induction false} FirstHit(answers: map<string, Answer>, order: seq<string>, i: nat)
    requires AllMiss(answers, order, i) && i < |order| && answers[order[i]] != NotFound
    ensures FirstDefined(Listed(answers, order)) == answers[order[i]]
    ensures order[i] in answers
  {
    if i == 0 {
    } else {
      assert order[1..][i - 1] == order[i];
      FirstHit(answers, order[1..], i - 1);
    }
  }

  lemma {:induction false} NoHit(answers: map<string, Answer>, order: seq<string>)
    requires AllMiss(answers, order, |order|)
    ensures FirstDefined(Listed(answers, order)) == NotFound
    ensures forall n | n in order :: answers[n] == NotFound
  {
    if order == [] {
    } else {
      NoHit(answers, order[1..]);
    }
  }
}
