/** Answers to queries whose reads are spread over a time in which the follower adds rules. */
module LiveQueries {
  import opened Entries
  import opened Rules
  import opened Lookup
  import opened QueryLaws

  /** Probe i is answered when the first times[i] rules were there. */
  function LiveScans(rules: seq<Rule>, plan: seq<Probe>, times: seq<nat>): seq<Answer>
    requires |times| == |plan| && forall i | 0 <= i < |times| :: times[i] <= |rules|
  {
    seq(|plan|, i requires 0 <= i < |plan| => Scan(rules[..times[i]], plan[i]))
  }

  /** The times of a query that started with `start` rules present and ended with `end`. */
  predicate Timeline(rules: seq<Rule>, times: seq<nat>, start: nat, end: nat) {
    start <= end <= |rules| && forall i | 0 <= i < |times| :: start <= times[i] <= end
  }

  /** No probe before this one was defined when the query started. */
  predicate OpenAt(rules: seq<Rule>, plan: seq<Probe>, start: nat, i: nat)
    requires start <= |rules| && i <= |plan|
  {
    forall j | 0 <= j < i :: !Scan(rules[..start], plan[j]).Defined()
  }

  /** A defined probe never becomes undefined. */
  lemma {:induction false} DefinedStays(rules: seq<Rule>, probe: Probe, k: nat, m: nat)
    requires k <= m <= |rules|
    requires Scan(rules[..k], probe).Defined()
    ensures Scan(rules[..m], probe).Defined()
    decreases m - k
  {
    if k == m {
    } else {
      assert rules[..m][..m - 1] == rules[..m - 1];
      DefinedStays(rules, probe, k, m - 1);
    }
  }

  /** Probes that a live query passed over were undefined when it started. */
  lemma UndefinedBefore(rules: seq<Rule>, plan: seq<Probe>, times: seq<nat>, start: nat, end: nat, i: nat)
    requires |times| == |plan| && Timeline(rules, times, start, end) && i <= |plan|
    requires forall j | 0 <= j < i :: !LiveScans(rules, plan, times)[j].Defined()
    ensures OpenAt(rules, plan, start, i)
  {
    forall j | 0 <= j < i ensures !Scan(rules[..start], plan[j]).Defined() {
      assert !LiveScans(rules, plan, times)[j].Defined();
      if Scan(rules[..start], plan[j]).Defined() {
        DefinedStays(rules, plan[j], start, times[j]);
      }
    }
  }

  /** A live NotFound is right for the rules present when the query started. */
  lemma LiveNotFoundIsRight(rules: seq<Rule>, plan: seq<Probe>, times: seq<nat>, start: nat, end: nat)
    requires |times| == |plan| && Timeline(rules, times, start, end)
    requires FirstDefined(LiveScans(rules, plan, times)) == NotFound
    ensures Reference(rules[..start], plan) == NotFound
  {
    var _ := FirstDefinedIs(LiveScans(rules, plan, times));
    UndefinedBefore(rules, plan, times, start, end, |plan|);
    AllUndefined(Scans(rules[..start], plan));
  }

  /** The rules that some probe of the query hits all allow, or all block. */
  ghost predicate AllSay(rules: seq<Rule>, plan: seq<Probe>, allow: bool) {
    forall r, probe | r in rules && probe in plan && Hits(r, probe) :: r.entry.allow == allow
  }

  /**
    When the rules that the query's probes hit all block, or all allow, every live status is the
    status at the start or at the end of the query.
   */
  lemma LiveStatusIsSomeStatus(rules: seq<Rule>, plan: seq<Probe>, times: seq<nat>, start: nat, end: nat, allow: bool)
    requires |times| == |plan| && Timeline(rules, times, start, end)
    requires AllSay(rules[..end], plan, allow)
    ensures var live := FirstDefined(LiveScans(rules, plan, times));
            SameStatus(live, Reference(rules[..start], plan)) || SameStatus(live, Reference(rules[..end], plan))
  {
    var live := LiveScans(rules, plan, times);
    var i := FirstDefinedIs(live);
    if FirstDefined(live) == NotFound {
      LiveNotFoundIsRight(rules, plan, times, start, end);
    } else if plan[i].Fail? {
      LiveErrorWasThere(rules, plan, times, start, end, i);
    } else {
      var after := Scans(rules[..end], plan);
      DefinedStays(rules, plan[i], times[i], end);
      var k := FirstDefinedIs(after);
      assert after[i].Defined();
      assert k <= i;
      assert k < i ==> !live[k].Defined();
      assert rules[..end][..times[i]] == rules[..times[i]] && rules[..end][..end] == rules[..end];
      StatusOfScan(rules[..end], times[i], plan, i, allow);
      StatusOfScan(rules[..end], end, plan, k, allow);
    }
  }

  /** A query that failed live would have failed at its start. */
  lemma LiveErrorWasThere(rules: seq<Rule>, plan: seq<Probe>, times: seq<nat>, start: nat, end: nat, i: nat)
    requires |times| == |plan| && Timeline(rules, times, start, end)
    requires FirstDefinedAt(LiveScans(rules, plan, times), i) && plan[i].Fail?
    ensures Reference(rules[..start], plan) == Errored
  {
    UndefinedBefore(rules, plan, times, start, end, i);
    FirstDefinedFrom(Scans(rules[..start], plan), i);
  }

  lemma StatusOfScan(rules: seq<Rule>, k: nat, plan: seq<Probe>, i: nat, allow: bool)
    requires k <= |rules| && i < |plan| && AllSay(rules, plan, allow)
    requires Scan(rules[..k], plan[i]).Defined() && !plan[i].Fail?
    ensures if allow then Scan(rules[..k], plan[i]).Allowed? else Scan(rules[..k], plan[i]).Blocked?
  {
    var j := AnswerComesFromRule(rules[..k], plan[i]);
    assert rules[..k][j] in rules && plan[i] in plan;
  }

  /**
    Mixing exceptions and blocks, a query may get an answer that was never right: the exact
    tier is read before an exception and a block arrive, in this order, and the prefix tier after.
   */
  lemma LiveStatusCanBeNoStatus(exception: Rule, block: Rule, s: string)
    requires exception.entry.allow && Hits(exception, PathProbe(s))
    requires !block.entry.allow && Hits(block, PrefixProbe(s))
    ensures Timeline([exception, block], [0, 2], 0, 2)
    ensures FirstDefined(LiveScans([exception, block], SubpathPlan(s), [0, 2])).Blocked?
    ensures forall k | 0 <= k <= 2 :: !Reference([exception, block][..k], SubpathPlan(s)).Blocked?
  {
    var rules := [exception, block];
    assert rules[..0] == [] && rules[..1] == [exception] && rules[..2] == rules;
    FirstDefinedFrom(LiveScans(rules, SubpathPlan(s), [0, 2]), 1);
    AllUndefined(Scans([], SubpathPlan(s)));
    FirstDefinedFrom(Scans([exception], SubpathPlan(s)), 0);
    OthersDoNotMatter([exception], [block], PathProbe(s));
    assert rules == [exception] + [block];
    FirstDefinedFrom(Scans(rules, SubpathPlan(s)), 0);
  }

  // ---- exactly when a live status was right at some moment ----

  /** The status is that of the query at some moment from `start` to `end`. */
  ghost predicate HeldAtSomeMoment(rules: seq<Rule>, plan: seq<Probe>, start: nat, end: nat, a: Answer)
    requires end <= |rules|
  {
    exists k | start <= k <= end :: SameStatus(a, Reference(rules[..k], plan))
  }

  predicate Rising(times: seq<nat>) {
    forall i, j | 0 <= i < j < |times| :: times[i] <= times[j]
  }

  /** Reads are made one after the other. */
  ghost predicate LiveStatusesHeld(rules: seq<Rule>, plan: seq<Probe>, start: nat, end: nat)
    requires end <= |rules|
  {
    forall times: seq<nat> | |times| == |plan| && Timeline(rules, times, start, end) && Rising(times) ::
      HeldAtSomeMoment(rules, plan, start, end, FirstDefined(LiveScans(rules, plan, times)))
  }

  /** What each rule that arrives says, to a probe that its query may get to, is right at some moment. */
  ghost predicate ArrivalsHeld(rules: seq<Rule>, plan: seq<Probe>, start: nat, end: nat)
    requires start <= end <= |rules|
  {
    forall t, i | start <= t < end && 0 <= i < |plan| && Hits(rules[t], plan[i]) && OpenAt(rules, plan, start, i) ::
      HeldAtSomeMoment(rules, plan, start, end, Verdict(rules[t].entry))
  }

  /** A probe's answer is as it was, or is that of a rule that arrived since. */
  lemma {:induction false} ChangedByArrival(rules: seq<Rule>, probe: Probe, start: nat, end: nat) returns (t: nat)
    requires start <= end <= |rules| && !probe.Fail?
    ensures Scan(rules[..end], probe) == Scan(rules[..start], probe)
         || (start <= t < end && Hits(rules[t], probe) && Scan(rules[..end], probe) == Verdict(Reported(rules[t], probe)))
    decreases end - start
  {
    t := start;
    if start == end {
    } else {
      assert rules[..end][..end - 1] == rules[..end - 1];
      if Hits(rules[end - 1], probe) {
        t := end - 1;
      } else {
        t := ChangedByArrival(rules, probe, start, end - 1);
      }
    }
  }

  /** The probes before i are read at the start, the others when `rules[t]` has just arrived. */
  function ReadAround(n: nat, start: nat, i: nat, t: nat): (times: seq<nat>)
    ensures |times| == n
  {
    seq(n, j requires 0 <= j < n => if j < i then start else t + 1)
  }

  lemma ArrivalIsSeen(rules: seq<Rule>, plan: seq<Probe>, start: nat, end: nat, t: nat, i: nat)
    requires start <= t < end <= |rules| && i < |plan| && Hits(rules[t], plan[i]) && OpenAt(rules, plan, start, i)
    ensures var times := ReadAround(|plan|, start, i, t);
            && Timeline(rules, times, start, end) && Rising(times)
            && FirstDefined(LiveScans(rules, plan, times)) == Verdict(Reported(rules[t], plan[i]))
  {
    var times := ReadAround(|plan|, start, i, t);
    assert rules[..t + 1][..t] == rules[..t];
    var live := LiveScans(rules, plan, times);
    assert live[i] == Verdict(Reported(rules[t], plan[i]));
    FirstDefinedFrom(live, i);
  }

  lemma LiveStatusHeld(rules: seq<Rule>, plan: seq<Probe>, times: seq<nat>, start: nat, end: nat)
    requires |times| == |plan| && Timeline(rules, times, start, end) && ArrivalsHeld(rules, plan, start, end)
    ensures HeldAtSomeMoment(rules, plan, start, end, FirstDefined(LiveScans(rules, plan, times)))
  {
    var live := LiveScans(rules, plan, times);
    var i := FirstDefinedIs(live);
    if FirstDefined(live) == NotFound {
      LiveNotFoundIsRight(rules, plan, times, start, end);
    } else if plan[i].Fail? {
      LiveErrorWasThere(rules, plan, times, start, end, i);
    } else {
      UndefinedBefore(rules, plan, times, start, end, i);
      var t := ChangedByArrival(rules, plan[i], start, times[i]);
      if Scan(rules[..times[i]], plan[i]) == Scan(rules[..start], plan[i]) {
        FirstDefinedFrom(Scans(rules[..start], plan), i);
      } else {
        assert HeldAtSomeMoment(rules, plan, start, end, Verdict(rules[t].entry));
      }
    }
  }

  /**
    Every live status is the status at some moment of the query exactly when every rule that
    arrives in it, and hits a probe that no earlier one keeps it from, says the status of some moment.
   */
  lemma LiveStatusExactly(rules: seq<Rule>, plan: seq<Probe>, start: nat, end: nat)
    requires start <= end <= |rules|
    ensures LiveStatusesHeld(rules, plan, start, end) <==> ArrivalsHeld(rules, plan, start, end)
  {
    if ArrivalsHeld(rules, plan, start, end) {
      forall times: seq<nat> | |times| == |plan| && Timeline(rules, times, start, end) && Rising(times)
        ensures HeldAtSomeMoment(rules, plan, start, end, FirstDefined(LiveScans(rules, plan, times)))
      {
        LiveStatusHeld(rules, plan, times, start, end);
      }
    }
    if LiveStatusesHeld(rules, plan, start, end) {
      forall t, i | start <= t < end && 0 <= i < |plan| && Hits(rules[t], plan[i]) && OpenAt(rules, plan, start, i)
        ensures HeldAtSomeMoment(rules, plan, start, end, Verdict(rules[t].entry))
      {
        ArrivalIsSeen(rules, plan, start, end, t, i);
        assert HeldAtSomeMoment(rules, plan, start, end, Verdict(Reported(rules[t], plan[i])));
      }
    }
  }

  /** Rules that all block, or all allow, as far as the query hits them, meet the condition. */
  lemma AgreeingArrivalsHold(rules: seq<Rule>, plan: seq<Probe>, start: nat, end: nat, allow: bool)
    requires start <= end <= |rules| && AllSay(rules[..end], plan, allow)
    ensures ArrivalsHeld(rules, plan, start, end)
  {
    forall t, i | start <= t < end && 0 <= i < |plan| && Hits(rules[t], plan[i]) && OpenAt(rules, plan, start, i)
      ensures HeldAtSomeMoment(rules, plan, start, end, Verdict(rules[t].entry))
    {
      var times := ReadAround(|plan|, start, i, t);
      ArrivalIsSeen(rules, plan, start, end, t, i);
      LiveStatusIsSomeStatus(rules, plan, times, start, end, allow);
    }
  }
}
