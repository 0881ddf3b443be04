/** The whole way of a rule: remote file, appended local copy, follower, denylist. */
module Pipeline {
  import opened Entries
  import opened Multiformats
  import opened Rules
  import opened Index
  import opened Lines
  import opened Follower
  import opened Header
  import opened Subscription

  /** What opening the list fixed: where the body starts, how many lines came before, and how lines parse. */
  datatype Setup = Setup(cfg: Config, start: nat, before: nat, parse: LineParser)

  datatype Pipe = Pipe(remote: string, local: string, follow: Follow, rules: seq<Rule>)

  /** The publisher appends. */
  predicate RemoteGrows(p: Pipe, p': Pipe) {
    p.remote <= p'.remote && p' == p.(remote := p'.remote)
  }

  /** A sync: complete, cut short, refused, or answered with something that is ignored. */
  ghost predicate Syncs(p: Pipe, p': Pipe) {
    exists reply :: CorrectReply(p.remote, |p.local|, reply) && p' == p.(local := AfterReply(p.local, reply))
  }

  /** The rules a turn adds: those of the line it finished, if it finished one. */
  function NewRules(setup: Setup, lines: seq<string>, lines': seq<string>): seq<Rule> {
    if |lines'| > |lines| then Accepts(setup.parse(lines'[|lines'| - 1], setup.before + |lines'|)) else []
  }

  ghost predicate Follows(setup: Setup, p: Pipe, p': Pipe) {
    && setup.start <= |p.local|
    && Turn(setup.cfg, p.local[setup.start..], p.follow, p'.follow)
    && p' == p.(follow := p'.follow, rules := p.rules + NewRules(setup, p.follow.lines, p'.follow.lines))
  }

  /** The watcher fails, and the follower stops. */
  predicate Stops(p: Pipe, p': Pipe) {
    p.follow.mode.Running? && p' == p.(follow := p.follow.(mode := Stopped))
  }

  ghost predicate Step(setup: Setup, p: Pipe, p': Pipe) {
    RemoteGrows(p, p') || Syncs(p, p') || Follows(setup, p, p') || Stops(p, p')
  }

  ghost predicate Init(setup: Setup, p: Pipe) {
    && setup.cfg.capacity > 0
    && p.local <= p.remote && setup.start <= |p.local|
    && p.follow == Begin(setup.cfg) && p.rules == []
  }

  ghost predicate Safe(setup: Setup, p: Pipe) {
    && p.local <= p.remote && setup.start <= |p.local|
    && Inv(setup.cfg, p.local[setup.start..], p.follow)
    && p.rules == RulesOf(setup.parse, p.follow.lines, setup.before)
  }

  lemma LocalGrows(setup: Setup, p: Pipe, local: string)
    requires Safe(setup, p) && p.local <= local <= p.remote
    ensures Safe(setup, p.(local := local))
  {
    assert p.local[setup.start..] <= local[setup.start..];
    InvGrows(setup.cfg, p.local[setup.start..], local[setup.start..], p.follow);
  }

  /** A turn finishes one line at most. */
  ghost predicate OneMore(lines: seq<string>, lines': seq<string>) {
    lines' == lines || exists line :: lines' == lines + [line]
  }

  lemma RulesOfLines(setup: Setup, lines: seq<string>, lines': seq<string>)
    requires OneMore(lines, lines')
    ensures RulesOf(setup.parse, lines', setup.before)
         == RulesOf(setup.parse, lines, setup.before) + NewRules(setup, lines, lines')
  {
    if lines' != lines {
      var line :| lines' == lines + [line];
      assert lines'[|lines|] == line;
      RulesOfOneMore(setup.parse, lines, line, setup.before);
    }
  }

  lemma TurnLines(cfg: Config, body: string, s: Follow, s': Follow)
    requires Turn(cfg, body, s, s')
    ensures OneMore(s.lines, s'.lines)
  {
  }

  lemma FollowKeepsSafe(setup: Setup, p: Pipe, p': Pipe)
    requires Safe(setup, p) && Follows(setup, p, p')
    ensures Safe(setup, p') && p.rules <= p'.rules
  {
    var body := p.local[setup.start..];
    TurnKeepsInv(setup.cfg, body, p.follow, p'.follow);
    TurnLines(setup.cfg, body, p.follow, p'.follow);
    RulesOfLines(setup, p.follow.lines, p'.follow.lines);
  }

  lemma StepKeepsSafe(setup: Setup, p: Pipe, p': Pipe)
    requires Safe(setup, p) && Step(setup, p, p')
    ensures Safe(setup, p') && p.rules <= p'.rules && p.local <= p'.local && p.remote <= p'.remote
  {
    if RemoteGrows(p, p') {
    } else if Syncs(p, p') {
      var reply :| CorrectReply(p.remote, |p.local|, reply) && p' == p.(local := AfterReply(p.local, reply));
      ReplyKeepsPrefix(p.remote, p.local, reply);
      LocalGrows(setup, p, p'.local);
    } else if Follows(setup, p, p') {
      FollowKeepsSafe(setup, p, p');
    }
  }

  ghost predicate Run(setup: Setup, run: seq<Pipe>) {
    run != [] && Init(setup, run[0]) && forall i | 0 <= i < |run| - 1 :: Step(setup, run[i], run[i + 1])
  }

  lemma {:induction false} RunIsSafe(setup: Setup, run: seq<Pipe>, k: nat)
    requires Run(setup, run) && k < |run|
    ensures Safe(setup, run[k])
  {
    if k == 0 {
      BeginInv(setup.cfg, run[0].local[setup.start..]);
    } else {
      RunIsSafe(setup, run, k - 1);
      assert Step(setup, run[k - 1], run[k - 1 + 1]);
      StepKeepsSafe(setup, run[k - 1], run[k]);
    }
  }

  lemma {:induction false} RulesOnlyGrow(setup: Setup, run: seq<Pipe>, i: nat, k: nat)
    requires Run(setup, run) && i <= k < |run|
    ensures run[i].rules <= run[k].rules && run[i].local <= run[k].local
    decreases k - i
  {
    if i == k {
    } else {
      RulesOnlyGrow(setup, run, i, k - 1);
      RunIsSafe(setup, run, k - 1);
      assert Step(setup, run[k - 1], run[k - 1 + 1]);
      StepKeepsSafe(setup, run[k - 1], run[k]);
    }
  }

  /** What safety says of one state. */
  ghost predicate Faithful(setup: Setup, p: Pipe) {
    && p.local <= p.remote && setup.start + p.follow.pos <= |p.local|
    && p.local[setup.start..setup.start + p.follow.pos] == Flatten(p.follow.lines) + p.follow.held + p.follow.buf
    && p.follow.lines <= CompleteLines(p.remote[setup.start..])
    && p.rules == RulesOf(setup.parse, p.follow.lines, setup.before)
  }

  lemma SafeIsFaithful(setup: Setup, p: Pipe)
    requires Safe(setup, p)
    ensures Faithful(setup, p)
  {
    LinesInRemote(setup, p);
    assert p.local[setup.start..][..p.follow.pos] == p.local[setup.start..setup.start + p.follow.pos];
  }

  /**
    In every reachable state the bytes consumed are a prefix of the local file, which is a
    prefix of the remote one, and the rules are exactly those of the first lines of the remote
    body, each parsed once, in order and under its own number; and rules are never lost.
   */
  lemma PipelineSafety(setup: Setup, run: seq<Pipe>, k: nat)
    requires Run(setup, run) && k < |run|
    ensures Faithful(setup, run[k])
    ensures forall i | 0 <= i <= k :: run[i].rules <= run[k].rules
  {
    RunIsSafe(setup, run, k);
    SafeIsFaithful(setup, run[k]);
    forall i | 0 <= i <= k ensures run[i].rules <= run[k].rules {
      RulesOnlyGrow(setup, run, i, k);
    }
  }

  lemma LinesInRemote(setup: Setup, p: Pipe)
    requires Safe(setup, p)
    ensures p.follow.lines <= CompleteLines(p.remote[setup.start..])
  {
    var body, all := p.local[setup.start..], p.remote[setup.start..];
    assert body <= all;
    InvGrows(setup.cfg, body, all, p.follow);
    LinesAreFirstLines(setup.cfg, all, p.follow);
  }

  /** Once synced and drained, the rules are those of every complete line of the remote body. */
  lemma SettledPipeline(setup: Setup, run: seq<Pipe>, k: nat)
    requires Run(setup, run) && k < |run|
    requires run[k].local == run[k].remote
    requires setup.start + run[k].follow.pos == |run[k].local| && run[k].follow.buf == ""
    ensures run[k].rules == RulesOf(setup.parse, CompleteLines(run[k].remote[setup.start..]), setup.before)
    ensures run[k].follow.held == Tail(run[k].remote[setup.start..])
  {
    RunIsSafe(setup, run, k);
    DrainedLines(setup.cfg, run[k].local[setup.start..], run[k].follow);
  }

  /** With the real parser, the rules of every reachable state are well formed and their line numbers strictly increase. */
  lemma RulesInOrder(setup: Setup, run: seq<Pipe>, k: nat, x: Codecs, base: Hints)
    requires Run(setup, run) && k < |run| && setup.parse == Parser(x, base)
    ensures forall r | r in run[k].rules :: WellFormed(x, r) && setup.before < r.entry.line
    ensures forall i, j | 0 <= i < j < |run[k].rules| :: run[k].rules[i].entry.line < run[k].rules[j].entry.line
  {
    RunIsSafe(setup, run, k);
    ParserIsSound(x, base);
    LinesIncrease(x, setup.parse, run[k].follow.lines, setup.before);
  }

  /** A follower that gave up or crashed adds nothing any more. */
  lemma {:induction false} EndedStaysEnded(setup: Setup, run: seq<Pipe>, i: nat, k: nat)
    requires Run(setup, run) && i <= k < |run| && !run[i].follow.mode.Running?
    ensures run[k].follow == run[i].follow && run[k].rules == run[i].rules
    decreases k - i
  {
    if i == k {
    } else {
      EndedStaysEnded(setup, run, i, k - 1);
      assert Step(setup, run[k - 1], run[k - 1 + 1]);
    }
  }

  // ---- the header, once found, stays ----

  lemma PrefixOfPrefix<T>(a: seq<T>, b: seq<T>, n: nat)
    requires a <= b && n <= |a|
    ensures b[..n] == a[..n]
  {
  }

  /** A header found in the local file when it was opened is the header of every longer file. */
  lemma HeaderStays(bytes: string, more: string, limit: nat, d: Decoded)
    requires bytes <= more && d.Bounded? && Finds(bytes, limit, d)
    ensures Finds(more, limit, d)
  {
    var lines := CompleteLines(bytes);
    SplitIsWhole(bytes);
    LinesRead(more, |bytes|, lines, Tail(bytes));
    PrefixOfPrefix(lines, CompleteLines(more), d.headerLines - 1);
    PrefixOfPrefix(lines, CompleteLines(more), d.headerLines);
  }

  lemma LocalStaysInRemote(setup: Setup, run: seq<Pipe>, k: nat)
    requires Run(setup, run) && k < |run|
    ensures run[0].local <= run[k].remote && setup.start <= |run[k].remote|
    ensures run[k].follow.lines <= CompleteLines(run[k].remote[setup.start..])
  {
    RunIsSafe(setup, run, k);
    RulesOnlyGrow(setup, run, 0, k);
    LinesInRemote(setup, run[k]);
  }

  /**
    With a header or without, as the file was when it was opened, every line the parser ever
    gets carries its number in the remote file.
   */
  lemma NumbersFitRemote(setup: Setup, run: seq<Pipe>, k: nat, d: Decoded)
    requires Run(setup, run) && k < |run|
    requires Finds(run[0].local, MAX_HEADER_SIZE, d)
    requires setup.start == BodyStart(d) && setup.before == LinesBefore(d)
    ensures LinesStand(run[k].remote, setup.start, setup.before, run[k].follow.lines)
  {
    LocalStaysInRemote(setup, run, k);
    match d {
      case NoHeader =>
        assert run[k].remote[..0] == "";
        LinesAfterStart(run[k].remote, 0, 0, run[k].follow.lines);
      case Bounded(_, _) =>
        HeaderStays(run[0].local, run[k].remote, MAX_HEADER_SIZE, d);
        LineNumbers(run[k].remote, MAX_HEADER_SIZE, d, run[k].follow.lines);
    }
  }
}
