/** The loop that follows a denylist file line by line under a line-length budget. */
module Follower {
  import opened GoStrings
  import opened Rules
  import opened Index
  import opened Lines
  import opened Reader
  import opened Denylist

  const MAX_LINE_SIZE: nat := 0x20_0000

  /** `maxLine` is the budget each line starts with, `capacity` the size of the read-ahead buffer. */
  datatype Config = Config(maxLine: nat, capacity: nat)

  datatype Mode = Running | TooLong | Stopped | Crashed

  /**
    The follower between two calls of ReadString. `pos` counts the bytes taken from the file,
    `n` is the budget left, `buf` was read ahead, `held` is the unfinished line, `lines` were
    handed to the parser, `ahead` bytes were already buffered when the current line began, and
    `ends` counts how often the end of the file was met.
   */
  datatype Follow = Follow(pos: nat, n: nat, buf: string, held: string, ahead: nat, lines: seq<string>, ends: nat, mode: Mode)

  function Begin(cfg: Config): Follow {
    Follow(0, cfg.maxLine, "", "", 0, [], 0, Running)
  }

  /** What the loop does with one reading. */
  function After(cfg: Config, s: Follow, r: Reading): Follow {
    if r.eof then
      if r.n == 0 then Follow(r.pos, r.n, r.buf, s.held + r.part, s.ahead, s.lines, s.ends, TooLong)
      else Follow(r.pos, r.n, r.buf, s.held + r.part, s.ahead, s.lines, s.ends + 1, Running)
    else
      var line := s.held + r.part;
      Follow(r.pos, cfg.maxLine, r.buf, "", |r.buf|, s.lines + [line], s.ends, if Panics(line) then Crashed else Running)
  }

  /** One turn of the loop while the file holds `body`. An end of file may be met anywhere in it, before the rest arrives. */
  ghost predicate Turn(cfg: Config, body: string, s: Follow, s': Follow) {
    s.mode.Running? && exists r :: Reads(cfg.capacity, body, s.pos, s.n, s.buf, r) && s' == After(cfg, s, r)
  }

  /** Bytes taken are lines, the unfinished line and the read-ahead; the budget accounts for the last two. */
  ghost predicate Inv(cfg: Config, body: string, s: Follow) {
    && s.pos <= |body|
    && body[..s.pos] == Flatten(s.lines) + s.held + s.buf
    && AllLines(s.lines) && '\n' !in s.held
    && |s.buf| <= cfg.capacity && s.ahead < cfg.capacity
    && s.n + |s.held| + |s.buf| == cfg.maxLine + s.ahead
    && (forall i | 0 <= i < |s.lines| :: |s.lines[i]| < cfg.maxLine + cfg.capacity)
    && (s.mode.TooLong? ==> s.n == 0 && s.buf == "")
  }

  lemma BeginInv(cfg: Config, body: string)
    requires cfg.capacity > 0
    ensures Inv(cfg, body, Begin(cfg))
  {
  }

  /** More bytes arriving change nothing of what was established. */
  lemma InvGrows(cfg: Config, body: string, more: string, s: Follow)
    requires Inv(cfg, body, s) && body <= more
    ensures Inv(cfg, more, s)
  {
    assert more[..s.pos] == body[..s.pos];
  }

  lemma TakenMore(body: string, pos: nat, pos': nat, front: string, buf: string, part: string, buf': string)
    requires pos <= pos' <= |body|
    requires body[..pos] == front + buf
    requires part + buf' == buf + body[pos..pos']
    ensures body[..pos'] == front + part + buf'
  {
    assert body[..pos'] == body[..pos] + body[pos..pos'];
    assert front + (part + buf') == front + part + buf';
  }

  lemma LineFinished(held: string, part: string)
    requires '\n' !in held && IsLine(part)
    ensures IsLine(held + part)
  {
    var line := held + part;
    assert line[..|line| - 1] == held + part[..|part| - 1];
  }

  lemma LineAdded(lines: seq<string>, held: string, part: string, buf: string)
    ensures Flatten(lines) + held + part + buf == Flatten(lines + [held + part]) + "" + buf
  {
    FlattenOneMore(lines, held + part);
    assert Flatten(lines) + held + part == Flatten(lines) + (held + part);
  }

  /** Every turn keeps the invariant. */
  lemma ReadingKeepsInv(cfg: Config, body: string, s: Follow, r: Reading)
    requires Inv(cfg, body, s) && Reads(cfg.capacity, body, s.pos, s.n, s.buf, r)
    ensures Inv(cfg, body, After(cfg, s, r))
  {
    TakenMore(body, s.pos, r.pos, Flatten(s.lines) + s.held, s.buf, r.part, r.buf);
    if r.eof {
      assert Flatten(s.lines) + s.held + r.part + r.buf == Flatten(s.lines) + (s.held + r.part) + r.buf;
    } else {
      LineFinished(s.held, r.part);
      LineAdded(s.lines, s.held, r.part, r.buf);
    }
  }

  lemma TurnKeepsInv(cfg: Config, body: string, s: Follow, s': Follow)
    requires Inv(cfg, body, s) && Turn(cfg, body, s, s')
    ensures Inv(cfg, body, s')
    ensures s.lines <= s'.lines && s.pos <= s'.pos
  {
    var r :| Reads(cfg.capacity, body, s.pos, s.n, s.buf, r) && s' == After(cfg, s, r);
    ReadingKeepsInv(cfg, body, s, r);
  }

  // ---- whole runs ----

  lemma TurnBy(cfg: Config, body: string, s: Follow, r: Reading)
    requires s.mode.Running? && Reads(cfg.capacity, body, s.pos, s.n, s.buf, r)
    ensures Turn(cfg, body, s, After(cfg, s, r))
  {
  }

  /** The states of a run from the beginning to `s`, each turned into the next. */
  ghost predicate Trace(cfg: Config, body: string, trace: seq<Follow>, s: Follow) {
    && trace != [] && trace[0] == Begin(cfg) && trace[|trace| - 1] == s
    && forall i | 0 <= i < |trace| - 1 :: Turn(cfg, body, trace[i], trace[i + 1])
  }

  /** The loop can come to this state by turns over what the file holds. */
  ghost predicate Reached(cfg: Config, body: string, s: Follow) {
    Inv(cfg, body, s) && exists trace :: Trace(cfg, body, trace, s)
  }

  lemma BeginReached(cfg: Config, body: string)
    requires cfg.capacity > 0
    ensures Reached(cfg, body, Begin(cfg))
  {
    BeginInv(cfg, body);
    assert Trace(cfg, body, [Begin(cfg)], Begin(cfg));
  }

  lemma TurnGrows(cfg: Config, body: string, more: string, s: Follow, s': Follow)
    requires Turn(cfg, body, s, s') && body <= more
    ensures Turn(cfg, more, s, s')
  {
    var r :| Reads(cfg.capacity, body, s.pos, s.n, s.buf, r) && s' == After(cfg, s, r);
    assert more[s.pos..r.pos] == body[s.pos..r.pos];
    TurnBy(cfg, more, s, r);
  }

  /** What was reached stays reached when the file grows. */
  lemma ReachedGrows(cfg: Config, body: string, more: string, s: Follow)
    requires Reached(cfg, body, s) && body <= more
    ensures Reached(cfg, more, s)
  {
    InvGrows(cfg, body, more, s);
    var trace :| Trace(cfg, body, trace, s);
    forall i | 0 <= i < |trace| - 1 ensures Turn(cfg, more, trace[i], trace[i + 1]) {
      TurnGrows(cfg, body, more, trace[i], trace[i + 1]);
    }
    assert Trace(cfg, more, trace, s);
  }

  lemma TurnReaches(cfg: Config, body: string, s: Follow, s': Follow)
    requires Reached(cfg, body, s) && Turn(cfg, body, s, s')
    ensures Reached(cfg, body, s')
  {
    TurnKeepsInv(cfg, body, s, s');
    var trace :| Trace(cfg, body, trace, s);
    var longer := trace + [s'];
    assert forall i | 0 <= i < |trace| - 1 :: Turn(cfg, body, longer[i], longer[i + 1]);
    assert Trace(cfg, body, longer, s');
  }

  /** A turn that met the end of the file, with budget left. */
  predicate EndTurn(s: Follow, s': Follow) {
    s'.mode.Running? && s'.lines == s.lines
  }

  function EndTurns(trace: seq<Follow>): nat {
    if |trace| < 2 then 0
    else EndTurns(trace[..|trace| - 1]) + if EndTurn(trace[|trace| - 2], trace[|trace| - 1]) then 1 else 0
  }

  /** `ends` is the number of turns that met the end. */
  lemma {:induction false} EndsAreCounted(cfg: Config, body: string, trace: seq<Follow>, s: Follow)
    requires Trace(cfg, body, trace, s)
    ensures s.ends == EndTurns(trace)
  {
    if |trace| == 1 {
    } else {
      var front := trace[..|trace| - 1];
      assert forall i | 0 <= i < |front| - 1 :: Turn(cfg, body, front[i], front[i + 1]);
      EndsAreCounted(cfg, body, front, trace[|trace| - 2]);
      assert Turn(cfg, body, trace[|trace| - 2], trace[|trace| - 2 + 1]);
    }
  }

  // ---- chunk independence ----

  /** The parser has been given the first lines of the file, each once and in order, whatever the reads were. */
  lemma LinesAreFirstLines(cfg: Config, body: string, s: Follow)
    requires Inv(cfg, body, s)
    ensures CompleteLines(body) == s.lines + CompleteLines(body[|Flatten(s.lines)|..])
    ensures Tail(body) == Tail(body[|Flatten(s.lines)|..])
    ensures s.held + s.buf + body[s.pos..] == body[|Flatten(s.lines)|..]
  {
    var rest := s.held + s.buf + body[s.pos..];
    assert body == body[..s.pos] + body[s.pos..];
    assert body == Flatten(s.lines) + rest;
    LinesThen(s.lines, rest);
  }

  /** Once the whole file is taken and nothing is read ahead, it was all its lines, and the tail is held back. */
  lemma DrainedLines(cfg: Config, body: string, s: Follow)
    requires Inv(cfg, body, s) && s.pos == |body| && s.buf == ""
    ensures s.lines == CompleteLines(body) && s.held == Tail(body)
  {
    assert body[..s.pos] == body;
    assert Flatten(s.lines) + s.held + "" == Flatten(s.lines) + s.held;
    SplitIsUnique(s.lines, s.held);
  }

  // ---- the line limit ----

  /** No line of at most `maxLine` bytes is rejected: the one the follower gave up on is longer, complete or not. */
  lemma OnlyLongLinesRejected(cfg: Config, body: string, s: Follow)
    requires Inv(cfg, body, s) && s.mode.TooLong?
    ensures |s.held| == cfg.maxLine + s.ahead
    ensures if |s.lines| < |CompleteLines(body)| then |CompleteLines(body)[|s.lines|]| > cfg.maxLine + s.ahead
            else |Tail(body)| >= cfg.maxLine + s.ahead
  {
    LinesAreFirstLines(cfg, body, s);
    var rest := body[|Flatten(s.lines)|..];
    var (before, after, found) := Cut(rest, '\n');
    HeldBeforeNewline(s.held, rest);
    if found {
      assert CompleteLines(body)[|s.lines|] == before + "\n";
    } else {
      NoNewlineNoLines(rest);
    }
  }

  lemma HeldBeforeNewline(held: string, rest: string)
    requires held <= rest && '\n' !in held
    ensures |Cut(rest, '\n').0| >= |held|
  {
    var (before, after, found) := Cut(rest, '\n');
    assert found ==> rest[|before|] == '\n';
    assert forall i | 0 <= i < |held| :: held[i] == rest[i];
  }

  /**
    The limit on a complete line of the file is exactly the budget plus what was buffered when
    it began: handed over, it is no longer than that; given up on, it is longer.
   */
  lemma LimitIsExact(cfg: Config, body: string, s: Follow, s': Follow)
    requires Inv(cfg, body, s) && Turn(cfg, body, s, s') && |s.lines| < |CompleteLines(body)|
    ensures |s'.lines| > |s.lines| ==>
              && s'.lines == s.lines + [CompleteLines(body)[|s.lines|]]
              && |CompleteLines(body)[|s.lines|]| <= cfg.maxLine + s.ahead
    ensures s'.mode.TooLong? ==> s'.lines == s.lines && |CompleteLines(body)[|s.lines|]| > cfg.maxLine + s.ahead
  {
    var r :| Reads(cfg.capacity, body, s.pos, s.n, s.buf, r) && s' == After(cfg, s, r);
    ReadingKeepsInv(cfg, body, s, r);
    if r.eof {
      if r.n == 0 {
        OnlyLongLinesRejected(cfg, body, s');
      }
    } else {
      LinesAreFirstLines(cfg, body, s');
      assert CompleteLines(body)[|s.lines|] == s'.lines[|s.lines|];
      assert |r.part| + |r.buf| == |s.buf| + (r.pos - s.pos);
    }
  }

  lemma ReadAhead(cfg: Config, line: string, k: nat)
    requires k < cfg.capacity && k < cfg.maxLine && k <= |line|
    ensures Reads(cfg.capacity, "\n" + line, 0, cfg.maxLine, "", Reading("\n", false, k + 1, cfg.maxLine - k - 1, line[..k]))
  {
    assert ("\n" + line)[0..k + 1] == "\n" + line[..k];
  }

  lemma ReadRest(cfg: Config, line: string, k: nat)
    requires cfg.capacity > 0 && IsLine(line) && |line| == cfg.maxLine + k
    ensures Reads(cfg.capacity, "\n" + line, k + 1, cfg.maxLine, line[..k], Reading(line, false, |line| + 1, 0, ""))
  {
    assert line[..k] + ("\n" + line)[k + 1..|line| + 1] == line;
  }

  lemma ReadBudget(cfg: Config, line: string)
    requires IsLine(line) && |line| > cfg.maxLine
    ensures Reads(cfg.capacity, "\n" + line, 1, cfg.maxLine, "", Reading(line[..cfg.maxLine], true, cfg.maxLine + 1, 0, ""))
  {
    assert ("\n" + line)[1..cfg.maxLine + 1] == line[..cfg.maxLine];
    assert line[..|line| - 1][..cfg.maxLine] == line[..cfg.maxLine];
  }

  lemma EmptyLineIsSkipped()
    ensures !Panics("\n")
  {
    LastByte("\n", '\n');
  }

  lemma AfterEmptyLine(cfg: Config, r: Reading)
    requires r.part == "\n" && !r.eof
    ensures After(cfg, Begin(cfg), r) == Follow(r.pos, cfg.maxLine, r.buf, "", |r.buf|, ["\n"], 0, Running)
  {
    EmptyLineIsSkipped();
    assert "" + r.part == "\n" && [] + ["\n"] == ["\n"];
  }

  /**
    Between the two bounds the outcome depends on the reads, at every length. Here a line that is
    `k` bytes over the budget stands behind an empty line. If `k` bytes of it came with the empty
    line it is accepted,
  */
  lemma AcceptedWithReadAhead(cfg: Config, line: string, k: nat) returns (a: Follow, a': Follow)
    requires 1 <= k < cfg.capacity && k < cfg.maxLine
    requires IsLine(line) && |line| == cfg.maxLine + k
    ensures Turn(cfg, "\n" + line, Begin(cfg), a) && Turn(cfg, "\n" + line, a, a')
    ensures a'.lines == ["\n"] + [line]
  {
    var first := Reading("\n", false, k + 1, cfg.maxLine - k - 1, line[..k]);
    var rest := Reading(line, false, |line| + 1, 0, "");
    ReadAhead(cfg, line, k);
    ReadRest(cfg, line, k);
    AfterEmptyLine(cfg, first);
    TurnBy(cfg, "\n" + line, Begin(cfg), first);
    a := After(cfg, Begin(cfg), first);
    TurnBy(cfg, "\n" + line, a, rest);
    a' := After(cfg, a, rest);
    assert a.held + line == line;
  }

  /** and if none did, every line over the budget is given up on. */
  lemma RejectedWithoutReadAhead(cfg: Config, line: string) returns (b: Follow, b': Follow)
    requires cfg.capacity > 0 && cfg.maxLine > 0
    requires IsLine(line) && |line| > cfg.maxLine
    ensures Turn(cfg, "\n" + line, Begin(cfg), b) && Turn(cfg, "\n" + line, b, b')
    ensures b'.mode.TooLong? && b'.lines == ["\n"]
  {
    var first := Reading("\n", false, 1, cfg.maxLine - 1, "");
    var rest := Reading(line[..cfg.maxLine], true, cfg.maxLine + 1, 0, "");
    ReadAhead(cfg, line, 0);
    ReadBudget(cfg, line);
    AfterEmptyLine(cfg, first);
    TurnBy(cfg, "\n" + line, Begin(cfg), first);
    b := After(cfg, Begin(cfg), first);
    TurnBy(cfg, "\n" + line, b, rest);
    b' := After(cfg, b, rest);
  }

  predicate SomeLineReaches(lines: seq<string>, tail: string, size: nat) {
    |tail| >= size || exists i | 0 <= i < |lines| :: |lines[i]| >= size
  }

  /** A follower that drained the file met nothing of `maxLine + capacity` bytes or more. */
  lemma DrainedMeansShortLines(cfg: Config, body: string, s: Follow)
    requires Inv(cfg, body, s) && s.pos == |body| && s.buf == ""
    ensures !SomeLineReaches(CompleteLines(body), Tail(body), cfg.maxLine + cfg.capacity)
  {
    DrainedLines(cfg, body, s);
  }

  /** A follower that gave up has a line or tail of more than, or exactly, the budget ahead of it. */
  lemma TooLongMeansLongLine(cfg: Config, body: string, s: Follow)
    requires Inv(cfg, body, s) && s.mode.TooLong?
    ensures SomeLineReaches(CompleteLines(body), Tail(body), cfg.maxLine)
  {
    OnlyLongLinesRejected(cfg, body, s);
  }

  // ---- the loop ----

  /** The part of the file that is being followed, as far as it is there. */
  ghost function Body(file: FileHandle, start: nat): string
    requires file.Valid() && start <= file.size
    reads file
  {
    file.bytes[start..file.size]
  }

  lemma ReadsInBody(capacity: nat, bytes: string, start: nat, size: nat, pos: nat, n: nat, buf: string, r: Reading)
    requires start <= pos && r.pos <= size <= |bytes| && Reads(capacity, bytes, pos, n, buf, r)
    ensures Reads(capacity, bytes[start..size], pos - start, n, buf, r.(pos := r.pos - start))
  {
    SliceOfSlice(bytes, start, size, pos, r.pos);
  }

  lemma SliceOfSlice<T>(s: seq<T>, a: nat, b: nat, i: nat, j: nat)
    requires a <= i <= j <= b <= |s|
    ensures s[a..b][i - a..j - a] == s[i..j]
  {
    var t := s[a..b][i - a..j - a];
    assert |t| == j - i;
    forall k | 0 <= k < |t| ensures t[k] == s[i..j][k] {
      assert t[k] == s[a..b][i - a + k];
    }
  }

  lemma BodyGrows(bytes: string, start: nat, size: nat, size': nat)
    requires start <= size <= size' <= |bytes|
    ensures bytes[start..size] <= bytes[start..size']
  {
  }

  /** The follower's variables, seen as a state of the loop. */
  ghost predicate Following(cfg: Config, r: LineReader, start: nat, line: string, s: Follow)
    reads r, r.file
  {
    && r.Valid() && start <= r.file.pos && r.capacity == cfg.capacity
    && s == Follow(r.file.pos - start, r.n, r.buf, line, s.ahead, s.lines, s.ends, Running)
    && Reached(cfg, Body(r.file, start), s)
  }

  /** The bytes not yet handed to the loop. */
  ghost function Unread(r: LineReader): nat
    requires r.file.Valid()
    reads r, r.file
  {
    |r.file.bytes| - r.file.pos + |r.buf|
  }

  /** A reading of the file is a turn over the part that is followed. */
  lemma ReadingIsTurn(cfg: Config, bytes: string, start: nat, size: nat, size': nat, s: Follow, r: Reading)
    requires start <= size <= size' <= |bytes| && s.mode.Running? && Reached(cfg, bytes[start..size], s)
    requires r.pos <= size' && Reads(cfg.capacity, bytes, start + s.pos, s.n, s.buf, r)
    ensures var relative, body := r.(pos := r.pos - start), bytes[start..size'];
            Turn(cfg, body, s, After(cfg, s, relative)) && Reached(cfg, body, After(cfg, s, relative))
    ensures |r.part| + |r.buf| == |s.buf| + (r.pos - (start + s.pos))
  {
    var relative, body := r.(pos := r.pos - start), bytes[start..size'];
    ReadsInBody(cfg.capacity, bytes, start, size', start + s.pos, s.n, s.buf, r);
    BodyGrows(bytes, start, size, size');
    ReachedGrows(cfg, bytes[start..size], body, s);
    TurnBy(cfg, body, s, relative);
    TurnReaches(cfg, body, s, After(cfg, s, relative));
    assert |r.part + r.buf| == |s.buf + bytes[start + s.pos..r.pos]|;
  }

  /** One call of ReadString is one turn of the loop. */
  method NextReading(r: LineReader, line: string, ghost cfg: Config, ghost start: nat, ghost s: Follow)
    returns (part: string, eof: bool, ghost s': Follow)
    requires Following(cfg, r, start, line, s)
    modifies r, r.file
    ensures r.Valid() && old(r.file.pos) <= r.file.pos && old(r.file.size) <= r.file.size
    ensures Turn(cfg, Body(r.file, start), s, s') && Reached(cfg, Body(r.file, start), s')
    ensures s' == After(cfg, s, Reading(part, eof, r.file.pos - start, r.n, r.buf))
    ensures eof && r.n > 0 ==> r.file.pos == r.file.size
    ensures !eof ==> Unread(r) < old(Unread(r))
    ensures Unread(r) <= old(Unread(r))
  {
    ghost var pos, n, buf, size := r.file.pos, r.n, r.buf, r.file.size;
    part, eof := r.ReadString();
    ghost var absolute := Reading(part, eof, r.file.pos, r.n, r.buf);
    ghost var reading := absolute.(pos := r.file.pos - start);
    ReadingIsTurn(cfg, r.file.bytes, start, size, r.file.size, s, absolute);
    s' := After(cfg, s, reading);
  }

  /** The state after the last turn: stopping is none. */
  function LastTurn(s: Follow): Follow {
    if s.mode.Stopped? then s.(mode := Running) else s
  }

  /** What the way the loop ended says about the part of the file that is there. */
  ghost predicate Explained(cfg: Config, body: string, s: Follow) {
    && Reached(cfg, body, LastTurn(s)) && !s.mode.Running?
    && (s.mode.Stopped? ==> s.lines == CompleteLines(body) && s.held == Tail(body))
    && (s.mode.TooLong? ==> SomeLineReaches(CompleteLines(body), Tail(body), cfg.maxLine))
    && (SomeLineReaches(CompleteLines(body), Tail(body), cfg.maxLine + cfg.capacity) ==> !s.mode.Stopped?)
    && (s.mode.Crashed? ==> s.lines != [] && Panics(s.lines[|s.lines| - 1]))
  }

  /** The follower stopped at the end it met after this many waits, or met no more ends than that. */
  predicate Waited(s: Follow, waits: nat) {
    if s.mode.Stopped? then s.ends == waits + 1 else s.ends <= waits
  }

  lemma TooLongIsExplained(cfg: Config, body: string, s: Follow)
    requires Reached(cfg, body, s) && s.mode.TooLong?
    ensures Explained(cfg, body, s)
  {
    TooLongMeansLongLine(cfg, body, s);
  }

  lemma StoppingIsExplained(cfg: Config, body: string, s: Follow)
    requires Reached(cfg, body, s) && s.mode.Running? && s.pos == |body| && s.buf == ""
    ensures Explained(cfg, body, s.(mode := Stopped))
  {
    assert LastTurn(s.(mode := Stopped)) == s;
    DrainedLines(cfg, body, s);
    DrainedMeansShortLines(cfg, body, s);
  }

  lemma CrashIsExplained(cfg: Config, body: string, s: Follow)
    requires Reached(cfg, body, s) && s.mode.Crashed? && s.lines != [] && Panics(s.lines[|s.lines| - 1])
    ensures Explained(cfg, body, s)
  {
  }

  /** Between two turns: the parser has processed the lines so far, and the reader is where the state says. */
  ghost predicate Synced(cfg: Config, dl: Denylist, r: LineReader, start: nat, before: nat, rules0: seq<Rule>,
                         line: string, number: nat, s: Follow)
    reads dl, dl.Repr(), r, r.file
  {
    && dl.Valid() && {r, r.file} !! dl.Repr()
    && Following(cfg, r, start, line, s)
    && number == before + |s.lines|
    && dl.rules == rules0 + RulesOf(Parser(dl.codecs, dl.hints), s.lines, before)
  }

  /** Parsing one more line adds its rule, if any, to the rules of the lines before. */
  method ParseNext(dl: Denylist, line: string, number: nat, ghost lines: seq<string>, ghost before: nat, ghost rules0: seq<Rule>)
    returns (panicked: bool)
    requires dl.Valid() && number == before + |lines| + 1
    requires dl.rules == rules0 + RulesOf(Parser(dl.codecs, dl.hints), lines, before)
    modifies dl.Repr()
    ensures dl.Valid() && fresh(dl.Repr() - old(dl.Repr()))
    ensures dl.rules == rules0 + RulesOf(Parser(dl.codecs, dl.hints), lines + [line], before)
    ensures panicked <==> Panics(line)
  {
    RulesOfNext(Parser(dl.codecs, dl.hints), lines, line, before, rules0);
    PanicIsPanics(dl.codecs, dl.hints, line, number);
    var outcome := dl.ParseLine(line, number);
    panicked := outcome.Panicked?;
  }

  /** What a turn came to: a line was parsed, the end was met, or the loop must end. */
  datatype Event = Parsed | AtEnd | Ended

  /** When the loop has ended: the rules are those of the lines it was given, and the way it ended is explained. */
  ghost predicate Done(cfg: Config, dl: Denylist, r: LineReader, start: nat, before: nat, rules0: seq<Rule>, s: Follow)
    reads dl, dl.Repr(), r, r.file
  {
    && dl.Valid() && r.Valid() && start <= r.file.pos && s.pos == r.file.pos - start
    && dl.rules == rules0 + RulesOf(Parser(dl.codecs, dl.hints), s.lines, before)
    && Explained(cfg, Body(r.file, start), s)
  }

  /** Resets the budget, after which the loop can go on with the next line. */
  method ResetBudget(dl: Denylist, r: LineReader, number: nat,
                     ghost cfg: Config, ghost start: nat, ghost before: nat, ghost rules0: seq<Rule>, ghost s': Follow)
    requires dl.Valid() && r.Valid() && {r, r.file} !! dl.Repr() && start <= r.file.pos && r.capacity == cfg.capacity
    requires dl.rules == rules0 + RulesOf(Parser(dl.codecs, dl.hints), s'.lines, before) && number == before + |s'.lines|
    requires Reached(cfg, Body(r.file, start), s') && s'.mode.Running? && s'.held == ""
    requires s'.pos == r.file.pos - start && s'.n == MAX_LINE_SIZE && s'.buf == r.buf
    modifies r`n
    ensures dl.Repr() == old(dl.Repr()) && Synced(cfg, dl, r, start, before, rules0, "", number, s')
  {
    r.n := MAX_LINE_SIZE;
  }

  /** Parses a full line that was just read and resets the budget for the next. */
  method FinishLine(dl: Denylist, r: LineReader, line: string, number: nat,
                    ghost cfg: Config, ghost start: nat, ghost before: nat, ghost rules0: seq<Rule>, ghost s: Follow, ghost s': Follow)
    returns (event: Event)
    requires dl.Valid() && r.Valid() && {r, r.file} !! dl.Repr() && start <= r.file.pos && r.capacity == cfg.capacity
    requires dl.rules == rules0 + RulesOf(Parser(dl.codecs, dl.hints), s.lines, before)
    requires number == before + |s.lines| + 1
    requires Reached(cfg, Body(r.file, start), s') && cfg.maxLine == MAX_LINE_SIZE
    requires s' == Follow(r.file.pos - start, MAX_LINE_SIZE, r.buf, "", s'.ahead, s.lines + [line], s.ends,
                          if Panics(line) then Crashed else Running)
    modifies dl.Repr(), r`n
    ensures fresh(dl.Repr() - old(dl.Repr()))
    ensures event == if Panics(line) then Ended else Parsed
    ensures event.Parsed? ==> Synced(cfg, dl, r, start, before, rules0, "", number, s')
    ensures event.Ended? ==> Done(cfg, dl, r, start, before, rules0, s')
  {
    var panicked := ParseNext(dl, line, number, s.lines, before, rules0);
    if panicked {
      CrashIsExplained(cfg, Body(r.file, start), s');
      event := Ended;
    } else {
      ResetBudget(dl, r, number, cfg, start, before, rules0, s');
      event := Parsed;
    }
  }

  /** Reading leaves the denylist alone. */
  method ReadBeside(dl: Denylist, r: LineReader, line: string, ghost cfg: Config, ghost start: nat, ghost s: Follow)
    returns (part: string, eof: bool, ghost s': Follow)
    requires dl.Valid() && {r, r.file} !! dl.Repr() && Following(cfg, r, start, line, s)
    modifies r, r.file
    ensures dl.Valid() && dl.Repr() == old(dl.Repr())
    ensures r.Valid() && start <= r.file.pos && old(r.file.size) <= r.file.size
    ensures Reached(cfg, Body(r.file, start), s')
    ensures s' == After(cfg, s, Reading(part, eof, r.file.pos - start, r.n, r.buf))
    ensures eof ==> r.buf == "" && Unread(r) <= old(Unread(r)) && (r.n > 0 ==> r.file.pos == r.file.size)
    ensures !eof ==> Unread(r) < old(Unread(r))
  {
    part, eof, s' := NextReading(r, line, cfg, start, s);
  }

  /** One turn: read, check the budget, hold a partial line back, or parse a full one and reset the budget. */
  method OneTurn(dl: Denylist, r: LineReader, line: string, number: nat,
                 ghost cfg: Config, ghost start: nat, ghost before: nat, ghost rules0: seq<Rule>, ghost s: Follow)
    returns (line': string, number': nat, event: Event, ghost s': Follow)
    requires Synced(cfg, dl, r, start, before, rules0, line, number, s) && cfg.maxLine == MAX_LINE_SIZE
    modifies dl.Repr(), r, r.file
    ensures fresh(dl.Repr() - old(dl.Repr())) && old(r.file.size) <= r.file.size
    ensures if event.Ended? then Done(cfg, dl, r, start, before, rules0, s')
            else Synced(cfg, dl, r, start, before, rules0, line', number', s') && Unread(r) <= old(Unread(r))
    ensures event.Parsed? ==> Unread(r) < old(Unread(r))
    ensures event.AtEnd? ==> s'.pos == |Body(r.file, start)| && s'.buf == ""
    ensures s'.ends == s.ends + (if event.AtEnd? then 1 else 0) && !s'.mode.Stopped?
  {
    var part, eof;
    part, eof, s' := ReadBeside(dl, r, line, cfg, start, s);
    line', number' := line + part, number;
    if eof && r.n == 0 {
      TooLongIsExplained(cfg, Body(r.file, start), s');
      event := Ended;
    } else if eof {
      event := AtEnd;
    } else {
      number' := number + 1;
      event := FinishLine(dl, r, line', number', cfg, start, before, rules0, s, s');
      line' := "";
    }
  }

  lemma BeginSynced(cfg: Config, dl: Denylist, r: LineReader, before: nat)
    requires dl.Valid() && r.Valid() && {r, r.file} !! dl.Repr() && r.capacity == cfg.capacity && r.buf == "" && r.n == cfg.maxLine
    ensures Synced(cfg, dl, r, r.file.pos, before, dl.rules, "", before, Begin(cfg))
  {
    BeginReached(cfg, Body(r.file, r.file.pos));
    assert dl.rules + [] == dl.rules;
  }

  lemma StoppingIsDone(cfg: Config, dl: Denylist, r: LineReader, start: nat, before: nat, rules0: seq<Rule>,
                       line: string, number: nat, s: Follow, stopped: Follow)
    requires Synced(cfg, dl, r, start, before, rules0, line, number, s)
    requires s.pos == |Body(r.file, start)| && s.buf == "" && stopped == s.(mode := Stopped)
    ensures Done(cfg, dl, r, start, before, rules0, stopped)
  {
    StoppingIsExplained(cfg, Body(r.file, start), s);
  }

  /**
    followLines. At the end of the file it waits for a write event `waits` times and then stops,
    as it does at once when not following. Every line is parsed before the next is read. It stops
    exactly at the end that it meets after all its waits, and what ends it otherwise comes before.
   */
  method FollowLines(dl: Denylist, r: LineReader, before: nat, waits: nat) returns (ghost s: Follow)
    requires dl.Valid() && r.Valid() && r.buf == "" && {r, r.file} !! dl.Repr()
    modifies dl.Repr(), r, r.file
    ensures Done(Config(MAX_LINE_SIZE, r.capacity), dl, r, old(r.file.pos), before, old(dl.rules), s)
    ensures Waited(s, waits)
    ensures old(r.file.size) <= r.file.size
  {
    r.n := MAX_LINE_SIZE;
    BeginSynced(Config(MAX_LINE_SIZE, r.capacity), dl, r, before);
    s := Loop(dl, r, before, waits, Config(MAX_LINE_SIZE, r.capacity));
  }

  method Loop(dl: Denylist, r: LineReader, before: nat, waits: nat, ghost cfg: Config) returns (ghost s: Follow)
    requires Synced(cfg, dl, r, r.file.pos, before, dl.rules, "", before, Begin(cfg)) && cfg.maxLine == MAX_LINE_SIZE
    modifies dl.Repr(), r, r.file
    ensures Done(cfg, dl, r, old(r.file.pos), before, old(dl.rules), s)
    ensures Waited(s, waits)
    ensures old(r.file.size) <= r.file.size
  {
    var line, lineNumber, left := "", before, waits;
    ghost var start, rules0 := r.file.pos, dl.rules;
    s := Begin(cfg);
    while true
      invariant Synced(cfg, dl, r, start, before, rules0, line, lineNumber, s)
      invariant s.ends + left == waits
      invariant fresh(dl.Repr() - old(dl.Repr())) && old(r.file.size) <= r.file.size
      decreases left, Unread(r)
    {
      var event;
      ghost var repr := dl.Repr();
      line, lineNumber, event, s := OneTurn(dl, r, line, lineNumber, cfg, start, before, rules0, s);
      assert dl.Repr() - old(dl.Repr()) <= (dl.Repr() - repr) + (repr - old(dl.Repr()));
      if event.Ended? {
        return;
      }
      if event.AtEnd? {
        if left == 0 {
          ghost var stopped := s.(mode := Stopped);
          StoppingIsDone(cfg, dl, r, start, before, rules0, line, lineNumber, s, stopped);
          return stopped;
        }
        left := left - 1;
      }
    }
  }
}
