/** Finding the end of the header, and repositioning the file after it. */
module Header {
  import opened Options
  import opened Entries
  import opened Multiformats
  import opened Index
  import opened Lines
  import opened Reader
  import opened Denylist
  import opened Follower

  const MAX_HEADER_SIZE: nat := 0x10_0000
  const SEPARATOR := "---\n"
  const CURRENT_VERSION := 1

  /** The fields of the YAML document that matter here. */
  datatype Document = Document(version: int, hints: Hints)

  datatype Decoded = NoHeader | Bounded(headerBytes: string, headerLines: nat)

  /** Line i is the first separator, and it ends within the first `limit` bytes. */
  ghost predicate Boundary(bytes: string, limit: nat, i: nat) {
    var lines := CompleteLines(bytes);
    && i < |lines| && lines[i] == SEPARATOR && SEPARATOR !in lines[..i]
    && |Flatten(lines[..i + 1])| <= limit
  }

  /** What Decode finds: the lines before the boundary and their number including the separator, or no header. */
  ghost predicate Finds(bytes: string, limit: nat, d: Decoded) {
    match d
    case NoHeader => forall i: nat :: !Boundary(bytes, limit, i)
    case Bounded(headerBytes, headerLines) =>
      && headerLines > 0 && Boundary(bytes, limit, headerLines - 1)
      && headerBytes == Flatten(CompleteLines(bytes)[..headerLines - 1])
  }

  lemma LinesRead(bytes: string, pos: nat, lines: seq<string>, buf: string)
    requires pos <= |bytes| && AllLines(lines) && bytes[..pos] == Flatten(lines) + buf
    ensures lines <= CompleteLines(bytes)
  {
    var rest := buf + bytes[pos..];
    WholeText(bytes, pos, Flatten(lines), buf);
    LinesThen(lines, rest);
  }

  lemma WholeText(bytes: string, pos: nat, front: string, buf: string)
    requires pos <= |bytes| && bytes[..pos] == front + buf
    ensures bytes == front + (buf + bytes[pos..])
  {
    assert bytes == bytes[..pos] + bytes[pos..];
  }

  lemma SeparatorIsLine()
    ensures IsLine(SEPARATOR) && |SEPARATOR| == 4
  {
  }

  lemma FirstLines(lines: seq<string>, l: string, all: seq<string>)
    requires lines + [l] <= all
    ensures |lines| < |all| && all[|lines|] == l
    ensures all[..|lines|] == lines && all[..|lines| + 1] == lines + [l]
  {
  }

  lemma LastLineRead(bytes: string, pos: nat, lines: seq<string>, l: string, buf: string)
    requires pos <= |bytes| && AllLines(lines) && IsLine(l)
    requires bytes[..pos] == Flatten(lines + [l]) + buf
    ensures lines + [l] <= CompleteLines(bytes)
  {
    forall i | 0 <= i < |lines + [l]| ensures IsLine((lines + [l])[i]) {
    }
    LinesRead(bytes, pos, lines + [l], buf);
  }

  lemma FoundIsBoundary(bytes: string, limit: nat, pos: nat, lines: seq<string>, buf: string)
    requires pos <= |bytes| && pos <= limit && AllLines(lines) && SEPARATOR !in lines
    requires bytes[..pos] == Flatten(lines + [SEPARATOR]) + buf
    ensures Finds(bytes, limit, Bounded(Flatten(lines), |lines| + 1))
  {
    SeparatorIsLine();
    LastLineRead(bytes, pos, lines, SEPARATOR, buf);
    FirstLines(lines, SEPARATOR, CompleteLines(bytes));
    assert |Flatten(lines + [SEPARATOR])| <= pos;
  }

  /** A line that was not complete within the first `pos` bytes ends after them. */
  lemma NextLineEndsLater(bytes: string, pos: nat, lines: seq<string>, part: string, i: nat)
    requires pos <= |bytes| && AllLines(lines) && '\n' !in part
    requires bytes[..pos] == Flatten(lines) + part
    requires |lines| <= i < |CompleteLines(bytes)|
    ensures pos < |Flatten(CompleteLines(bytes)[..i + 1])| <= |bytes|
  {
    var text := Flatten(CompleteLines(bytes)[..i + 1]);
    SplitAfter(bytes, i + 1);
    NewlinesOfLines(lines);
    NewlinesConcat(Flatten(lines), part);
    NoNewlines(part);
    assert Newlines(bytes[..pos]) < Newlines(text);
    if |text| <= pos {
      NewlinesOfPrefix(text, bytes[..pos]);
    }
  }

  lemma MissingIsNoHeader(bytes: string, limit: nat, pos: nat, lines: seq<string>, part: string)
    requires pos == if limit < |bytes| then limit else |bytes|
    requires AllLines(lines) && SEPARATOR !in lines && '\n' !in part
    requires bytes[..pos] == Flatten(lines) + part
    ensures Finds(bytes, limit, NoHeader)
  {
    LinesRead(bytes, pos, lines, part);
    forall i: nat ensures !Boundary(bytes, limit, i) {
      NotABoundary(bytes, limit, pos, lines, part, i);
    }
  }

  lemma NotABoundary(bytes: string, limit: nat, pos: nat, lines: seq<string>, part: string, i: nat)
    requires pos == if limit < |bytes| then limit else |bytes|
    requires AllLines(lines) && SEPARATOR !in lines && '\n' !in part
    requires bytes[..pos] == Flatten(lines) + part && lines <= CompleteLines(bytes)
    ensures !Boundary(bytes, limit, i)
  {
    if i < |lines| {
      assert CompleteLines(bytes)[i] == lines[i] && lines[i] in lines;
    } else if i < |CompleteLines(bytes)| {
      NextLineEndsLater(bytes, pos, lines, part, i);
    }
  }

  lemma NewlinesOfPrefix(a: string, b: string)
    requires a <= b
    ensures Newlines(a) <= Newlines(b)
  {
    NewlinesConcat(a, b[|a|..]);
    assert a + b[|a|..] == b;
  }

  /** What of the file is there. */
  ghost function Present(file: FileHandle): string
    requires file.Valid()
    reads file
  {
    file.bytes[..file.size]
  }

  lemma PrefixOfPresent(bytes: string, pos: nat, size: nat)
    requires pos <= size <= |bytes|
    ensures bytes[..size][..pos] == bytes[..pos]
  {
  }

  /**
    Decode. It reads through a buffer that may run past the boundary, so the file is left
    somewhere behind it. The file may grow meanwhile: what is found is what is there in the end.
   */
  method Decode(file: FileHandle, capacity: nat) returns (d: Decoded)
    requires file.Valid() && file.pos == 0 && capacity > 0
    modifies file
    ensures file.Valid() && old(file.size) <= file.size
    ensures Finds(Present(file), MAX_HEADER_SIZE, d)
    ensures d.Bounded? ==> |d.headerBytes| + |SEPARATOR| <= file.pos
  {
    var buf := new LineReader(file, capacity, MAX_HEADER_SIZE);
    var headerBytes, headerLines := "", 0;
    ghost var lines: seq<string> := [];
    while true
      invariant buf.Valid() && file.Valid() && old(file.size) <= file.size && buf.file == file && fresh(buf)
      invariant buf.n + file.pos == MAX_HEADER_SIZE
      invariant AllLines(lines) && SEPARATOR !in lines && headerLines == |lines| && headerBytes == Flatten(lines)
      invariant file.bytes[..file.pos] == Flatten(lines) + buf.buf
      decreases |file.bytes| - file.pos + |buf.buf|
    {
      ghost var pos, ahead := file.pos, buf.buf;
      var line, eof := buf.ReadString();
      TakenMore(file.bytes, pos, file.pos, Flatten(lines), ahead, line, buf.buf);
      assert |line| + |buf.buf| == |ahead| + (file.pos - pos);
      PrefixOfPresent(file.bytes, file.pos, file.size);
      if eof {
        assert Flatten(lines) + line + buf.buf == Flatten(lines) + line;
        MissingIsNoHeader(Present(file), MAX_HEADER_SIZE, file.pos, lines, line);
        return NoHeader;
      }
      headerLines := headerLines + 1;
      FlattenOneMore(lines, line);
      if line == SEPARATOR {
        FoundIsBoundary(Present(file), MAX_HEADER_SIZE, file.pos, lines, buf.buf);
        return Bounded(headerBytes, headerLines);
      }
      headerBytes := headerBytes + line;
      lines := lines + [line];
    }
  }

  lemma HeaderText(bytes: string, limit: nat, d: Decoded)
    requires d.Bounded? && Finds(bytes, limit, d)
    ensures Flatten(CompleteLines(bytes)[..d.headerLines]) == d.headerBytes + SEPARATOR
    ensures |d.headerBytes + SEPARATOR| <= limit
  {
    var lines := CompleteLines(bytes);
    FlattenOneMore(lines[..d.headerLines - 1], SEPARATOR);
    assert lines[..d.headerLines] == lines[..d.headerLines - 1] + [SEPARATOR];
  }

  /** Header, separator and body are the whole file, and the body starts just after the separator. */
  lemma SplitAtBoundary(bytes: string, limit: nat, d: Decoded)
    requires d.Bounded? && Finds(bytes, limit, d)
    ensures var offset := |d.headerBytes| + |SEPARATOR|;
            && offset <= |bytes| && offset <= limit
            && bytes == d.headerBytes + SEPARATOR + bytes[offset..]
            && Newlines(bytes[..offset]) == d.headerLines
            && CompleteLines(bytes[offset..]) == CompleteLines(bytes)[d.headerLines..]
  {
    HeaderText(bytes, limit, d);
    SplitAfter(bytes, d.headerLines);
    HeadAndTail(bytes, d.headerBytes, SEPARATOR);
  }

  lemma HeadAndTail(bytes: string, a: string, b: string)
    requires a + b <= bytes
    ensures |a| + |b| <= |bytes| && bytes == a + b + bytes[|a| + |b|..] && bytes[..|a| + |b|] == a + b
  {
  }

  /** Where the body starts, and how many lines come before it. */
  function BodyStart(d: Decoded): nat {
    match d
    case NoHeader => 0
    case Bounded(headerBytes, _) => |headerBytes| + |SEPARATOR|
  }

  function LinesBefore(d: Decoded): nat {
    match d
    case NoHeader => 0
    case Bounded(_, headerLines) => headerLines
  }

  /** The line stands at the offset, after that many newlines. */
  ghost predicate StandsAt(bytes: string, line: string, offset: nat, newlines: nat) {
    offset <= |bytes| && line <= bytes[offset..] && Newlines(bytes[..offset]) == newlines
  }

  lemma CutTwice(s: string, i: nat, k: nat)
    requires i + k <= |s|
    ensures s[i..][k..] == s[i + k..]
    ensures s[..i + k] == s[..i] + s[i..][..k]
  {
  }

  /** Line j of the first lines of a text stands behind those before it. */
  lemma LineIsNext(body: string, lines: seq<string>, j: nat)
    requires lines <= CompleteLines(body) && j < |lines|
    ensures Flatten(lines[..j]) <= body && lines[j] <= body[|Flatten(lines[..j])|..]
    ensures Newlines(Flatten(lines[..j])) == j
  {
    assert CompleteLines(body)[..j] == lines[..j];
    SplitAfter(body, j);
    LineBehind(body, j);
  }

  lemma StandsAfter(bytes: string, start: nat, text: string, line: string)
    requires start <= |bytes| && text <= bytes[start..] && line <= bytes[start..][|text|..]
    ensures StandsAt(bytes, line, start + |text|, Newlines(bytes[..start]) + Newlines(text))
  {
    CutTwice(bytes, start, |text|);
    assert bytes[start..][..|text|] == text;
    assert bytes[..start + |text|] == bytes[..start] + text;
    NewlinesConcat(bytes[..start], text);
    assert Newlines(bytes[..start + |text|]) == Newlines(bytes[..start]) + Newlines(text);
  }

  /** Every line stands behind `start`, the lines before it, and as many newlines as its number says, less one. */
  ghost predicate LinesStand(bytes: string, start: nat, n: nat, lines: seq<string>) {
    forall j | 0 <= j < |lines| :: StandsAt(bytes, lines[j], start + |Flatten(lines[..j])|, n + j)
  }

  lemma LinesAfterStart(bytes: string, start: nat, n: nat, lines: seq<string>)
    requires start <= |bytes| && Newlines(bytes[..start]) == n && lines <= CompleteLines(bytes[start..])
    ensures LinesStand(bytes, start, n, lines)
  {
    forall j | 0 <= j < |lines| ensures StandsAt(bytes, lines[j], start + |Flatten(lines[..j])|, n + j) {
      LineIsNext(bytes[start..], lines, j);
      StandsAfter(bytes, start, Flatten(lines[..j]), lines[j]);
    }
  }

  /**
    With a header or without, the line that the parser gets as number `LinesBefore + j + 1` is
    line j of the body, and that number is one more than the newlines before it in the file.
   */
  lemma LineNumbers(bytes: string, limit: nat, d: Decoded, lines: seq<string>)
    requires Finds(bytes, limit, d)
    requires BodyStart(d) <= |bytes| ==> lines <= CompleteLines(bytes[BodyStart(d)..])
    ensures LinesStand(bytes, BodyStart(d), LinesBefore(d), lines)
  {
    BodyStartsAfter(bytes, limit, d);
    LinesAfterStart(bytes, BodyStart(d), LinesBefore(d), lines);
  }

  lemma BodyStartsAfter(bytes: string, limit: nat, d: Decoded)
    requires Finds(bytes, limit, d)
    ensures BodyStart(d) <= |bytes| && Newlines(bytes[..BodyStart(d)]) == LinesBefore(d)
  {
    match d {
      case NoHeader => assert bytes[..0] == "";
      case Bounded(_, _) => SplitAtBoundary(bytes, limit, d);
    }
  }

  // ---- opening a denylist ----

  datatype Opening = Opening(start: nat, before: nat, hints: Hints)

  /** readHeader: decode, interpret the document, and seek to the start of the body. */
  method ReadHeader(file: FileHandle, capacity: nat, yaml: string -> Option<Document>) returns (o: Option<Opening>, d: Decoded)
    requires file.Valid() && file.pos == 0 && capacity > 0
    modifies file
    ensures file.Valid() && old(file.size) <= file.size
    ensures Finds(Present(file), MAX_HEADER_SIZE, d)
    ensures d.NoHeader? ==> o == Some(Opening(0, 0, map[]))
    ensures d.Bounded? ==>
              match yaml(d.headerBytes)
              case None => o == None
              case Some(doc) =>
                o == if doc.version > 0 && doc.version != CURRENT_VERSION then None
                     else Some(Opening(BodyStart(d), LinesBefore(d), doc.hints))
    ensures o.Some? ==> file.pos == o.value.start == BodyStart(d)
  {
    d := Decode(file, capacity);
    match d {
      case NoHeader =>
        file.Seek(0);
        o := Some(Opening(0, 0, map[]));
      case Bounded(headerBytes, headerLines) =>
        match yaml(headerBytes) {
          case None => o := None;
          case Some(doc) =>
            if doc.version > 0 && doc.version != CURRENT_VERSION {
              return None, d;
            }
            file.Seek(|headerBytes| + 4);
            o := Some(Opening(|headerBytes| + 4, headerLines, doc.hints));
        }
    }
  }

  /** followLines on a new reader over the positioned file. */
  method FollowFile(dl: Denylist, file: FileHandle, capacity: nat, before: nat, waits: nat) returns (ghost s: Follow)
    requires dl.Valid() && file !in dl.Repr()
    requires file.Valid() && capacity > 0
    modifies dl.Repr(), file
    ensures dl.Valid() && file.Valid() && old(file.pos) <= old(file.size) <= file.size
    ensures Explained(Config(MAX_LINE_SIZE, capacity), Body(file, old(file.pos)), s) && Waited(s, waits)
    ensures dl.rules == old(dl.rules) + RulesOf(Parser(dl.codecs, dl.hints), s.lines, before)
  {
    var r := new LineReader(file, capacity, MAX_LINE_SIZE);
    s := FollowLines(dl, r, before, waits);
  }

  /** A denylist filled from the body. */
  method ReadBody(codecs: Codecs, hints: Hints, file: FileHandle, capacity: nat, before: nat, waits: nat)
    returns (dl: Denylist, ghost s: Follow)
    requires file.Valid() && capacity > 0
    modifies file
    ensures dl.Valid() && dl.codecs == codecs && dl.hints == hints
    ensures file.Valid() && old(file.pos) <= old(file.size) <= file.size
    ensures Explained(Config(MAX_LINE_SIZE, capacity), Body(file, old(file.pos)), s) && Waited(s, waits)
    ensures dl.rules == RulesOf(Parser(codecs, hints), s.lines, before)
  {
    dl := new Denylist(codecs, hints);
    assert dl.Repr() == {dl, dl.ipfs, dl.ipns, dl.paths};
    s := FollowFile(dl, file, capacity, before, waits);
    assert [] + RulesOf(Parser(codecs, hints), s.lines, before) == RulesOf(Parser(codecs, hints), s.lines, before);
  }

  /**
    Opening a list: the header, found in the first `seen` bytes, then every line of the body,
    which may grow. At the end it waits `waits` times for more.
   */
  method Open(codecs: Codecs, file: FileHandle, capacity: nat, yaml: string -> Option<Document>, waits: nat)
    returns (dl: Option<Denylist>, ghost d: Decoded, ghost seen: nat, ghost s: Follow)
    requires file.Valid() && file.pos == 0 && capacity > 0
    modifies file
    ensures file.Valid() && old(file.size) <= seen <= file.size
    ensures Finds(file.bytes[..seen], MAX_HEADER_SIZE, d)
    ensures dl.Some? ==>
              && dl.value.Valid() && BodyStart(d) <= file.size
              && Explained(Config(MAX_LINE_SIZE, capacity), Body(file, BodyStart(d)), s) && Waited(s, waits)
              && dl.value.rules == RulesOf(Parser(codecs, dl.value.hints), s.lines, LinesBefore(d))
    ensures d.NoHeader? ==> dl.Some? && dl.value.hints == map[]
    ensures d.Bounded? && dl.Some? ==> yaml(d.headerBytes).Some? && dl.value.hints == yaml(d.headerBytes).value.hints
  {
    var o, decoded := ReadHeader(file, capacity, yaml);
    d, dl, seen := decoded, None, file.size;
    s := Begin(Config(MAX_LINE_SIZE, capacity));
    if o.Some? {
      var list;
      list, s := ReadBody(codecs, o.value.hints, file, capacity, o.value.before, waits);
      dl := Some(list);
    }
  }
}
