/** Splitting text into newline-terminated lines and an unterminated tail. */
module Lines {
  import opened GoStrings

  /** One newline, at the end. */
  predicate IsLine(l: string) {
    l != "" && l[|l| - 1] == '\n' && '\n' !in l[..|l| - 1]
  }

  predicate AllLines(lines: seq<string>) {
    forall i | 0 <= i < |lines| :: IsLine(lines[i])
  }

  function Flatten(lines: seq<string>): string {
    if lines == [] then "" else lines[0] + Flatten(lines[1..])
  }

  function CompleteLines(s: string): seq<string>
    decreases |s|
  {
    var (before, after, found) := Cut(s, '\n');
    if found then [before + "\n"] + CompleteLines(after) else []
  }

  function Tail(s: string): string
    decreases |s|
  {
    var (before, after, found) := Cut(s, '\n');
    if found then Tail(after) else s
  }

  function Newlines(s: string): nat {
    if s == "" then 0 else (if s[0] == '\n' then 1 else 0) + Newlines(s[1..])
  }

  lemma {:induction false} FlattenConcat(a: seq<string>, b: seq<string>)
    ensures Flatten(a + b) == Flatten(a) + Flatten(b)
  {
    if a == [] {
      assert a + b == b;
    } else {
      FlattenConcat(a[1..], b);
      assert (a + b)[1..] == a[1..] + b;
      Associate(a[0], Flatten(a[1..]), Flatten(b));
    }
  }

  lemma FlattenOneMore(lines: seq<string>, l: string)
    ensures Flatten(lines + [l]) == Flatten(lines) + l
  {
    FlattenConcat(lines, [l]);
    assert Flatten([l]) == l + Flatten([l][1..]);
  }

  lemma LineThen(l: string, rest: string)
    requires IsLine(l)
    ensures CompleteLines(l + rest) == [l] + CompleteLines(rest)
    ensures Tail(l + rest) == Tail(rest)
  {
    var body := l[..|l| - 1];
    assert l == body + ['\n'];
    assert l + rest == body + ['\n'] + rest;
    CutAt(body, '\n', rest);
    assert body + "\n" == l;
  }

  lemma FlattenFirst(lines: seq<string>, rest: string)
    requires lines != []
    ensures Flatten(lines) + rest == lines[0] + (Flatten(lines[1..]) + rest)
  {
  }

  /** Lines followed by more text split into those lines and what the rest splits into. */
  lemma {:induction false} LinesThen(lines: seq<string>, rest: string)
    requires AllLines(lines)
    ensures CompleteLines(Flatten(lines) + rest) == lines + CompleteLines(rest)
    ensures Tail(Flatten(lines) + rest) == Tail(rest)
  {
    if lines == [] {
      assert Flatten(lines) + rest == rest;
    } else {
      FlattenFirst(lines, rest);
      LinesThen(lines[1..], rest);
      LineThen(lines[0], Flatten(lines[1..]) + rest);
      Regroup(lines, CompleteLines(rest));
    }
  }

  lemma Regroup<T>(a: seq<T>, b: seq<T>)
    requires a != []
    ensures [a[0]] + (a[1..] + b) == a + b
  {
  }

  lemma NoNewlineNoLines(s: string)
    requires '\n' !in s
    ensures CompleteLines(s) == [] && Tail(s) == s
  {
  }

  /** The split is the only one: text made of lines and a tail without newline gives them back. */
  lemma SplitIsUnique(lines: seq<string>, tail: string)
    requires AllLines(lines) && '\n' !in tail
    ensures CompleteLines(Flatten(lines) + tail) == lines && Tail(Flatten(lines) + tail) == tail
  {
    LinesThen(lines, tail);
    NoNewlineNoLines(tail);
  }

  lemma LineOfCut(before: string)
    requires '\n' !in before
    ensures IsLine(before + "\n")
  {
    assert (before + "\n")[..|before|] == before;
  }

  lemma {:induction false} SplitIntoLines(s: string)
    ensures AllLines(CompleteLines(s)) && '\n' !in Tail(s)
    decreases |s|
  {
    var (before, after, found) := Cut(s, '\n');
    if !found {
    } else {
      SplitIntoLines(after);
      LineOfCut(before);
    }
  }

  /** Nothing is lost: the lines and the tail make up the text. */
  lemma {:induction false} SplitIsWhole(s: string)
    ensures AllLines(CompleteLines(s)) && '\n' !in Tail(s)
    ensures Flatten(CompleteLines(s)) + Tail(s) == s
    decreases |s|
  {
    SplitIntoLines(s);
    var (before, after, found) := Cut(s, '\n');
    if !found {
    } else {
      SplitIsWhole(after);
      var lines := CompleteLines(s);
      assert lines == [before + "\n"] + CompleteLines(after);
      FlattenFirst(lines, Tail(s));
      assert lines[1..] == CompleteLines(after);
      assert (before + "\n") + after == s;
    }
  }

  lemma {:induction false} NewlinesConcat(a: string, b: string)
    ensures Newlines(a + b) == Newlines(a) + Newlines(b)
  {
    if a == "" {
      assert a + b == b;
    } else {
      NewlinesConcat(a[1..], b);
      assert (a + b)[1..] == a[1..] + b;
    }
  }

  lemma {:induction false} NoNewlines(s: string)
    requires '\n' !in s
    ensures Newlines(s) == 0
  {
    if s == "" {
    } else {
      NoNewlines(s[1..]);
    }
  }

  lemma NewlinesOfLine(l: string)
    requires IsLine(l)
    ensures Newlines(l) == 1
  {
    NewlinesConcat(l[..|l| - 1], "\n");
    NoNewlines(l[..|l| - 1]);
    assert l == l[..|l| - 1] + "\n";
  }

  /** As many newlines as lines. */
  lemma {:induction false} NewlinesOfLines(lines: seq<string>)
    requires AllLines(lines)
    ensures Newlines(Flatten(lines)) == |lines|
  {
    if lines == [] {
    } else {
      NewlinesOfLine(lines[0]);
      NewlinesConcat(lines[0], Flatten(lines[1..]));
      NewlinesOfLines(lines[1..]);
    }
  }

  lemma FlattenSplit(lines: seq<string>, k: nat, tail: string)
    requires k <= |lines|
    ensures Flatten(lines) + tail == Flatten(lines[..k]) + (Flatten(lines[k..]) + tail)
  {
    assert Flatten(lines) == Flatten(lines[..k]) + Flatten(lines[k..]) by {
      FlattenConcat(lines[..k], lines[k..]);
      assert lines == lines[..k] + lines[k..];
    }
    Associate(Flatten(lines[..k]), Flatten(lines[k..]), tail);
  }

  /** Cutting a text after its first k lines leaves the other lines, and k newlines before the cut. */
  lemma SplitAfter(s: string, k: nat)
    requires k <= |CompleteLines(s)|
    ensures var text := Flatten(CompleteLines(s)[..k]);
            && |text| <= |s| && s[..|text|] == text && Newlines(text) == k
            && CompleteLines(s[|text|..]) == CompleteLines(s)[k..]
  {
    SplitIsWhole(s);
    var lines := CompleteLines(s);
    var text, rest := Flatten(lines[..k]), Flatten(lines[k..]) + Tail(s);
    FlattenSplit(lines, k, Tail(s));
    assert s == text + rest;
    assert s[|text|..] == rest;
    NewlinesOfLines(lines[..k]);
    SplitIsUnique(lines[k..], Tail(s));
  }

  lemma FirstLine(s: string)
    requires CompleteLines(s) != []
    ensures CompleteLines(s)[0] <= s
  {
  }

  /** Line j stands right behind the lines before it. */
  lemma LineBehind(s: string, j: nat)
    requires j < |CompleteLines(s)|
    ensures |Flatten(CompleteLines(s)[..j])| <= |s|
    ensures CompleteLines(s)[j] <= s[|Flatten(CompleteLines(s)[..j])|..]
  {
    var lines := CompleteLines(s);
    SplitAfter(s, j);
    var rest := s[|Flatten(lines[..j])|..];
    FirstLine(rest);
    assert CompleteLines(rest)[0] == lines[j..][0] == lines[j];
  }
}
