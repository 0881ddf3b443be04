/** The path part of a rule: how it is read from the rule's text and which paths it matches. */
module BlockedPaths {
  import opened Options
  import opened GoStrings

  datatype BlockedPath = BlockedPath(path: string, prefix: bool) {
    /** Whether this path matches the given one, which is first freed of one slash at each end. */
    predicate Matches(p: string) {
      var q := TrimPrefix(TrimSuffix(p, "/"), "/");
      path == "*" || (path == "" && q == "") || (prefix && path <= q) || path == q
    }
  }

  const EMPTY_PATH := BlockedPath("", false)

  function TrimSlashes(p: string): string {
    TrimSuffix(TrimPrefix(p, "/"), "/")
  }

  /** Reads the text of a path: a trailing star, with or without a slash before it, makes it a prefix, then the rest is unescaped and trimmed. */
  function NewBlockedPath(raw: string): Option<BlockedPath> {
    if raw == "" then Some(EMPTY_PATH)
    else
      var prefix := HasSuffix(raw, "*");
      var text := if HasSuffix(raw, "/*") then TrimSuffix(raw, "/*") else TrimSuffix(raw, "*");
      match QueryUnescape(text)
      case None => None
      case Some(p) => Some(BlockedPath(TrimSlashes(p), prefix))
  }

  /** No slash at either end. */
  predicate Clean(p: string) {
    !("/" <= p) && !HasSuffix(p, "/")
  }

  // ---- reading back what a percent-escaper wrote ----

  lemma TrimSlashesIsIdentity(p: string)
    ensures TrimSlashes(p) == p <==> Clean(p)
  {
  }

  lemma NoStarAfter(e: string)
    requires e == "" || e[|e| - 1] != '*'
    ensures !HasSuffix(e, "*") && !HasSuffix(e, "/*")
  {
  }

  lemma ExactPathRoundTrip(s: string)
    requires IsBytes(s)
    ensures NewBlockedPath(PercentEscape(s)) == Some(BlockedPath(TrimSlashes(s), false))
  {
    EscapedIsVisible(s);
    UnescapeOfEscape(s);
    NoStarAfter(PercentEscape(s));
  }

  lemma StarAfter(e: string)
    ensures HasSuffix(e + "*", "*") && TrimSuffix(e + "*", "*") == e
  {
    LastByte(e + "*", '*');
  }

  lemma SlashStarAfter(e: string)
    ensures HasSuffix(e + "*", "/*") <==> HasSuffix(e, "/")
    ensures HasSuffix(e, "/") ==> TrimSuffix(e + "*", "/*") == e[..|e| - 1]
  {
    LastByte(e, '/');
    if |e| > 0 {
      var raw := e + "*";
      assert raw[|raw| - 2..] == [e[|e| - 1], '*'];
      assert raw[..|raw| - 2] == e[..|e| - 1];
    }
  }

  lemma PrefixPathRoundTrip(s: string)
    requires IsBytes(s)
    ensures NewBlockedPath(PercentEscape(s) + "*") == Some(BlockedPath(TrimSlashes(TrimSuffix(s, "/")), true))
  {
    if s != "" {
      assert s == s[..|s| - 1] + [s[|s| - 1]];
      EscapedEnd(s[..|s| - 1], s[|s| - 1]);
      LastByte(s, '/');
    }
    StarAfter(PercentEscape(s));
    SlashStarAfter(PercentEscape(s));
    UnescapeOfEscape(TrimSuffix(s, "/"));
  }

  // ---- any text ----

  /** The tokens before a closing star, without the slash that may stand before it. */
  function BeforeStar(tokens: seq<Token>): seq<Token>
    requires tokens != []
  {
    var front := tokens[..|tokens| - 1];
    if front != [] && front[|front| - 1] == Token.Plain('/') then front[..|front| - 1] else front
  }

  /** What a path written in tokens means: with a plain star at its end, a prefix. */
  function PathMeant(tokens: seq<Token>): BlockedPath {
    if tokens != [] && tokens[|tokens| - 1] == Token.Plain('*') then BlockedPath(TrimSlashes(Meant(BeforeStar(tokens))), true)
    else BlockedPath(TrimSlashes(Meant(tokens)), false)
  }

  lemma {:induction false} WrittenConcat(a: seq<Token>, b: seq<Token>)
    ensures Written(a + b) == Written(a) + Written(b)
  {
    if a == [] {
      assert a + b == b;
    } else {
      WrittenConcat(a[1..], b);
      assert (a + b)[1..] == a[1..] + b;
      Associate(a[0].Text(), Written(a[1..]), Written(b));
    }
  }

  lemma WrittenLast(tokens: seq<Token>)
    requires tokens != []
    ensures Written(tokens) == Written(tokens[..|tokens| - 1]) + tokens[|tokens| - 1].Text()
  {
    var front, last := tokens[..|tokens| - 1], tokens[|tokens| - 1];
    WrittenConcat(front, [last]);
    assert tokens == front + [last];
    assert [last][1..] == [] && Written([last]) == last.Text();
  }

  /** A text ends with this byte, neither digit nor plus, exactly if its last token is the byte itself. */
  lemma LastWritten(tokens: seq<Token>, c: char)
    requires AllGood(tokens) && c in {'*', '/'}
    ensures HasSuffix(Written(tokens), [c]) <==> tokens != [] && tokens[|tokens| - 1] == Token.Plain(c)
  {
    LastByte(Written(tokens), c);
    if tokens != [] {
      WrittenLast(tokens);
      LastOfToken(tokens[|tokens| - 1], c);
    }
  }

  lemma LastOfToken(t: Token, c: char)
    requires t.Good() && c in {'*', '/'}
    ensures t.Text() != "" && (t.Text()[|t.Text()| - 1] == c <==> t == Token.Plain(c))
  {
  }

  lemma TextBeforeStar(tokens: seq<Token>)
    requires AllGood(tokens) && tokens != [] && tokens[|tokens| - 1] == Token.Plain('*')
    ensures var raw, front := Written(tokens), Written(tokens[..|tokens| - 1]);
            && raw == front + "*"
            && Written(BeforeStar(tokens)) == if HasSuffix(front, "/") then front[..|front| - 1] else front
  {
    var front := tokens[..|tokens| - 1];
    WrittenLast(tokens);
    LastWritten(front, '/');
    if front != [] && front[|front| - 1] == Token.Plain('/') {
      WrittenLast(front);
    }
  }

  lemma ReadsTokens(tokens: seq<Token>)
    requires AllGood(tokens)
    ensures NewBlockedPath(Written(tokens)) == Some(PathMeant(tokens))
  {
    var raw := Written(tokens);
    LastWritten(tokens, '*');
    if HasSuffix(raw, "*") {
      var front := Written(tokens[..|tokens| - 1]);
      TextBeforeStar(tokens);
      StarAfter(front);
      SlashStarAfter(front);
      UnescapeWritten(BeforeStar(tokens));
    } else {
      NoStarAfter(raw);
      UnescapeWritten(tokens);
      if tokens == [] {
        assert Meant(tokens) == "";
      } else {
        WrittenLast(tokens);
        LastOfToken(tokens[|tokens| - 1], '*');
      }
    }
  }

  lemma StarTokens(front: seq<Token>, slash: bool) returns (tokens: seq<Token>)
    requires AllGood(front)
    ensures AllGood(tokens) && Written(tokens) == Written(front) + (if slash then "/" else "") + "*"
  {
    var last := if slash then [Token.Plain('/'), Token.Plain('*')] else [Token.Plain('*')];
    tokens := front + last;
    WrittenConcat(front, last);
    assert last[1..] == (if slash then [Token.Plain('*')] else []) && [Token.Plain('*')][1..] == [];
    assert Written(last) == if slash then "/*" else "*";
    assert Written(front) + (if slash then "/" else "") + "*" == Written(front) + (if slash then "/*" else "*");
  }

  lemma SuffixBack(s: string, suffix: string)
    requires HasSuffix(s, suffix)
    ensures TrimSuffix(s, suffix) + suffix == s
  {
  }

  lemma PathTokens(raw: string) returns (tokens: seq<Token>)
    requires NewBlockedPath(raw).Some?
    ensures AllGood(tokens) && Written(tokens) == raw
  {
    if raw == "" {
      tokens := [];
    } else if HasSuffix(raw, "/*") {
      var front := TokensOf(TrimSuffix(raw, "/*"));
      tokens := StarTokens(front, true);
      SuffixBack(raw, "/*");
      assert Written(front) + "/" + "*" == Written(front) + "/*";
    } else if HasSuffix(raw, "*") {
      var front := TokensOf(TrimSuffix(raw, "*"));
      tokens := StarTokens(front, false);
      SuffixBack(raw, "*");
      assert Written(front) + "" + "*" == Written(front) + "*";
    } else {
      assert TrimSuffix(raw, "*") == raw;
      tokens := TokensOf(raw);
    }
  }

  /** A path text is accepted exactly if it is written in tokens, and then it is read as what they mean. */
  lemma PathExactly(raw: string, bp: BlockedPath)
    ensures NewBlockedPath(raw) == Some(bp) <==> exists tokens :: AllGood(tokens) && Written(tokens) == raw && PathMeant(tokens) == bp
  {
    if NewBlockedPath(raw) == Some(bp) {
      var tokens := PathTokens(raw);
      ReadsTokens(tokens);
    }
    forall tokens | AllGood(tokens) && Written(tokens) == raw && PathMeant(tokens) == bp ensures NewBlockedPath(raw) == Some(bp) {
      ReadsTokens(tokens);
    }
  }

  /** Trimming takes one slash off each end, and nothing else. */
  lemma TrimSlashesTrims(s: string)
    requires Clean(s)
    ensures TrimSlashes(s) == s == TrimSlashes("/" + s)
    ensures s != "" ==> TrimSlashes(s + "/") == s == TrimSlashes("/" + s + "/")
  {
    LastByte(s, '/');
    LastByte("/" + s, '/');
    LastByte(s + "/", '/');
    LastByte("/" + s + "/", '/');
    assert ("/" + s)[1..] == s && ("/" + s + "/")[1..] == s + "/" && (s + "/")[..|s|] == s;
  }

  // ---- laws of matching ----

  /** What a rule's path covers, for a path without slashes at its ends. */
  lemma MatchesClean(bp: BlockedPath, p: string)
    requires Clean(p)
    ensures bp.Matches(p) <==> bp.path == "*" || bp.path == p || (bp.prefix && bp.path <= p)
  {
  }

  /** One slash before or after a clean path changes nothing. */
  lemma MatchesIgnoresEndSlash(bp: BlockedPath, p: string)
    requires Clean(p)
    ensures bp.Matches("/" + p) == bp.Matches(p) == bp.Matches(p + "/") == bp.Matches("/" + p + "/")
  {
    var a, b, c := "/" + p, p + "/", "/" + p + "/";
    assert a[1..] == p && b[..|p|] == p;
    assert c[..|p| + 1] == a;
    if p != "" {
      assert a[|a| - 1] == p[|p| - 1];
      assert b[0] == p[0];
      assert HasSuffix(p, "/") <==> p[|p| - 1] == '/';
    }
  }

  /** A prefix rule that matches a clean path matches every clean extension of it. */
  lemma PrefixMatchExtends(bp: BlockedPath, p: string, longer: string)
    requires Clean(p) && Clean(longer) && p <= longer
    requires bp.prefix && bp.Matches(p)
    ensures bp.Matches(longer)
  {
  }
}
