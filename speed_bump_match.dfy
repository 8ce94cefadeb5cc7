/**
 * Target pattern matching (src/speed_bump_match.c): a "PATH:SYMBOL"
 * pattern matches a path and a symbol exactly, or by path prefix when the
 * path part ends in '*'. Absent C pointers (NULL) are `None`.
 */
module Match {
  import opened SpeedBump
  import opened CStrings

  /**
   * What a pattern means, independently of how it is scanned: split at its
   * first colon, the symbol equals the text after it, and the path equals
   * the text before it, or starts with that text minus a final '*'.
   */
  ghost predicate Matches(pattern: string, path: string, symbol: string) {
    exists c :: 0 <= c < |pattern| && pattern[c] == ':' && ':' !in pattern[..c] &&
      symbol == pattern[c + 1..] &&
      if 0 < c && pattern[c - 1] == '*' then pattern[..c - 1] <= path else path == pattern[..c]
  }

  predicate NoNulIfPresent(s: Option<string>) {
    s.Some? ==> NoNul(s.value)
  }

  /** speed_bump_match_target: 1 on a match, 0 otherwise. */
  function MatchTarget(pattern: Option<string>, path: Option<string>, symbol: Option<string>): (r: int)
    requires NoNulIfPresent(pattern) && NoNulIfPresent(path) && NoNulIfPresent(symbol)
    ensures r == 0 || r == 1
    ensures r == 1 <==> pattern.Some? && path.Some? && symbol.Some? &&
                        Matches(pattern.value, path.value, symbol.value)
  {
    if pattern.None? || path.None? || symbol.None? then 0
    else
      var pat, p, sym := pattern.value, path.value, symbol.value;
      match StrChr(pat, ':')
      case None => 0
      case Some(colon) =>
        var symbolPattern := pat[colon + 1..];
        var isPrefixMatch := colon > 0 && pat[colon - 1] == '*';
        var r :=
          if |sym| != |symbolPattern| then 0
          else if StrNCmp(sym, symbolPattern, |symbolPattern|) != 0 then 0
          else if isPrefixMatch then
            var prefixLen := colon - 1;
            if |p| < prefixLen then 0
            else if StrNCmp(p, pat, prefixLen) != 0 then 0
            else 1
          else
            if |p| != colon then 0
            else if StrNCmp(p, pat, colon) != 0 then 0
            else 1;
        MatchesAtFirstColon(pat, p, sym, colon);
        r
  }

  /** The first colon is the only split point `Matches` can use. */
  lemma MatchesAtFirstColon(pattern: string, path: string, symbol: string, colon: nat)
    requires colon < |pattern| && pattern[colon] == ':' && ':' !in pattern[..colon]
    ensures Matches(pattern, path, symbol) <==>
      symbol == pattern[colon + 1..] &&
      if 0 < colon && pattern[colon - 1] == '*' then pattern[..colon - 1] <= path
      else path == pattern[..colon]
  {
    forall c | 0 <= c < |pattern| && pattern[c] == ':' && ':' !in pattern[..c]
      ensures c == colon
    {
    }
  }

  /** A pattern whose path part is a lone '*' matches every path. */
  lemma LoneStarMatchesEveryPath(symbol: string, path: string)
    requires NoNul(symbol) && NoNul(path) && ':' !in symbol
    ensures MatchTarget(Some("*:" + symbol), Some(path), Some(symbol)) == 1
  {
    var pat := "*:" + symbol;
    assert pat[1] == ':' && ':' !in pat[..1];
    assert pat[2..] == symbol;
    assert pat[..0] <= path;
  }

  /** A NULL argument or a pattern without ':' never matches. */
  lemma MissingPartsNeverMatch(pattern: Option<string>, path: Option<string>, symbol: Option<string>)
    requires NoNulIfPresent(pattern) && NoNulIfPresent(path) && NoNulIfPresent(symbol)
    requires pattern.None? || path.None? || symbol.None? || ':' !in pattern.value
    ensures MatchTarget(pattern, path, symbol) == 0
  {
  }

  /** The result of a match once the first colon of the pattern is known. */
  lemma MatchAtColon(pattern: string, path: string, symbol: string, colon: nat)
    requires NoNul(pattern) && NoNul(path) && NoNul(symbol)
    requires colon < |pattern| && pattern[colon] == ':' && ':' !in pattern[..colon]
    ensures MatchTarget(Some(pattern), Some(path), Some(symbol)) ==
      if symbol == pattern[colon + 1..] &&
         (if 0 < colon && pattern[colon - 1] == '*' then pattern[..colon - 1] <= path
          else path == pattern[..colon])
      then 1 else 0
  {
    MatchesAtFirstColon(pattern, path, symbol, colon);
  }

  // The cases of tests/test_match.c, one lemma each, with the result the test expects.

  /** Exact match: simple path and symbol. */
  lemma ExactMatchSimple()
    ensures MatchTarget(Some("/usr/bin/app:main"), Some("/usr/bin/app"), Some("main")) == 1
  {
    assert "/usr/bin/app:main"[..12] == "/usr/bin/app";
    assert "/usr/bin/app:main"[13..] == "main";
    MatchAtColon("/usr/bin/app:main", "/usr/bin/app", "main", 12);
  }

  /** Exact match: library path with version. */
  lemma ExactMatchLibrary()
    ensures MatchTarget(Some("/lib/x86_64-linux-gnu/libc.so.6:malloc"), Some("/lib/x86_64-linux-gnu/libc.so.6"), Some("malloc")) == 1
  {
    assert "/lib/x86_64-linux-gnu/libc.so.6:malloc"[..31] == "/lib/x86_64-linux-gnu/libc.so.6";
    assert "/lib/x86_64-linux-gnu/libc.so.6:malloc"[32..] == "malloc";
    MatchAtColon("/lib/x86_64-linux-gnu/libc.so.6:malloc", "/lib/x86_64-linux-gnu/libc.so.6", "malloc", 31);
  }

  /** Exact match: minimal path and symbol. */
  lemma ExactMatchMinimal()
    ensures MatchTarget(Some("/a:b"), Some("/a"), Some("b")) == 1
  {
    assert "/a:b"[..2] == "/a";
    assert "/a:b"[3..] == "b";
    MatchAtColon("/a:b", "/a", "b", 2);
  }

  /** Exact mismatch: different path. */
  lemma ExactMismatchPath()
    ensures MatchTarget(Some("/usr/bin/app:main"), Some("/usr/bin/other"), Some("main")) == 0
  {
    assert "/usr/bin/app:main"[..12] == "/usr/bin/app";
    assert "/usr/bin/app:main"[13..] == "main";
    MatchAtColon("/usr/bin/app:main", "/usr/bin/other", "main", 12);
  }

  /** Exact mismatch: different symbol. */
  lemma ExactMismatchSymbol()
    ensures MatchTarget(Some("/usr/bin/app:main"), Some("/usr/bin/app"), Some("other")) == 0
  {
    assert "/usr/bin/app:main"[..12] == "/usr/bin/app";
    assert "/usr/bin/app:main"[13..] == "main";
    MatchAtColon("/usr/bin/app:main", "/usr/bin/app", "other", 12);
  }

  /** Exact mismatch: path with trailing slash. */
  lemma ExactMismatchTrailingSlash()
    ensures MatchTarget(Some("/usr/bin/app:main"), Some("/usr/bin/app/"), Some("main")) == 0
  {
    assert "/usr/bin/app:main"[..12] == "/usr/bin/app";
    assert "/usr/bin/app:main"[13..] == "main";
    MatchAtColon("/usr/bin/app:main", "/usr/bin/app/", "main", 12);
  }

  /** Exact mismatch: path is prefix of actual. */
  lemma ExactMismatchLongerPath()
    ensures MatchTarget(Some("/usr/bin/app:main"), Some("/usr/bin/application"), Some("main")) == 0
  {
    assert "/usr/bin/app:main"[..12] == "/usr/bin/app";
    assert "/usr/bin/app:main"[13..] == "main";
    MatchAtColon("/usr/bin/app:main", "/usr/bin/application", "main", 12);
  }

  /** Prefix match: wildcard matches subpath. */
  lemma PrefixMatchSubpath()
    ensures MatchTarget(Some("/usr/*:main"), Some("/usr/bin/app"), Some("main")) == 1
  {
    assert "/usr/*:main"[..5] == "/usr/";
    assert "/usr/*:main"[7..] == "main";
    MatchAtColon("/usr/*:main", "/usr/bin/app", "main", 6);
  }

  /** Prefix match: wildcard at directory level. */
  lemma PrefixMatchDirectory()
    ensures MatchTarget(Some("/usr/bin/*:func"), Some("/usr/bin/any_app"), Some("func")) == 1
  {
    assert "/usr/bin/*:func"[..9] == "/usr/bin/";
    assert "/usr/bin/*:func"[11..] == "func";
    MatchAtColon("/usr/bin/*:func", "/usr/bin/any_app", "func", 10);
  }

  /** Prefix match: root wildcard. */
  lemma PrefixMatchRoot()
    ensures MatchTarget(Some("/*:main"), Some("/usr/bin/app"), Some("main")) == 1
  {
    assert "/*:main"[..1] == "/";
    assert "/*:main"[3..] == "main";
    MatchAtColon("/*:main", "/usr/bin/app", "main", 2);
  }

  /** Prefix match: deep path match. */
  lemma PrefixMatchDeep()
    ensures MatchTarget(Some("/home/user/project/*:test_func"), Some("/home/user/project/build/bin/app"), Some("test_func")) == 1
  {
    assert "/home/user/project/*:test_func"[..19] == "/home/user/project/";
    assert "/home/user/project/*:test_func"[21..] == "test_func";
    MatchAtColon("/home/user/project/*:test_func", "/home/user/project/build/bin/app", "test_func", 20);
  }

  /** Prefix mismatch: different root. */
  lemma PrefixMismatchRoot()
    ensures MatchTarget(Some("/usr/*:main"), Some("/opt/bin/app"), Some("main")) == 0
  {
    assert "/usr/*:main"[..5] == "/usr/";
    assert "/usr/*:main"[7..] == "main";
    MatchAtColon("/usr/*:main", "/opt/bin/app", "main", 6);
    assert "/opt/bin/app"[1] != "/usr/*:main"[1];
  }

  /** Prefix mismatch: symbol doesn't match. */
  lemma PrefixMismatchSymbol()
    ensures MatchTarget(Some("/usr/*:main"), Some("/usr/bin/app"), Some("other")) == 0
  {
    assert "/usr/*:main"[..5] == "/usr/";
    assert "/usr/*:main"[7..] == "main";
    MatchAtColon("/usr/*:main", "/usr/bin/app", "other", 6);
  }

  /** Prefix mismatch: different directory under prefix. */
  lemma PrefixMismatchDirectory()
    ensures MatchTarget(Some("/usr/bin/*:func"), Some("/usr/lib/app"), Some("func")) == 0
  {
    assert "/usr/bin/*:func"[..9] == "/usr/bin/";
    assert "/usr/bin/*:func"[11..] == "func";
    MatchAtColon("/usr/bin/*:func", "/usr/lib/app", "func", 10);
    assert "/usr/lib/app"[5] != "/usr/bin/*:func"[5];
  }

  /** Empty path pattern matches empty path. */
  lemma EmptyPathPattern()
    ensures MatchTarget(Some(":sym"), Some(""), Some("sym")) == 1
  {
    assert ":sym"[..0] == "";
    assert ":sym"[1..] == "sym";
    MatchAtColon(":sym", "", "sym", 0);
  }

  /** Empty symbol pattern matches empty symbol. */
  lemma EmptySymbolPattern()
    ensures MatchTarget(Some("/path:"), Some("/path"), Some("")) == 1
  {
    assert "/path:"[..5] == "/path";
    assert "/path:"[6..] == "";
    MatchAtColon("/path:", "/path", "", 5);
  }

  /** Pattern without colon returns 0. */
  lemma NoColonPattern()
    ensures MatchTarget(Some("nocolon"), Some("/path"), Some("sym")) == 0
  {
    MissingPartsNeverMatch(Some("nocolon"), Some("/path"), Some("sym"));
  }
}
