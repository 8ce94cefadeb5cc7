/**
 * The text of the targets file: the `PATH:SYMBOL [DELAY_NS] [pid=PID]` line
 * that add and update parse (parse_target_spec in src/speed_bump_main.c)
 * and the `PATH:SYMBOL` or `*` line that remove parses (remove_target).
 */
module TargetSpec {
  import opened SpeedBump
  import opened CStrings
  import opened Kstrtox

  /** isalpha of the kernel's ctype table, on the byte as an unsigned char: ASCII and Latin-1 letters. */
  predicate IsAlpha(c: char) {
    ('A' <= c <= 'Z') || ('a' <= c <= 'z') ||
    (0xc0 <= c as int <= 0xde && c as int != 0xd7) ||
    (0xdf <= c as int <= 0xff && c as int != 0xf7)
  }

  /** A symbol must start with a letter or an underscore. */
  predicate SymbolStart(c: char) {
    c == '_' || IsAlpha(c)
  }

  /** What a parsed add or update line names: pid 0 means no pid filter. */
  datatype Spec = Spec(path: string, symbol: string, delayNs: u64, pid: int)

  /** A path as the parser accepts it: absolute, non-empty, shorter than its buffer, up to the first colon. */
  predicate ValidPath(path: string) {
    0 < |path| < MAX_PATH_LEN && path[0] == '/' && ':' !in path && NoNul(path)
  }

  /** A symbol as the parser accepts it: non-empty, shorter than its buffer, no space, a proper first character. */
  predicate ValidSymbol(symbol: string) {
    0 < |symbol| < MAX_SYMBOL_LEN && ' ' !in symbol && NoNul(symbol) && SymbolStart(symbol[0])
  }

  /** Does not end in a newline or carriage return, which the bare `PATH:SYMBOL` form strips. */
  predicate EndsClean(s: string) {
    s == [] || (s[|s| - 1] != '\n' && s[|s| - 1] != '\r')
  }

  /** `s` without its trailing run of '\n' and '\r'. */
  function StripNewlines(s: string): (r: string)
    ensures r <= s && EndsClean(r)
    ensures forall i :: |r| <= i < |s| ==> s[i] == '\n' || s[i] == '\r'
  {
    if s != [] && (s[|s| - 1] == '\n' || s[|s| - 1] == '\r') then StripNewlines(s[..|s| - 1]) else s
  }

  /** `s` without its trailing run of spaces and tabs. */
  function TrimBlanks(s: string): (r: string)
    ensures r <= s
    ensures r == [] || (r[|r| - 1] != ' ' && r[|r| - 1] != '\t')
    ensures forall i :: |r| <= i < |s| ==> s[i] == ' ' || s[i] == '\t'
  {
    if s != [] && (s[|s| - 1] == ' ' || s[|s| - 1] == '\t') then TrimBlanks(s[..|s| - 1]) else s
  }

  /**
   * The delay and pid that the text after the first space gives, before the
   * delay's range check: with no "pid=" the whole text is the delay; with one,
   * what follows it is the pid and the trimmed text before it the delay, which
   * falls back to `dflt` when it is empty or does not fit the 32-byte buffer.
   */
  function DelayAndPid(after: string, dflt: u64): (r: Result<(u64, int)>)
    ensures r.Err? ==> r.code == -EINVAL || r.code == -ERANGE
    ensures r.Ok? ==> 0 <= r.value.1 <= INT_MAX
    ensures r.Ok? && r.value.1 != 0 ==> StrStr(after, "pid=").Some?
  {
    match StrStr(after, "pid=")
    case None =>
      (match Kstrtou64(after)
       case Err(e) => Err(e)
       case Ok(d) => Ok((d, 0)))
    case Some(p) =>
      match Kstrtoint(after[p + 4..])
      case Err(e) => Err(e)
      case Ok(pid) =>
        if pid < 0 then Err(-EINVAL)
        else if p == 0 then Ok((dflt, pid))
        else
          var token := TrimBlanks(after[..p]);
          if 0 < |token| < 32 then
            match Kstrtou64(token)
            case Err(e) => Err(e)
            case Ok(d) => Ok((d, pid))
          else Ok((dflt, pid))
  }

  /**
   * The symbol, delay and pid the text after the colon gives: up to a
   * space, the symbol, then the delay and pid; without a space, the whole
   * text less its trailing newlines is the symbol and the delay is `dflt`.
   */
  function SymbolPart(rest: string, dflt: u64): (r: Result<(string, u64, int)>)
    ensures r.Err? ==> r.code == -EINVAL || r.code == -ERANGE || r.code == -ENAMETOOLONG
    ensures r.Ok? ==> 0 < |r.value.0| < MAX_SYMBOL_LEN && ' ' !in r.value.0 && r.value.0 <= rest
    ensures r.Ok? ==> 0 <= r.value.2 <= INT_MAX
    ensures r.Ok? && dflt <= MAX_DELAY_NS ==> r.value.1 <= MAX_DELAY_NS
  {
    match StrChr(rest, ' ')
    case Some(sp) =>
      if sp == 0 || sp >= MAX_SYMBOL_LEN then Err(-ENAMETOOLONG)
      else
        (match DelayAndPid(rest[sp + 1..], dflt)
         case Err(e) => Err(e)
         case Ok((d, pid)) => if d > MAX_DELAY_NS then Err(-ERANGE) else Ok((rest[..sp], d, pid)))
    case None =>
      var symbol := StripNewlines(rest);
      if |symbol| == 0 || |symbol| >= MAX_SYMBOL_LEN then Err(-ENAMETOOLONG) else Ok((symbol, dflt, 0))
  }

  /**
   * parse_target_spec, with `dflt` the default delay at the time of the
   * call. On success the path is the text before the first colon and the
   * symbol starts right after it.
   */
  function ParseTargetSpec(line: string, dflt: u64): (r: Result<Spec>)
    requires NoNul(line)
    ensures r.Err? ==> r.code == -EINVAL || r.code == -ERANGE || r.code == -ENAMETOOLONG
    ensures r.Ok? ==> ValidPath(r.value.path) && ValidSymbol(r.value.symbol)
    ensures r.Ok? ==> |r.value.path| < |line| && line[..|r.value.path|] == r.value.path && line[|r.value.path|] == ':'
    ensures r.Ok? ==> r.value.symbol <= line[|r.value.path| + 1..]
    ensures r.Ok? ==> 0 <= r.value.pid <= INT_MAX
    ensures r.Ok? && dflt <= MAX_DELAY_NS ==> r.value.delayNs <= MAX_DELAY_NS
  {
    match StrChr(line, ':')
    case None => Err(-EINVAL)
    case Some(c) =>
      if c == 0 || c >= MAX_PATH_LEN then Err(-ENAMETOOLONG)
      else if line[0] != '/' then Err(-EINVAL)
      else
        match SymbolPart(line[c + 1..], dflt)
        case Err(e) => Err(e)
        case Ok((symbol, d, pid)) =>
          if !SymbolStart(symbol[0]) then Err(-EINVAL)
          else Ok(Spec(line[..c], symbol, d, pid))
  }

  /** What a remove line asks for. */
  datatype RemoveRequest = RemoveAll | RemoveOne(path: string, symbol: string)

  /**
   * The parsing half of remove_target: `*` alone (or followed by a newline)
   * removes everything; otherwise the path is the text before the first
   * colon and the symbol the rest less its trailing newlines. Unlike add,
   * the path need not be absolute, the symbol's first character is not
   * checked and a space does not end the symbol.
   */
  function ParseRemoveSpec(spec: string): (r: Result<RemoveRequest>)
    requires NoNul(spec)
    ensures r.Err? ==> r.code == -EINVAL || r.code == -ENAMETOOLONG
    ensures r == Ok(RemoveAll) <==> At(spec, 0) == '*' && (At(spec, 1) == '\0' || At(spec, 1) == '\n')
    ensures r.Ok? && r.value.RemoveOne? ==>
      var p, s := r.value.path, r.value.symbol;
      0 < |p| < MAX_PATH_LEN && ':' !in p && |p| < |spec| && spec[..|p|] == p && spec[|p|] == ':' &&
      0 < |s| < MAX_SYMBOL_LEN && s <= spec[|p| + 1..] && EndsClean(s)
    ensures r.Ok? && r.value.RemoveOne? ==>
      forall k :: |r.value.path| + 1 + |r.value.symbol| <= k < |spec| ==> spec[k] == '\n' || spec[k] == '\r'
  {
    if At(spec, 0) == '*' && (At(spec, 1) == '\0' || At(spec, 1) == '\n') then Ok(RemoveAll)
    else
      match StrChr(spec, ':')
      case None => Err(-EINVAL)
      case Some(c) =>
        if c == 0 || c >= MAX_PATH_LEN then Err(-ENAMETOOLONG)
        else
          var symbol := StripNewlines(spec[c + 1..]);
          if |symbol| == 0 || |symbol| >= MAX_SYMBOL_LEN then Err(-ENAMETOOLONG)
          else Ok(RemoveOne(spec[..c], symbol))
  }

  /** "\n" when `nl`: the newline `echo` appends to what it writes. */
  function Newline(nl: bool): string {
    if nl then "\n" else ""
  }

  // ---------------------------------------------------------------------
  // Splitting concatenated text
  // ---------------------------------------------------------------------

  /** strchr finds a separator that the text before it does not contain. */
  lemma SplitFirst(a: string, c: char, b: string)
    requires c !in a
    ensures StrChr(a + [c] + b, c) == Some(|a|)
    ensures (a + [c] + b)[..|a|] == a && (a + [c] + b)[|a| + 1..] == b
  {
    var s := a + [c] + b;
    assert s[|a|] == c;
    assert s[..|a|] == a;
    var k := StrChr(s, c).value;
    assert forall i :: 0 <= i < |a| ==> s[i] == a[i];
    assert forall i :: 0 <= i < k ==> s[i] == s[..k][i];
  }

  /** strstr finds nothing in text that lacks the pattern's first character. */
  lemma NotFound(s: string, pat: string)
    requires |pat| > 0 && pat[0] !in s
    ensures StrStr(s, pat) == None
  {
    forall k: nat | k <= |s| ensures !OccursAt(s, pat, k) {
      OccursFirst(s, pat, k);
    }
  }

  /** An occurrence starts with the pattern's first character. */
  lemma OccursFirst(s: string, pat: string, k: nat)
    ensures OccursAt(s, pat, k) && |pat| > 0 ==> s[k] == pat[0]
  {
    if OccursAt(s, pat, k) && |pat| > 0 {
      assert s[k..k + |pat|][0] == s[k];
    }
  }

  /** strstr finds the pattern where it first starts. */
  lemma FoundAfter(a: string, pat: string, b: string)
    requires |pat| > 0 && pat[0] !in a
    ensures StrStr(a + pat + b, pat) == Some(|a|)
  {
    var s := a + pat + b;
    assert s[|a|..|a| + |pat|] == pat;
    assert OccursAt(s, pat, |a|);
    forall k: nat | k < |a| ensures !OccursAt(s, pat, k) {
      OccursFirst(s, pat, k);
      assert s[k] == a[k];
    }
  }

  /**
   * The delay and pid of text holding "pid=" after `head`, where `head`
   * holds no 'p': the pid is read from after "pid=", the delay from `head`.
   */
  lemma {:induction false} DelayBeforePid(head: string, pid: nat, nl: bool, dflt: u64)
    requires 'p' !in head && pid <= INT_MAX
    ensures DelayAndPid(head + "pid=" + (Decimal(pid) + Newline(nl)), dflt) ==
      if head == [] then Ok((dflt, pid))
      else
        var token := TrimBlanks(head);
        if 0 < |token| < 32 then
          match Kstrtou64(token)
          case Err(e) => Err(e)
          case Ok(d) => Ok((d, pid))
        else Ok((dflt, pid))
  {
    var after := head + "pid=" + (Decimal(pid) + Newline(nl));
    FoundAfter(head, "pid=", Decimal(pid) + Newline(nl));
    assert after[|head| + 4..] == Decimal(pid) + Newline(nl);
    assert after[..|head|] == head;
    KstrtointDecimal(pid, nl);
  }

  /** Decimal digits hold no terminator, separator or 'p'. */
  lemma DigitsOnly(s: string)
    requires AllDigits(s)
    ensures NoNul(s) && 'p' !in s && ' ' !in s && '-' !in s
  {
    assert forall i :: 0 <= i < |s| ==> IsDigit(s[i]);
  }

  /** Digits followed by a space, trimmed, are the digits. */
  lemma TrimDigitsSpace(digits: string)
    requires 0 < |digits| && AllDigits(digits)
    ensures 'p' !in digits + " "
    ensures TrimBlanks(digits + " ") == digits
  {
    var head := digits + " ";
    assert head[..|head| - 1] == digits;
    assert IsDigit(digits[|digits| - 1]);
    forall i | 0 <= i < |head| ensures head[i] != 'p' {
      if i < |digits| {
        assert head[i] == digits[i];
      }
    }
  }

  /** The text after the colon of a well-formed `PATH:SYMBOL...` line. */
  lemma SplitKey(path: string, symbol: string, tail: string, dflt: u64)
    requires ValidPath(path)
    ensures var line := path + ":" + tail;
      NoNul(line) <==> NoNul(tail)
    ensures var line := path + ":" + tail;
      NoNul(tail) ==>
      ParseTargetSpec(line, dflt) ==
        match SymbolPart(tail, dflt)
        case Err(e) => Err(e)
        case Ok((symbol, d, pid)) =>
          if !SymbolStart(symbol[0]) then Err(-EINVAL) else Ok(Spec(path, symbol, d, pid))
  {
    var line := path + ":" + tail;
    SplitFirst(path, ':', tail);
    assert line == path + [':'] + tail;
  }

  /** The symbol, then a space, then the delay and pid text. */
  lemma SplitSymbol(symbol: string, after: string, dflt: u64)
    requires ValidSymbol(symbol)
    ensures SymbolPart(symbol + " " + after, dflt) ==
      match DelayAndPid(after, dflt)
      case Err(e) => Err(e)
      case Ok((d, pid)) => if d > MAX_DELAY_NS then Err(-ERANGE) else Ok((symbol, d, pid))
  {
    SplitFirst(symbol, ' ', after);
    assert symbol + " " + after == symbol + [' '] + after;
  }

  // ---------------------------------------------------------------------
  // What the parser accepts
  // ---------------------------------------------------------------------

  /**
   * `PATH:SYMBOL AFTER` parses to the target whose delay and pid AFTER
   * gives, when the delay is in range, and fails as AFTER does otherwise.
   */
  lemma {:induction false} ParseSymbolThenRest(path: string, symbol: string, after: string, dflt: u64)
    requires ValidPath(path) && ValidSymbol(symbol) && NoNul(after)
    ensures NoNul(path + ":" + (symbol + " " + after))
    ensures ParseTargetSpec(path + ":" + (symbol + " " + after), dflt) ==
      match DelayAndPid(after, dflt)
      case Err(e) => Err(e)
      case Ok((d, pid)) => if d > MAX_DELAY_NS then Err(-ERANGE) else Ok(Spec(path, symbol, d, pid))
  {
    assert NoNul(symbol + " " + after);
    SplitSymbol(symbol, after, dflt);
    SplitKey(path, symbol, symbol + " " + after, dflt);
  }

  /** `PATH:SYMBOL`, with or without a newline, names the target with the default delay and no pid filter. */
  lemma {:induction false} ParseBareKey(path: string, symbol: string, nl: bool, dflt: u64)
    requires ValidPath(path) && ValidSymbol(symbol) && EndsClean(symbol)
    ensures ParseTargetSpec(path + ":" + symbol + Newline(nl), dflt) == Ok(Spec(path, symbol, dflt, 0))
  {
    var tail := symbol + Newline(nl);
    assert path + ":" + symbol + Newline(nl) == path + ":" + tail;
    SplitKey(path, symbol, tail, dflt);
    assert ' ' !in tail;
    assert StripNewlines(tail) == symbol by {
      if nl {
        assert tail[..|tail| - 1] == symbol;
      } else {
        assert tail == symbol;
      }
    }
  }

  /** `PATH:SYMBOL DELAY` names the target with that delay and no pid filter. */
  lemma {:induction false} ParseWithDelay(path: string, symbol: string, d: u64, nl: bool, dflt: u64)
    requires ValidPath(path) && ValidSymbol(symbol) && d <= MAX_DELAY_NS
    ensures ParseTargetSpec(path + ":" + symbol + " " + Decimal(d) + Newline(nl), dflt) == Ok(Spec(path, symbol, d, 0))
  {
    var after := Decimal(d) + Newline(nl);
    assert path + ":" + symbol + " " + Decimal(d) + Newline(nl) == path + ":" + (symbol + " " + after);
    assert DelayAndPid(after, dflt) == Ok((d, 0)) by {
      DigitsOnly(Decimal(d));
      NotFound(after, "pid=");
      Kstrtou64Decimal(d, nl);
    }
    DigitsOnly(Decimal(d));
    ParseSymbolThenRest(path, symbol, after, dflt);
  }

  /** `PATH:SYMBOL DELAY pid=PID` names the target with that delay and pid filter. */
  lemma {:induction false} ParseWithDelayAndPid(path: string, symbol: string, d: u64, pid: nat, nl: bool, dflt: u64)
    requires ValidPath(path) && ValidSymbol(symbol) && d <= MAX_DELAY_NS && pid <= INT_MAX
    ensures ParseTargetSpec(path + ":" + symbol + " " + Decimal(d) + " pid=" + Decimal(pid) + Newline(nl), dflt)
      == Ok(Spec(path, symbol, d, pid))
  {
    var after := Decimal(d) + " " + "pid=" + (Decimal(pid) + Newline(nl));
    assert path + ":" + symbol + " " + Decimal(d) + " pid=" + Decimal(pid) + Newline(nl)
      == path + ":" + (symbol + " " + after);
    DelayThenPid(d, pid, nl, dflt);
    ParseSymbolThenRest(path, symbol, after, dflt);
  }

  /** The text `DELAY pid=PID` gives that delay and pid. */
  lemma {:induction false} DelayThenPid(d: u64, pid: nat, nl: bool, dflt: u64)
    requires pid <= INT_MAX
    ensures var after := Decimal(d) + " " + "pid=" + (Decimal(pid) + Newline(nl));
      NoNul(after) && DelayAndPid(after, dflt) == Ok((d, pid))
  {
    var head := Decimal(d) + " ";
    TrimDigitsSpace(Decimal(d));
    DelayBeforePid(head, pid, nl, dflt);
    Decimal64Length(d);
    Kstrtou64Decimal(d, false);
    assert Decimal(d) + Newline(false) == Decimal(d);
    DigitsOnly(Decimal(d));
    DigitsOnly(Decimal(pid));
  }

  /** `PATH:SYMBOL pid=PID` names the target with the default delay and that pid filter. */
  lemma {:induction false} ParseWithPidOnly(path: string, symbol: string, pid: nat, nl: bool, dflt: u64)
    requires ValidPath(path) && ValidSymbol(symbol) && pid <= INT_MAX && dflt <= MAX_DELAY_NS
    ensures ParseTargetSpec(path + ":" + symbol + " pid=" + Decimal(pid) + Newline(nl), dflt)
      == Ok(Spec(path, symbol, dflt, pid))
  {
    var after := "pid=" + (Decimal(pid) + Newline(nl));
    assert path + ":" + symbol + " pid=" + Decimal(pid) + Newline(nl) == path + ":" + (symbol + " " + after);
    PidOnly(pid, nl, dflt);
    ParseSymbolThenRest(path, symbol, after, dflt);
  }

  /** The text `pid=PID` gives the default delay and that pid. */
  lemma {:induction false} PidOnly(pid: nat, nl: bool, dflt: u64)
    requires pid <= INT_MAX
    ensures var after := "pid=" + (Decimal(pid) + Newline(nl));
      NoNul(after) && DelayAndPid(after, dflt) == Ok((dflt, pid))
  {
    var tail := Decimal(pid) + Newline(nl);
    var after := "pid=" + tail;
    DelayBeforePid("", pid, nl, dflt);
    assert "" + "pid=" + tail == after;
    assert DelayAndPid(after, dflt) == Ok((dflt, pid));
    DigitsOnly(Decimal(pid));
    assert NoNul(tail);
  }

  /**
   * A delay written with 32 characters or more before " pid=" is not read
   * at all: the default delay is used, however large the number.
   */
  lemma {:induction false} LongDelayTokenIgnored(path: string, symbol: string, digits: string, pid: nat, dflt: u64)
    requires ValidPath(path) && ValidSymbol(symbol) && pid <= INT_MAX && dflt <= MAX_DELAY_NS
    requires |digits| >= 32 && AllDigits(digits)
    ensures ParseTargetSpec(path + ":" + symbol + " " + digits + " pid=" + Decimal(pid), dflt)
      == Ok(Spec(path, symbol, dflt, pid))
  {
    var head := digits + " ";
    var after := head + "pid=" + (Decimal(pid) + Newline(false));
    assert path + ":" + symbol + " " + digits + " pid=" + Decimal(pid) == path + ":" + (symbol + " " + after);
    assert DelayAndPid(after, dflt) == Ok((dflt, pid)) by {
      TrimDigitsSpace(digits);
      DelayBeforePid(head, pid, false, dflt);
    }
    assert NoNul(after) by {
      DigitsOnly(digits);
      DigitsOnly(Decimal(pid));
    }
    ParseSymbolThenRest(path, symbol, after, dflt);
  }

  // ---------------------------------------------------------------------
  // What the parser rejects
  // ---------------------------------------------------------------------

  /** A line without a colon is invalid. */
  lemma NoColonRejected(line: string, dflt: u64)
    requires NoNul(line) && ':' !in line
    ensures ParseTargetSpec(line, dflt) == Err(-EINVAL)
  {
  }

  /**
   * An empty path, or one that does not fit the 256-byte buffer with its
   * terminator, is too long; otherwise a path not starting with '/' is invalid.
   */
  lemma {:induction false} PathRejected(path: string, tail: string, dflt: u64)
    requires ':' !in path && NoNul(path) && NoNul(tail)
    requires |path| == 0 || |path| >= MAX_PATH_LEN || path[0] != '/'
    ensures ParseTargetSpec(path + ":" + tail, dflt) ==
      Err(if |path| == 0 || |path| >= MAX_PATH_LEN then -ENAMETOOLONG else -EINVAL)
  {
    SplitFirst(path, ':', tail);
    assert path + ":" + tail == path + [':'] + tail;
    if 0 < |path| {
      assert (path + ":" + tail)[0] == path[0];
    }
  }

  /** A delay above the 10 second ceiling is out of range. */
  lemma {:induction false} DelayAboveMaxRejected(path: string, symbol: string, d: u64, dflt: u64)
    requires ValidPath(path) && ValidSymbol(symbol) && d > MAX_DELAY_NS
    ensures ParseTargetSpec(path + ":" + symbol + " " + Decimal(d), dflt) == Err(-ERANGE)
  {
    var after := Decimal(d) + Newline(false);
    assert path + ":" + symbol + " " + Decimal(d) == path + ":" + (symbol + " " + after);
    assert DelayAndPid(after, dflt) == Ok((d, 0)) by {
      DigitsOnly(Decimal(d));
      NotFound(after, "pid=");
      Kstrtou64Decimal(d, false);
    }
    DigitsOnly(Decimal(d));
    ParseSymbolThenRest(path, symbol, after, dflt);
  }

  /** A negative pid is invalid. */
  lemma {:induction false} NegativePidRejected(path: string, symbol: string, digits: string, dflt: u64)
    requires ValidPath(path) && ValidSymbol(symbol)
    requires 0 < |digits| && AllDigits(digits) && 0 < DecValue(digits) <= -INT_MIN
    ensures ParseTargetSpec(path + ":" + symbol + " pid=-" + digits, dflt) == Err(-EINVAL)
  {
    var after := "pid=" + ("-" + digits);
    assert path + ":" + symbol + " pid=-" + digits == path + ":" + (symbol + " " + after);
    assert DelayAndPid(after, dflt) == Err(-EINVAL) by {
      FoundAfter("", "pid=", "-" + digits);
      assert "" + "pid=" + ("-" + digits) == after;
      assert after[4..] == "-" + digits;
      KstrtointNegative(digits);
    }
    DigitsOnly(digits);
    ParseSymbolThenRest(path, symbol, after, dflt);
  }

  /** A symbol that starts with neither a letter nor an underscore is invalid. */
  lemma {:induction false} BadSymbolStartRejected(path: string, symbol: string, dflt: u64)
    requires ValidPath(path) && 0 < |symbol| < MAX_SYMBOL_LEN && ' ' !in symbol && NoNul(symbol) && EndsClean(symbol)
    requires !SymbolStart(symbol[0])
    ensures ParseTargetSpec(path + ":" + symbol, dflt) == Err(-EINVAL)
  {
    SplitKey(path, symbol, symbol, dflt);
    assert ' ' !in symbol;
  }

  // ---------------------------------------------------------------------
  // Remove lines
  // ---------------------------------------------------------------------

  /** A remove line for an absolute path: the symbol is the text after the colon less its trailing newlines. */
  lemma {:induction false} RemoveSplit(path: string, tail: string)
    requires ValidPath(path) && NoNul(tail)
    ensures NoNul(path + ":" + tail)
    ensures ParseRemoveSpec(path + ":" + tail) ==
      var symbol := StripNewlines(tail);
      if |symbol| == 0 || |symbol| >= MAX_SYMBOL_LEN then Err(-ENAMETOOLONG) else Ok(RemoveOne(path, symbol))
  {
    var spec := path + ":" + tail;
    assert spec == path + [':'] + tail;
    SplitFirst(path, ':', tail);
    assert At(spec, 0) == '/';
  }

  /** `PATH:SYMBOL`, with or without a newline, removes that one target. */
  lemma {:induction false} RemoveKey(path: string, symbol: string, nl: bool)
    requires ValidPath(path) && 0 < |symbol| < MAX_SYMBOL_LEN && NoNul(symbol) && EndsClean(symbol)
    ensures NoNul(path + ":" + symbol + Newline(nl))
    ensures ParseRemoveSpec(path + ":" + symbol + Newline(nl)) == Ok(RemoveOne(path, symbol))
  {
    var tail := symbol + Newline(nl);
    assert path + ":" + symbol + Newline(nl) == path + ":" + tail;
    RemoveSplit(path, tail);
    assert StripNewlines(tail) == symbol by {
      if nl {
        assert tail[..|tail| - 1] == symbol;
      } else {
        assert tail == symbol;
      }
    }
  }

  /**
   * A remove line that carries a delay does not name an added target: the
   * space and the delay stay part of the symbol, and no added symbol has a space.
   */
  lemma {:induction false} RemoveWithDelayKeepsSpace(path: string, symbol: string, d: u64)
    requires ValidPath(path) && ValidSymbol(symbol)
    ensures NoNul(path + ":" + symbol + " " + Decimal(d))
    ensures var r := ParseRemoveSpec(path + ":" + symbol + " " + Decimal(d));
      r.Ok? ==> r.value.RemoveOne? && ' ' in r.value.symbol
  {
    var digits := Decimal(d);
    var tail := symbol + " " + digits;
    assert path + ":" + symbol + " " + Decimal(d) == path + ":" + tail;
    assert NoNul(tail) && ' ' in tail by {
      DigitsOnly(digits);
      assert tail[|symbol|] == ' ';
    }
    assert StripNewlines(tail) == tail by {
      assert tail[|tail| - 1] == digits[|digits| - 1];
      assert IsDigit(digits[|digits| - 1]);
    }
    RemoveSplit(path, tail);
  }
}
