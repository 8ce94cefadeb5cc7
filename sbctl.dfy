/**
 * The sbctl control tool (userspace/sbctl.c): the argument checks and the
 * command lines `add`, `remove`, `update` and `clear` write to the
 * module's targets file. Whether the module is loaded and whether the
 * write succeeds are an oracle (`Sysfs`); what the tool does is recorded
 * as the list of sysfs accesses it makes, in order.
 */
module Sbctl {
  import opened SpeedBump
  import opened CStrings
  import opened Kstrtox
  import opened TargetSpec

  const SYSFS_TARGETS := "/sys/kernel/speed_bump/targets"

  /** sizeof(cmd): the command buffer the lines are formatted into. */
  const CMD_SIZE := 512

  /** ULONG_MAX + 1 on a 64-bit system: where strtoul reports ERANGE. */
  const ULONG_MODULUS := 0x1_0000_0000_0000_0000

  /** Which check of validate_target a target fails, in the order they are made. */
  datatype TargetError =
    | MissingColon
    | EmptyPath
    | RelativePath
    | PathTooLong
    | EmptySymbol
    | SymbolTooLong

  /**
   * validate_target: None where it returns 0. The path is everything before
   * the first ':' and the symbol everything after it; the symbol is checked
   * only for its length.
   */
  function ValidateTarget(target: string): (r: Option<TargetError>)
    requires NoNul(target)
    ensures r == Some(MissingColon) <==> ':' !in target
    ensures r.None? ==> 0 < |target| && target[0] == '/'
  {
    match StrChr(target, ':')
    case None => Some(MissingColon)
    case Some(c) =>
      var symbolLen := |target| - (c + 1);
      if c == 0 then Some(EmptyPath)
      else if target[0] != '/' then Some(RelativePath)
      else if c > MAX_PATH_LEN then Some(PathTooLong)
      else if symbolLen == 0 then Some(EmptySymbol)
      else if symbolLen > MAX_SYMBOL_LEN then Some(SymbolTooLong)
      else None
  }

  /**
   * validate_delay: the value when the whole string is decimal digits that
   * neither overflow an unsigned long nor exceed the 10 second ceiling;
   * None where it returns -1.
   */
  function ValidateDelay(s: string): (r: Option<u64>)
    ensures r.Some? ==> r.value <= MAX_DELAY_NS
    ensures r.Some? ==> 0 < |s| && AllDigits(s) && r.value == DecValue(s)
    ensures 0 < |s| && AllDigits(s) && DecValue(s) <= MAX_DELAY_NS ==> r == Some(DecValue(s))
  {
    if s == [] || !AllDigits(s) then None
    else if DecValue(s) >= ULONG_MODULUS then None
    else if DecValue(s) > MAX_DELAY_NS then None
    else Some(DecValue(s))
  }

  /** What check_module_loaded and write_sysfs report on this run. */
  datatype Sysfs = Sysfs(loaded: bool, writeOk: bool)

  /** A sysfs access the tool makes: the existence check, or a write of `data` to `file`. */
  datatype Action = CheckLoaded | Write(file: string, data: string)

  /** The exit status of a command and the sysfs accesses it made, in order. */
  datatype Run = Run(status: int, actions: seq<Action>)

  /** The common tail of the commands: check the module is loaded, then write the line. */
  function Send(line: string, fs: Sysfs): (r: Run)
    ensures r.status == 0 <==> fs.loaded && fs.writeOk
    ensures r.status == 0 || r.status == 1
    ensures r.actions == if fs.loaded then [CheckLoaded, Write(SYSFS_TARGETS, line)] else [CheckLoaded]
  {
    if !fs.loaded then Run(1, [CheckLoaded])
    else Run(if fs.writeOk then 0 else 1, [CheckLoaded, Write(SYSFS_TARGETS, line)])
  }

  /**
   * The line cmd_add formats: `+TARGET DELAY` with a delay argument,
   * `+TARGET` without; None where it returns 1 before touching sysfs
   * (no target, an invalid target or delay, or a line that does not fit).
   */
  function AddLine(argv: seq<string>): (r: Option<string>)
    requires forall i :: 0 <= i < |argv| ==> NoNul(argv[i])
    ensures r.Some? ==> 1 <= |argv| && ValidateTarget(argv[0]).None? && |r.value| < CMD_SIZE
    ensures r.Some? ==> |argv[0]| < |r.value| && r.value[..|argv[0]| + 1] == "+" + argv[0]
    ensures r.Some? && 2 <= |argv| ==> ValidateDelay(argv[1]).Some?
    ensures r.Some? ==>
      r.value == "+" + argv[0] + (if 2 <= |argv| then " " + Decimal(ValidateDelay(argv[1]).value) else "")
  {
    if |argv| < 1 || ValidateTarget(argv[0]).Some? then None
    else
      var line :=
        if |argv| >= 2 then
          match ValidateDelay(argv[1])
          case None => None
          case Some(d) => Some("+" + argv[0] + " " + Decimal(d))
        else Some("+" + argv[0]);
      if line.None? || |line.value| >= CMD_SIZE then None
      else line
  }

  /** The line cmd_remove formats, `-TARGET`; None where it returns 1 before touching sysfs. */
  function RemoveLine(argv: seq<string>): (r: Option<string>)
    requires forall i :: 0 <= i < |argv| ==> NoNul(argv[i])
    ensures r.Some? ==> 1 <= |argv| && ValidateTarget(argv[0]).None? && r.value == "-" + argv[0]
  {
    if |argv| < 1 || ValidateTarget(argv[0]).Some? then None
    else
      var line := "-" + argv[0];
      if |line| >= CMD_SIZE then None else Some(line)
  }

  /**
   * The line cmd_update formats, `=TARGET DELAY`; None where it returns 1
   * before touching sysfs (fewer than two arguments, an invalid target or delay).
   */
  function UpdateLine(argv: seq<string>): (r: Option<string>)
    requires forall i :: 0 <= i < |argv| ==> NoNul(argv[i])
    ensures r.Some? ==>
      2 <= |argv| && ValidateTarget(argv[0]).None? && ValidateDelay(argv[1]).Some? &&
      r.value == "=" + argv[0] + " " + Decimal(ValidateDelay(argv[1]).value)
  {
    if |argv| < 2 || ValidateTarget(argv[0]).Some? then None
    else
      match ValidateDelay(argv[1])
      case None => None
      case Some(d) =>
        var line := "=" + argv[0] + " " + Decimal(d);
        if |line| >= CMD_SIZE then None else Some(line)
  }

  /** The line cmd_clear writes. */
  const CLEAR_LINE := "-*"

  /** cmd_add, cmd_remove, cmd_update: the line is built first, and sysfs is touched only for a built line. */
  function Command(line: Option<string>, fs: Sysfs): (r: Run)
    ensures line.None? ==> r == Run(1, [])
    ensures line.Some? ==> r == Send(line.value, fs)
  {
    match line
    case None => Run(1, [])
    case Some(l) => Send(l, fs)
  }

  /** cmd_add: exit status 0 only when the line was built and written; sysfs is not touched otherwise. */
  function CmdAdd(argv: seq<string>, fs: Sysfs): (r: Run)
    requires forall i :: 0 <= i < |argv| ==> NoNul(argv[i])
    ensures r.status == 0 <==> AddLine(argv).Some? && fs.loaded && fs.writeOk
    ensures r.status == 0 || r.status == 1
    ensures r.actions == [] <==> AddLine(argv).None?
    ensures AddLine(argv).Some? && fs.loaded ==> r.actions == [CheckLoaded, Write(SYSFS_TARGETS, AddLine(argv).value)]
  {
    Command(AddLine(argv), fs)
  }

  /** cmd_remove: exit status 0 only when the line was built and written; sysfs is not touched otherwise. */
  function CmdRemove(argv: seq<string>, fs: Sysfs): (r: Run)
    requires forall i :: 0 <= i < |argv| ==> NoNul(argv[i])
    ensures r.status == 0 <==> RemoveLine(argv).Some? && fs.loaded && fs.writeOk
    ensures r.status == 0 || r.status == 1
    ensures r.actions == [] <==> RemoveLine(argv).None?
    ensures RemoveLine(argv).Some? && fs.loaded ==> r.actions == [CheckLoaded, Write(SYSFS_TARGETS, RemoveLine(argv).value)]
  {
    Command(RemoveLine(argv), fs)
  }

  /** cmd_update: exit status 0 only when the line was built and written; sysfs is not touched otherwise. */
  function CmdUpdate(argv: seq<string>, fs: Sysfs): (r: Run)
    requires forall i :: 0 <= i < |argv| ==> NoNul(argv[i])
    ensures r.status == 0 <==> UpdateLine(argv).Some? && fs.loaded && fs.writeOk
    ensures r.status == 0 || r.status == 1
    ensures r.actions == [] <==> UpdateLine(argv).None?
    ensures UpdateLine(argv).Some? && fs.loaded ==> r.actions == [CheckLoaded, Write(SYSFS_TARGETS, UpdateLine(argv).value)]
  {
    Command(UpdateLine(argv), fs)
  }

  /** cmd_clear: checks the module is loaded, then writes `-*`; no argument is validated. */
  function CmdClear(fs: Sysfs): (r: Run)
    ensures r.status == 0 <==> fs.loaded && fs.writeOk
    ensures r.status == 0 || r.status == 1
    ensures r.actions == if fs.loaded then [CheckLoaded, Write(SYSFS_TARGETS, "-*")] else [CheckLoaded]
  {
    Send(CLEAR_LINE, fs)
  }

  // ---------------------------------------------------------------------
  // Properties
  // ---------------------------------------------------------------------

  /**
   * For a target written as PATH:SYMBOL with no colon in PATH, the checks
   * amount to: PATH non-empty, absolute and at most 256 bytes, SYMBOL
   * non-empty and at most 128 bytes.
   */
  lemma {:induction false} TargetValidIff(path: string, symbol: string)
    requires ':' !in path && NoNul(path) && NoNul(symbol)
    ensures NoNul(path + ":" + symbol)
    ensures ValidateTarget(path + ":" + symbol).None? <==>
      0 < |path| <= MAX_PATH_LEN && path[0] == '/' && 0 < |symbol| <= MAX_SYMBOL_LEN
  {
    var target := path + ":" + symbol;
    assert target == path + [':'] + symbol;
    SplitFirst(path, ':', symbol);
    if 0 < |path| {
      assert target[0] == path[0];
    }
  }

  /** Only a target, a delay and a line that pass every check lead to a sysfs access, and the check comes first. */
  lemma ValidationBeforeIO(argv: seq<string>, fs: Sysfs)
    requires forall i :: 0 <= i < |argv| ==> NoNul(argv[i])
    ensures |argv| < 1 || ValidateTarget(argv[0]).Some? ==>
      CmdAdd(argv, fs) == Run(1, []) && CmdRemove(argv, fs) == Run(1, []) && CmdUpdate(argv, fs) == Run(1, [])
    ensures 2 <= |argv| && ValidateDelay(argv[1]).None? ==>
      CmdAdd(argv, fs) == Run(1, []) && CmdUpdate(argv, fs) == Run(1, [])
    ensures |argv| < 2 ==> CmdUpdate(argv, fs) == Run(1, [])
    ensures CmdAdd(argv, fs).actions != [] ==> CmdAdd(argv, fs).actions[0] == CheckLoaded
    ensures CmdRemove(argv, fs).actions != [] ==> CmdRemove(argv, fs).actions[0] == CheckLoaded
    ensures CmdUpdate(argv, fs).actions != [] ==> CmdUpdate(argv, fs).actions[0] == CheckLoaded
  {
  }

  /** Every delay within the ceiling, written in decimal, passes and reads back unchanged. */
  lemma DelayRoundTrip(d: u64)
    requires d <= MAX_DELAY_NS
    ensures ValidateDelay(Decimal(d)) == Some(d)
  {
    DecValueOfDecimal(d);
  }

  /** A delay the tool accepts is the value the module's kstrtou64 reads from the same text. */
  lemma DelayAgreesWithKernel(s: string)
    requires ValidateDelay(s).Some?
    ensures Kstrtou64(s) == Ok(ValidateDelay(s).value)
  {
    ParseULLDigits(s);
    assert s[0] != '+';
  }

  /**
   * After the checks the line always fits the 512-byte buffer: at most
   * 1 + 256 + 1 + 128 + 1 + 11 bytes, so the "command too long" branch is never taken.
   */
  lemma {:induction false} ValidatedLinesFit(argv: seq<string>)
    requires forall i :: 0 <= i < |argv| ==> NoNul(argv[i])
    requires 1 <= |argv| && ValidateTarget(argv[0]).None?
    ensures RemoveLine(argv).Some?
    ensures 2 <= |argv| && ValidateDelay(argv[1]).Some? ==> AddLine(argv).Some? && UpdateLine(argv).Some?
    ensures |argv| == 1 ==> AddLine(argv).Some?
  {
    assert |argv[0]| <= MAX_PATH_LEN + 1 + MAX_SYMBOL_LEN;
    if 2 <= |argv| && ValidateDelay(argv[1]).Some? {
      Decimal64Length(ValidateDelay(argv[1]).value);
    }
  }

  /**
   * The tool and the module disagree on the longest symbol too: a 128-byte
   * symbol passes validate_target, and the module's parser refuses the same
   * target with ENAMETOOLONG, with or without a delay after it.
   */
  lemma {:induction false} LongestSymbolRejectedByModule(path: string, symbol: string, nl: bool, after: string, dflt: u64)
    requires ValidPath(path) && |symbol| == MAX_SYMBOL_LEN && NoNul(symbol) && ' ' !in symbol && EndsClean(symbol)
    requires NoNul(after)
    ensures NoNul(path + ":" + symbol)
    ensures ValidateTarget(path + ":" + symbol).None?
    ensures ParseTargetSpec(path + ":" + symbol + Newline(nl), dflt) == Err(-ENAMETOOLONG)
    ensures ParseTargetSpec(path + ":" + (symbol + " " + after), dflt) == Err(-ENAMETOOLONG)
  {
    TargetValidIff(path, symbol);
    var bare := symbol + Newline(nl);
    assert path + ":" + symbol + Newline(nl) == path + ":" + bare;
    SplitKey(path, symbol, bare, dflt);
    assert ' ' !in bare;
    assert StripNewlines(bare) == symbol by {
      if nl {
        assert bare[..|bare| - 1] == symbol;
      } else {
        assert bare == symbol;
      }
    }
    var spaced := symbol + " " + after;
    assert NoNul(spaced);
    SplitKey(path, symbol, spaced, dflt);
    SplitFirst(symbol, ' ', after);
    assert spaced == symbol + [' '] + after;
  }

  /**
   * The exit status in terms of the checks alone: since a validated line
   * always fits, each command succeeds exactly when its arguments pass
   * validate_target and validate_delay, the module is loaded and the write
   * goes through.
   */
  lemma CommandsSucceedIff(argv: seq<string>, fs: Sysfs)
    requires forall i :: 0 <= i < |argv| ==> NoNul(argv[i])
    ensures CmdAdd(argv, fs).status == 0 <==>
      1 <= |argv| && ValidateTarget(argv[0]).None? && (2 <= |argv| ==> ValidateDelay(argv[1]).Some?) &&
      fs.loaded && fs.writeOk
    ensures CmdRemove(argv, fs).status == 0 <==>
      1 <= |argv| && ValidateTarget(argv[0]).None? && fs.loaded && fs.writeOk
    ensures CmdUpdate(argv, fs).status == 0 <==>
      2 <= |argv| && ValidateTarget(argv[0]).None? && ValidateDelay(argv[1]).Some? && fs.loaded && fs.writeOk
  {
    if 1 <= |argv| && ValidateTarget(argv[0]).None? {
      ValidatedLinesFit(argv);
    }
  }

  /**
   * The tool and the module disagree on the longest path: a 256-byte
   * absolute path passes validate_target, and the module's parser refuses
   * the same target with ENAMETOOLONG.
   */
  lemma {:induction false} LongestPathRejectedByModule(path: string, symbol: string, tail: string, dflt: u64)
    requires |path| == MAX_PATH_LEN && path[0] == '/' && ':' !in path && NoNul(path)
    requires 0 < |symbol| <= MAX_SYMBOL_LEN && NoNul(symbol) && NoNul(tail)
    ensures NoNul(path + ":" + symbol)
    ensures ValidateTarget(path + ":" + symbol).None?
    ensures ParseTargetSpec(path + ":" + (symbol + tail), dflt) == Err(-ENAMETOOLONG)
  {
    TargetValidIff(path, symbol);
    PathRejected(path, symbol + tail, dflt);
  }

  /**
   * A target the module's parser accepts, added with a valid delay: the
   * tool writes `+PATH:SYMBOL DELAY`, and the module, skipping the '+',
   * parses back the same path, symbol and delay with no pid filter.
   */
  lemma {:induction false} AddWithDelayRoundTrip(path: string, symbol: string, delay: string, dflt: u64)
    requires ValidPath(path) && ValidSymbol(symbol) && ValidateDelay(delay).Some?
    ensures NoNul(path + ":" + symbol) && NoNul(delay)
    ensures AddLine([path + ":" + symbol, delay]).Some?
    ensures var line := AddLine([path + ":" + symbol, delay]).value;
      0 < |line| && line[0] == '+' && NoNul(line[1..]) &&
      ParseTargetSpec(CStr(line[1..]), dflt) == Ok(Spec(path, symbol, ValidateDelay(delay).value, 0))
  {
    var target := path + ":" + symbol;
    var d := ValidateDelay(delay).value;
    DigitsNoNul(delay);
    TargetValidIff(path, symbol);
    ValidatedLinesFit([target, delay]);
    var line := AddLine([target, delay]).value;
    assert line == "+" + target + " " + Decimal(d);
    assert line[1..] == path + ":" + symbol + " " + Decimal(d) + Newline(false);
    DigitsNoNul(Decimal(d));
    ParseWithDelay(path, symbol, d, false, dflt);
  }

  /**
   * A target the module's parser accepts, added without a delay: the tool
   * writes `+PATH:SYMBOL` and the module parses it with the default delay.
   */
  lemma {:induction false} AddBareRoundTrip(path: string, symbol: string, dflt: u64)
    requires ValidPath(path) && ValidSymbol(symbol) && EndsClean(symbol)
    ensures NoNul(path + ":" + symbol)
    ensures AddLine([path + ":" + symbol]).Some?
    ensures var line := AddLine([path + ":" + symbol]).value;
      0 < |line| && line[0] == '+' && NoNul(line[1..]) &&
      ParseTargetSpec(CStr(line[1..]), dflt) == Ok(Spec(path, symbol, dflt, 0))
  {
    var target := path + ":" + symbol;
    TargetValidIff(path, symbol);
    ValidatedLinesFit([target]);
    var line := AddLine([target]).value;
    assert line == "+" + target;
    assert line[1..] == path + ":" + symbol + Newline(false);
    ParseBareKey(path, symbol, false, dflt);
  }

  /**
   * update writes `=PATH:SYMBOL DELAY`, which the module parses back to the
   * same key and delay.
   */
  lemma {:induction false} UpdateRoundTrip(path: string, symbol: string, delay: string, dflt: u64)
    requires ValidPath(path) && ValidSymbol(symbol) && ValidateDelay(delay).Some?
    ensures NoNul(path + ":" + symbol) && NoNul(delay)
    ensures UpdateLine([path + ":" + symbol, delay]).Some?
    ensures var line := UpdateLine([path + ":" + symbol, delay]).value;
      0 < |line| && line[0] == '=' && NoNul(line[1..]) &&
      ParseTargetSpec(CStr(line[1..]), dflt) == Ok(Spec(path, symbol, ValidateDelay(delay).value, 0))
  {
    var target := path + ":" + symbol;
    var d := ValidateDelay(delay).value;
    DigitsNoNul(delay);
    TargetValidIff(path, symbol);
    ValidatedLinesFit([target, delay]);
    var line := UpdateLine([target, delay]).value;
    assert line[1..] == path + ":" + symbol + " " + Decimal(d) + Newline(false);
    DigitsNoNul(Decimal(d));
    ParseWithDelay(path, symbol, d, false, dflt);
  }

  /** remove writes `-PATH:SYMBOL`, which the module reads as a request to remove that key. */
  lemma {:induction false} RemoveRoundTrip(path: string, symbol: string)
    requires ValidPath(path) && 0 < |symbol| < MAX_SYMBOL_LEN && NoNul(symbol) && EndsClean(symbol)
    ensures NoNul(path + ":" + symbol)
    ensures RemoveLine([path + ":" + symbol]).Some?
    ensures var line := RemoveLine([path + ":" + symbol]).value;
      0 < |line| && line[0] == '-' && NoNul(line[1..]) &&
      ParseRemoveSpec(CStr(line[1..])) == Ok(RemoveOne(path, symbol))
  {
    var target := path + ":" + symbol;
    TargetValidIff(path, symbol);
    ValidatedLinesFit([target]);
    var line := RemoveLine([target]).value;
    assert line[1..] == path + ":" + symbol + Newline(false);
    RemoveKey(path, symbol, false);
  }

  /** clear writes `-*`, which the module reads as "remove every target". */
  lemma ClearRemovesAll()
    ensures CLEAR_LINE[0] == '-' && NoNul(CLEAR_LINE[1..])
    ensures ParseRemoveSpec(CStr(CLEAR_LINE[1..])) == Ok(RemoveAll)
  {
    assert CLEAR_LINE[1..] == "*";
  }

  /** Digit strings hold no NUL. */
  lemma DigitsNoNul(s: string)
    requires AllDigits(s)
    ensures NoNul(s)
  {
    DigitsOnly(s);
  }
}
