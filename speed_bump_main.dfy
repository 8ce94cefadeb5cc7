/**
 * The target registry and its sysfs endpoints (src/speed_bump_main.c): the
 * ordered list of at most 64 probed functions with unique (path, symbol)
 * keys, its separate count, the default delay, and the store/show handlers
 * that read and change them. Each handler is a method of `Registry`; the
 * kernel services probe registration uses are the `ProbeEnv` oracle of
 * module Uprobe, and kzalloc's outcome is the `alloc` flag.
 */
module Main {
  import opened SpeedBump
  import opened CStrings
  import opened Kstrtox
  import opened TargetSpec
  import opened Internal
  import Uprobe

  /** The (path, symbol) key that identifies a target. */
  type Key = (string, string)

  function KeyOf(t: Target): Key {
    (t.path, t.symbol)
  }

  /** The keys of a list of targets, in list order. */
  function Keys(ts: seq<Target>): (ks: seq<Key>)
    ensures |ks| == |ts|
    ensures forall i :: 0 <= i < |ts| ==> ks[i] == KeyOf(ts[i])
  {
    seq(|ts|, i requires 0 <= i < |ts| => KeyOf(ts[i]))
  }

  /** No key occurs twice. */
  predicate Unique(ks: seq<Key>) {
    forall i, j :: 0 <= i < j < |ks| ==> ks[i] != ks[j]
  }

  /** The index of the first occurrence of `k` at or after `i`, as find_target's list walk finds it. */
  function FindFrom(ks: seq<Key>, k: Key, i: nat): (r: Option<nat>)
    requires i <= |ks|
    ensures r.Some? ==> i <= r.value < |ks| && ks[r.value] == k && k !in ks[i..r.value]
    ensures r.None? <==> k !in ks[i..]
    decreases |ks| - i
  {
    if i == |ks| then None
    else if ks[i] == k then Some(i)
    else
      assert ks[i..] == [ks[i]] + ks[i + 1..];
      var r := FindFrom(ks, k, i + 1);
      assert r.Some? ==> ks[i..r.value] == [ks[i]] + ks[i + 1..r.value];
      r
  }

  /** find_target: the position of the first target with key `k`. */
  function Find(ks: seq<Key>, k: Key): (r: Option<nat>)
    ensures r.Some? ==> r.value < |ks| && ks[r.value] == k && k !in ks[..r.value]
    ensures r.None? <==> k !in ks
  {
    assert ks[0..] == ks;
    FindFrom(ks, k, 0)
  }

  /** The list with its `i`-th element taken out (list_del). */
  function RemoveAt<T>(s: seq<T>, i: nat): (r: seq<T>)
    requires i < |s|
    ensures |r| == |s| - 1
    ensures forall j :: 0 <= j < i ==> r[j] == s[j]
    ensures forall j :: i <= j < |r| ==> r[j] == s[j + 1]
  {
    s[..i] + s[i + 1..]
  }

  /** The sum of a sequence of counters, without wrapping. */
  function Sum(s: seq<u64>): nat {
    if s == [] then 0 else Sum(s[..|s| - 1]) + s[|s| - 1]
  }

  /** printf's %d and %lld: a minus sign for negative numbers. */
  function SignedDecimal(x: int): (s: string)
    ensures x >= 0 ==> s == Decimal(x)
    ensures x < 0 ==> s == "-" + Decimal(-x)
  {
    if x < 0 then "-" + Decimal(-x) else Decimal(x)
  }

  /** The fixed part of a targets_list line, up to the hit count: `PATH:SYMBOL delay_ns=DELAY hits=`. */
  function LineHead(t: Target): string
    reads t
  {
    t.path + ":" + t.symbol + " delay_ns=" + Decimal(t.delayNs) + " hits="
  }

  /** The pid part of a targets_list line: ` pid=PID` for a filter, nothing without one. */
  function PidText(pid: int): string {
    if pid != 0 then " pid=" + SignedDecimal(pid) else ""
  }

  /**
   * One line of targets_list: the key, the delay, the hit count read back
   * as a signed 64-bit number, and the pid filter when there is one.
   */
  function Line(t: Target): (l: string)
    reads t
    ensures |LineHead(t)| < |l| && l[..|LineHead(t)|] == LineHead(t)
    ensures var hits := SignedDecimal(Signed64(t.hitCount));
      |l| == |LineHead(t)| + |hits| + |PidText(t.pidFilter)| + 1 &&
      l[|LineHead(t)|..|LineHead(t)| + |hits|] == hits
    ensures l[|l| - 1] == '\n'
    ensures var tail := " pid=" + SignedDecimal(t.pidFilter) + "\n";
      t.pidFilter != 0 ==> |tail| < |l| && l[|l| - |tail|..] == tail
    ensures var tail := SignedDecimal(Signed64(t.hitCount)) + "\n";
      t.pidFilter == 0 ==> |tail| < |l| && l[|l| - |tail|..] == tail
  {
    var head, hits, pid := LineHead(t), SignedDecimal(Signed64(t.hitCount)), PidText(t.pidFilter);
    LineLayout(head, hits, pid);
    head + (hits + pid + "\n")
  }

  /** Where the parts of a line `head + hits + pid + "\n"` sit. */
  lemma LineLayout(head: string, hits: string, pid: string)
    ensures var l := head + (hits + pid + "\n");
      |l| == |head| + |hits| + |pid| + 1 && l[..|head|] == head &&
      l[|head|..|head| + |hits|] == hits && l[|head|..] == hits + pid + "\n" &&
      l[|head| + |hits|..] == pid + "\n" && l[|l| - 1] == '\n'
  {
    var rest := hits + pid + "\n";
    assert (head + rest)[|head|..] == rest;
    assert rest[..|hits|] == hits && rest[|hits|..] == pid + "\n";
  }

  /** The line of each target, in list order. */
  function Lines(ts: seq<Target>): (ls: seq<string>)
    reads set t | t in ts
    ensures |ls| == |ts|
  {
    seq(|ts|, i requires 0 <= i < |ts| reads ts => Line(ts[i]))
  }

  /** Strings written one after another. */
  function Join(ls: seq<string>): string {
    if ls == [] then "" else Join(ls[..|ls| - 1]) + ls[|ls| - 1]
  }

  /** The text of targets_list: one line per target, in list order. */
  function ListText(ts: seq<Target>): string
    reads set t | t in ts
  {
    Join(Lines(ts))
  }

  /** The text of stats. */
  function StatsText(enabled: int, count: int, hits: u64, delay: u64): string {
    "enabled: " + SignedDecimal(enabled) + "\n" +
    "targets: " + SignedDecimal(count) + "\n" +
    "total_hits: " + Decimal(hits) + "\n" +
    "total_delay_ns: " + Decimal(delay) + "\n"
  }

  /**
   * What add_target returns for `spec` when the list holds `keys`: the
   * parse error, then EEXIST for a key already present, then ENOSPC for a
   * full list, then ENOMEM when the allocation fails, then what probe
   * registration returns.
   */
  function AddRet(keys: seq<Key>, count: int, dflt: u64, spec: string, env: Uprobe.ProbeEnv, alloc: bool): int
    requires NoNul(spec)
  {
    match ParseTargetSpec(spec, dflt)
    case Err(e) => e
    case Ok(s) =>
      if (s.path, s.symbol) in keys then -EEXIST
      else if count >= MAX_TARGETS then -ENOSPC
      else if !alloc then -ENOMEM
      else Uprobe.RegisterRet(env, Uprobe.ProbeOffset(env, s.symbol))
  }

  /** What remove_target returns for `spec` when the list holds `keys`. */
  function RemoveRet(keys: seq<Key>, spec: string): int
    requires NoNul(spec)
  {
    match ParseRemoveSpec(spec)
    case Err(e) => e
    case Ok(RemoveAll) => 0
    case Ok(RemoveOne(p, s)) => if (p, s) in keys then 0 else -ENOENT
  }

  /** What update_target returns for `spec` when the list holds `keys`. */
  function UpdateRet(keys: seq<Key>, dflt: u64, spec: string): int
    requires NoNul(spec)
  {
    match ParseTargetSpec(spec, dflt)
    case Err(e) => e
    case Ok(s) => if (s.path, s.symbol) in keys then 0 else -ENOENT
  }

  /** enabled_store's reading of what was written: an int that must be 0 or 1. */
  function ParseEnabled(buf: string): (r: Result<int>)
    ensures r.Ok? ==> r.value == 0 || r.value == 1
    ensures r.Err? ==> r.code == -EINVAL || r.code == -ERANGE
  {
    match Kstrtoint(CStr(buf))
    case Err(e) => Err(e)
    case Ok(v) => if v != 0 && v != 1 then Err(-EINVAL) else Ok(v)
  }

  /** default_delay_ns_store's reading of what was written: a u64 no larger than the ceiling. */
  function ParseDefaultDelay(buf: string): (r: Result<u64>)
    ensures r.Ok? ==> r.value <= MAX_DELAY_NS
    ensures r.Err? ==> r.code == -EINVAL || r.code == -ERANGE
  {
    match Kstrtou64(CStr(buf))
    case Err(e) => Err(e)
    case Ok(v) => if v > MAX_DELAY_NS then Err(-ERANGE) else Ok(v)
  }

  /** A store handler's return: the error, or the whole byte count on success. */
  function StoreRet(ret: int, count: nat): int {
    if ret != 0 then ret else count
  }

  /**
   * The module's state: speed_bump_targets, speed_bump_target_count,
   * speed_bump_default_delay, the enable flag and handler totals, and the
   * per-CPU counters stats reads (one entry per possible CPU).
   */
  class Registry {
    var targets: seq<Target>
    var count: int
    var defaultDelay: u64
    const globals: Globals
    const hitsPercpu: seq<u64>
    const delayPercpu: seq<u64>

    /**
     * Between two calls: the count is the list's length and at most 64,
     * keys are unique, every listed target was parsed and registered, the
     * default delay is within the ceiling, the flag is 0 or 1, and the
     * per-CPU counters, which nothing writes, are zero.
     */
    ghost predicate Valid()
      reads this, globals, set t | t in targets
    {
      count == |targets| <= MAX_TARGETS &&
      Unique(Keys(targets)) &&
      (forall i :: 0 <= i < |targets| ==>
        targets[i].Valid() && targets[i].registered &&
        ValidPath(targets[i].path) && ValidSymbol(targets[i].symbol) &&
        targets[i].delayNs <= MAX_DELAY_NS && 0 <= targets[i].pidFilter <= INT_MAX) &&
      defaultDelay <= MAX_DELAY_NS &&
      (globals.enabled == 0 || globals.enabled == 1) &&
      (forall c :: 0 <= c < |hitsPercpu| ==> hitsPercpu[c] == 0) &&
      (forall c :: 0 <= c < |delayPercpu| ==> delayPercpu[c] == 0)
    }

    /** The state at module load, on a machine with `ncpus` possible CPUs. */
    constructor(ncpus: nat)
      ensures Valid()
      ensures targets == [] && count == 0 && defaultDelay == DEFAULT_DELAY_NS
      ensures globals.enabled == 0 && globals.totalHits == 0 && globals.totalDelay == 0
      ensures |hitsPercpu| == ncpus && |delayPercpu| == ncpus
    {
      targets := [];
      count := 0;
      defaultDelay := DEFAULT_DELAY_NS;
      globals := new Globals();
      hitsPercpu := seq(ncpus, _ => 0);
      delayPercpu := seq(ncpus, _ => 0);
    }

    /** find_target: walks the list from the head and stops at the first target with the key. */
    method FindTarget(path: string, symbol: string) returns (r: Option<nat>)
      ensures r == Find(Keys(targets), (path, symbol))
    {
      var i := 0;
      while i < |targets|
        invariant 0 <= i <= |targets|
        invariant FindFrom(Keys(targets), (path, symbol), i) == Find(Keys(targets), (path, symbol))
      {
        if targets[i].path == path && targets[i].symbol == symbol {
          return Some(i);
        }
        i := i + 1;
      }
      return None;
    }

    /**
     * free_target: unregisters the probe, unlinks the target from the
     * list (keeping the others in order) and decrements the count.
     */
    method FreeTarget(i: nat)
      requires Valid() && i < |targets|
      modifies this`targets, this`count, targets[i]
      ensures Valid()
      ensures targets == RemoveAt(old(targets), i) && count == old(count) - 1
      ensures Keys(targets) == RemoveAt(old(Keys(targets)), i)
      ensures var t := old(targets[i]);
        t.Valid() && !t.registered &&
        t.trace == old(t.trace) + [UnregisterNosync(old(t.uprobe).value), UnregisterSync, IPut(old(t.inode).value)]
    {
      var t := targets[i];
      Uprobe.UnregisterUprobe(t);
      DistinctTargets(targets, i);
      targets := targets[..i] + targets[i + 1..];
      count := count - 1;
      UniqueRemoveAt(old(Keys(targets)), i);
      assert Keys(targets) == RemoveAt(old(Keys(targets)), i);
    }

    /**
     * The remove-all loop of remove_target and speed_bump_exit: frees the
     * head of the list until the list is empty.
     */
    method FreeAllTargets()
      requires Valid()
      modifies this`targets, this`count, targets
      ensures Valid() && targets == [] && count == 0
      ensures forall t :: t in old(targets) ==> t.Valid() && !t.registered && Refs(t.trace) == 0
    {
      ghost var all := targets;
      while targets != []
        invariant Valid()
        invariant |targets| <= |all| && targets == all[|all| - |targets|..]
        invariant Unique(Keys(all))
        invariant forall j :: 0 <= j < |all| - |targets| ==> all[j].Valid() && !all[j].registered
        decreases |targets|
      {
        ghost var k := |all| - |targets|;
        assert targets[0] == all[k];
        FreeTarget(0);
        assert targets == all[k + 1..];
        forall j | 0 <= j < k + 1
          ensures all[j].Valid() && !all[j].registered
        {
          if j < k {
            DistinctTargets(all, k);
          }
        }
      }
      forall t | t in old(targets)
        ensures t.Valid() && !t.registered && Refs(t.trace) == 0
      {
        var j :| 0 <= j < |all| && all[j] == t;
      }
    }

    /**
     * What add_target leaves behind, given the list `before` it found and
     * the result `ret` it returned: the targets listed before are
     * untouched; a failure keeps the list and the count; a success appends
     * at the tail one fresh target built from the line and counts it.
     */
    twostate predicate Added(before: seq<Target>, spec: string, env: Uprobe.ProbeEnv, ret: int)
      requires NoNul(spec)
      reads this, targets, before
    {
      (forall j :: 0 <= j < |before| ==> unchanged(before[j])) &&
      (ret != 0 ==> targets == before && count == old(count)) &&
      (ret == 0 ==>
        ParseTargetSpec(spec, defaultDelay).Ok? &&
        |targets| == |before| + 1 && targets[..|before|] == before && count == old(count) + 1 &&
        fresh(targets[|targets| - 1]) &&
        AddedFrom(targets[|targets| - 1], ParseTargetSpec(spec, defaultDelay).value, env))
    }

    /**
     * What remove_target leaves behind, given the list `before` it found
     * and the result `ret` it returned: `*` empties the list, with every
     * former target unregistered and holding no inode reference; a removed
     * key unlinks exactly its target, unregistered, and touches no other;
     * a failure changes nothing.
     */
    twostate predicate Removed(before: seq<Target>, spec: string, ret: int)
      requires NoNul(spec)
      reads this, targets, before
    {
      (ParseRemoveSpec(spec) == Ok(RemoveAll) ==>
        targets == [] && count == 0 &&
        forall t :: t in before ==> t.Valid() && !t.registered && Refs(t.trace) == 0) &&
      (ParseRemoveSpec(spec).Ok? && ParseRemoveSpec(spec).value.RemoveOne? && ret == 0 ==>
        var r := ParseRemoveSpec(spec).value;
        Find(Keys(before), (r.path, r.symbol)).Some? &&
        var i := Find(Keys(before), (r.path, r.symbol)).value;
        targets == RemoveAt(before, i) && count == old(count) - 1 &&
        !before[i].registered && Refs(before[i].trace) == 0 &&
        forall j :: 0 <= j < |targets| ==> unchanged(targets[j])) &&
      (ret != 0 ==>
        targets == before && count == old(count) &&
        forall j :: 0 <= j < |targets| ==> unchanged(targets[j]))
    }

    /**
     * What update_target leaves behind, given the list `before` it found
     * and the result `ret` it returned: the list and count are kept; a
     * failure touches no target; a success sets the named target's delay,
     * and its pid only when the parsed pid is non-zero, and changes
     * nothing else.
     */
    twostate predicate Updated(before: seq<Target>, spec: string, ret: int)
      requires NoNul(spec)
      reads this, targets
    {
      targets == before && count == old(count) &&
      (ret != 0 ==> forall j :: 0 <= j < |targets| ==> unchanged(targets[j])) &&
      (ret == 0 ==>
        ParseTargetSpec(spec, defaultDelay).Ok? &&
        var s := ParseTargetSpec(spec, defaultDelay).value;
        Find(Keys(targets), (s.path, s.symbol)).Some? &&
        var i := Find(Keys(targets), (s.path, s.symbol)).value;
        var t: Target := targets[i];
        t.delayNs == s.delayNs &&
        t.pidFilter == (if s.pid != 0 then s.pid else old(t.pidFilter)) &&
        unchanged(t`offset, t`hitCount, t`totalDelayNs, t`inode, t`uprobe, t`registered, t`trace) &&
        forall j :: 0 <= j < |targets| && j != i ==> unchanged(targets[j]))
    }

    /**
     * add_target: parses the line, rejects a duplicate key, a full list and
     * a failed allocation, then registers the probe; only a registered
     * target is appended, at the tail, with its counters at zero.
     */
    method AddTarget(spec: string, env: Uprobe.ProbeEnv, alloc: bool) returns (ret: int)
      requires Valid() && NoNul(spec)
      modifies this`targets, this`count
      ensures Valid()
      ensures ret == AddRet(old(Keys(targets)), old(count), defaultDelay, spec, env, alloc)
      ensures Added(old(targets), spec, env, ret)
    {
      var parsed := ParseTargetSpec(spec, defaultDelay);
      if parsed.Err? {
        ret := parsed.code;
      } else {
        var s := parsed.value;
        var found := FindTarget(s.path, s.symbol);
        if found.Some? {
          ret := -EEXIST;
        } else if count >= MAX_TARGETS {
          ret := -ENOSPC;
        } else if !alloc {
          ret := -ENOMEM;
        } else {
          ret := AddParsed(s, env);
        }
      }
    }

    /**
     * The rest of add_target once the key is known to be new and the
     * allocation made: a zeroed target is filled in and registered, and
     * only then appended to the list.
     */
    method AddParsed(s: Spec, env: Uprobe.ProbeEnv) returns (ret: int)
      requires Valid() && |targets| < MAX_TARGETS && (s.path, s.symbol) !in Keys(targets)
      requires ValidPath(s.path) && ValidSymbol(s.symbol) && s.delayNs <= MAX_DELAY_NS && 0 <= s.pid <= INT_MAX
      modifies this`targets, this`count
      ensures Valid()
      ensures ret == Uprobe.RegisterRet(env, Uprobe.ProbeOffset(env, s.symbol))
      ensures ret != 0 ==> targets == old(targets) && count == old(count)
      ensures ret == 0 ==>
        |targets| == |old(targets)| + 1 && targets[..|old(targets)|] == old(targets) && count == old(count) + 1 &&
        fresh(targets[|targets| - 1]) && AddedFrom(targets[|targets| - 1], s, env)
    {
      var t;
      t, ret := NewRegisteredTarget(s, env);
      if ret != 0 {
        return ret;
      }
      LinkTail(t);
    }

    /** list_add_tail and atomic_inc: appends a registered target whose key is new. */
    method LinkTail(t: Target)
      requires Valid() && |targets| < MAX_TARGETS && KeyOf(t) !in Keys(targets)
      requires t.Valid() && t.registered && ValidPath(t.path) && ValidSymbol(t.symbol)
      requires t.delayNs <= MAX_DELAY_NS && 0 <= t.pidFilter <= INT_MAX
      modifies this`targets, this`count
      ensures Valid()
      ensures targets == old(targets) + [t] && count == old(count) + 1
    {
      targets := targets + [t];
      count := count + 1;
      assert Keys(targets) == old(Keys(targets)) + [KeyOf(t)];
      UniqueAppend(old(Keys(targets)), KeyOf(t));
    }

    /**
     * remove_target: `*` frees every target and returns 0; otherwise the
     * named target is freed, or ENOENT returned with nothing changed.
     */
    method RemoveTarget(spec: string) returns (ret: int)
      requires Valid() && NoNul(spec)
      modifies this`targets, this`count, targets
      ensures Valid()
      ensures ret == RemoveRet(old(Keys(targets)), spec)
      ensures Removed(old(targets), spec, ret)
    {
      var r := ParseRemoveSpec(spec);
      if r.Err? {
        return r.code;
      }
      if r.value.RemoveAll? {
        FreeAllTargets();
        return 0;
      }
      var found := FindTarget(r.value.path, r.value.symbol);
      if found.None? {
        return -ENOENT;
      }
      var i := found.value;
      ghost var before := targets;
      DistinctTargets(targets, i);
      FreeTarget(i);
      Uprobe.UnregisterRefs(old(targets[i].trace), old(targets[i].uprobe).value, old(targets[i].inode).value);
      return 0;
    }

    /**
     * update_target: the named target gets the parsed delay (the default
     * when none was given), and the parsed pid only when it is non-zero;
     * nothing else changes and the probe is not touched.
     */
    method UpdateTarget(spec: string) returns (ret: int)
      requires Valid() && NoNul(spec)
      modifies targets
      ensures Valid()
      ensures ret == UpdateRet(old(Keys(targets)), defaultDelay, spec)
      ensures Updated(old(targets), spec, ret)
    {
      var parsed := ParseTargetSpec(spec, defaultDelay);
      if parsed.Err? {
        ret := parsed.code;
      } else {
        var s := parsed.value;
        var found := FindTarget(s.path, s.symbol);
        if found.None? {
          ret := -ENOENT;
        } else {
          SetDelayAndPid(found.value, s.delayNs, s.pid);
          ret := 0;
        }
      }
    }

    /** The stores update_target makes into target `i`: the delay, and the pid unless it is 0. */
    method SetDelayAndPid(i: nat, delayNs: u64, pid: int)
      requires Valid() && i < |targets|
      requires delayNs <= MAX_DELAY_NS && 0 <= pid <= INT_MAX
      modifies targets[i]
      ensures Valid()
      ensures targets[i].delayNs == delayNs
      ensures targets[i].pidFilter == if pid != 0 then pid else old(targets[i].pidFilter)
      ensures var t: Target := targets[i];
        unchanged(t`offset, t`hitCount, t`totalDelayNs, t`inode, t`uprobe, t`registered, t`trace)
      ensures forall j :: 0 <= j < |targets| && j != i ==> unchanged(targets[j])
    {
      var t := targets[i];
      DistinctTargets(targets, i);
      t.delayNs := delayNs;
      if pid != 0 {
        t.pidFilter := pid;
      }
    }

    /**
     * targets_store: rejects an empty write and one longer than a line,
     * dispatches on the first byte to add, remove or update with the rest
     * of the buffer, and returns the byte count on success.
     */
    method TargetsStore(buf: seq<char>, env: Uprobe.ProbeEnv, alloc: bool) returns (ret: int)
      requires Valid()
      modifies this`targets, this`count, targets
      ensures Valid()
      ensures |buf| == 0 || |buf| > MAX_LINE_LEN || buf[0] !in {'+', '-', '='} ==>
        ret == -EINVAL && targets == old(targets) && count == old(count) &&
        forall j :: 0 <= j < |targets| ==> unchanged(targets[j])
      ensures 0 < |buf| <= MAX_LINE_LEN && buf[0] == '+' ==>
        var r := AddRet(old(Keys(targets)), old(count), defaultDelay, CStr(buf[1..]), env, alloc);
        ret == StoreRet(r, |buf|) && Added(old(targets), CStr(buf[1..]), env, r)
      ensures 0 < |buf| <= MAX_LINE_LEN && buf[0] == '-' ==>
        var r := RemoveRet(old(Keys(targets)), CStr(buf[1..]));
        ret == StoreRet(r, |buf|) && Removed(old(targets), CStr(buf[1..]), r)
      ensures 0 < |buf| <= MAX_LINE_LEN && buf[0] == '=' ==>
        var r := UpdateRet(old(Keys(targets)), defaultDelay, CStr(buf[1..]));
        ret == StoreRet(r, |buf|) && Updated(old(targets), CStr(buf[1..]), r)
    {
      if |buf| == 0 || |buf| > MAX_LINE_LEN {
        return -EINVAL;
      }
      var line := CStr(buf[1..]);
      var r;
      if buf[0] == '+' {
        r := AddTarget(line, env, alloc);
      } else if buf[0] == '-' {
        r := RemoveTarget(line);
      } else if buf[0] == '=' {
        r := UpdateTarget(line);
      } else {
        return -EINVAL;
      }
      return StoreRet(r, |buf|);
    }

    /** enabled_store: sets the flag to a written 0 or 1 and returns the byte count. */
    method EnabledStore(buf: seq<char>) returns (ret: int)
      requires Valid()
      modifies globals`enabled
      ensures Valid()
      ensures ret == match ParseEnabled(buf) case Ok(_) => |buf| case Err(e) => e
      ensures globals.enabled == match ParseEnabled(buf) case Ok(v) => v case Err(_) => old(globals.enabled)
    {
      var r := ParseEnabled(buf);
      if r.Err? {
        return r.code;
      }
      globals.enabled := r.value;
      return |buf|;
    }

    /** default_delay_ns_store: sets the default delay to a written value within the ceiling. */
    method DefaultDelayNsStore(buf: seq<char>) returns (ret: int)
      requires Valid()
      modifies this`defaultDelay
      ensures Valid()
      ensures ret == match ParseDefaultDelay(buf) case Ok(_) => |buf| case Err(e) => e
      ensures defaultDelay == match ParseDefaultDelay(buf) case Ok(v) => v case Err(_) => old(defaultDelay)
    {
      var r := ParseDefaultDelay(buf);
      if r.Err? {
        return r.code;
      }
      defaultDelay := r.value;
      return |buf|;
    }

    /** targets_list_show: the lines of all targets, in list order. */
    method TargetsListShow() returns (text: string)
      ensures text == ListText(targets)
    {
      text := "";
      ghost var lines := Lines(targets);
      for i := 0 to |targets|
        invariant text == Join(lines[..i])
      {
        assert lines[..i + 1][..i] == lines[..i];
        text := text + Line(targets[i]);
      }
      assert lines[..|targets|] == lines;
    }

    /** stats_show: the flag, the count and the summed per-CPU counters. */
    method StatsShow() returns (text: string)
      ensures text == StatsText(globals.enabled, count, Sum(hitsPercpu) % U64_MODULUS, Sum(delayPercpu) % U64_MODULUS)
    {
      var hits := AggregatePercpu(hitsPercpu);
      var delay := AggregatePercpu(delayPercpu);
      text := StatsText(globals.enabled, count, hits, delay);
    }

    /** speed_bump_exit: disables the handlers, then frees every target. */
    method Exit()
      requires Valid()
      modifies globals`enabled, this`targets, this`count, targets
      ensures Valid() && globals.enabled == 0 && targets == [] && count == 0
      ensures forall t :: t in old(targets) ==> t.Valid() && !t.registered && Refs(t.trace) == 0
    {
      globals.enabled := 0;
      FreeAllTargets();
    }
  }

  /**
   * A target as add_target leaves it: the parsed fields, counters at zero,
   * and the probe registered at the symbol's offset with the kernel calls
   * of a successful registration recorded.
   */
  ghost predicate AddedFrom(t: Target, s: Spec, env: Uprobe.ProbeEnv)
    reads t
  {
    t.path == s.path && t.symbol == s.symbol && t.delayNs == s.delayNs && t.pidFilter == s.pid &&
    t.hitCount == 0 && t.totalDelayNs == 0 && t.registered &&
    t.offset == Uprobe.ProbeOffset(env, s.symbol) &&
    t.trace == Uprobe.RegisterEvents(env, t.offset)
  }

  /**
   * The kzalloc'd target of add_target, filled in from the parsed spec and
   * passed to speed_bump_register_uprobe; it is not yet on any list.
   */
  method NewRegisteredTarget(s: Spec, env: Uprobe.ProbeEnv) returns (t: Target, ret: int)
    ensures fresh(t) && t.Valid()
    ensures ret == Uprobe.RegisterRet(env, Uprobe.ProbeOffset(env, s.symbol))
    ensures t.registered == (ret == 0)
    ensures ret == 0 ==> AddedFrom(t, s, env)
  {
    t := new Target(s.path, s.symbol, s.delayNs, s.pid);
    ret := Uprobe.RegisterUprobe(t, env);
  }

  /**
   * aggregate_percpu_hits and aggregate_percpu_delay: the per-CPU values
   * added into a u64, so the total is their sum modulo 2^64.
   */
  method AggregatePercpu(values: seq<u64>) returns (total: u64)
    ensures total == Sum(values) % U64_MODULUS
  {
    total := 0;
    for cpu := 0 to |values|
      invariant total == Sum(values[..cpu]) % U64_MODULUS
    {
      assert values[..cpu + 1][..cpu] == values[..cpu];
      total := WrapAdd(total, values[cpu]);
    }
    assert values[..|values|] == values;
  }

  // ---------------------------------------------------------------------
  // Keys and the list
  // ---------------------------------------------------------------------

  /** Targets at different positions of a list with unique keys are different objects. */
  lemma DistinctTargets(ts: seq<Target>, i: nat)
    requires Unique(Keys(ts)) && i < |ts|
    ensures forall j :: 0 <= j < |ts| && j != i ==> ts[j] != ts[i]
  {
    forall j | 0 <= j < |ts| && j != i
      ensures ts[j] != ts[i]
    {
      if j < i {
        assert Keys(ts)[j] != Keys(ts)[i];
      } else {
        assert Keys(ts)[i] != Keys(ts)[j];
      }
    }
  }

  /** Appending a key that is not yet present keeps keys unique. */
  lemma UniqueAppend(ks: seq<Key>, k: Key)
    requires Unique(ks) && k !in ks
    ensures Unique(ks + [k])
  {
  }

  /** Taking a key out keeps keys unique. */
  lemma UniqueRemoveAt(ks: seq<Key>, i: nat)
    requires Unique(ks) && i < |ks|
    ensures Unique(RemoveAt(ks, i))
  {
    var r := RemoveAt(ks, i);
    forall a, b | 0 <= a < b < |r|
      ensures r[a] != r[b]
    {
      var a' := if a < i then a else a + 1;
      var b' := if b < i then b else b + 1;
      assert r[a] == ks[a'] && r[b] == ks[b'];
    }
  }

  /** With unique keys, the first position holding a key is the only one. */
  lemma {:induction false} FindUnique(ks: seq<Key>, i: nat)
    requires Unique(ks) && i < |ks|
    ensures Find(ks, ks[i]) == Some(i)
  {
    var r := Find(ks, ks[i]);
    assert ks[i] in ks;
    var j := r.value;
    assert forall m :: 0 <= m < j ==> ks[..j][m] == ks[m];
  }

  /**
   * A key appended to a list that lacked it is found at the tail, and
   * removing it again gives back the original list.
   */
  lemma {:induction false} AddThenRemoveRestores(ks: seq<Key>, k: Key)
    requires Unique(ks) && k !in ks
    ensures Find(ks + [k], k) == Some(|ks|)
    ensures RemoveAt(ks + [k], |ks|) == ks
  {
    UniqueAppend(ks, k);
    FindUnique(ks + [k], |ks|);
    assert (ks + [k])[..|ks|] == ks;
  }

  /** Removing the key at `i` leaves every other key present and that key absent. */
  lemma {:induction false} RemoveAtDropsOnlyThatKey(ks: seq<Key>, i: nat)
    requires Unique(ks) && i < |ks|
    ensures ks[i] !in RemoveAt(ks, i)
    ensures forall j :: 0 <= j < |ks| && j != i ==> ks[j] in RemoveAt(ks, i)
  {
    var r := RemoveAt(ks, i);
    forall j | 0 <= j < |r|
      ensures r[j] != ks[i]
    {
      var j' := if j < i then j else j + 1;
      assert r[j] == ks[j'];
    }
    forall j | 0 <= j < |ks| && j != i
      ensures ks[j] in r
    {
      var j' := if j < i then j else j - 1;
      assert r[j'] == ks[j];
    }
  }

  // ---------------------------------------------------------------------
  // Outcomes of the commands
  // ---------------------------------------------------------------------

  /**
   * add succeeds exactly when the line parses, the key is new, the list is
   * not full, the allocation succeeds and registration succeeds; it
   * otherwise returns a negative errno.
   */
  lemma AddSucceedsIff(keys: seq<Key>, count: int, dflt: u64, spec: string, env: Uprobe.ProbeEnv, alloc: bool)
    requires NoNul(spec)
    ensures AddRet(keys, count, dflt, spec, env, alloc) <= 0
    ensures AddRet(keys, count, dflt, spec, env, alloc) == 0 <==>
      var p := ParseTargetSpec(spec, dflt);
      p.Ok? && (p.value.path, p.value.symbol) !in keys && count < MAX_TARGETS && alloc &&
      Uprobe.OpensFile(env) && Uprobe.ProbeOffset(env, p.value.symbol) != 0 && env.registerErr.None?
  {
    var p := ParseTargetSpec(spec, dflt);
    if p.Ok? {
      Uprobe.RegisterSucceedsIffEveryStepDoes(env, Uprobe.ProbeOffset(env, p.value.symbol));
    }
  }

  /** A key already in the list is refused before the count or the probe is looked at. */
  lemma {:induction false} DuplicateRefused(keys: seq<Key>, count: int, dflt: u64, path: string, symbol: string,
                                            d: u64, env: Uprobe.ProbeEnv, alloc: bool)
    requires ValidPath(path) && ValidSymbol(symbol) && d <= MAX_DELAY_NS && (path, symbol) in keys
    ensures NoNul(path + ":" + symbol + " " + Decimal(d))
    ensures AddRet(keys, count, dflt, path + ":" + symbol + " " + Decimal(d), env, alloc) == -EEXIST
  {
    ParseWithDelay(path, symbol, d, false, dflt);
    assert path + ":" + symbol + " " + Decimal(d) + Newline(false) == path + ":" + symbol + " " + Decimal(d);
  }

  /** With 64 targets, a new key is refused with ENOSPC. */
  lemma {:induction false} FullListRefused(keys: seq<Key>, dflt: u64, path: string, symbol: string,
                                           env: Uprobe.ProbeEnv, alloc: bool)
    requires ValidPath(path) && ValidSymbol(symbol) && EndsClean(symbol)
    requires |keys| == MAX_TARGETS && (path, symbol) !in keys
    ensures NoNul(path + ":" + symbol)
    ensures AddRet(keys, |keys|, dflt, path + ":" + symbol, env, alloc) == -ENOSPC
  {
    ParseBareKey(path, symbol, false, dflt);
    assert path + ":" + symbol + Newline(false) == path + ":" + symbol;
  }

  /** `*`, alone or with a newline, always succeeds, even on an empty list. */
  lemma RemoveAllSucceeds(keys: seq<Key>, nl: bool)
    ensures NoNul("*" + Newline(nl))
    ensures RemoveRet(keys, "*" + Newline(nl)) == 0
  {
  }

  /** Removing a key that is not in the list gives ENOENT. */
  lemma {:induction false} RemoveMissingIsENOENT(keys: seq<Key>, path: string, symbol: string, nl: bool)
    requires ValidPath(path) && 0 < |symbol| < MAX_SYMBOL_LEN && NoNul(symbol) && EndsClean(symbol)
    requires (path, symbol) !in keys
    ensures NoNul(path + ":" + symbol + Newline(nl))
    ensures RemoveRet(keys, path + ":" + symbol + Newline(nl)) == -ENOENT
  {
    RemoveKey(path, symbol, nl);
  }

  /**
   * A remove line that carries a delay, as add accepts it, never removes
   * anything: every listed symbol is free of spaces, and the parsed one is not.
   */
  lemma {:induction false} RemoveWithDelayIsENOENT(keys: seq<Key>, path: string, symbol: string, d: u64)
    requires ValidPath(path) && ValidSymbol(symbol)
    requires forall i :: 0 <= i < |keys| ==> ' ' !in keys[i].1
    ensures NoNul(path + ":" + symbol + " " + Decimal(d))
    ensures RemoveRet(keys, path + ":" + symbol + " " + Decimal(d)) != 0
  {
    var spec := path + ":" + symbol + " " + Decimal(d);
    RemoveWithDelayKeepsSpace(path, symbol, d);
    var r := ParseRemoveSpec(spec);
    if r.Ok? {
      var k := (r.value.path, r.value.symbol);
      assert forall i :: 0 <= i < |keys| ==> keys[i] != k;
    }
  }

  /** Updating with a bare key resets the delay to the current default. */
  lemma {:induction false} UpdateBareKeyUsesDefault(keys: seq<Key>, dflt: u64, path: string, symbol: string, nl: bool)
    requires ValidPath(path) && ValidSymbol(symbol) && EndsClean(symbol) && (path, symbol) in keys
    ensures NoNul(path + ":" + symbol + Newline(nl))
    ensures UpdateRet(keys, dflt, path + ":" + symbol + Newline(nl)) == 0
    ensures ParseTargetSpec(path + ":" + symbol + Newline(nl), dflt).value.delayNs == dflt
    ensures ParseTargetSpec(path + ":" + symbol + Newline(nl), dflt).value.pid == 0
  {
    ParseBareKey(path, symbol, nl, dflt);
  }

  // ---------------------------------------------------------------------
  // The setters
  // ---------------------------------------------------------------------

  /** The C string of a buffer without NUL is the whole buffer. */
  lemma CStrWhole(buf: seq<char>)
    requires NoNul(buf)
    ensures CStr(buf) == buf
  {
  }

  /** Writing a number to enabled sets the flag when it is 0 or 1 and is refused otherwise. */
  lemma {:induction false} EnabledAcceptsOnlyBits(n: nat, nl: bool)
    requires n <= INT_MAX
    ensures ParseEnabled(Decimal(n) + Newline(nl)) == if n <= 1 then Ok(n) else Err(-EINVAL)
  {
    var buf := Decimal(n) + Newline(nl);
    DigitsOnly(Decimal(n));
    CStrWhole(buf);
    KstrtointDecimal(n, nl);
  }

  /** Writing a number to default_delay_ns sets it when within the ceiling and gives ERANGE otherwise. */
  lemma {:induction false} DefaultDelayWithinCeiling(d: u64, nl: bool)
    ensures ParseDefaultDelay(Decimal(d) + Newline(nl)) == if d <= MAX_DELAY_NS then Ok(d) else Err(-ERANGE)
  {
    var buf := Decimal(d) + Newline(nl);
    DigitsOnly(Decimal(d));
    CStrWhole(buf);
    Kstrtou64Decimal(d, nl);
  }

  // ---------------------------------------------------------------------
  // What is shown
  // ---------------------------------------------------------------------

  /** The sum modulo 2^64 of counters that are all zero is zero. */
  lemma {:induction false} SumOfZeros(s: seq<u64>)
    requires forall c :: 0 <= c < |s| ==> s[c] == 0
    ensures Sum(s) == 0
  {
    if s != [] {
      SumOfZeros(s[..|s| - 1]);
    }
  }

  /** The listing of two runs of targets is the listing of the first then of the second. */
  lemma {:induction false} ListTextAppend(a: seq<Target>, b: seq<Target>)
    ensures ListText(a + b) == ListText(a) + ListText(b)
  {
    assert Lines(a + b) == Lines(a) + Lines(b);
    JoinAppend(Lines(a), Lines(b));
  }

  lemma {:induction false} JoinAppend(xs: seq<string>, ys: seq<string>)
    ensures Join(xs + ys) == Join(xs) + Join(ys)
    decreases |ys|
  {
    if ys == [] {
      assert xs + ys == xs;
    } else {
      var init, last := ys[..|ys| - 1], ys[|ys| - 1];
      assert (xs + ys)[..|xs + ys| - 1] == xs + init;
      assert (xs + ys)[|xs + ys| - 1] == last;
      JoinAppend(xs, init);
      assert Join(xs + ys) == Join(xs) + Join(init) + last;
    }
  }

  /** A hit count of 2^63 or more reads back negative through %lld. */
  lemma LargeHitCountShownNegative(hits: u64)
    requires hits >= 0x8000_0000_0000_0000
    ensures SignedDecimal(Signed64(hits))[0] == '-'
  {
  }
}
