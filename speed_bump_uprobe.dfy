/**
 * Probe lifecycle and hit handler (src/speed_bump_uprobe.c). The kernel
 * services the registration uses (kern_path, igrab, filp_open with the
 * file's bytes, uprobe_register) are an oracle: a `ProbeEnv` says what each
 * of them returns for the target's path on this call.
 */
module Uprobe {
  import opened SpeedBump
  import opened Internal
  import ElfSymbols
  import Delay

  /** What the kernel services answer for one registration attempt. */
  datatype ProbeEnv = ProbeEnv(
    lookupErr: Option<Errno>,     // kern_path fails with this code
    igrab: Option<nat>,           // the inode igrab returns; None for NULL
    openErr: Option<Errno>,       // filp_open fails with this code
    file: seq<ElfSymbols.byte>,   // the bytes kernel_read sees through the opened file
    registerErr: Option<Errno>,   // uprobe_register fails with this code
    uprobeHandle: nat)            // the uprobe it returns otherwise

  /** The offset the symbol resolves to in the file the oracle opens. */
  function ProbeOffset(env: ProbeEnv, symbol: string): i64 {
    ElfSymbols.ResolveSpec(env.file, symbol)
  }

  /**
   * speed_bump_register_uprobe's return value for a target that is not
   * registered, when the symbol resolves to `offset` in the opened file.
   */
  function RegisterRet(env: ProbeEnv, offset: i64): int {
    if env.lookupErr.Some? then env.lookupErr.value
    else if env.igrab.None? then -ENOENT
    else if env.openErr.Some? then env.openErr.value
    else if offset == 0 then -ENOENT
    else if env.registerErr.Some? then env.registerErr.value
    else 0
  }

  /** Whether registration gets as far as opening the file, which stores the resolved offset. */
  predicate OpensFile(env: ProbeEnv) {
    env.lookupErr.None? && env.igrab.Some? && env.openErr.None?
  }

  /** The kernel calls registration makes on the inode, in order. */
  ghost function RegisterEvents(env: ProbeEnv, offset: i64): seq<Event> {
    if env.lookupErr.Some? || env.igrab.None? then []
    else if env.openErr.Some? then [IGrab(env.igrab.value), IPut(env.igrab.value)]
    else [IGrab(env.igrab.value)] + AttachEvents(env, env.igrab.value, offset)
  }

  /** The calls made on inode `ino` once the file is open and the offset resolved. */
  ghost function AttachEvents(env: ProbeEnv, ino: nat, offset: i64): seq<Event> {
    if offset == 0 then [IPut(ino)]
    else if env.registerErr.Some? then [UprobeRegister(ino, offset), IPut(ino)]
    else [UprobeRegister(ino, offset)]
  }

  /** Registration succeeds exactly when every step does, and otherwise returns a negative errno. */
  lemma RegisterSucceedsIffEveryStepDoes(env: ProbeEnv, offset: i64)
    ensures RegisterRet(env, offset) <= 0
    ensures RegisterRet(env, offset) == 0 <==> OpensFile(env) && offset != 0 && env.registerErr.None?
  {
  }

  /** A symbol the file does not define (offset 0) fails with ENOENT once the file is open. */
  lemma MissingSymbolIsENOENT(env: ProbeEnv, symbol: string)
    requires OpensFile(env) && ProbeOffset(env, symbol) == 0
    ensures RegisterRet(env, ProbeOffset(env, symbol)) == -ENOENT
  {
  }

  /** After the file is open, failure drops the reference igrab took and success keeps it. */
  lemma {:induction false} AttachRefs(env: ProbeEnv, ino: nat, offset: i64)
    requires OpensFile(env)
    ensures Refs(AttachEvents(env, ino, offset)) == (if RegisterRet(env, offset) == 0 then 0 else -1)
  {
    RefsSingle(IPut(ino));
    RefsSingle(UprobeRegister(ino, offset));
    RefsAppend([UprobeRegister(ino, offset)], [IPut(ino)]);
    assert [UprobeRegister(ino, offset)] + [IPut(ino)] == [UprobeRegister(ino, offset), IPut(ino)];
  }

  /**
   * Every path through registration drops the inode reference it took,
   * except success, which keeps exactly one.
   */
  lemma {:induction false} RegisterKeepsOneRefOnSuccess(env: ProbeEnv, offset: i64)
    ensures Refs(RegisterEvents(env, offset)) == (if RegisterRet(env, offset) == 0 then 1 else 0)
  {
    if env.lookupErr.None? && env.igrab.Some? {
      var ino := env.igrab.value;
      RefsSingle(IGrab(ino));
      RefsSingle(IPut(ino));
      RefsAppend([IGrab(ino)], [IPut(ino)]);
      assert [IGrab(ino)] + [IPut(ino)] == [IGrab(ino), IPut(ino)];
      if env.openErr.None? {
        RefsAppend([IGrab(ino)], AttachEvents(env, ino, offset));
        AttachRefs(env, ino, offset);
      }
    }
  }

  /** Unregistration drops exactly the one reference a registered target holds. */
  lemma UnregisterRefs(before: seq<Event>, uprobe: nat, inode: nat)
    ensures Refs(before + [UnregisterNosync(uprobe), UnregisterSync, IPut(inode)]) == Refs(before) - 1
  {
    var ev := [UnregisterNosync(uprobe), UnregisterSync, IPut(inode)];
    RefsAppend(before, ev);
    assert ev[1..] == [UnregisterSync, IPut(inode)];
    assert ev[1..][1..] == [IPut(inode)];
    RefsSingle(IPut(inode));
  }

  /** speed_bump_register_uprobe. */
  method RegisterUprobe(t: Target, env: ProbeEnv) returns (ret: int)
    requires t.Valid()
    modifies t`offset, t`inode, t`uprobe, t`registered, t`trace
    ensures t.Valid()
    ensures old(t.registered) ==> ret == 0 && unchanged(t)
    ensures t.offset == if !old(t.registered) && OpensFile(env) then ProbeOffset(env, t.symbol) else old(t.offset)
    ensures !old(t.registered) ==> ret == RegisterRet(env, t.offset) == RegisterRet(env, ProbeOffset(env, t.symbol))
    ensures !old(t.registered) ==> t.registered == (ret == 0)
    ensures !old(t.registered) ==> t.trace == old(t.trace) + RegisterEvents(env, t.offset)
    ensures !old(t.registered) && ret == 0 ==> t.inode == env.igrab && t.uprobe == Some(env.uprobeHandle)
  {
    if t.registered {
      return 0;
    }
    if env.lookupErr.Some? {
      return env.lookupErr.value;
    }
    t.inode := env.igrab;
    if t.inode.None? {
      return -ENOENT;
    }
    if env.openErr.Some? {
      DropAfterFailedOpen(t, t.inode.value);
      ret := env.openErr.value;
    } else {
      ret := ResolveAndAttach(t, env, t.inode.value);
    }
  }

  /** igrab succeeded but filp_open failed: the reference is dropped again. */
  method DropAfterFailedOpen(t: Target, ino: nat)
    requires !t.registered && t.uprobe.None? && Refs(t.trace) == 0
    modifies t`inode, t`trace
    ensures t.Valid() && t.inode.None?
    ensures t.trace == old(t.trace) + [IGrab(ino), IPut(ino)]
  {
    t.trace := t.trace + [IGrab(ino)];
    t.trace := t.trace + [IPut(ino)];
    t.inode := None;
    RefsGrabPut(old(t.trace), ino);
  }

  /** igrab adds one inode reference to those the trace holds. */
  lemma RefsGrab(before: seq<Event>, ino: nat)
    ensures Refs(before + [IGrab(ino)]) == Refs(before) + 1
  {
    RefsAppend(before, [IGrab(ino)]);
    RefsSingle(IGrab(ino));
  }

  /** igrab followed by iput leaves the references as they were. */
  lemma RefsGrabPut(before: seq<Event>, ino: nat)
    ensures before + [IGrab(ino)] + [IPut(ino)] == before + [IGrab(ino), IPut(ino)]
    ensures Refs(before + [IGrab(ino)] + [IPut(ino)]) == Refs(before)
  {
    RefsGrab(before, ino);
    RefsAppend(before + [IGrab(ino)], [IPut(ino)]);
    RefsSingle(IPut(ino));
  }

  /**
   * igrab succeeded and the file is open: the reference is recorded, the
   * symbol's offset resolved in the file and the probe attached there.
   */
  method ResolveAndAttach(t: Target, env: ProbeEnv, ino: nat) returns (ret: int)
    requires OpensFile(env) && env.igrab == Some(ino)
    requires t.inode == Some(ino) && t.uprobe.None? && !t.registered && Refs(t.trace) == 0
    modifies t`offset, t`inode, t`uprobe, t`registered, t`trace
    ensures t.Valid()
    ensures t.offset == ProbeOffset(env, t.symbol)
    ensures ret == RegisterRet(env, t.offset)
    ensures t.registered == (ret == 0)
    ensures t.trace == old(t.trace) + RegisterEvents(env, t.offset)
    ensures ret == 0 ==> t.inode == env.igrab && t.uprobe == Some(env.uprobeHandle)
  {
    t.trace := t.trace + [IGrab(ino)];
    RefsGrab(old(t.trace), ino);
    t.offset := ElfSymbols.ResolveSymbolOffset(env.file, t.symbol);
    ret := AttachProbe(t, env, ino);
    assert t.trace == old(t.trace) + ([IGrab(ino)] + AttachEvents(env, ino, t.offset));
  }

  /**
   * The rest of speed_bump_register_uprobe once the offset is stored: an
   * offset of 0 or a uprobe_register failure drops the inode reference,
   * success marks the target registered.
   */
  method AttachProbe(t: Target, env: ProbeEnv, ino: nat) returns (ret: int)
    requires OpensFile(env) && env.igrab == Some(ino)
    requires t.inode == Some(ino) && t.uprobe.None? && !t.registered && Refs(t.trace) == 1
    modifies t`inode, t`uprobe, t`registered, t`trace
    ensures t.Valid()
    ensures ret == RegisterRet(env, t.offset)
    ensures t.registered == (ret == 0)
    ensures t.trace == old(t.trace) + AttachEvents(env, ino, t.offset)
    ensures ret == 0 ==> t.inode == env.igrab && t.uprobe == Some(env.uprobeHandle)
  {
    AttachRefs(env, ino, t.offset);
    RefsAppend(t.trace, AttachEvents(env, ino, t.offset));
    if t.offset == 0 {
      t.trace := t.trace + [IPut(ino)];
      t.inode := None;
      return -ENOENT;
    }
    t.trace := t.trace + [UprobeRegister(ino, t.offset)];
    if env.registerErr.Some? {
      t.uprobe := None;
      t.trace := t.trace + [IPut(ino)];
      t.inode := None;
      assert t.trace == old(t.trace) + AttachEvents(env, ino, t.offset);
      return env.registerErr.value;
    }
    t.uprobe := Some(env.uprobeHandle);
    t.registered := true;
    return 0;
  }

  /**
   * speed_bump_unregister_uprobe: the uprobe is detached without waiting,
   * then the handlers in flight are waited for, and only then is the inode
   * reference dropped.
   */
  method UnregisterUprobe(t: Target)
    requires t.Valid()
    modifies t`uprobe, t`inode, t`registered, t`trace
    ensures t.Valid() && !t.registered
    ensures !old(t.registered) ==> unchanged(t)
    ensures old(t.registered) ==>
      t.trace == old(t.trace) + [UnregisterNosync(old(t.uprobe).value), UnregisterSync, IPut(old(t.inode).value)]
  {
    if !t.registered {
      return;
    }
    t.trace := t.trace + [UnregisterNosync(t.uprobe.value)];
    t.trace := t.trace + [UnregisterSync];
    t.uprobe := None;
    t.trace := t.trace + [IPut(t.inode.value)];
    t.inode := None;
    t.registered := false;
    assert t.trace == old(t.trace) + [UnregisterNosync(old(t.uprobe).value), UnregisterSync, IPut(old(t.inode).value)];
    UnregisterRefs(old(t.trace), old(t.uprobe).value, old(t.inode).value);
  }

  /**
   * speed_bump_uprobe_handler. `clock` is what ktime_get_ns returns during
   * the delay; it is monotonic and eventually gets past the delay.
   */
  method UprobeHandler(g: Globals, t: Target, clock: seq<u64>) returns (ret: int)
    requires Delay.Monotonic(clock)
    requires t.delayNs != 0 ==> Delay.Reaches(clock, t.delayNs)
    modifies t`hitCount, t`totalDelayNs, g`totalHits, g`totalDelay
    ensures ret == 0
    ensures g.enabled == 0 ==> unchanged(t) && unchanged(g)
    ensures g.enabled != 0 ==>
      t.hitCount == WrapAdd(old(t.hitCount), 1) &&
      t.totalDelayNs == WrapAdd(old(t.totalDelayNs), t.delayNs) &&
      g.totalHits == WrapAdd(old(g.totalHits), 1) &&
      g.totalDelay == WrapAdd(old(g.totalDelay), t.delayNs)
  {
    if g.enabled == 0 {
      return 0;
    }
    var _, _ := Delay.SpinDelayNs(t.delayNs, clock);
    t.hitCount := WrapAdd(t.hitCount, 1);
    t.totalDelayNs := WrapAdd(t.totalDelayNs, t.delayNs);
    g.totalHits := WrapAdd(g.totalHits, 1);
    g.totalDelay := WrapAdd(g.totalDelay, t.delayNs);
    return 0;
  }
}
