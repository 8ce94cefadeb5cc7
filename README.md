# speed_bump in Dafny

speed_bump is a Linux kernel module that slows chosen user-space functions down on purpose.
An operator names a function as `PATH:SYMBOL`. The module resolves the symbol to a file offset by reading the ELF symbol tables of PATH. It places a uprobe there. Every call of the function then spins for a configured number of nanoseconds before it continues.
The module is driven through sysfs files under `/sys/kernel/speed_bump`:
- `targets`, which takes `+PATH:SYMBOL [DELAY] [pid=PID]`, `-PATH:SYMBOL`, `-*` and `=PATH:SYMBOL [DELAY] [pid=PID]`;
- `targets_list`, `stats`, `enabled` and `default_delay_ns`.
The user-space tool `sbctl` checks its arguments and writes those lines.

This project models the module's core and the tool's command builders, and proves properties of them:

| Dafny module | file | models |
|---|---|---|
| `SpeedBump` | speed_bump.dfy | limits, errno values, 64-bit wrap-around (`src/speed_bump.h`) |
| `CStrings` | cstrings.dfy | strchr, strstr, strncmp, the NUL terminator of a sysfs buffer |
| `Kstrtox` | kstrtox.dfy | the kernel's kstrtou64 / kstrtoint in base 10, and `%llu` rendering |
| `TargetSpec` | speed_bump_target_spec.dfy | `parse_target_spec` and the parsing half of `remove_target` |
| `Match` | speed_bump_match.dfy | `speed_bump_match_target` and the cases of `tests/test_match.c` |
| `Delay` | speed_bump_delay.dfy | `speed_bump_spin_delay_ns`, over a sequence of clock readings |
| `Internal` | speed_bump_internal.dfy | `struct speed_bump_target` as a class, and the global counters |
| `ElfSymbols` | speed_bump_elf.dfy | `resolve_symbol_offset`: loops proved equal to a first-match specification |
| `Uprobe` | speed_bump_uprobe.dfy | register / unregister state machine, and the hit handler |
| `Main` | speed_bump_main.dfy | the registry (`Registry` class) and every sysfs store/show handler |
| `Sbctl` | sbctl.dfy | `validate_target`, `validate_delay`, `cmd_add`, `cmd_remove`, `cmd_update`, `cmd_clear` |

The registry is a class whose `targets` field is a `seq<Target>`. Each `Target` is a class with the fields of the C struct.
Kernel services are an oracle value (`Uprobe.ProbeEnv`). It says what kern_path, igrab, filp_open, the file's bytes and uprobe_register give on one call.
Each target carries a ghost trace of the inode and uprobe calls made for it. This lets the model state the reference balance: one inode reference is held while registered, none otherwise. It also states the unregister order: nosync detach, then the sync barrier, then iput.
Imperative C (the list walks, the ELF loops, the spin loop, the per-CPU sum) is written as methods with loops. Each is proved against a specification function, and the properties are proved about that function.

Behaviour of the code that a reader might not expect, which the model follows as written:
- The hit handler never consults the pid filter. The filter is parsed, stored and listed, but every hit of an enabled target is delayed. (`pid_filter` is also missing from `struct speed_bump_target` in `src/speed_bump_internal.h`; the model gives `Target` the field that `src/speed_bump_main.c` uses.)
- The handler adds to global atomics. `stats` sums per-CPU counters that nothing writes, so its totals are always zero (`Main.SumOfZeros`, `Main.Registry.StatsShow`).
- Every resolver failure, including a file that is not ELF64, yields offset 0. Registration then fails with ENOENT; there is no separate "not ELF" error (`Uprobe.MissingSymbolIsENOENT`).
- Update accepts a bare `PATH:SYMBOL` and resets the delay to the current default (`Main.UpdateBareKeyUsesDefault`).
- A remove line is split at its first colon only. Its path need not be absolute. A remove line carrying a delay keeps the delay in its symbol, so it never matches a target (`Main.RemoveWithDelayIsENOENT`).
- Remove-all is `*` followed by the end of the string or one newline; `*\r` is not remove-all.
- A delay token of 32 bytes or more before ` pid=` is ignored and the default delay is used (`TargetSpec.LongDelayTokenIgnored`).
- `sbctl` accepts a 256-byte path, which the module refuses with ENAMETOOLONG (`Sbctl.LongestPathRejectedByModule`).
- `sbctl` accepts a 128-byte symbol (it rejects only longer ones), which the module refuses with ENAMETOOLONG, since it needs the symbol shorter than 128 bytes (`Sbctl.LongestSymbolRejectedByModule`). This is why `Sbctl.RemoveRoundTrip` asks for a symbol shorter than 128 bytes.
- The "command too long" branches of `sbctl` cannot be reached after validation (`Sbctl.ValidatedLinesFit`).

## Model

| member | source | states |
|---|---|---|
| SpeedBump.WrapAdd | src/speed_bump_uprobe.c:42-45 | a 64-bit counter add is the exact sum below 2^64 and wraps by 2^64 above it |
| SpeedBump.Signed64 | src/speed_bump_main.c:466-478 | a u64 bit pattern read as signed 64-bit: same value below 2^63, value minus 2^64 otherwise; zero and sign preserved accordingly |
| CStrings.StrChr | src/speed_bump_main.c:106-108 | strchr: returns an index holding `c` with no earlier `c`; absent exactly when `c` does not occur |
| CStrings.StrStr | src/speed_bump_main.c:133 | strstr: returns an occurrence of the pattern with no earlier one; absent exactly when none occurs |
| CStrings.CStr | src/speed_bump_main.c:437-444 | the C string a sysfs buffer holds is a NUL-free prefix, ended by a NUL when shorter than the buffer |
| CStrings.StrNCmp | src/speed_bump_match.c:54 | strncmp is 0 exactly when the first n bytes (or the whole strings, if shorter) agree, and otherwise -1 or 1 |
| Kstrtox.Decimal | src/speed_bump_main.c:470 | %llu rendering is non-empty decimal digits with no leading zero |
| Kstrtox.Decimal64Length | userspace/sbctl.c:273 | a 64-bit number renders in at most 20 digits |
| Kstrtox.DecimalLength | userspace/sbctl.c:273 | a number below 10^k renders in at most k digits |
| Kstrtox.DecValueOfDecimal | userspace/sbctl.c:273 | reading a rendered number back gives the number |
| Kstrtox.ParseULL | src/speed_bump_main.c:162 | success means at least one digit, the value of the digits, and then nothing or one newline; failures are EINVAL or ERANGE |
| Kstrtox.Kstrtou64 | src/speed_bump_main.c:162 | success needs a leading digit or '+'; failures are EINVAL or ERANGE |
| Kstrtox.Kstrtoint | src/speed_bump_main.c:136 | success yields a value within int range; failures are EINVAL or ERANGE |
| Kstrtox.Kstrtou64Decimal | src/speed_bump_main.c:162 | every u64 rendered in decimal, with or without a newline, parses back to itself |
| Kstrtox.KstrtointDecimal | src/speed_bump_main.c:136 | every non-negative int rendered in decimal parses back to itself |
| Kstrtox.KstrtointNegative | src/speed_bump_main.c:136-140 | `-digits` parses to the negated value, so a negative pid reaches the `< 0` check |
| Kstrtox.ParseULLDigits | src/speed_bump_main.c:162 | a plain digit string that fits 64 bits parses to its value |
| Kstrtox.NoDigitsRejected | src/speed_bump_main.c:162-164 | text with no leading digit or '+' is EINVAL |
| Delay.Sub64 | src/speed_bump_delay.c:36 | u64 subtraction is the plain difference when no wrap occurs |
| Delay.SpinDelayNs | src/speed_bump_delay.c:24-38 | zero delay reads no clock. Otherwise there is one cpu_relax per sample after the first; it stops at the first sample at least the delay past the start, and every earlier sample is short of it |
| Match.MatchTarget | src/speed_bump_match.c:28-74 | result is 0 or 1. It is 1 exactly when all three are present and the pattern splits at its first colon into a symbol equal to `symbol` and a path equal to `path`, or a prefix of it when the path part ends in '*' |
| Match.MatchesAtFirstColon | src/speed_bump_match.c:40-49 | the first colon is the only split point the match relation can use |
| Match.MatchAtColon | src/speed_bump_match.c:44-73 | the result once the first colon is known: exact path or prefix, and exact symbol |
| Match.LoneStarMatchesEveryPath | src/speed_bump_match.c:58-64 | a `*:SYMBOL` pattern matches every path for that symbol |
| Match.MissingPartsNeverMatch | src/speed_bump_match.c:36-42 | a NULL argument or a pattern without ':' never matches |
| Match.ExactMatchSimple | tests/test_match.c:43-44 | the test's expected result 1 |
| Match.ExactMatchLibrary | tests/test_match.c:46-48 | the test's expected result 1 |
| Match.ExactMatchMinimal | tests/test_match.c:50-51 | the test's expected result 1 |
| Match.ExactMismatchPath | tests/test_match.c:54-55 | the test's expected result 0 |
| Match.ExactMismatchSymbol | tests/test_match.c:57-58 | the test's expected result 0 |
| Match.ExactMismatchTrailingSlash | tests/test_match.c:60-61 | the test's expected result 0 |
| Match.ExactMismatchLongerPath | tests/test_match.c:63-64 | the test's expected result 0 |
| Match.PrefixMatchSubpath | tests/test_match.c:69-70 | the test's expected result 1 |
| Match.PrefixMatchDirectory | tests/test_match.c:72-73 | the test's expected result 1 |
| Match.PrefixMatchRoot | tests/test_match.c:75-76 | the test's expected result 1 |
| Match.PrefixMatchDeep | tests/test_match.c:78-80 | the test's expected result 1 |
| Match.PrefixMismatchRoot | tests/test_match.c:83-84 | the test's expected result 0 |
| Match.PrefixMismatchSymbol | tests/test_match.c:86-87 | the test's expected result 0 |
| Match.PrefixMismatchDirectory | tests/test_match.c:89-90 | the test's expected result 0 |
| Match.EmptyPathPattern | tests/test_match.c:107-108 | the test's expected result 1 |
| Match.EmptySymbolPattern | tests/test_match.c:110-111 | the test's expected result 1 |
| Match.NoColonPattern | tests/test_match.c:104-105 | the test's expected result 0 |
| TargetSpec.StripNewlines | src/speed_bump_main.c:173-176 | the result is a prefix that does not end in '\n' or '\r', and only '\n'/'\r' were removed |
| TargetSpec.TrimBlanks | src/speed_bump_main.c:147-150 | the result is a prefix that does not end in a blank, and only spaces and tabs were removed |
| TargetSpec.DelayAndPid | src/speed_bump_main.c:132-168 | failures are EINVAL or ERANGE; a parsed pid lies in 0..INT_MAX; a non-zero pid requires "pid=" in the text |
| TargetSpec.SymbolPart | src/speed_bump_main.c:122-186 | the symbol is a non-empty, space-free prefix shorter than 128; the pid lies in 0..INT_MAX; the delay is within the ceiling; failures are EINVAL, ERANGE or ENAMETOOLONG |
| TargetSpec.ParseTargetSpec | src/speed_bump_main.c:90-193 | on success the path is the text before the first colon: absolute and shorter than 256. The symbol starts right after the colon, is shorter than 128, has no space and starts with a letter or '_'. The pid lies in 0..INT_MAX and the delay is within the ceiling. Errors are EINVAL, ERANGE or ENAMETOOLONG |
| TargetSpec.ParseRemoveSpec | src/speed_bump_main.c:293-326 | remove-all exactly for `*` followed by the end or a newline; otherwise the path before the first colon (absolute or not) and the symbol: the whole text after the colon less its trailing '\n'/'\r' run, spaces included, every byte after the symbol being '\n' or '\r'; both within their limits |
| TargetSpec.DelayBeforePid | src/speed_bump_main.c:143-159 | with "pid=" present, the pid is read after it and the delay from the trimmed text before it, falling back to the default when that is empty or 32 bytes or more |
| TargetSpec.SplitKey | src/speed_bump_main.c:105-120 | a line with a valid path: the result is decided by the text after the colon and the first-character check |
| TargetSpec.SplitSymbol | src/speed_bump_main.c:122-171 | a valid symbol followed by a space: the result is the delay and pid of the rest, or ERANGE above the ceiling |
| TargetSpec.ParseSymbolThenRest | src/speed_bump_main.c:122-171 | `PATH:SYMBOL AFTER` parses to the target with the delay and pid AFTER gives, or fails as AFTER does |
| TargetSpec.ParseBareKey | src/speed_bump_main.c:172-186 | `PATH:SYMBOL`, with or without a newline, parses with the default delay and no pid filter |
| TargetSpec.ParseWithDelay | src/speed_bump_main.c:160-164 | `PATH:SYMBOL DELAY` parses to exactly that delay and no pid filter |
| TargetSpec.ParseWithDelayAndPid | src/speed_bump_main.c:143-156 | `PATH:SYMBOL DELAY pid=PID` parses to that delay and pid |
| TargetSpec.DelayThenPid | src/speed_bump_main.c:143-156 | the text `DELAY pid=PID` yields that delay and pid |
| TargetSpec.ParseWithPidOnly | src/speed_bump_main.c:165-168 | `PATH:SYMBOL pid=PID` parses with the default delay and that pid |
| TargetSpec.PidOnly | src/speed_bump_main.c:165-168 | the text `pid=PID` yields the default delay and that pid |
| TargetSpec.LongDelayTokenIgnored | src/speed_bump_main.c:151-159 | a delay of 32 digits or more before " pid=" is ignored and the default delay is used |
| TargetSpec.NoColonRejected | src/speed_bump_main.c:105-108 | a line without ':' is EINVAL |
| TargetSpec.PathRejected | src/speed_bump_main.c:110-117 | an empty path or one of 256 bytes or more is ENAMETOOLONG; otherwise a relative path is EINVAL |
| TargetSpec.DelayAboveMaxRejected | src/speed_bump_main.c:170-171 | a delay above 10 s is ERANGE |
| TargetSpec.NegativePidRejected | src/speed_bump_main.c:139-140 | a negative pid is EINVAL |
| TargetSpec.BadSymbolStartRejected | src/speed_bump_main.c:188-190 | a symbol starting with neither a letter nor '_' is EINVAL |
| TargetSpec.RemoveSplit | src/speed_bump_main.c:305-326 | a remove line with a valid path names that path and the rest less trailing newlines, or ENAMETOOLONG |
| TargetSpec.RemoveKey | src/speed_bump_main.c:305-326 | `PATH:SYMBOL`, with or without a newline, asks to remove exactly that key |
| TargetSpec.RemoveWithDelayKeepsSpace | src/speed_bump_main.c:317-326 | a remove line carrying a delay keeps the space in the symbol it names |
| Internal.Target.constructor | src/speed_bump_main.c:244-256 | a new target has the parsed fields, zero counters and offset, no inode or uprobe, is unregistered and valid |
| Internal.Globals.constructor | src/speed_bump_main.c:52 | handlers start disabled with zero totals |
| ElfSymbols.KernelRead | src/speed_bump_uprobe.c:79-81 | a full read returns exactly the file's bytes at that position; any short read is a failure |
| ElfSymbols.ReadTables | src/speed_bump_uprobe.c:78-113 | the header, magic, class, section table, e_shstrndx and shstrtab steps succeed only with a section table of e_shnum entries |
| ElfSymbols.CName | src/speed_bump_uprobe.c:163 | the name at an offset stops at the first NUL or the end of the table |
| ElfSymbols.CNameBytes | src/speed_bump_uprobe.c:163 | each character of the name is the table's byte at that position, and none is NUL |
| ElfSymbols.FirstEntry | src/speed_bump_uprobe.c:159-170 | a found entry has its name within the string table and equal to the symbol |
| ElfSymbols.FirstEntryIsFirst | src/speed_bump_uprobe.c:159-170 | no earlier entry matches, and none is found exactly when no entry matches |
| ElfSymbols.FirstHit | src/speed_bump_uprobe.c:116-176 | a found location is a searched section with a matching entry |
| ElfSymbols.FirstHitIsFirst | src/speed_bump_uprobe.c:116-176 | the hit is first in section order, then entry order, and none is found exactly when there is no hit |
| ElfSymbols.ResolveSymbolOffset | src/speed_bump_uprobe.c:63-182 | the method's result equals the first-match specification |
| ElfSymbols.SearchSections | src/speed_bump_uprobe.c:116-176 | the section loop returns the first hit's st_value, or 0 |
| ElfSymbols.ReadSection | src/speed_bump_uprobe.c:117-155 | a section is searched only if it is SYMTAB/DYNSYM, its link is in range, and both tables read in full |
| ElfSymbols.SearchEntries | src/speed_bump_uprobe.c:158-170 | the entry loop returns the first matching entry |
| ElfSymbols.HeaderErrorsResolveZero | src/speed_bump_uprobe.c:78-89 | a short header, a bad magic or a non-64-bit class resolves to 0 |
| ElfSymbols.ShortSectionTableResolvesZero | src/speed_bump_uprobe.c:96-99 | a short section table read resolves to 0 |
| ElfSymbols.BadShstrndxResolvesZero | src/speed_bump_uprobe.c:102-103 | an out-of-range e_shstrndx resolves to 0 |
| ElfSymbols.ShortShstrtabResolvesZero | src/speed_bump_uprobe.c:105-113 | a short shstrtab read resolves to 0, although that table is never searched |
| ElfSymbols.OnlyLinkedSymbolTablesSearched | src/speed_bump_uprobe.c:117-123 | a section that is not a symbol table, or whose link is out of range, never yields a hit |
| ElfSymbols.ResolveFirstMatch | src/speed_bump_uprobe.c:157-168 | the result is the st_value, as a loff_t, of the first matching entry in section then entry order |
| ElfSymbols.NoMatchResolvesZero | src/speed_bump_uprobe.c:178-181 | with no matching entry the result is 0 |
| Uprobe.RegisterSucceedsIffEveryStepDoes | src/speed_bump_uprobe.c:192-247 | registration returns 0 or a negative code, and 0 exactly when lookup, igrab, open, resolution and uprobe_register all succeed |
| Uprobe.MissingSymbolIsENOENT | src/speed_bump_uprobe.c:224-228 | once the file is open, an unresolved symbol gives ENOENT |
| Uprobe.AttachRefs | src/speed_bump_uprobe.c:224-246 | after the open, failure drops the igrab reference and success keeps it |
| Uprobe.RegisterKeepsOneRefOnSuccess | src/speed_bump_uprobe.c:201-246 | every registration path leaves zero inode references, except success, which leaves exactly one |
| Uprobe.UnregisterRefs | src/speed_bump_uprobe.c:258-263 | unregistration drops exactly one reference |
| Uprobe.RegisterUprobe | src/speed_bump_uprobe.c:192-247 | an already registered target is untouched and returns 0. Otherwise the return is the step-by-step result and the target is registered exactly on 0. The offset is stored once the file opens, the trace records the kernel calls in order, and the target stays valid |
| Uprobe.DropAfterFailedOpen | src/speed_bump_uprobe.c:214-219 | a failed open drops the inode reference and clears the inode |
| Uprobe.ResolveAndAttach | src/speed_bump_uprobe.c:207-246 | the igrab reference is recorded, the resolved offset stored, and the rest of registration performed as specified |
| Uprobe.AttachProbe | src/speed_bump_uprobe.c:224-246 | offset 0 or a uprobe_register failure drop the reference and fail; success keeps inode and uprobe and marks the target registered |
| Uprobe.UnregisterUprobe | src/speed_bump_uprobe.c:253-264 | a registered target is detached by nosync, then sync, then iput, in that order, and ends unregistered and valid; an unregistered one is untouched |
| Uprobe.UprobeHandler | src/speed_bump_uprobe.c:27-48 | disabled: nothing changes. Enabled: the target's and the global hit and delay counters each grow by 1 and by the delay, modulo 2^64 |
| Main.FindFrom | src/speed_bump_main.c:199-209 | the first position at or after i holding the key, or none exactly when the key is absent there |
| Main.Find | src/speed_bump_main.c:199-209 | the first position holding the key, or none exactly when the key is absent |
| Main.RemoveAt | src/speed_bump_main.c:73 | list_del keeps every other element in order, one shorter |
| Main.ParseEnabled | src/speed_bump_main.c:400-405 | success only with 0 or 1; errors are EINVAL or ERANGE |
| Main.ParseDefaultDelay | src/speed_bump_main.c:555-560 | success only within the 10 s ceiling; errors are EINVAL or ERANGE |
| Main.Registry.constructor | src/speed_bump_main.c:50-60 | module load: empty list, count 0, default delay 1 ms, disabled, zeroed counters, registry valid |
| Main.Registry.FindTarget | src/speed_bump_main.c:199-209 | the list walk returns the first target with the key |
| Main.Registry.FreeTarget | src/speed_bump_main.c:70-76 | the target is unregistered, unlinked with the others kept in order, and the count decremented; keys stay unique |
| Main.Registry.FreeAllTargets | src/speed_bump_main.c:294-302 | the list and count end empty, and every former target is unregistered, holding no inode reference |
| Main.Registry.AddTarget | src/speed_bump_main.c:215-279 | the return is the parse error, EEXIST, ENOSPC, ENOMEM or the registration result, in that order. Failure leaves the list unchanged. Success appends at the tail one fresh registered target with the parsed fields and zero counters, and increments the count (the outcome predicate `Added`) |
| Main.Registry.AddParsed | src/speed_bump_main.c:244-267 | the target is registered first and linked only on success |
| Main.Registry.LinkTail | src/speed_bump_main.c:266-267 | list_add_tail and the count increment keep the registry valid |
| Main.NewRegisteredTarget | src/speed_bump_main.c:244-263 | a fresh target filled from the spec is registered; on success it is exactly as add leaves it |
| Main.Registry.RemoveTarget | src/speed_bump_main.c:284-341 | `*` frees all targets and returns 0. A present key frees exactly that target and leaves the others unchanged. Otherwise the parse error or ENOENT is returned with nothing changed (the outcome predicate `Removed`) |
| Main.Registry.UpdateTarget | src/speed_bump_main.c:346-377 | the parse error or ENOENT leaves everything unchanged. Success sets the named target's delay and, if non-zero, its pid. The probe, counters and every other target are unchanged (the outcome predicate `Updated`) |
| Main.Registry.SetDelayAndPid | src/speed_bump_main.c:369-372 | the delay is stored and the pid only when non-zero; nothing else changes |
| Main.Registry.TargetsStore | src/speed_bump_main.c:421-447 | an empty, over-long or unknown-prefix write is EINVAL with nothing changed. Otherwise '+', '-' or '=' return the add, remove or update result, or the byte count on success, and leave the list and count as that operation does (the same `Added`, `Removed` and `Updated` outcomes the operations ensure): a failed add or remove changes nothing; a successful add appends one fresh target built from the line; `-*` empties the list; a successful remove unlinks exactly the named target; an update keeps the list and sets only the named target's delay and pid |
| Main.Registry.EnabledStore | src/speed_bump_main.c:395-410 | a written 0 or 1 sets the flag and returns the byte count; anything else returns the error and keeps the flag |
| Main.Registry.DefaultDelayNsStore | src/speed_bump_main.c:548-564 | a written value within the ceiling becomes the default and returns the byte count; otherwise the error, with the default kept |
| Main.Registry.TargetsListShow | src/speed_bump_main.c:458-484 | the text is one line per target, in list order |
| Main.Registry.StatsShow | src/speed_bump_main.c:520-532 | the text shows the flag, the count and the per-CPU sums modulo 2^64 |
| Main.Registry.Exit | src/speed_bump_main.c:609-628 | handlers are disabled, then every target is freed and left with no inode reference |
| Main.AggregatePercpu | src/speed_bump_main.c:493-513 | the loop's total is the sum of the per-CPU values modulo 2^64 |
| Main.UniqueAppend | src/speed_bump_main.c:231-235 | appending a key that is absent keeps keys unique |
| Main.UniqueRemoveAt | src/speed_bump_main.c:73 | unlinking keeps keys unique |
| Main.FindUnique | src/speed_bump_main.c:199-209 | with unique keys, find returns the only position holding a key |
| Main.AddThenRemoveRestores | src/speed_bump_main.c:266 | a new key appended is found at the tail, and unlinking it restores the list |
| Main.RemoveAtDropsOnlyThatKey | src/speed_bump_main.c:330-338 | removal drops the removed key and keeps every other key |
| Main.AddSucceedsIff | src/speed_bump_main.c:215-279 | add returns 0 or a negative code. It is 0 exactly when the line parses, the key is new, the list is not full, the allocation succeeds and registration succeeds |
| Main.DuplicateRefused | src/speed_bump_main.c:231-235 | a key already present is EEXIST |
| Main.FullListRefused | src/speed_bump_main.c:237-241 | a new key on a list of 64 is ENOSPC |
| Main.RemoveAllSucceeds | src/speed_bump_main.c:293-303 | `*`, with or without a newline, succeeds even on an empty list |
| Main.RemoveMissingIsENOENT | src/speed_bump_main.c:330-334 | removing an absent key is ENOENT |
| Main.RemoveWithDelayIsENOENT | src/speed_bump_main.c:317-334 | a remove line carrying a delay never removes a target |
| Main.UpdateBareKeyUsesDefault | src/speed_bump_main.c:184-185 | updating with a bare key succeeds and sets the current default delay and no pid |
| Main.EnabledAcceptsOnlyBits | src/speed_bump_main.c:400-407 | writing n to enabled yields n for 0 and 1 and EINVAL otherwise |
| Main.DefaultDelayWithinCeiling | src/speed_bump_main.c:555-561 | writing d to default_delay_ns yields d within the ceiling and ERANGE above it |
| Main.SumOfZeros | src/speed_bump_main.c:493-502 | counters that nothing writes sum to zero |
| Main.Line | src/speed_bump_main.c:466-478 | a listing line is `PATH:SYMBOL delay_ns=DELAY hits=`, then the hit count read as signed 64-bit, then ` pid=PID` only when a pid filter is set, then a newline: the head, the hit count and the pid and newline tail are each stated at their place, and the length is the sum of the parts |
| Main.ListTextAppend | src/speed_bump_main.c:466-481 | the listing of two runs of targets is the first listing followed by the second |
| Main.LargeHitCountShownNegative | src/speed_bump_main.c:471-474 | a hit count of 2^63 or more is shown negative through %lld |
| Sbctl.ValidateTarget | userspace/sbctl.c:188-231 | missing-colon exactly when there is no ':'; an accepted target is non-empty and absolute |
| Sbctl.ValidateDelay | userspace/sbctl.c:233-254 | a delay is accepted exactly when it is a non-empty run of digits whose decimal value is within the ceiling, and the result is that value (`007` gives 7) |
| Sbctl.Send | userspace/sbctl.c:283-287 | the existence check comes first. The write happens only when the module is loaded, and status 0 exactly when both succeed |
| Sbctl.AddLine | userspace/sbctl.c:256-281 | a built line needs a valid target (and delay, if given) and fits 512 bytes; it is `+TARGET DELAY` with the validated delay in decimal, or `+TARGET` without one |
| Sbctl.RemoveLine | userspace/sbctl.c:293-310 | a built line needs a valid target and is `-TARGET` |
| Sbctl.UpdateLine | userspace/sbctl.c:322-343 | a built line needs two arguments, a valid target and a valid delay, and is `=TARGET DELAY` |
| Sbctl.Command | userspace/sbctl.c:256-291 | no line means status 1 and no sysfs access; otherwise the line is sent |
| Sbctl.CmdAdd | userspace/sbctl.c:256-291 | status is 0 or 1, and 0 exactly when the add line was built, the module is loaded and the write succeeds. Sysfs is touched only for a built line, by the existence check and then a write of that line |
| Sbctl.CmdRemove | userspace/sbctl.c:293-320 | status is 0 or 1, and 0 exactly when the remove line was built, the module is loaded and the write succeeds. Sysfs is touched only for a built line, by the existence check and then a write of that line |
| Sbctl.CmdUpdate | userspace/sbctl.c:322-353 | status is 0 or 1, and 0 exactly when the update line was built, the module is loaded and the write succeeds. Sysfs is touched only for a built line, by the existence check and then a write of that line |
| Sbctl.CmdClear | userspace/sbctl.c:363-373 | status 0 exactly when the module is loaded and the write succeeds; the existence check comes first, then a write of `-*` only when loaded |
| Sbctl.CommandsSucceedIff | userspace/sbctl.c:256-353 | add, remove and update exit 0 exactly when their arguments pass validate_target (and validate_delay where a delay is given or required), the module is loaded and the write succeeds |
| Sbctl.TargetValidIff | userspace/sbctl.c:188-231 | `PATH:SYMBOL` passes exactly when PATH is non-empty, absolute and at most 256 bytes and SYMBOL is non-empty and at most 128 bytes |
| Sbctl.ValidationBeforeIO | userspace/sbctl.c:262-287 | a missing or invalid argument fails with status 1 before any sysfs access, and any access starts with the existence check |
| Sbctl.DelayRoundTrip | userspace/sbctl.c:233-254 | every delay within the ceiling, written in decimal, is accepted unchanged |
| Sbctl.DelayAgreesWithKernel | userspace/sbctl.c:239-243 | a delay the tool accepts is the value the module's kstrtou64 reads from the same text |
| Sbctl.ValidatedLinesFit | userspace/sbctl.c:278-281 | after validation the line always fits, so the "command too long" branch is unreachable |
| Sbctl.LongestPathRejectedByModule | userspace/sbctl.c:213 | a 256-byte path passes the tool and is refused by the module with ENAMETOOLONG |
| Sbctl.LongestSymbolRejectedByModule | userspace/sbctl.c:223-224 | a 128-byte symbol passes the tool and is refused by the module with ENAMETOOLONG, bare or followed by a delay |
| Sbctl.AddWithDelayRoundTrip | userspace/sbctl.c:273 | `add TARGET DELAY` writes a line the module parses back to the same path, symbol and delay, with no pid |
| Sbctl.AddBareRoundTrip | userspace/sbctl.c:275 | `add TARGET` writes a line the module parses back with the default delay |
| Sbctl.UpdateRoundTrip | userspace/sbctl.c:339 | `update TARGET DELAY` writes a line the module parses back to the same key and delay |
| Sbctl.RemoveRoundTrip | userspace/sbctl.c:306 | `remove TARGET` writes a line the module reads as removing exactly that key |
| Sbctl.ClearRemovesAll | userspace/sbctl.c:363-373 | `clear` writes `-*`, which the module reads as remove-all |

## Left out

- Sysfs and kobject wiring (`speed_bump_init`, the attribute group, `enabled_show`, `default_delay_ns_show`) and the truncation `sysfs_emit` applies at a page: the show handlers return the full text.
- Concurrency: the mutex, atomics and the handler running beside the store handlers. Each handler is modelled as one atomic step, and the unregister barrier is recorded as an ordered event only.
- Kernel services (kern_path, igrab, filp_open, uprobe_register, iput): an oracle value and a ghost trace. kzalloc's outcome is the `alloc` parameter. `pr_info` logging is not modelled.
- ElfSymbols.ResolveSymbolOffset: kmalloc failure of the resolver's buffers is not modelled separately. A buffer too large for the file fails the read in the model, which gives the same result as the source in that case.
- ElfSymbols.CName: a name is read up to the first NUL or the end of the string table. strcmp in the source may read past the end of the table when it has no NUL there.
- ElfSymbols: fields are decoded little-endian and EI_DATA is ignored, as host-order reads do on a little-endian machine. Big-endian hosts are not modelled.
- ElfSymbols: the offset is the raw st_value, as in the source. No conversion from virtual address to file offset through program headers is modelled, because the source does none.
- Delay.SpinDelayNs: only the clock readings and cpu_relax calls are modelled, not real time. The clock is assumed monotonic and eventually past the delay, as `ktime_get_ns` guarantees.
- Sbctl.ValidateDelay: strtoul's leniencies are not modelled. Leading whitespace, a sign, and a negated small value like `-0` are accepted by the source but rejected by the model. Every plain decimal string is handled as the source handles it.
- sbctl's `read_sysfs`, `main` and its option parsing, `print_usage`, `print_version`, and the `list`, `enable`, `disable`, `status` and `delay` commands: terminal and file I/O outside the core builders. The outcome of `check_module_loaded` and `write_sysfs` is the `Sysfs` oracle, and their error messages are not modelled.
- The pid filter's ancestry walk is not modelled: the handler in the source never reads the filter.
- The test harness and mock kernel (`tests/`) are not modelled, apart from the match cases restated as lemmas.
