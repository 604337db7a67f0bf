# kvm-pool: a Dafny model of the pool core and its option handling

kvm-pool keeps a pool of `kvm` virtual machines booted in advance ("spare"
VMs), each with its own VNC console id. This project models, in Dafny, the
part of the program that builds that pool and the option machinery it depends
on:

- **Pool** (`pool.dfy`, from `kvm-pool.c`): the VM table (`vms`,
  `vms_count`, `vms_spare_count`), choosing the least free console id
  (`newvncid`), claiming a slot and forking one spare VM
  (`kvmpool_runspare`), provisioning spare VMs up to `vms_spare_min`
  (`kvmpool_prepare_spare_vms`), allocating and releasing the table
  (`kvmpool`), and building the argument vector a spare VM is started with
  (`getargv`). `fork()` is a parameter: the outcome the parent sees.
- **Settings** (`settings.dfy`, from `main.c`): the option part of the
  context `ctx_t` as two classes. `Settings` holds the per-option arrays
  `flags_set`, `flags_values_raw`, `flags` and the scalar settings.
  `KvmArgs` holds the bounded list of extra kvm arguments. It models
  `parse_parameter` (which source may set an option, raw-value storage, the
  per-option effect), `kvm_arg`/`kvm_arg0`, the expansion pass over the kvm
  arguments in `main`, and `ctx_cleanup`. `parse_parameter` is also given as
  a function on a `State` value, and its properties are proved about that function.
- **Options** (`options.dfy`, from `main.c`): the `long_options` table,
  `parameter_get` (raw value by long name), and the short-option string
  handed to `getopt_long`, built into a fixed buffer.
- **Expand** (`expand.dfy`, from `main.c`): `parameter_expand`, the
  `%NAME%` macro expander. It handles the `%%` escape, `%PID%`, lazy
  upper-case macros, resolved and unresolved macros, an unterminated macro,
  and both counters. The output buffer `ret` is modelled as its contents
  plus its capacity, so writes through NULL or past the end are visible as
  `Crashed` outcomes.
  - `Writes.AsWritten` is the code as written.
  - `Writes.Guarded` adds the missing growth checks. The rest of the model
    uses the guarded mode.
  - A buffer-free reference reading (`Read`) specifies what an argument
    expands to.
- **Text** (`text.dfy`): decimal rendering as `%u`/`%i` print it, with its
  inverse.

Where the design description of the pool and the code differ, the model
follows the code:
- `newvncid` adds no port offset to the id it returns.
- The argument vector carries no network-interface argument.
- A failed `fork()` does not roll back the slot it claimed.
- `kvmpool_runspare` does not check capacity itself: it relies on the abort
  in `newvncid`.
- Console ids are compared over every claimed slot, not only over slots with
  a live pid.

## Model

| member | source | states |
|---|---|---|
| Options.BuildOptString | main.c:533-553 | the buffer filled through the running pointer holds exactly the concatenation of every table entry's contribution: its letter, then ':' for a required or '::' for an optional argument, and nothing for config-only or long-only options. At most three characters are written per entry, so the writes stay inside the buffer |
| Options.Chunk | main.c:538-548 | an entry contributes nothing exactly when it has no short form. Otherwise it contributes its letter followed only by colons: none for no argument, one for a required and two for an optional argument |
| Options.PutChunk | main.c:538-548 | writing one entry at the pointer appends exactly that entry's contribution and advances the pointer by its length |
| Options.OptStringAppend | main.c:537-551 | the option string of a concatenated table is the concatenation of the option strings of its parts, so the buffer built so far is the string of the entries scanned so far |
| Options.OptStringArgKind | main.c:537-551 | if the table's letters are distinct and none is ':', getopt reading the generated string finds each option's letter with exactly the argument kind the table gives it |
| Options.TableShortsDistinct | main.c:40-57 | the program's own table has distinct letters, none of them ':' |
| Options.LongOptionsReadBack | main.c:533-553 | for the program's own table, the string fits the alloca'd buffer, and every option with a letter is read back with its own argument kind |
| Options.FindOption | main.c:190-197 | returns the first entry carrying the name, and None exactly when no entry from the start index on carries it |
| Options.ParameterGet | main.c:183-206 | for a name in the table, it returns the raw value stored under the first matching entry's id. For a name not in the table it returns None (the ENOENT case) |
| Text.DecimalRoundTrip | kvm-pool.c:85 | reading back the decimal digits of an id gives the id |
| Text.DecimalInjective | kvm-pool.c:85 | distinct ids have distinct decimal renderings |
| Expand.NextPercent | main.c:277-280 | the scan stops at the first '%' after the opening one, or at the NUL, and no '%' lies before it |
| Expand.FindPercent | main.c:277-280 | the scanning loop stops at exactly that position |
| Expand.GrowForChar | main.c:357-360 | after the growth check the buffer keeps its text and has room for one more character and the NUL |
| Expand.GrowFor | main.c:340-343 | after the growth check the buffer keeps its text and has room for the macro value and the NUL |
| Expand.ClassifyCases | main.c:303-336 | a closed macro is the pid macro exactly when its name is "PID". It is kept lazily exactly when, not being "PID", its name starts with an upper-case letter and bit 4 of the flags is set. Otherwise a resolved macro carries the value the lookup returned, and an unresolved one is one the lookup did not find |
| Expand.LexAt | main.c:256-290 | the token at the pointer never runs past the argument |
| Expand.LexCases | main.c:256-290 | the token at the pointer is a plain character exactly when the pointer is not at a '%', and then it is that character. It is an escape exactly when a second '%' follows the first. A '%' is unterminated exactly when no later '%' follows it. A macro's name is the text up to the next '%', and it holds no '%' |
| Expand.StepAt | main.c:252-366 | an iteration that does not end the call moves the pointer strictly forward within the argument and keeps the buffer's room invariant |
| Expand.Finish | main.c:256-265 | at the NUL, a loop that never allocated returns the argument itself with the counters unchanged. It crashes exactly when the allocated buffer has no room left for the NUL; otherwise it returns the buffer's text |
| Expand.ExpandCounts | main.c:252-366 | the loop only counts up. Each macro passed adds one to the macro counter and at most one to the expansion counter, and a crash happens at or after the start index |
| Expand.Expand | main.c:222-366 | from the entry state, a completed expansion never counts more expansions than macros, a crash lies within the argument, and an empty argument expands to itself with no macros |
| Expand.Iteration | main.c:252-366 | one pass of the loop body, including the closing-'%' scan, computes exactly the state of the step semantics |
| Expand.ParameterExpand | main.c:222-370 | the loop with its buffer and counters yields exactly the outcome of the step semantics, including the unchecked writes in AsWritten mode |
| Expand.GuardedExpansion | main.c:252-366 | the guarded expander never crashes. It returns the reading of the argument: escapes as '%', macros as their text, the text cut at an unterminated macro, with both counters. When nothing was ever appended, it returns the argument itself |
| Expand.Value | main.c:222-370 | the string the guarded expander returns, which always exists |
| Expand.FullyExpanded | main.c:876-880 | the expansion counter equals the macro counter exactly when every closed macro was resolved by the lookup |
| Expand.AsWrittenAgrees | main.c:252-366 | whenever the code as written does not crash, its result and counters equal the guarded expander's |
| Expand.CleanNeverCrashes | main.c:268-288 | without "%%" or an unterminated macro, the code as written behaves exactly as the guarded expander |
| Expand.NoPercentUnchanged | main.c:252-265 | in both modes, an argument without '%' expands to itself with both counters zero |
| Expand.EscapeYieldsPercent | main.c:268-271 | "%%" after plain text yields one '%' followed by the reading of the rest |
| Expand.ResolvedMacroReplaced | main.c:318-346 | a macro whose variable resolves is replaced by its value, and both counters rise by one |
| Expand.UnresolvedMacroDropped | main.c:318-330 | an unresolved macro contributes nothing and counts only as a macro. If nothing at all was appended, the argument is returned unchanged |
| Expand.PidMacroNotCounted | main.c:303-312 | `%PID%` becomes the decimal pid. It is counted as a macro but not as an expansion |
| Expand.LazyMacroKept | main.c:313-317 | with bit 4 of the flags set, an upper-case macro is kept verbatim, including its percents, and is not counted as an expansion |
| Expand.UnterminatedEnds | main.c:281-288 | an unterminated macro ends the result with the text before its '%' and discards the rest. This holds in both modes when that text is non-empty |
| Expand.LeadingEscapeWritesNull | main.c:268-271 | as written, an argument starting with "%%" writes through the NULL buffer |
| Expand.BareUnterminatedWritesNull | main.c:281-288 | as written, an argument that is one unterminated macro writes its NUL through the NULL buffer |
| Expand.EscapeRunOverflows | main.c:262 | as written, "a" followed by 1025 escapes fills the 1026-byte buffer, and the final NUL lands past its end |
| Settings.ToInt32 | main.c:498-517 | the conversion to a 32-bit int lies in the int range, agrees with the value modulo 2^32, and is the identity on values already in range |
| Settings.Admit | main.c:420-464 | a command-line or control value is refused exactly when the option is config-only. A configuration value is ignored exactly when the option is already set. A correction without a value aborts. Otherwise the value is taken, and it marks the option as set exactly for the argument, control and config sources |
| Settings.Parse | main.c:413-526 | a value that is not taken leaves the state as it was. `flags_set` changes only by marking the option when the value is taken with a mark. No other option's raw value or flag changes, and a taken value is stored as `Stored` gives it |
| Settings.Stored | main.c:466-474 | kvm-argument values are stored verbatim. Every other value is stored as its expansion against the raw values stored so far |
| Settings.Effect | main.c:476-523 | the per-option switch changes no flag other than the option's own and leaves `flags_set` and the raw values untouched |
| Settings.ConfigYields | main.c:431-433 | a configuration value for an option already set by an argument or a control call is ignored with code 0, and nothing changes |
| Settings.ParseEntries | main.c:420-474 | every other option's entries are unchanged. A taken value sets the option's `flags_set` for an argument, control or config source and stores the value. A refused, ignored or aborted value changes nothing |
| Settings.ArgumentBeatsConfig | main.c:420-436 | after a command-line argument, a later configuration value for the same option is ignored |
| Settings.ArgumentReplacesConfig | main.c:420-474 | a later argument or control call replaces a configuration value |
| Settings.ConfigReplacesDefault | main.c:438-446 | a default leaves the option unclaimed, so a configuration value read later replaces it |
| Settings.StoredVisible | main.c:466-474 | after a value is stored, `parameter_get` on the option's long name returns it, so later macros expand to it |
| Settings.VmsMaxParsed | main.c:501-503 | `--max-vms` stores the parsed number truncated to int, and returns EINVAL exactly when the number is malformed |
| Settings.ListenParsedAsNumber | main.c:476-523 | `--listen` has no case of its own: its value is stored, then read as a number into its flag, so an address such as the default `0.0.0.0:5900` (common.h:50), which is not a whole number, returns EINVAL |
| Settings.KvmArgs.constructor | main.c:838 | the zeroed argument list: no arguments, all pointers NULL, no argument marked expanded |
| Settings.KvmArgs.Append | main.c:372-395 | appends the argument and returns 0 while fewer than MAXARGUMENTS-2 are held. Otherwise it returns E2BIG and changes nothing |
| Settings.KvmArgs.ExpandAll | main.c:866-885 | every held argument is replaced by its lazy expansion. It becomes marked expanded when it was marked already or when all its macros resolved. Nothing past the count changes |
| Settings.KvmArgs.Clear | main.c:748-766 | the held arguments become NULL, the count becomes zero, and the rest of the array is untouched |
| Settings.Settings.constructor | main.c:838-846 | the zeroed context with config group "default" and the process id |
| Settings.Settings.ParseParameter | main.c:413-526 | the context's option state and the returned status are exactly those of `Parse` on the old state |
| Settings.Settings.StoreValue | main.c:466-474 | a present value is stored as option `id`'s raw value, expanded against the options stored so far unless it is the kvm arguments (`Stored`), and passed on. An absent value leaves the option state unchanged |
| Settings.Settings.ApplyEffect | main.c:476-523 | the option state and the status are exactly those of `Effect`, and `flags_set` and the raw values are unchanged |
| Settings.Settings.CtxCleanup | main.c:734-769 | all raw values become NULL, so `parameter_get` resolves no name afterwards. The kvm arguments are freed and their count becomes zero |
| Pool.LeastFreeFrom | kvm-pool.c:56-68 | returns the least id in [k, max) that no claimed slot uses, every smaller id in range being used. It returns None exactly when all of them are used |
| Pool.NoFreeIdIffFull | kvm-pool.c:70 | with distinct ids in range, no id is free exactly when the table already holds `vms_max` slots, so the abort guards the slot write |
| Pool.AsWrittenTableTooSmall | kvm-pool.c:166 | sized by a pointer, every slot from index `vms_max / 2` on ends past the allocation |
| Pool.CorrectedSlotFits | kvm-pool.c:166 | sized by `vm_t`, every slot below `vms_max` lies inside the allocation |
| Pool.SparesOverrunAsWritten | kvm-pool.c:163-172 | a start-up with `vms_spare_min` above `vms_max / 2` and every fork succeeding claims slot `vms_max / 2`, which ends past the table as written allocates it |
| Pool.Argv | kvm-pool.c:80-117 | the vector holds three entries more than the template, and starts with `kvm -vnc :<id>` |
| Pool.ArgvShape | kvm-pool.c:80-120 | the vector is `kvm -vnc :<id>` followed by each template argument, verbatim when marked expanded and expanded otherwise |
| Pool.DisplayRoundTrip | kvm-pool.c:83-87 | the `-vnc` argument is ':' followed by digits that read back as the console id |
| Pool.DisplaysDistinct | kvm-pool.c:83-87 | VMs with distinct console ids get distinct `-vnc` arguments |
| Pool.GetArgv | kvm-pool.c:75-125 | the fresh array of MAXARGUMENTS+2 pointers holds exactly that vector followed by NULLs |
| Pool.CopyTemplate | kvm-pool.c:89-118 | the loop writes each template argument, as passed on, at consecutive indices from the running index, and no other entry changes |
| Pool.ArgvEntry | kvm-pool.c:97-117 | an argument marked expanded is copied as is. Any other argument is expanded, without crashing |
| Pool.Pool.constructor | main.c:838 | the zeroed pool with no table and the configured bounds |
| Pool.Pool.NewVncId | kvm-pool.c:52-73 | the nested scan returns the least id below `vms_max` that no claimed slot uses. It returns None, where the abort fires, exactly when the table is full |
| Pool.Pool.RunSpare | kvm-pool.c:128-149 | a full table aborts and changes nothing. Otherwise slot `vms_count` gets the least free id and the pid fork returned, both counters rise by one, and the rest of the table is unchanged. The result is 0, or errno on a failed fork, which keeps the claim. Ids stay distinct and in range |
| Pool.Pool.PrepareSpareVms | kvm-pool.c:151-161 | when it returns 0, the spare count equals the larger of its old value and `vms_spare_min`. It returns the errno of the first failed fork at once, all earlier forks having succeeded. Existing slots are untouched. Each new slot holds its fork's pid, the least console id left free by the slots before it, and zeroed descriptors. Both counters rise together. With enough room and every fork succeeding it returns 0 |
| Pool.Pool.KvmPool | kvm-pool.c:163-172 | on success the table is freed and the spare count equals the larger of its old value and `vms_spare_min`. The number of slots claimed equals the number of spares started. On an error code the table stays allocated, and the code is the errno of the last fork, all earlier forks having succeeded. An abort means a negative `vms_max` or a table filled before the minimum was reached. With room for the minimum and every fork succeeding it returns 0. Every claimed slot lies inside the table |

## Left out

- fork/exec: `fork()` is a parameter. The child path (`execvp` on the vector `getargv` builds) is not modelled, and neither is what the started VM does.
- `getopt_long` itself: `ArgKind` models only how it reads the short-option string. The configuration-file parser (`configs_parse`) is not part of this model; its calls appear only as the `Config` source of `parse_parameter`.
- `strtol` is a parameter of `parse_parameter`: its value and whether the whole string was a number in range.
- `syntax()` and `version()` print and exit. They are modelled as the `Exited` status.
- Logging, debug output and the warnings of `parameter_expand`: nothing observable to the model.
- Allocation failure in `xcalloc`/`xrealloc` (which abort) is not modelled. Neither are the `PARANOID` and `VERYPARANOID` build variants.
- Options.BuildOptString: requires the table to fit the fixed buffer, which the code assumes without a check. The program's own table fits it (Options.LongOptionsReadBack).
- Pool.Pool.KvmPool: requires an empty table, as in the zeroed context `main` allocates (main.c:838). Its caller `kvmpool_start` (main.c:901) is not part of this model.
- Pool.Pool.KvmPool: allocates the corrected table of `vm_t`-sized slots (see Findings), so its slots always lie inside the table.
- Settings.Settings.ParseParameter: `parse_parameter` as written calls `parameter_expand` with its unchecked writes, while the model stores the result of the corrected expander (see Findings).
- Pool.GetArgv: `getargv` as written calls `parameter_expand` with its unchecked writes, while the model passes the result of the corrected expander (see Findings).
- Settings.Stored: `parse_parameter` as written calls `parameter_expand` with its unchecked writes, while the model stores the value of the corrected expander (see Findings).
- Pool.ArgvEntry: `getargv` as written expands each unmarked argument with the unchecked writes, while the model uses the corrected expander (see Findings).
- Settings.KvmArgs.ExpandAll: the expansion pass in `main` as written calls `parameter_expand` with its unchecked writes, while the model uses the corrected expander (see Findings).
- Pool.GetArgv: takes the console id as a natural number. `newvncid` never yields a negative one.
- Pool.Pool.RunSpare: the `memset` of the slot is folded into the slot value. The descriptor fields stay 0.
- Pool.Pool.KvmPool: a negative `vms_max` is modelled as an abort, where `xcalloc` would fail.
- The wording of the E2BIG message of `kvm_arg` is not modelled.
- Only the primary kvm-argument list is modelled: `SHARGS_MAX` is 1.
- `main_rehash`, `ctx_check`, daemonisation, the listener and the connection proxy are not part of this model.
- The `pid_str` cache of `parameter_expand` is not modelled: the pid is rendered afresh, which gives the same text.

## Findings

| source | as written | input that shows it | evidently intended | confidence | as-written member | corrected member |
|---|---|---|---|---|---|---|
| main.c:268-271 | the escaped '%' is written into `ret` with no growth check, while `ret` may still be NULL | an argument starting with "%%", e.g. "%%x" | grow the buffer first, as for an ordinary character, and return "%x" | not executed | Expand.LeadingEscapeWritesNull | Expand.EscapeYieldsPercent |
| main.c:281-288 | the NUL ending an unterminated macro is written into `ret` with no growth check, while `ret` may still be NULL | an argument that is one unterminated macro, e.g. "%abc" | grow the buffer first and return the text before the '%' (here "") | not executed | Expand.BareUnterminatedWritesNull | Expand.UnterminatedEnds |
| main.c:262 | escapes append without a growth check, so they can fill the buffer to its last byte, and the final NUL then lands past the end | "a" followed by 1025 escapes ("%%") | check the room before each escape, so the buffer always has room for the NUL | not executed | Expand.EscapeRunOverflows | Expand.GuardedExpansion |
| kvm-pool.c:166 | the table is allocated as `vms_max` elements of `sizeof(ctx_p->vms)`, the size of a pointer (8 bytes), not of `vm_t` (16 bytes) | `vms_max` = 2 and `vms_spare_min` = 2 with both forks succeeding: slot 1 is claimed and ends at byte 32, past the 16 bytes allocated | allocate `vms_max * sizeof(vm_t)` | not executed | Pool.SparesOverrunAsWritten | Pool.Pool.KvmPool |
