# NetCheck backend: verified models

A Dafny 4.11 model of the stateful and format-handling cores of the NetCheck backend, with proofs of what they keep
over every input and every run. `dafny verify dfyconfig.toml` checks everything.

| file | what it models |
|---|---|
| `AuthTrace.dfy`, `AuthNames.dfy`, `Auth.dfy` | accounts, lockout, login throttle and sessions, against an event log from which nothing is ever pruned, and what user names have to do with its keys |
| `SlidingWindow.dfy`, `RateLimiter.dfy` | the sliding-window list shared by the router's limiter and the login throttle, and the limiter |
| `NetworkTemplate.dfy`, `NetworkChecker.dfy`, `NetworkParser.dfy`, `NetworkValues.dfy`, `NetworkTheorems.dfy`, `NetworkDocument.dfy`, `NetworkRoundTrip.dfy` | the `.network` printer and its checker, the collector's parser, and how the three agree |
| `ArHeader.dfy`, `IntLiterals.dfy`, `DebArchive.dfy` | the `ar` framing of a Debian package, byte for byte |
| `ShardSequence.dfy`, `DiagHistory.dfy` | daily history shards as one bounded queue; deletion and paging |
| `BandwidthSlot.dfy` | the single task slot as interleaved steps of callers and runner threads |
| `JobPruning.dfy`, `JobRegistry.dfy` | the job registry and its pruning |
| `SettingsTree.dfy`, `Settings.dfy` | the settings tree: merge, dotted paths, save and load |
| `AuditRedaction.dfy`, `AuditRotation.dfy`, `Audit.dfy` | redaction, and log rotation as one sequence of records |
| `Rounding.dfy`, `HealthScore.dfy` | half-even rounding, and the weighted score |
| `TrafficCounters.dfy`, `TrafficSampling.dfy` | kernel counters and the poller's rates, and the `/proc/net/dev` sampler |
| `DiagEngine.dfy`, `DiagExecutor.dfy` | the two-stage scheduler, and the same with the threads of its executors in every interleaving |
| `MarkdownBlocks.dfy`, `MarkdownPatterns.dfy` | the block loop of the compliance dossier's Markdown, and its patterns |
| `PythonBasics.dfy` | the Python operations the others use, with their edge cases (slices, splitlines, strip, partition, decimal text) |

Code that updates state step by step is a class or a method with a loop, proved against a specification function;
the theorems are about those functions, over whole runs. Clocks, random tokens and salts, and calls into libraries are
parameters. The clock never runs backwards unless a statement says otherwise. PBKDF2 (section 5.2 of RFC 8018) and
SHA-256 are free constructors, so distinct inputs have distinct digests.

## What the proofs found

Where the code does not do what it is there for, the model keeps the code, and the exact condition is proved.

- Exclusion of the bandwidth slot rests on when a runner reads its token: it holds at every point of a run, and goes on
  holding as long as no later read does harm, if and only if no runner has read, after its own job was freed, a slot
  that held a job nobody had stopped (`BandwidthSlot.ExclusionIff`).
- The token that `server_stop` releases has no `session` field and never equals the holder, so stopping a server session
  never frees the slot. Once a session has started, no task is ever accepted again if and only if no runner is left that
  has yet to read its token or has read the session's slot (`BandwidthSlot.NoTaskAfterAServerIff`).
- Recovery hashes the new password and code with the current iteration count but leaves the stored count alone. An account
  created by this version stores the current count for life (`Auth.CountStaysCurrent`); over any other count a recovery
  closes the account for good, to every password and code (`Auth.RecoveryTakesEffectIff`, `Auth.StaleRecoveryIsFinal`).
- A change of password stores the current count, so the recovery code it leaves in place survives exactly when the
  stored count already was the current one (`Auth.PasswordChangeKeepsRecoveryIff`).
- The checker and the collector's parser disagree on commas and on `;` lines, so the checker's module comment, that
  values never contain separators, does not hold for commas; an accepted text is whitelisted for the parser exactly
  when it smuggles nothing through either (`NetworkTheorems.CheckerSoundnessIff`, `NetworkRoundTrip.CommaSlipsThrough`).
- An empty DNS server first or last in a longer list leaves a blank at the end of the value, which the parser strips:
  `NetworkRoundTrip.RoundTripIff` says for which lists the round trip holds.
- An archive header moves the reader forward exactly when its size is at least -59; at -60 or -61 extraction never ends
  (`DebArchive.AdvancesIff`, `DebArchive.NegativeSizeLoops`). In general it ends exactly when no header is reached twice
  (`DebArchive.TerminatesIff`). A member whose name ends in a blank or a slash can be written, but comes back without it
  (`DebArchive.ArchiveRoundTripIff`).
- Past a 64-bit wrap of a kernel counter the poller reports less than was carried, and only then
  (`TrafficCounters.RatesConserveTrafficIff`).
- The pruning slice of the job registry can have a negative bound, which counts from the end: it then drops
  2f - max + 1 finished jobs instead of none (`JobPruning.PrunedCount`). No bound is broken by it.
- With a clock that went back, a new report survives its own append exactly when fewer than `keep` reports are filed
  under later days (`ShardSequence.AppendedSurvivesIff`).
- A delete removes the id from the whole history exactly when no later shard holds it too
  (`ShardSequence.DeleteRemovesIff`).
- `set("")` writes a member named "" while `get("")` returns the whole tree (`Settings.GetAfterSetIff`).
- Blanking a default object and then giving a smaller one does not survive a restart
  (`SettingsTree.TwoUpdatesMayNotSurvive`); the exact condition for a tree to survive is `SettingsTree.ReloadIff`.

## Model

| member | source | states |
|---|---|---|
| AuthTrace.LockoutBound | lib/netcheck/auth.py:117-209 | In every run, a half-open 300-second window with no successful login or recovery of a key holds at most 5 wrong credentials for it, however login and recovery are mixed. |
| AuthTrace.LockoutInvariant | lib/netcheck/auth.py:163-168 | The invariant behind it: while the clock is inside the window, its failures are still in the counter, or the key is locked to the end of the window. |
| AuthTrace.CounterRange | lib/netcheck/auth.py:163-168 | The failure counter is always 0 to 4. |
| AuthTrace.CounterIsStreak | lib/netcheck/auth.py:163-168 | The counter is the number of wrong credentials since the key's last success, modulo 5. |
| AuthTrace.LockedIff | lib/netcheck/auth.py:127-128 | A key is locked exactly during the 300 seconds from a failure that was the fifth, tenth, ... since its last success. |
| AuthTrace.GuessBudget | lib/netcheck/auth.py:117-209 | Over any number of lockout periods without a success, at most 5 wrong credentials for each. |
| AuthTrace.LockoutBoundIsTight | lib/netcheck/auth.py:163-168 | The bound is reached: a legal run holds exactly 5 failures in one window. |
| AuthTrace.LoginThrottleBound | lib/netcheck/auth.py:185-191 | In every run, any half-open minute holds at most 10 admitted login attempts for a key. |
| AuthTrace.SessionLedger | lib/netcheck/auth.py:211-236 | A token is accepted exactly when some issue of it is less than a day old, from the start of its second, and no later logout or revocation followed. |
| AuthTrace.RevocationIsFinal | lib/netcheck/auth.py:97-103 | After a revocation (password change or recovery) no token is accepted unless issued anew. |
| AuthNames.StreakIsMisses | lib/netcheck/auth.py:126-209 | In every run of calls the streak behind a name's counter is the number of wrong credentials given since it was last right, under every spelling with the same lower-case form, the empty name standing as "?". |
| AuthNames.NameLockedIff | lib/netcheck/auth.py:126-209 | In every run a name is locked exactly for 300 seconds from each wrong credential, by login or recovery, that was the fifth, tenth, ... under any spelling of it since it was last right under any; calls under other names make no difference. |
| AuthNames.SpellingsLockTogether | lib/netcheck/auth.py:126-209 | So names with the same lower-case form are locked together at all times. |
| Auth.RecoveryTakesEffectIff | lib/netcheck/auth.py:141-158 | After a recovery the new password and the new code, and no other, work, if and only if the stored iteration count is the current one. |
| Auth.CountStaysCurrent | lib/netcheck/auth.py:51-161 | In every run of account operations on an account created by this version, the stored count is always the current one. |
| Auth.StaleRecoveryIsFinal | lib/netcheck/auth.py:117-161 | After a recovery over another count, no login, password change, rename or recovery ever succeeds again. |
| Auth.PasswordChangeKeepsRecoveryIff | lib/netcheck/auth.py:90-103 | After a password change the new password alone works; the old recovery code keeps working if and only if the stored count already was the current one. |
| Auth.CountersFailure | lib/netcheck/auth.py:163-168 | Bumping the counter, or locking and resetting it, keeps the in-memory tables equal to the log's reading, for every key. |
| Auth.TimesAttempt | lib/netcheck/auth.py:186-191 | Pruning one key's attempts at one login never changes any key's later throttle decision. |
| Auth.SessionsIssue | lib/netcheck/auth.py:211-219 | Pruning by the truncated clock loses no session that could still be accepted, and the new one is recorded. |
| Auth.SessionsLogout | lib/netcheck/auth.py:230-233 | Removing one digest withdraws that token and no other. |
| Auth.AuthService.Login | lib/netcheck/auth.py:175-209 | Locked, throttled, refused or accepted, in that order, by the lower-cased name: the answer, its remaining seconds or attempts, and the log entries; the invariant is kept. |
| Auth.AuthService.Recover | lib/netcheck/auth.py:117-161 | Each of the seven ways a recovery ends, by the lower-cased name: what it answers, what it logs, and that only the last changes the account and revokes sessions. |
| Auth.AuthService.BumpFailure | lib/netcheck/auth.py:163-168 | One failure more in the log, with the tables kept in step. |
| Auth.AuthService.StoreSession | lib/netcheck/auth.py:211-219 | The token is issued; the pruned file still answers as the ledger does. |
| Auth.AuthService.CheckSession | lib/netcheck/auth.py:221-228 | The answer is the ledger's: live at this time or not. |
| Auth.AuthService.Logout | lib/netcheck/auth.py:230-233 | The token is withdrawn in the log and in the file. |
| Auth.AuthService.RevokeAllSessions | lib/netcheck/auth.py:235-236 | Every token is withdrawn. |
| Auth.AuthService.ChangePassword | lib/netcheck/auth.py:90-103 | Wrong old password, weak new one, or success with all sessions revoked; nothing changes unless it succeeds. |
| Auth.AuthService.ChangeUsername | lib/netcheck/auth.py:105-114 | Only the holder of the password can rename; then the same password logs in under the new name and no other, every secret is as good as before, and sessions and locks are untouched. |
| Auth.AuthService.Setup | lib/netcheck/auth.py:51-75 | At most one account is ever created; its password and code, and no other, match. |
| Auth.AuthService.PasswordRule | lib/netcheck/auth.py:28-31 | An accepted password has at least 8 characters, a letter and a digit, and every such password is accepted. |
| Auth.AuthService.NameRule | lib/netcheck/auth.py:73-75 | An accepted user name is 3 to 32 letters or digits, and every such name is accepted. |
| Auth.AuthService.LockoutRemaining | lib/netcheck/auth.py:170-172 | The whole seconds left of the lower-cased name's lock, never negative. |
| SlidingWindow.PruneLosslessIff | lib/netcheck/router.py:70-75 | Pruning at one call changes what a later call counts exactly when it drops a time the later call still wants. |
| RateLimiter.PrunedListAgreesIff | lib/netcheck/router.py:67-76 | In any run at all, the pruned list gives a later call the same recent times as the full history, and the same count for whatever limit, if and only if every admitted time it still wants was still wanted at each later call of the key. |
| SlidingWindow.WindowBound | lib/netcheck/router.py:67-76 | Times each admitted with fewer than `limit` recent ones put at most `limit` in any half-open window. |
| RateLimiter.PrunedListAgrees | lib/netcheck/router.py:67-76 | With a clock that never goes back and no earlier call of the key with a shorter window, it always does. |
| RateLimiter.DecisionMatchesFullHistory | lib/netcheck/router.py:67-76 | The limiter then answers as if it kept every admitted time; a fixed window is the usual case. |
| RateLimiter.LimiterWindowBound | lib/netcheck/router.py:67-76 | In every run, any half-open window no longer than the key's calls' own holds at most `limit` admitted calls of it. |
| RateLimiter.Limiter.Allow | lib/netcheck/router.py:67-76 | The answer and the new table are those of the run with this call added. |
| NetworkTemplate.RenderNetApply | lib/netcheck/helper/network_template.py:22-42 | The line-by-line printer writes the document of sections and entries that the settings ask for. |
| NetworkTemplate.SyntaxCheck | lib/netcheck/helper/network_template.py:45-70 | The loop finds exactly the errors of the line-by-line specification, with their line numbers. |
| NetworkChecker.AllErrors | lib/netcheck/helper/network_template.py:45-70 | An error is reported exactly for each thing wrong with a line: an unlisted section, a line outside every section, one without '=', a key its section does not list, one of the six forbidden characters behind the '='; with the line's number, and in the order of the lines. |
| NetworkChecker.SectionsListed | lib/netcheck/helper/network_template.py:11-19 | The sections with listed keys are the six listed sections. |
| NetworkTheorems.LineAgrees | lib/netcheck/helper/network_template.py:49-69 | On a line without errors both parsers stay in the same section, and the parser's result stays whitelisted exactly when the line smuggles nothing. |
| NetworkTheorems.CheckerSoundnessIff | lib/netcheck/helper/network_template.py:45-70 | For an accepted text, every section and key the other parser finds is whitelisted exactly when no line smuggles a `;` comment or a token behind a comma. |
| NetworkTheorems.CheckerSound | lib/netcheck/helper/network_template.py:45-70 | So it holds for every accepted text with no comma and no line starting with `;`. |
| NetworkTheorems.WhitelistIsPlain | lib/netcheck/helper/network_template.py:10-18 | Whitelisted names hold no character that either parser treats specially. |
| NetworkRoundTrip.PrintParse | lib/netcheck/helper/network_template.py:27-70 | Any document of whitelisted sections and well-behaved values passes the checker and parses back to what it means. |
| NetworkRoundTrip.RenderRoundTrip | lib/netcheck/helper/network_template.py:22-70 | For clean field values the rendered file has no error and parses to exactly the intended sections and keys. |
| NetworkRoundTrip.RoundTripIff | lib/netcheck/helper/network_template.py:28-42 | For clean fields the parser reads back what was intended if and only if dhcp or reset was asked for, or the DNS list is empty, or one empty server, or has no empty server first or last. |
| NetworkRoundTrip.RenderedNumbers | lib/netcheck/helper/network_template.py:33-41 | The numbers read back from a rendered file: behind the address's last '/' stands the prefix, and MTUBytes is the mtu, in decimal digits. |
| NetworkRoundTrip.RenderInjectiveIff | lib/netcheck/helper/network_template.py:22-42 | Two clean settings are rendered alike, and their files read alike, exactly when they agree in all that is written for their mode: nothing is lost. |
| NetworkRoundTrip.RenderedMode | lib/netcheck/collectors/nic.py:227-241 | The mode derived from a rendered file is "dhcp" for dhcp and reset and "static" for every other mode, with the matching IPv4 detail. |
| NetworkRoundTrip.LastFileDecides | lib/netcheck/collectors/nic.py:244-252 | Whatever earlier files say, a rendered file that comes last and names the interface decides the reported mode. |
| NetworkRoundTrip.CommaSlipsThrough | lib/netcheck/helper/network_template.py:64-69 | Any accepted value followed by a comma and an unlisted name is accepted too, and leaves that name as a key. |
| NetworkParser.ParseNetworkText | lib/netcheck/collectors/nic.py:190-207 | The loop computes the line-by-line reading of the text. |
| NetworkParser.CollectTokens | lib/netcheck/collectors/nic.py:203-206 | Each comma-separated token with a key is appended under it, in order. |
| NetworkParser.ParsedNonEmpty | lib/netcheck/collectors/nic.py:190-207 | Every list the parser builds has a value, so taking element 0 never raises. |
| NetworkValues.ParsedValues | lib/netcheck/collectors/nic.py:190-207 | For every text, the values read for a key of a section are exactly those its tokens give it, in order, wherever the section is opened again; none is lost. |
| NetworkParser.DerivedMeans | lib/netcheck/collectors/nic.py:227-241 | For every [Network] section, exactly when each mode and each detail is reported, in terms of the values read, and what is echoed. |
| NetworkParser.DhcpWords | lib/netcheck/collectors/nic.py:228-233 | "yes" and "true" act alike, as "ipv4" for version 4 and as "ipv6" for version 6; case does not matter, and any other word acts as no DHCP line. |
| NetworkParser.MatchesIff | lib/netcheck/collectors/nic.py:210-217 | A file counts for an interface exactly when each of its Name, MACAddress and Type lists is empty or has a line that fits; a MAC address fits in any case, and never an unknown one. |
| NetworkParser.MergedIff | lib/netcheck/collectors/nic.py:244-251 | A key is in force exactly when some file that counts has it, with the values of the last such file. |
| NetworkParser.CollectMode | lib/netcheck/collectors/nic.py:227-252 | The mode and details are those that the keys in force ask for, and deriving them never raises. |
| ArHeader.MemberLayout | tools/build_deb.py:626-635 | A written member byte for byte: the fixed header fields at their places, the data, and a newline behind an odd length. |
| IntLiterals.ParsesIff | tools/build_deb.py:680-680 | A size field is read as a number exactly when it is white space around an optional sign and digit groups joined by single underscores, and then as that number. |
| ArHeader.MemberWritableIff | tools/build_deb.py:626-635 | A member is written exactly when its name is ASCII with at most 15 characters and its size is below 10^10. |
| DebArchive.WrittenReads | tools/build_deb.py:626-684 | Every member that can be written is read back wherever it stands, with its data and padded end, under its bare name: the name without trailing blanks and then without trailing slashes. |
| DebArchive.ArchiveExtracts | tools/build_deb.py:638-685 | Extracting any archive of writable members ends, without an error, and collects them in order under their bare names. |
| DebArchive.ArchiveRoundTripIff | tools/build_deb.py:638-685 | For writable members extraction gives the same members in the same order if and only if no name ends in a blank or a slash and none is repeated. |
| DebArchive.HeadersAtEvenOffsets | tools/build_deb.py:626-635 | In every archive of writable members each header starts at an even offset, where the member before and its padding end. |
| DebArchive.AdvancesIff | tools/build_deb.py:676-684 | A header moves the offset forward exactly when its size is at least -59. |
| DebArchive.PlainSizesTerminate | tools/build_deb.py:676-684 | Extraction ends on every input whose size fields, as the loop reaches them, are plain digits. |
| DebArchive.ArchiveSizesPlain | tools/build_deb.py:626-685 | Every archive of writable members meets that condition. |
| DebArchive.SizesTerminate | tools/build_deb.py:676-684 | Extraction ends on every input whose sizes, as they are reached, are at least -59. |
| DebArchive.TerminatesIff | tools/build_deb.py:676-684 | Extraction ends exactly when no header is reached twice, and exactly when it ends within twice as many turns as the input has bytes. |
| DebArchive.NegativeSizeLoops | tools/build_deb.py:676-684 | A size of -60 or -61 brings the loop back to the same offset: no number of turns ends it. |
| DebArchive.SomeInputLoops | tools/build_deb.py:676-684 | Such an input exists: the magic and one header. |
| DebArchive.ExtractArMembers | tools/build_deb.py:670-685 | Whenever it ends, the loop returns the members, or the error, of the specification. |
| DebArchive.ReadsIff | tools/build_deb.py:676-680 | A header is read exactly when its 60 bytes are there, the 59th is a backtick, name and size are ASCII and the size a number; otherwise the first of these that fails is the error. |
| DebArchive.ReadsData | tools/build_deb.py:681-682 | A member's data is what follows its header, as many bytes as its size says or as there are. |
| DebArchive.ExtractsIff | tools/build_deb.py:670-685 | An input without the magic line is refused as no archive; any other is extracted exactly when every header come to can be read. |
| DebArchive.WritePythonDeb | tools/build_deb.py:638-653 | It fails exactly when a tarball is too long for its size field; otherwise the package extracts to debian-binary with "2.0", control.tar.gz and data.tar.gz, in this order. |
| ShardSequence.AppendIsBoundedQueue | lib/netcheck/diag/history.py:23-30 | While the clock does not go back, the shards after an append hold the newest `keep` of the old sequence and the report, which survives. |
| ShardSequence.RunIsBoundedQueue | lib/netcheck/diag/history.py:23-79 | Over every such run the shards hold exactly the newest `keep` reports ever appended, in order. |
| ShardSequence.MixedRunIsBoundedQueue | lib/netcheck/diag/history.py:23-79 | Over every run of appends, deletes and clears, with a clock that never goes back and no job id appended twice, the shards hold what the same operations leave in one bounded queue. |
| ShardSequence.AppendedSurvivesIff | lib/netcheck/diag/history.py:23-79 | Whatever the clock did, the report survives its own append exactly when newer shards hold fewer than `keep`. |
| ShardSequence.DeleteRemovesIff | lib/netcheck/diag/history.py:32-46 | A delete removes the id from the whole sequence exactly when no later shard holds it too. |
| ShardSequence.DeleteWithDistinctIds | lib/netcheck/diag/history.py:32-46 | With distinct ids it always does, and the id is gone. |
| ShardSequence.PagesConcatenate | lib/netcheck/diag/history.py:99-111 | Pages 1 to n laid end to end are the first n times page-size items, with no gap or overlap. |
| ShardSequence.NoPageBeforeFirst | lib/netcheck/diag/history.py:103-104 | A page number below 1 gives the first page. |
| ShardSequence.PruneStep | lib/netcheck/diag/history.py:70-79 | Cutting the oldest shard drops that many reports from the front and leaves no empty file. |
| DiagHistory.History.DropOldest | lib/netcheck/diag/history.py:69-79 | The loop drops exactly `excess` reports, oldest first, keeps file order, and leaves no empty shard. |
| DiagHistory.History.Prune | lib/netcheck/diag/history.py:63-79 | What is stored becomes its newest `keep`. |
| DiagHistory.History.Append | lib/netcheck/diag/history.py:23-30 | The report is added to its day's shard and the whole is pruned to `keep`. |
| DiagHistory.History.Delete | lib/netcheck/diag/history.py:32-46 | True exactly when the id is not empty and a report has it; then the first shard holding it is rewritten without it, or removed. |
| DiagHistory.History.Clear | lib/netcheck/diag/history.py:48-55 | Nothing is left, and the count returned is what was there. |
| DiagHistory.History.List | lib/netcheck/diag/history.py:99-111 | The total and the page of the newest-first sequence, each report whole, or its job id and exactly five members with its own values, null where it has none. |
| DiagHistory.History.Get | lib/netcheck/diag/history.py:113-118 | None exactly when no report has the id; otherwise one that has it. |
| BandwidthSlot.SlotInvAlways | lib/netcheck/bandwidth/service.py:42-155 | In every run, at every point, the slot and the history agree: a job holds the slot from acceptance until freed, and never again. |
| BandwidthSlot.TokenIsOwnIff | lib/netcheck/bandwidth/service.py:199-199 | A runner reads its own job's token exactly when its job has not been freed yet. |
| BandwidthSlot.OwnInvAlways | lib/netcheck/bandwidth/service.py:198-240 | In every run without a harmful read, a freed job was stopped or its runner has ended, and a runner's token is its own, nobody's, a session's or a stopped job's. |
| BandwidthSlot.Exclusion | lib/netcheck/bandwidth/service.py:42-52 | In every run without a harmful read, at most one job is running and not stopped, it holds the slot, and no start is accepted meanwhile. |
| BandwidthSlot.ExclusionIff | lib/netcheck/bandwidth/service.py:198-240 | In every run, exclusion holds at every point and in every continuation without harmful reads, if and only if no read so far did harm: the reader's job freed, and an unstopped job in the slot. |
| BandwidthSlot.HarmDone | lib/netcheck/bandwidth/service.py:199-240 | After any harmful read, its runner's end and one more start leave two running jobs that nobody stopped. |
| BandwidthSlot.OnlyTheHolderFrees | lib/netcheck/bandwidth/service.py:49-52 | In every run the slot changes hands only through being empty, and only the holder's own stop, runner or failed start empties it, or a runner that read it late. |
| BandwidthSlot.LateStopIsHarmless | lib/netcheck/bandwidth/service.py:143-155 | A stop that read a job freed since leaves the slot as it is. |
| BandwidthSlot.StartIff | lib/netcheck/bandwidth/service.py:118-136 | A start is possible for the four task modes; it takes an empty slot and spawns its runner, and changes nothing when the slot is taken. |
| BandwidthSlot.StopTokenDiffers | lib/netcheck/bandwidth/service.py:60-95 | The token server_stop releases differs from the session's holder in the session alone, and so is never equal to it. |
| BandwidthSlot.EmptyWhenAllEnded | lib/netcheck/bandwidth/service.py:237-240 | In every run, once every runner has ended the slot is empty, unless a session holds it that is being started or whose start has succeeded. |
| BandwidthSlot.LateReadBreaksExclusion | lib/netcheck/bandwidth/service.py:199-240 | A run with a harmful read exists, after which exclusion can be lost. |
| BandwidthSlot.StartingIff | lib/netcheck/bandwidth/service.py:62-72 | In every run a session is being started exactly from its accepted acquire to the success or failure of its own start. |
| BandwidthSlot.StartingHolds | lib/netcheck/bandwidth/service.py:62-71 | In every run a server session being started holds the slot, unless a runner that read the session's slot has ended. |
| BandwidthSlot.FailedStartFrees | lib/netcheck/bandwidth/service.py:62-71 | In every run a failed start gives its slot back: another holder keeps it, and unless a runner that read the session's slot has ended, the next start is accepted. |
| BandwidthSlot.ServerIsLastStarted | lib/netcheck/bandwidth/service.py:72-102 | In every run server_stop finds the session started last unless a stop came after it, and leaves the slot alone. |
| BandwidthSlot.ServerKeepsSlotIff | lib/netcheck/bandwidth/service.py:89-102 | In every run a started session keeps the slot, whatever is stopped, exactly until a runner that read the session's slot ends. |
| BandwidthSlot.NoTaskAfterAServerIff | lib/netcheck/bandwidth/service.py:55-102 | Once a session has started, no continuation ever accepts a task, if and only if no runner has yet to read its token or has read the session's slot. |
| BandwidthSlot.ServerAlone | lib/netcheck/bandwidth/service.py:55-102 | A run in which the session is there for good. |
| BandwidthSlot.ServerFreedLate | lib/netcheck/bandwidth/service.py:55-240 | A run in which a stopped job's late runner can still free it. |
| JobPruning.PrunedCount | lib/netcheck/jobs.py:43-46 | How many jobs the slice removes, for every limit, with the negative bound read as Python reads it; they are the oldest finished ones. |
| JobPruning.DropTakesOldest | lib/netcheck/jobs.py:44-46 | Dropping takes the oldest finished jobs and no running one. |
| JobPruning.CreateBounds | lib/netcheck/jobs.py:39-49 | Right after a create at most max-1 finished jobs are tracked, the newest ones, so the registry holds at most that many plus the running ones. |
| JobPruning.RunningIsNeverPruned | lib/netcheck/jobs.py:39-84 | In every interleaving a job that has neither ended nor been stopped is still tracked as running. |
| JobPruning.RegistryBounded | lib/netcheck/jobs.py:39-65 | In every interleaving the registry is within that bound after each create. |
| JobPruning.StateTells | lib/netcheck/jobs.py:51-84 | In every interleaving a tracked job reads as stopped or failed exactly as the last stop or failure since its creation says, as done when its runner returned and neither came, and as running when nothing happened. |
| JobRegistry.JobManager.Create | lib/netcheck/jobs.py:39-49 | Popping the slice's jobs one by one removes exactly the oldest finished ones, and the new job comes last. |
| JobRegistry.JobManager.Get | lib/netcheck/jobs.py:67-69 | The tracked job with the id, or none when there is none. |
| JobRegistry.JobManager.Stop | lib/netcheck/jobs.py:71-84 | True exactly when the job is tracked and running; only then does anything change, and then that job alone, which reads as stopped. |
| SettingsTree.ReloadIff | lib/netcheck/config.py:71-99 | Saving and loading gives the same tree back exactly when it covers the defaults, level by level. |
| SettingsTree.MergeIdempotent | lib/netcheck/config.py:71-79 | Merging over the defaults a second time changes nothing, whatever was in the file. |
| SettingsTree.OverrideWins | lib/netcheck/config.py:71-79 | Every non-object value in the override is what the merged tree holds at that path. |
| SettingsTree.UnmentionedKept | lib/netcheck/config.py:71-79 | Every path the override neither holds nor cuts off reads as in the base. |
| SettingsTree.OverlaidIff | lib/netcheck/config.py:71-79 | The merge is the one tree in which, path by path, what the override sets wins, its objects are objects, and what it does not mention reads as in the base. |
| SettingsTree.SettingsSurviveRestart | lib/netcheck/config.py:91-124 | From a file that keeps the defaults' objects as objects, after any run of updates and sets that keep them too, save then load gives back the same tree. |
| SettingsTree.TwoUpdatesMayNotSurvive | lib/netcheck/config.py:121-124 | For every non-empty default object, two updates that lose some of it at the next load. |
| SettingsTree.GetAfterSet | lib/netcheck/config.py:101-119 | After a set, its path and everything below it reads from the value set. |
| SettingsTree.SetLeavesOthers | lib/netcheck/config.py:112-119 | Every path neither above nor below the one set reads as before. |
| SettingsTree.PathSetIff | lib/netcheck/config.py:112-119 | Where set does not raise, its result is the one tree with the value at the path and every path neither above nor below reading as before. |
| SettingsTree.SetRaisesIff | lib/netcheck/config.py:116-118 | set raises exactly when a proper prefix of its path holds something that is not an object. |
| SettingsTree.SetKeeps | lib/netcheck/config.py:112-119 | A set keeps the tree able to survive a restart unless it puts less where the defaults have an object. |
| Settings.Config.Load | lib/netcheck/config.py:91-99 | The file laid over the defaults, path by path; every default is covered, and loading what would be saved changes nothing. |
| Settings.Config.Get | lib/netcheck/config.py:101-110 | The walk finds the value at the dotted path, the default where there is none, the whole tree for an empty key. |
| Settings.Config.Set | lib/netcheck/config.py:112-119 | It raises exactly when the path runs through a non-object, changing nothing; otherwise the value stands at the path, all unrelated paths read as before, and that is saved. |
| Settings.Config.Update | lib/netcheck/config.py:121-124 | The partial tree laid over the settings, path by path, and saved. |
| Settings.GetAfterSetIff | lib/netcheck/config.py:101-119 | get(key) after set(key, v) gives v exactly for the non-empty keys. |
| AuditRedaction.RedactRevealsIff | lib/netcheck/audit.py:13-19 | Two details are written alike if and only if they differ at most in the values of forbidden keys, at any depth. |
| AuditRedaction.RedactIdempotent | lib/netcheck/audit.py:13-19 | Redacting twice changes nothing more. |
| AuditRedaction.RedactMember | lib/netcheck/audit.py:9-19 | Of an object the same names are written, the nine forbidden ones blanked whatever their case and the others redacted in turn. |
| AuditRotation.RecordLosesOnlyTheOldest | lib/netcheck/audit.py:46-60 | A record call keeps everything stored, in order, with the new record behind it, but for the one backup a rotation overwrites. |
| AuditRotation.StoredIsSuffix | lib/netcheck/audit.py:31-60 | In every run from an empty directory the files, oldest first, are a suffix of all records ever written. |
| AuditRotation.BackupSizes | lib/netcheck/audit.py:50-60 | In every run each backup's size is at least the limit and below the limit plus its last record. |
| Audit.OperationAudit.RotateIfNeeded | lib/netcheck/audit.py:50-60 | The renaming loop moves every backup one place up, drops only the one past the end, and leaves the numbers without a gap from 1. |
| Audit.OperationAudit.Write | lib/netcheck/audit.py:46-48 | Rotate when needed, then append one record. |
| Rounding.RoundNear | lib/netcheck/diag/report.py:58-58 | Rounding is to nearest, and to even on a tie. |
| Rounding.RoundMonotone | lib/netcheck/diag/report.py:58-58 | It never reverses the order of two fractions. |
| HealthScore.ScoreRange | lib/netcheck/diag/report.py:51-58 | The score is always between 0 and 100. |
| HealthScore.UniformScore | lib/netcheck/diag/report.py:51-58 | All applicable checks failing, warning or passing score exactly 0, 70 or 100, whatever their weights. |
| HealthScore.ScoreOrder | lib/netcheck/diag/report.py:51-58 | A smaller average penalty never scores lower. |
| HealthScore.ScoreIgnoresOrder | lib/netcheck/diag/report.py:51-58 | Permuting the results changes nothing. |
| HealthScore.ImprovementNeverLowers | lib/netcheck/diag/report.py:51-58 | Improving one status never lowers the score. |
| HealthScore.BecomingNotApplicable | lib/netcheck/diag/report.py:51-58 | Taking out a check whose penalty is at or above the average never lowers the score; taking out one at or below it never raises the score, as long as some check is still applicable. |
| HealthScore.FailOrPassBecomingNotApplicable | lib/netcheck/diag/report.py:51-58 | A failing check becoming na never lowers the score, a passing one never raises it. |
| HealthScore.NoFailNoFault | lib/netcheck/diag/report.py:51-62 | Without a failing check the level is never "fault". |
| HealthScore.LevelIff | lib/netcheck/diag/report.py:51-62 | The level from the two weighted sums alone: a fault exactly above an average penalty of 3.05, healthy exactly up to 1.05, of 10. |
| HealthScore.PerfectScore | lib/netcheck/diag/report.py:51-58 | With nothing against any check, or no applicable check, the score is 100. |
| TrafficCounters.MapBounded | bpfcollector/_bpf/traffic.bpf.c:29-56 | In every run the map holds at most 512 entries and evicts no admitted interface. |
| TrafficCounters.CounterIsCarried | bpfcollector/_bpf/traffic.bpf.c:43-66 | In every run an admitted interface's counter is its starting value plus exactly the bytes its packets carried in that direction, modulo 2^64. |
| TrafficCounters.AdmittedFromTheStart | bpfcollector/_bpf/traffic.bpf.c:37-66 | An interface not yet in the map is admitted with its first packet or, when the map is full by then, never; its counter is all it has carried, modulo 2^64. |
| TrafficCounters.TrafficMap.CountPacket | bpfcollector/_bpf/traffic.bpf.c:37-68 | The map keeps its entries and its bound of 512; only the packet's interface may be added or changed, by one packet and its length in one direction, within 64 bits. |
| TrafficCounters.CountedIff | bpfcollector/_bpf/traffic.bpf.c:37-68 | Those rules leave exactly one result for each packet, the one that the runs are about. |
| TrafficCounters.Collector.Poll | bpfcollector/internal/collector/collector.go:79-112 | The rates, the remembered counters and the time after a poll. |
| TrafficCounters.IntervalConservedIff | bpfcollector/internal/collector/collector.go:97-145 | One poll's rate times its elapsed time never exceeds eight times the bytes its interval carried, and equals it if and only if the counter did not wrap in between. |
| TrafficCounters.RatesConserveTrafficIff | bpfcollector/internal/collector/collector.go:79-145 | Over every run, from packets to rates: rate times elapsed time never adds up to more than eight times the bytes carried between the first and the last poll, and adds up to exactly that if and only if the counter never wrapped. |
| TrafficSampling.TrafficSampler.Tick | lib/netcheck/bandwidth/traffic.py:58-73 | Every interface read gets its new entry; one no longer read keeps its last. |
| TrafficSampling.TickedSamples | lib/netcheck/bandwidth/traffic.py:58-73 | After a tick every interface read has its bytes and rates that are never negative: the growth over the time, and zero for a new interface or a counter that went back; the others keep theirs. |
| TrafficSampling.SamplesConserveBytes | lib/netcheck/bandwidth/traffic.py:58-73 | In either direction rate times elapsed time adds up to the bytes between the first and the last tick. |
| DiagEngine.ExactlyOneResult | lib/netcheck/diag/engine.py:149-178 | The results hold exactly one for each checker of groups A to I, and none besides. |
| DiagEngine.ResultsOfBoth | lib/netcheck/diag/engine.py:152-158 | Going group by group and stage by stage misses no checker and repeats none. |
| DiagEngine.RunDiag | lib/netcheck/diag/engine.py:141-178 | For any registry, na decisions and set of futures done in time, the results are the expected ones of all the checkers in groups A to I. |
| DiagEngine.RunStage | lib/netcheck/diag/engine.py:153-177 | One stage adds one result for each checker of its groups. |
| DiagEngine.Collect | lib/netcheck/diag/engine.py:167-177 | Waiting reports each future once, as evaluated or as timed out. |
| DiagExecutor.NoProbeBeforeLocalChecks | lib/netcheck/diag/engine.py:152-177 | In every interleaving, when a D to I checker starts, every applicable A to C checker has been submitted and has finished or been cancelled. |
| DiagExecutor.RunResults | lib/netcheck/diag/engine.py:141-178 | In every run that has returned, the results are, up to order, the one expected result of every checker in groups A to I, evaluated exactly when its task had finished by the time wait() returned. |
| DiagExecutor.EvaluatedIff | lib/netcheck/diag/engine.py:169-172 | A checker counts as evaluated exactly when its task had finished at a return of wait() that was waiting for it. |
| DiagExecutor.LateFinish | lib/netcheck/diag/engine.py:173-177 | A task that finishes after its deadline already has its one result, timed out, and changes nothing. |
| DiagExecutor.TimedOutInQueue | lib/netcheck/diag/engine.py:173-177 | A task reported as timed out before it started never runs; one that has started runs on. |
| DiagExecutor.WaitsForSomething | lib/netcheck/diag/engine.py:167-168 | The caller waits only while some future is pending. |
| DiagExecutor.InvAlways | lib/netcheck/diag/engine.py:152-177 | In every run each checker gone through is in exactly one place: reported, waited for, or waiting to be reported as evaluated. |
| DiagExecutor.AtMostFour | lib/netcheck/diag/engine.py:153-153 | At most four tasks are ever running. |
| DiagExecutor.NothingLeftRunning | lib/netcheck/diag/engine.py:153-178 | When the caller is back, no task is queued or running. |
| DiagExecutor.NeverStuck | lib/netcheck/diag/engine.py:152-178 | Until the caller is back, some step can be taken. |
| DiagExecutor.RunsAreBounded | lib/netcheck/diag/engine.py:152-178 | Every run is finite, with at most six steps a checker and ten more; so the caller always comes back once started tasks end. |
| MarkdownBlocks.RenderBlocks | tools/build_compliance.py:144-248 | The loop ends on every list of lines and cuts it into blocks that take each line exactly once, in order, each by its branch's rule. |
| MarkdownBlocks.BlocksUnique | tools/build_compliance.py:156-247 | There is only one such way to cut the lines. |
| MarkdownBlocks.Branch | tools/build_compliance.py:160-242 | The branch that takes a line makes progress and stops where its rule says. |
| MarkdownBlocks.ListEnd | tools/build_compliance.py:225-238 | The list branch takes at least its opening line, and all its items and wrapped lines. |
| MarkdownBlocks.ListOpensWithItem | tools/build_compliance.py:220-231 | A line that opens a list is an item of it, which is why the branch cannot stop at once. |
| MarkdownBlocks.ContinuesIff | tools/build_compliance.py:135-236 | A list stops exactly at a blank line or at one that is no item of its kind and opens a fence, rule, heading or quote, starts with '|' or is an item of the other kind. |
| MarkdownPatterns.PatternsIff | tools/build_compliance.py:135-221 | Each pattern of the loop matches exactly the lines its regular expression describes. |
| PythonBasics.SlicePositions | lib/netcheck/jobs.py:45-45 | A slice as Python reads it: the elements at the positions from the one bound up to the other, negative bounds counted from the end, as far as there are any. |
| PythonText.FirstLine | lib/netcheck/collectors/nic.py:192-192 | splitlines() ends a line at the first break, and CR LF is one break. |
| PythonText.WhiteSpaceCodes | lib/netcheck/helper/network_template.py:49-50 | The code points splitlines() breaks at and strip() removes. |
| PythonText.Parts | lib/netcheck/helper/network_template.py:64-64 | The three parts of partition(): before the first separator, the separator, and behind it; all of it and nothing when there is none. |
| PythonText.LowerLetter | lib/netcheck/collectors/nic.py:228-228 | Lower-casing changes the letters A to Z alone, each to its small letter. |

## Left out

- HTTP and socket servers, subprocess probes, eBPF loading, release tools, user interface and translations: I/O.
- Files are in-memory values replaced atomically, and JSON encoding is the identity: no crash, no corrupt or foreign file. A settings file whose top level is not an object, which raises on load, is not modelled; nor is a history file holding an empty list.
- Restart of the account service: the counters start empty, and so does the session file.
- PBKDF2 and SHA-256 themselves, and the randomness of tokens, salts, codes and ids: constructors and parameters.
- Which characters are letters, digits or letters-or-digits, and lower-casing of user names, are parameters of the account service, and lower-casing of keys one of the redaction; `Lower` elsewhere folds ASCII only, and `\d` in the Markdown patterns is an ASCII digit.
- `fnmatch` and the address library's version test are parameters of the mode collector; the default link type "ether" is filled in by the caller.
- The history directory is a list of files in name order, and a day number stands for the date in a name.
- `server_stop` is one step, which makes no difference to the slot; in the job registry a runner's last check and write are one step. Progress, results and the last-done record are not modelled.
- The unlocked read-modify-write of `logout` and lost increments on several processors: atomic steps.
- `set` in the settings walks and creates nested dicts in place; the model rebuilds the tree along the path, so aliasing of subtrees is not captured.
- The order of keys in parsed sections and settings: finite maps.
- Floating-point rounding: exact reals, and weights in hundredths, any positive ones; the weight table itself is not checked.
- `build_report`'s grouping, issues and event log: they would add only easy members.
- What a checker does, and the text of its result: results are compared by id, group and kind, up to order. `wait()` may return at any moment, as a deadline can fall at any moment.
- The HTML the Markdown branches write, and `inline`; the split of the text into lines.
- `make_tar_bytes` and gzip: the tarballs are given as bytes.
- iperf3 log parsing, snapshot pruning and the command-output parsers: not modelled.
- BandwidthSlot.ExclusionIff: exclusion among jobs; what a late read does to a server session is `BandwidthSlot.ServerKeepsSlotIff`.
- AuditRotation.BackupSizes: for a positive limit; at or below zero every record call rotates.
- MarkdownBlocks.RenderBlocks: an unclosed fence at the end of the text stops at the last line, where the original's index goes one past it.
