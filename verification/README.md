# AgentScope: verified model

AgentScope captures kernel events with eBPF probes, carries them over a ring buffer as fixed-size JSON records,
decodes and widens them in userspace, and runs every event through a rate limiter, two capped rings, a process
table and a policy evaluation. This project models that path in Dafny and proves properties of it.
`dafny verify dfyconfig.toml` checks everything.

## The parts

* **Calendar and timestamps** (`Calendar`, `Timestamp`, `Numerals`, `Arithmetic`): the civil-from-days arithmetic is proved
  against a Gregorian calendar that only knows month lengths and leap years, for every integer day number.
  `CivilFromDaysCorrect`, `DaysOfValidDateRoundTrip` and `NextDayNumberIsNextDay` together say it is the calendar.
  Printed timestamps read back and sort like the instants they stand for.
* **Wire** (`Json`, `Probe`, `Collector`, `RoundTrip`, `RecordSize`, `Decoding`): the record writer is a class over an array with
  a write position; every writing method succeeds exactly when its whole text fits. What it renders is one JSON object
  (sections 4, 6 and 7 of RFC 8259), a reference reader gives the fields back, and decoding a submitted slot gives
  exactly the event the capture stands for. A byte is modelled as the character with the same code; the payload is
  proved to be printable ASCII, where that view and UTF-8 agree. Objects the probe does not write are refused exactly
  where a field is repeated, missing or of another type.
* **Policy** (`Glob`, `GlobLaws`, `GlobJs`, `Paths`, `Bits`, `Positional`, `Network`, `Addresses`, `CidrRules`, `HostRules`,
  `Rules`): the backtracking matcher decides a language defined without search, the JavaScript copy computes the same
  predicate with its index loops, and path normalisation is characterised by the characters of the path. The texts that
  are addresses and prefix lengths are described exactly, so that a written CIDR rule says which leading bits of which
  digits must agree (section 3.1 of RFC 4632); exact addresses and host names are decided against the addresses the
  probe prints.
* **Ingest** (`TokenBucket`, `Clock`, `History`, `AppState`, `Paging`): the token bucket in exact arithmetic, the
  compare-and-swap clock as a step relation over threads, and the serial state as a class whose fields are, after
  every call, a function of the whole input history.
* **Overlapping ingests** (`Concurrent`, `SerialRun`, `Races`): reading the clock and the rules, taking the bucket, counting, numbering
  and pushing are separate steps of any number of threads; conservation holds in every state of every interleaving, what
  a cursor client misses is decided exactly, and so is when the bucket sees the clock go back. Every serial history is a
  run of this system.
* **Process forest** (`CallTree`, `ForestBuilder`, `ForestOfTable`, `ProcessTree`, `TreeCoverage`, `Sorting`): the builder
  with its maps, its memo and its loops ends exactly when no chain of its calls repeats a process, and then returns a
  forest defined without them. With different ids it always ends; which processes it then shows is decided exactly.
* **End to end** (`EndToEnd`): verdicts of the policy on what crossed the wire.

The balance of the bucket is counted in token-nanoseconds. Clock readings, captured bytes, the reservation of a ring
slot and the room in the event channel are parameters. Map iteration picks keys in an arbitrary order.

## Where the code and its documentation differ

* `asg-common/src/events.rs:126-129` says that globs and host rules cannot match the empty path and the empty address
  that stand for unread evidence. They can: `**`, `*` and similar patterns do (`Rules.EmptyEvidenceCanFire`).
  `Rules.EmptyEvidenceIsInertExactly` gives the exact condition on the rule set.
* `asg-common/src/policy_types.rs:22-26` lets host rules be exact addresses. They are compared as text: against a
  captured IPv4 connection that is the address (`HostRules.ExactAddressAgainstV4`), but an IPv6 rule only works where it
  is written in the eight-group form the probe prints (`HostRules.ExactAddressAgainstV6` is exact); the rule `::1` misses
  the connection to the loopback address (`HostRules.CompressedAddressIsMissed`). A host name with a letter beyond
  `f` holds of no captured connection at all (`EndToEnd.NamesHoldOfNoCapture`).
* `asg-api/src/lib.rs:307-312` says that feeding back the last number walks the whole ring. With every page size this
  holds exactly for rings in ascending order (`Paging.WalkVisitsAllExactly`; `Paging.WalkAtLimitExactly` for one page
  size); serial ingests keep that order, and overlapping ones break it exactly when one overtakes another
  (`Races.RacedRingWalksExactly`). `Races.RacedRingLosesAndRepeats` is a run after which a client loses one event with
  page size 1 and gets one twice with the default. With ingests between the pages a number is missed only where
  it was evicted, in flight or overtaken when a page was read (`Races.RacedPagingMissesOnly`).
* `asg-api/src/lib.rs:528-533` promises strictly growing emissions; at the largest 64-bit value the same value is
  handed out again (`Clock.EmissionsStrictlyIncrease` has both cases, `Clock.MaximumIsRepeated` a run).
* Items 4 and 5 of the contract at `asg-policy/src/rules.rs:199-206` disagree on `C:\Foo`: item 4 folds the case of every
  path with a drive prefix, item 5 exempts this one. The code follows item 5 and asks for one more separator after the
  drive root (`Paths.DrivePathFoldedExactly`; `Paths.DriveRootFileKeepsCase`). `Paths.CaseIgnoredExactly` says of every
  path whether its case matters.
* Normalising a path twice is not always the same as once (`Paths.NestedVerbatimPrefix`);
  `Paths.IdempotentExactly` says when it is.
* The bound of the bucket, burst plus rate times elapsed time, presumes a clock that does not go back: it holds of all
  runs over a clock exactly when that clock never does (`TokenBucket.BoundHoldsExactly`), and a clock that steps back and
  forth earns the same second twice (`TokenBucket.RegressingClockBreaksTheBound`). Overlapping ingests get there on a
  steady clock, because `asg-api/src/lib.rs:436-454` reads it before it takes the bucket
  (`Concurrent.HeldUpIngestBreaksTheBound` is a run; `Concurrent.RegressionMeansOvertaking` and
  `Concurrent.OrderedIngestsKeepTheBound` say what it takes). `TokenBucket.AcceptedExactly` needs no such assumption.
* Processes whose ancestors form a cycle of two or more are silently absent from the forest
  (`TreeCoverage.MissingExactlyOnCycles`); two execs that name each other as parent leave it empty
  (`EndToEnd.MutualParentsEmptyTheForest`).
* `build_process_forest` is public and takes any records, but with repeated ids its recursion need not end
  (`ForestBuilder.RepeatedIdNeverEnds`). `ForestBuilder.TerminatesExactly` says on which records it does, and the
  model covers all of them; the process table, its only caller, holds different ids.

## Model

| member | source | states |
|---|---|---|
| Calendar.CivilFromDaysCorrect | asg-common/src/timeutil.rs:24-35 | for every day number the result is a valid Gregorian date, and counting the days up to that date gives the number back |
| Calendar.DaysOfValidDateRoundTrip | asg-common/src/timeutil.rs:24-35 | every valid date is the result for its own day count, so the function is a bijection |
| Calendar.NextDayNumberIsNextDay | asg-common/src/timeutil.rs:23-35 | day 0 is 1970-01-01 and the next day number gives the next calendar day across months, leap years and eras |
| Calendar.CivilFromDaysIsMonotone | asg-common/src/timeutil.rs:24-35 | day numbers and dates are ordered alike |
| Calendar.YearOfEraBounds | asg-common/src/timeutil.rs:28-30 | each day of a 400-year era falls within the March-based year the nested divisions name, the 366th day only in leap years |
| Timestamp.PrintedYears | asg-common/src/timeutil.rs:7-11 | every 64-bit nanosecond value lies between 1970 and 2554, so the year has four digits |
| Timestamp.PrintedTimestampReadsBack | asg-common/src/timeutil.rs:7-21 | the printed text has 20 characters and reads back, as section 5.6 of RFC 3339 says, to the whole seconds |
| Timestamp.PrintedOrderIsTimeOrder | asg-common/src/timeutil.rs:7-21 | comparing printed timestamps as strings is comparing the seconds |
| Json.StringReadsBack | bpf/asg-ebpf/src/main.rs:294-310 | any byte string survives escaping and reading, whatever follows it |
| Json.ObjectReadsBack | bpf/asg-ebpf/src/main.rs:149-249 | reading undoes printing for every list of fields |
| Probe.RecordWriter.WriteByte | bpf/asg-ebpf/src/main.rs:285-292 | appends the byte exactly when there is room and leaves the rest of the slot zero |
| Probe.RecordWriter.WriteStr | bpf/asg-ebpf/src/main.rs:314-322 | appends all of the text exactly when it fits, otherwise nothing |
| Probe.RecordWriter.WriteJsonString | bpf/asg-ebpf/src/main.rs:294-310 | succeeds exactly when the whole escaped string fits and has then appended it |
| Probe.RecordWriter.WriteFmt | bpf/asg-ebpf/src/main.rs:152-157 | the pieces of one formatted write succeed exactly when their sum fits |
| Probe.RecordWriter.WritePrefix | bpf/asg-ebpf/src/main.rs:235-248 | writes the identity fields, the name cut at its first NUL |
| Probe.RecordWriter.WriteRecord | bpf/asg-ebpf/src/main.rs:149-215 | succeeds exactly when the full rendering fits and has then written it |
| Probe.RingBuf.EmitRecord | bpf/asg-ebpf/src/main.rs:251-277 | a slot is submitted exactly when it was reserved and the rendering fits; it holds the rendering and zeros |
| Probe.SlotIs | bpf/asg-ebpf/src/main.rs:251-277 | a slot has 512 bytes: the rendering first, zeros behind it |
| RoundTrip.RecordTextIsObject | bpf/asg-ebpf/src/main.rs:149-249 | the pieces written one after another form one JSON object with the fields of the record |
| RoundTrip.RecordTextIsPrintable | asg-collector/src/source/linux.rs:128-132 | a record is printable ASCII and holds no NUL, whatever bytes were captured |
| RoundTrip.EntriesDecode | asg-common/src/events.rs:138-215 | the fields of every record deserialise, and widening gives the intended event with its sentinels |
| RoundTrip.SubmittedSlotDecodes | asg-collector/src/source/linux.rs:127-137 | every submitted slot decodes to exactly the event its capture stands for |
| RoundTrip.CaptureAndDrain | asg-common/src/stats.rs:10-38 | probes, ring and drain together: every capture is either lost in the probe or sent as the event it stands for, and fresh counters then show as many ingested and none malformed |
| RoundTrip.ProbeRingDrainsCompletely | asg-collector/src/source/linux.rs:139-168 | a ring filled by the probe drains to the intended events in order, with no record dropped |
| Collector.PollLoop | asg-collector/src/source/linux.rs:139-168 | burst after burst, sends the events that decode, in order, and counts the rest; a channel found closed between bursts ends the loop with nothing further counted, one found closed by an event ends it with that event counted but not sent |
| Collector.SlotsOfExactly | asg-collector/src/source/linux.rs:139-168 | what is drained are all slots of all bursts, each burst in its place, up to the first that finds the channel closed |
| Decoding.MalformedExactly | asg-collector/src/source/linux.rs:127-137 | an object of declared fields is refused exactly when a name stands twice, an identity field is missing, or a value is not of the type and range of its field |
| Decoding.WhatMayFollow | asg-collector/src/source/linux.rs:127-133 | whatever follows a zero byte is ignored, and any other text behind an object makes the record malformed |
| Decoding.BareRecordDecodes | asg-common/src/events.rs:111-136 | an object with the identity fields alone decodes to the event with every sentinel the documentation lists, and an unknown kind is reported as such |
| RecordSize.RecordLengthExactly | bpf/asg-ebpf/src/main.rs:149-249 | the length of every record, from the digits of its numbers and the plain, quoted and unprintable bytes of its strings; with `Probe.RingBuf.EmitRecord`, exactly which captures are discarded |
| Numerals.NumeralLengthExactly | bpf/asg-ebpf/src/main.rs:182-215 | a printed number has at most k digits exactly when it is below the k-th power of the base |
| RecordSize.ConnectRecordFits | bpf/asg-ebpf/src/main.rs:182-215 | every connect record has at most 272 bytes |
| RecordSize.PlainExecRecordFits | bpf/asg-ebpf/src/main.rs:149-165 | an exec record with up to 255 bytes that need no escape fits |
| RecordSize.PlainOpenRecordFits | bpf/asg-ebpf/src/main.rs:167-180 | an open record with up to 255 bytes that need no escape fits, truncation marker included |
| RecordSize.EscapedRecordIsDiscarded | bpf/asg-ebpf/src/main.rs:251-277 | a file name of 86 or more bytes that all need the long escape is never submitted |
| Glob.JoinSplit | asg-policy/src/glob.rs:21-25 | joining the segments gives the text back |
| Glob.SplitJoin | asg-policy/src/glob.rs:21-25 | splitting gives back any segments without separators |
| Glob.MatcherDecides | asg-policy/src/glob.rs:21-57 | the backtracking matcher accepts exactly the declared language, for all patterns and texts |
| Glob.SegmentMatcherDecides | asg-policy/src/glob.rs:38-57 | within a segment, a match is a cut of the text into blocks the pattern characters allow |
| GlobJs.GlobMatch | asg-api/assets/index.html:240-264 | the index-based copy with its loops returns what the slice matcher decides |
| GlobJs.Segs | asg-api/assets/index.html:254-262 | the index recursion over segments agrees with the matcher on the remaining segments |
| GlobJs.Chars | asg-api/assets/index.html:244-251 | the index recursion over characters agrees with the matcher on the remaining characters |
| GlobLaws.LiteralPatternMatchesItself | asg-policy/src/glob.rs:21-57 | a pattern without wildcards matches itself and nothing else |
| GlobLaws.SeparatorsAgree | asg-policy/src/glob.rs:3-5 | without a double-star segment, pattern and text have the same number of separators |
| GlobLaws.AdjacentDoubleStarsCollapse | asg-policy/src/glob.rs:27-36 | adjacent double-star segments mean one, wherever they stand |
| GlobLaws.EmbeddedDoubleStarIsStar | asg-policy/src/glob.rs:44-57 | two stars inside a longer segment mean one in every pattern; exactly the segments `**`, `*` and `***` are excepted |
| GlobLaws.DoubleStarPrefix | asg-policy/src/glob.rs:27-36 | a leading double-star segment lets the rest match any segment-aligned suffix, and only those |
| GlobLaws.EmptyTextMatches | asg-policy/src/glob.rs:21-57 | the patterns that match the empty text, exactly |
| Paths.NormalizePath | asg-policy/src/rules.rs:207-243 | the loop that strips prefixes computes the normal form, which `Paths.NormalizedExactly` describes |
| Paths.NormalizedExactly | asg-policy/src/rules.rs:207-243 | the normal form, character by character: with backslashes turned round, one verbatim prefix and then all copies of `./` are taken away, and ASCII capitals are made small exactly in UNC paths and drive paths with a further separator |
| Paths.StrippedExactly | asg-policy/src/rules.rs:208-220 | exactly what is left after one verbatim prefix, if the path begins with one, and all copies of `./` behind it |
| Paths.DotSlashIgnoredExactly | asg-policy/src/rules.rs:196-198 | a `./` in front of a path makes no difference exactly when the path does not begin with a verbatim prefix |
| Paths.NormalizedShape | asg-policy/src/rules.rs:194-198 | the normal form has no backslash and no leading dot-slash |
| Paths.SlashDirectionIgnored | asg-policy/src/rules.rs:194-194 | paths that differ in the direction of separators normalise alike |
| Paths.WindowsCaseIgnored | asg-policy/src/rules.rs:199-202 | a path classified as a Windows path normalises the same however its letters are cased |
| Paths.NormalizeAlikeExactly | asg-policy/src/rules.rs:207-243 | exactly which pairs of paths normalise alike; case counts on all other paths |
| Paths.CaseIgnoredExactly | asg-policy/src/rules.rs:199-206 | exactly which paths normalise the same however their letters are cased |
| Paths.DrivePathFoldedExactly | asg-policy/src/rules.rs:199-206 | a path with a drive prefix is folded exactly when another separator follows |
| Paths.DriveRootFileKeepsCase | asg-policy/src/rules.rs:203-206 | a path with a drive prefix that keeps its case |
| Paths.IdempotentExactly | asg-policy/src/rules.rs:207-243 | normalising twice is normalising once exactly when stripping leaves no further verbatim prefix |
| Paths.NestedVerbatimPrefix | asg-policy/src/rules.rs:210-220 | a path for which the second normalisation strips more |
| Paths.BasenameIsLastComponent | asg-policy/src/rules.rs:10-16 | the basename is the last component between separators of either kind, and no other string is |
| Bits.MaskComparesLeadingBits | asg-policy/src/rules.rs:168-175 | comparing under the shifted mask compares the leading bits |
| Bits.LeadingBitsAreQuotients | asg-policy/src/rules.rs:168-185 | leading bits agree exactly when the numbers do after dropping the other bits |
| Positional.FirstBitsAreQuotients | asg-policy/src/rules.rs:168-185 | for numbers in digits of a fixed width that is equality of the first whole digits and of the leading bits of the next one |
| Network.PrintedV4ReadsBack | bpf/asg-ebpf/src/main.rs:186-192 | the dotted form the probe prints reads back to its octets |
| Network.PrintedV6ReadsBack | bpf/asg-ebpf/src/main.rs:193-207 | the eight-group form the probe prints (form 1 of section 2.2 of RFC 4291) reads back to its segments |
| Network.ReadIpIsValid | asg-policy/src/rules.rs:162-166 | whatever text is read as an address fits the width of its family |
| Addresses.V4TextExactly | asg-policy/src/rules.rs:162-164 | a text is read as an IPv4 address exactly when it is four numerals below 256 between dots, without leading zeros, and then denotes those octets |
| Addresses.V6TextExactly | asg-policy/src/rules.rs:162-164 | a lower-case text is read as an IPv6 address exactly when it is eight groups between colons, or at most seven around one `::` that stands for zeros, the last two possibly a dotted quad |
| Addresses.AddressCaseIgnored | asg-policy/src/rules.rs:162-164 | addresses are read the same in either letter case |
| Addresses.PrefixTextExactly | asg-policy/src/rules.rs:165-165 | a text is read as a prefix length exactly when it is a numeral below 256, with any zeros and one plus sign allowed in front |
| Network.CidrIsBlockMembership | asg-policy/src/rules.rs:160-189 | a CIDR pattern matches an address exactly when it lies in the block; an over-long prefix or another family matches nothing |
| Network.ZeroPrefixIsTheFamily | asg-policy/src/rules.rs:168-185 | prefix 0 matches exactly the addresses of its family |
| Network.BlocksNestOrAreDisjoint | asg-policy/src/rules.rs:167-185 | two blocks of one family are nested or disjoint |
| CidrRules.WrittenV4Rule | asg-policy/src/rules.rs:160-175 | the rule `a.b.c.d/p` matches an IPv4 destination exactly when p is at most 32 and the first p bits of the octets agree; a number too long for a byte matches nothing |
| CidrRules.WrittenV6Rule | asg-policy/src/rules.rs:160-185 | the same for IPv6 with 128 bits and groups of 16, in whatever form network and destination are written |
| CidrRules.WrittenFamiliesDiffer | asg-policy/src/rules.rs:186-186 | a CIDR rule of one family matches no address of the other |
| CidrRules.PrintedIsWritten | bpf/asg-ebpf/src/main.rs:186-207 | the destinations the probe prints are such texts |
| HostRules.LiteralHostIsText | asg-policy/src/rules.rs:157-189 | a host rule without wildcards matches exactly its own text |
| HostRules.ExactAddressAgainstV4 | asg-common/src/policy_types.rs:22-26 | against a captured IPv4 address an exact rule is address equality |
| HostRules.ExactAddressAgainstV6 | asg-common/src/policy_types.rs:22-26 | against a captured IPv6 address an exact rule is address equality and the printed form |
| HostRules.CompressedAddressIsMissed | asg-policy/src/rules.rs:188-188 | the rule `::1` reads as the loopback address and does not match its capture |
| HostRules.NamesNeverMatchAddresses | asg-policy/src/rules.rs:157-159 | a rule with a character no address has matches no numeric destination |
| Rules.SecretAccessExactly | asg-policy/src/rules.rs:82-115 | an open raises the critical secret rule exactly when some glob matches the normal form, and reports all such globs in list order |
| Rules.SecretVerdictIgnoresSpelling | asg-policy/src/rules.rs:82-115 | the verdict does not depend on separator direction, nor on letter case for Windows-shaped paths |
| Rules.NetVerdictExactly | asg-policy/src/rules.rs:117-155 | denied hides warned whatever the lists hold, and a warning needs a warn match and no denied match; the first matching host of the list is named |
| Rules.ProcDeniedExactly | asg-policy/src/rules.rs:56-80 | an exec is denied exactly when its last component is listed, letter case aside |
| Rules.CapEscalationAlways | asg-policy/src/rules.rs:42-52 | raised capabilities are always one high violation, whatever the rules |
| Rules.EmptyEvidenceIsInertExactly | asg-common/src/events.rs:126-129 | unread evidence raises nothing exactly when no listed pattern accepts the empty text |
| Rules.EmptyEvidenceCanFire | asg-common/src/events.rs:126-126 | a rule set under which an unread path is reported as a secret |
| TokenBucket.RateBucket.TryAcquire | asg-api/src/lib.rs:72-88 | refills, caps and takes a token as the exact transition says, which the laws below pin in plain numbers |
| TokenBucket.BurstAccepts | asg-api/src/lib.rs:72-79 | of n calls on a fresh bucket at one reading exactly the smaller of n and the rate are accepted, one at least |
| TokenBucket.RefillAccepts | asg-api/src/lib.rs:75-88 | a drained bucket accepts a call exactly when the time since, in nanoseconds, times the rate reaches 1,000,000,000 |
| TokenBucket.AcceptedExactly | asg-api/src/lib.rs:72-88 | in any run, with any policy changes and clock readings, a call is accepted exactly when every window that ends with it has room |
| TokenBucket.WindowUpperBound | asg-api/src/lib.rs:50-53 | no window accepts more than its first capacity plus its refill, across policy changes |
| TokenBucket.BalanceWithinCapacity | asg-api/src/lib.rs:69-71 | the stored balance stays between zero and the last capacity |
| TokenBucket.NothingShedExactly | asg-api/src/lib.rs:50-53 | at a fixed rate and a clock that does not go back, nothing is shed exactly when every window conforms |
| TokenBucket.SteadyClockKeepsTheBound | asg-api/src/lib.rs:50-53 | at a fixed rate and a clock that does not go back, every window accepts at most the burst and the rate times the time between its readings |
| TokenBucket.BoundHoldsExactly | asg-api/src/lib.rs:72-79 | at every rate, the bound holds of all runs over a sequence of readings exactly when the readings never go back |
| TokenBucket.RefillIsElapsedExactly | asg-api/src/lib.rs:75-79 | in a run at a fixed rate, every refill is the time between the readings exactly when the clock never goes back |
| TokenBucket.RegressingClockBreaksTheBound | asg-api/src/lib.rs:75-76 | three calls at rate 1 of which two are accepted between equal readings, against the bound |
| Clock.MonotonicNowNs | asg-api/src/lib.rs:534-548 | under any interference, stale reads included, the loop returns and stores the candidate over what the other threads had last left in the cell |
| Clock.RunKeepsInv | asg-api/src/lib.rs:534-548 | in every interleaving, whatever values the relaxed loads see, each emission is the candidate over the emission before it |
| Clock.EmissionsStrictlyIncrease | asg-api/src/lib.rs:528-548 | emissions strictly increase in exchange order exactly while below the largest 64-bit value |
| Clock.MaximumIsRepeated | asg-api/src/lib.rs:528-548 | a run that hands out the largest value twice |
| Clock.EmissionIsLeast | asg-api/src/lib.rs:537-537 | an emission is the least value not below its reading and above the emission before it |
| Clock.EmissionsStayClose | asg-api/src/lib.rs:534-548 | an emission exceeds the largest reading so far by at most the number of emissions |
| History.IngestAcceptedExactly | asg-api/src/lib.rs:445-458 | the next event of any serial run is accepted exactly when every window of ingest calls has room, each at the rate then in force |
| History.RulesInForceExactly | asg-api/src/lib.rs:365-374 | the rules in force are those of the last policy change in the log, or the initial ones where there is none, and no others |
| History.EntryOrigin | asg-api/src/lib.rs:443-458 | every accepted event is an ingest call of the log and carries the rules of the last policy change before that call |
| History.AcceptedPlusShed | asg-api/src/lib.rs:455-459 | accepted plus shed is the number of ingest calls |
| History.EventRingConsecutive | asg-api/src/lib.rs:489-500 | the event ring is the newest 20,000 accepted events under consecutive 64-bit numbers |
| History.ProcessesAreLatest | asg-api/src/lib.rs:461-487 | the process table holds, field by field, what the last accepted exec of an id reported, and only such ids |
| History.ProcessesAreKeyed | asg-api/src/lib.rs:472-486 | every record stands under its own id |
| History.ViolationsAscend | asg-api/src/lib.rs:502-517 | violations are stored under strictly increasing event numbers |
| History.ViolationsAreVerdicts | asg-api/src/lib.rs:502-508 | under every event number stands exactly what evaluating that event under its rules gave |
| History.StampIsLeast | asg-api/src/lib.rs:502-548 | a violation is stamped with the least value not below the wall clock and above the stamp before it, and an event without violation changes nothing |
| History.ViolationRingIsNewest | asg-api/src/lib.rs:502-517 | the violation ring is the newest 5,000 violations in order |
| History.TimestampsNeverGoBack | asg-api/src/lib.rs:528-533 | however the wall clock moves, printed violation timestamps never go back |
| AppState.AppState.IngestAt | asg-api/src/lib.rs:443-526 | extends the history by the call, after which every field is again what the history says |
| AppState.AppState.PutPolicy | asg-api/src/lib.rs:365-383 | the given rules are in force afterwards and every store is as it was |
| AppState.AppState.GetEvents | asg-api/src/lib.rs:313-332 | the page over the newest accepted events |
| AppState.AppState.GetViolations | asg-api/src/lib.rs:350-363 | the newest violations of the whole history, newest last |
| AppState.AppState.GetProcesses | asg-api/src/lib.rs:334-343 | the forest of the latest execs, in whatever order the map is read; every shown node, however deep, shows what the last accepted exec of its id reported or is a placeholder |
| AppState.ForestShowsLastExecs | asg-api/src/lib.rs:334-343 | a node anywhere in the forest has the name, arguments and time of the last accepted exec of its id, spelled out; without one it has the label of its id, no arguments and time 0 |
| AppState.Metrics.IncViolation | asg-api/src/metrics.rs:60-71 | critical and other violations are counted apart, and both in the total |
| Paging.ViolationPageIsNewest | asg-api/src/lib.rs:354-362 | reversing, taking and reversing again gives the newest violations in order |
| Paging.EventPageSize | asg-api/src/lib.rs:313-332 | a page of events is what comes first above the cursor, as many as asked or 500, at most 20,000 |
| Paging.ViolationPageSize | asg-api/src/lib.rs:350-363 | a page of violations is the newest ones, as many as asked or 200, at most 5,000 |
| Paging.WalkVisitsAllExactly | asg-api/src/lib.rs:307-332 | walking with every page size visits every event once and in order exactly when the ring is ascending |
| Paging.WalkAtLimitExactly | asg-api/src/lib.rs:307-332 | with one page size, walking a ring of different numbers visits every event once and in order exactly when the last item of every page parts smaller numbers from larger ones |
| Paging.WalkVisitsWholeRing | asg-api/src/lib.rs:307-332 | after serial ingests the walk visits the whole ring |
| Paging.PageIsConsecutive | asg-api/src/lib.rs:313-332 | a page consists of consecutive numbers from the cursor or the oldest stored event |
| Paging.PagingSkipsOnlyEvicted | asg-api/src/lib.rs:307-332 | with ingests between the pages the numbers seen ascend, and every skipped one had been evicted |
| Concurrent.RunKeepsInv | asg-api/src/lib.rs:443-526 | in every interleaving the numbers drawn are split between in flight, ring and evicted, the rings keep their caps, the counters run ahead by the threads in between, and what the bucket accepted and shed is what was counted but for those threads |
| SerialRun.SerialHistoryIsRun | asg-api/src/lib.rs:365-526 | every serial history whose clock does not go back is a run of the interleaved system: the same rates, calls, bucket, counters and rings |
| Concurrent.InversionExactlyOnOverlap | asg-api/src/lib.rs:489-500 | two events stand out of order exactly when one ingest drew and pushed while the other was between the two |
| Concurrent.SerialIngestsStaySorted | asg-api/src/lib.rs:489-500 | ingests that do not overlap leave the ring ascending |
| Concurrent.OverlapCanInvert | asg-api/src/lib.rs:489-500 | a run of two overlapping ingests that leaves the ring out of order |
| Races.RacedRingWalksExactly | asg-api/src/lib.rs:307-332 | in every state of every interleaving, the cursor walks the ring with every page size exactly when no stored event overtook another |
| Races.RacedRingLosesAndRepeats | asg-api/src/lib.rs:307-332 | a run after which page size 1 loses an event and the default page size repeats one |
| Races.RacedPagingMissesOnly | asg-api/src/lib.rs:307-332 | with pages read in any states of any interleaving, every number up to the cursor was seen, or was evicted, in flight or overtaken in the state a page found |
| Concurrent.RegressionMeansOvertaking | asg-api/src/lib.rs:436-454 | the bucket sees the clock go back only between two ingests of which one read the clock first and took the lock last |
| Concurrent.OrderedIngestsKeepTheBound | asg-api/src/lib.rs:436-454 | at a fixed rate, ingests that do not overtake each other keep the bound of the bucket in every run |
| Concurrent.HeldUpIngestBreaksTheBound | asg-api/src/lib.rs:436-454 | a run at rate 1 in which a held-up ingest lets two events of one instant through, against the bound |
| ProcessTree.LevelBound | asg-api/src/lib.rs:572-608 | below a root the recursion is never deeper than the number of processes, whatever cycles exist elsewhere |
| ProcessTree.ForestShape | asg-api/src/lib.rs:559-634 | every edge follows the parent id, no child is missing, siblings and roots are ordered, and the roots are the self-parents and unobserved parents |
| ProcessTree.NodesShowRecords | asg-api/src/lib.rs:591-606 | every node of the forest, however deep, has the name, arguments and time of the record of its id, and without a record the label of its id, no arguments and time 0 |
| TreeCoverage.ForestShowsExactly | asg-api/src/lib.rs:561-634 | a process is shown exactly once when its ancestor chain is anchored and not at all otherwise |
| TreeCoverage.MissingExactlyOnCycles | asg-api/src/lib.rs:561-634 | the chain is not anchored exactly when it enters a cycle of two or more processes |
| TreeCoverage.MutualParentsAreMissing | asg-api/src/lib.rs:612-616 | two processes that are each other's parents are not shown, whatever else the table holds |
| CallTree.CallsExactly | asg-api/src/lib.rs:563-590 | the recursion calls itself on exactly the children some record names, the process itself left out |
| CallTree.CallsInOrder | asg-api/src/lib.rs:563-590 | the calls are made in the order of the sorted records, once for each |
| CallTree.HaltsExactly | asg-api/src/lib.rs:572-608 | for any records, the recursion from a process ends exactly when no chain of calls visits a process twice |
| CallTree.TreeOfExactly | asg-api/src/lib.rs:572-608 | the tree of a process shows its record or its label, and its children are the trees of its calls in their order |
| ForestBuilder.TerminatesExactly | asg-api/src/lib.rs:561-634 | for any records, the builder ends exactly when no record it starts on leads into such a chain |
| ForestBuilder.ByTgidExactly | asg-api/src/lib.rs:562-562 | of records with the same id the table holds the last one |
| ForestBuilder.RootsExactly | asg-api/src/lib.rs:609-633 | the roots are the tree of every self-parent, once for each record that says so, and of every unobserved parent once, in the order of time and id |
| ForestBuilder.RepeatedIdNeverEnds | asg-api/src/lib.rs:572-590 | three records of two ids on which it does not end |
| ForestBuilder.NodeFor | asg-api/src/lib.rs:572-608 | wherever it ends, the memoised recursion returns the tree the plain recursion defines |
| ForestBuilder.BuildProcessForest | asg-api/src/lib.rs:561-634 | for all records on which it ends, ids repeated or not: maps, memo, loops and sorting return the ordered trees of the self-parents and the unobserved parents, whatever the maps' order |
| ForestOfTable.TableIgnoresOrder | asg-api/src/lib.rs:562-562 | with different ids the table depends on the set of records only |
| ForestOfTable.GroupedKids | asg-api/src/lib.rs:563-568 | with different ids the calls are the kids in order |
| ForestOfTable.SortedRootsAreForest | asg-api/src/lib.rs:632-633 | sorting a complete set of roots gives the forest, in whatever order the placeholders came |
| ForestOfTable.ForestOfDistinct | asg-api/src/lib.rs:561-634 | with different ids the builder always ends, and its result is the forest of the table |
| Sorting.SortByIgnoresOrder | asg-api/src/lib.rs:631-632 | where equal keys mean equal items, sorting does not depend on the order before |
| Sorting.SortByIsAscending | asg-api/src/lib.rs:564-565 | sorting by pairwise different keys is ascending and keeps the members |
| EndToEnd.CapturedConnectionVerdict | asg-policy/src/rules.rs:117-189 | under every rule set, each captured IPv4 or IPv6 connection fits its record and is denied, warned about or passed exactly as its address lies in a block, is an exact address, or matches a glob of the lists |
| EndToEnd.NamesHoldOfNoCapture | asg-common/src/policy_types.rs:55-58 | a host name with a letter beyond `f`, as all of the default warn list, holds of no captured connection |
| EndToEnd.CapturedOpenVerdict | asg-policy/src/rules.rs:82-115 | a captured path that crossed the wire raises a violation exactly when some glob matches its normal form |
| EndToEnd.UnreadEvidenceVerdict | asg-common/src/events.rs:111-136 | a capture without evidence is always submitted and raises nothing exactly when no pattern of its kind accepts the empty text |
| EndToEnd.MutualParentsEmptyTheForest | asg-api/src/lib.rs:461-487 | two accepted execs that name each other as parent leave the process list empty |

## Left out

- HTTP routing, server-sent events, the broadcast channel, shutdown and readiness: plumbing around the modelled state.
- Loading and attaching the probes, and the reads of tracepoints and socket addresses: captured bytes, ports and addresses are inputs.
- Whitespace, `null`, `false`, longer arrays and other escapes in JSON: the probe never emits them, so the reader does not know them.
- Rounding of the bucket's floating-point balance: the model is exact.
- The latency histogram, the Prometheus text and lock poisoning.
- Message and evidence text of violations: the rule, its severity and the matched patterns are kept.
- The dashboard's path normalisation and rendering: only its glob matcher is modelled.
- The simulator, the command line and the default rule lists.
- AppState.AppState.IngestAt: counters are unbounded, whereas the source's wrap at 64 bits; the sequence number does wrap in the model.
- ForestBuilder.BuildProcessForest: says nothing about records on which the source's recursion does not end; `ForestBuilder.TerminatesExactly` says which those are.
- Concurrent.RunKeepsInv: the process table and the number of violations per event are left open, which admits more runs than the source has.
- TokenBucket.NothingShedExactly: asks for a fixed rate and a clock that does not go back, because the bound is stated for them; AcceptedExactly covers all runs.
- History.ViolationsAscend: holds for the first 2^64 events, after which the source's number wraps.
