# field-cage: verified model

field-cage is a default-deny egress filter. Kernel programs decide every `connect` and
`sendmsg` from maps that user space fills; a second, separate computation in user space
labels the same connections for the log, and a report is built from that log. This project
models both sides and proves what their maintainers rely on: which destinations the kernel
permits and why, when the log may be believed, that the log can be read back, and that the
report counts exactly what was logged.

## Layout

| file | contents |
|---|---|
| `Basics.dfy` | `Option`, `Result` and port numbers |
| `Strings.dfy` | searching, trimming, padding, decimal numbers, splitting, as Go's packages do them |
| `Net.dfy`, `PlainLib.dfy` | addresses, their text, CIDR ranges; a library that meets the contract of `Net.Lib` |
| `Policy.dfy` | the allowlist engine |
| `Entries.dfy` | what an entry means, told from its text: addresses, ranges, names, wildcards, ports, case |
| `Kernel.dfy` | the enforcement maps, the writes to them and the kernel decision |
| `Verdict.dfy` | the verdict user space reports |
| `Enforcement.dfy` | runs: every interleaving of startup writes and observed DNS responses |
| `ReportSoundness.dfy` | when a reported ALLOW or SKIP is one the kernel permits |
| `Labels.dfy` | what each label of the report says, over whole runs |
| `Writes.dfy` | when no map write of a run fails, told from its steps; what a full trie does to the report |
| `Hosts.dfy` | a supply of addresses for the examples that need many |
| `Watcher.dfy` | the watcher object, whose state is always that of a logged run |
| `Resolvers.dfy` | the nameserver list and its three consumers |
| `SeedPool.dfy` | the bounded pool of startup lookups, and what whole startups have in common |
| `Connect.dfy`, `Wire.dfy` | the connect tracepoints, and the bytes both kernel programs hand over |
| `LogLine.dfy`, `RoundTrip.dfy` | the log line printer and parser, and exactly what survives them |
| `Sorting.dfy`, `Ordering.dfy`, `Summary.dfy`, `Collector.dfy` | aggregation, the report order, uniqueness of the report |
| `SummaryMeaning.dfy` | the rows, their order and the candidates of a summary, in the words of the events |
| `ScanLog.dfy`, `EndToEnd.dfy` | scanning a whole log; from printed events to the report |
| `LineText.dfy` | the layout of a line, exactly which texts are accepted as one, the mode, the cutting into lines |
| `Escaping.dfy` | the annotation and Markdown escapers |

Functions that only compute follow the cited code branch by branch; the table names the
lemmas and methods that say what they mean. Map writes can fail on capacity, on a prefix
longer than the key, or for a reason of the kernel's own, which is an input (`fault`) of the
step; `failed` counts the failures, which the agent logs as warnings, and `NoWriteFailsExactly`
says from the steps alone when it stays 0. Strings are sequences of
Unicode scalars, where an invalid UTF-8 byte counts as one U+FFFD. Which runes are printable
and how IPv6 addresses are written are parameters (`Net.Lib`) with the contract `Net.Lawful`,
which `PlainLib` shows can be met; white space and dotted quads are concrete.

## What does not hold, and exactly when it does

* The report mirrors enforcement only for trusted sources. A response for an allowed name
  updates the DNS cache whatever its source, but the tries only when the source is trusted
  (`internal/ebpf/dns_watcher.go:116-134`), so an untrusted answer is reported as allowed while
  the kernel denies it: `UntrustedResponseExactly` for one response, and
  `UntrustedResponseExample`.
* It also needs the kernel to take every answer. The tries hold 4096 keys each, and an answer
  that is refused is named in the cache all the same, so it is reported as allowed and denied
  even when its source is trusted: `FullTrieMisreports` for every policy without ranges,
  `FullTrieHappens` with more than 4096 addresses rotating under one name,
  `RefusedAnswerExample` for a single refusal. For both reasons together and a whole run, from a
  finished startup without a failed write on: `ReportSoundExactly`. `NoWriteFailsExactly` says
  when nothing is refused, and then the condition is one on the steps alone:
  `SoundOnStepsExactly`.
* An IPv4-mapped range such as `::ffff:10.0.0.0/104` is honoured by the engine and refused by
  the IPv4 trie, whose key has 32 bits: `RangeAgreesExactly`, and `MappedRangeExample` for that
  range, which `MappedRangeEntry` shows is what that entry becomes.
* The nameserver maps hold 16 addresses a family; beyond that the report exempts a nameserver
  that the kernel denies: `ResolverAgreement`, and `OverflowExample` with 17.
* The report order is not fixed when one destination appears both without a domain and with
  its own address text as the domain, equally often: `SummaryUniqueExactly`, and
  `TwoSummariesExample` for two events.
* A DNS payload of 512 bytes is dropped. The comment in `internal/ebpf/bpf/dns.c:58-65` says no
  valid payload is, counting the headers into the limit of RFC 1035, section 4.2.1, which
  excludes them: `CaptureExactly`, and `LargestPayloadExample` for a whole packet.
* A record need not be that of the call whose exit emitted it: a connect interrupted before its
  exit leaves an entry, and if the next enter of the thread returns early, the next exit emits
  the old entry. `PairedExactly` says that nothing else can go wrong; `StaleEntryExample` and
  `RetriedEnterExample` are runs that do not alternate on either side of the condition.

## Model

| member | source | states |
|---|---|---|
| Strings.LowerByTable | internal/policy/policy.go:211-211 | folding takes each upper-case letter to the lower-case one at its place in the alphabet and leaves every other character |
| Strings.SameFoldExactly | internal/policy/policy.go:207-217 | two texts fold to one exactly when they differ at most in the case of their letters |
| Strings.TrimAround | internal/policy/policy.go:88-88 | trimming takes off exactly the white space around a text |
| Strings.SpaceExactly | internal/policy/policy.go:88-88 | the characters that count as white space, listed |
| Strings.DigitsRead | internal/report/parse.go:107-114 | a number is read from its digits, leading zeros and all, exactly when it is within its width |
| Strings.OnlyDigitsRead | internal/report/parse.go:107-114 | and from no other text |
| Net.MappedMeaning | internal/ebpf/bpf/block.c:162-175 | the IPv4-mapped form byte by byte, and the address it stands for |
| Net.LoopbackMeaning | internal/report/verdict.go:74-80 | loopback is 127.0.0.0/8 in either form and ::1 |
| Net.ReadDottedExactly | internal/policy/policy.go:89-92 | a dotted quad is read from the one text it is written as |
| Net.AddressText | internal/policy/policy.go:89-92 | only a dotted quad or a text with two colons is an address |
| Net.DottedRoundTrip | internal/report/verdict.go:92-97 | reading a written dotted quad gives its four bytes |
| Net.ParsePrintedIP | internal/report/parse.go:166-168 | reading a printed address gives the 16-byte form of the same address, whichever form was printed |
| Net.IPStringInjective | internal/policy/policy.go:50-90 | two addresses have the same text key exactly when they are the same address, mapped or not |
| Net.ParseCIDRIsNetwork | internal/policy/policy.go:142-145 | a parsed range has nothing set below its mask |
| Net.MaskedIsPrefix | internal/policy/policy.go:240-244 | equality of all bytes under the mask is equality of the leading bits |
| Policy.NewEngine | internal/policy/policy.go:73-159 | loading succeeds exactly when the mode is valid and every entry is acceptable by itself, reports the first bad entry otherwise, and leaves each entry in the one store of its kind |
| Policy.LoadEntries | internal/policy/policy.go:87-157 | the loading loop: all stores hold exactly the classified entries, or the first refusal |
| Policy.StoreKeepsStores | internal/policy/policy.go:87-157 | adding one entry to its store changes no other store |
| Policy.AllowMeaning | internal/policy/policy.go:207-250 | the engine allows a destination exactly when one entry on its own does |
| Policy.PolicyMonotone | internal/policy/policy.go:73-158 | adding valid entries never takes away a permission; a subset of acceptable entries is acceptable |
| Policy.PolicyIsASet | internal/policy/policy.go:73-158 | order and repetition of entries change neither acceptance nor any decision |
| Policy.ExactNames | internal/policy/policy.go:101-156 | an exact-name entry is never empty and holds neither an asterisk nor a colon |
| Policy.DomainNames | internal/policy/policy.go:170-182 | no name of Domains() is empty or holds an asterisk or a colon |
| Policy.RangesAreNetworks | internal/policy/policy.go:142-145 | every stored range is a masked network |
| Entries.AddressEntry | internal/policy/policy.go:88-92 | a written address, with white space around it, loads, allows that address in every policy, and allows no other where it is alone |
| Entries.AddressPortEntry | internal/policy/policy.go:93-141 | so does a dotted quad with a port |
| Entries.BracketedEntry | internal/policy/policy.go:93-141 | so does an IPv6 address in brackets with a port |
| Entries.PortExactly | internal/policy/policy.go:97-100 | a port is cut exactly from "host:port" without brackets and from "[host]:port" |
| Entries.RangeEntry | internal/policy/policy.go:142-145 | a written range allows exactly the addresses that share its first bits, whatever its base has below the mask |
| Entries.CompressedRangeEntry | internal/policy/policy.go:92-145 | an entry of a compressed IPv6 base, a slash and a prefix length is that range, its colons never taken for a port |
| Entries.MappedContains | internal/policy/policy.go:240-244 | a range with an IPv4-mapped base contains what shares the bits after the first 96 |
| Entries.NameEntry | internal/policy/policy.go:155-155 | a plain name allows that name in any case and no other |
| Entries.NamePortEntry | internal/policy/policy.go:97-100 | so does the name with a port |
| Entries.WildcardEntry | internal/policy/policy.go:105-136 | "*." and two or more non-empty labels allow exactly the longer names, in any case |
| Entries.WildcardPortEntry | internal/policy/policy.go:93-136 | so they do with a port |
| Entries.StarLoadsExactly | internal/policy/policy.go:105-132 | of the texts with an asterisk and no colon exactly those load |
| Entries.EmptyEntry | internal/policy/policy.go:101-104 | white space alone is skipped: it loads and allows nothing |
| Entries.PortAloneEntry | internal/policy/policy.go:101-104 | so is a port alone |
| Entries.StrayColonsAreRefused | internal/policy/policy.go:146-153 | two colons in what is neither an address nor a range make loading fail |
| Entries.OtherColonsAreRefused | internal/policy/policy.go:146-153 | so does any colon that does not stand in front of a port |
| Entries.CaseIsFolded | internal/policy/policy.go:207-217 | an engine does not tell names apart that differ only in case |
| Entries.NameCaseIsFolded | internal/policy/policy.go:155-155 | names that differ only in case are loaded as the same item |
| Entries.WildcardCaseIsFolded | internal/policy/policy.go:135-135 | so are wildcards |
| Policy.SuffixIsLabelSuffix | internal/policy/policy.go:218-228 | ending in ".b" is having the labels of b as a proper suffix of the labels |
| Policy.WildcardMeaning | internal/policy/policy.go:105-136 | an accepted wildcard has two or more non-empty labels and matches exactly the names with more labels in front of them, case folded |
| Policy.WildcardNeedsADot | internal/policy/policy.go:218-228 | neither the base name nor a name that merely ends in its characters matches |
| Verdict.KindsExclude | internal/report/verdict.go:122-132 | deny, skip and allow exclude each other on every text |
| Verdict.VerdictKinds | internal/report/verdict.go:74-88 | every reported verdict has exactly one of the three kinds |
| Verdict.KnownTexts | internal/report/summary.go:99-99 | the six labels and their order in the report |
| Labels.LabelsExactly | cmd/agent/main.go:259-264 | after any run, each label is given exactly for its reason: the agent itself, exempt port 53, loopback, an address or last answered name of the policy, no such name, or a name the policy does not have |
| Labels.NoPolicyLabels | cmd/agent/main.go:224-245 | without a policy port 53 is exempt and nothing is denied |
| Labels.ExemptExactly | cmd/agent/main.go:224-245 | exempt are loopback, the nameservers in either form, and everything under allow_all_dns |
| Labels.TrustedExactly | internal/ebpf/dns_parse.go:102-115 | trusted are loopback and the IPv4 nameservers |
| Verdict.VerdictIsKnown | cmd/agent/main.go:259-264 | every reported verdict is one of the six the report knows by name |
| Verdict.PassMeaning | internal/report/verdict.go:74-88 | a verdict is not a denial exactly when the port-53 exemption, loopback or the policy applies |
| Kernel.PermitsMeaning | internal/ebpf/bpf/block.c:109-198 | the kernel permits exactly loopback, exempt port-53 destinations and covered addresses, alike for an IPv4 socket and a mapped IPv6 one |
| Kernel.CoveredIsHit | internal/ebpf/bpf/block.c:126-134 | coverage is a hit in the trie of the address's own family |
| Kernel.AddPrefix | internal/ebpf/loader.go:257-309 | a trie write is refused exactly for a prefix longer than the key, a kernel fault, or a new key in a full trie; otherwise it adds exactly its prefix to the trie of its family and touches nothing else |
| Kernel.AllowResolver | internal/ebpf/loader.go:316-339 | a resolver write is refused exactly for a kernel fault or a new address in a full set; otherwise it lists that address in either form and no other |
| Kernel.HostPrefixMatches | internal/ebpf/loader.go:257-280 | a host prefix covers its own address and no other |
| Kernel.MappedNeedsLongMask | internal/ebpf/loader.go:285-297 | a range whose base is IPv4-mapped has at least 96 mask bits |
| Kernel.FitsExactly | internal/ebpf/loader.go:285-309 | a range fits its trie exactly when its base is not IPv4-mapped |
| Kernel.ContainsIsMatch | internal/policy/policy.go:240-244 | for a range that fits, the engine's containment is the trie's prefix match |
| Kernel.RangesAgree | internal/ebpf/bpf/block.c:126-198 | once a list of ranges is written, engine and trie lookup agree on every address |
| Kernel.RangeAgreesExactly | internal/ebpf/loader.go:285-309 | engine and kernel agree about a single range exactly when it is not IPv4-mapped |
| Enforcement.LoadedIsWellFormed | internal/policy/policy.go:73-159 | every engine that loads meets the assumption of the run theorems |
| Enforcement.ObserveAllEffect | internal/ebpf/dns_watcher.go:120-134 | a response adds only its own answers to the tries, all of them if nothing failed, none unless it may extend them |
| Enforcement.ApplyEffect | internal/ebpf/loader.go:257-385 | one step adds only the keys it asks for, all of them unless a write failed, and removes nothing |
| Enforcement.TriesExactly | cmd/agent/main.go:273-335 | without failed writes the tries hold exactly the keys the steps asked for |
| Enforcement.OrderIsIrrelevant | cmd/agent/main.go:325-335 | schedules asking for the same keys end with the same tries when no write failed |
| Enforcement.FlagAndResolvers | internal/ebpf/loader.go:345-385 | the DNS flag and the listed resolvers come from the policy and the nameserver list |
| Enforcement.Provenance | internal/ebpf/dns_watcher.go:116-134 | in every reachable state each permit is loopback, an exempt port-53 destination, or covered by a key from the policy, a startup lookup or a trusted response for an allowed name |
| Enforcement.PermitsOnlyGrow | internal/ebpf/bpf/block.c:109-198 | along a run a permitted destination stays permitted |
| Enforcement.InertHasNoEffect | internal/ebpf/dns_watcher.go:116-134 | dropping untrusted or not-allowed responses from a run leaves maps and failures as they are |
| Enforcement.NonInterference | internal/ebpf/dns_watcher.go:109-134 | runs that differ only in such responses end with the same maps and the same kernel decisions everywhere |
| ReportSoundness.SoundInParts | internal/report/verdict.go:74-88 | the report is sound exactly when the policy's addresses, the exempt resolvers and the named addresses are all backed by the maps |
| ReportSoundness.CacheAfter | internal/ebpf/dns_cache.go:20-31 | after a response its answers carry its name and every other address its old one |
| ReportSoundness.ResponseKeepsReportExactly | internal/ebpf/dns_watcher.go:116-134 | a response keeps a sound report sound exactly when its name is not allowed or all its answers are reachable afterwards |
| ReportSoundness.UntrustedResponseExactly | internal/ebpf/dns_watcher.go:120-129 | from an untrusted source, exactly when the name is not allowed or all answers were reachable already |
| ReportSoundness.TrustedResponseKeepsReport | internal/ebpf/dns_watcher.go:120-134 | from a trusted source without a failed write the report stays sound |
| ReportSoundness.SeededPolicy | cmd/agent/main.go:280-289 | once startup has finished without a failed write, and whatever fails later, every address and range of the policy is reachable |
| ReportSoundness.SeededExempt | cmd/agent/main.go:224-245 | once startup has finished without a failed write, and whatever fails later, every destination exempt in the report is permitted on port 53 |
| ReportSoundness.NamedAlongRun | internal/ebpf/dns_watcher.go:116-134 | with trusted sources and no failed write every address named by an allowed domain is reachable |
| ReportSoundness.ReportSoundness | cmd/agent/main.go:259-264 | over every run with a finished startup, trusted sources and no failed write, a reported ALLOW or SKIP of another process is permitted by the kernel |
| ReportSoundness.CacheAlongRun | internal/ebpf/dns_cache.go:20-31 | the cached name of an address is that of the last response that answered with it |
| ReportSoundness.ReportSoundExactly | internal/policy/policy.go:235-250 | from a finished startup without a failed write on, whatever the sources and whichever later writes fail, the report is sound exactly when every address last answered for an allowed name is reachable |
| ReportSoundness.ReportSoundWhenAllTaken | internal/policy/policy.go:235-250 | when no later write failed either, exactly when each such address is loopback or matched by a key some step of the run asked for |
| Writes.RunIsWrites | internal/ebpf/loader.go:257-385 | the maps and the failures of a run are the outcome of the single writes its steps try, in order |
| Writes.NoWriteFailsExactly | internal/ebpf/bpf/block.c:40-81 | no write of a run fails exactly when none has a fault of the kernel's own, no prefix is longer than its key, at most 4096 different keys are written to each trie and at most 16 different nameservers of each family |
| Writes.SoundWhenAllFits | cmd/agent/main.go:259-264 | report soundness with every condition on the steps: startup tried everything, all writes fit, the sources are trusted |
| Writes.SoundOnStepsExactly | internal/policy/policy.go:235-250 | when all writes fit, the report is sound exactly when every address last answered for an allowed name is loopback or matched by a key some step asked for |
| Writes.FullTrieMisreports | internal/ebpf/dns_watcher.go:122-134 | without ranges, of more than 4096 IPv4 addresses last answered for allowed names one is reported ALLOW and denied, whoever answered |
| Writes.FullTrieExample | internal/ebpf/dns_watcher.go:122-134 | a run of trusted answers for one name through any such list of addresses |
| Writes.FullTrieHappens | internal/ebpf/dns_watcher.go:122-134 | such lists exist, so the run does |
| Writes.RefusedAnswerExample | internal/ebpf/dns_watcher.go:130-132 | one trusted answer that the kernel refuses is reported ALLOW and denied |
| ReportSoundness.UntrustedAnswerIsMisreported | internal/ebpf/dns_watcher.go:122-134 | every unreachable answer of an untrusted response for an allowed name, among any others, is reported ALLOW and denied |
| ReportSoundness.UntrustedResponseExample | internal/ebpf/dns_watcher.go:122-134 | a concrete such run |
| ReportSoundness.MappedRangeIsRefused | internal/ebpf/loader.go:285-297 | a mapped range is never written although the engine allows its base |
| ReportSoundness.MappedRangeEntry | internal/policy/policy.go:142-145 | the entry `::ffff:10.0.0.0/104` is loaded as a mapped range |
| ReportSoundness.MappedRangeExample | internal/ebpf/loader.go:285-297 | with that range as the whole policy, its base is reported ALLOW and denied |
| PlainLib.MappedRangeCanBeLoaded | internal/policy/policy.go:142-145 | a lawful library exists that loads that entry |
| Watcher.Watcher.constructor | internal/ebpf/loader.go:67-163 | a new watcher has maps only in block mode, where each nameserver has been offered once, in order, and nothing else written |
| Watcher.Watcher.AllowIP | internal/ebpf/loader.go:257-280 | one trie write, or nothing without an address or maps |
| Watcher.Watcher.AllowCIDR | internal/ebpf/loader.go:285-309 | one trie write, or nothing in audit mode |
| Watcher.Watcher.AllowResolver | internal/ebpf/loader.go:316-339 | one resolver write, or nothing in audit mode |
| Watcher.Watcher.Seed | internal/ebpf/loader.go:345-385 | one startup write keeps the state that of the logged run |
| Watcher.Watcher.SeedResolvers | internal/ebpf/loader.go:369-385 | every nameserver has been offered to the kernel, once and in order |
| Watcher.Watcher.SeedIPs | cmd/agent/main.go:280-284 | every policy address has been offered, in any order of the table |
| Watcher.Watcher.SeedCIDRs | cmd/agent/main.go:285-289 | every range has been offered |
| Watcher.Watcher.SeedAnswer | cmd/agent/main.go:330-334 | the addresses of an answered lookup are offered once each, in order |
| Watcher.Watcher.SeedLookups | cmd/agent/main.go:325-335 | the slots of the lookups are written out in order, failed lookups skipped |
| Watcher.Watcher.SeedPolicy | cmd/agent/main.go:273-289 | with the nameservers offered, the flag, the addresses and the ranges finish the startup |
| Watcher.Watcher.SeedAllowlist | cmd/agent/main.go:273-335 | startup is finished in the sense the run theorems ask for, and what is logged after it is the writes of the slots |
| Watcher.StartBlocking | cmd/agent/main.go:124-144 | a new watcher seeded with the slots of a finished schedule has, when no write failed, a whole startup as its log |
| Watcher.Watcher.ObserveAnswer | internal/ebpf/dns_watcher.go:122-134 | one turn of the answer loop is one step of the reference |
| Watcher.Watcher.ObserveAnswers | internal/ebpf/dns_watcher.go:122-134 | the answer loop is the reference over the whole response |
| Watcher.Watcher.ObserveResponse | internal/ebpf/dns_watcher.go:109-134 | a response is one step of the run, and renames exactly its answers in the cache |
| Watcher.Watcher.Report | cmd/agent/main.go:191-206 | the verdict uses the cached name and passes nothing the kernel denies, under the soundness conditions |
| Resolvers.FirstOccurrencesExactly | internal/ebpf/dns_parse.go:57-66 | what is kept is exactly the first occurrence of every address, in the order of the list |
| Resolvers.FirstOccurrencesKeep | internal/ebpf/dns_parse.go:57-66 | deduplication keeps every address once |
| Resolvers.Compact | internal/ebpf/dns_parse.go:57-66 | the in-place compaction leaves the first occurrences in order |
| Resolvers.ResolversFrom | internal/ebpf/dns_parse.go:45-67 | the second file counts exactly when the first has only loopback entries, and the result is deduplicated in order |
| Resolvers.ListedAlongRun | internal/ebpf/bpf/block.c:69-81 | the resolver maps hold only non-loopback nameservers, at most 16 a family |
| Resolvers.TrustedIsExempt | internal/ebpf/dns_parse.go:102-115 | for IPv4 in either form, a trusted response source is exactly an exempt port-53 destination |
| Resolvers.ResolverAgreement | internal/ebpf/loader.go:369-385 | with an empty allowlist, report exemption and kernel permission agree everywhere exactly when each family has at most 16 non-loopback nameservers |
| Resolvers.OverflowDisagrees | internal/ebpf/bpf/block.c:69-81 | with one too many, some nameserver of that family is exempt in the report and denied |
| Resolvers.OverflowExample | internal/ebpf/bpf/block.c:69-81 | 17 nameservers, each offered once: one is exempt in the report and denied |
| SeedPool.StepKeepsGood | cmd/agent/main.go:302-323 | every move keeps tokens, wait group and result slots in step with the workers |
| SeedPool.EverySchedule | cmd/agent/main.go:302-323 | in every interleaving at most eight lookups run at once and no schedule exceeds 6n + 1 steps |
| SeedPool.NoDeadlock | cmd/agent/main.go:307-323 | until the main goroutine has returned some move is enabled |
| SeedPool.ResultsAreAnswers | cmd/agent/main.go:319-323 | when Wait returns every slot holds the answer for its own domain |
| SeedPool.SeedStepsMeaning | cmd/agent/main.go:325-335 | the writes made are exactly the addresses of the successful lookups |
| SeedPool.SeedingIsDeterministic | cmd/agent/main.go:296-335 | the seeded tries depend neither on the schedule nor on the order of the domains, absent failed writes |
| SeedPool.PoolSeeds | cmd/agent/main.go:325-335 | what is logged for the slots of a finished schedule is one write for each address that was answered |
| SeedPool.LoggedExactly | cmd/agent/main.go:325-335 | when no write failed, the log ends with exactly the writes of the slots |
| SeedPool.StartupsAgree | cmd/agent/main.go:273-335 | two whole startups with the same policy and answers end with the same tries, whatever the schedules and table orders |
| Connect.Tracer.TraceConnectEnter | internal/ebpf/bpf/connect.c:98-139 | enter is one step of the logged run |
| Connect.Tracer.TraceConnectExit | internal/ebpf/bpf/connect.c:141-170 | exit is one step of the logged run, and takes the entry whether or not the ring has room |
| Connect.Tracer.EvictEntry | internal/ebpf/bpf/connect.c:69-78 | an eviction is one step of the logged run |
| Connect.PendingExactly | internal/ebpf/bpf/connect.c:98-148 | the map holds exactly the entries of enters that no storing enter, exit or eviction of the same thread has followed |
| Connect.EnterUsedOnce | internal/ebpf/bpf/connect.c:141-170 | no enter is emitted by two exits |
| Connect.RingExactly | internal/ebpf/bpf/connect.c:141-170 | under any interleaving the ring is exactly the matched pairs in exit order, each with its own enter's data |
| Connect.PendingIsInside | internal/ebpf/bpf/connect.c:69-78 | with alternating threads an entry exists only inside a connect |
| Connect.AlternatingIsNeverStale | internal/ebpf/bpf/connect.c:98-170 | alternating threads leave no entry to go stale |
| Connect.RecordsExactly | internal/ebpf/bpf/connect.c:98-139 | exactly the IPv4 and IPv6 destinations that could be read leave an entry, if the map takes it |
| Connect.CallEmittedExactly | internal/ebpf/bpf/connect.c:98-170 | in any run, a call is emitted by its own exit exactly when its IPv4 or IPv6 destination was read, stored, not evicted and found room |
| Connect.EmittedCallsExactly | internal/ebpf/bpf/connect.c:98-170 | where no entry goes stale, exactly those calls are emitted |
| Connect.PairedExactly | internal/ebpf/bpf/connect.c:98-170 | in any run, alternating or not, every record belongs to the call whose exit emitted it exactly when no enter that leaves no entry comes between an entry of its thread and the exit that emits it |
| Connect.StaleEntryExample | internal/ebpf/bpf/connect.c:69-72 | a stale entry is emitted by another call |
| Connect.RetriedEnterExample | internal/ebpf/bpf/connect.c:136-137 | a run that does not alternate and still pairs its record right |
| Wire.ParseEncoded | internal/ebpf/event.go:42-63 | decoding the 56-byte record gives its fields, in either byte order |
| Wire.UpToNul | internal/ebpf/event.go:65-70 | the name is cut at its first NUL and nowhere else |
| Wire.DecodedExactly | internal/ebpf/event.go:42-46 | a record is decoded exactly when it has all of its 56 bytes |
| Wire.ElapsedExactly | internal/ebpf/bpf/connect.c:150-150 | the elapsed time is the one 64-bit number that takes the first clock reading to the second |
| Wire.CallToEvent | internal/ebpf/bpf/connect.c:41-50 | user space reads the address, port, ids and name of the enter, and the record holds the elapsed time |
| Wire.CaptureDns | internal/ebpf/bpf/dns.c:25-97 | the capture steps compute the captured record or nothing |
| Wire.CapturedExactly | internal/ebpf/bpf/dns.c:26-93 | in the bytes of the frame: only UDP from port 53 behind a header of 20 to 60 bytes is captured, with its source and its payload up to its length modulo 512, and whatever is such is |
| Wire.TakenExactly | internal/ebpf/dns_watcher.go:99-111 | a record is taken exactly when its length is not 0 and within what was handed over |
| Wire.CaptureComplete | internal/ebpf/bpf/dns.c:49-93 | a complete packet is captured with its source and its payload up to its length modulo 512 |
| Wire.PacketIsComplete | internal/ebpf/bpf/dns.c:26-93 | every payload that UDP can carry has a complete packet |
| Wire.LargestPayloadExample | internal/ebpf/bpf/dns.c:58-68 | a whole packet with 512 payload bytes is dropped |
| Wire.CaptureExactly | internal/ebpf/dns_watcher.go:99-111 | the hand-over of a response is lossless exactly for payloads of 1 to 511 bytes |
| LineText.PrintedText | internal/report/verdict.go:92-120 | a printed line is its literal field names, each value at the left of a column of its width, and the destination with its port |
| LineText.AcceptedExactly | internal/report/parse.go:74-170 | a text is accepted as an event exactly when it has the five fields, each ended by the first marker of the next, the destination behind the last " dst=", and the trimmed fields denote that event |
| LineText.SanitizedText | internal/report/parse.go:238-253 | each character up to the cap stays if it is printable and valid and is a question mark otherwise |
| LineText.NewlinesTrimmed | internal/report/parse.go:75-75 | exactly the carriage returns and line feeds at its end are taken off a line |
| LogLine.CutPrintedHead | internal/report/parse.go:87-102 | cutting a printed head gives the four trimmed fields, whatever markers the comm holds |
| LogLine.ParseNamedDst | internal/report/parse.go:149-170 | a named destination gives its name without leading blanks and its address |
| LogLine.ParseBareDst | internal/report/parse.go:149-170 | a bare destination gives its address and port, IPv6 colons included |
| RoundTrip.RoundTripExactly | internal/report/verdict.go:117-120 | printing and parsing gives the event back exactly when it is representable |
| RoundTrip.RepresentableComesBack | internal/report/parse.go:74-129 | a representable event comes back |
| RoundTrip.ComesBackOnlyIfRepresentable | internal/report/parse.go:74-129 | no other event does |
| RoundTrip.CleanIsFixed | internal/report/parse.go:238-253 | sanitising changes exactly the texts that are not printable or too long, and its result is clean |
| RoundTrip.NormalForm | internal/report/parse.go:74-129 | every accepted event is clean, and prints and parses to itself exactly when neither verdict nor comm was cut behind a blank |
| Sorting.SortIsSorted | internal/report/summary.go:226-247 | the sort gives a sorted permutation |
| Sorting.SortedUnique | internal/report/summary.go:243-246 | when every pair is decided there is one sorted arrangement |
| Sorting.UniqueExactly | internal/report/summary.go:243-246 | the result is independent of input order and algorithm exactly when every pair is decided |
| Sorting.StrOrder | internal/report/summary.go:114-114 | string order is a strict total order |
| Sorting.SortedElements | internal/report/summary.go:249-253 | the elements of a set, once each, in increasing order |
| Ordering.RowOrder | internal/report/summary.go:226-247 | the six-key comparator is a strict weak order |
| Ordering.UndecidedExactly | internal/report/summary.go:226-247 | the comparator cannot decide two keys exactly when they differ only in one having its own address as its domain |
| SummaryMeaning.LessExactly | internal/report/summary.go:114-114 | the order of texts, by the first place where they differ |
| SummaryMeaning.RowsInOrder | internal/report/summary.go:226-247 | denied, allowed, exempt, unknown; within a group the most frequent first, then by destination, port, verdict and address |
| SummaryMeaning.RowsPartitionEvents | internal/report/summary.go:159-215 | every event is counted by the one row with its verdict, domain, address and port, and the count of a row is the number of its events |
| SummaryMeaning.SuggestedExactly | internal/report/summary.go:216-253 | the candidates are the names, or else addresses, of the events that were not exempt, once each and in order |
| SummaryMeaning.ProcessesInOrder | internal/report/summary.go:204-215 | the processes of a row stand in order |
| Ordering.GroupsInOrder | internal/report/summary.go:54-72 | the destinations are Denied, Allowed, Skipped and the unknown ones, in that order |
| Summary.AggStep | internal/report/summary.go:159-183 | one more event changes the reference of its own key as Add does, and no other |
| Summary.CommsMeaning | internal/report/summary.go:169-181 | the comms of a key are its distinct non-empty ones |
| Summary.TalliesMeaning | internal/report/summary.go:159-183 | adding events one by one leaves the total, the tally and the aggregates the history says |
| Summary.ProcessesMeaning | internal/report/summary.go:169-215 | a row has the sorted first ten comms, each seen with its key before any event with a dropped one, and with the dropped number the exact distinct count |
| Summary.CountsAddUp | internal/report/summary.go:191-225 | the rows of each verdict sum to its tally, and the counts of the tally sum to the total |
| Summary.SummaryUniqueExactly | internal/report/summary.go:226-247 | the summary of a history is unique exactly when no two of its keys are ambiguous |
| Summary.TwoSummariesExample | internal/report/summary.go:243-246 | a history of two events with two different summaries |
| Collector.CountProcess | internal/report/summary.go:168-181 | the count and the process list of one destination after one event |
| Collector.Collector.Add | internal/report/summary.go:159-183 | the tallies stay those of the events added |
| Collector.Collector.Rows | internal/report/summary.go:202-215 | one row for each key, in any order of the table |
| Collector.Collector.SuggestedSet | internal/report/summary.go:216-225 | the candidates are the destinations that are not exempt |
| Collector.Collector.Summarize | internal/report/summary.go:191-255 | the result is a summary of the history, and the collector is unchanged |
| Collector.Filter | internal/report/summary.go:64-72 | the rows whose verdict qualifies, in their order |
| Collector.CountEvents | internal/report/summary.go:84-92 | the number of events whose verdict qualifies |
| Collector.VerdictCounts | internal/report/summary.go:98-116 | each verdict that occurs is listed once with its count, the known ones in their order, then the others alphabetically |
| Collector.CountsOfMeaning | internal/report/summary.go:98-116 | each verdict that occurs is listed once with its count |
| ScanLog.ScanOne | internal/report/parse.go:209-227 | one turn of the scan loop |
| ScanLog.ScanDelivered | internal/report/parse.go:209-227 | the loop: mode, malformed count and events are those of the lines, in order |
| ScanLog.ScanLog | internal/report/parse.go:206-232 | the collector receives exactly the parsed lines the reader delivers, in order |
| ScanLog.ReadsAll | internal/report/parse.go:33-35 | the lines are delivered in order up to the first of a mebibyte or more, all of them exactly when there is none |
| ScanLog.BytesByRange | internal/report/parse.go:33-35 | a rune has one to four bytes, by its range |
| LineText.QuotedMode | internal/report/parse.go:181-200 | a quoted mode of the startup line ends at the next quote |
| LineText.BareMode | internal/report/parse.go:181-200 | a bare one ends at the next blank or with the line |
| LineText.OpenMode | internal/report/parse.go:181-200 | a quote that is not closed leaves what follows it as the mode |
| LineText.NoMode | internal/report/parse.go:181-190 | no other line has a mode |
| LineText.LineEnds | internal/report/parse.go:207-210 | every line feed ends a line |
| LineText.LastLine | internal/report/parse.go:207-210 | what is left behind the last one is a line unless it is empty |
| LineText.ReturnDropped | internal/report/parse.go:207-210 | one carriage return in front of it belongs to the line's end |
| ScanLog.NoLineIsLost | internal/report/parse.go:206-232 | events delivered plus malformed is the number of verdict lines |
| EndToEnd.ScanItems | internal/report/parse.go:206-232 | a log of printed events and diagnostics delivers all events, none malformed, and the first mode |
| EndToEnd.SameReport | internal/report/summary.go:159-183 | the form of an address does not show in the report |
| EndToEnd.LogToReport | cmd/agent/report.go:94-104 | the summaries of what was scanned are the summaries of the events themselves |
| EndToEnd.AgentLineComesBack | internal/report/verdict.go:74-120 | a line the agent prints comes back exactly when its comm and its domain survive; no verdict it computes ever stands in the way |
| Escaping.AnnotationMessage | internal/report/render.go:150-155 | the three replacements in sequence are one per-character map |
| Escaping.AnnotationProperty | internal/report/render.go:157-162 | the five replacements in sequence are one per-character map |
| Escaping.AnnotationsAreSafe | internal/report/render.go:146-162 | no CR or LF is left, nor a colon or comma in properties, and a percent decoder restores the value |
| Escaping.MetaExactly | internal/report/render.go:133-144 | the metacharacters, listed |
| Escaping.MarkdownEscape | internal/report/render.go:133-144 | the loop computes the escaped text |
| Escaping.MarkdownRoundTrip | internal/report/render.go:128-144 | every metacharacter is escaped and removing the escapes restores the value |

## Left out

- Loading and attaching the programs, raw sockets, signals, flags and file reads: foreign calls, and with them the release order of partially built watchers.
- DNS wire decoding (`parseDNSResponse`): a response is its source, its name and its addresses.
- YAML decoding, `resolveMode` and the level and format switches: single-branch facts.
- The IPv6 text form and the printable-rune table: parameters with a contract, for which `PlainLib` gives one instance.
- Case folding beyond ASCII, and `parseResolvConf`: the nameserver lists are taken as parsed.
- Time between a cache entry and its trie write: a response is one step, so the run theorems speak of response boundaries.
- Fullness of the ring buffers and the choice of evicted entries: inputs of the steps, so every choice is covered.
- Aliasing: the aggregates of the collector, the engine and the summary are values, so the defensive copies of `IPs`, `CIDRs` and `Summary` have nothing to protect against here.
- `ScanLog` with a callback that fails, and the raw renderers: `Collector.Add` never fails.
- The byte length of a line counts an invalid byte as the three bytes of U+FFFD.
- The algorithm of `sort.Slice`: an insertion sort stands for it, and `UniqueExactly` says when another gives the same result.
- The rate limit of warnings about malformed records in `Read`, and the count of seeded nameservers: they only affect diagnostics.
- The text, CSV, JSON and Markdown layouts.
- Collector.VerdictCounts: sorts the unknown verdicts before pairing them with their counts, where the code sorts the pairs; the result is the same, and one method stands for both loops.
