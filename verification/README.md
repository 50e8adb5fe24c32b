# NetGuardia: a verified model

NetGuardia filters packets with eBPF programs, detects attacks from flow observations, blocks
addresses automatically and keeps an audit trail. This project models the parts of it that make
promises about every input or every run, and proves those promises.

Text and wire formats, tables, queues and kernel maps are ordinary values. Objects that the program
updates in place are classes whose methods are specified by functions on their abstract value; the
properties over whole runs are proved about those functions. Clocks, database faults, queue
acceptance, the hash function and the square root are parameters.

| file | models |
|---|---|
| `Basics.dfy`, `Utf8.dfy` | bytes, results, ASCII text, well-formed UTF-8 |
| `DnsCodec.dfy` | domain text to length-prefixed wire form and back |
| `DnsFilter.dfy` | the query name in a raw frame, and the blacklist with its parent walk |
| `PacketParsers.dfy` | the kernel and the user-space packet parser |
| `SoarOwnership.dfy` | automatic blocks and manual rules sharing ACL rows |
| `TelegramLimiter.dfy` | the lock-free message limiter, step by step |
| `KernelRateLimit.dfy` | the fixed-window packet counters |
| `LoginLockout.dfy` | failed logins and the lock |
| `AuditChain.dfy` | the hash-chained audit log |
| `Correlation.dfy` | scan, botnet and lateral-movement windows |
| `Fusion.dfy` | fusing and deduplicating detections |
| `Beaconing.dfy` | the one-pass variation measure and the beaconing detector |
| `AccessControl.dfy` | the port arrays behind the ACL maps |
| `FrameOwnership.dfy` | AF_XDP frames moving between queues and pool |
| `LiveLog.dfy` | the log ring, its polling cursor and message truncation |
| `GeoBlock.dfy` | country blocking: trie rebuild and database rollback |

## What the proofs found

Six properties one might expect do not hold of the code as it is. Each has a lemma with a concrete
run, and a lemma that says exactly when the property does hold, in terms of what is known before the
call.

- Unblocking one SOAR block twice can delete a manual rule (`SecondUnblockDeletesManualRule`). With
  the preserve flag set, manual rows survive a run exactly when no step unblocks an already unblocked
  block that still owns its row while no other block of the address is active and, for a sweep, no
  manual rule is seen (`ManualRowsSurviveExactly`).
- A block committed while only expired blocks stand on the row does not own it, so the row can
  outlive them all (`ExpiredBlockLeaksRow`). On an address without manual rules, the row is safe from
  leaking at each point of a run exactly when each commit finds the row absent or an active owner of
  it (`RowIsLeakproofExactly`).
- Capacity eviction forgets a correlation cooldown, with a legal cap of one entry
  (`Correlation.EvictionBreaksSpacing`). Expiry never does. A cleanup leaves the spacing of alerts
  safe, whichever entries it evicts, exactly when the unexpired entries are within the cap or none of
  them is cooling down (`AnyCleanIsSafeExactly`, over runs `SpacingNeedsRoomExactly`).
- Expiry does forget a beaconing cooldown, because it counts from the last packet rather than from
  the alert: under the default settings a flow alerts 30 s after its last alert although the cooldown
  is 300 s (`ExpiryForgetsCooldown`). A cleanup leaves a key's cooldown safe, whichever flows it
  evicts, exactly when the key is not cooling down, or its last packet is within the expiry and the
  unexpired flows are within the cap (`AnyCleanupIsSafeExactly`, over runs
  `CooldownNeedsRoomExactly`).
- A full deduplication cache forgets a live incident, so its key opens another too soon
  (`EvictionBreaksIncidentSpacing`). A detection leaves incidents safe, whichever entry is evicted
  for it, exactly when its key is cached, the cache has room, or no incident in it is live
  (`AnyHandleIsSafeExactly`, over runs `IncidentsNeedRoomExactly`).
- The live log's `dropped_oldest` can be raised when nothing was lost (`FlagRaisesFalseAlarm`) and
  stay down when a matching entry was overwritten unseen (`FlagMissesLoss`). It is right for polls of
  every level from a non-zero cursor, and for no others (`FlagIsRightExactly`).

Three bounds are sharper than the obvious ones: a rate counter passes at most 2 × limit − 1 packets
of a source in a window's length, and for windows of more than one nanosecond it can reach that
number exactly when no counter met before it has a smaller limit (`BoundIsReachedExactly`); a fused
key has at most 7 emissions in a deduplication window rather than 8; and the square of the
coefficient of variation is at most the number of intervals less one.

## Model

| member | source | states |
|---|---|---|
| `DnsCodec.DomainToWire` | net-guardia/src/core/data_plane/dns_filter.rs:238-265 | the array-writing loop yields the zero-padded wire form of the canonical labels, or the error of the first label that is empty, malformed or does not fit |
| `DnsCodec.EncodeLoopIsEncode` | net-guardia/src/core/data_plane/dns_filter.rs:243-264 | from any partly written name, the byte loop ends with the name of all the labels, or with the first error |
| `DnsCodec.FirstError` | net-guardia/src/core/data_plane/dns_filter.rs:243-271 | no error exactly when every label is a host label and all fit with the terminator in 128 bytes |
| `DnsCodec.WirePrefixFree` | net-guardia/src/core/data_plane/dns_filter.rs:238-265 | the label code is prefix-free: whatever follows the terminators, equal bytes mean equal labels |
| `DnsCodec.NameInjective` | net-guardia/src/core/data_plane/dns_filter.rs:238-265 | two label lists with the same 128-byte array are the same |
| `DnsCodec.WireToDomain` | net-guardia/src/core/data_plane/dns_filter.rs:273-298 | the reading loop computes the dotted text of the stored labels, or nothing where the bytes are malformed, not UTF-8 or empty |
| `DnsCodec.ReadBack` | net-guardia/src/core/data_plane/dns_filter.rs:273-298 | from any label boundary, reading a stored name yields exactly its remaining labels |
| `DnsCodec.DecodeEncode` | net-guardia/src/core/data_plane/dns_filter.rs:238-298 | decoding the wire form of a valid domain gives it trimmed, dot-stripped and in lower case |
| `DnsCodec.CanonicalFixed` | net-guardia/src/core/data_plane/dns_filter_service.rs:122-124 | canonicalising a valid domain twice changes nothing more |
| `DnsCodec.EncodeDecode` | net-guardia/src/core/data_plane/dns_filter.rs:36-57 | encoding the listed form of a domain gives the same 128 bytes as the domain |
| `DnsCodec.EncodeInjective` | net-guardia/src/core/data_plane/dns_filter.rs:238-265 | two valid domains share their stored name exactly when their canonical texts are equal |
| `DnsCodec.EncodeIgnoresDress` | net-guardia/src/core/data_plane/dns_filter.rs:238-241 | spaces around a domain, dots after it and the case of its letters do not change its name |
| `DnsCodec.EncodesExactly` | net-guardia/src/core/data_plane/dns_filter.rs:243-271 | a domain encodes exactly when its canonical text has at most 126 characters and labels of one to 63 letters, digits and inner hyphens |
| `DnsCodec.FirstErrorMeans` | net-guardia/src/core/data_plane/dns_filter.rs:243-264 | the error names the first label that is no good or no longer fits, and which of the two |
| `AsciiText.TrimDrops` | net-guardia/src/core/data_plane/dns_filter.rs:238-241 | trimming drops exactly the white space around a text |
| `AsciiText.StripDotsDrops` | net-guardia/src/core/data_plane/dns_filter.rs:238-241 | stripping drops exactly the dots after a text |
| `Utf8.CharLengthExactly` | net-guardia/src/core/data_plane/dns_filter.rs:288-291 | a character stands at the head of the bytes exactly when they spell a code point in the shortest form |
| `DnsFilter.UdpInIpExactly` | net-guardia/src/core/data_plane/dns_filter.rs:101-140 | byte by byte, for IPv4 and IPv6: which frames hold UDP, where its header is and where the packet ends |
| `DnsFilter.QueryRegionExact` | net-guardia/src/core/data_plane/dns_filter.rs:101-176 | a region is found exactly when the bytes spell an IP packet of either version with a whole UDP datagram to port 53, the query bit clear and a question, and it is what follows the DNS header |
| `DnsFilter.ReadQnameExact` | net-guardia/src/core/data_plane/dns_filter.rs:178-210 | the label loop returns a list exactly when the frame spells it there, within the label count and the name size |
| `DnsFilter.QueryNameExact` | net-guardia/src/core/data_plane/dns_filter.rs:101-211 | a query name is parsed exactly when the query region spells it in at most 31 labels that fit the 128-byte name |
| `DnsFilter.QueryNameFits` | net-guardia/src/core/data_plane/dns_filter.rs:178-210 | a parsed name, and its lower-case form of the same length, fits the stored array |
| `DnsFilter.QnameLoopReads` | net-guardia/src/core/data_plane/dns_filter.rs:178-210 | from any partly written name, the byte loop writes the lower-cased labels and their length |
| `DnsFilter.ParseLabels` | net-guardia/src/core/data_plane/dns_filter.rs:178-210 | every access in range, the loop returns the padded lower-case name and its length exactly when labels can be read |
| `DnsFilter.ParseQueryName` | net-guardia/src/core/data_plane/dns_filter.rs:101-211 | the frame's name in lower case with its length, exactly when the frame has one |
| `DnsFilter.ListedExactly` | net-guardia/src/core/data_plane/dns_filter.rs:66-72 | a name is in the set exactly when a listed domain has these labels |
| `DnsFilter.WalkIsLabelwise` | net-guardia/src/core/data_plane/dns_filter.rs:66-99 | the byte walk from a label boundary finds an entry exactly when a later label suffix is listed |
| `DnsFilter.WalkExact` | net-guardia/src/core/data_plane/dns_filter.rs:66-99 | the lookup and the walk succeed exactly when some non-empty label suffix is listed |
| `DnsFilter.DnsFilter.IsBlacklisted` | net-guardia/src/core/data_plane/dns_filter.rs:66-99 | for any 128 bytes and a length within them the walk terminates in range and finds the name or a stored parent; for a longer length, exactly when the source's slice is out of range |
| `DnsFilter.DnsFilter.IsQueryBlacklisted` | net-guardia/src/core/data_plane/dns_filter.rs:59-64 | a frame is blacklisted exactly when it carries a query name some label suffix of whose lower-case form is a listed domain |
| `DnsFilter.DnsFilter.AddDomain` | net-guardia/src/core/data_plane/dns_filter.rs:36-40 | adds exactly the domain's name, or fails with the encoder's error and changes nothing |
| `DnsFilter.DnsFilter.RemoveDomain` | net-guardia/src/core/data_plane/dns_filter.rs:46-50 | removes exactly the domain's name, or fails with the encoder's error and changes nothing |
| `DnsFilter.DnsFilter.ListDomains` | net-guardia/src/core/data_plane/dns_filter.rs:52-57 | lists canonical texts, none twice, that encode to exactly the blacklist |
| `DnsFilter.DnsFilter.Restore` | net-guardia/src/core/data_plane/dns_filter_service.rs:29-42 | adds the names of all valid rows and skips the others |
| `DnsFilter.ListOneMore` | net-guardia/src/core/data_plane/dns_filter.rs:52-57 | the text of a name not yet listed is new: texts and names stay one to one |
| `DnsFilter.ListingIsUnique` | net-guardia/src/core/data_plane/dns_filter.rs:52-57 | two listings of one blacklist hold the same texts |
| `DnsFilter.RestoreRebuilds` | net-guardia/src/core/data_plane/dns_filter_service.rs:29-42 | restoring a listing, in any order, rebuilds exactly the blacklist it was taken from |
| `PacketParsers.KernelParseExactly` | net-guardia-abi/src/ebpf/parsing.rs:13-186 | for every frame and packet, byte by byte: the kernel reports the packet exactly when the bytes lay it out, with version, protocol, addresses, lengths, ports, flags and data offset |
| `PacketParsers.UserParseExactly` | net-guardia/src/common/utils/packet_parser.rs:10-184 | the same for user space, with the window size and where the payload begins |
| `PacketParsers.ParsedPacket.Parse` | net-guardia-abi/src/ebpf/parsing.rs:13-99 | the field-writing parser accepts what the functional one does, stores its facts and leaves the address bytes beyond an IPv4 address alone |
| `PacketParsers.TransportsAgree` | net-guardia-abi/src/ebpf/parsing.rs:122-186 | both read the same TCP and UDP headers from the same bytes |
| `PacketParsers.Ipv4Agree` | net-guardia/src/common/utils/packet_parser.rs:24-104 | user space accepts an IPv4 frame exactly when the kernel does, it is TCP or UDP and the frame is complete; the facts agree |
| `PacketParsers.Ipv6Agree` | net-guardia/src/common/utils/packet_parser.rs:106-184 | the same for IPv6, where user space also checks the version nibble |
| `PacketParsers.UserIffKernel` | net-guardia/src/common/utils/packet_parser.rs:10-22 | for every frame, user space accepts exactly when the kernel accepts, it is TCP or UDP, the frame is complete and the nibble matches; then version, protocol, addresses, ports, flags and lengths agree |
| `PacketParsers.DnsQueryIsUdpToPort53` | net-guardia/src/core/data_plane/dns_filter.rs:101-173 | a frame with a DNS query region is accepted in user space exactly when its version nibble is right, then as UDP to port 53 with the query inside its payload |
| `PacketParsers.UdpToPort53IsDnsQuery` | net-guardia/src/core/data_plane/dns_filter.rs:101-176 | the other way, for both IP versions: the query region is, exactly, the payload after the DNS header of a UDP packet to port 53 whose payload is a DNS query |
| `PacketParsers.BothAcceptDnsQuery` | net-guardia/src/core/data_plane/dns_filter.rs:101-211 | a frame with a query name and the right nibble is UDP to port 53 for both parsers |
| `SoarOwnership.Database.CommitSoarBlock` | net-guardia/src/adapter/persistence/soar_block.rs:158-202 | inserts the row and records whether this block created it and whether it must be preserved |
| `SoarOwnership.Database.CommitSoarUnblock` | net-guardia/src/adapter/persistence/soar_block.rs:204-244 | marks the block and deletes the row only if owned and not held by another active block; fails for an unknown id |
| `SoarOwnership.Database.MarkSoarBlockUnblocked` | net-guardia/src/adapter/persistence/soar_block.rs:62-72 | marks the block and touches nothing else |
| `SoarOwnership.Database.InsertAclRule` | net-guardia/src/adapter/persistence/acl.rs:16-48 | inserts the row and, with the flag, preserves it in every block of the address that is not unblocked |
| `SoarOwnership.Database.DeleteAclRule` | net-guardia/src/adapter/persistence/acl.rs:50-71 | deletes exactly that row |
| `SoarOwnership.UnblockDeletesManual` | net-guardia/src/adapter/persistence/soar_block.rs:204-244 | the exact condition under which an unblock deletes a manual row |
| `SoarOwnership.ManualSafeStep` | net-guardia/src/adapter/persistence/soar_block.rs:158-244 | every step keeps the ownership invariant when manual inserts set the flag and no block is unblocked twice |
| `SoarOwnership.ManualRowsSurvive` | net-guardia/src/core/data_plane/acl_service.rs:255-257 | in every such run no manual row that was not manually removed is missing |
| `SoarOwnership.StepDeletesManual` | net-guardia/src/core/response/scheduler.rs:53-68 | for every operation, sweeps included, the exact condition under which it deletes a manual row |
| `SoarOwnership.ManualRowsSurviveExactly` | net-guardia/src/adapter/persistence/soar_block.rs:158-244 | over every run with the flag set, manual rows are there at each point exactly when no step meets that condition |
| `SoarOwnership.EnforcedStep` | net-guardia/src/adapter/persistence/soar_block.rs:158-244 | every step without a manual delete of the row keeps active blocks enforced |
| `SoarOwnership.ActiveBlocksEnforced` | net-guardia/src/adapter/persistence/soar_block.rs:158-244 | in every such run with a non-decreasing clock, each block neither unblocked nor expired has its row |
| `SoarOwnership.BlockPersists` | net-guardia/src/adapter/persistence/soar_block.rs:62-72 | over every run a block keeps its address and expiry, and is unblocked by its own unblocks and nothing else |
| `SoarOwnership.CommittedBlockIsActive` | net-guardia/src/adapter/persistence/soar_block.rs:188-192 | a block committed for an address until an expiry is, after any operations, active at a time exactly when that is before the expiry and it has not been unblocked |
| `SoarOwnership.CommittedRowStays` | net-guardia/src/adapter/persistence/soar_block.rs:158-244 | after a commit the row is there at every time before the expiry at which the block has not been unblocked and the row not deleted by hand |
| `SoarOwnership.UnblockKeepsOwned` | net-guardia/src/adapter/persistence/soar_block.rs:204-244 | an unblock hands the row to a remaining owner or removes it |
| `SoarOwnership.SoarOwnedStep` | net-guardia/src/adapter/persistence/soar_block.rs:158-244 | every step keeps an address without manual rules owned by its blocks |
| `SoarOwnership.LastUnblockRemovesRow` | net-guardia/src/adapter/persistence/soar_block.rs:158-244 | in every run whose commits own the row, it is gone once the last block of the address is unblocked |
| `SoarOwnership.NoneExpiredOwns` | net-guardia/src/adapter/persistence/soar_block.rs:170-189 | a commit owns the row whenever the expired blocks of the address were unblocked before it |
| `SoarOwnership.CommitOwnsExactly` | net-guardia/src/adapter/persistence/soar_block.rs:170-189 | a commit leaves every pending block an owner exactly when the row is absent or an active owner exists |
| `SoarOwnership.LastUnblockExactly` | net-guardia/src/adapter/persistence/soar_block.rs:204-244 | unblocking the last pending block removes the row exactly when that block owns it |
| `SoarOwnership.LeakingRun` | net-guardia/src/core/response/scheduler.rs:53-68 | with a pending block that does not own the row, sweeping the expired others and unblocking it leaves the row behind |
| `SoarOwnership.CommitIsLeakproofExactly` | net-guardia/src/adapter/persistence/soar_block.rs:158-202 | after a commit no continuation leaks the row exactly when the commit owns it |
| `SoarOwnership.RowIsLeakproofExactly` | net-guardia/src/adapter/persistence/soar_block.rs:158-244 | over every run on a SOAR-only address the row is safe from leaking at each point exactly when each commit owns it |
| `SoarOwnership.SecondUnblockDeletesManualRule` | net-guardia/src/core/response/playbook_service.rs:87-96 | a run in which unblocking twice deletes a manual rule |
| `SoarOwnership.ExpiredBlockLeaksRow` | net-guardia/src/core/response/scheduler.rs:53-68 | a run in which an expired block leaves its row behind |
| `TelegramLimiter.Pack` | net-guardia/src/adapter/telegram.rs:79-112 | window start and count are recovered from the packed word |
| `TelegramLimiter.Decide` | net-guardia/src/adapter/telegram.rs:79-112 | refuses exactly in a full running window; otherwise the next word counts one more within the maximum, or opens a window at least window_secs later |
| `TelegramLimiter.RateState.CheckRateLimit` | net-guardia/src/adapter/telegram.rs:79-112 | alone, and for any number of spurious failures, the loop admits and updates as one decision |
| `TelegramLimiter.InvStep` | net-guardia/src/adapter/telegram.rs:79-112 | any load or exchange by any caller with any clock keeps the counting invariant and never lowers the window start |
| `TelegramLimiter.AdmissionsAreBounded` | net-guardia/src/adapter/telegram.rs:79-112 | in every interleaving: at most max_messages admissions per window start, starts never decrease and successive ones are window_secs apart |
| `TelegramLimiter.FailedExchangeWasOvertaken` | net-guardia/src/adapter/telegram.rs:79-112 | a compare-exchange that fails for a changed word was overtaken by another caller's admission: the loop is lock-free |
| `KernelRateLimit.RateLimiter.CheckRate` | ingress-ebpf/src/action/rate_limit.rs:55-76 | updates exactly the one counter as the window rule says and reports an excess |
| `KernelRateLimit.RateLimiter.ShouldDrop` | ingress-ebpf/src/action/rate_limit.rs:79-132 | runs the counters in order and stops at the first excess |
| `KernelRateLimit.FilterTouches` | ingress-ebpf/src/action/rate_limit.rs:79-132 | the composition ticks a counter of a source exactly when a packet of that source reaches it, and drops for it exactly on its excess |
| `KernelRateLimit.TickExplained` | ingress-ebpf/src/action/rate_limit.rs:55-76 | one tick keeps the invariant that accounts for the packets passed so far |
| `KernelRateLimit.TwiceTheLimit` | ingress-ebpf/src/action/rate_limit.rs:41-132 | from any accounted state, what has passed and what will pass in a window-long interval stays below twice the limit |
| `KernelRateLimit.RateIsBounded` | ingress-ebpf/src/action/rate_limit.rs:41-132 | over every run with a non-decreasing clock, any window-long interval has at most 2 × limit − 1 packets of a source passing a counter, and no more are accepted |
| `KernelRateLimit.RatesAreKept` | ingress-ebpf/src/action/rate_limit.rs:41-132 | the same by the name of each configured rate and window, or its default |
| `KernelRateLimit.RateIsGranted` | ingress-ebpf/src/action/rate_limit.rs:41-132 | with no smaller rate before it, a counter grants a whole configured rate at once |
| `KernelRateLimit.SynOnlyBits` | ingress-ebpf/src/action/rate_limit.rs:50-53 | a connection attempt is TCP with the SYN bit set and the ACK bit clear |
| `KernelRateLimit.BoundIsReached` | ingress-ebpf/src/action/rate_limit.rs:55-76 | for each counter whose limit is not above those met before it, every limit and every window of more than one nanosecond, a run that reaches the bound |
| `KernelRateLimit.PassedBefore` | ingress-ebpf/src/action/rate_limit.rs:79-132 | what passes a counter has passed those that look at all its packets before it |
| `KernelRateLimit.BoundIsReachedExactly` | ingress-ebpf/src/action/rate_limit.rs:79-132 | some run reaches a counter's bound exactly when no counter met before it has a smaller limit |
| `KernelRateLimit.OneInstantWindow` | ingress-ebpf/src/action/rate_limit.rs:55-76 | with a window of one nanosecond the bound is the limit itself |
| `LoginLockout.AuthStore.GetRemainingLockSecs` | net-guardia/src/adapter/persistence/user.rs:439-469 | the remaining seconds exactly while the lock has not expired |
| `LoginLockout.AuthStore.ClearExpiredLoginLock` | net-guardia/src/adapter/persistence/user.rs:471-486 | deletes the row exactly when its lock has expired |
| `LoginLockout.AuthStore.RecordLoginFailure` | net-guardia/src/adapter/persistence/user.rs:401-437 | counts one failure and locks at the maximum |
| `LoginLockout.AuthStore.ClearLoginFailures` | net-guardia/src/adapter/persistence/user.rs:488-496 | deletes the row of the user |
| `LoginLockout.AuthStore.Login` | net-guardia/src/core/identity/auth_service.rs:35-96 | a right password, and only that, logs in; a wrong one is refused; a lock answers first with the time left; database faults answer as errors |
| `LoginLockout.RowsAreStreaks` | net-guardia/src/adapter/persistence/user.rs:401-496 | after every history the row of a user holds the number of failures since its last accepted password or expired lock, and from the fifth a lock for 900 s |
| `LoginLockout.AnswersFollowHistory` | net-guardia/src/core/identity/auth_service.rs:35-96 | after every history an attempt is locked out exactly when five such failures stand and the last is less than 900 s old; otherwise the password decides |
| `LoginLockout.AttemptExplained` | net-guardia/src/core/identity/auth_service.rs:35-96 | one attempt keeps the invariant that accounts for the failures recorded in the interval |
| `LoginLockout.FailuresAreBounded` | net-guardia/src/core/identity/auth_service.rs:35-96 | from any accounted state, failures so far and to come stay within the maximum |
| `LoginLockout.LockoutBound` | net-guardia/src/core/identity/auth_service.rs:35-96 | in every run, an interval of LOGIN_LOCKOUT_SECS in which no row of the user is cleared by a success has at most LOGIN_MAX_FAILURES recorded failures |
| `LoginLockout.NoLoginWhileLocked` | net-guardia/src/core/identity/auth_service.rs:35-60 | while a lock has not expired every attempt is refused and the row stays as it is |
| `AuditChain.EncodeInjective` | net-guardia/src/adapter/persistence/audit.rs:14-21 | the length-prefixed encoding of the fields is injective |
| `AuditChain.BigEndianInjective` | net-guardia/src/adapter/persistence/audit.rs:14-21 | equal eight-byte lengths are equal numbers |
| `AuditChain.AuditRowHash` | net-guardia/src/adapter/persistence/audit.rs:14-21 | the folding loop hashes the concatenated encoding |
| `AuditChain.FirstDefect` | net-guardia/src/adapter/persistence/audit.rs:103-153 | no defect exactly when every row links to the one before and hashes to its stored hash |
| `AuditChain.AuditLog.InsertAuditLog` | net-guardia/src/adapter/persistence/audit.rs:44-69 | appends one row linked to the last, so a linked log stays linked |
| `AuditChain.AuditLog.VerifyChain` | net-guardia/src/adapter/persistence/audit.rs:103-153 | succeeds exactly when the checkpoint exists and the rows after it are linked, with their number and last id; otherwise names the first defect |
| `AuditChain.WalkRows` | net-guardia/src/adapter/persistence/audit.rs:126-150 | the loop reports the first defect, or the count and the last id |
| `AuditChain.LinkedAppend` | net-guardia/src/adapter/persistence/audit.rs:103-153 | verifying in two parts from a checkpoint is verifying the whole |
| `AuditChain.LinkedExactly` | net-guardia/src/adapter/persistence/audit.rs:126-150 | a log is linked exactly when each row names the hash before it and carries the hash of its five fields |
| `AuditChain.FirstDefectMeans` | net-guardia/src/adapter/persistence/audit.rs:126-150 | all before the reported defect is linked, and it says which link is broken |
| `AuditChain.BigEndianSpells` | net-guardia/src/adapter/persistence/audit.rs:14-21 | the length bytes spell the length, most significant first |
| `AuditChain.SameHeadSameLog` | net-guardia/src/adapter/persistence/audit.rs:103-153 | two verified logs with the same last hash agree in length and contents, or the lemma yields a hash collision or an empty digest |
| `Correlation.Detector.Process` | net-guardia/src/core/correlation/scan.rs:40-103 | the window and cooldown machine on the key and item of the detector's kind; unrelated flows change nothing |
| `Correlation.Detector.Cleanup` | net-guardia/src/core/correlation/correlation_cleanup.rs:6-26 | drops the expired entries and just enough others to meet the cap, and reports how many |
| `Correlation.ObservedKey` | net-guardia/src/core/correlation/botnet.rs:46-114 | a step alerts with at least the needed items and only a full window after the key's last alert |
| `Correlation.ObserveEntries` | net-guardia/src/core/correlation/scan.rs:40-103 | every step keeps each entry's last alert at or before its window start, its items few and seen within the window |
| `Correlation.CleanStep` | net-guardia/src/core/correlation/correlation_cleanup.rs:6-26 | expiry never forgets a live cooldown |
| `Correlation.AlertsSpacedAndWitnessed` | net-guardia/src/core/correlation/lateral.rs:40-113 | over every run whose evictions spare live cooldowns, alerts of a key are a window apart and each has exactly the needed number of distinct items seen within less than a window |
| `Correlation.Collects` | net-guardia/src/core/correlation/scan.rs:54-62 | until a window is full its entry holds exactly the items observed since it began, whatever other keys and sparing cleanups do |
| `Correlation.AlertsExactlyWhenFilled` | net-guardia/src/core/correlation/scan.rs:40-103 | for a key with no window and no cooldown running, observations less than a window after the first raise an alert exactly at the one that completes the needed number of distinct items |
| `Correlation.WindowMovesExactly` | net-guardia/src/core/correlation/scan.rs:54-75 | a window's start moves exactly when an observation finds it a window old or fills it |
| `Correlation.UnexpiredExactly` | net-guardia/src/core/correlation/correlation_cleanup.rs:12-16 | a cleanup keeps an entry exactly until its window has passed |
| `Correlation.PortsOfOneSourceAreAScan` | net-guardia/src/core/correlation/scan.rs:40-103 | enough different ports touched by one source within a window are one alert |
| `Correlation.SourcesOfOneServiceAreABotnet` | net-guardia/src/core/correlation/botnet.rs:46-127 | enough different sources of one host, protocol and port within a window are one alert |
| `Correlation.HostsOfOneSourceAreLateral` | net-guardia/src/core/correlation/lateral.rs:40-113 | enough different internal hosts reached by one internal host within a window are one alert |
| `Correlation.OutsideFlowsAreNotLateral` | net-guardia/src/core/correlation/lateral.rs:40-50 | flows that leave or enter the network are skipped |
| `Correlation.CleanForgetsExactly` | net-guardia/src/core/correlation/correlation_cleanup.rs:6-26 | a cleanup forgets a cooling key exactly when it evicts it |
| `Correlation.BurstAlerts` | net-guardia/src/core/correlation/scan.rs:40-103 | a key without an entry alerts once as many distinct items as needed are seen |
| `Correlation.EvictionIsBreakable` | net-guardia/src/core/correlation/correlation_cleanup.rs:16-25 | after a live cooldown is evicted, the items of the alert before, seen again, alert inside the window |
| `Correlation.CleanIsSafeExactly` | net-guardia/src/core/correlation/correlation_cleanup.rs:6-26 | after a cleanup spacing holds in every continuation that spares cooldowns exactly when the cleanup evicts none |
| `Correlation.SpacingIsSafeExactly` | net-guardia/src/core/correlation/botnet.rs:46-118 | over every run, spacing is safe at each point exactly when no cleanup evicts a live cooldown |
| `Correlation.AnyCleanIsSafeExactly` | net-guardia/src/core/correlation/correlation_cleanup.rs:14-25 | a cleanup is safe whichever entries it evicts exactly when, before it, the unexpired entries are within the cap or none is cooling down |
| `Correlation.SpacingNeedsRoomExactly` | net-guardia/src/core/correlation/correlation_cleanup.rs:6-26 | over every run each cleanup is so safe exactly when that holds before each, and then alerts are spaced |
| `Correlation.EvictionBreaksSpacing` | net-guardia/src/core/correlation/correlation_cleanup.rs:16-25 | with a cap of one and two keys, a run in which eviction lets a key alert twice in a window |
| `Fusion.Orchestrator.HandleDetection` | net-guardia/src/core/detection/orchestrator.rs:107-206 | one detection opens, joins or repeats an incident of its key and emits the source list exactly then; at most one other key is evicted, only at capacity |
| `Fusion.Orchestrator.CleanupExpired` | net-guardia/src/core/detection/orchestrator.rs:304-320 | keeps exactly the incidents inside the deduplication window |
| `Fusion.RaiseConfidence` | net-guardia/src/core/detection/orchestrator.rs:107-188 | the scan raises the first sample of the source, never lowers it |
| `Fusion.HandleSummarizes` | net-guardia/src/core/detection/orchestrator.rs:107-206 | after each detection the sample list has each reporting source once with its maximum confidence |
| `Fusion.EmissionIsExact` | net-guardia/src/core/detection/orchestrator.rs:107-206 | an emission happens exactly for a new incident or a source new to it inside its fusion window, and carries that summary |
| `Fusion.FusionLasts` | net-guardia/src/domain/detection/fusion_math.rs:30-52 | an incident is open to other sources for 10, 8, 5 or 2 s, by the source that opened it |
| `Fusion.HandleCounts` | net-guardia/src/core/detection/orchestrator.rs:107-206 | a detection adds a source to its incident exactly when it is emitted |
| `Fusion.OneEmissionPerSource` | net-guardia/src/core/detection/orchestrator.rs:107-206 | over every run, whatever is evicted, each emission lists each source reported in its incident's fusion window once with its maximum confidence, and each incident is emitted once for each distinct source |
| `Fusion.SpacedStep` | net-guardia/src/core/detection/orchestrator.rs:107-206 | every step keeps incidents of a key a deduplication window apart |
| `Fusion.HandleExplained` | net-guardia/src/core/detection/orchestrator.rs:107-206 | one detection keeps the invariant that accounts for the emissions in the interval |
| `Fusion.IncidentsSpacedEmissionsBounded` | net-guardia/src/core/detection/orchestrator.rs:107-206 | from any accounted state, every run keeps incidents spaced, entries sound and emissions bounded |
| `Fusion.FusionIsBounded` | net-guardia/src/core/detection/orchestrator.rs:107-206 | from the start, over every run whose evictions spare live incidents: incidents spaced, one emission for each of their sources, and at most 7 emissions of a key in a deduplication-window-long interval |
| `Fusion.EvictionIsBreakable` | net-guardia/src/core/detection/orchestrator.rs:162-186 | once a live incident is evicted, the next detection of its key opens another too soon |
| `Fusion.HandleIsSafeExactly` | net-guardia/src/core/detection/orchestrator.rs:162-186 | for a known victim a detection leaves incidents safe exactly when the victim is not live |
| `Fusion.AnyHandleIsSafeExactly` | net-guardia/src/core/detection/orchestrator.rs:162-186 | a detection is safe whichever entry is evicted for it exactly when, before it, its key is cached, the cache has room, or no incident in it is live |
| `Fusion.IncidentsNeedRoomExactly` | net-guardia/src/core/detection/orchestrator.rs:107-206 | over every run each detection is so safe exactly when that holds before each, and then no eviction takes a live incident |
| `Fusion.EvictionBreaksIncidentSpacing` | net-guardia/src/core/detection/orchestrator.rs:162-186 | with a capacity of one and two keys, a run in which an eviction lets a key open two incidents too close |
| `Statistics.OnePassVariance` | net-guardia/src/core/detection/beaconing.rs:214-230 | the one-pass form equals the mean squared deviation, so the clamp at zero never acts |
| `Statistics.ZeroVarianceExactly` | net-guardia/src/core/detection/beaconing.rs:230-233 | the variance is zero exactly when all intervals are equal |
| `Statistics.VarianceBounded` | net-guardia/src/core/detection/beaconing.rs:214-230 | of n non-negative intervals, at most n − 1 times the squared mean |
| `Beaconing.ComputeCv` | net-guardia/src/core/detection/beaconing.rs:209-234 | the accumulator loop computes the coefficient of variation by its definition, `f64::MAX` where there is none |
| `Beaconing.Accumulate` | net-guardia/src/core/detection/beaconing.rs:214-222 | the loop sums the successive intervals and their squares |
| `Beaconing.CvMeaning` | net-guardia/src/core/detection/beaconing.rs:209-234 | with a positive mean it is never negative, zero exactly for equal intervals, and its square at most the intervals less one |
| `Beaconing.ConfidenceInRange` | net-guardia/src/core/detection/beaconing.rs:150-169 | every emitted confidence lies in (0.5, 1] and is 1 exactly for perfectly regular flows |
| `Beaconing.RipeExactly` | net-guardia/src/core/detection/beaconing.rs:142-153 | without the square root: a flow alerts exactly when it has two packets and the configured number, has been quiet for the cooldown, and its variance is below the squared threshold times the squared mean |
| `Beaconing.FlowHoldsItsPackets` | net-guardia/src/core/detection/beaconing.rs:113-133 | a flow that is not forgotten holds its last packets, as many as the cap allows |
| `Beaconing.BeaconingState.RecordFlow` | net-guardia/src/core/detection/beaconing.rs:113-133 | appends the instant and keeps the latest of them, up to the cap |
| `Beaconing.BeaconingState.Analyze` | net-guardia/src/core/detection/beaconing.rs:135-186 | one event with its confidence for each ripe flow and no other, whose cooldown starts; nothing else changes |
| `Beaconing.BeaconingState.Examine` | net-guardia/src/core/detection/beaconing.rs:142-153 | a flow is reported exactly when it has enough instants, is not cooling down and varies less than the threshold |
| `Beaconing.BeaconingState.Cleanup` | net-guardia/src/core/detection/beaconing.rs:188-206 | drops the expired flows and others only down to the cap |
| `Beaconing.KeyIsAlone` | net-guardia/src/core/detection/beaconing.rs:188-206 | a step changes a key as if it were alone, and a cleanup forgets it exactly when it is evicted or its last packet is too old |
| `Beaconing.HistoryOfKey` | net-guardia/src/core/detection/beaconing.rs:135-206 | the alerts of a key in a run depend on that key's flow alone |
| `Beaconing.AlertsAreSpaced` | net-guardia/src/core/detection/beaconing.rs:145-149 | in every run with a forward clock whose cleanups forget no cooling key, its alerts are a cooldown apart |
| `Beaconing.ForgottenIsBreakable` | net-guardia/src/core/detection/beaconing.rs:135-206 | a key forgotten during its cooldown alerts inside it when enough regular packets follow |
| `Beaconing.CleanupIsSafeExactly` | net-guardia/src/core/detection/beaconing.rs:188-206 | after a cleanup the cooldown holds in every continuation that spares it exactly when the cleanup does not forget the key during it |
| `Beaconing.CooldownIsSafeExactly` | net-guardia/src/core/detection/beaconing.rs:135-206 | over every run the cooldown is safe at each point exactly when no cleanup evicts the key or finds its last packet too old while it cools down |
| `Beaconing.AnyCleanupIsSafeExactly` | net-guardia/src/core/detection/beaconing.rs:188-206 | a cleanup is safe for a key whichever flows it evicts exactly when, before it, the key is not cooling down, or its last packet is within the expiry and the unexpired flows within the cap |
| `Beaconing.CooldownNeedsRoomExactly` | net-guardia/src/core/detection/beaconing.rs:135-206 | over every run each cleanup is so safe exactly when that holds before each, and then no cleanup forgets the key while it cools down |
| `Beaconing.ExpiryForgetsCooldown` | net-guardia/src/core/detection/beaconing.rs:59-64 | the default settings, packets at 0 to 4 and 606 to 610, ticks 30 s apart from 5 that analyse and clean up, nothing evicted: alerts at 5, 305, 605 and 635 |
| `AccessControl.PortRule.Contains` | net-guardia-abi/src/model/port_rule.rs:44-58 | true exactly for match-all or a listed port |
| `AccessControl.PortRule.AddPort` | net-guardia-abi/src/model/port_rule.rs:60-79 | appends a new port, accepts a listed one, refuses exactly when full |
| `AccessControl.PortRule.RemovePort` | net-guardia-abi/src/model/port_rule.rs:81-97 | removes the port by shifting, keeping the order, and reports whether it was listed |
| `AccessControl.MapWrapper.Matches` | ingress-ebpf/src/action/access_control.rs:43-59 | the port array answers as the map from address to "all" or a port set |
| `AccessControl.MapWrapper.Add` | net-guardia/src/adapter/ebpf/access_control.rs:212-234 | the array update is the abstract addition, or fails and changes nothing |
| `AccessControl.MapWrapper.Remove` | net-guardia/src/adapter/ebpf/access_control.rs:236-257 | the array update is the abstract removal, or fails and changes nothing |
| `AccessControl.MapWrapper.Restore` | net-guardia/src/core/data_plane/acl_service.rs:56-102 | adds the rows in order, skipping those refused |
| `AccessControl.RemoveFromRule` | net-guardia/src/adapter/ebpf/access_control.rs:259-274 | the stored array loses exactly the port, and the empty case is recognised |
| `AccessControl.AddKeepsLimits` | net-guardia/src/adapter/ebpf/access_control.rs:212-234 | an addition keeps at most 128 addresses, 32 ports each, none empty |
| `AccessControl.AddEffect` | net-guardia/src/adapter/ebpf/access_control.rs:212-234 | an addition permits exactly the port, or all ports, of that address in addition |
| `AccessControl.RemoveEffect` | net-guardia/src/adapter/ebpf/access_control.rs:236-257 | a removal takes away exactly that, and keeps the limits |
| `AccessControl.AddSucceedsExactly` | net-guardia/src/adapter/ebpf/access_control.rs:212-234 | an addition succeeds exactly when address and port are known or there is room, and the error says which is full |
| `AccessControl.RemoveSucceedsExactly` | net-guardia/src/adapter/ebpf/access_control.rs:236-257 | a removal succeeds exactly when the address has an entry |
| `AccessControl.RestoredPartly` | net-guardia/src/core/data_plane/acl_service.rs:56-102 | after each prefix of rows the map holds what the prefix means |
| `AccessControl.RestoreMeaning` | net-guardia/src/core/data_plane/acl_service.rs:56-102 | rows that fit the limits are restored to exactly the permissions they list |
| `AccessControl.RestoreOrderFree` | net-guardia/src/core/data_plane/acl_service.rs:56-102 | and to the same for every ordering of the rows |
| `FrameOwnership.XskPair.constructor` | net-guardia/src/adapter/ebpf/xsk_manager.rs:242-261 | the frames are split between fill queue and pool |
| `FrameOwnership.StartSplits` | net-guardia/src/adapter/ebpf/xsk_manager.rs:242-261 | half of the frames, or as many as the fill queue holds, start there and the rest in the pool |
| `FrameOwnership.XskPair.ProcessCompletionQueue` | net-guardia/src/adapter/ebpf/xsk_manager.rs:347-357 | returns completed frames to the pool |
| `FrameOwnership.XskPair.ProcessRxQueue` | net-guardia/src/adapter/ebpf/xsk_manager.rs:359-421 | forwards in order the packets that are not blacklisted and whose descriptor the length check and the channel accept, and gives the accepted frames to the fill queue |
| `FrameOwnership.ForwardedOne` | net-guardia/src/adapter/ebpf/xsk_manager.rs:372-411 | a packet is forwarded exactly when it is not blacklisted and its descriptor is accepted |
| `FrameOwnership.ForwardedJoins` | net-guardia/src/adapter/ebpf/xsk_manager.rs:371-412 | each packet is decided on its own, and the order is kept |
| `FrameOwnership.XskPair.TakeBatch` | net-guardia/src/adapter/ebpf/xsk_manager.rs:429-435 | takes packets from the channel until it is empty or a batch is full |
| `FrameOwnership.XskPair.ProcessTxQueue` | net-guardia/src/adapter/ebpf/xsk_manager.rs:423-499 | writes packets to pool frames and submits them; submitted and dropped add up to the batch |
| `FrameOwnership.StepConserves` | net-guardia/src/adapter/ebpf/xsk_manager.rs:347-499 | every step keeps, for each frame, the number of its owners |
| `FrameOwnership.StepLoses` | net-guardia/src/adapter/ebpf/xsk_manager.rs:347-499 | a step loses frames exactly when fill refuses some or a packet does not fit |
| `FrameOwnership.EveryFrameOwnedOnce` | net-guardia/src/adapter/ebpf/xsk_manager.rs:242-261 | in every run each frame has exactly one owner, and none is lost exactly when no step loses one |
| `FrameOwnership.SidesNeverMix` | net-guardia/src/adapter/ebpf/xsk_manager.rs:347-499 | in every run a frame of the receive side is never used for transmitting, nor the other way, and without losses each side keeps its frames |
| `FrameOwnership.StoredExactly` | net-guardia/src/adapter/ebpf/xsk_manager.rs:468-476 | writing a batch stores each packet in its own frame and touches no other |
| `FrameOwnership.SendWritesOnlyItsFrames` | net-guardia/src/adapter/ebpf/xsk_manager.rs:423-499 | a send writes only frames taken from the pool |
| `LiveLog.LogRingBuffer.OnEvent` | net-guardia/src/infrastructure/log_buffer.rs:121-137 | numbers events consecutively, cuts long messages and pushes them |
| `LiveLog.LogRingBuffer.Push` | net-guardia/src/infrastructure/log_buffer.rs:36-45 | appends, dropping the oldest entry of a full ring |
| `LiveLog.LogRingBuffer.TakeSnapshot` | net-guardia/src/infrastructure/log_buffer.rs:47-78 | drains and refills, leaving the ring as it was, and returns the first matching entries up to the limit |
| `LiveLog.Poll` | net-guardia/src/adapter/http/logs.rs:52-71 | the clamped limit, the entries after the cursor, the next cursor and the dropped flag |
| `LiveLog.PollCursor` | net-guardia/src/adapter/http/logs.rs:57-71 | a poll moves the cursor past exactly the entries it delivers and those that do not match |
| `LiveLog.PollKeepsClient` | net-guardia/src/adapter/http/logs.rs:57-71 | a poll delivers in order, nothing twice, nothing skipped |
| `LiveLog.PushStep` | net-guardia/src/infrastructure/log_buffer.rs:36-45 | a push keeps the ring the most recent entries, and what it overwrites is accounted for |
| `LiveLog.ClientMissesOnlyOverwritten` | net-guardia/src/adapter/http/logs.rs:52-71 | in every run of pushes and polls the client sees matching entries in order, never twice, and misses one only if it was overwritten first |
| `LiveLog.FreshClient` | net-guardia/src/infrastructure/log_buffer.rs:36-78 | the same from an empty ring and cursor zero, the ring holding the most recent min(capacity, pushed) entries |
| `LiveLog.DroppedFlagExact` | net-guardia/src/adapter/http/logs.rs:70-71 | for every cursor and level, the flag is raised exactly when the cursor is not at the start, a matching entry is left, and the very next entry is overwritten or does not match |
| `LiveLog.FlagTellsLossExactly` | net-guardia/src/adapter/http/logs.rs:70-71 | in one state, the flag agrees with the loss of a matching entry exactly when it is neither silent about one nor raised by a filtered next entry without one |
| `LiveLog.FlagIsRightExactly` | net-guardia/src/adapter/http/logs.rs:57-71 | for a cursor, a level and a limit: in every ring and after every history the flag tells whether a matching entry was lost exactly when the cursor is not zero and every level is asked for |
| `LiveLog.FlagRaisesFalseAlarm` | net-guardia/src/adapter/http/logs.rs:70-71 | a run with the flag raised and nothing lost |
| `LiveLog.FlagMissesLoss` | net-guardia/src/adapter/http/logs.rs:70-71 | a run with a matching entry overwritten unseen, the flag down and the cursor moved past it |
| `LiveLog.TruncateMessage` | net-guardia/src/infrastructure/log_buffer.rs:140-159 | keeps what fits; otherwise the longest character-aligned prefix that leaves room for the marker, still UTF-8 and within the limit |
| `LiveLog.SuffixIsText` | net-guardia/src/infrastructure/log_buffer.rs:145 | the marker is the text `...[truncated]` |
| `Utf8.PrefixIsUtf8` | net-guardia/src/infrastructure/log_buffer.rs:153-157 | cutting a valid text at a character boundary leaves a valid text |
| `GeoBlock.Trie.InsertAll` | net-guardia/src/adapter/ebpf/geo_block.rs:200-212 | inserts the wanted prefixes, only growing, and counts the successes |
| `GeoBlock.Trie.RemoveStale` | net-guardia/src/adapter/ebpf/geo_block.rs:220-242 | removes what is not wanted, never a wanted prefix |
| `GeoBlock.GeoBlock.RebuildTriesFor` | net-guardia/src/adapter/ebpf/geo_block.rs:165-218 | without faults both tries end with exactly the countries' prefixes; every state between holds all old or all new prefixes and no others; an error changes no trie |
| `GeoBlock.GeoBlock.BlockCountries` | net-guardia/src/adapter/ebpf/geo_block.rs:142-153 | publishes the larger set only after a successful rebuild |
| `GeoBlock.GeoBlock.UnblockCountries` | net-guardia/src/adapter/ebpf/geo_block.rs:155-163 | publishes the smaller set only after a successful rebuild |
| `GeoBlock.AddressStaysBlocked` | net-guardia/src/adapter/ebpf/geo_block.rs:200-217 | an address blocked before and after a rebuild, even by different prefixes, is blocked throughout; one blocked neither before nor after never is |
| `GeoBlock.NormalizeGeoCodes` | net-guardia/src/core/data_plane/acl_service.rs:259-272 | the distinct upper-case codes in order of first mention, or the first invalid code |
| `GeoBlock.DeduplicatedMeans` | net-guardia/src/core/data_plane/acl_service.rs:259-272 | deduplication leaves the same elements, each once |
| `GeoBlock.StoredCodes` | net-guardia/src/core/data_plane/acl_service.rs:247-253 | normalised codes name exactly themselves when blocked or unblocked again |
| `GeoBlock.CodesMean` | net-guardia/src/adapter/ebpf/geo_block.rs:142-163 | two letters of any case with spaces around them mean their country, for blocking and unblocking |
| `GeoBlock.NamesOnly` | net-guardia/src/adapter/ebpf/geo_block.rs:142-163 | and a list of codes means no other |
| `GeoBlock.DeduplicatedGrows` | net-guardia/src/core/data_plane/acl_service.rs:259-272 | what is mentioned first comes first |
| `GeoBlock.AclService.BlockGeoCountries` | net-guardia/src/core/data_plane/acl_service.rs:210-222 | succeeds exactly for valid codes, a working index and a working database; otherwise blocked set, rows and, without trie faults, both tries are as before |
| `GeoBlock.AclService.UnblockGeoCountries` | net-guardia/src/core/data_plane/acl_service.rs:224-236 | the same for unblocking |
| `GeoBlock.AclService.RestoreGeoCountries` | net-guardia/src/core/data_plane/acl_service.rs:45-54 | at start-up blocks exactly the stored countries |

## Left out

- Text is ASCII: Unicode case mapping and white space (the Kelvin sign, sharp s, non-breaking spaces) in domains and country codes are not modelled.
- Floating point: confidences and the coefficient of variation are exact reals, and `f64::MAX` and the square root are parameters.
- Integer width: the packed Telegram word and frame lengths are bounded as in the source; packet counts of one rate window, ids and login clocks are taken not to overflow 64 bits.
- Concurrency outside the Telegram limiter: detector maps, the ACL maps, a log push during a snapshot and simultaneous logins are sequential here; the log snapshot lock does not exclude pushes.
- LRU policy: which entry an eviction picks is arbitrary, and the detector and fusion theorems assume that it spares live ones; the rate-counter theorem assumes no eviction.
- Correlation.AlertsSpacedAndWitnessed: takes a non-decreasing clock and evictions that spare live cooldowns; `SpacingIsSafeExactly` and `SpacingNeedsRoomExactly` show that the latter is exactly what is needed.
- Fusion: attack-type translation, the fused-confidence formula, enrichment and audit publishing are not part of this model; samples are emitted as they are.
- LoginLockout: password hashing and role derivation are outcomes given to an attempt.
- AuditChain: SHA-256 is any function to text; nothing is assumed of it, and a collision is returned instead.
- AccessControl.MapWrapper.Matches: addresses are numbers, so the conversion of IPv4 and IPv6 text is not modelled; the eBPF maps that are missing altogether are not modelled either.
- FrameOwnership: queue contents other than descriptors, wake-ups and the reuse of copy buffers are not modelled; how many descriptors each queue accepts is a parameter.
- GeoBlock: decoding the GeoIP database and longest-prefix lookup are not modelled; the index is a map from code to prefixes, and covering an address is any relation.
- SoarOwnership: pending-unblock retries and the live eBPF side of a block are not modelled; the IP version is part of the address.
- Rollback of DNS list changes and of single ACL additions and removals: it also undoes entries that were there before, so only the country path is an exact undo.
- HTTP routes, WebSockets, notifications, reports, configuration, user administration and ONNX inference: wrappers, input and output, or foreign libraries.
