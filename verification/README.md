# HELBOOT verification

A Dafny model of the stateful core of HELBOOT, with proofs about all inputs, all
runs and all reachable states. `dafny verify dfyconfig.toml` checks everything.

## What is modelled

**DHCP (Mode B).** `LeasePool.dfy` is the address pool with its two maps updated
in place, `LeaseStore.dfy` the `dhcp_leases` table, `DhcpServer.dfy` the
DISCOVER/REQUEST/RELEASE machine and `DhcpService.dfy` the start of the service.
`Leases.dfy` holds the pool's specification on values. `DhcpSystem.dfy` puts all of
it in motion: a step is one critical section of the pool, so handlers interleave,
and the process may restart at any time with any range and lease time. The main
results are exclusivity of addresses over every run, restarts included, and the
soundness of the table; `DhcpExamples.dfy` has the runs that show where they end. Time
is in nanoseconds in memory and in whole seconds on disk, as the stored text format has
it.

**Profiles and installations.** `Tables.dfy` is the relational state with the keys,
foreign keys and cascades of the schema, and its invariant. `Lifecycle.dfy` lists the
atomic actions, shows that each keeps the invariant, and proves what every run keeps;
`Immutability.dfy` says exactly where the immutability of installed versions ends, with
runs in `LifecycleExamples.dfy`. `Store.dfy` (the repositories, with their
transactions), `Api.dfy` (REST handlers) and `Boot.dfy` (boot endpoints) are the
imperative code; every method states which action it performed, or that it changed
nothing, and when. One handler is one atomic step: the source checks and writes in
separate statements and promises nothing about races between them. `BootScript.dfy`
builds the iPXE scripts, `BootRoutes.dfy` shows that the URLs in them lead back.

**Bounded and pruned structures.** `RateLimiter.dfy` (token bucket), `Supervisor.dfy`
(restart loop), `LogRing.dfy` (log viewer buffer) and `Observer.dfy` (foreign DHCP
servers) are each proved against the unbounded history they summarise.

**Rules.** `IsoMatch.dfy` (which provider an image belongs to) and `Schema.dfy`
(settings schemas and config documents) are loops proved against declarative rules.

## Where the code and its description differ

- A range that ends at 255.255.255.255: the search counter is a uint32 and wraps to
  zero. When the range is full, the next address handed out lies outside it
  (`Leases.StrangerOutOfRangeIff`, `DhcpExamples.StrangerGetsZero`); the loop goes on
  for ever exactly when no address at all is free (`Leases.SearchEndsIff`).
- "Leases survive restarts" holds for a lease whose row could be written. A lapsed
  row of another client can keep a new lease from being saved (`DhcpSystem.SavedIff`).
  A client's latest lease is there after a restart exactly when it was saved, lies in
  the new range and has not run out (`DhcpSystem.GrantSurvivesRestartIff`); a run that
  loses one is `DhcpExamples.UnsavedGrantIsLost`.
- Between Confirm and Allocate of one REQUEST, another handler may take the lease
  away. The ACK then carries another address or none: exactly when the wanted address
  is no longer the client's at Allocate (`DhcpSystem.AnswerIff`). Without a release, a
  restart or a grant of the address to someone else in between, the wanted address is
  acknowledged (`DhcpSystem.ConfirmedIsAcknowledged`). Runs that go wrong are
  `DhcpExamples.InterleavedAckWithoutAddress` and `DhcpExamples.InterleavedAckOfAnother`.
- "A version referenced by an installation can never change afterwards": it can once
  every installation that referred to it has been cancelled or has gone with its host
  (`Immutability.HeadReopensIff`, `Immutability.AlteredOnlyAfterLoss`,
  `Immutability.OpenAfterRunIff`). Deleting a host removes finished installations too.
  Runs in which this happens are in `LifecycleExamples.dfy`.
- "Hosts surviving profile edits keep installing exactly what the user pinned": the
  version row stays the same over every run, its config once a newer version exists
  (`Immutability.PinIsStable`); while the pinned version is current and unreferenced it
  can still be edited in place (`Immutability.CanBeAlteredIff`).
- "The token scopes the endpoints to one installation": the endpoints serve the
  host's active installation, which is the token's own exactly while that one is
  active (`Boot.TokenFindsOwnIff`, `Boot.StaleTokenReachesSuccessor`).
- Pruning the observed servers is harmless for one constant window, which is what the
  API uses. With windows that vary, a server is lost exactly when some query after its
  last sighting was too strict for it (`Observer.KeptIff`, `Observer.VaryingWindowsLose`).
- Comparing a list or an object with a dependency value of the same type panics in Go
  (`Schema.PanicsIff`, `Schema.PanicExample`); an accepted schema can ask for that.

## Model

| member | source | states |
|---|---|---|
| IPv4.EqualIffSameAddress | backend/internal/network/leasepool.go:165-177 | comparing an encoded address with any byte slice, 4-byte or IPv4-mapped, is comparing the numbers |
| IPv4.ToFromUint | backend/internal/network/leasepool.go:165-177 | four bytes survive the way to a number and back |
| IPv4.FromToUint | backend/internal/network/leasepool.go:165-177 | a number survives the way to bytes and back |
| IPv4.BytesOf | backend/internal/network/leasepool.go:173-177 | the four bytes are the number in network order |
| IPv4.DenotesIff | backend/internal/network/leasepool.go:165-171 | a byte slice denotes an address exactly when it is its four bytes or these behind ten zero and two 255 bytes |
| IPv4.UnspecifiedIff | backend/internal/network/dhcpserver.go:92-95 | unspecified are exactly 0.0.0.0 in either spelling and the sixteen zero bytes |
| Leases.Scan | backend/internal/network/leasepool.go:156-163 | a hit is free and in the interval, and every free address of the interval is at or after it |
| Leases.AllocateOrder | backend/internal/network/leasepool.go:86-98 | own address even if lapsed, else the requested one if in range and unused or lapsed, else the lowest such address, else none; all in terms of the maps |
| Leases.RefusedIffFull | backend/internal/network/leasepool.go:92-96 | below 2^32-1, a client is refused exactly when it has no record and every address of the range has a live lease |
| Leases.StrangerOutOfRangeIff | backend/internal/network/leasepool.go:156-163 | an address outside the range is handed out exactly when the range is full and ends at 2^32-1; it is then the lowest free one of all |
| DhcpExamples.StrangerGetsZero | backend/internal/network/leasepool.go:156-163 | with only 255.255.255.255 to give and that leased, a stranger gets 0.0.0.0 |
| Leases.CounterIsModular | backend/internal/network/leasepool.go:156-163 | after k rounds the search counter is start + k modulo 2^32 |
| Leases.SearchEndsIff | backend/internal/network/leasepool.go:156-163 | at every value its counter takes the loop goes on, exactly when the range ends at 2^32-1 and no address at all is free |
| Leases.AllocateKeepsInverse | backend/internal/network/leasepool.go:100-108 | after an allocation the two maps are again mutually inverse |
| Leases.ReleaseKeepsInverse | backend/internal/network/leasepool.go:132-142 | after a release the two maps are mutually inverse and the client is gone |
| Leases.RestoreKeepsInverseIff | backend/internal/network/leasepool.go:66-76 | restoring a row keeps the maps inverse exactly when neither its MAC nor its address is already tied to something else |
| Leases.AtMostOneLeasePerAddress | backend/internal/network/leasepool.go:22-31 | both maps have the same size, at most the number of addresses of the range |
| Leases.AllocateKeepsInRange | backend/internal/network/leasepool.go:81-116 | leases stay inside a range that ends below 2^32-1 |
| Leases.AllocateSparesLive | backend/internal/network/leasepool.go:100-108 | a live lease of another client is neither chosen nor changed |
| LeasePool.LeasePool.Restore | backend/internal/network/leasepool.go:66-76 | ignores what is not an IPv4 address of the range, else writes both maps |
| LeasePool.LeasePool.FirstFree | backend/internal/network/leasepool.go:156-163 | finds the specified address with a wrapping counter, or the range is full; at most end-start+1 probes below 2^32-1 |
| LeasePool.LeasePool.Allocate | backend/internal/network/leasepool.go:81-116 | returns and records the chosen address, keeps the maps inverse, writes through and swallows the table's refusal |
| LeasePool.LeasePool.Confirm | backend/internal/network/leasepool.go:120-129 | true exactly for the holder of a lease on that address that has not run out |
| LeasePool.LeasePool.Release | backend/internal/network/leasepool.go:132-142 | removes the client from both maps and the table, or does nothing |
| LeasePool.NewLeasePool | backend/internal/network/leasepool.go:41-62 | refuses non-IPv4 bounds and a range turned round, else an empty valid pool |
| LeaseStore.LeaseTable.UpsertLease | backend/internal/store/leases.go:19-30 | inserts or refreshes the row, fails without effect exactly when another MAC has the address, keeps addresses unique |
| LeaseStore.LeaseTable.ActiveLeases | backend/internal/store/leases.go:33-54 | each row that has not expired, once, and no other |
| LeaseStore.LeaseTable.DeleteLease | backend/internal/store/leases.go:74-77 | removes the row of the MAC and no other |
| LeaseStore.ActiveIff | backend/internal/store/leases.go:33-37 | a row is active exactly when its stored second lies ahead, to the nanosecond |
| LeaseStore.StoredSecond | backend/internal/store/leases.go:19-25 | the stored expiry is the second in which the lease ends, and reading it back loses nothing more |
| DhcpServer.GrantedIff | backend/internal/network/dhcpserver.go:91-106 | the pool answers a request with the wanted address exactly when it is the client's record, or the client has none and the address is in range without a live lease (or the search wraps onto it) |
| DhcpServer.WrapsOntoOnlyAtTheTop | backend/internal/network/leasepool.go:156-163 | the wrapping case needs a full range that ends at 2^32-1 |
| DhcpServer.HoldsAfterRequest | backend/internal/network/dhcpserver.go:91-106 | after an ACK the client holds the wanted address for a full lease time, after a NAK another address or none |
| DhcpServer.OfferIsGrantedIff | backend/internal/network/dhcpserver.go:76-106 | the handshake: after an offer of an address, a REQUEST that names it in the option is granted, whatever its ciaddr; with 0.0.0.0 exactly if ciaddr is that |
| DhcpServer.RenewalIsGranted | backend/internal/network/dhcpserver.go:92-96 | a renewal, without an address in the option, is granted the address in use |
| DhcpServer.DHCPServer.HandleRequest | backend/internal/network/dhcpserver.go:91-106 | ACK exactly in those cases and then with exactly the wanted address, which is the one in the option, or ciaddr exactly when the option has none; pool and table move as Allocate says |
| DhcpServer.DHCPServer.BuildReply | backend/internal/network/dhcpserver.go:76-115 | the reply, the pool and the table for every packet; DECLINE acts as RELEASE; anything else is dropped without a trace |
| DhcpService.RestoreAll | backend/cmd/helboot/services.go:99-101 | rows distinct in MAC and address fed into an empty pool leave it valid and holding exactly those of its range |
| DhcpService.BuildDHCPServer | backend/cmd/helboot/services.go:75-121 | a server exactly for a usable range, with the pool the active rows determine and a lease time of the given minutes, or an hour |
| DhcpSystem.NoDoubleGrant | backend/internal/network/leasepool.go:81-142 | over every run: an address that goes to a second client did so after the first lease ran out; for a saved grant this holds across restarts to the second |
| DhcpSystem.AddressMovesOnlyAfterReleaseOrExpiry | backend/internal/network/dhcpserver.go:76-115 | without a restart, between grants of one address to two clients the first released or declined, or its lease counted from that grant ran out, however handlers interleave |
| DhcpSystem.ClientKeepsAddress | backend/internal/network/leasepool.go:78-98 | while its grant binds, a client that returns is given the same address and never refused |
| DhcpSystem.DiskNeverLies | backend/internal/network/leasepool.go:109-114 | in every reachable state addresses on disk are unique and an active in-range row equals the lease in memory, to the second |
| DhcpSystem.GrantKeepsDiskSound | backend/internal/network/leasepool.go:100-114 | a swallowed UNIQUE failure after an eviction leaves no active row that disagrees with memory |
| DhcpSystem.SavedIff | backend/internal/db/migrations/0002_dhcp_leases.sql:4-9 | a grant reaches the table exactly when no other client's row, lapsed or not, carries its address |
| DhcpSystem.GrantSurvivesRestartIff | backend/cmd/helboot/services.go:95-101 | over every run: a client's latest grant is in the pool a restart builds exactly when it was saved, lies in the new range and has a whole second left |
| DhcpSystem.FreshGrantSurvivesRestartIff | backend/cmd/helboot/services.go:95-101 | a grant survives a restart with the same range exactly when no other client's row carried its address, the address is in the range and the stored expiry lies ahead |
| DhcpExamples.UnsavedGrantIsLost | backend/internal/network/leasepool.go:109-114 | a run in which an unsaved lease is forgotten by a restart and its address given away while it runs |
| DhcpSystem.RestartKeepsOnlyTrueLeases | backend/cmd/helboot/services.go:95-101 | in any run a restart with the range unchanged rebuilds a valid pool of leases held before, each shortened by less than a second |
| DhcpSystem.ReloadIsUnique | backend/cmd/helboot/services.go:95-101 | table, range and clock determine the rebuilt pool |
| DhcpSystem.RunInRange | backend/internal/network/leasepool.go:19-31 | in every reachable state with ranges below 2^32-1 leases are in range and no more than addresses |
| DhcpSystem.RequestIsTwoSteps | backend/internal/network/dhcpserver.go:91-106 | an undisturbed REQUEST is its two critical sections in a row |
| DhcpSystem.AnswerIff | backend/internal/network/dhcpserver.go:91-106 | in any state, whatever ran since Confirm: an ACK of the wanted address exactly when it is the client's for the asking at Allocate; otherwise a NAK when unconfirmed, and an ACK of another address or none when confirmed |
| DhcpSystem.ConfirmedIsAcknowledged | backend/internal/network/dhcpserver.go:104-106 | a confirmed REQUEST is acknowledged with the wanted address after any interleaving without a restart, a release by its client or a grant of the address to another |
| DhcpSystem.OfferIsAcknowledged | backend/internal/network/dhcpserver.go:76-106 | the handshake over runs: what a DISCOVER was offered is acknowledged to a REQUEST naming it, whatever other handlers did in between, short of a release, a restart or a grant of it to another |
| DhcpExamples.InterleavedAckWithoutAddress | backend/internal/network/dhcpserver.go:104-106 | in a range of one, a release and an allocation between Confirm and Allocate make the server acknowledge without an address |
| DhcpExamples.InterleavedAckOfAnother | backend/internal/network/dhcpserver.go:104-106 | the same race in a range of two makes it acknowledge the other address |
| Tables.EmptyInv | backend/internal/db/migrations/0001_initial.sql:43-95 | the empty database is consistent |
| Tables.NextNumber | backend/internal/store/profiles.go:117-123 | MAX(version)+1 is current_version+1 in a consistent database |
| Lifecycle.ActionKeepsInv | backend/internal/db/migrations/0001_initial.sql:43-95 | every action keeps: versions are exactly 1..current, pins exist, one active installation per host, busy exactly while installing, times and log as the status says, keys unique, nothing dangles |
| Lifecycle.Reachable | backend/internal/store/installations.go:62-64 | these invariants hold in every state any run of handlers can reach |
| Lifecycle.ReferencedIsFixed | backend/internal/store/profiles.go:138-164 | while an installation points at a version no action changes its config or removes it |
| Lifecycle.HistoryIsImmutable | backend/internal/db/migrations/0001_initial.sql:82-94 | over every run an installation keeps host, version, token and, to the letter, its config; its row changes only when its status moves forward, and a recorded start and the log are kept |
| Lifecycle.FinalIsFinal | backend/internal/store/installations.go:81-92 | a finished installation never changes again |
| Lifecycle.GoneForGood | backend/internal/store/installations.go:94-105 | a removed installation never comes back under its id |
| Immutability.ReferencesLostIff | backend/internal/db/migrations/0001_initial.sql:84-87 | an action leaves a referenced version without references exactly when it cancels the only installation pointing there or deletes the host of all of them |
| Immutability.HeadReopensIff | backend/internal/store/profiles.go:149-157 | of all actions exactly those open a referenced current version to in-place edits |
| Immutability.CancelReopensIff | backend/internal/store/profiles.go:149-157 | after cancelling, the current version is open to in-place edits exactly when no other installation points there |
| Immutability.DropHostReopensIff | backend/internal/db/migrations/0001_initial.sql:86 | after deleting a host, the current version is open exactly when every installation pointing there was the host's |
| Immutability.CanBeAlteredIff | backend/internal/store/profiles.go:140-176 | some action changes or removes a version exactly when it is current and unreferenced, or no version of its profile is referenced |
| Immutability.GoneIff | backend/internal/db/migrations/0001_initial.sql:84-87 | over every run an installation disappears exactly by being cancelled or with its host |
| Immutability.AlteredOnlyAfterLoss | docs/adr/0013-profile-versioning.md:46-48 | over every run: a version that changed or vanished had lost every installation that pointed at it |
| Immutability.OpenAfterRunIff | docs/adr/0013-profile-versioning.md:46-48 | after a run that does not queue it again, a current version is open to in-place edits exactly when the run cancelled or deleted the host of each installation that pointed there |
| Immutability.VersionStays | backend/internal/store/profiles.go:81-164 | no action but deleting the profile moves a version, and none changes its config once there is a newer one |
| Immutability.PinIsStable | docs/adr/0013-profile-versioning.md:49-51 | over every run that leaves host and profile in place, the host pins the same version row; if that was not the current one its config never changes |
| LifecycleExamples.RewrittenAfterCancel | backend/internal/store/profiles.go:140-164 | a run from the empty database that rewrites a config an installation was queued with |
| LifecycleExamples.RewrittenAfterDropHost | backend/internal/store/profiles.go:140-164 | a run that rewrites the config of a version installed with success, its host deleted |
| Store.Store.CreateProfile | backend/internal/store/profiles.go:14-42 | profile and version 1 with the given config together, or exactly on a taken name or unknown ISO neither |
| Store.Store.NextVersionNumber | backend/internal/store/profiles.go:118-123 | one more than the highest number of the profile |
| Store.Store.AppendProfileVersion | backend/internal/store/profiles.go:117-136 | the next version, holding the given config, becomes the current one |
| Store.Store.EditHeadVersion | backend/internal/store/profiles.go:140-164 | overwrites the current config, or is refused exactly when an installation refers to it |
| Store.Store.UpdateProfile | backend/internal/store/profiles.go:81-113 | which of the three outcomes of an edit or which of the three errors, exactly; the current version then holds the config, in place or as the next number beside unchanged old ones; an error leaves name and ISO alone too |
| Store.EditMeans | backend/internal/store/profiles.go:81-164 | what the step of an edit does to name, ISO, current number and every version row |
| Store.Store.DeleteProfile | backend/internal/store/profiles.go:167-176 | cascades and unassigns, or fails exactly while an installation refers to one of its versions |
| Store.Store.SetAnswerOverride | backend/internal/store/profiles.go:204-216 | touches the override of the one version named |
| Store.Store.CreateHost | backend/internal/store/hosts.go:15-34 | a row with a new id, or no change when the MAC is taken or the profile missing |
| Store.Store.UpdateHost | backend/internal/store/hosts.go:82-101 | overwrites the row under the same constraints |
| Store.Store.DeleteHost | backend/internal/store/hosts.go:104-113 | removes the host and exactly its installations |
| Store.Store.CreateInstallation | backend/internal/store/installations.go:13-27 | a waiting row with a new id when host and version exist |
| Store.Store.ActiveInstallationForHost | backend/internal/store/installations.go:65-70 | the newest waiting or installing installation of the host, none exactly when there is none |
| Store.Store.InstallationByToken | backend/internal/store/installations.go:55-60 | an installation with the token, none for an unknown or empty token |
| Store.Store.MarkInstallationStarted | backend/internal/store/installations.go:73-79 | waiting becomes installing with the time of the start, anything else is left alone |
| Store.Store.MarkInstallationFinished | backend/internal/store/installations.go:83-92 | stores the given final state and its time and appends to the log, refuses any other state |
| Store.Store.DeleteInstallation | backend/internal/store/installations.go:96-105 | removes exactly a waiting installation |
| Store.Store.DeleteISO | backend/internal/store/isos.go:77-86 | removes the ISO and unassigns it from profiles |
| Api.ChosenVersionExists | backend/internal/api/handlers_installations.go:88-96 | the version lookup when queueing never fails in a consistent database |
| Api.StalePinIsHarmless | backend/internal/db/migrations/0001_initial.sql:75 | deleting a profile leaves a stale number beside a null profile, and later queueing never looks at it |
| Api.Server.HandleCreateInstallation | backend/internal/api/handlers_installations.go:41-110 | each refusal with its exact condition; without a profile in the request exactly the version the host pins is queued, with one the current version of that; never an internal error |
| Api.Server.HandleDeleteInstallation | backend/internal/api/handlers_installations.go:114-133 | cancels exactly waiting installations, conflict for others |
| Api.Server.ResolveProfilePin | backend/internal/api/handlers_hosts.go:66-93 | accepts exactly assignments whose settled pin names an existing version; an unset number settles to the current one, any other stays |
| Api.Server.HandleCreateHost | backend/internal/api/handlers_hosts.go:104-123 | a ready host with an existing pin, exactly for a valid request with a free MAC |
| Api.Server.HandleUpdateHost | backend/internal/api/handlers_hosts.go:138-159 | rewrites the host but not its status, exactly for a valid request |
| Api.Server.HandleDeleteHost | backend/internal/api/handlers_hosts.go:161-172 | removes the host with its installations |
| Api.Server.HandleCreateProfile | backend/internal/api/handlers_profiles.go:38-66 | the new profile, or the refusals with their exact conditions |
| Api.Server.HandleUpdateProfile | backend/internal/api/handlers_profiles.go:98-143 | in-place edit or new version, the current one then holding the config; conflict exactly when the current version is referenced; nothing changes on refusal |
| Api.Server.HandleDeleteProfile | backend/internal/api/handlers_profiles.go:161-172 | internal error exactly while an installation refers to the profile |
| Api.Server.HandleCloneProfile | backend/internal/api/handlers_profiles_transfer.go:29-59 | a profile at version 1 with the source's current config; conflict exactly for a taken name |
| Api.Server.HandleSetAnswerOverride | backend/internal/api/handlers_profiles_answer.go:82-109 | sets the override of an existing version whose template renders, config untouched |
| Api.Server.HandleDeleteISO | backend/internal/api/handlers_isos.go:84-99 | removes an ISO and unassigns it |
| BootScript.MessageDoesNotBoot | backend/internal/boot/install.go:309-311 | a one-line message is never taken for a script that boots |
| BootScript.InstallScript | backend/internal/boot/install.go:68-113 | the whole script, line by line, and that it contains the boot line exactly when the provider supports network boot and the command line renders |
| BootScript.InitrdForms | backend/internal/boot/install.go:97-110 | a plain initrd keeps its name, one of the form path=name is exposed under the name after the last equals sign |
| BootScript.NothingQueuedDoesNotBoot | backend/internal/boot/boot.go:122-133 | the scripts for machines with nothing queued never boot an installer |
| BootRoutes.ParamsLeadBack | backend/internal/boot/install.go:116-128 | every URL a template is given is routed back to the token or the image it was made for |
| BootRoutes.FilesLeadBack | backend/internal/boot/install.go:84-91 | the URL of a kernel or initrd is routed to that file of the image, or to the boot assets |
| Boot.TokenFindsOwnIff | backend/internal/boot/install.go:271-293 | the host's active installation is the token's own exactly while its own is waiting or installing |
| Boot.StaleTokenReachesSuccessor | backend/internal/boot/install.go:281-286 | after the next queueing a finished installation's token leads to the new one |
| Boot.Handler.LoadInstallContext | backend/internal/boot/install.go:34-65 | a context exactly when an active installation has provider and ISO; silence exactly when nothing is queued |
| Boot.Handler.MarkInstalling | backend/internal/boot/install.go:131-145 | waiting becomes installing and the host busy, in one step; otherwise nothing |
| Boot.Handler.ScriptFor | backend/internal/boot/boot.go:104-134 | an installation starts exactly when the script served for it boots, which is when the provider supports network boot and the command line renders with its config, token, ISO and host; nothing queued never boots |
| Boot.Handler.Discover | backend/internal/boot/boot.go:85-99 | an unknown machine becomes a discovered host with nothing queued |
| Boot.Handler.HandleScript | backend/internal/boot/boot.go:60-81 | without a MAC a retry and no change; otherwise serving a script records the machine or starts its own installation, nothing else |
| Boot.Handler.ContextByToken | backend/internal/boot/install.go:271-293 | resolves exactly when the token's host has something bootable, and to the token's own installation exactly while that is active |
| Boot.Handler.HandleReport | backend/internal/boot/install.go:205-236 | the status code exactly, and the whole new row of the host's active installation: success or error as reported, time and log line, and the host ready or in error |
| Boot.Handler.FinishInstallation | backend/internal/boot/install.go:221-233 | the installation takes the reported final state, time and line, and the host the status that goes with it; no other row changes |
| RateLimiter.RateLimiter.Allow | backend/internal/api/middleware.go:147-166 | verdict and new buckets are those of the specification, times taken in refill periods |
| RateLimiter.BucketIsWindow | backend/internal/api/middleware.go:147-166 | the bucket holds x tokens exactly when x more grants fit every sliding window |
| RateLimiter.GrantedIffFits | backend/internal/api/middleware.go:147-166 | an attempt is granted exactly when one more grant fits every window ending now |
| RateLimiter.WindowBound | backend/internal/api/server.go:80-82 | between any two grants, both counted, at most burst plus elapsed time over refill |
| RateLimiter.GrantsInSeconds | backend/internal/api/server.go:80-82 | the same bound for one client among many, in seconds |
| RateLimiter.TokensInRange | backend/internal/api/middleware.go:156-164 | tokens stay between zero and burst |
| RateLimiter.DeniedLeavesGrants | backend/internal/api/middleware.go:161-163 | striking a denied attempt leaves the list of grants unchanged |
| RateLimiter.DeniedIsTransparent | backend/internal/api/middleware.go:161-163 | a denied attempt changes no later verdict, for any burst |
| RateLimiter.ClientsAreIndependent | backend/internal/api/middleware.go:151-155 | a client's bucket depends on its own attempts only |
| Supervisor.Supervise | backend/internal/service/manager.go:58-88 | the backoffs waited and the instants of the restarts for every script of crashes, as recurrences and as the closed form; it returns exactly at the first run that is stopped or does not crash |
| Supervisor.PauseDoubles | backend/internal/service/manager.go:76-86 | a pause is twice the last, capped, or the initial one after a run longer than a minute |
| Supervisor.PauseBounds | backend/internal/service/manager.go:22-25 | every pause is 1, 2, 4, 8, 16 or 30 seconds |
| Supervisor.RestartRate | backend/internal/service/manager.go:58-88 | N restarts take at least (91 N - 300)/5 seconds, whatever the crash pattern |
| Supervisor.RestartsWithin | backend/internal/service/manager.go:58-88 | at most (5 T + 300)/91 restarts within the first T seconds |
| Supervisor.RestartRateIsTight | backend/internal/service/manager.go:74-86 | a crash pattern that meets this bound up to five nanoseconds per cycle |
| LogRing.Ring.Append | backend/internal/logging/ring.go:35-43 | the ring goes on representing the whole log |
| LogRing.Ring.Entries | backend/internal/logging/ring.go:47-69 | exactly what reversing the last entries of the whole log, filtering by level and capping gives, also as positions in the log |
| LogRing.AnswerIs | backend/internal/logging/ring.go:47-69 | each entry given is at the level and newer than every one left out, and none is left out below the cap |
| LogRing.Severities | backend/internal/logging/logging.go:32-43 | the severity of each level name, whatever its case |
| LogRing.OlderComeLast | backend/internal/logging/ring.go:56-67 | looking further back only adds entries at the end, so stopping at the cap is safe |
| Observer.DHCPObserver.Observe | backend/internal/network/observer.go:52-75 | records exactly REQUESTs that name a server other than this one |
| Observer.DHCPObserver.SetSelfIP | backend/internal/network/observer.go:41-48 | replaces the own address, nil is ignored |
| Observer.DHCPObserver.Sightings | backend/internal/network/observer.go:79-97 | strictly sorted, and for a constant window exactly the servers whose latest sighting in the full record is recent enough |
| Observer.PruningLosesNothing | backend/internal/network/observer.go:83-95 | with a constant window and a clock that never goes back, pruning never affects a later answer |
| Observer.TableIsTrue | backend/internal/network/observer.go:70-71 | what the table holds is the latest sighting in the full record |
| Observer.KeptIff | backend/internal/network/observer.go:88-92 | whatever the windows and the clock, a server is in the table exactly when no query since its last sighting was too strict for it |
| Observer.VaryingWindowsLose | backend/internal/network/observer.go:88-92 | a strict query hides a server from a later, more lenient one |
| Ordering.SortedUnique | backend/internal/provider/registry.go:95-103 | a strictly sorted list is determined by its elements |
| Ordering.LessIff | backend/internal/provider/registry.go:96-103 | the order is decided at the first difference, a prefix going first |
| IsoMatch.Registry.All | backend/internal/provider/registry.go:96-103 | every manifest, strictly sorted by name |
| IsoMatch.MostSpecificFileMatch | backend/internal/iso/iso.go:254-273 | the longest fully present file list, first by name among equals, or none |
| IsoMatch.Match | backend/internal/iso/iso.go:211-249 | the result obeys the declarative matching rule |
| IsoMatch.MatchIsUnique | backend/internal/iso/iso.go:201-211 | the rule leaves no choice: the result is a function of the set of manifests and the image |
| IsoMatch.FoundMeans | backend/internal/iso/iso.go:201-249 | a manifest with a fitting pattern is never passed over for one without; among several, complete and longer file lists win |
| IsoMatch.NoMatchIff | backend/internal/iso/iso.go:211-249 | nothing is found exactly when no manifest matches by volume ID or by files |
| Schema.ValidateSchema | backend/internal/provider/schema.go:65-102 | accepts exactly the well-formed schemas, and of all faults of another reports the first in order of fields and checks, dependencies last |
| Schema.FaultlessIff | backend/internal/provider/schema.go:65-102 | a schema is well-formed exactly when none of the eight faults occurs in it |
| Schema.FirstFaultIsUnique | backend/internal/provider/schema.go:65-102 | which fault is the first leaves no choice |
| Schema.ValidateConfig | backend/internal/provider/schema.go:109-127 | panics, rejects or accepts: accepted exactly when every value present suits its field and nothing required and active is missing; rejected with exactly the justified problems |
| Schema.CheckIff | backend/internal/provider/schema.go:141-188 | a value passes exactly when it suits type, options and bounds, and exactly the true complaint is made of any other |
| Schema.LooseEqualIff | backend/internal/provider/schema.go:217-229 | a dependency holds exactly for two nils, two encodings of one integer or equal comparable values, and panics exactly for two lists or two objects |
| Schema.AcceptedIff | backend/internal/provider/schema.go:104-127 | acceptance and panic in terms of the values alone |
| Schema.ProblemsInOrder | backend/internal/provider/schema.go:109-127 | the problems come in the order of the fields, one per field |
| Schema.ReportedIff | backend/internal/provider/schema.go:109-127 | a problem is reported exactly when some field gives cause: a value that breaks the rule named, or a required active one missing |
| Schema.OnlyDeclaredKeysMatter | backend/internal/provider/schema.go:104-108 | two documents that agree on declared keys have the same outcome |
| Schema.EncodingDoesNotMatter | backend/internal/provider/schema.go:201-229 | recoding integers in document and dependencies leaves the outcome unchanged |
| Schema.PanicsIff | backend/internal/provider/schema.go:217-229 | validation panics exactly when a required empty field depends on a list or object compared with its like |
| Schema.PanicExample | backend/internal/provider/schema.go:217-229 | an accepted schema and a document of one list that make validation panic |
| Schema.NeverPanics | backend/internal/provider/schema.go:217-229 | without list or object dependencies it never panics |
| Schema.DefaultsExist | backend/internal/provider/schema.go:90-94 | every accepted schema has a document of its defaults |
| Schema.DefaultsOnlyMiss | backend/internal/provider/schema.go:90-94 | the defaults of an accepted schema only lack fields that are required, active and empty by default |

## Left out

- LeasePool.LeasePool.Allocate: required to end. A call whose search has no end (every
  address the counter visits is taken) never returns in the source either.
- Observer.DHCPObserver.Sightings: the clock is read once inside the call; the source
  reads it just before taking the lock.
- RateLimiter.RateLimiter.Allow: floating-point rounding of tokens is not modelled, reals stand for float64.
- Store.Store.CreateISO: file names are not kept, and so neither is the refusal of one that is taken.
- Api.Server.HandleCreateProfile: the same step covers profile import, whose own document checks are left out.
- Concurrency inside one installation or host handler: handlers are atomic steps.
- Overflow of clocks and durations, and 64-bit limits on integers in config documents and row ids.
- Floats beyond the exactly representable integers, NaN and infinities in config documents.
- The text forms of addresses and times in the table: taken to be faithful, times to the second.
- Packet encoding, PXE options, ProxyDHCP, TFTP and sockets.
- HTTP routing except the paths of the boot endpoints, escaping in URLs, sessions, CSRF, passwords.
- Token generation: boot tokens are assumed fresh, non-empty and a single path segment.
- Template rendering, MAC parsing, glob matching and ISO 9660 reading are parameters of the model.
- Inert host columns (vendor, tags and so on), user accounts, settings, audit log, backup.
- Manager.Run starting several services: each is supervised by its own loop.
