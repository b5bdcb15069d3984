# Verified model of the deployment tool's algorithms

A Dafny 4.11 model of the stateful and algorithmic parts of a Docker Swarm
deployment tool: what the generated firewall script does to packets, how service
files are rewritten over themselves, how the controller keeps and persists its
state, how a swarm and a storage cluster are set up by commands that may fail,
how a virtual address and its VRRP priorities are chosen, and how connections are
pooled and operations retried. `dafny verify dfyconfig.toml` checks everything.

Remote commands are replaced by abstract machine state and nondeterministic
outcomes: a command that changes a machine may fail, and a failed one may still have
taken effect. Status
answers that do arrive are truthful. The setups are also judged on reliable machines,
where no command fails: there they succeed exactly under a stated condition on the
state they start from. Everything else follows the code.

| file | models |
|---|---|
| `Prelude.dfy`, `PortText.dfy`, `Ipv4.dfy` | optional values and text; port arguments; addresses, prefixes, bitwise operations |
| `Firewall.dfy`, `FirewallMeaning.dfy` | the script generator, the INPUT chain it edits, and what runs mean for packets |
| `Pattern.dfy`, `ServiceFile.dfy`, `Rendering.dfy`, `SaveBack.dfy` | leftmost greedy replacement, the service file rewriting, what it means on texts, and its stability |
| `TextCount.dfy`, `MountPaths.dfy`, `MountGrowth.dfy` | what the rewritings do to character counts, exactly which mount paths allow stability, and growth under others |
| `Store.dfy`, `Controller.dfy`, `Orchestration.dfy` | the state store and its file, one connection, and handlers interleaved with the background loop |
| `Swarm.dfy` | swarm setup over all hosts |
| `Storage.dfy`, `Deployer.dfy` | storage cluster setup, and the host lists it receives |
| `VipScan.dfy`, `Vrrp.dfy`, `IpDetect.dfy`, `PrivateProfile.dfy` | the address scan, the election, address classification and choice, and their agreement with the firewall's private profile |
| `SshPool.dfy`, `Retry.dfy` | the connection pool under concurrent callers; backoff loops |

## What was found

- A safety rule that already sits below a rule dropping the packet is not moved, because the script only checks that it exists. `SafetyHolds` states exactly when a safety rule protects a packet.
- A negative port number is not refused: its sign becomes a colon, and every port from 0 up is opened (`NegativeOpensFromZero`).
- Repeated deployment is stable only for some mount paths; `StableMountPaths` gives the exact condition for every absolute one without `$`, the same with dedicated workers and without. A mount path that contains a storage path without being one, such as `/mnt/a/b/c` or `/srv/mnt/a/b`, makes every file that mentions a storage path grow with every deployment (`DeeperMountGrows`). One that is too short, such as `/mnt/data`, swallows a directory with the second deployment (`ShallowMountLosesDirectory`).
- Removing an unknown registration reports success without saving, so success does not imply that file and memory agree (`SyncAfterHistory`, `QuietRemovalHidesFailure`).
- The background loop can be blocked for good, across restarts: by one failed save while storage is being marked as orchestrated (`FailedMarkBlocks`), or by a crash between that mark and the next, without any failed save (`CrashBetweenMarksBlocks`). Without the option to wait for the minimum it skips every tick and never does anything (`WithoutWaitingNothingHappens`). `RecoversExactly` states exactly when storage can still become ready without a storage-ready message. The loop is present in the code but not started by `Serve`.
- A swarm setup is not repeated when only recording its success failed, because the flag stays set in memory; it is repeated only after a restart that lost the flag (`SetupStartsOnce`).
- The final swarm check counts members, so it cannot see a manager and a worker with swapped roles; `SwarmSetup` states exactly when the roles are right. It searches whole lines, so a worker whose host name contains `Leader` or `Reachable` is counted as a manager (`MarkingNameFoolsCheck`). The setup never changes the role of a host already in the cluster, so one misplaced host can make it fail even when no command does.
- Storage setup goes on when no host finds a disk, and then fails at the gate before mounting, even when no command fails; `SetupCluster` states exactly when it succeeds.
- A host listed twice, as worker and later as manager, is mounted but gets no disks (`LaterManagerLosesDisks`); `DisksFollowTheWorkerList` states exactly when disks and mounts go to the same hosts.
- The cap on retry waits does not apply to the first wait (`CapMissesFirstWait`), and the node agent's backoff reaches 32 seconds, past its 30 second test (`JoinLoop`).
- The comment at `internal/controller/store.go:77-78` promises the updated snapshot; on a failed save the caller gets an empty one while memory keeps the change.

## Model

| member | source | states |
|---|---|---|
| PortText.NumberOpensItself | internal/nodeconfig/firewall.go:283-297 | a configured non-negative number reaches iptables as exactly that port, and is refused above 65535 |
| PortText.RangeOpensItself | internal/nodeconfig/firewall.go:288-297 | a configured text `lo-hi` reaches iptables as exactly the ports between, and is refused when empty or too high |
| PortText.TextOpensItself | internal/nodeconfig/firewall.go:288-297 | every configured text opens exactly the ports it is for: one number, or two ends around a dash or colon, either of which may be missing |
| PortText.NegativeOpensFromZero | internal/nodeconfig/firewall.go:284-297 | a negative number opens all ports from 0 to its absolute value |
| Firewall.ExpandSources | internal/nodeconfig/firewall.go:331-349 | the loop replaces every shortcut by its ranges, in order, and leaves no shortcut |
| Firewall.SourceScript | internal/nodeconfig/firewall.go:307-323 | one append command per expanded source |
| Firewall.ItemScript | internal/nodeconfig/firewall.go:300-324 | protocols other than tcp and udp are skipped, the others keep their order |
| Firewall.GetPortRuleScript | internal/nodeconfig/firewall.go:272-328 | the three nested loops emit the commands of item, protocol and source in that nesting |
| Firewall.ProfileSection | internal/nodeconfig/firewall.go:150-161 | enabled profiles in configuration order, unknown names emitting nothing |
| Firewall.PortSection | internal/nodeconfig/firewall.go:163-178 | enabled port rules in configuration order |
| Firewall.ConfigureFirewall | internal/nodeconfig/firewall.go:14-214 | safety block, then profiles, then port rules |
| Firewall.InputChain.Run | internal/nodeconfig/firewall.go:72-141 | running a script edits the chain in place up to the first command iptables refuses, and succeeds when none is |
| FirewallMeaning.PortRuleCompiles | internal/nodeconfig/firewall.go:272-328 | the generated rules match a packet exactly when the configured rule names its protocol, in any case of letters, its port, and its source, where no sources mean any |
| FirewallMeaning.CommandsCarryComments | internal/nodeconfig/firewall.go:314-320 | every generated rule carries the configured comment, or one naming protocol and ports |
| FirewallMeaning.PortsCompile | internal/nodeconfig/firewall.go:163-178 | first match over all generated port rules is the action of the first enabled rule that covers the packet: DROP if it says so, and otherwise ACCEPT |
| FirewallMeaning.ProfilesCompile | internal/nodeconfig/firewall.go:219-269 | the rules of the enabled profiles decide as the profiles' descriptions say, in order |
| FirewallMeaning.HardenRecords | internal/nodeconfig/firewall.go:244-258 | the rule that records new SSH connections is appended right before the one that drops by their rate |
| FirewallMeaning.RunKeepsOrder | internal/nodeconfig/firewall.go:77-88 | a run keeps the old chain as one unbroken block and adds exactly the safety rules and the executed rules around it |
| FirewallMeaning.CompilerCorrect | internal/nodeconfig/firewall.go:106-178 | on every chain the verdict of every packet after a complete run is the specified one: missing safety rule, old chain, profiles, first covering port rule, policy |
| FirewallMeaning.CompilerCorrectOnForeignChain | internal/nodeconfig/firewall.go:106-178 | the same for the generated script on a chain with none of its safety rules |
| FirewallMeaning.DecisionsAreFinal | internal/nodeconfig/firewall.go:106-141 | once the safety rules are on the chain, no later run changes a verdict the chain has reached |
| FirewallMeaning.SafetyHolds | internal/nodeconfig/firewall.go:106-141 | after any history of differing, possibly aborted runs a safe packet is accepted if and only if a matching safety rule was missing at first or the first chain accepted it |
| FirewallMeaning.SafetyFromForeignChain | internal/nodeconfig/firewall.go:106-141 | from a chain without the safety rules every history accepts every packet they match |
| FirewallMeaning.SafetyIsProtected | internal/nodeconfig/firewall.go:109-141 | the safety rules match exactly loopback, established, VRRP, overlay, Docker and Swarm traffic |
| FirewallMeaning.ProtectedStaysAccepted | internal/nodeconfig/firewall.go:106-141 | such traffic stays accepted over every history of runs |
| FirewallMeaning.SafetyRuleBelowDrop | internal/nodeconfig/firewall.go:109-110 | a loopback rule below a dropping rule does not help, after any runs |
| FirewallMeaning.RerunOnce | internal/nodeconfig/firewall.go:230-261 | a second run leaves the verdict alone and appends only the unchecked port rules |
| FirewallMeaning.RerunsKeepVerdicts | internal/nodeconfig/firewall.go:320-322 | n further runs keep every verdict, keep the chain as a prefix, and lengthen it by n times the appended port rules |
| FirewallMeaning.BlockPlaceIrrelevant | internal/nodeconfig/firewall.go:221-228 | moving BlockAllPublic within the profile list changes neither the chain nor the policy |
| Pattern.ScannerMeetsRegex | internal/services/services.go:644-646 | the scanner finds a match exactly when some prefix is in the regular language, and then the longest one |
| ServiceFile.PatternsAreDeterministic | internal/services/services.go:562-562 | both patterns, and the variable, meet the condition under which that holds |
| Rendering.PathPattern | internal/services/services.go:639-644 | the path pattern accepts exactly the texts `/mnt/<type>/<name>` over the stated characters |
| Rendering.RolePattern | internal/services/services.go:557-562 | the role pattern accepts exactly `node.role==worker` with any white space around the equals signs |
| Pattern.RewriteJoins | internal/services/services.go:644-647 | replacement keeps the text between the leftmost matches and puts the new text in place of each |
| Pattern.EverySplits | internal/services/services.go:644-647 | every text splits into such pieces and matches |
| Rendering.FilledText | internal/services/services.go:635-636 | filling in the variable puts the mount path, and nothing else, between the pieces that hold no reference |
| Rendering.ReferencePieces | internal/services/services.go:635-636 | every text is made of such pieces |
| Rendering.ProcessedPieces | internal/services/services.go:407-425 | the processed file, said on texts: references, then storage paths replaced by the mount path, then constraints; nothing else is touched |
| Rendering.ProcessedWithoutMount | internal/services/services.go:407-425 | without a mount path only the constraints are rewritten |
| Rendering.ReferenceBecomesMount | internal/services/services.go:635-636 | one reference becomes exactly the mount path, when nothing around it completes a path or constraint |
| ServiceFile.ServiceFile.Prepare | internal/services/services.go:407-450 | the two rewritings in order, saved back when something changed and the write succeeds |
| SaveBack.RewritingLeavesMount | internal/services/services.go:644-647 | after rewriting any text, every remaining path match is the mount path |
| SaveBack.PlacementKeepsMatches | internal/services/services.go:562-567 | rewriting role constraints changes neither extent nor text of a path match |
| SaveBack.PlacedHasNoRole | internal/services/services.go:562-568 | no worker constraint is left, for every text |
| SaveBack.ReplacedPaths | internal/services/services.go:632-648 | no variable reference is left, and no path match but the mount path |
| SaveBack.RewritingLeavesNothing | internal/services/services.go:644-647 | with a mount path that takes part in no match, whatever stands around it, no path match is left at all |
| SaveBack.ProcessedText | internal/services/services.go:407-425 | these properties hold of the whole processed text, for every stable mount path |
| SaveBack.ProcessIdempotent | internal/services/services.go:443-450 | processing the saved result again changes nothing and finds nothing to do |
| SaveBack.DeployTwice | internal/services/services.go:398-450 | two deployments in a row leave the file as the first wrote it |
| MountPaths.StableRewriting | internal/services/services.go:644-647 | for every non-empty mount path, rewriting twice is rewriting once for all texts exactly if the mount path settles |
| MountPaths.StableMountPaths | internal/services/services.go:407-450 | for every absolute mount path without `$`, with dedicated workers and without, repeated deployment is stable for all files exactly if the pattern accepts the mount path, or finds no match in it even with `/a/a` behind |
| TextCount.PlacementCounts | internal/services/services.go:562-568 | rewriting role constraints keeps the number of characters that stand neither in names nor for white space, and never lowers the number of those that are not white space |
| MountGrowth.DeeperMountGrows | internal/services/services.go:407-450 | if an absolute mount path without `$` contains a match without being one, every text with a storage path grows with each deployment, without bound, with dedicated workers and without |
| MountPaths.ShallowMountLosesDirectory | internal/services/services.go:644-647 | with mount path `/mnt/data` the second deployment drops a directory from a path |
| Store.FileStore.SaveLocked | internal/controller/store.go:150-166 | a save replaces the state file only by the completed rename, and touches nothing but the temporary file before it |
| Store.FileStore.AddRegistration | internal/controller/store.go:79-100 | the scan updates the first entry with the key or appends; memory keeps the change when the save fails |
| Store.FileStore.RemoveRegistration | internal/controller/store.go:102-124 | removes the entry with the key and saves; an unknown key is success without saving |
| Store.FileStore.SetFields | internal/controller/store.go:126-148 | reset and the flag setters change their fields and save |
| Store.UpsertRefines | internal/controller/store.go:83-94 | registering is a map update, keeps keys unique, and leaves the order of everyone else alone |
| Store.RemoveRefines | internal/controller/store.go:106-118 | removing is a map deletion that keeps exactly the others, in order |
| Store.CountIsCardinality | internal/controller/server.go:296-306 | a role count is the number of map keys with that role |
| Store.FileIsLastRename | internal/controller/store.go:52-75 | over any history the state file holds the memory state at the last completed rename |
| Store.ReloadAfterCrash | internal/controller/store.go:150-166 | reloading after a crash behind any file system action of an operation yields exactly that state |
| Store.SyncAfterHistory | internal/controller/store.go:79-166 | after any history from agreement, file and memory agree exactly if memory is as at the last completed rename; always if the last save completed; after a reported success exactly if that operation saved or they agreed before |
| Store.QuietRemovalHidesFailure | internal/controller/store.go:96-116 | a failed registration stays in memory, and a no-op removal then reports success over a stale file |
| Store.HistoriesKeepKeysUnique | internal/controller/store.go:79-124 | every history keeps hostname and role unique |
| Store.HistoriesKeepFlags | internal/controller/store.go:126-131 | over every history each flag is what the last setter or reset made of it |
| Store.HistoriesKeepStorage | internal/controller/store.go:137-142 | the same of the storage configuration |
| Store.HistoriesKeepDeployer | internal/controller/store.go:203-212 | the same of the deployer |
| Store.HistoriesKeepOrder | internal/controller/store.go:83-116 | over every history, untouched registrations stay as they are and in order, until a reset |
| Store.HistoriesRefineMap | internal/controller/store.go:79-135 | the in-place list refines a map with update, delete and clear |
| Controller.CountRoles | internal/controller/server.go:296-306 | the loop counts managers and workers, and no other role |
| Controller.HandleConn | internal/controller/server.go:139-233 | said on the action text: the empty text and "register" map the key to the registration, "deregister" removes it, "storage-ready" sets the flag, "check-status" changes nothing, any other text is refused; the response follows from the resulting state, and is missing exactly when a needed save fails |
| Controller.Serve | internal/controller/server.go:150-233 | the same as the store's own step |
| Controller.MessagesTakeNothing | internal/controller/store.go:83-94 | no register, storage-ready or check-status message lowers a role count or withdraws storage readiness |
| Controller.ReadyIsMonotone | internal/controller/server.go:192-233 | once the controller would answer ready it keeps doing so under such messages of any nodes, with or without failing saves |
| Controller.ReadyMeansReady | internal/controller/server.go:192-233 | with waiting enabled, a ready answer means exactly that the minimum counts hold and storage is ready for a participant |
| Controller.DeregisterCanBlock | internal/controller/server.go:153-154 | a deregistration can take readiness away |
| Orchestration.CommitIsStep | internal/controller/store.go:79-256 | the store operation inside an interleaved step is the store's own, in memory and after a reload |
| Orchestration.SwarmImpliesStorage | internal/controller/server.go:328-434 | in every interleaving with failing saves and restarts, a swarm recorded as set up implies ready storage when storage is enabled |
| Orchestration.SetupStartsOnce | internal/controller/server.go:395-428 | a setup starts again after a success only if a restart lost the success before it was saved |
| Orchestration.StuckStays | internal/controller/server.go:354-399 | from the blocked state no run without a storage-ready message leaves it |
| Orchestration.CollectsExactly | internal/controller/server.go:340-376 | the loop takes up storage exactly with waiting enabled, the minimum reached, storage due, and a storage node with an address |
| Orchestration.SetupStartsExactly | internal/controller/server.go:395-428 | between ticks a swarm setup can still start without a storage-ready message exactly if waiting is enabled, none is recorded, and storage, when enabled, is ready or not yet marked |
| Orchestration.RecoversExactly | internal/controller/server.go:336-399 | under the loop's own guards, storage can still become ready without a storage-ready message exactly unless it is ready nowhere, nothing is pending, and it is marked in memory and on disk or waiting is disabled |
| Orchestration.RecoversBetweenTicks | internal/controller/server.go:336-399 | between ticks, with file and memory in step: exactly if storage is ready, or not yet marked and waiting enabled |
| Orchestration.WithoutWaitingNothingHappens | internal/controller/server.go:340-343 | with waiting disabled no run marks storage or starts a setup |
| Orchestration.FailedMarkBlocks | internal/controller/server.go:381-384 | one way into the blocked state: a failed save of the mark, then a saved registration |
| Orchestration.CrashBetweenMarksBlocks | internal/controller/server.go:381-389 | the other: a crash between the two marks |
| Swarm.InitSwarm | internal/orchestrator/swarm.go:100-141 | moves nobody but the primary, leaves a manager alone, and otherwise a changed primary leads a cluster without anyone else; five tries unless cancelled, and success whenever initialising works, though questions and leaving fail |
| Swarm.VerifyManagerReady | internal/orchestrator/swarm.go:294-318 | success means the primary manages its cluster |
| Swarm.GetJoinTokens | internal/orchestrator/swarm.go:143-193 | the cluster id obtained is that of the primary |
| Swarm.JoinOne | internal/orchestrator/swarm.go:202-250 | members of the target cluster keep their role; a success leaves the host in it or in the stale swarm it could not leave; five tries unless cancelled, and success whenever joining works, though questions and leaving fail |
| Swarm.JoinNodes | internal/orchestrator/swarm.go:195-256 | the same over the whole list, wherever it stops; hosts outside every swarm join whenever joining works |
| Swarm.VerifySwarm | internal/orchestrator/swarm.go:258-291 | success means exactly that a truthful list arrived with the expected numbers of marked and unmarked lines, host names included in the search |
| Swarm.ReliableRun | internal/orchestrator/swarm.go:195-291 | without failures every configured host is listed, and the count of managers is right exactly if equally many hosts are miscounted on both sides, by a misplaced role or a marking name |
| Swarm.CountCoversAll | internal/orchestrator/swarm.go:266-287 | as many listed members as configured hosts, and no stranger, leaves no configured host out |
| Swarm.CountFixesRoles | internal/orchestrator/swarm.go:270-283 | if no worker manages the cluster and no host name is marked, the counts make every configured role right |
| Swarm.RolesExactly | internal/orchestrator/swarm.go:195-256 | once all are members, the roles are right exactly if no configured host stood in the cluster with the other role before |
| Swarm.MarksSomewhere | internal/orchestrator/swarm.go:270-272 | a text is marked exactly if "Leader" or "Reachable" stands somewhere in it |
| Swarm.MarkingNameFoolsCheck | internal/orchestrator/swarm.go:270-283 | a worker with a marking name lets the check pass while a manager is only a worker |
| Swarm.SwarmSetup | internal/orchestrator/swarm.go:25-98 | success means exactly the configured hosts are members, with right roles exactly if none stood in the cluster with the other role before, of which only workers matter when no name is marked; a converged swarm is left alone whatever fails; without failures the setup succeeds exactly if equally many managers and workers are miscounted |
| Storage.Machines.Bootstrap | internal/storage/microceph.go:74-160 | succeeds exactly if one of at most three attempts answers and the status check does; then the primary is a member |
| Storage.Machines.GenerateJoinToken | internal/storage/microceph.go:224-282 | the token follows from status, address and reply as stated, and a non-empty one is only given for a host outside the cluster |
| Storage.Machines.Join | internal/storage/microceph.go:285-372 | the join command runs only on a host outside the cluster; success follows exactly from the answers, and means membership |
| Storage.Machines.AddStorageTo | internal/storage/microceph.go:375-498 | hosts with reported disks are skipped; an error exactly if no disk answers and an allowed loop device fails; a failed disk command may have claimed its disk; without failures every eligible disk is added, or one loop device |
| Storage.Machines.VerifyHealthForMount | internal/storage/microceph.go:1667-1720 | the gate opens exactly when an answer arrives with a daemon and a majority up, and without failures exactly if there is a disk |
| Storage.OpenGate | internal/storage/provider.go:389-392 | the run goes on exactly then |
| Storage.DiskRoleTexts | internal/storage/provider.go:208-227 | the role texts that mean disks: worker, both, all or none, in any case of letters, between any white space |
| Storage.OnlyListedHostsGetDisks | internal/storage/provider.go:209-216 | only hosts of the role table get disks |
| Storage.ProtocolMeans | internal/storage/provider.go:208-411 | on a log that obeys the protocol: pool, then majority gate, before every mount; storage once per host, after all joins, never on a pure manager; no join of a member or before installation and bootstrap; nothing after a refused step |
| Storage.AllNodes | internal/storage/provider.go:162-176 | the deduplicated list is the first occurrences over managers then workers |
| Storage.StorageNodes | internal/storage/provider.go:318-323 | exactly the listed hosts with a storage role, each once |
| Storage.InstallAndJoin | internal/storage/provider.go:290-309 | obeys the protocol and, on success, leaves the host a member |
| Storage.SetupCluster | internal/storage/provider.go:157-411 | every run obeys the protocol, managers joining first, with all that this means for its log; it fails exactly if a step it needs is refused, and stops there; success means all hosts installed and joined, exactly the storage hosts served, every worker mounted; without failures it succeeds exactly if a disk is there or can be claimed |
| Deployer.GetStorageNodesByRole | internal/deployer/deployer.go:1319-1343 | "both" nodes stand in both lists, and the third list has every storage host once |
| Deployer.CategorizeNodes | internal/deployer/deployer.go:1347-1359 | "both" nodes are swarm managers |
| Deployer.SwarmHostsInOrder | internal/deployer/deployer.go:1347-1359 | the swarm lists are the enabled nodes of their roles, in configuration order, so that the first manager leads |
| Deployer.StorageHostsInOrder | internal/deployer/deployer.go:1319-1343 | the storage lists are the enabled storage nodes of their roles, in configuration order |
| Deployer.DisksFollowTheWorkerList | internal/deployer/deployer.go:1319-1343 | for every configuration, the hosts that get disks are those of the worker list exactly if each listed host's last entry agrees with its entries together |
| Deployer.DistinctHostsAgree | internal/deployer/deployer.go:1326-1335 | a configuration that lists every host once agrees |
| Deployer.LaterManagerLosesDisks | internal/deployer/deployer.go:2130-2144 | a host listed as worker and later as manager is mounted without disks |
| Deployer.SetupStorage | internal/deployer/deployer.go:2096-2127 | a successful setup serves the hosts that get disks and mounts the worker list, which are the same exactly if the roles agree |
| Ipv4.ToUint32IsQuad | internal/services/keepalived.go:448-451 | the first byte is the highest |
| Ipv4.Uint32RoundTrip | internal/services/keepalived.go:448-457 | the two 32-bit conversions are inverse to each other |
| VipScan.ByteRounds | internal/services/keepalived.go:341-344 | masking a byte rounds it down, and or-ing the complement fills it up |
| VipScan.SubnetIsRounding | internal/services/keepalived.go:335-344 | the byte loop yields the address rounded down to a multiple of 2^(32-p), and that plus 2^(32-p) - 1 |
| VipScan.WordMask | internal/services/keepalived.go:336-344 | which is masking the 32-bit number itself |
| VipScan.SubnetBytes | internal/services/keepalived.go:339-344 | the loop that fills both byte arrays |
| VipScan.Descend | internal/services/keepalived.go:397-446 | the downward loop: every outcome tells how many addresses were tried without expiry and that none of them is free; no wrap |
| VipScan.FindUnusedVip | internal/services/keepalived.go:322-446 | finds the highest free candidate strictly inside the subnet, and without an expired deadline exactly if there is one; "no unused" means all were probed and none is free; at most 2^(32-p) - 2 probes |
| Vrrp.PrepareNodes | internal/services/keepalived.go:89-191 | the survivors of the subnet filter are numbered from zero in order |
| Vrrp.SurvivorsInOrder | internal/services/keepalived.go:89-113 | the survivors are exactly the nodes that pass, in their order |
| Vrrp.SettingsAreUsed | internal/services/keepalived.go:232-257 | a configured priority or state, in upper case, is the one used, automatic ones are 100 minus the index and master only for the first, and the host is kept |
| Vrrp.ElectionBound | internal/services/keepalived.go:232-239 | effective priorities are distinct for every health assignment exactly up to 20 nodes, and then the expected node wins |
| Vrrp.PreparedElection | internal/services/keepalived.go:183-185 | in an automatic deployment exactly one node wins: the lowest-indexed healthy one, or the first |
| Vrrp.PriorityRange | internal/services/keepalived.go:234-234 | automatic priorities are in the range of section 5.3.4 of RFC 3768 exactly for the first 100 nodes |
| Vrrp.RouterIdRange | internal/services/keepalived.go:148-170 | the automatic router identifier lies in 1 to 255 and is the last octet, or 51 if that is zero; a configured number is kept, and other texts give 51 |
| IpDetect.ClassesArePrefixes | internal/ipdetect/ipdetect.go:122-149 | the byte tests agree with prefix membership in the RFC 1918, RFC 6598 and loopback ranges |
| PrivateProfile.PrivateProfileFollowsClasses | internal/nodeconfig/firewall.go:230-237 | the private-network firewall profile accepts exactly the sources this classification calls private or overlay |
| IpDetect.ChoiceByRange | internal/ipdetect/ipdetect.go:235-272 | who is eligible and who goes first, said with address ranges |
| IpDetect.IsInDockerSubnet | internal/ipdetect/ipdetect.go:162-169 | true exactly when some subnet contains the address |
| IpDetect.SelectBestIp | internal/ipdetect/ipdetect.go:235-272 | the result is the first candidate of the highest class among the eligible, and empty exactly when there is none |
| SshPool.OneConnectionPerHost | internal/ssh/pool.go:27-63 | in every interleaving, between two closes at most one connection per host is dialed and every caller that was given one was given that one |
| SshPool.EveryCallIsAnswered | internal/ssh/pool.go:27-63 | in every interleaving a call ends with the open connection the pool holds for its host, or because the host has no authentication, or because its own dialing failed |
| SshPool.OutcomesAreCalls | internal/ssh/pool.go:27-63 | an outcome is recorded only when a call ends |
| SshPool.ClosesAllAndOnlyOld | internal/ssh/pool.go:116-134 | in every interleaving exactly the connections dialed before the last close are closed, and later ones are in the map |
| SshPool.SomebodyCanStep | internal/ssh/pool.go:27-63 | no interleaving gets stuck |
| SshPool.NextKeepsLock | internal/ssh/pool.go:27-38 | the read-write lock excludes writers from everybody |
| Retry.Do | internal/retry/retry.go:66-109 | the loop returns what is specified over all attempts, and the k-th wait has its closed form |
| Retry.DoWithResult | internal/retry/retry.go:112-156 | the same for the variant with a value |
| Retry.SuccessExactly | internal/retry/retry.go:64-65 | success exactly when some attempt succeeds before exhaustion or cancellation; at most the configured number of attempts |
| Retry.WaitsAreCapped | internal/retry/retry.go:96-100 | with an initial wait within the cap, the k-th wait is the capped doubling and all waits together stay within (attempts - 1) times the cap |
| Retry.CapMissesFirstWait | internal/retry/retry.go:67-93 | the cap holds for all waits of all runs exactly if the initial wait respects it or there is at most one attempt |
| Retry.JoinLoop | internal/nodeagent/nodeagent.go:87-130 | joining succeeds exactly when the first decisive reply is ready; one wait follows each undecided reply, doubling up to 32 seconds |

## Left out

- SSH transport, dialing, key generation and key files: foreign libraries and I/O.
- Shell script bodies for installs, disk preparation, mounts and fstab: external tools without semantics in the repository.
- Logging, geolocation, overlay tools, management panels and command-line handling: plumbing.
- Nginx text, htpasswd files and the Portainer password injection: text without a modelled reader, and an opaque hash.
- JSON encoding of the state file: an encoded state is taken to decode to itself; a torn file is refused.
- Durability below the rename: the model has process crashes, not power loss without a flush.
- Swarm join tokens, manager addresses and response change detection in the controller: they do not influence the status answered.
- The shared backing array of returned snapshots: a snapshot's node list is a value here, so reads racing with a deregistration are not modelled.
- Firewall actions other than ACCEPT and DROP, and service names, hexadecimal or zero-padded port texts: refused by the model, while iptables knows more.
- The test whether any rule is enabled before the script is generated, and the script's backup and persistence commands: they do not touch the chain.
- Source names that resolve to several addresses, source lists in one text, and comments iptables rejects for quotes or length: a source is one network here, and comments do not matter.
- Kernel counters behind the rate limiting rules: the packet carries whether they match.
- `$` references in a mount path: regular expression replacement would expand them, so repeated deployment is judged for mount paths without `$`; relative mount paths are judged for the path rewriting alone.
- Host names: the name a host is configured with, and the one `docker node ls` prints, are taken to be the same.
- `parseBindMounts`, `parseServiceMetadata`, script conditions and configuration defaults: single branches settle them.
- Stale entries of hosts that left a swarm: the node list is taken to report current members only.
- A cluster identifier that is empty or part of another status text: identifiers are compared as a whole.
- Members of a foreign storage cluster: a successful status answer is taken to mean this cluster.
- The object storage gateway step after mounting, which has error exits of its own: `SetupCluster` ends with the mounts.
- What `docker info` tells on a worker: its cluster identifier is taken to be reported, as on a manager.
- Best-effort waits for disk daemons and cluster health, and the mount helper script: their results do not change what the setup does.
- `DetectPrimary` on local interfaces: the same buckets as the modelled choice, with loopback as a last resort.
- Real time: a timeout is an early failure that may come at any step.
- Floating point in the backoff: doubling is exact in the range of the configurations.
- SwarmSetup: does not promise right roles without a condition, because the source's final check only counts marked lines; the exact condition is stated instead.
