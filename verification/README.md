# Verified model of podman-swarm's state, naming and scheduling logic

This project models the parts of the podman-swarm agent whose behaviour depends on state over
time or on reasoning about names, and proves what they guarantee. `dafny verify dfyconfig.toml`
(Dafny 4.11) checks the whole project.

| file | models |
|---|---|
| `Types.dfy` | the resources of `internal/types`, as far as an operation reads or writes them |
| `Storage.dfy` | one node's store: the resource maps, the merge of a peer's state, `persist` and `Load` over two files |
| `CrashSafety.dfy` | runs of one node with crashes at any point inside or between operations |
| `Entries.dfy`, `Cluster.dfy` | N nodes that save, delete, broadcast, receive and crash: provenance and persistence of entries |
| `Resources.dfy` | a store as a map from kind, namespace and name |
| `Versions.dfy` | which version of an entry a node holds, and when that is the newest |
| `Gossip.dfy` | dissemination of the state broadcasts, merges of two nodes, stability of what was reached |
| `Convergence.dfy` | a schedule of broadcasts after which N nodes hold the same content for good |
| `LogReader.dfy` | the reader that joins a container's stdout and stderr channels |
| `Strings.dfy`, `Naming.dfy` | dotted names and the parsers of A and SRV query names |
| `Whitelist.dfy`, `Forwarding.dfy` | the DNS whitelist, its management operations, CNAME validation and upstream failover |
| `Registry.dfy`, `RegistryRuns.dfy` | the service-discovery registry, its refinement, replication and health sweep |
| `Scheduling.dfy`, `Lifecycle.dfy`, `PodAccounting.dfy` | pods from apply to delete and through recovery |
| `IngressRouting.dfy` | rule matching and the round-robin cursor |

Objects that the source updates in place are classes, and every method states its new state
through a specification function. The theorems are about those functions: each run-level
function (`Run`, `RunTable`, `After`, `Apply`, `RecoverAll`, `PicksFor`, ...) is built from the
functions that the methods are proved against.

What the environment decides is a parameter: clock readings (`now`), the fate of a call of
`persist`, the select case that fires, map iteration orders, random choices and generated IDs,
Podman's and the upstream servers' answers. Each method body is one atomic step. Times are
integers (nanoseconds for the registry), so there is no wrap-around. The JSON library is a pair
of functions; where a theorem needs it, decoding is assumed to invert encoding.

Assumptions beyond that are hypotheses of the single theorems: a shared clock that ticks strictly
upwards (dissemination, convergence, stamps that never settle, newest modification), local clocks
that do not go back (stamps, health sweep), fresh IDs (pod accounting), a cluster domain that is
non-empty and has at most one final dot (name round trips), namespaces without a dot where triples
must not collide (registry) and without a slash where resources must not (store, ingress cursors).

## Where the code departs from its documentation

- The comments of `internal/dns/dns.go` document `service.namespace.svc.<domain>` as a second
  name of the service, and `_port._protocol.service.namespace.svc.<domain>` as a second SRV name;
  SERVICE_COMMUNICATION.md does the first. Both parsers trim the shorter suffix first, so neither
  form ever parses to the service, under any domain: `Naming.SvcFormAsShipped` and
  `Naming.SrvSvcFormAsShipped` give the exact results, `Naming.CorrectedOrderRoundTrips` and
  `Naming.CorrectedSrvOrderRoundTrips` the intended property for the other order.
- A pod that is started takes its container's ID but stays filed in the scheduler under the
  generated one. Its state is therefore never updated, and deleting the deployment leaves it
  behind: `PodAccounting.ApplyThenDelete` and `PodAccounting.DeleteUndoesApplyIff` say exactly
  what remains and when nothing does, `PodAccounting.CorrectedDeleteUndoesApply` proves the
  intended property for a table that files the pod anew.
- STORAGE.md promises that the newest modification wins. The stamp is one per state, not one per
  entry, and a merge re-stamps the receiver: an older entry of a newer state overwrites a newer
  entry of an older one (`Gossip.OlderEntryCanWin`). `Versions.NewestModificationWinsIff` says of
  one merge, and `Versions.NewestWinsIff` of whole runs, exactly when the promise is kept: when at
  every delivery the stamps of the two states, and for pods the creation times, come in the order
  of the modifications.
- A delete is not replicated. The deleting node gets the key back with the next newer state that
  still holds it, or in a restart that finds it on disk, and in no other way:
  `Cluster.AbsenceStaysIff` is the exact condition for it to stay deleted over a whole run, and
  `Gossip.DeletedKeyComesBack` a schedule that brings it back everywhere.
- STORAGE.md promises that all nodes reach a consistent view. `Convergence.AllConverge` gives a
  schedule of broadcasts after which they have, from any start with two different stamps, except
  for pods that tie as the youngest. With equal stamps they never move
  (`Convergence.EqualStampsAreDeaf`). Equal content alone is not stable, as an old message may
  still arrive (`Gossip.OldMessageBreaksAgreement`); it is when all nodes have passed the old
  messages (`Gossip.EqualContentIsStable`), as after that schedule (`Convergence.ConvergedForGood`).
- The `-cluster-domain` flag accepts a domain with a final dot. The parsers then cut nothing off any
  name, so that no name of a service parses to it (`Naming.TrimQualified`,
  `Naming.ServiceNameRoundTrip`).
- A state that memory holds may be lost in a restart although the operation that made it has
  returned, with an error: `Cluster.RestartFindsFactIff` says exactly when.
- The pass over CNAME chains in `validateCNAMERecords` follows no chain. It repeats the check on
  names that are normalised a second time. `Forwarding.ChainPassRejectsIff` and
  `Forwarding.EmptyHostChainPassIff` say exactly for which targets that changes the verdict: for
  some with two or more trailing dots, and for ordinary host lists only when the empty name is
  listed and the target ends in exactly two.
- A whitelist host written with two trailing dots can admit more than the documented rule:
  `Whitelist.LookupIsRuleIff` says exactly for which host lists the lookup decides the rule. Hosts
  with more than one trailing dot do not survive a read and a write back
  (`Whitelist.ListingRoundTripIff`).

## Model

| member | source | states |
|---|---|---|
| Storage.Store.constructor | internal/storage/storage.go:35-61 | a store starts with the whole decoded state file, and empty when there is none or it cannot be read |
| Storage.Store.Load | internal/storage/storage.go:310-356 | loading errs exactly on an unreadable or undecodable file and then changes nothing; a missing file is no error |
| Storage.Store.Persist | internal/storage/storage.go:278-307 | for every point at which the write or rename can fail or the process can die: what both files hold and whether nil, an error or nothing is returned |
| Storage.Store.SaveDeployment | internal/storage/storage.go:64-73 | files the deployment under namespace/name, stamps the state, persists the new state, and returns the outcome of that |
| Storage.Store.SaveService | internal/storage/storage.go:115-124 | the same for services |
| Storage.Store.SaveIngress | internal/storage/storage.go:166-175 | the same for ingresses |
| Storage.Store.SavePod | internal/storage/storage.go:217-226 | the same for pods |
| Storage.Store.DeleteDeployment | internal/storage/storage.go:90-99 | removes the key if present, and stamps and persists even when it was absent |
| Storage.Store.DeleteService | internal/storage/storage.go:141-150 | the same for services |
| Storage.Store.DeleteIngress | internal/storage/storage.go:192-201 | the same for ingresses |
| Storage.Store.DeletePod | internal/storage/storage.go:243-252 | the same for pods |
| Storage.Store.GetDeployment | internal/storage/storage.go:76-87 | what is filed under namespace/name, or an error when there is nothing |
| Storage.Store.GetService | internal/storage/storage.go:127-138 | the same for services |
| Storage.Store.GetIngress | internal/storage/storage.go:178-189 | the same for ingresses |
| Storage.Store.GetPod | internal/storage/storage.go:229-240 | the same for pods |
| Types.ResourceKeyIff | internal/storage/storage.go:68 | with namespaces without a slash two pairs of namespace and name have one key if and only if they are the same pair |
| Types.SlashedNamespaceCollides | internal/storage/storage.go:68 | every namespace with a slash shares each of its keys with a resource of one without |
| Resources.OnlySubjectChanges | internal/storage/storage.go:64-99 | every save or delete is seen by the next lookup of that kind, namespace and name, changes no other lookup of any kind, and stamps the state |
| Resources.StoreIsAMap | internal/storage/storage.go:64-99 | over whole runs of saves and deletes a lookup gives what was last saved for that kind, namespace and name, and nothing after a delete |
| Resources.OtherResourcesStayIff | internal/storage/storage.go:375-412 | over whole runs of the cluster in which a node is called for other resources only, it holds the same for this one if and only if no survived delivery of another version and no restart replaces it |
| Storage.Store.MergeState | internal/storage/storage.go:375-412 | only a strictly newer state is overlaid and persisted, pods only where younger, and the result carries the local time; an ignored state changes neither memory nor files and returns nil |
| Storage.Store.Overlay | internal/storage/storage.go:384-397 | the range loop, in any iteration order, yields the incoming entries on top of the local ones |
| Storage.Store.OverlayPods | internal/storage/storage.go:401-405 | the pod loop, in any iteration order, replaces a local pod exactly by a younger one |
| Storage.Store.BroadcastState | internal/storage/sync.go:18-36 | the message is a snapshot of the whole state with its stamp, the node's name and the time; there is an error exactly when it cannot be marshalled or sent |
| Storage.Store.HandleStateSyncMessage | internal/storage/sync.go:39-58 | a decodable state_sync message with a state is merged; every other message leaves memory and files alone, and only an undecodable one is an error |
| CrashSafety.FileIsLastCommit | internal/storage/storage.go:278-307 | in every run with crashes at any point, state.json is absent until the first rename and then always the whole encoding of what memory held at the last one |
| CrashSafety.RestartFindsLastCommit | internal/storage/storage.go:310-356 | a restart finds exactly the state of the last commit, or the empty one when there was none, never a mixture or a torn file |
| CrashSafety.AcknowledgedSurvives | internal/storage/storage.go:278-356 | from any files, a state whose persist returned nil is what a restart finds, whatever failed persists, crashes and restarts follow, until another rename |
| Cluster.Provenance | internal/storage/storage.go:64-73 | over all runs of N nodes with lost, repeated and reordered messages and crashes, every entry in memory, on disk or under way was given to a Save method at some node under that key |
| Cluster.FactLostIff | internal/storage/storage.go:90-99 | one step takes a key, or a pod at least so young, from a living node if and only if it is that node's own delete (or its save of an older pod), or a restart that does not find it; no merge and no other node's event does |
| Cluster.FactsStayIff | internal/storage/storage.go:375-412 | over whole runs without the node's own undoing, memory keeps the key, or the pod's CreatedAt, at all times if and only if every restart of the node finds it on disk |
| Cluster.FactsSurviveRestarts | internal/storage/storage.go:278-356 | once also on disk it is kept in memory and on disk through failed persists, deaths inside them, merges and readable restarts |
| Cluster.RestartFindsFactIff | internal/storage/storage.go:278-356 | a restart finds what memory held if and only if the file can be read, and it was on disk before or some persist since reached its rename |
| Cluster.AbsenceStaysIff | internal/storage/storage.go:90-99 | over whole runs without an own save of it, a key that a node does not hold stays away if and only if no survived delivery of a newer state with the key and no restart that finds it on disk brings it back |
| Cluster.NodeRunsAlone | internal/storage/sync.go:39-58 | what a node of the cluster goes through is a run of the single-node crash model |
| Cluster.NodeFileIsLastCommit | internal/storage/storage.go:278-307 | so at every node state.json is the encoding of what its memory held at its last rename, whatever it merges |
| Cluster.StampNeverGoesBack | internal/storage/storage.go:380-409 | while a node is up, with a local clock that does not go back, lastModified does not either and never passes the latest local reading, whatever clocks the peers have |
| Cluster.StampFloorSurvivesRestarts | internal/storage/storage.go:380-409 | through readable restarts it never goes back behind a stamp that is also on disk |
| Versions.NewestModificationWinsIff | internal/storage/storage.go:380-405 | of two versions that meet in a merge the one modified later wins if and only if the stamps of the states, and for pods the creation times, are in the order of the modifications |
| Versions.DatesAreSaveTimes | internal/storage/storage.go:64-73 | in every run the modification times traced through merges, files and messages are those of the saves of the very entries held |
| Versions.NewestWinsIff | internal/storage/storage.go:375-412 | over whole runs with crashes and any delivery order, a node holds the newest version it has heard of at all times if and only if at every delivery that gate agrees with the modification times |
| Versions.NewestIsHeld | internal/storage/storage.go:380-405 | that version is the entry that was saved at that time |
| Gossip.RoundIsOneMergePerNode | internal/storage/storage.go:375-412 | one fully delivered broadcast makes every reached older node merge exactly once and changes no other, in any delivery order and with repetitions |
| Gossip.Dissemination | internal/storage/sync.go:18-58 | if m is stamped newer than h, the broadcasts m, h, m leave every node with every key h held and no pod older than h's, whoever ignored which message |
| Gossip.ClusterDissemination | internal/storage/sync.go:18-58 | the same as a property of the runs of the crash model, with any outcome of the receivers' persists |
| Gossip.UncontestedItemArrives | internal/storage/storage.go:384-405 | a resource of h that no node holds in another version arrives at every node unchanged |
| Gossip.TwoRoundsAreNotEnough | internal/storage/storage.go:380-409 | a concrete run in which the broadcasts m, h alone leave a node without h's deployment |
| Gossip.OlderEntryCanWin | internal/storage/storage.go:380-387 | a run in which a deployment saved last loses to an older version, because the other node's state was touched later |
| Gossip.DeletedKeyComesBack | internal/storage/storage.go:90-99 | a delete changes no other node, and the deleting node's next broadcast, answered by any node that has the key, brings it back to every node |
| Gossip.MutualMergeConverges | internal/storage/storage.go:380-409 | after A merges a newer B and B merges the result both hold equal deployments, services and ingresses, and equal pods if and only if no two different pods tie on key and creation time |
| Gossip.ContentChangesIff | internal/storage/storage.go:380-405 | a merge changes the content of a node if and only if it takes an entry that the node does not have, or has with another value |
| Gossip.ContentStaysIff | internal/storage/storage.go:375-412 | over whole runs in which a node changes nothing itself its content stays if and only if no survived delivery brings it such news and no restart finds another content |
| Gossip.EqualContentIsStable | internal/storage/storage.go:380-409 | once all nodes have equal content and every message that may still arrive has it too or is newer than no node, no run of broadcasts and deliveries changes it |
| Gossip.OldMessageBreaksAgreement | internal/storage/storage.go:380-387 | a run in which two nodes with equal content part again, by an old message |
| Convergence.AllConverge | internal/storage/sync.go:18-58 | N nodes, two of them with different stamps: after a fixed schedule of fully delivered broadcasts, in any delivery order, all hold the same deployments, services and ingresses, and the same pods if and only if no two different pods tie as the youngest under a key |
| Convergence.ConvergedForGood | internal/storage/sync.go:18-58 | in the crash model, without such ties: after the schedule no run of broadcasts and deliveries, of messages sent before, during or after it, changes the content of any node |
| Convergence.ApartForGood | internal/storage/storage.go:407-408 | two nodes whose stamps differ never get the same stamp in full rounds |
| Convergence.EqualStampsAreDeaf | internal/storage/storage.go:380 | when all stamps are equal and no message is newer, no broadcast or delivery changes any node |
| Gossip.StampsNeverSettle | internal/storage/storage.go:407-408 | once two stamps differ, no run of broadcasts and deliveries, of new or old messages, makes all stamps equal, and some broadcast still re-stamps a node |
| LogReader.CombinedLogReader.Read | internal/podman/podman.go:243-280 | the new fields, the bytes copied to the front of the caller's slice and the error are those of one step of the specification; the rest of the slice is untouched |
| LogReader.NothingLostOrRepeated | internal/podman/podman.go:243-280 | at every moment of every run, the lines received so far are an order-preserving merge of a prefix of each stream, and their bytes are those returned plus those buffered |
| LogReader.ReadsOneMerge | internal/podman/podman.go:243-280 | up to EOF the bytes returned are exactly a merge of all stdout and stderr lines, each ended by a newline, for any interleaving, slice sizes and reported errors |
| LogReader.EveryMergeCanBeRead | internal/podman/podman.go:248-280 | conversely every order-preserving merge is the output of some run up to EOF |
| LogReader.LinesReadAreOneMerge | internal/podman/podman.go:248-267 | splitting the bytes read up to EOF at line feeds gives one merge of the lines of both streams |
| LogReader.ErrorsAreReported | internal/podman/podman.go:261-267 | a Read reports an error exactly when one arrives at its select, that very error, and then returns and loses nothing |
| LogReader.StepKeepsLive | internal/podman/podman.go:269-274 | without Close the reader is closed exactly when both channels were seen closed, never with bytes buffered, and EOF is reported exactly then |
| LogReader.NothingAfterClose | internal/podman/podman.go:282-285 | after Close every Read reports EOF, and what was still buffered or to come is never returned |
| LogReader.ReachesEof | internal/podman/podman.go:243-280 | with non-empty slices the reader is closed after as many reads as there are bytes, open channels and reported errors to get through |
| LogReader.ReadMakesProgress | internal/podman/podman.go:248-280 | every such read that reports no error strictly decreases that measure |
| LogReader.NeverStuck | internal/podman/podman.go:248-267 | while the reader is open some channel case of its select can fire |
| Naming.ParseLabelsIff | internal/dns/dns.go:350-360 | splitting and joining takes a name apart at its last dot, uniquely, and errs exactly on a name without a dot |
| Naming.ParseSrvLabelsIff | internal/dns/dns.go:374-392 | a trimmed SRV name parses to a result if and only if it is _port._protocol.service.namespace with dot-free port, protocol and namespace |
| Naming.TrimQualified | internal/dns/dns.go:343-348 | trimming a name under the cluster domain, absolute or not, gives the base, less a .svc.<domain> at its end; under a domain configured with a final dot it cuts off nothing |
| Naming.ServiceNameRoundTrip | internal/dns/dns.go:342-361 | for a dot-free namespace the cluster name of a service parses back to it if and only if the domain is configured without a final dot and the key does not end in .svc.<domain> |
| Naming.SrvNameRoundTrip | internal/dns/dns.go:366-392 | the SRV name (form of RFC 2782) of a service parses back to port, protocol, service and namespace if and only if the domain is configured without a final dot and the key does not end in svc.<domain> at a label boundary |
| Naming.SvcFormAsShipped | internal/dns/dns.go:346-348 | under every domain, with or without a final dot, the exact result for the .svc form: never the service, and namespace svc if and only if the domain has no final dot and key.svc does not end in .svc.<domain>, as never when the domain's last label is not svc |
| Naming.SrvSvcFormAsShipped | internal/dns/dns.go:366-372 | the same for the documented SRV form |
| Naming.CorrectedOrderRoundTrips | internal/dns/dns.go:337-341 | with the longer suffix tried first every .svc form parses back, and the short form if and only if the namespace is not svc |
| Naming.CorrectedSrvOrderRoundTrips | internal/dns/dns.go:277-278 | the same for SRV names |
| Naming.DefaultDomainIsPlain | internal/dns/dns.go:17 | the default cluster domain, cluster.local, meets the hypotheses of the name theorems, and its last label is not svc |
| Whitelist.DnsWhitelist.SetWhitelist | internal/dns/dns.go:420-438 | the table becomes the normalised hosts, bare and dotted, and nothing of the old one |
| Whitelist.DnsWhitelist.GetWhitelist | internal/dns/dns.go:441-457 | lists every stored host without its final dot exactly once, in any iteration order |
| Whitelist.DnsWhitelist.IsHostAllowed | internal/dns/dns.go:467-493 | true if and only if the whitelist is off or some suffix of the normalised name at a label boundary is listed |
| Whitelist.LookupIsRuleIff | internal/dns/dns.go:467-493 | for all queries with at most one trailing dot a name is allowed exactly when it is a whitelisted host or lies below one, if and only if in front of every host that keeps a dot in normal form there is a listed host at or above |
| Whitelist.LookupIsRule | internal/dns/dns.go:467-493 | so it is for all host lists with at most one trailing dot |
| Whitelist.LookupInPlainTerms | internal/dns/dns.go:467-493 | in terms of the names as written: less one final dot, and whatever the case of letters, the query is a host or ends in a dot and a host |
| Whitelist.SpellingDoesNotMatter | internal/dns/dns.go:428-435 | case and one final dot make no difference, in queries and in hosts |
| Whitelist.RuleFailsForDoubleDots | internal/dns/dns.go:428-435 | a host with two trailing dots and a query for which that rule fails |
| Whitelist.SubdomainsAreAllowed | internal/dns/dns.go:483-490 | every name below an allowed name other than the empty one is allowed, whatever the table holds |
| Whitelist.MoreHostsAllowMore | internal/dns/dns.go:428-435 | a longer host list never forbids what a shorter one allows |
| Whitelist.AddDNSWhitelistHost | internal/api/api.go:439-478 | status and new table of the add handler, with 500 and, for a body that cannot be parsed or names no host, 400 leaving the table alone |
| Whitelist.RemoveDNSWhitelistHost | internal/api/api.go:481-508 | status and new table of the remove handler |
| Whitelist.ListingRoundTripIff | internal/dns/dns.go:420-457 | reading and setting the whitelist leaves the table identical if and only if every host was given with at most one trailing dot |
| Whitelist.ReachableTablesRelistIff | internal/dns/dns.go:420-457 | in every state reached by any management calls it does if and only if no key of the table ends in two dots |
| Whitelist.ReachableTablesRelist | internal/dns/dns.go:420-457 | so it does when all calls name hosts with at most one trailing dot |
| Whitelist.AddToAnyTable | internal/api/api.go:459-471 | what adding a host makes of any table: all hosts relisted, each with trailing dots less one dot and less two, and the new one in normal form |
| Whitelist.RemoveFromAnyTable | internal/api/api.go:493-501 | the same for removing: of all listed names only the host as it is written goes |
| Whitelist.AddExtendsTable | internal/api/api.go:459-471 | to a table of normal forms, adding any host adds exactly that host in normal form |
| Whitelist.RemoveShrinksTable | internal/api/api.go:493-501 | from a table of normal forms, removing drops exactly the host named, and nothing when it is not listed, as when it is not in normal form |
| Whitelist.RemoveUndoesAddIff | internal/api/api.go:459-501 | in a table of normal forms, removing a host just added restores the table if and only if it was given in normal form and new, or in another form with at most one trailing dot and already there, or with more dots and already there without them |
| Forwarding.Server.ForwardQuery | internal/dns/dns.go:167-236 | exactly one reply is written: REFUSED if and only if the whitelist rejects the name, else the answer of the first usable upstream in list order, else SERVFAIL |
| Forwarding.ReplyFromExchanges | internal/dns/dns.go:167-236 | for an allowed name the reply is the message of the least upstream that gave a NOERROR one with all CNAME targets allowed, over UDP, or over TCP after UDP failed; SERVFAIL if and only if there is none, REFUSED if and only if the name is not allowed, both with the query's id and first question |
| Forwarding.TcpOnlyAfterFailure | internal/dns/dns.go:197-206 | the reply does not depend on what TCP would answer where UDP did not fail |
| Forwarding.Server.ValidateCnameRecords | internal/dns/dns.go:496-530 | true if and only if every CNAME target of Answer and Extra is allowed as written and in normal form |
| Forwarding.Server.ExtractCnameTargets | internal/dns/dns.go:533-560 | the normalised targets of both sections, each once |
| Forwarding.ChainPassIsRedundant | internal/dns/dns.go:519-527 | the chain pass never changes the verdict when the targets carry at most one trailing dot |
| Forwarding.ChainPassRejectsIff | internal/dns/dns.go:519-527 | for all hosts and targets: an allowed target is rejected by the chain pass if and only if it ends in two dots or more, no label suffix of it without two of them is listed, and the empty name or a host with three trailing dots at or above is |
| Forwarding.EmptyHostChainPassIff | internal/dns/dns.go:519-527 | under hosts with at most one trailing dot: if and only if the empty name is listed, the target ends in exactly two dots and is not just these, and no other host lies at or above it |
| Forwarding.ChainPassVerdictIff | internal/dns/dns.go:496-530 | the pass changes the verdict on a response that is allowed as written if and only if one of its targets is such a target |
| Forwarding.ChainPassAcceptsAllowed | internal/dns/dns.go:519-527 | so it never does when no whitelisted host is the empty name |
| Forwarding.ChainPassRejectsDoubleDot | internal/dns/dns.go:519-527 | a target for which it does when the empty name is whitelisted |
| Registry.Discovery.RegisterService | internal/discovery/discovery.go:72-113 | files a healthy endpoint with the node's address and the first port under its two keys and broadcasts it |
| Registry.Discovery.DeregisterService | internal/discovery/discovery.go:116-138 | removes the endpoint, and an inner map left empty, and broadcasts only what was there |
| Registry.Discovery.HandleServiceUpdate | internal/discovery/discovery.go:219-267 | files or removes the endpoint named in the message, stamped with the local time; any other action or type of message changes nothing, and only an undecodable one is an error |
| Registry.Discovery.HealthCheck | internal/discovery/discovery.go:270-288 | marks exactly the endpoints not seen for more than thirty seconds, in any iteration order |
| Registry.Discovery.GetServiceEndpoints | internal/discovery/discovery.go:170-189 | the live endpoints in iteration order, or an error for an unknown key |
| Registry.Discovery.GetServiceAddresses | internal/discovery/discovery.go:141-167 | their addresses and ports, or an error when there are none |
| Registry.Discovery.ListServices | internal/discovery/discovery.go:291-309 | exactly the services with a live endpoint, each with its live endpoints |
| RegistryRuns.RegisteredIsFound | internal/discovery/discovery.go:72-113 | in every run a pod registered for a service is given by all three readers for thirty seconds, whatever is done elsewhere, with its ID, name and node, the node's known address or else its name, and the first port or else 0; then no longer |
| RegistryRuns.BroadcastIsFound | internal/discovery/discovery.go:219-267 | so it is at a peer, for thirty seconds from the receipt of the broadcast |
| RegistryRuns.ReadersAreExact | internal/discovery/discovery.go:141-189 | the readers give exactly the healthy endpoints seen less than thirty seconds ago, and the last two an entry or no error exactly when there is one |
| RegistryRuns.GivenInOrder | internal/discovery/discovery.go:181-186 | in the order of iteration |
| RegistryRuns.SweepMarks | internal/discovery/discovery.go:270-288 | a sweep takes the health from exactly what was not seen for more than thirty seconds, and changes nothing else |
| RegistryRuns.PlacesDoNotCollide | internal/discovery/discovery.go:62-69 | with dot-free namespaces no two triples of namespace, service and pod are filed in one place |
| RegistryRuns.DottedNamespaceCollides | internal/discovery/discovery.go:62-64 | every dotted namespace shares its service keys with a dot-free one |
| RegistryRuns.TableRefinesFlat | internal/discovery/discovery.go:99-138 | in every run with dot-free namespaces the two-level map is a faithful image of a plain map on triples, without empty inner maps |
| RegistryRuns.LookupIsExact | internal/discovery/discovery.go:170-189 | a lookup returns exactly the live endpoints that the plain map holds for the service, and errs exactly when it holds none |
| RegistryRuns.LookupHasNoDuplicates | internal/discovery/discovery.go:181-186 | an iteration that visits each entry once returns no endpoint twice |
| RegistryRuns.OwnPlacesKept | internal/discovery/discovery.go:245-264 | in every run, whatever the namespaces, each endpoint is filed under its own keys and no inner map is empty |
| RegistryRuns.LastWordDecides | internal/discovery/discovery.go:245-264 | the entry of a triple depends only on the last update for it, up to LastSeen and the verdict of the node's own sweep |
| RegistryRuns.ReplicasAgreeIff | internal/discovery/discovery.go:219-267 | two replicas hold the same entries apart from LastSeen and their sweeps' verdicts if and only if their logs agree on the last word on every triple, whatever was said before, whenever each of them sweeps and however different triples interleave; without sweeps the same with the verdicts |
| RegistryRuns.ReplayRebuilds | internal/discovery/discovery.go:192-267 | receiving one node's broadcasts on a place in order rebuilds the endpoint it holds there, whatever both nodes receive, register and sweep besides |
| RegistryRuns.ReplayRebuildsTable | internal/discovery/discovery.go:192-267 | receiving all broadcasts of a node that receives none rebuilds its whole table, whatever both of them sweep |
| RegistryRuns.SweepIsInvisible | internal/discovery/discovery.go:270-309 | over whole runs with a monotone clock, all three readers answer alike with the health sweep at any times and without it |
| Scheduling.Scheduler.SchedulePod | internal/scheduler/scheduler.go:31-61 | the pod takes the chosen node and is filed under its current ID, or nothing changes when no node fits |
| Scheduling.Scheduler.FindNodeBySelector | internal/scheduler/scheduler.go:64-81 | the search loop, in any order of the selector's keys, finds the first node that matches |
| Scheduling.PlaceFits | internal/scheduler/scheduler.go:36-55 | scheduling succeeds if and only if some node fits, and takes the first match of a selector or the random index |
| Scheduling.MatchesSelectorIff | internal/scheduler/scheduler.go:67-75 | a node matches if and only if it has every label of the selector with that value, or lacks one that is asked to be empty |
| Scheduling.Scheduler.RemovePod | internal/scheduler/scheduler.go:112-117 | removes what is filed under the ID |
| Scheduling.Scheduler.UpdatePodState | internal/scheduler/scheduler.go:133-144 | errs exactly when nothing is filed under the ID, and otherwise changes only that pod's state |
| Lifecycle.API.StartReplica | internal/api/api.go:163-191 | the table, the pod's final ID and the result of one replica, for every answer of scheduler and Podman |
| Lifecycle.API.ApplyDeployment | internal/api/api.go:146-198 | the table, the pods listed in the deployment and the result, stopping at the first failure; after success as many pods as desired |
| Lifecycle.API.DeleteManifest | internal/api/api.go:256-274 | removes the deployment and everything filed under the current IDs of its pods, or changes nothing for an unknown key |
| Lifecycle.API.RecoverDeployments | internal/api/recovery.go:11-104 | the table, the pods listed per deployment, the cache and the counts, going on after failures; an error if and only if something failed |
| Lifecycle.CachedHasLast | internal/api/recovery.go:69-70 | after recovery the cache holds under each key the last stored deployment with that key |
| PodAccounting.ResultMeaning | internal/api/api.go:172-191 | what is reported of a replica, and which ID it ends up with, for every answer of scheduler and Podman |
| PodAccounting.ApplyLists | internal/api/api.go:162-194 | an apply lists the pods of all replicas before the first that does not start up, in order, and reports that one's failure |
| PodAccounting.ApplyListsDesired | internal/api/api.go:162-194 | it succeeds if and only if it lists exactly the desired replicas, none for a number that is not positive |
| PodAccounting.ApplyThenDelete | internal/api/api.go:256-274 | deleting after any apply, successful or not, leaves the old table plus exactly the locally scheduled pods, pending, under their generated IDs; all remote pods go |
| PodAccounting.ResidueOfSuccess | internal/api/api.go:161-194 | after a successful apply those are all its local replicas |
| PodAccounting.DeleteUndoesApplyIff | internal/api/api.go:256-274 | a delete restores the table after a successful apply if and only if no replica was local |
| PodAccounting.CorrectedDeleteUndoesApply | internal/api/api.go:161-190 | with pods moved in the table from their generated to their container IDs it always does |
| PodAccounting.RecoverListsStarted | internal/api/recovery.go:26-66 | the recovery of a deployment lists exactly the replicas that start up, in order, and counts exactly the others |
| PodAccounting.RecoveryAccounts | internal/api/recovery.go:15-104 | whatever fails, listed pods plus failures equal the sum of the desired replicas, negative ones taken as 0, and there is an error if and only if some replica failed |
| PodAccounting.RecoveryGrowsTableByScheduled | internal/api/recovery.go:26-66 | with fresh IDs the table grows by exactly the replicas that were scheduled, failed containers included |
| IngressRouting.IngressController.AddIngress | internal/ingress/ingress.go:53-62 | the rule is entered under namespace/name, and no cursor moves |
| IngressRouting.IngressController.RemoveIngress | internal/ingress/ingress.go:65-74 | the rule is removed, and no cursor moves |
| IngressRouting.IngressController.FindRule | internal/ingress/ingress.go:88-106 | the nested search finds the first matching path of all rules in iteration order, or that there is none |
| IngressRouting.IngressController.HandleRequest | internal/ingress/ingress.go:77-127 | not found, unavailable, or routed to the endpoint under the service's cursor, which alone moves on |
| IngressRouting.ResponseMeaning | internal/ingress/ingress.go:108-127 | not found exactly when no path answers, unavailable exactly when the service has no live endpoint, else one of its endpoints; no other cursor moves |
| IngressRouting.HitIff | internal/ingress/ingress.go:89-92 | a path answers if and only if its rule is for that host or for all, and it is empty, equal when exact, or a prefix |
| IngressRouting.IngressesApart | internal/ingress/ingress.go:53-74 | adding or removing an ingress leaves the rules of all others alone |
| IngressRouting.CursorsApart | internal/ingress/ingress.go:121 | no two services share a cursor, with namespaces without a slash |
| IngressRouting.AnswersAreFair | internal/ingress/ingress.go:121-127 | over any run of requests as they are handled, with a fixed list of n distinct endpoints for a service and any other requests in between, n consecutive requests for it are answered by each endpoint once, and k by each floor(k/n) or ceil(k/n) times |
| IngressRouting.AnswersGoRound | internal/ingress/ingress.go:123-126 | for a service not asked for before the answers go round its list from the first endpoint |
| IngressRouting.MatchesPathIff | internal/ingress/ingress.go:168-188 | an empty path matches everything, an exact one itself, the others by string prefix, an unknown type nothing |
| IngressRouting.PicksAreInBounds | internal/ingress/ingress.go:124-126 | picks stay in bounds when the endpoint list changes its length between requests |
| IngressRouting.RoundRobinShare | internal/ingress/ingress.go:121-127 | the exact number of times each of n endpoints is picked in k requests, whatever other services are requested in between and wherever the cursor started |
| IngressRouting.RoundRobinIsFair | internal/ingress/ingress.go:121-127 | n consecutive requests pick every endpoint once, and k requests floor(k/n) or ceil(k/n) times |

## Left out

- Memberlist transport, sockets, HTTP handlers and the reverse proxy: input and output. A broadcast is a step after which its message may be delivered to any node any number of times, and a DNS exchange is an oracle.
- Locks and goroutines: every method body is one atomic step. `BroadcastState` takes a read lock twice and `handleRequest` takes the write lock while it holds the read lock; the model is of the sequential step that is meant.
- Pointer sharing between the API cache, the storage and the discovery readers: stored resources and endpoints are values. Only pods in the apply, delete and recovery models are shared objects.
- JSON, YAML, the Kubernetes decoder and Podman's bindings: libraries. Null maps or entries in a hand-written state file are not modelled.
- Storage.Store.constructor: creating the data directory and its error are not modelled.
- LogReader.CombinedLogReader.Read: the two channels are independent streams, each followed by its close, which allows every interleaving that the producer of `GetLogs` allows and more.
- Registry.Discovery.HandleServiceUpdate: messages with missing or mistyped fields, on which the handler panics, are not modelled.
- Registry.Discovery.GetServiceAddresses: an address is a pair of host and port, not their rendering as one string.
- Lifecycle.API.DeleteManifest: Podman's calls, the deletes in the storage and the service and ingress branches are not part of it.
- IngressRouting.IngressController.RemoveIngress: the removal from the proxy cache is not part of it.
- Forwarding.Server.ForwardQuery: the whitelist does not change during the call, and timeouts and rendering of messages are the oracle's affair.
- Lifecycle.API.RecoverDeployments: saving the deployments back and re-registering services are not part of it; both operations are modelled on their own.
- Lifecycle.API.ApplyDeployment: parsing the manifest and the call of `SaveDeployment` are not part of it, and pod names are not kept.
- Naming.ServiceNameRoundTrip: a configured domain with two or more final dots, which no DNS name has, is excluded.
- Whitelist.DnsWhitelist.IsHostAllowed: lower-casing is that of the ASCII letters. The whitelist lower-cases names and the name parsers do not, against section 2.3.3 of RFC 1035; the name theorems are about names as written.
- The per-service proxy cache of the ingress controller, which pins the first target chosen: fairness is about the cursor, and assumes an endpoint order that stays the same.
- Periodic backups, the API token table, the parsing of flags and environment variables, `IsLeader`, the numbering of SRV priorities and the dispatch of queries in `handleDNS`: none of them takes part in the protocols and names modelled here.
- Cryptography, TLS, join tokens and random numbers: foreign code.
