# Kermond verification model

Kermond keeps derived copies of state consistent under streams of callbacks: kernel routes and
neighbours that follow the configuration, and published paths that follow the kernel. This project
models the parts of the daemon that do that, together with two generators of its build, and proves
what the callbacks keep over whole runs. `dafny verify dfyconfig.toml` checks everything.

How it is built:

- **Static routes** (`iprouting/rib.c`). `RibSpec` is the reconciler as a function on values:
  rebuild, delete, or edit with delete and re-add. `Rib` is the same code on route objects that are
  shared, reference counted and edited in place; each method is proved to compute the `RibSpec`
  function. `RibAgreement` has table and kernel agreement over runs, `RibRefinement` the theorem that
  incremental update refines rebuilding, `RibExact` exactly when it does, `RibRuns` runs with rejected
  values and both families, `RibReplay` startup and removal, `RibPriority` the packed priority. `Bits`
  ties the C bit operators to arithmetic.
- **Dynamic entities** (`entity/entity.c`). `EntitySpec` states the published subnets as a join and
  the effect of each callback on it, `Entity` has the list and the store changed in place,
  `EntityConcurrent` both threads as a state machine over their atomic steps.
- **XML parser** (`xml2c`). `XmlEntities` is the substitution chain against a one-pass decoder of the
  predefined entities, `XmlPasses` when reading two kinds of references one after the other is one pass,
  `XmlNumeric` the chain against a decoder that reads numeric references too, `XmlText` the two string
  patterns against the text of a document, `XmlParser` the stack loop.
- **Publishing** (`netlink.c`, `iprouting/fib.c`). `Netlink` is the subscriber registry and what
  the cache manager holds of it, `Mirror` one subscriber whose registration races with changes, `FibKey`
  the key encoder.
- **Static neighbours** (`ip/neighbor-static.c`). `NeighborStatic`.
- **Path generator** (`cpaths.py`). `CPaths`.

The kernel's route table is a set with an abstract conflict key: an exclusive add fails if the key is
present, or when the kernel refuses for a reason of its own, which each event says. Address
parsing, address text, number parsing and the link map are functions of an environment record, and
the theorems hold for all of them; what they must satisfy is stated where it is used.

Where the code and its own comments or messages disagree, the model follows the code:

- The rebuild reads the IPv4 configuration for both families (iprouting/rib.c:224-227), and startup
  replays the IPv4 tree twice and the IPv6 tree never (iprouting/rib.c:443-444). Theorems about
  rebuilding and replay are about family 4; agreement and shutdown cover both families, because the
  tree that a callback finds is arbitrary there.
- Distance and metric are called the two components of the priority (iprouting/rib.c:163, 187), but
  the accepted bound 65536 does not fit in 16 bits. `RibPriority` and `RibExact` give the exact result.
- A message says that deleting a prefix is not supported (iprouting/rib.c:74), but the delete branch
  handles it before the parser is reached (iprouting/rib.c:361-367).
- Index 0 means "do not remove" (iprouting/rib.c:301), so a configured index 0 would not be removed
  from the table. Runs exclude it, and `DeleteKeepsAgreementIff` says why.
- Late interfaces replay IPv4 neighbours only (ip/neighbor-static.c:184-186), although IPv6 ones are
  watched. `LinkUpExactIff` is the exact condition.

## Model

| member | source | states |
|---|---|---|
| RibAgreement.Reachable | iprouting/rib.c:258-402 | in every state that any run of callbacks reaches, with other programs adding and deleting their own routes in between, the kernel holds the foreign routes plus exactly the routes of both tables, every stored route is valid with one nexthop and owned by one index, and no two kernel routes conflict; refused adds and rejected values are included |
| RibAgreement.WatchKeepsAgreement | iprouting/rib.c:339-398 | one callback keeps that agreement on each of its three branches, also when the add half of an update is refused after the delete half, and never changes what is foreign |
| RibAgreement.WatchDeletesOnlyItsOwn | iprouting/rib.c:360-393 | a callback asks the kernel to delete only the route its own index owned before, so never a foreign route |
| RibAgreement.IndicesNeverConflict | iprouting/rib.c:268-279 | two indices of either table never own routes that the kernel takes for the same one |
| RibAgreement.AddIff | iprouting/rib.c:258-282 | an add enters the table and the kernel together, exactly when the kernel does not refuse it and holds no route of the same key; otherwise it changes neither |
| RibAgreement.RefusedCallbackAddsNothing | iprouting/rib.c:268-279 | a callback whose add is refused leaves no new route in the kernel and no new or changed entry in the tables |
| RibAgreement.RequestsExplainKernel | iprouting/rib.c:258-309 | after any run of callbacks, replaying the recorded requests on the kernel of before the run gives the kernel of after it |
| RibAgreement.DeleteKeepsAgreementIff | iprouting/rib.c:300-307 | deleting a stored route keeps the agreement exactly when its index is not 0, the value that means "leave the table alone" |
| RibAgreement.DeleteAllEffect | iprouting/rib.c:404-408 | the shutdown walk, in any order, takes exactly the visited routes out of the kernel and leaves the tables it walks unchanged |
| RibAgreement.CleanShutdown | iprouting/rib.c:449-462 | after any run, shutdown leaves the kernel with the foreign routes only; when no other program changed routes, that is the set from before the start |
| RibRefinement.IncrementalRefinesRebuild | iprouting/rib.c:311-402 | after every write of every run of IPv4 writes, each table entry is what rebuilding its current configuration gives (or absent when that is not valid), except for indices whose last add the kernel refused |
| RibRefinement.IdAcceptedIff | iprouting/rib.c:59-66 | for every route and every 32-bit index, an id value is accepted exactly when it reads as the index, or as the index plus 2 to the 64 when the index is negative, and it never changes the route |
| RibRefinement.ParseAcceptsIff | iprouting/rib.c:48-213 | for a route of either family, which value of each leaf is accepted: a prefix and gateway that parse in the family of the route, a known interface, a distance and a metric that read as 1 to 65536 in 32 bits, the protocol "static", anything for an unknown leaf, and every delete but that of the prefix |
| RibRefinement.ParseEdits | iprouting/rib.c:48-213 | what an accepted value edits, for a route of either family: the destination, the only nexthop or one half of the priority, and nothing else; a metric of 65536 clears the low half and sets the lowest bit of the high half |
| RibRefinement.CompleteIsStored | iprouting/rib.c:215-359 | the callback of an absent index whose tree lists an id that reads as the index, a prefix and a gateway, in any order, stores the route written out field by field and adds it to the kernel, when the kernel takes it |
| RibRefinement.EitherFamilyIsStored | iprouting/rib.c:215-359 | the same for either family, given the tree that the callback finds; the route takes the family of the callback |
| RibRefinement.WriteConverges | iprouting/rib.c:339-398 | one write, on any of the three branches and from a stored or absent entry, leads to the route the new configuration describes or to no entry when the add was refused |
| RibRefinement.ParseSet | iprouting/rib.c:48-213 | setting one leaf on the stored route gives the same route as describing the new configuration from nothing |
| RibRefinement.ParseDelete | iprouting/rib.c:48-213 | the same for deleting a leaf, except the prefix and a nexthop leaf that is not set |
| RibRefinement.SettersAreIndependent | iprouting/rib.c:163-190 | the distance setter keeps the metric half and the metric setter keeps the distance half |
| RibRefinement.RebuildIsMeaning | iprouting/rib.c:215-256 | rebuilding from the tree gives the route its leaves describe, for every order in which the library lists them, including a metric of 65536 beside an odd distance |
| RibRefinement.DesiredIsRebuild | iprouting/rib.c:342-351 | the route that the refinement theorem speaks of is the one the code's own rebuild and validity test produce |
| RibRefinement.OnlyTheConfigurationCounts | iprouting/rib.c:311-402 | two different runs that end in the same configuration of an index end in the same table entry for it |
| RibExact.RebuildOrderFreeIff | iprouting/rib.c:242-253 | for accepted leaves, the rebuilt route is independent of the order of the tree exactly when nexthop and ifname are not both set and no metric of 65536 stands beside an even distance |
| RibExact.LastNexthopWins | iprouting/rib.c:113-116 | with both kinds of nexthop set, two orders of the tree rebuild different routes |
| RibExact.MetricOrder | iprouting/rib.c:187-195 | a metric of 65536 beside an even distance is rebuilt differently in two orders of the tree |
| RibExact.RejectedTree | iprouting/rib.c:247-251 | one rejected leaf anywhere in the tree makes the rebuild fail |
| RibExact.UpdateAgreesIff | iprouting/rib.c:368-398 | for a stored route of any configuration whose rebuild does not depend on the order, the updated entry agrees with every rebuild of the new configuration if and only if the value is accepted, does not add a second kind of nexthop, respects the spill of a metric of 65536, and is not a delete of the id leaf alone or of a nexthop leaf that is not set |
| RibExact.SetIff | iprouting/rib.c:370-390 | setting a leaf on the stored route gives the route of the new configuration exactly under that condition, with the exact rule for distance and metric once a metric of 65536 was set |
| RibExact.RunMirrorsRebuild | iprouting/rib.c:311-402 | the refinement theorem with that exact condition on each write to a stored route, so that runs through a metric of 65536 are covered wherever they agree with a rebuild |
| RibRuns.EveryRunFollowsTheConfiguration | iprouting/rib.c:311-402 | the same for every run from the start with callbacks of both families, rejected values, and other programs changing the kernel in between: an index whose leaves are all accepted holds the rebuild of its configuration unless its last add was refused, and with a rejected leaf a stored route still describes the leaves last accepted |
| RibRuns.StepTells | iprouting/rib.c:339-398 | each such step keeps this for every index |
| RibReplay.StartupIsExactlyOnce | iprouting/rib.c:442-444 | replaying every leaf of a well-formed IPv4 configuration, in any order and any number of times, issues exactly one add per valid index and no delete; the second replay issues no request and changes nothing |
| RibReplay.RemovalRemoves | iprouting/rib.c:360-398 | removing a whole entry leaf by leaf, in any order, leaves no route, although the route may be edited and added again on the way |
| RibPriority.PriorityIsPacked | iprouting/rib.c:149-196 | after any sequence of sets and unsets below 65536, the priority is 65536 times the last distance plus the last metric |
| RibPriority.PriorityOrder | iprouting/rib.c:163-190 | the kernel's numeric preference is the lexicographic order on (distance, metric) |
| RibPriority.SettersCommuteIff | iprouting/rib.c:157-183 | over all priorities, setting distance and setting metric commute exactly when the metric is not 65536 or the distance is odd |
| RibPriority.Both | iprouting/rib.c:157-190 | the exact priority after both setters in either order, up to the accepted bound 65536, where a distance packs to 0 and a metric sets the low bit of the distance |
| RibSpec.DistanceBits | iprouting/rib.c:164-166 | the C mask, shift (which wraps at 32 bits) and union write the high half of the priority and nothing else |
| RibSpec.MetricBits | iprouting/rib.c:188-190 | the C mask and union write the low half, and for 65536 the low bit of the high half |
| Rib.ParseParameter | iprouting/rib.c:48-213 | the in-place edit succeeds exactly when the value is accepted, then leaves the specified route, otherwise leaves the route untouched; for a route with at most one nexthop, `changed` says whether the contents really changed |
| Rib.SetNexthop | iprouting/rib.c:89-148 | nexthop and ifname each replace the first nexthop, and a value that does not parse changes nothing |
| Rib.ApteryxToRoute | iprouting/rib.c:233-255 | a fresh live route equal to the rebuild of the tree, or null exactly when a leaf is rejected |
| Rib.Daemon.RouteAdd | iprouting/rib.c:258-282 | the add is accepted exactly when no kernel route has its key; only then are kernel and table changed, and every request is recorded |
| Rib.Daemon.KernelAccepts | iprouting/rib.c:268-273 | a search of the kernel routes answers the exclusive-add test |
| Rib.Daemon.RouteDel | iprouting/rib.c:284-309 | the contents go from the kernel, and the index goes from the table unless it is 0 |
| Rib.Daemon.WatchStaticRoutes | iprouting/rib.c:311-402 | on shared route objects edited in place, a callback computes the specified transition, keeps the agreement, and every stored object stays live and owned by one index |
| Rib.Daemon.NewRoute | iprouting/rib.c:339-359 | the add branch: a new object is stored only when the rebuilt route is valid and the kernel takes it |
| Rib.Daemon.DropRoute | iprouting/rib.c:360-367 | the delete branch: the object leaves the table before it is released |
| Rib.Daemon.UpdateRoute | iprouting/rib.c:368-398 | the update branch: nothing happens on a rejected value or when nothing changed; otherwise the old contents are deleted and the edited route added again if it is valid. The route has exactly one nexthop before the edit, so the comparison never gets two nulls |
| Rib.Daemon.Rewatch | apteryx.c:43-55 | a replay of the configuration is the composition of its callbacks |
| Rib.Daemon.RibStart | iprouting/rib.c:435-447 | after both replays the table is the rebuild of every index and the requests made are exactly one accepted add per stored route |
| Rib.Daemon.RibExit | iprouting/rib.c:449-462 | after shutdown the tables are empty and the kernel holds exactly the foreign routes |
| Rib.Daemon.DeleteEach | iprouting/rib.c:458-461 | the walk over the tables deletes each route it meets and never changes the tables, because the callback passes index 0 |
| EntitySpec.PathIsInjective | entity/entity.c:82-86 | a published path names one entity and one address, although the address text may itself contain underscores |
| EntitySpec.PublishedReadsBack | entity/entity.c:82-86 | for every match of a record and an address, the published value splits at its last slash into the text of the address and the decimal text of its own prefix length, and the leaf after "dynamic_" splits at its last underscore into the same two |
| EntitySpec.EverythingReadsBack | entity/entity.c:82-86 | and everything published reads back as a match of a record and a cached address |
| EntitySpec.ViewIsUnique | entity/entity.c:66-120 | records and cached addresses determine the published store completely |
| EntitySpec.FiltersAgree | entity/entity.c:104-118 | the scan's filter by interface index and the callback's filter by interface name select the same addresses |
| EntitySpec.TrackKeepsView | entity/entity.c:128-140 | adding a record and scanning the cache keeps the store equal to the join of records and addresses, duplicates included |
| EntitySpec.UntrackKeepsViewIff | entity/entity.c:141-165 | dropping a record keeps the store equal to the join exactly when no remaining record of the same entity matches an address that the dropped record matched too |
| EntitySpec.NewAddressKeepsView | entity/entity.c:216-244 | announcing a new address keeps the store equal to the join |
| EntitySpec.DelAddressKeepsViewIff | entity/entity.c:216-244 | announcing a removed address keeps the store equal to the join exactly when no entity gets the same address from a second cached object |
| EntitySpec.UnsharedIsExact | entity/entity.c:141-244 | when no address is on two interfaces, neither exception can occur |
| Entity.Tracker.AddDelAddresses | entity/entity.c:91-120 | the scan publishes or removes exactly the matching addresses, in whatever order the cache is walked |
| Entity.Tracker.Track | entity/entity.c:128-140 | the record is appended and the store stays the join |
| Entity.Tracker.UnlinkAll | entity/entity.c:143-163 | the loop removes every duplicate of the record and nothing else, and unpublishes what they matched |
| Entity.Tracker.Untrack | entity/entity.c:141-165 | the list without the record, with the exact condition under which the store stays the join |
| Entity.Tracker.WatchEntities | entity/entity.c:253-285 | a value other than the interface name is refused without effect; otherwise the record is added or dropped and the store stays the join |
| Entity.Tracker.AddressCallback | entity/entity.c:170-245 | an incomplete address object changes nothing; a complete one is set or deleted under every matching record and nowhere else |
| Entity.Tracker.AddressAdded | entity/entity.c:216-244 | the cache gains the address and the store stays the join |
| Entity.Tracker.AddressRemoved | entity/entity.c:216-244 | the cache loses the address and the store stays the join exactly when the address is not shared |
| Entity.Deliver | entity/entity.c:122-285 | any run of callbacks, one at a time, leaves the store equal to the join of the records and addresses the run leaves, when no address is ever on two interfaces |
| EntityConcurrent.NoLostSubnet | entity/entity.c:128-140 | with both threads interleaving in any way, every match of a record and a cached address is published, still ahead in a running scan, or covered by a pending callback; when both threads are idle it is published |
| EntityConcurrent.StepKeepsInv | entity/entity.c:122-245 | each atomic step of either thread keeps that coverage |
| EntityConcurrent.RemovalIsSafe | entity/entity.c:143-163 | a path that one thread takes away never belongs to another live match |
| EntityConcurrent.NoStaleSubnetIff | entity/entity.c:122-245 | in every state of a run every published path is wanted by a record and a cached address, or about to be removed by the running unlink or the pending callback, if and only if no step of the run leaves a path behind |
| EntityConcurrent.StepIsFreshIff | entity/entity.c:122-245 | one step leaves a path behind exactly when a scan publishes an address that is gone, with no cached object of the same local address under a record of the entity and no pending removal of one with such a record ahead; when the last record is unlinked that the pending removal of a published address has not reached; or when an address is removed that a running unlink had ahead and then passes over |
| EntityConcurrent.JoinWhenIdle | entity/entity.c:128-163 | when no address is removed while a scan or unlink has it ahead, and no record is unlinked while the removal of one of its addresses waits for the lock, the published subnets are exactly the join of records and cached addresses whenever both threads are idle |
| EntityConcurrent.EveryRunCanFinish | entity/entity.c:122-245 | the threads never block each other for good: from every state of every run, both can end what they are doing without a change of the cache, after which every match is published and any next record or address change can come |
| EntityConcurrent.StaleAfterScan | entity/entity.c:139-140 | for every matching address there is a run in which the unlocked scan overtakes its removal, after which both threads are idle and the subnet is still published |
| EntityConcurrent.StaleAfterUnlink | entity/entity.c:141-163 | for every matching address there is a run in which its record is dropped while its removal waits for the lock, after which neither record nor address is left and the subnet is still published |
| EntityConcurrent.StaleDuringUnlink | entity/entity.c:141-163 | the same for an address removed while the cache walk of an unlink has it ahead and then passes over it |
| XmlEntities.ChainIsOnePass | xml2c:15-19 | for every table of entities in which only the last may produce an ampersand and no entity produces a character of a later reference, and for every string, substituting one entity after the other equals one left-to-right decoding pass |
| XmlEntities.FromXmlStringIsOnePass | xml2c:5-21 | on every string without "&#", decoding is one pass over the five predefined entities |
| XmlEntities.FromXmlStringInvertsEscape | xml2c:5-21 | decoding inverts standard escaping, for every string |
| XmlEntities.NumericUntouched | xml2c:6-14 | without "&#" the two numeric substitutions change nothing |
| XmlNumeric.FromXmlStringReadsAllIff | xml2c:5-21 | for every string, the chain equals one left-to-right pass over all references, named and numeric, if and only if a code is not a byte (and both fail) or no substitution reads a text that an earlier numeric one made |
| XmlNumeric.FromXmlStringReadsAll | xml2c:5-21 | in particular whenever every numeric reference stands for a character that neither starts nor completes a reference |
| XmlPasses.PassesFuseIff | xml2c:6-19 | for every string and any two kinds of references, reading one kind first and the other afterwards equals reading both in one pass exactly when the one pass fails or the second pass reads no text that the first one made |
| XmlPasses.FuseExact | xml2c:6-19 | references never overlap, so original ones survive the first pass, and each made one that is read leaves a strictly shorter result |
| XmlPasses.BenignMakesNothing | xml2c:6-14 | references to characters that neither start nor complete a reference make none |
| XmlNumeric.GsubIsPass | xml2c:6-14 | each numeric substitution is a pass over the reference texts of its kind, for every string |
| XmlNumeric.NumericDenotes | xml2c:6-14 | a decimal reference, and a hexadecimal one in either case of letters, stands for the byte of the number that it spells, and fails above 255 |
| XmlNumeric.NumericAmpersand | xml2c:6-19 | for every predefined reference, spelling its ampersand as a decimal reference makes the chain decode to the character, where one pass gives the reference |
| XmlText.ParseArgsInvertsRender | xml2c:22-27 | reading the attributes back from a start tag gives every original value, for arbitrary values in single or double quotes and for plain and qualified names, under the last run of letters and digits of its name; the last one wins for a repeated key |
| XmlText.NameSurvivesIff | xml2c:24-25 | a name comes back whole exactly when it is made of letters and digits only |
| XmlText.LexInvertsRender | xml2c:34-36 | the tags found in the text of a document are its tags in document order, with text in which no tag can begin anywhere between them |
| XmlParser.RunItems | xml2c:34-48 | from any stack, the tags of any forest append exactly its trees to the children of the current top and restore the stack |
| XmlParser.ParseInvertsRender | xml2c:28-50 | parsing the text of a document gives back its first tree |
| XmlParser.RunSucceedsIff | xml2c:37-47 | the loop succeeds exactly when every attribute list decodes and no close tag comes without an open element; the final depth is the initial depth plus open minus close tags |
| XmlParser.Round | xml2c:37-47 | one round on the stack of tables that are extended in place: `top` is always the last stack entry |
| XmlParser.ParseXmlText | xml2c:28-50 | the loop with its shared tables computes the specified parse of every text |
| Netlink.RegisterAddsOne | netlink.c:97-132 | registering adds one call for one kind and leaves the subscribers of every other kind alone; there stays one descriptor per kind |
| Netlink.UnregisterRemovesOne | netlink.c:145-165 | unregistering removes one matching call of one kind, drops an unused descriptor, and disturbs no other subscriber |
| Netlink.UnregisterExact | netlink.c:145-165 | unregistering takes the callback out of its first place in the calls of the kind, and keeps all other calls in their order |
| Netlink.UnregisterAbsent | netlink.c:145-165 | unregistering a callback that is not registered changes nothing |
| Netlink.UnregisterCounts | netlink.c:145-165 | the callback loses exactly one of its calls, and every other keeps its number of calls |
| Netlink.UnregisterUndoesRegister | netlink.c:132-165 | unregistering right after registering restores the list of descriptors |
| Netlink.SubscribedIffLive | netlink.c:106-131 | after any calls, a kind has a subscriber exactly when the cache manager holds a descriptor for it that is not freed, and it never holds two |
| Netlink.CallbacksAreLiveIff | netlink.c:119-165 | every descriptor that the cache manager may call back with is live, after any calls, if and only if no call took away the last subscriber of a kind; the manager is never told |
| Netlink.Monitor.NetlinkRegister | netlink.c:83-137 | the search loop and the two list changes compute the specified registry, and only the new subscriber gets the replay of the whole cache |
| Netlink.Monitor.NetlinkUnregister | netlink.c:139-166 | the search loop and the removals compute the specified registry |
| Netlink.Monitor.ChangeCb | netlink.c:63-81 | handed a live descriptor by the cache manager, it calls every subscriber of its kind once for each registration, in list order |
| Mirror.ReplayPlusDeltas | netlink.c:132-136 | for any cache and any interleaving of registration, the unlocked walk with its visits and callbacks, changes and the walk of the subscriber list, a subscriber whose replay is over and for which nothing is pending has received events that fold to the cache plus exactly the replayed objects overtaken by their deletion; items may arrive twice |
| Mirror.MirrorIsExactIff | netlink.c:56-81 | so its view is the cache if and only if no object was handed over after its deletion had been delivered, without having come back since |
| Mirror.ReplayPlusDeltasIsExact | netlink.c:132-136 | the view is exactly the cache in every run in which no deletion takes the object that the replay holds, or one ahead of it that the walk does not notice |
| Mirror.StaleRouteIsPossible | netlink.c:56-61 | for every route there is a run that ends with the cache empty, nothing pending and the route still in the view |
| Mirror.StepKeepsInv | netlink.c:56-81 | each atomic step keeps the view equal to the cache and the overtaken objects, apart from one pending change and the rest of the replay |
| Mirror.EveryRunCanFinish | netlink.c:56-137 | no run gets stuck: replay and delivery can always come to an end without a change of the cache, after which the subscriber has every object of the cache and any next change can come |
| Mirror.OneEventIff | iprouting/fib.c:74-100 | a new route keeps the published FIB the key image of the live routes; a withdrawn one does exactly when no other live route has its path |
| Mirror.FibIsAlwaysImageIff | iprouting/fib.c:74-100 | over any run of events, the published FIB is the key image after every event if and only if no withdrawn route shares its path with another live one |
| Mirror.PublishedFib | iprouting/fib.c:74-112 | composed with registration: once the replay is over, the published FIB is the key image of the kernel's routes and the overtaken ones, when no withdrawn route shared its path with a live one |
| Mirror.PublishedFibIsExact | iprouting/fib.c:74-112 | and of the kernel's routes alone when no deletion overtakes the replay |
| Mirror.FamiliesNeverCollide | iprouting/fib.c:91-97 | withdrawing a route touches no published route of the other family, and announcing one publishes under its own |
| Mirror.TwoTablesCollide | iprouting/fib.c:68-71 | the key leaves out the routing table: with one route in two tables, withdrawing one unpublishes the other |
| FibKey.ReadInvertsKey | iprouting/fib.c:68-71 | destination, prefix length, nexthop, interface, protocol and all 32 bits of the priority, printed as a signed number, can be read back from the key |
| FibKey.KeyReadsRoute | iprouting/fib.c:24-72 | what is read back from the key of a route is its destination text at full length with its own prefix length, the gateway and interface of its first nexthop, its protocol and its priority |
| FibKey.PrefixesNeverCollide | iprouting/fib.c:49-71 | routes that differ in the prefix length of their destination have different keys |
| FibKey.KeysEqualIff | iprouting/fib.c:24-72 | two routes share a key exactly when they have the same full-length destination text, the same own prefix length, the same gateway text (for both a fixed text per family when absent), and the same interface of the first nexthop, protocol and priority |
| FibKey.RouteToString | iprouting/fib.c:24-72 | the encoder returns the key of the route as it was and restores the destination's prefix length on every path, even when destination and gateway are one object |
| NeighborStatic.ExactIsUnique | ip/neighbor-static.c:119-159 | the configuration and the active links determine the kernel's permanent neighbours, so the order of events does not matter |
| NeighborStatic.SetKeepsExact | ip/neighbor-static.c:138-146 | writing an entry keeps the neighbours exactly the configured entries with an active interface |
| NeighborStatic.WriteIff | ip/neighbor-static.c:62-155 | for any setting, address and value: an entry is written only with a link-layer address that parses, removed only when the value is absent, and a malformed address, an unknown interface or another setting leaves the kernel table unchanged |
| NeighborStatic.DeleteKeepsExactIff | ip/neighbor-static.c:147-155 | deleting an entry of an active interface keeps them exact exactly when no other entry of the interface spells the same address |
| NeighborStatic.LinkDownKeepsExact | ip/neighbor-static.c:174-178 | the event of a vanished interface needs no action |
| NeighborStatic.LinkUpExactIff | ip/neighbor-static.c:184-193 | the replay for a new interface makes them exact again exactly when no IPv6 entry waits for it |
| NeighborStatic.LinkUpForgetsIPv6 | ip/neighbor-static.c:184-193 | an IPv6 entry configured before its interface appears is not installed |
| NeighborStatic.Neighbors.StaticNeighborsCb | ip/neighbor-static.c:40-159 | the callback computes the specified table: replace or create, delete, or nothing when the setting, address or interface does not resolve |
| NeighborStatic.Neighbors.NlIfCb | ip/neighbor-static.c:184-194 | the replay loop, in any order, installs exactly the IPv4 entries of the interface and changes no other neighbour |
| NeighborStatic.Neighbors.ApplyWrite | ip/neighbor-static.c:119-159 | a write and its callback keep the neighbours exact |
| NeighborStatic.OrderDoesNotMatter | ip/neighbor-static.c:119-194 | two runs from an empty system that end in the same configuration and links end in the same kernel neighbours, however writes, link events and replays were ordered |
| NeighborStatic.TraceIsExact | ip/neighbor-static.c:119-194 | every run of IPv4 writes, link events and replays in any order ends with exactly the configured entries whose interface is active |
| NeighborStatic.Deliver | ip/neighbor-static.c:119-194 | any interleaving of IPv4 writes and link events leaves the neighbours exactly those of the configuration and links it leads to |
| CPaths.HeaderSpellsFullPath | cpaths.py:54-128 | for every node of a schema that is not in an rpc or a notification, and keys: gluing the emitted fragments of the lists above it and of the node, with a key after each list, spells exactly one path, the absolute path with the keys in place |
| CPaths.EmittedIff | cpaths.py:25-29 | a chain of nodes gets a define exactly when it leads from the top of the schema from child to child and none of its nodes is an rpc or a notification |
| CPaths.FragmentsCompose | cpaths.py:33-43 | fragments stripped at the last list concatenate to the absolute path of a chain of any depth with any number of lists |
| CPaths.StripIsStripOf | cpaths.py:61-63 | the strip level never exceeds the level and is the depth just below the last list above the node |
| CPaths.PrintNodesAreGlued | cpaths.py:54-128 | every define printed for any forest carries the fragment stripped at the last list above it |
| CPaths.PrintNodesAreConnected | cpaths.py:57-59 | every node between a printed node and the top has a define of its own, because whole subtrees are skipped |
| CPaths.PrintEnums | cpaths.py:96-110 | the loop with its counter emits one line per member, and when explicit values are decimal texts, the printed lines carry the values of section 9.6.4.2 of RFC 7950 exactly when every low explicit value is followed by a numbered member |
| CPaths.PrintedIsRfcIff | cpaths.py:96-110 | the same for the texts, read back as decimal numbers |
| CPaths.EmittedIsCounted | cpaths.py:96-110 | for any values, also such that do not read as numbers: a member without a value is printed as the last number before it plus its distance from there, or as its position when there is none |
| CPaths.NumberingIsRfcIff | cpaths.py:97-110 | the numbers are those of section 9.6.4.2 of RFC 7950 exactly when, after every explicit value below an earlier number, the next member is numbered |
| CPaths.AscendingIsRfc | cpaths.py:97-110 | when each explicit value exceeds all earlier ones, the numbers are pairwise distinct and those of RFC 7950 |

## Left out

- libnl, GLib, Apteryx and the kernel: caches, hash tables and published paths are sets and maps. The two static-route hash tables are one map keyed by family and index.
- Path parsing: callbacks get the family, index and parameter that `sscanf` reads; a path that does not parse is refused before anything in the model. `strtoull` and `nl_addr_parse` are abstract, apart from the truncation to 32 bits and the unsigned comparison with the index.
- A kernel delete succeeds exactly when the route is present; its error result is only logged by the code.
- The link map is fixed during a run of static-route callbacks, so an interface that changes its index is not covered.
- Memory leaks: the clone kept by an update, and an edited route that is invalid or refused, are never released by the code. The model's reference counts say that stored routes are live, and nothing more.
- Rebuild and replay for IPv6 static routes, and replay for IPv6 neighbours, which the code does not perform.
- Entities: records have one type, the only one the code has. Freed records and the address buffers are not modelled; the address text is an abstract injective function together with the prefix length.
- EntityConcurrent.NoLostSubnet: the scan takes the matching addresses when it starts, and whether it notices a later change of the cache is left open; a walk of the library's list that breaks down midway is not modelled, nor is the shutdown of the module.
- XmlNumeric.FromXmlStringReadsAllIff: a character is a byte, as in the program, so a numeric reference above 255 is a failure and not the character it names.
- XmlParser.ParseXmlText: a finished element is a value, because nothing changes its table any more; the `Value` field, which is always nil, is left out. Characters outside the bytes of a Lua string have no counterpart in the program.
- XmlParser.ParseInvertsRender: tag names are made of letters, digits and ':', because the pattern cuts an XML name at '-', '.' or '_' (xml2c:34); attributes are written with one space before them, and without space around the '='.
- XmlText.ParseArgsInvertsRender: attribute names end in a letter or a digit. The code drops an attribute whose name does not, and goes on searching inside its value.
- The generators of `xml2c` that print help and header text from the parsed tree.
- Mirror.ReplayPlusDeltas: whether the walk notices a change of the cache is left open; a walk of the library's list that breaks down midway is not modelled.
- Mirror.PublishedFib: change events, which the FIB callback reports as invalid and ignores, are not delivered; every event carries its object as the new object.
- Allocation failures and an uninitialised cache manager in `netlink_register`, and whether the cache manager accepts a second cache of a kind that it still holds.
- NeighborStatic.Deliver: the permanent neighbours are those of this module; a kernel table that other programs write is not modelled.
- CPaths: define names, descriptions, boolean and default values, which are printed text without further use in the paths. The absolute path counts choice and case nodes, as the printed fragments do.
- `main.c`, `procfs.c`, `module.c`, `icmp/icmp.c`, `tcp/tcp.c`, `neighbor/settings.c`: input, output and short loops with easy members.
- `interface/ifstatus.c`, `interface/ifconfig.c` and `ip/address-static.c`: simpler forms of the replay that `NeighborStatic` covers.
- `ip/address-cache.c` and `ip/neighbor-cache.c`: their published trees are not exact mirrors in the code (paths are written and pruned under different texts, and the router flag is never cleared), so there is no exact theorem to state.
