# AdGuard Home, state that must agree

This project models six parts of AdGuard Home that keep redundant state, and proves
that the state agrees with something simpler, over all inputs and over whole runs.

* **DHCPv4 leases** (`internal/dhcpd`).  `LeaseState.dfy` says on values what each
  operation of the server does; `V4Server.dfy` is the server with its lease list, its
  IP index and its bit set, updated in place, and every handler is proved to do what
  the value model says.  `LeaseSafety.dfy`, `LeaseRuns.dfy` and `LeaseLoad.dfy` prove
  what every run keeps: the no-reallocation guarantee of section 2.2 of RFC 2131 and
  the reservation of offers of sections 4.3.1 and 4.3.2.  `LeaseAnswers.dfy` says what
  every message is answered and what it changes, `LeaseNames.dfy` which names clients
  end up with, and `RequestRace.dfy` is about the moment in which REQUEST does not hold
  the lock.  Below them are `BitSet.dfy`,
  `IPRange.dfy`, `Subnet.dfy` and `ServerConfig.dfy`.
* **Persistent clients** (`internal/client`).  `Clients.dfy` says what the operations
  do to a set of clients; `ClientIndex.dfy`, `SortedMap.dfy`, `UpstreamManager.dfy` and
  `ClientStorage.dfy` are the five maps, the sorted map and the cache of upstream
  configurations that have to follow.
* **The new DHCP service** (`internal/dhcpsvc`).  `LeaseIndex.dfy` and `LeaseDB.dfy`
  are the index and the database on values, `LeaseEffects.dfy` says when the operations
  of the index succeed and what they store, `LeaseText.dfy` shows that text forms as
  the database needs them exist, `DHCPServer.dfy` is the server, and `AddrRange.dfy`
  the ranges of both address families.
* **Upstream configurations** (`internal/control/routes.go`).  `ConfigLine.dfy` reads
  lines, `ConfigText.dfy` says what a configuration means from its text alone, and
  `ConfigParser.dfy` is the parser.
* **The file walker** (`internal/aghos/filewalker.go`), in `FileWalker.dfy`.
* **Web sessions** (`internal/aghuser/sessionstorage.go`).  `SessionCodec.dfy` is the
  binary form, `SessionStorage.dfy` the storage in front of the database.

Each message, locked operation and database transaction is one atomic step.  The
clock, the ICMP probe, random tokens, pattern matching, file contents, the building of
upstreams, hostname rules, text forms of times and hardware addresses, and whether a
write succeeds are parameters or arbitrary functions.

Where the code does not do what its comments or its design suggest, the code is
modelled as it is, and a lemma gives the exact condition:

* A static lease outside the range takes the first address of the range out of use
  (`LeaseLoad.OutsiderWastesStart`, `LeaseLoad.ReloadMarksExactIff`).
* An expired lease can be recycled while its client still thinks it has an offer
  (`LeaseSafety.AllocateSparesIff`, `LeaseRuns.OfferLost`).
* A DISCOVER that comes between the check and the commit of a REQUEST can take the
  lease, and a RELEASE there removes it and leaves a removed lease in the IP index; the
  REQUEST is acknowledged all the same (`RequestRace.RacedHoldsIff`,
  `RequestRace.RaceLost`, `RequestRace.RaceReleased`,
  `V4Servers.V4Server.RacedRequest`).
* A name that the server makes from an address is not checked against the names in use,
  so two clients can end up with one name (`LeaseNames.StepKeepsNamesIff`,
  `LeaseNames.NameTaken`).
* Changing the common upstream settings twice at one instant serves stale
  configurations (`UpstreamManagers.UpstreamManager.UpdateCommonUpstreamConfig`,
  `UpstreamManagers.ServeStale`).
* An update of a static lease that takes a name from another interface breaks the
  index (`LeaseIndexes.UpdateKeepsInvIff`, `LeaseIndexes.UpdateTakesName`); so does
  removing a lease that mixes the keys of several (`LeaseIndexes.RemoveKeepsInvIff`,
  `LeaseIndexes.RemoveMixesKeys`).
* A dynamic lease whose expiry has a year of five digits in its zone is lost by a
  restart, and one whose zone is not a whole number of minutes from UTC has its expiry
  moved by up to a minute, because the stored text has no place for either
  (`LeaseDBs.SurvivesRestartIff`, `LeaseDBs.LostInYear10000`, `LeaseDBs.SurvivesIff`,
  `LeaseDBs.LaterIff`, `LeaseDBs.LongerByZone`).
* The comment of `find` in `internal/dhcpsvc/iprange.go` promises an empty address
  when nothing is found, but a range that ends at the last address of its family is
  searched for ever (`AddrRanges.FindEndsIff`, `AddrRanges.LastAddressNeverEnds`).
* IPv6 zones share an offset (`AddrRanges.ZonesShareOffset`).
* An upstream line whose list of hosts is followed by nothing but blanks makes the
  parser index out of range (`ConfigLines.PanicsIff`, `ConfigLines.BlankPanics`).
* A session with a login of 65536 bytes or more is lost by a restart
  (`SessionStorages.LostIff`, `SessionStorages.LongLoginLost`).
* A session that expires 2^32 seconds after 1970 or later wraps around and may be lost
  by a restart (`SessionStorages.LateExpiryLost`), and one that expires before 1970 is
  lengthened (`SessionCodecs.KeptNotLonger`, `SessionStorages.EarlyExpiryLengthened`).

## Model

| member | source | states |
|---|---|---|
| LeaseRuns.LeaseIsKept | internal/dhcpd/v4_unix.go:639-731 | In every run, from any state on, a lease stays with its client until it expires unless the client releases it, and no other client is offered its address or has it acknowledged; this includes static and loaded leases, and only a request of the client itself can bring the expiry forward, to the lease time from then on |
| LeaseRuns.NoReallocation | internal/dhcpd/v4_unix.go:639-731 | In every run, from the acknowledgement of an address until the lease time has passed or its client releases it, the address stays leased to that client and no other client is offered it or has it acknowledged |
| LeaseAnswers.DiscoverKnown | internal/dhcpd/v4_unix.go:742-752 | A client that has a lease is offered its address again, and nothing changes |
| LeaseAnswers.DiscoverNew | internal/dhcpd/v4_unix.go:755-766 | A client without a lease is offered the first candidate that the probe accepts, which it then has with a fresh lease or an expired one |
| LeaseAnswers.DiscoverRefusedIff | internal/dhcpd/v4_unix.go:755-766 | It is refused if and only if the probe accepts no candidate |
| LeaseAnswers.CandidatesAre | internal/dhcpd/v4_unix.go:623-680 | The candidates are the addresses of the range without a mark, in increasing order, and then those of expired leases |
| LeaseAnswers.ExpiredAre | internal/dhcpd/v4_unix.go:639-648 | The expired ones are those of dynamic leases that expired before now, in the order of the list |
| LeaseAnswers.DiscoverBlocks | internal/dhcpd/v4_unix.go:254-258 | Every candidate that the probe refuses is left blocked for the lease time, without name and client |
| LeaseAnswers.RefusedStaysBlocked | internal/dhcpd/v4_unix.go:715-731 | In every run an address that the probe has refused is offered and acknowledged to nobody before the lease time has passed |
| LeaseAnswers.DiscoverSpares | internal/dhcpd/v4_unix.go:734-767 | DISCOVER leaves static and unexpired leases as they are |
| LeaseAnswers.NakIff | internal/dhcpd/v4_unix.go:825-954 | When a REQUEST is refused, in each of its three phases, from the message and the leases |
| LeaseAnswers.SilentIff | internal/dhcpd/v4_unix.go:825-954 | When a REQUEST is not answered, in each of its three phases, from the message and the leases |
| LeaseAnswers.AckIff | internal/dhcpd/v4_unix.go:825-954 | When a REQUEST is acknowledged and with which address |
| LeaseAnswers.RequestAnswers | internal/dhcpd/v4_unix.go:959-996 | There is no other answer to a REQUEST |
| LeaseAnswers.RequestChanges | internal/dhcpd/v4_unix.go:959-996 | An acknowledged REQUEST changes the name and the expiry of the client's own dynamic lease and no other lease; any other REQUEST changes nothing |
| LeaseAnswers.ReleaseNothing | internal/dhcpd/v4_unix.go:1070-1112 | A RELEASE of no address, or of one that the client has not, changes nothing |
| LeaseAnswers.ReleaseStatic | internal/dhcpd/v4_unix.go:1070-1112 | The RELEASE of a static lease is refused and the lease stays |
| LeaseAnswers.ReleaseDynamic | internal/dhcpd/v4_unix.go:1070-1112 | The RELEASE of a dynamic lease leaves its address to nobody |
| LeaseNames.CommittedName | internal/dhcpd/v4_unix.go:685-711 | The name a client ends up with: the one it asks for if that is not in use, else the one it has, else one made from its address; the first two are no other client's |
| LeaseNames.StepKeepsNamesIff | internal/dhcpd/v4_unix.go:685-711 | A message keeps names apart if and only if it is not a granted REQUEST of a nameless client whose name is in use and whose made name is another client's |
| LeaseNames.RunKeepsNames | internal/dhcpd/v4_unix.go:685-711 | No two clients have the same name in any state of a run without such a REQUEST |
| LeaseNames.NameTaken | internal/dhcpd/v4_unix.go:685-711 | Two clients that end up with one name |
| LeaseNames.ReloadEstablishesNames | internal/dhcpd/v4_unix.go:147-176 | Loaded leases have different names |
| LeaseNames.RemoveDynamicExact | internal/dhcpd/v4_unix.go:290-313 | While names are apart, removing a dynamic lease changes no other lease, and a static one is left with everything as it was |
| LeaseRuns.StaticForever | internal/dhcpd/v4_unix.go:290-313 | A static lease keeps its address and its hardware address in every state of every run |
| LeaseRuns.OfferIsHonoured | internal/dhcpd/v4_unix.go:734-860 | An offered address stays reserved through any messages among which no allocation finds the range exhausted and which do not release it; the client's SELECTING request for it is then acknowledged with it |
| LeaseRuns.OfferLost | internal/dhcpd/v4_unix.go:652-680 | In a range of two addresses the third client is offered the first one's address, and the first one's request is then refused |
| RequestRace.RacedHoldsIff | internal/dhcpd/v4_unix.go:959-996 | With any message between check and commit the request is acknowledged and the invariant kept; the address is the client's for the lease time if and only if the message has neither recycled the lease (an expired lease, a DISCOVER of a client without one, nothing accepted before it) nor released it; a recycled one is then the other client's or blocked, a released one nobody's |
| RequestRace.RacedNoReallocation | internal/dhcpd/v4_unix.go:959-996 | In every run after such a race, if the lease was not released in it, and until the lease time has passed or somebody releases the address, the acknowledged client has it if and only if the lease was not recycled |
| RequestRace.RaceLost | internal/dhcpd/v4_unix.go:959-996 | A state and two messages for which the acknowledged address is not the client's |
| RequestRace.RaceReleased | internal/dhcpd/v4_unix.go:959-996 | A state, a renewal and a release for which the acknowledged address is nobody's |
| RequestRace.PositionKept | internal/dhcpd/v4_unix.go:1191-1224 | A message keeps address and kind of every lease that it does not release, at the place given; the client changes if and only if the lease is recycled |
| RequestRace.GivenUpIsGone | internal/dhcpd/v4_unix.go:1070-1112 | After a release of a dynamic lease nobody has its address |
| RequestRace.HalvesAreRequest | internal/dhcpd/v4_unix.go:959-996 | Check and commit with nothing in between are the request |
| RequestRace.AllocateTakes | internal/dhcpd/v4_unix.go:715-731 | A lease that allocation changes goes to the new client or is blocked |
| V4Servers.V4Server.RacedRequest | internal/dhcpd/v4_unix.go:959-996 | Committing the lease object that was checked before the other message does what the value model of the race says; the IP index stays exact if and only if the message has not released the lease |
| LeaseRuns.AckIffLeased | internal/dhcpd/v4_unix.go:793-996 | A REQUEST is acknowledged with an address if and only if it is well addressed for its state, names that address, and the address is leased to its client |
| LeaseRuns.AckRuns | internal/dhcpd/v4_unix.go:685-711 | An acknowledged address is leased to the client for the whole lease time, or is static |
| LeaseRuns.ReplyIsLeased | internal/dhcpd/v4_unix.go:734-767 | Whatever address is offered or acknowledged is leased to the client that asked |
| LeaseRuns.RunKeepsInv | internal/dhcpd/v4_unix.go:1191-1224 | In every state of every run addresses are distinct, client hardware addresses are distinct, each lease is in the subnet or range it must be in, leased addresses are marked, and marks are leased except for the one an outside static lease causes |
| LeaseRuns.StepKeepsLease | internal/dhcpd/v4_unix.go:1191-1224 | A message keeps address, client and kind of every lease that has not expired, or that allocation does not get to, unless its own client releases it; only its client's request moves the expiry |
| LeaseRuns.StepKeepsInv | internal/dhcpd/v4_unix.go:1191-1224 | Each message keeps the invariant of the leases |
| LeaseRuns.RunExists | internal/dhcpd/v4_unix.go:1191-1224 | Every sequence of well-formed messages with a clock that does not go back has a run from every state that satisfies the invariant |
| LeaseRuns.RepliesInSubnet | internal/dhcpd/v4_unix.go:326-355 | If the range lies in the subnet, every address offered or acknowledged in a run does |
| LeaseRuns.RemoveDynamicKeepsInv | internal/dhcpd/v4_unix.go:290-313 | Removing a released dynamic lease, names included, keeps the invariant |
| LeaseSafety.NextIPNotLeased | internal/dhcpd/v4_unix.go:623-636 | nextIP gives the least address without a mark, and nobody has it leased |
| LeaseSafety.AllocateKeepsInv | internal/dhcpd/v4_unix.go:715-731 | Allocation keeps the invariant for every probe, and the lease it returns is the client's |
| LeaseSafety.AllocateFailsIff | internal/dhcpd/v4_unix.go:715-731 | Allocation returns nil if and only if the probe refuses every free address and every expired lease, and then none of either is left |
| LeaseSafety.AllocateTakesFirst | internal/dhcpd/v4_unix.go:715-731 | Allocation tries free addresses in order and then expired leases in order, each at most once, and takes the first that the probe accepts |
| LeaseSafety.AllocateSparesIff | internal/dhcpd/v4_unix.go:639-731 | Allocation leaves a lease as it is if and only if the lease has not expired or something tried before it is accepted |
| LeaseSafety.ReserveKeepsInv | internal/dhcpd/v4_unix.go:652-680 | Reserving keeps the invariant and records the client |
| LeaseSafety.CopyMACExact | internal/dhcpd/v4_unix.go:652-680 | Copying a hardware address over a recycled lease is exact if and only if the lengths are equal |
| LeaseSafety.AddKeepsInv | internal/dhcpd/v4_unix.go:326-355 | Adding a lease with a new address and a new client keeps the invariant |
| LeaseSafety.RemoveKeepsInv | internal/dhcpd/v4_unix.go:261-284 | Removing a dynamic lease keeps the invariant, the marks of the others included |
| LeaseState.ReserveStep | internal/dhcpd/v4_unix.go:652-731 | An attempt reserves the first candidate, fails only if there is none, and blocklisting it removes exactly that candidate: the measure by which allocation ends for every probe |
| LeaseLoad.ReloadEstablishesInv | internal/dhcpd/v4_unix.go:147-176 | Loading leases with distinct addresses and hardware addresses gives a state that satisfies the invariant |
| LeaseLoad.RunMarksExact | internal/dhcpd/v4_unix.go:326-355 | Without static leases outside the range an address is marked exactly when it is leased, in every state of every run |
| LeaseLoad.ReloadMarksExactIff | internal/dhcpd/v4_unix.go:326-355 | After loading, the marks are exact if and only if no static lease is outside the range or the first address is leased |
| LeaseLoad.LoadedMarksExactIff | internal/dhcpd/v4_unix.go:147-176 | If no stored lease is refused, the marks are exact if and only if no stored static lease is outside the range or the first address is among the stored ones |
| LeaseLoad.ReloadTakesAll | internal/dhcpd/v4_unix.go:147-176 | Stored leases that are in place and get different names are all loaded, in order |
| LeaseLoad.OutsiderWastesStart | internal/dhcpd/v4_unix.go:326-355 | One static lease outside the range makes nextIP skip the first address although nobody has it |
| V4Servers.V4Server.AddLease | internal/dhcpd/v4_unix.go:326-355 | addLease on the objects adds the lease to list, IP index, names and bit set, or changes nothing and says why |
| V4Servers.V4Server.RmLeaseByIndex | internal/dhcpd/v4_unix.go:261-284 | Removal by index takes the lease out of list, IP index, names and bit set; an index out of range changes nothing |
| V4Servers.V4Server.RmDynamicLease | internal/dhcpd/v4_unix.go:290-313 | The loop that shifts the slice it ranges over removes exactly the lease, and clears the names equal to its own |
| V4Servers.V4Server.FindLease | internal/dhcpd/v4_unix.go:612-620 | Finds the first lease with the hardware address |
| V4Servers.V4Server.NextIP | internal/dhcpd/v4_unix.go:623-636 | The search over the range with the bit set gives the least unmarked address |
| V4Servers.V4Server.FindExpiredLease | internal/dhcpd/v4_unix.go:639-648 | Finds the first expired dynamic lease |
| V4Servers.V4Server.FindMACbyIP | internal/dhcpd/v4_unix.go:231-248 | Gives a hardware address exactly when the address is leased to it and the lease is static or has not expired |
| V4Servers.V4Server.ReserveLease | internal/dhcpd/v4_unix.go:652-680 | Reserves on the objects what the value model reserves, with the IP index still exact |
| V4Servers.V4Server.BlocklistLease | internal/dhcpd/v4_unix.go:254-258 | Turns one lease into a blocked one and leaves the others |
| V4Servers.V4Server.AllocateLease | internal/dhcpd/v4_unix.go:715-731 | The allocation loop ends for every probe and computes the allocation of the value model |
| V4Servers.V4Server.CommitLease | internal/dhcpd/v4_unix.go:685-711 | Sets name and expiry of a lease object and the set of names, nothing else; the IP index stays exact if and only if the object is still listed |
| V4Servers.V4Server.HandleAround | internal/dhcpd/v4_unix.go:1191-1224 | Says where a lease object is after any message, or that it is no longer listed and unchanged |
| V4Servers.V4Server.CheckLease | internal/dhcpd/v4_unix.go:793-822 | The first lease of the client decides: found, of another address, or unknown |
| V4Servers.V4Server.HandleDiscover | internal/dhcpd/v4_unix.go:734-767 | Handles DISCOVER as the value model does, whose answers LeaseAnswers states, and keeps list, index and bit set in agreement |
| V4Servers.V4Server.HandleSelecting | internal/dhcpd/v4_unix.go:825-860 | Decides a SELECTING request as the value model does |
| V4Servers.V4Server.HandleInitReboot | internal/dhcpd/v4_unix.go:863-904 | Decides an INIT-REBOOT request as the value model does, whose answers LeaseAnswers states |
| V4Servers.V4Server.HandleRenew | internal/dhcpd/v4_unix.go:908-931 | Decides a RENEWING or REBINDING request as the value model does |
| V4Servers.V4Server.HandleByRequestType | internal/dhcpd/v4_unix.go:935-954 | Chooses the handler by server ID and requested address |
| V4Servers.V4Server.HandleRequest | internal/dhcpd/v4_unix.go:959-996 | Handles REQUEST as the value model does, whose answers LeaseAnswers states |
| V4Servers.V4Server.HandleRelease | internal/dhcpd/v4_unix.go:1070-1112 | The loop over a slice that shrinks under it handles RELEASE as the value model does |
| V4Servers.V4Server.Handle | internal/dhcpd/v4_unix.go:1191-1224 | Each message takes the server from the old value state to the next one with the reply of the value model, and keeps the invariant |
| V4Servers.V4Server.ResetLeases | internal/dhcpd/v4_unix.go:147-176 | Loads the given leases one by one, refused ones skipped; with distinct addresses the IP index is exact |
| BitSets.SetInBit | internal/dhcpd/bitset.go:33-49 | Writing a bit with shift and mask sets it to the value asked and no other |
| BitSets.ReplayIsLastCall | internal/dhcpd/bitset.go:18-49 | After any calls a bit is what the last call for it asked, and clear if there was none |
| BitSets.MaskTestsBit | internal/dhcpd/bitset.go:18-30 | The mask tests exactly its bit |
| BitSets.BitSet.IsSet | internal/dhcpd/bitset.go:18-30 | The sparse map of words answers membership of a set of numbers |
| BitSets.BitSet.Set | internal/dhcpd/bitset.go:33-49 | Setting adds the number to the set or takes it out |
| IPRanges.NewIPRange | internal/dhcpd/iprange.go:32-55 | Accepts exactly the ranges whose start is before the end by at most 2^32-1 |
| IPRanges.IPRange.Find | internal/dhcpd/iprange.go:79-94 | Finds the least address of the range that satisfies the predicate, or none if none does |
| ServerConfigs.V4ServerConf.Validate | internal/dhcpd/config.go:156-225 | Accepts exactly the acceptable configurations; then every address of the range is in the subnet, is not the gateway and is at most the broadcast address, which is the greatest of the subnet |
| Subnets.BroadcastFromPref | internal/aghnet/net.go:358-376 | The loop over bits computes the greatest address of the prefix |
| Subnets.ContainsIff | internal/dhcpd/config.go:205-220 | A subnet is the aligned block around its address whose size its prefix leaves |
| Subnets.SameBlockIffBits | internal/dhcpd/config.go:205-220 | Two addresses are in one such block exactly when their first bits agree |
| ServerConfigs.PrefixMask | internal/dhcpd/config.go:156-225 | A mask of n ones followed by zeros gives a prefix of n bits |
| ServerConfigs.MixedMask | internal/dhcpd/config.go:156-225 | A mask with a one behind a zero gives a prefix of no bits |
| ServerConfigs.ClassCMask | internal/dhcpd/config.go:156-225 | 255.255.255.0 gives a prefix of 24 bits |
| ServerConfigs.MappedIsV4 | internal/dhcpd/config.go:143-150 | An IPv4 address in its IPv6 form is the IPv4 address |
| Subnets.SubnetConvex | internal/dhcpd/config.go:205-220 | An address between two addresses of a subnet is in the subnet |
| Subnets.OrSetsBit | internal/aghnet/net.go:358-376 | Setting bit i of the byte slice sets bit i of the address and no other |
| Subnets.OnesAreGreatest | internal/aghnet/net.go:358-376 | An address with all host bits set is the greatest with its prefix |
| Clients.RunKeepsGood | internal/client/storage.go:406-662 | In every state of every run of Add, Update and RemoveByName no two clients share a name, ClientID, address, subnet or hardware address |
| Clients.OutcomeDetermined | internal/client/storage.go:406-662 | The clients before an operation determine its success and the clients after it |
| Clients.OpKeepsGood | internal/client/storage.go:406-662 | Each operation keeps clients without common identifiers |
| Clients.ValidIff | internal/client/persistent.go:135-166 | A client is valid if and only if it has a name, an identifier, a UID, upstreams that parse and only allowed tags |
| Clients.AddSucceedsIff | internal/client/storage.go:406-442 | A client is added if and only if it is valid, its UID is new and no stored client has its name or an identifier of it |
| Clients.UpdateSucceedsIff | internal/client/storage.go:628-662 | A client is updated if and only if the new one is valid and clashes with no other; it keeps the UID |
| Clients.ContainsIffAround | internal/client/index.go:253-276 | A prefix contains an address if and only if the families agree, the address has no zone, and it is in the aligned block of the prefix |
| Clients.AroundIffBits | internal/client/index.go:253-276 | That is, if and only if the first bits of the two agree, as many as the prefix has |
| Clients.NotAround | internal/client/index.go:253-276 | 10.0.0.0/24 contains 10.0.0.3 and not 10.1.2.3 |
| Clients.SubnetCompareIsOrder | internal/client/persistent.go:191-207 | subnetCompare is a strict total order that is 0 only for equal prefixes |
| ClientIndexes.InverseUnique | internal/client/index.go:67-92 | The clients have only one inverse map, so they determine the index |
| ClientIndexes.AddInverses | internal/client/index.go:67-92 | Adding a client that shares nothing keeps all five maps the exact inverse of the clients |
| ClientIndexes.RemoveInverses | internal/client/index.go:331-352 | Removing a stored client keeps all five maps the exact inverse of the clients |
| ClientIndexes.InversesNoneShare | internal/client/index.go:67-205 | Clients that have inverse maps share no identifier |
| ClientIndexes.FoundByIPUnique | internal/client/index.go:253-276 | There is only one right answer to a search by address |
| ClientIndexes.FirstIsBest | internal/client/index.go:253-276 | The first containing prefix in the order of subnetCompare is the longest, with the least address among equals |
| ClientIndexes.TrueClash | internal/client/index.go:107-205 | What the maps report as a clash is one with a stored client that has the reported identifier |
| ClientIndexes.Index.Add | internal/client/index.go:67-92 | Adds the client to the six maps, which stay exact inverses |
| ClientIndexes.Index.Remove | internal/client/index.go:331-352 | Takes the client out of the six maps, which stay exact inverses |
| ClientIndexes.Index.Clashes | internal/client/index.go:107-137 | Reports nothing if and only if no other client shares an identifier, and otherwise a true clash |
| ClientIndexes.Index.ClashesSubnet | internal/client/index.go:169-191 | Reports a subnet of another client exactly when there is one |
| ClientIndexes.Index.FindByName | internal/client/index.go:243-250 | Finds the client called so, or nobody is |
| ClientIndexes.Index.FindByClientID | internal/client/index.go:233-240 | Finds the client with the ClientID, or nobody has it |
| ClientIndexes.Index.FindByMAC | internal/client/index.go:299-307 | Finds the client with the hardware address, or nobody has it |
| ClientIndexes.Index.FindByCIDR | internal/client/index.go:281-296 | Finds the client with exactly this subnet, or nobody has it |
| ClientIndexes.Index.FindByIP | internal/client/index.go:253-276 | The owner of the address, else of the longest stored prefix whose block it is in with the least address among equals, else nobody |
| SortedMaps.BinarySearch | internal/aghalg/sortedmap.go:27-62 | Gives the position of the first key that is not less, and whether the key is there |
| SortedMaps.SortedUnique | internal/aghalg/sortedmap.go:27-36 | A set of keys has only one sorted list |
| SortedMaps.InsertKeepsSorted | internal/aghalg/sortedmap.go:27-36 | Inserting at the position found keeps the keys sorted and adds exactly the key |
| SortedMaps.DeleteKeepsSorted | internal/aghalg/sortedmap.go:50-62 | Deleting at a position keeps the keys sorted and drops exactly that key |
| SortedMaps.EntriesDetermined | internal/aghalg/sortedmap.go:76-86 | The plain map determines what Range enumerates, once per entry |
| SortedMaps.SortedMap.Set | internal/aghalg/sortedmap.go:27-36 | Refines assignment to a plain map, with the keys strictly sorted and equal to its domain |
| SortedMaps.SortedMap.Get | internal/aghalg/sortedmap.go:39-47 | Refines lookup in a plain map |
| SortedMaps.SortedMap.Del | internal/aghalg/sortedmap.go:50-62 | Refines deletion from a plain map |
| SortedMaps.SortedMap.Clear | internal/aghalg/sortedmap.go:65-72 | Empties the map |
| SortedMaps.SortedMap.Range | internal/aghalg/sortedmap.go:76-86 | Visits the entries in order, each once, until the callback says no |
| UpstreamManagers.ServeStale | internal/client/upstreammanager.go:91-151 | Two changes of the common settings at one instant, with a lookup in between: the second lookup returns what the first settings gave, which is not what a fresh build gives |
| UpstreamManagers.FreshBuildIs | internal/client/upstreammanager.go:197-227 | What is built: the upstreams of the client that are not comments, its cache settings and the common settings, or nothing if it has only comments |
| UpstreamManagers.FilterOutAppend | internal/client/upstreammanager.go:201-204 | Filtering drops comments and empty lines and keeps the others in order |
| UpstreamManagers.UpstreamManager.UpdateCommonUpstreamConfig | internal/client/upstreammanager.go:91-94 | Takes the settings over; with a clock that does not go back the cache stays up to date if and only if the clock has advanced, or every entry will be rebuilt anyway, has no own upstreams, or the settings are the same |
| UpstreamManagers.UpstreamManager.UpdateCustomUpstreamConfig | internal/client/upstreammanager.go:100-115 | Records the settings of one client, keeps the handles owned once and the cache up to date |
| UpstreamManagers.UpstreamManager.CustomUpstreamConfig | internal/client/upstreammanager.go:118-145 | Rebuilds exactly the entries that need it, else returns what is stored; the result is open and stored, and while the cache is up to date it is what a fresh build from the client settings and the common settings would give |
| UpstreamManagers.UpstreamManager.Rebuild | internal/client/upstreammanager.go:197-227 | Closes the old configuration once and stores what a fresh build gives |
| UpstreamManagers.UpstreamManager.Remove | internal/client/upstreammanager.go:165-179 | Forgets the client and closes its configuration |
| UpstreamManagers.UpstreamManager.CloseAll | internal/client/upstreammanager.go:182-193 | Closes every configuration that is open, each once |
| ClientStorages.Storage.Add | internal/client/storage.go:406-442 | Stores a valid client with a new UID and no clash, in the index and the cache; a failure changes nothing |
| ClientStorages.Storage.Update | internal/client/storage.go:628-662 | Replaces the client called so under its UID if the new one is valid and clashes with no other; a failure changes nothing |
| ClientStorages.Storage.RemoveByName | internal/client/storage.go:607-624 | Removes the client called so from index and cache, if there is one |
| ClientStorages.Storage.StoredAreGood | internal/client/storage.go:406-662 | In a valid storage no two clients share an identifier |
| ClientStorages.Storage.FindByIP | internal/client/storage.go:560-572 | The client of the address, else the client of the hardware address that DHCP has for it |
| ClientStorages.Storage.Find | internal/client/storage.go:525-556 | The loop over flags ends and gives the answer of the first parameter, in order, that finds somebody |
| ClientStorages.Storage.UpdateCommonUpstreamConfig | internal/client/storage.go:747-752 | Takes the common settings over; the cache stays up to date if and only if the manager notices the change |
| ClientStorages.Storage.CustomUpstreamConfig | internal/client/storage.go:726-743 | Returns for the client of a query what a fresh build from its current fields and the current common settings gives |
| LeaseIndexes.RunKeepsInv | internal/dhcpsvc/leaseindex.go:55-126 | In every state of every proper run the maps by address, by name and by interface hold the same leases, each under its own keys and on the interface of its address |
| LeaseIndexes.AddKeepsInv | internal/dhcpsvc/leaseindex.go:55-73 | Adding keeps the maps in agreement |
| LeaseIndexes.RemoveKeepsInvIff | internal/dhcpsvc/leaseindex.go:78-96 | A removal keeps the maps in agreement if and only if address, name and hardware address are of one stored lease |
| LeaseIndexes.UpdateKeepsInvIff | internal/dhcpsvc/leaseindex.go:101-126 | An update keeps the maps in agreement if and only if the name it asks for is not used on another interface |
| LeaseEffects.AddSucceedsIff | internal/dhcpsvc/leaseindex.go:55-73 | A lease is added if and only if an interface serves its address, its hardware address can be a key, and no stored lease has its address, its name up to case, or its hardware address on its interface |
| LeaseEffects.AddStores | internal/dhcpsvc/leaseindex.go:55-73 | The stored leases are then those of before and the new one |
| LeaseEffects.AddFailsAs | internal/dhcpsvc/leaseindex.go:55-73 | The order of the errors of an addition |
| LeaseEffects.UpdateSucceedsIff | internal/dhcpsvc/leaseindex.go:101-126 | A lease is updated if and only if its hardware address has a lease on its interface and no lease of another hardware address has its address or name |
| LeaseEffects.UpdateStores | internal/dhcpsvc/leaseindex.go:101-126 | The new lease then stands in the place of the one of its hardware address on its interface, and the others are those of before |
| LeaseEffects.RemoveSucceedsIff | internal/dhcpsvc/leaseindex.go:78-96 | A removal succeeds if and only if the address, the name and the hardware address are in use |
| LeaseEffects.RemoveStores | internal/dhcpsvc/leaseindex.go:78-96 | Removing a stored lease succeeds and leaves exactly the others |
| LeaseEffects.RemoveByAddrStores | internal/dhcpsvc/server.go:366-404 | So does removing it by address |
| LeaseIndexes.UpdateTakesName | internal/dhcpsvc/leaseindex.go:101-126 | One hardware address on two interfaces: an update to the name of the other lease goes through and the maps disagree |
| LeaseIndexes.RemoveMixesKeys | internal/dhcpsvc/leaseindex.go:78-96 | A removal with the address and hardware address of one lease and the name of another goes through and the maps disagree |
| LeaseIndexes.RemoveByAddrKeepsInv | internal/dhcpsvc/server.go:366-404 | Removal by address succeeds exactly for leased addresses and keeps the maps in agreement |
| LeaseIndexes.RemoveUndoesAdd | internal/dhcpsvc/leaseindex.go:55-96 | Removing an added lease gives the state before it |
| LeaseDBs.ReloadRebuilds | internal/dhcpsvc/db.go:126-178 | Storing all leases and loading them in any order rebuilds the same maps, with the expiries that their text keeps and none for static leases, without exactly those dynamic leases whose expiry has not a year of four digits |
| LeaseDBs.LoadsPrefix | internal/dhcpsvc/db.go:126-159 | After any part of the list, exactly its leases that can be read back are loaded: every re-add succeeds |
| LeaseDBs.ToInternalToDB | internal/dhcpsvc/db.go:51-92 | A lease with a hardware address of 6, 8 or 20 bytes is read back with the expiry that its text keeps, or not at all if the year of its expiry has not four digits |
| LeaseDBs.SurvivesRestartIff | internal/dhcpsvc/db.go:51-178 | A lease is there after a restart if and only if it is static or its expiry has a year of four digits in its zone |
| LeaseDBs.LostInYear10000 | internal/dhcpsvc/db.go:51-178 | A lease up to the first second of the year 10000 is stored and lost |
| LeaseDBs.SurvivesIff | internal/dhcpsvc/db.go:51-92 | A stored instant survives if and only if it is a whole second and its zone is a whole number of minutes from UTC |
| LeaseDBs.LaterIff | internal/dhcpsvc/db.go:51-92 | It becomes later if and only if its zone is east of UTC by more than a whole number of minutes |
| LeaseDBs.LongerByZone | internal/dhcpsvc/db.go:51-92 | A zone in which a lease gains 32 seconds |
| LeaseDBs.ReadBackTwice | internal/dhcpsvc/db.go:51-92 | What has been read once survives from then on |
| LeaseTexts.TextExists | internal/dhcpsvc/db.go:46-92 | Text forms and an order of names that meet what is asked of them exist |
| LeaseDBs.KeptIsStable | internal/dhcpsvc/db.go:51-92 | A second store and load changes nothing more and loses nothing more |
| LeaseDBs.BuildList | internal/dhcpsvc/db.go:163-178 | The insertion loop lists every lease once, sorted by name, whatever the order of the map |
| DHCPServers.NetInterface.AddLease | internal/dhcpsvc/interface.go:55-65 | Adds a lease under a new hardware address that can be a key, or changes nothing |
| DHCPServers.NetInterface.UpdateLease | internal/dhcpsvc/interface.go:69-79 | Replaces the lease of a known hardware address and gives the old one, or changes nothing |
| DHCPServers.NetInterface.RemoveLease | internal/dhcpsvc/interface.go:83-93 | Removes the lease of a known hardware address |
| DHCPServers.NetInterface.Reset | internal/dhcpsvc/interface.go:49-51 | Drops all leases |
| DHCPServers.DHCPServer.AddToIndex | internal/dhcpsvc/leaseindex.go:55-73 | Does to the maps what the value model does; an error changes nothing |
| DHCPServers.DHCPServer.RemoveFromIndex | internal/dhcpsvc/leaseindex.go:78-96 | Does to the maps what the value model does; an error changes nothing |
| DHCPServers.DHCPServer.UpdateIndex | internal/dhcpsvc/leaseindex.go:101-126 | Does to the maps what the value model does; an error changes nothing |
| DHCPServers.DHCPServer.DBStore | internal/dhcpsvc/db.go:163-195 | Writes a list of all leases, or leaves the database |
| DHCPServers.DHCPServer.AddLease | internal/dhcpsvc/server.go:250-284 | Keeps the maps in agreement; success means that the database lists the new leases, an index error that nothing changed |
| DHCPServers.DHCPServer.UpdateStaticLease | internal/dhcpsvc/server.go:289-323 | As AddLease, for an update |
| DHCPServers.DHCPServer.RemoveLease | internal/dhcpsvc/server.go:326-360 | As AddLease, for a removal |
| DHCPServers.DHCPServer.RemoveLeaseByAddr | internal/dhcpsvc/server.go:366-404 | As AddLease, for a removal by address |
| DHCPServers.DHCPServer.ResetLeases | internal/dhcpsvc/server.go:239-247 | Empties all maps |
| DHCPServers.DHCPServer.DBLoad | internal/dhcpsvc/db.go:96-123 | Replaces the leases with those of the list that can be converted and added |
| DHCPServers.DHCPServer.LoadLease | internal/dhcpsvc/db.go:126-159 | Adds one lease of the list or skips it |
| DHCPServers.DHCPServer.Restart | internal/dhcpsvc/db.go:96-195 | A server that loads what another has written has the other's leases by address, by name and on every interface, up to what the file keeps |
| AddrRanges.OffsetIsDistance | internal/dhcpsvc/iprange.go:30-93 | In every accepted range the wrapping difference of the low 64-bit halves is the true distance from the start and is below 2^32 |
| AddrRanges.NewRangeIff | internal/dhcpsvc/iprange.go:30-53 | Two addresses of one family and zone make a range if and only if the first is before the second by at most 2^32-1; addresses of two families make none |
| AddrRanges.OffsetInjective | internal/dhcpsvc/iprange.go:82-93 | Two addresses of a range have one offset exactly when they are one number, which within a family and zone is one address |
| AddrRanges.ZonesShareOffset | internal/dhcpsvc/iprange.go:82-93 | Two addresses that differ in their zone share an offset |
| AddrRanges.AddrRange.Find | internal/dhcpsvc/iprange.go:70-78 | Where it ends, the least satisfying address of the range in the zone of its start; else the empty address, or one past the end of the address space |
| AddrRanges.FindEndsIff | internal/dhcpsvc/iprange.go:70-78 | The search ends if and only if the range does not reach the last address of its family, or something that it comes to satisfies the predicate |
| AddrRanges.LastAddressNeverEnds | internal/dhcpsvc/iprange.go:30-78 | An accepted range up to 255.255.255.255 is searched for ever by a predicate that is never true |
| ConfigParsers.ConfigParser.Parse | internal/control/routes.go:174-194 | Fails if and only if some line lists valid hosts with only blanks after them; otherwise, told from the text of the lines alone: a list whose first field is # empties the list of each of its hosts, any other list adds its upstreams, up to the first that cannot be made, to each of its hosts in order; a host has its wildcard list as reserved list if a wildcard names it, else its plain list; the exclusions are the wildcard hosts; other lines give a default upstream; exactly the lines in error are reported; each string is made into an upstream once |
| ConfigParsers.RunHost | internal/control/routes.go:259-326 | After any interleaving of includes and excludes the three maps and the set have about each host what the log of the lines declares |
| ConfigParsers.RunOnce | internal/control/routes.go:259-270 | The index of upstreams has one upstream for each string, and no more were made |
| ConfigParsers.RunDefaults | internal/control/routes.go:259-292 | The default upstreams are those given without hosts, in order |
| ConfigParsers.FinalMeans | internal/control/routes.go:174-194 | Replacing reserved lists by wildcard lists gives each host the list of its decisive key |
| ConfigParsers.ConfigParser.ParseLine | internal/control/routes.go:197-223 | Does what the line asks for, which ConfigTexts.EntryLeads tells from its text; upstreams before a refused one stay |
| ConfigParsers.ConfigParser.SpecifyUpstream | internal/control/routes.go:259-292 | Finds or makes the upstream and includes it for all hosts or as a default |
| ConfigParsers.ConfigParser.ExcludeFromReserved | internal/control/routes.go:296-308 | Does the exclusions of the line in order |
| ConfigParsers.ConfigParser.IncludeToReserved | internal/control/routes.go:311-326 | Does the inclusions of the line in order |
| ConfigTexts.EveryLineFits | internal/control/routes.go:197-256 | Every line is a note, a default upstream, a list of hosts with upstreams, or malformed |
| ConfigTexts.EntryLeads | internal/control/routes.go:197-326 | What a line does to the list of any host, and to the default upstreams, told from its text |
| ConfigTexts.LogMeansText | internal/control/routes.go:197-326 | The same for any sequence of lines |
| ConfigTexts.OutcomeMeansText | internal/control/routes.go:197-292 | A line that can be read is reported exactly if it is malformed or has an upstream that cannot be made |
| ConfigTexts.FieldsWord | internal/control/routes.go:255-255 | A word that a blank or the end follows is a field as it is |
| ConfigTexts.FieldsSkip | internal/control/routes.go:255-255 | Blanks between fields do not matter |
| ConfigLines.SplitConfigLine | internal/control/routes.go:228-256 | The loop over hosts splits a line as specified, or rejects it for its first invalid host |
| ConfigLines.Fields | internal/control/routes.go:255-255 | The fields of a line are not empty and have no spaces in them, and there are none if and only if the line is blank |
| ConfigLines.LineReadsBack | internal/control/routes.go:228-256 | A line written in the documented form is read back as its hosts and upstreams |
| ConfigLines.ListIsLine | internal/control/routes.go:228-256 | Only lines in the documented form are read as lists |
| ConfigLines.PanicsIff | internal/control/routes.go:197-223 | A line is indexed out of range if and only if it lists valid hosts in the documented form and has only blanks after the list |
| ConfigLines.BlankPanics | internal/control/routes.go:197-223 | The line that lists one host and has a blank for an upstream is such a line |
| ConfigLines.OnlyNamingEventsMatter | internal/control/routes.go:259-326 | The list of a host depends only on the directives that name it |
| ConfigLines.ListForStep | internal/control/routes.go:296-326 | An exclude empties the list of its key, an include appends to it, and neither touches another key |
| FileWalkers.Walk | internal/aghos/filewalker.go:87-125 | Ends on every finite file system; no file is visited twice or without being reachable; the walk ends at the first file whose callback says so or that cannot be opened, examined, closed or gone on from, or has visited the whole closure of the patterns |
| FileWalkers.StoppedIff | internal/aghos/filewalker.go:87-125 | Without errors the walk returns true if and only if some reachable file says stop, and otherwise has visited exactly the closure |
| FileWalkers.CheckFileIs | internal/aghos/filewalker.go:26-53 | Checking a file stops, fails and leads on exactly as the kind of the file, its closing and the answer of the callback say |
| FileWalkers.HandlePatterns | internal/aghos/filewalker.go:57-83 | Gives the new matches in order, each once, adds all matches to the set, and fails exactly if a pattern is bad |
| FileWalkers.WalkFile | internal/aghos/filewalker.go:104-122 | One turn either ends the walk rightly or extends the sources by what the file leads to; the set grows whenever the list does |
| FileWalkers.ClosedHasReachable | internal/aghos/filewalker.go:87-125 | A set that has the initial matches and is closed under returned patterns has every reachable file |
| FileWalkers.UnseenElems | internal/aghos/filewalker.go:57-83 | The new matches are distinct and are the matches that were not seen |
| SessionCodecs.RoundTripIff | internal/aghuser/sessionstorage.go:262-298 | Decoding an encoded session is exact if and only if the login has at most 65535 bytes and the expiry is a whole second from 0 to below 2^32 |
| SessionCodecs.DecodeEncode | internal/aghuser/sessionstorage.go:262-298 | Decoding an encoded session fails exactly for longer logins and otherwise keeps the login and the expiry modulo 2^32 seconds |
| SessionCodecs.EncodedBytes | internal/aghuser/sessionstorage.go:285-298 | Which byte stands where: four of the expiry and two of the length of the login, the highest first, and then the login |
| SessionCodecs.EncodeDecode | internal/aghuser/sessionstorage.go:262-298 | Whatever can be decoded is encoded to the same bytes |
| SessionCodecs.KeptNotLonger | internal/aghuser/sessionstorage.go:285-298 | What is kept of an expiry is not later if and only if the expiry is not before 1970, and is kept as it is from then on |
| SessionCodecs.BboltEncode | internal/aghuser/sessionstorage.go:285-298 | Filling the buffer field by field gives the binary form |
| SessionStorages.RunKeepsInv | internal/aghuser/sessionstorage.go:128-439 | In every state of every run, restarts included, the database has exactly the encoded records of the sessions in memory |
| SessionStorages.StepIs | internal/aghuser/sessionstorage.go:304-439 | What each operation does to the session of any token: a stored one is there, a deleted or expired one that is removed is not, and no other is touched |
| SessionStorages.NeverRevivedOrLengthened | internal/aghuser/sessionstorage.go:128-245 | Through any operations and restarts a session that is not made anew does not come back, keeps its login, and is not lengthened if it expires after 1970 |
| SessionStorages.DeletedStaysGone | internal/aghuser/sessionstorage.go:383-439 | A deleted token is in neither memory nor database until a session is made with it |
| SessionStorages.RestartKeepsIff | internal/aghuser/sessionstorage.go:175-245 | A session survives a restart if and only if its login fits, its user is known and its kept expiry is not past; it is then the same up to expiry and user ID |
| SessionStorages.LostIff | internal/aghuser/sessionstorage.go:175-298 | A restart loses an unexpired session of a known user if and only if its login has more than 65535 bytes or its kept expiry is past |
| SessionStorages.LongLoginLost | internal/aghuser/sessionstorage.go:285-298 | A session with a login of 65536 bytes is lost |
| SessionStorages.LateExpiryLost | internal/aghuser/sessionstorage.go:285-298 | A session that expires 2^32 seconds after 1970 is lost |
| SessionStorages.RestartTwice | internal/aghuser/sessionstorage.go:128-171 | A second restart at once changes nothing |
| SessionStorages.EarlyExpiryLengthened | internal/aghuser/sessionstorage.go:285-298 | A session that expires before 1970 is lengthened by a restart |
| SessionStorages.SessionStorage.LoadSessions | internal/aghuser/sessionstorage.go:128-171 | Loads exactly the decodable, unexpired records of known users and deletes the others, or leaves the database |
| SessionStorages.SessionStorage.ReadRecords | internal/aghuser/sessionstorage.go:175-245 | The iteration loads the live records and lists the others |
| SessionStorages.SessionStorage.New | internal/aghuser/sessionstorage.go:304-356 | Stores the session in database and memory, or in neither |
| SessionStorages.SessionStorage.FindByToken | internal/aghuser/sessionstorage.go:359-379 | Returns the stored session exactly if it has not expired; an expired one is deleted, and an error means that this failed |
| SessionStorages.SessionStorage.DeleteByToken | internal/aghuser/sessionstorage.go:383-439 | Deletes from database and memory, or from neither; without a bucket it is an error |

## Left out

- V4Servers.V4Server.RmDynamicLease: stated for a lease that shares neither hardware address nor address with another, as in RELEASE; the code skips the test for the lease that is shifted into a freed slot.
- V4Servers.V4Server.Handle: serialised handling of messages with six-byte hardware addresses that are not all zero, as for HandleDiscover, HandleRequest and HandleRelease; of the interleavings that the lock allows inside REQUEST, those with one other message are modelled, in RequestRace.
- V4Servers.V4Server.HandleDiscover: six-byte hardware addresses that are not all zero.
- V4Servers.V4Server.HandleRequest: six-byte hardware addresses that are not all zero.
- V4Servers.V4Server.HandleRelease: six-byte hardware addresses that are not all zero.
- V4Servers.V4Server.RacedRequest: granted requests; a request that the check does not grant has no second half.
- V4Servers.V4Server.ResetLeases: lists in which no lease object stands twice.
- LeaseLoad.ReloadMarksExactIff: for stored leases with distinct addresses and distinct six-byte hardware addresses.
- Subnets.BroadcastFromPref: IPv4 prefixes only, which is what its caller has.
- ClientIndexes.Index.Add: for clients that clash with nobody, which its callers have tested.
- ClientIndexes.Index.Remove: for stored clients, which is what its callers pass.
- LeaseLoad.ReloadEstablishesInv: for stored leases with distinct addresses and distinct six-byte hardware addresses.
- DHCPServers.DHCPServer.UpdateStaticLease: for updates whose name is not used on another interface; LeaseIndexes.UpdateKeepsInvIff shows that the maps disagree after the others.
- DHCPServers.DHCPServer.RemoveLease: for leases whose keys are of one stored lease, as its callers promise; LeaseIndexes.RemoveKeepsInvIff covers the others.
- UpstreamManagers.UpstreamManager.CustomUpstreamConfig: for clients with own upstreams only once the common settings are known, since the source dereferences them.
- ClientStorages.Storage.CustomUpstreamConfig: as the manager, for found clients with own upstreams only once the common settings are known.
- AddrRanges.AddrRange.Find: for the predicates for which the search ends; AddrRanges.FindEndsIff says which they are.
- SessionStorages.RunKeepsInv: restarts that fail are not steps of runs, as they leave no storage and do not change the database.
- FileWalkers.Walk: on a file system and a callback that do not change during the walk.
- ConfigParsers.ConfigParser.Parse: whether an upstream string is accepted does not change between lines; the text of error messages is not modelled.
- DECLINE messages, which add the newly allocated lease to the list twice.
- Static lease changes of the DHCPv4 server, and its database file.
- Exactness of the hostname index of the DHCPv4 server: blocklisting and removal clear names without it.
- Hostname normalisation, DHCP options, packets, sockets, pings and the DHCPv6 server of `internal/dhcpd`.
- Message handlers of `internal/dhcpsvc`, which are empty.
- Runtime clients: independent fields for five sources, set and cleared one at a time, which would add only easy members.
- Clearing the DNS caches of custom upstream configurations, loose searches by address and tag or settings lookups of clients.
- Aliasing of client records: the storage keeps pointers to records, and the model keeps values.
- Hardware addresses as map keys of fixed-size arrays: the models use byte strings; the panic of `macToKey` on other lengths is the error InvalidMAC of `internal/dhcpsvc`.
- Keys of the session bucket that are not 16 bytes long.
- Closing an upstream configuration, which closes shared upstreams more than once.
- Configuration migration, the DNS pipeline, filtering, HTTP handlers, and file and network access.
