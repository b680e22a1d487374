# ConnMan network stack: verified models

ConnMan carries its own DHCP client and server, HTTP client, DNS resolver and
Wi-Fi supplicant glue. This project models the parts of them that keep state or do
arithmetic over many steps, and proves what they guarantee over every run, every
input and every way the network cuts the data.

| files | component |
|---|---|
| `LeaseTable`, `DhcpServer`, `LeaseRuns` | DHCP server: lease list and hash, allocator, packet handler, whole runs |
| `RenewalTiming`, `ClientSteps`, `DhcpClient`, `ClientRuns` | DHCPv4 client: renewal and rebinding chains, states and timers, whole runs |
| `Ipv4LinkLocal` | link-local address claim and defence |
| `DhcpOptions`, `Dhcpv6Message`, `Checksum`, `RawPacket` | DHCP wire formats: writers, readers, frames, checksums |
| `HttpText`, `HttpResponse`, `WebSession`, `HttpFragments`, `HttpCuts`, `ChunkCodec` | HTTP response parser, chunked transfer in both directions |
| `TokenScanner`, `TokenParse` | the section scanner of the HTTP client, and what exactly it finds |
| `AddressOrder`, `Bits` | destination address ordering |
| `LookupHistory`, `ResolverLookups` | two-query lookups of the resolver |
| `BssNames`, `BssTables`, `BssInterface`, `BssRuns` | access points grouped into networks: names, tables, notifications, whole runs |
| `Words` | machine words, byte order |

Code that updates objects in place is modelled by classes and methods with the same
branches and loops. Each method is proved equal to a function on values (`Handle`,
`Feed`, `Run`, `Next`, `Step`, ...) or keeps an invariant (`Valid`), and the main results
are lemmas about those functions and invariants, over whole runs where the code is a
sequence of events. For example, `Valid` of the resolver says
that its history is disciplined, that every queued query is one of the two of a queued
lookup and that every queued lookup waits for a query; `LookupHistory.ExactlyOnce` then
holds of every resolver in every state.

## What the code does differently from its purpose

The model follows the code, and each of these is stated as a theorem with its exact
condition.

- An offer is stored with the absolute expiry time 300, so it reserves nothing once the
  clock is past 300 (`LeaseRuns.OfferReservedOnlyBeforeOfferTime`).
- RELEASE compares addresses in different byte orders and works only for addresses whose
  bytes form a palindrome (`LeaseRuns.ReleaseNeedsPalindrome`).
- The lease list is sorted by a 64-bit difference cut to a C `int`. It stays sorted iff
  every insertion keeps the signs it compares (`LeaseRuns.RunSortedIff`), as all do while no
  two expiry times are 2^31 seconds apart (`LeaseRuns.RunKeepsOrder`). The allocator misses
  an expired lease iff the range is full and the last lease of the list still runs
  (`LeaseRuns.AllocatorMissesIff`; `LeaseRuns.ThirdClientServedIff` is a witness).
- A carriage return is recognised only in the read that also holds the line feed
  (`HttpCuts.CutInSizeLine`, `HttpCuts.CutInHeaderLine`).
- The test for IPv4 prefixes is inverted, so every IPv4 address gets link scope
  (`AddressOrder.ScopeOfIpv4`). As a by-product the comparison is a total order even on
  v4-mapped IPv6 destinations.
- The token scanner does not retry an octet that broke a partial match. A token is seen iff
  it begins where no partial match is under way (`TokenParse.FirstIsSeenIff`,
  `TokenParse.ReportsAreExact`); for a token whose first octet does not come again in it,
  iff the number of partial matches right before it is even (`TokenParse.BeginSeenIffEven`).
- A DHCP OFFER, or an ACK while rebooting, without server identifier leaves the client
  with no timer at all (`ClientRuns.NeverStalls`).
- NAKs that keep coming let the client hold its lease past the end, for any length of time
  (`ClientRuns.HeldPastItsEnd`) but never longer than three seconds after the last one
  (`ClientRuns.LeaseIsLeftInTime`).
- A network that stops being the current one is not ranked anew
  (`BssRuns.LeavingDoesNotRank`, `BssRuns.MaximumAfterLeaving`, `BssRuns.CachesMaximum`).
- A BSS whose SSID or mode changes, but not its security, stays in its network
  (`BssRuns.StepKeepsGroups`).

## Assumptions

- A little-endian host with 64-bit `long`; GLib lists, queues and hash tables behave as
  documented; memory and sockets are available unless a parameter says otherwise.
- Times, random numbers, received packets and callback results are parameters. A timer
  fires exactly at its deadline: time does not pass an armed deadline without the handler.
- User callbacks do not call back into the component that called them.
- `errno` holds no stale `EINVAL` when a chunk size is parsed.
- The DHCP address range ends below 255.255.255.255, where the address loop would wrap.
- Scanner tokens have at least two octets; the code reads past the end of shorter ones.
- The address comparison breaks ties by the addresses of the two results in memory; these
  are taken to be their places in the unsorted array, as if `qsort` moved nothing while it
  compares.
- The pointer to the current network is left dangling when that network is dropped. No new
  network is taken to get the same address: networks carry serials that are never reused.

## Model

| member | source | states |
|---|---|---|
| LeaseTable.HandleKeepsTable | gdhcp/server.c:646-750 | every packet at any time keeps all hardware addresses and all IP addresses of the table distinct, in range and admissible |
| LeaseTable.AddLeaseOk | gdhcp/server.c:121-218 | adding a lease evicts every claim on the address and on the client, so the table stays unique |
| LeaseTable.EvictCases | gdhcp/server.c:141-180 | what each of the four cases of `get_lease` removes is every claim on the address and on the client |
| LeaseTable.EvictClears | gdhcp/server.c:121-181 | after `get_lease` no other lease holds the address or the client |
| LeaseTable.InsertAt | gdhcp/server.c:183-189 | the sorted insertion puts the lease before the first one it does not compare greater than |
| LeaseTable.SetExpireOk | gdhcp/server.c:284-293 | re-sorting a released lease keeps the table unique |
| LeaseTable.FirstFree | gdhcp/server.c:242-267 | the first usable address of the range that no lease holds, and none only if all are held |
| DhcpServer.CutRepresents | gdhcp/server.c:110-118 | taking a record off the list and its key off the hash leaves both with the same leases |
| DhcpServer.SpliceRepresents | gdhcp/server.c:211-217 | adding a record to both leaves them with the same leases |
| DhcpServer.Lookup | gdhcp/server.c:220-225 | the hash finds an address iff some lease on the list holds it, and finds that lease |
| DhcpServer.Server.FindLeaseByMac | gdhcp/server.c:95-108 | the lease of the client, or none if there is none |
| DhcpServer.Server.FindLeaseByNip | gdhcp/server.c:220-225 | the lease of the address, or none if there is none |
| DhcpServer.Server.RemoveLease | gdhcp/server.c:110-118 | exactly this lease disappears from list and hash |
| DhcpServer.Server.GetLease | gdhcp/server.c:121-181 | refuses broadcast and null clients and addresses outside the range, changing nothing; otherwise hands out a record that is on neither index, all claims removed |
| DhcpServer.Server.InsertPosition | gdhcp/server.c:183-189 | the place where the sorted insertion puts a record |
| DhcpServer.Server.Insert | gdhcp/server.c:211-217 | list and hash both gain the record and stay in agreement |
| DhcpServer.Server.AddLease | gdhcp/server.c:191-218 | the table after it is that of `AddLease` on values; refused leases change nothing |
| DhcpServer.Server.LeaseSetExpire | gdhcp/server.c:284-293 | the lease moves to its new place; list and hash agree |
| DhcpServer.Server.FindFreeOrExpiredNip | gdhcp/server.c:242-282 | the loop returns the first free usable address, else that of the last lease if expired, else 0 |
| DhcpServer.Server.CheckRequestedNip | gdhcp/server.c:489-511 | a requested address is accepted iff it is in range and unleased or expired |
| DhcpServer.Server.SendOffer | gdhcp/server.c:536-577 | a DISCOVER offers the client's own address, else the one it asks for if free, else the allocator's; table and answer are those on values |
| DhcpServer.Server.ListenerEvent | gdhcp/server.c:646-750 | one packet on list, hash and records gives the table and the answer of `Handle` |
| LeaseRuns.RunKeepsTable | gdhcp/server.c:646-750 | the table is unique and in range before every packet of every run |
| LeaseRuns.HeldStep | gdhcp/server.c:684-742 | a held lease survives any packet that does not give it up, and its address goes to nobody else |
| LeaseRuns.AckHolds | gdhcp/server.c:593-619 | an acknowledged address is held for the full lease time |
| LeaseRuns.CandidateAvoidsHeld | gdhcp/server.c:489-577 | the address picked for an offer is never one that another client holds unexpired |
| LeaseRuns.HeldIsNotGiven | gdhcp/server.c:684-742 | no packet of any sender makes the server give a held address to another client |
| LeaseRuns.LeaseExclusivity | gdhcp/server.c:646-750 | in every run with a forward clock: if another client is given an address within the term for which it was acknowledged, the holder gave it up in between |
| LeaseRuns.RenewalIsAcknowledged | gdhcp/server.c:692-706 | a renewal by the holder is acknowledged and holds for another full term |
| LeaseRuns.ReleaseNeedsPalindrome | gdhcp/server.c:730-742 | a RELEASE of the own address takes effect iff the address is a byte palindrome |
| LeaseRuns.OfferReservedOnlyBeforeOfferTime | gdhcp/server.c:536-577 | an offered address is offered to the next client that asks for it iff the clock is past 300 |
| LeaseRuns.InsertSortedIff | gdhcp/server.c:183-189 | an insertion keeps the list sorted iff the cut comparison keeps its sign with every lease that ends later and with the first that does not |
| LeaseRuns.HandleInserts | gdhcp/server.c:646-750 | what every packet inserts into which list, or that it inserts nothing |
| LeaseRuns.HandleSortedIff | gdhcp/server.c:646-750 | a packet keeps the list sorted iff its insertion keeps the signs |
| LeaseRuns.RunSortedIff | gdhcp/server.c:646-750 | in every run the list is sorted, latest expiry first, up to any point iff every insertion up to there kept its signs |
| LeaseRuns.RunKeepsOrder | gdhcp/server.c:183-218 | the list stays sorted in every run whose tables hold no expiry times 2^31 seconds apart |
| LeaseRuns.SortedUntil2038 | gdhcp/server.c:183-218 | hence in every run whose leases all end before 2^31 seconds of the epoch |
| LeaseRuns.AllocatorSound | gdhcp/server.c:242-282 | the allocator never returns an address held by a running lease |
| LeaseRuns.AllocatorMissesIff | gdhcp/server.c:242-282 | for every table: the allocator fails though an address could be given iff the range is full, some lease has expired and the last one of the list has not |
| LeaseRuns.AllocatorComplete | gdhcp/server.c:242-282 | on a sorted list it fails iff every usable address is leased and no lease has expired |
| LeaseRuns.AllocatorCompleteInRun | gdhcp/server.c:242-282 | so it is at every point of a run up to which all insertions kept their signs |
| LeaseRuns.OfferFromFullRange | gdhcp/server.c:242-282 | in a full range of two a new client is offered the address of the last lease iff that has expired |
| LeaseRuns.ThirdClientServedIff | gdhcp/server.c:183-282 | a witness that signs are lost: after two offers and an ACK in a range of two, a third client is served iff the wrapped difference of the expiry times is not positive |
| RenewalTiming.TimerOrder | gdhcp/client.c:1868-1896 | for leases of ten seconds and more, 0 < T1 < T2 < lease |
| RenewalTiming.IntervalBound | gdhcp/client.c:1827-1851 | a wrapped 32-bit delay is never longer than the intended one, and is the intended one where nothing wraps |
| RenewalTiming.ChainStep | gdhcp/client.c:1780-1851 | the next retransmission falls strictly before the end of its chain, for every jitter |
| RenewalTiming.RenewalTimingBound | gdhcp/client.c:1780-1896 | for every lease and all jitters, every RENEWING retransmission is before T2, every REBINDING one before expiry, and each chain has at most 27 |
| DhcpClient.Client.RemoveTimeouts | gdhcp/client.c:383-400 | no timer is left running and nothing else changes |
| DhcpClient.Client.Start | gdhcp/client.c:2840-2994 | what a start does to every field: it gives up at the sixth retry, reboots with a known address, or discovers, with a five-second timer |
| DhcpClient.Client.Stop | gdhcp/client.c:2996-3020 | the client is released, no timer runs, counters and addresses are reset |
| DhcpClient.Client.Decline | gdhcp/client.c:584-606 | the state changes and the timers stay |
| DhcpClient.Client.StartRequest | gdhcp/client.c:1705-1728 | up to the third retry a request timer is armed; at the third nothing is |
| DhcpClient.Client.RestartDhcp | gdhcp/client.c:1747-1759 | all timers go and the exchange starts over with the given retry count |
| DhcpClient.Client.StartExpire | gdhcp/client.c:1761-1778 | the end of the lease starts the exchange over |
| DhcpClient.Client.FireTimeout | gdhcp/client.c:1619-1631 | each of the four timeouts: which counter goes up, which exchange follows |
| DhcpClient.Client.RestartTimeout | gdhcp/client.c:1898-1913 | after a NAK the exchange starts over, without the known address if that was refused |
| DhcpClient.Client.ContinueRenewing | gdhcp/client.c:1827-1851 | halves T1 and arms the next request after it, if it is above a minute |
| DhcpClient.Client.FireT1 | gdhcp/client.c:1827-1866 | T1 leads to RENEWING; all other timers, addresses and counters stay |
| DhcpClient.Client.ContinueRebinding | gdhcp/client.c:1780-1805 | halves T2 and arms the next request after it, if it is above a minute |
| DhcpClient.Client.FireT2 | gdhcp/client.c:1780-1825 | T2 ends renewal and leads to REBINDING; the lease timer stays |
| DhcpClient.Client.StartBound | gdhcp/client.c:1868-1896 | BOUND with T1, T2 and expiry all running from now, and no other timer |
| DhcpClient.Client.HandleOffer | gdhcp/client.c:2471-2513 | an offer leads to a request to its server, or without server identifier to nothing |
| DhcpClient.Client.HandleReply | gdhcp/client.c:2514-2562 | ACK binds for the acknowledged time; NAK leaves only a three-second restart timer; other packets change nothing |
| DhcpClient.Client.ListenerEvent | gdhcp/client.c:2470-2562 | what every packet does in every state, to every field |
| DhcpClient.Client.Dispatch | gdhcp/client.c:1619-1913 | every call, packet and timer takes the fields to the next view of a run |
| ClientRuns.FirstTimersInOrder | gdhcp/client.c:1868-1896 | the timers of a new lease are in order |
| ClientRuns.RearmInOrder | gdhcp/client.c:1780-1851 | a re-armed request comes before the end of its chain, for every jitter |
| ClientRuns.RenewalKeeps | gdhcp/client.c:1827-1866 | renewal keeps the timers in order |
| ClientRuns.RebindingKeeps | gdhcp/client.c:1780-1825 | so does rebinding |
| ClientRuns.StartKeeps | gdhcp/client.c:2939-2993 | a start leaves a timer running exactly if it does not give up |
| ClientRuns.TimeoutKeeps | gdhcp/client.c:1619-1631 | a timeout leaves a timer running exactly if no retry counter is at its limit |
| ClientRuns.AckKeeps | gdhcp/client.c:2527-2554 | an ACK leaves the lease timer running, or nothing if it lacks the server identifier while rebooting |
| ClientRuns.StepKeeps | gdhcp/client.c:1619-1913 | every event keeps the invariant that ties timers, state and what the run has told |
| ClientRuns.LeaseIsLeftInTime | gdhcp/client.c:1761-1913 | in every run and at every time of it, a client that holds a lease got it by an ACK, and the lease of the last ACK has not ended or a NAK followed it no more than three seconds ago |
| ClientRuns.NakProlongs | gdhcp/client.c:2555-2562 | in every run, at any time at which a client that holds a lease asks for more, a NAK continues the run so that the client still holds the lease of the same ACK three seconds later |
| ClientRuns.NaksProlong | gdhcp/client.c:2555-2562 | repeated NAKs continue every such run up to any time |
| ClientRuns.HeldPastItsEnd | gdhcp/client.c:1747-1913 | for every lease and every time after its T1 there is a run from a fresh client that still holds the lease then |
| ClientRuns.RenewalInOrder | gdhcp/client.c:1780-1896 | in every run the next renewal request is before the next rebinding request, that before the end of the lease, and the lease timer fires exactly at the end of the lease of the last ACK |
| ClientRuns.OutMeansOutOfAction | gdhcp/client.c:1705-1712 | keeping one bit per event says whether the client ended and was not resumed |
| ClientRuns.NeverStalls | gdhcp/client.c:1619-1913 | in every run and at every time of it, the client waits for a timer iff it was started and was resumed since it last gave up, stalled or was stopped |
| Ipv4LinkLocal.Client.Start | gdhcp/client.c:1475-1493 | a random address is probed next |
| Ipv4LinkLocal.Client.SendProbePacket | gdhcp/client.c:673-704 | probes the chosen address; the first probe starts listening |
| Ipv4LinkLocal.Client.SendAnnouncePacket | gdhcp/client.c:709-738 | announces the probed address |
| Ipv4LinkLocal.Client.FireProbeTimeout | gdhcp/client.c:2818-2838 | probes again, or announces after the last probe |
| Ipv4LinkLocal.Client.FireAnnounceTimeout | gdhcp/client.c:2790-2816 | announces again, or takes the address after the last announcement |
| Ipv4LinkLocal.Client.FireDefendTimeout | gdhcp/client.c:2778-2788 | a defended address is kept and monitored |
| Ipv4LinkLocal.Client.RecvArpPacket | gdhcp/client.c:1515-1584 | own and unrelated packets, and questions for an address held, change nothing; a first source conflict is defended, a second one before the timer abandons the address; a conflict while claiming restarts the claim |
| Ipv4LinkLocal.Client.Abandon | gdhcp/client.c:1569-1581 | the address is given up and another is probed after a delay, a long one after many conflicts |
| Ipv4LinkLocal.AvailableOnlyAfterFullClaim | gdhcp/client.c:673-738 | in every history an address becomes available right after three probes and two announcements of it with no conflict in between |
| DhcpOptions.EndOption | gdhcp/common.c:150-162 | the scan ends at the end mark of the area |
| DhcpOptions.AreaExtends | gdhcp/common.c:244-260 | writing an option and the end mark over the old end mark gives the longer area |
| DhcpOptions.AddBinaryOption | gdhcp/common.c:244-260 | the option is appended iff it leaves room for the end mark; otherwise not one octet changes |
| DhcpOptions.AddOptionUint32 | gdhcp/common.c:301-314 | a four-octet option, appended iff its code has that type and it fits; otherwise not one octet changes |
| DhcpOptions.AddOptionUint16 | gdhcp/common.c:316-329 | a two-octet option, appended iff its code has that type and it fits; otherwise not one octet changes |
| DhcpOptions.AddOptionUint8 | gdhcp/common.c:331-344 | a one-octet option, appended iff its code has that type and it fits; otherwise not one octet changes |
| DhcpOptions.Be32RoundTrip | gdhcp/common.c:301-314 | the big-endian octets of a number give it back |
| DhcpOptions.InitHeader | gdhcp/common.c:346-365 | a fresh packet holds exactly the message type option |
| DhcpOptions.AddOption | gdhcp/common.c:244-344 | each way to add an option appends it or changes nothing |
| DhcpOptions.GetOption | gdhcp/common.c:76-148 | finds the first option with the code, with its exact octets, or none |
| DhcpOptions.RoundTrip | gdhcp/common.c:76-162 | any sequence of binary and typed adds to a fresh packet is read back: the first accepted data of each code |
| Dhcpv6Message.WriteOption | gdhcp/client.c:359-368 | an option that fits is appended; the header and the options before it keep their octets |
| Dhcpv6Message.AddRequestOptions | gdhcp/client.c:402-514 | the requested options in order up to the first that does not fit |
| Dhcpv6Message.AddSendOptions | gdhcp/client.c:340-357 | the options of the send table that fit |
| Dhcpv6Message.RequestsDistinct | gdhcp/client.c:402-514 | a request list without repeated codes gives options without repeated codes |
| Dhcpv6Message.SendMessage | gdhcp/client.c:1158-1197 | the message holds type and transaction id, exactly these options, the elapsed time among the requested ones, and never exceeds the buffer |
| Dhcpv6Message.WrittenDistinct | gdhcp/client.c:1158-1197 | disjoint request list and send table give a message without repeated codes |
| Dhcpv6Message.GetOption | gdhcp/common.c:164-213 | the last option with the code, its length, and how many there are |
| Dhcpv6Message.RoundTrip | gdhcp/common.c:164-213 | every option written is read back with its exact octets and count 1, and no other |
| Checksum.DhcpChecksum | gdhcp/common.c:415-443 | for up to 65536 octets the sum does not overflow, and the fold ends at the ones' complement of the sum modulo 65535 |
| Checksum.FoldStep | gdhcp/common.c:438-440 | a fold keeps the ones' complement sum and shrinks the number |
| Checksum.ChecksumVerifies | gdhcp/common.c:415-443 | a block with its checksum filled in sums to zero |
| RawPacket.SendRawPacket | gdhcp/common.c:537-608 | the frame with both checksums, each computed over its own view of the headers |
| RawPacket.RecvL2Packet | gdhcp/client.c:1417-1473 | returns the data of exactly those frames whose lengths, fields, checksums and cookie are right |
| RawPacket.FrameFields | gdhcp/client.c:1397-1415 | a sent frame is sane iff it goes to the client port |
| RawPacket.FrameViews | gdhcp/client.c:1445-1462 | the receiver checks the same octets that the sender summed |
| RawPacket.SentFramesAreAccepted | gdhcp/client.c:1397-1472 | a sent frame passes both checksum tests iff it goes to the client port |
| RawPacket.SentHeadersVerify | gdhcp/common.c:575-590 | the IP header of every sent frame sums to zero |
| RawPacket.SendAndReceive | gdhcp/common.c:537-608 | data with the magic cookie sent to the client port is received unchanged, anything else not at all |
| HttpResponse.RunDataBatch | gweb/gweb.c:1077-1110 | delivering a chunk in one batch equals delivering it octet by octet |
| HttpResponse.FeedIsRun | gweb/gweb.c:1343-1433 | a read that does not start with the line feed of a CR already received continues the previous one |
| HttpResponse.FeedLineEnd | gweb/gweb.c:1359-1385 | what a line end in the middle of a read does |
| HttpResponse.FeedSizeLine | gweb/gweb.c:1033-1062 | what the end of a size line in the middle of a read does |
| HttpResponse.FeedHeaderLine | gweb/gweb.c:1359-1385 | what the end of a header line in the middle of a read does |
| WebSession.Session.ReadSizeLine | gweb/gweb.c:1033-1062 | reading a size line from one read equals feeding its octets |
| WebSession.Session.EndSizeLine | gweb/gweb.c:1041-1061 | a size line must end in CR, and its number becomes the size |
| WebSession.Session.ReadData | gweb/gweb.c:1077-1110 | reading chunk data equals feeding its octets |
| WebSession.Session.DecodeChunked | gweb/gweb.c:1021-1114 | the whole decoder on one read equals the octet automaton |
| WebSession.Session.HandleBody | gweb/gweb.c:1116-1151 | body data, chunked or plain, equals the octet automaton |
| WebSession.Session.HandleMultiLine | gweb/gweb.c:1153-1187 | a continuation line is folded into the last field |
| WebSession.Session.AddHeaderField | gweb/gweb.c:1189-1229 | a field line is added, or appended to the field of the same name |
| WebSession.Session.ReadHeaderLine | gweb/gweb.c:1359-1432 | reading one header line equals feeding its octets |
| WebSession.Session.ReceivedDataContinue | gweb/gweb.c:1343-1433 | any read, of any length at any point of the response, equals the octet automaton |
| HttpFragments.FragmentationIndependence | gweb/gweb.c:1343-1433 | two ways to cut the same octets, neither between CR and LF of a line, give the same status, headers, body and failure from any state |
| HttpFragments.SplittingsAgree | gweb/gweb.c:1343-1433 | the same for a whole response, with the cuts judged by the octets alone |
| HttpCuts.CutInSizeLine | gweb/gweb.c:1033-1062 | a cut inside the end of a size line always breaks the response; it makes no difference iff the size was unusable |
| HttpCuts.CutInEmptyLine | gweb/gweb.c:1364-1409 | a cut inside the end of the empty line loses the end of the header |
| HttpCuts.CutInHeaderLine | gweb/gweb.c:1359-1432 | a cut inside the end of any header line makes no difference iff the line has no colon, has a NUL after it, or continues nothing; otherwise the CR stays at the end of the value and that is the only difference |
| HttpCuts.AddHeaderFieldCr | gweb/gweb.c:1189-1229 | what a CR at the end of a field line does, for new and for repeated fields |
| HttpCuts.HandleMultiLineCr | gweb/gweb.c:1153-1187 | what a CR at the end of a continuation line does |
| HttpCuts.ScanStatusCr | gweb/gweb.c:1414-1419 | a CR at the end does not change the status that is read |
| HttpCuts.ReadsKeepHead | gweb/gweb.c:1153-1229 | after any reads, stored values hold no NUL and the last field is one of the stored ones |
| ChunkCodec.Sender.StartRequest | gweb/gweb.c:919-987 | a body of one piece goes out as it is, the first piece of a longer one as a chunk |
| ChunkCodec.Sender.ProcessNextChunk | gweb/gweb.c:895-917 | the next piece is sent as a chunk; after the last one the terminating chunk |
| ChunkCodec.Sender.SendBody | gweb/gweb.c:895-987 | a body of several pieces goes out as these pieces in chunks and one terminating chunk |
| ChunkCodec.SizeRoundTrip | gweb/gweb.c:1051-1059 | every size written in hexadecimal is read back |
| ChunkCodec.RunChunk | gweb/gweb.c:1021-1114 | one chunk delivers its piece and returns to the size line |
| ChunkCodec.ChunkedRoundTrip | gweb/gweb.c:1021-1114 | for every list of pieces, however cut outside line ends, the decoder delivers exactly their concatenation, counts its octets and does not fail |
| TokenScanner.Parser.Compare | gweb/gweb.c:2941-2979 | comparing one octet is one step of the automaton |
| TokenScanner.Parser.FeedData | gweb/gweb.c:2908-2981 | jumping to first octets and comparing equals the octet automaton |
| TokenScanner.FeedingInPieces | gweb/gweb.c:2908-2981 | feeding a and then b equals feeding ab |
| TokenScanner.ReportsAreSections | gweb/gweb.c:2908-2981 | every report is a contiguous part of the input that starts with the begin token and ends with the end token |
| TokenScanner.FindsEverySection | gweb/gweb.c:2908-2981 | text whose gaps avoid the first octets of the tokens has exactly its sections reported, in order |
| TokenParse.FreeMeansUnmatched | gweb/gweb.c:2916-2950 | no partial match is under way iff every partial match the text could end in would have begun inside another one |
| TokenParse.SeenNow | gweb/gweb.c:2952-2979 | a token is seen iff it begins at such a free place |
| TokenParse.RunSearch | gweb/gweb.c:2916-2979 | what the scanner has done after any text: still seeking, or past the first token that is seen |
| TokenParse.ReportsAreExact | gweb/gweb.c:2908-2981 | for all tokens and all texts, what is reported is exactly the list of sections from a begin token that is seen to the next end token that is seen |
| TokenParse.FirstIsSeenIff | gweb/gweb.c:2908-2981 | for all tokens and all texts, the first token in a text is the first one seen iff it begins at a free place |
| TokenParse.FreeIffEven | gweb/gweb.c:2941-2950 | for a token whose first octet does not come again in it, a place is free iff the number of partial matches right before it is even |
| TokenParse.BeginSeenIffEven | gweb/gweb.c:2908-2981 | the first begin token of such a kind is seen iff the number of partial matches right before it is even |
| TokenParse.EndSeenIffEven | gweb/gweb.c:2908-2981 | the same for the end token in a section, which is then reported |
| TokenParse.RepeatedFirstOctet | gweb/gweb.c:2941-2950 | for example, a token after copies of its own first octet is seen iff their number is even |
| AddressOrder.MaskCompareMeaning | gweb/gresolv.c:283-298 | byte comparison and shifted exclusive or agree iff the first bits up to the mask are equal |
| AddressOrder.MatchGaiTable | gweb/gresolv.c:300-317 | the loop finds the value of the first entry whose prefix the address has |
| AddressOrder.PrecedenceOfIpv4 | gweb/gresolv.c:251-278 | precedence 10 goes to IPv4 and v4-mapped destinations and to no other |
| AddressOrder.ScopeOfIpv4 | gweb/gresolv.c:319-361 | every IPv4 address gets link scope, right iff it is link-local or loopback |
| AddressOrder.PrefixAtWord | gweb/gresolv.c:414-442 | the highest differing bit of a word gives the common prefix length once all earlier words agree |
| AddressOrder.ComparePrefixes | gweb/gresolv.c:414-442 | the word loop compares the 128-bit common prefix lengths |
| AddressOrder.Rfc3484Compare | gweb/gresolv.c:363-450 | never 0, and negative iff the first result comes before the second by the rules |
| AddressOrder.PreparedIsSeparated | gweb/gresolv.c:452-469 | precedence and scope of a prepared result tell its address family |
| AddressOrder.BeforeIsLexicographic | gweb/gresolv.c:363-450 | the comparison is the lexicographic order on reachability, scope match, label match, precedence, scope, prefix length and position |
| AddressOrder.BeforeIsStrictTotalOrder | gweb/gresolv.c:363-450 | hence irreflexive, antisymmetric, total and transitive |
| AddressOrder.SortIsUnique | gweb/gresolv.c:452-469 | any two sorted arrangements of the results are the same |
| LookupHistory.ExactlyOnce | gweb/gresolv.c:471-525 | in every disciplined history a lookup starts once and ends at most once, by a callback or by a cancel, and has ended iff it is no longer open |
| ResolverLookups.Resolver.SortAndReturnResults | gweb/gresolv.c:471-525 | the lookup leaves the queue and its callback is called with the status of the family asked for |
| ResolverLookups.Resolver.DetachQuery | gweb/gresolv.c:534-544 | exactly this query leaves the queue and its lookup |
| ResolverLookups.Resolver.FinishQuery | gweb/gresolv.c:543-547 | the callback is called iff the other query is already over |
| ResolverLookups.Resolver.QueryTimeout | gweb/gresolv.c:527-550 | a missing answer is noted under the family of the query and ends it |
| ResolverLookups.Resolver.FindQuery | gweb/gresolv.c:672-675 | the first queued query with the message id, or none if there is none |
| ResolverLookups.Resolver.ParseResponse | gweb/gresolv.c:655-752 | stray answers change nothing; an error waits for further name servers; otherwise the query ends |
| ResolverLookups.Resolver.CancelLookup | gweb/gresolv.c:1087-1108 | the lookup and exactly its queries leave the queues, without callback |
| ResolverLookups.Resolver.DropQueriesOf | gweb/gresolv.c:155-174 | destroying a lookup takes its queries off the queue |
| ResolverLookups.Resolver.AddQuery | gweb/gresolv.c:976-1014 | one query more, tied to its lookup, or nothing changed |
| ResolverLookups.Resolver.StartQueries | gweb/gresolv.c:1060-1078 | the queries of the families asked for; on failure the queue is as before |
| ResolverLookups.Resolver.StartLookup | gweb/gresolv.c:1051-1085 | a new lookup joins the queue with its queries, or leaves no trace |
| ResolverLookups.Resolver.LookupHostname | gweb/gresolv.c:1016-1085 | a started lookup is queued with its queries; a failed start leaves no trace; a resolver without name servers takes the configured ones or the local host |
| ResolverLookups.Resolver.ExpireAll | gweb/gresolv.c:527-550 | when the timers fire, in any order, every waiting lookup is called back and nothing is left |
| BssNames.GroupIdentifiesNetwork | gsupplicant/supplicant.c:1627-1652 | two BSSs get the same network name iff SSID (or having none to show), mode and security agree |
| BssTables.AddKeepsIndexes | gsupplicant/supplicant.c:1737-1739 | listing a path in all three maps keeps them in agreement |
| BssTables.JoinNetworkOk | gsupplicant/supplicant.c:1726-1735 | a joining BSS keeps the cached BSS right and shares the security of the network |
| BssTables.AddKeepsTables | gsupplicant/supplicant.c:1654-1742 | adding a BSS keeps indexes, caches and serials in order |
| BssTables.AddKeepsMax | gsupplicant/supplicant.c:1726-1735 | a joining BSS keeps the strongest one cached, except in the current network |
| BssTables.DropKeepsIndexes | gsupplicant/supplicant.c:2283-2291 | removing a path from all three maps, and an empty network with it, keeps them in agreement |
| BssTables.DropKeepsTables | gsupplicant/supplicant.c:2276-2291 | removing a BSS keeps indexes, caches and serials in order |
| BssTables.DropKeepsMax | gsupplicant/supplicant.c:2276-2291 | a network that a BSS left caches its strongest BSS whatever it did before |
| BssTables.RefreshedOk | gsupplicant/supplicant.c:2937-2963 | new properties keep the cache right, and the maximum too unless the network is the current one; a weakened best BSS is ranked against the others |
| BssTables.RefreshKeepsTables | gsupplicant/supplicant.c:2937-2963 | new properties keep indexes, caches and serials in order |
| BssTables.CurrentKeepsTables | gsupplicant/supplicant.c:2214-2233 | so does naming the BSS in use |
| BssInterface.UpdateNetworkSignal | gsupplicant/supplicant.c:2168-2189 | in any order of the table, the cached BSS becomes the strongest one, and stays if it was |
| BssInterface.Interface.AddToNetwork | gsupplicant/supplicant.c:1654-1742 | the whole new tables: the BSS is listed under its name, in a new network if need be, and nothing else changes |
| BssInterface.Interface.BssAdded | gsupplicant/supplicant.c:2088-2146 | a known or null path changes nothing; a new one is listed once |
| BssInterface.Interface.TakeOut | gsupplicant/supplicant.c:2276-2291 | the path leaves all maps, its network is ranked anew or dropped if empty, all else is untouched |
| BssInterface.Interface.BssRemoved | gsupplicant/supplicant.c:2260-2296 | the same for a known path; an unknown one changes nothing |
| BssInterface.Interface.Refresh | gsupplicant/supplicant.c:2937-2963 | the cached BSS after a change of signal; the current network follows only its own BSS |
| BssInterface.Interface.RefreshBss | gsupplicant/supplicant.c:2937-2963 | a change without a new security changes one network only |
| BssInterface.Interface.MoveBss | gsupplicant/supplicant.c:2881-2935 | a change of security takes the BSS out of its network and lists it under its new name |
| BssInterface.Interface.BssChanged | gsupplicant/supplicant.c:2857-2969 | an unknown path changes nothing; a known one is refreshed or moved |
| BssInterface.Interface.MakeCurrent | gsupplicant/supplicant.c:2214-2233 | the BSS in use becomes the best one of the current network, and nothing else changes |
| BssInterface.Interface.CurrentBss | gsupplicant/supplicant.c:2191-2258 | the same for a known or new BSS; the null path leaves no current network and nothing else changes |
| BssInterface.Interface.Notify | gsupplicant/supplicant.c:2088-2296 | every notification takes the tables one step of a run |
| BssRuns.StepKeepsTables | gsupplicant/supplicant.c:2088-2296 | every notification keeps the three maps in agreement, no network empty, caches right and serials apart |
| BssRuns.RunKeepsTables | gsupplicant/supplicant.c:2088-2296 | so they are after every run of notifications |
| BssRuns.StepKeepsMax | gsupplicant/supplicant.c:2168-2189 | every notification keeps the strongest BSS cached in networks that were not current since they were last ranked |
| BssRuns.CachesMaximum | gsupplicant/supplicant.c:2168-2189 | in every run a network that was not the current one since its BSSs were last ranked caches the strongest of them |
| BssRuns.NeverCurrentCachesMaximum | gsupplicant/supplicant.c:1726-1735 | in every run so does a network that never was the current one |
| BssRuns.OthersStay | gsupplicant/supplicant.c:2088-2296 | a notification leaves every network alone that it is not about |
| BssRuns.LeavingDoesNotRank | gsupplicant/supplicant.c:2191-2233 | after its BSS was in use, and until the next notification about it, a network caches its strongest BSS iff the one in use is the strongest |
| BssRuns.StepRises | gsupplicant/supplicant.c:2088-2296 | a notification about a network that is not current and not ranked keeps its cached signal above what it announces |
| BssRuns.MaximumAfterLeaving | gsupplicant/supplicant.c:2088-2296 | while a network is neither current nor ranked anew, it caches its strongest BSS iff no BSS that was not heard of meanwhile is stronger than the cached one |
| BssRuns.ChangedIsGrouped | gsupplicant/supplicant.c:2857-2969 | after a change a BSS is in the network that its properties name iff it moved or kept its network name |
| BssRuns.StepKeepsGroups | gsupplicant/supplicant.c:2857-2969 | every notification keeps all BSSs in the networks that their properties name, except exactly those that rename one without a new security |
| BssRuns.GroupedUntilRename | gsupplicant/supplicant.c:2857-2969 | in every run all BSSs are in the networks that their properties name up to the first such renaming, and not right after it |
| BssRuns.RenameMeans | gsupplicant/supplicant.c:2857-2969 | such a renaming is a change of SSID, or of its being hidden, or of mode |
| BssRuns.MembersAgree | gsupplicant/supplicant.c:1627-1652 | while all BSSs are so grouped, two share a network iff they agree in SSID, mode and security |
| BssRuns.RenamedDiffers | gsupplicant/supplicant.c:2857-2969 | right after a renaming the BSS differs in SSID or mode from all others in its network |

## Left out

- Sockets, main loop, timer sources, BPF filter, `getaddrinfo`, TLS channels and D-Bus messages: they appear as parameters and events.
- Random sources and `arp_random_ip`: arbitrary values, non-zero for link-local addresses.
- DHCPv6 client state machine: only its message writer and reader are modelled.
- Decoding of option lists into addresses and domain names: flat string building.
- DHCP server start and stop, lease database file and option values of replies: they do not change which address a client gets.
- URL parsing, request headers, proxies and redirects of the HTTP client: URL parsing has no round trip, the rest is string building.
- The GetAll reply for BSSs announced without properties, interface removal, WPS fields and callbacks of the supplicant: field copying, or no re-ranking to speak of.
- DhcpServer.Server.FindFreeOrExpiredNip: not for a range that ends at 255.255.255.255, where the loop does not end once the range is full.
- DhcpServer.Server.SendOffer: the same restriction, because it calls the allocator.
- DhcpServer.Server.ListenerEvent: the same restriction, because it calls the allocator.
- DhcpOptions.EndOption: not for areas with padding, which no writer here produces.
- DhcpOptions.AddBinaryOption: not for codes 0, 52 and 255, after which the area is no list of options any more.
- DhcpOptions.GetOption: not for areas with padding, option overload or malformed lengths, on which the reader has no simple contract.
- Dhcpv6Message.GetOption: not for truncated or malformed messages.
- AddressOrder.SortIsUnique: fixes the places of the results while they are compared; see Assumptions.
- Ipv4LinkLocal.Client.SendAnnouncePacket: the announcement while defending is part of `RecvArpPacket`.
- ChunkCodec.Sender.StartRequest: a body that is sent from a file descriptor, or without an input function, is not modelled.
- ResolverLookups.Resolver.SortAndReturnResults: the list of addresses is not part of the lookup; its order is the subject of `AddressOrder`.
- ResolverLookups.Resolver.ParseResponse: the records of an answer are not parsed; their status is a parameter.
- DhcpClient.Client.ListenerEvent: a message is given by its type, server identifier, lease time and address; lists of options are not copied.
