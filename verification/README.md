# Verification of the NAT router firmware

A Dafny model of the parts of the router firmware that hold real state: the DHCP server and its reservations, the
W5500 Ethernet driver's transmit protocol and receive loop, the in-place packet rewriting in the network hooks, the
packet-capture ring buffer and stream, the access-control lists, and the percent codec. Verify everything with
`dafny verify dfyconfig.toml`.

Code that changes state in place is modelled by classes and methods with loops, each proved against a specification
function; concurrent protocols are modelled as state machines whose steps are the single accesses to shared state;
the main results are lemmas about the specification functions, about every input, every run or every interleaving.

| files | content |
|---|---|
| `Wrappers`, `Bits`, `Addresses`, `Frames` | options; C's bit operators on integers; IPv4 words and byte order; packets built from their fields |
| `DhcpPool`, `DhcpOptions`, `DhcpReservations`, `DhcpLeases`, `DhcpInvariants`, `DhcpReplies`, `DhcpReserved`, `DhcpMessages`, `DhcpChoice`, `DhcpAging`, `DhcpServer` | the DHCP server: pool, option walk, reservation table, one step on values, invariants of every run, meaning of the replies, what reservations change, the table of replies, which address is next, expiry and eviction, and the linked-list program refining the steps |
| `EthTx`, `EthTxBuffers`, `EthTxToken`, `EthTxOrder`, `EthTxLoss`, `EthTxCalls` | the transmit protocol: steps, ownership, exclusion, order, runs that lose a buffer or break the order, and what one call or turn does |
| `EthRx` | the receive loop over length-prefixed frames |
| `Checksum`, `TtlOverride`, `MssClamp`, `MssFrames`, `FragNeeded` | one's-complement sums, the three packet rewriters and the packets they act on |
| `RingBuffer`, `RingSignal`, `RingCalls`, `PcapFormat`, `PcapCapture` | the byte FIFO, its wake-up signal, what one write or read does, the stream format, the capture session |
| `Acl`, `AclPackets`, `AclAddress`, `PercentCodec` | filter tables and verdicts, packets and frames, address text, percent encoding |

## What the proofs say about the code

- **DHCP.** Whatever the reservations are, every run keeps the lease list ascending with one lease per client.
  Unique addresses, addresses inside the pool and refusal only when the pool is used up hold as long as no reservation
  names an address. With reservations they do not, because the skip loop and the override do not look at the lease list
  again (`components/dhcpserver/dhcpserver.c:1131-1157`), and the module `DhcpReserved` says exactly when they do:
  `RefusedExactly` and the client refused with a free address left (`RefusedWithRoom`); `UniqueExactly`,
  `UniqueRunExactly` and the address leased twice (`ReservedAddressOfferedTwice`); `ExclusiveRunExactly` and the cursor
  that a reservation below the pool drags along (`CursorDraggedBelowPool`).
- **Reservations.** The comment at `dhcpserver.c:1147` says that a reserved address is used regardless of the pool;
  the code refuses one above the pool end (`:1159-1162`). The model follows the code
  (`DhcpReplies.ReservationHonoured`).
- **Ethernet transmit.** The inline path stamps its start time after SEND was issued
  (`components/eth_w5500/esp_eth_mac_w5500.c:750-751`), so the timeout branch can run on the time of an old SEND while
  a caller holds the idle semaphore. `EthTxLoss` has a run in which two SENDs become outstanding and a pool buffer is
  lost, and one in which a frame is overtaken. That no buffer is owned twice and no frame sent twice holds in every
  interleaving. The other properties have exact conditions: the transmitter is idle, held or busy, one at a time, if and
  only if the SEND-done and timeout branches are entered only while a SEND is outstanding (`EthTxToken.CleanExactly`);
  no buffer is lost if and only if the active slot is never set while it is occupied (`EthTxBuffers.LossExactly`);
  frames start in call order if and only if no inline start overtakes a waiting frame (`EthTxOrder.OrderExactly`). The
  first condition implies the other two.
- **Ethernet receive.** A frame shorter than the minimum is reported and left in place: `EthRx.DrainEndsExactly` says
  that the loop empties the buffer if and only if no frame is too short, and never ends when one stands behind others.
- **MSS clamp.** The incremental checksum assumes that the MSS value stands at an even offset.
  `MssClamp.ClampAcceptedExactly` gives the exact condition, `MssClamp.OddOffsetBreaksChecksum` a SYN that a receiver
  accepts before the clamp and not after it.
- **Packet filter.** The filter takes a packet for a raw one when its first octet looks like the beginning of an IP header
  (`components/acl/acl.c:248-264`); in a frame that octet belongs to the destination address. A frame to an address
  that begins with 6 passes every list, and one that begins with 45 to 4F is read at the wrong place
  (`AclPackets.FrameMisread`, `AclPackets.DeniedPacketPasses`). `AclPackets.FramesAgreeExactly` says when a frame and
  the packet in it have the same verdict.
- **Wake-up.** A packet written and signalled between the allocation of the ring buffer and the drain of the stale
  signal (`components/pcap_capture/pcap_ringbuf.c:84-87`) is not announced: `RingSignal.LostWakeUp` reaches such a
  state. `RingSignal.NoLostWakeUp` says that a run announces all waiting bytes exactly if each drain finds nothing
  written or a signal still to come; `RingSignal.LostUntilWritten` and `RingSignal.WriteAnnounces` say that a lost
  wake-up lasts until the next write.
- **Capture stream.** Switching capture off and on during a session forgets the held bytes. The stream stays a header and
  whole records exactly if the bytes sent by then end at a record boundary (`PcapCapture.Capture.SetMode`).
- **ACL addresses.** Printing and parsing gives an address back exactly for prefix masks and masked addresses
  (`AclAddress.RoundTrip`).

## Model

| member | source | states |
|---|---|---|
| Bits.ContiguousMask | components/dhcpserver/dhcpserver.c:76-87 | the start-up test of the mask accepts exactly the contiguous masks |
| DhcpPool.StartChecksExactly | components/dhcpserver/dhcpserver.c:76-99 | the start-up checks pass exactly the host addresses of a subnet with a contiguous mask |
| Addresses.OrderInBlock | components/dhcpserver/dhcpserver.c:1109 | in one /24, comparing network-order words orders as comparing addresses does |
| Addresses.OrderAcrossBlocks | components/dhcpserver/dhcpserver.c:1109 | across /24 blocks it does not |
| DhcpPool.DefaultRangeProperty | components/dhcpserver/dhcpserver.c:1401-1422 | for every mask and address that pass the checks, the automatic pool is non-empty, strictly inside the subnet, without the server, on its larger side, and has min(100, that side) addresses |
| DhcpPool.ConfiguredUsable | components/dhcpserver/dhcpserver.c:1382-1399 | when an accepted configured pool on a /24 can be used, if and only if |
| DhcpPool.AcceptedExactly | components/dhcpserver/dhcpserver.c:1382-1399 | a configured pool on a /24 is kept exactly if it is switched on, in the subnet of the server, without it, and has at most 100 addresses |
| DhcpPool.DefaultUsable | components/dhcpserver/dhcpserver.c:1401-1422 | the automatic pool on a /24 is one the allocator can use |
| DhcpPool.PollSetUsable | components/dhcpserver/dhcpserver.c:1374-1424 | whatever pool was configured, after start-up the pool is usable unless the configured one was degenerate |
| DhcpPool.GetDhcpPoolRange | main/dhcp_manager.c:69-95 | the reported range is the pool the server chooses for a /24 |
| DhcpOptions.ParseOptions | components/dhcpserver/dhcpserver.c:913-1055 | the walk with a moving pointer computes the reply and the host name from the list of well-formed options, for any length, and reads only inside it |
| DhcpOptions.WalkEncoded | components/dhcpserver/dhcpserver.c:929-965 | walking an encoded option list gives the list back and stops at the end mark, at the end or at an option that does not fit |
| DhcpMessages.OptionsEncoded | components/dhcpserver/dhcpserver.c:919-965 | the options of a message are the list it was encoded from, up to the end mark, the end or an option that is cut off; a truncated message has none |
| DhcpMessages.MessageTypeIs | components/dhcpserver/dhcpserver.c:959-963 | the message type is the first octet of the last option 53 that has one, 0 without any |
| DhcpMessages.RequestedIs | components/dhcpserver/dhcpserver.c:992-1007 | the requested address is that of the last option 50 with four octets or more |
| DhcpMessages.HostnameIs | components/dhcpserver/dhcpserver.c:965-990 | the host name is the last option 12, cut at 31 octets, with an underscore for every octet outside the alphabet |
| DhcpReservations.AddRefinesMap | main/dhcp_manager.c:110-152 | adding is a map update at one client, or nothing when the table is full |
| DhcpReservations.DeleteRefinesMap | main/dhcp_manager.c:154-168 | deleting removes one client from the map |
| DhcpReservations.CountClients | main/dhcp_manager.c:129-144 | adding a new client fails exactly when as many clients as slots are stored |
| DhcpReservations.CutNameIs | main/dhcp_manager.c:119-121 | a name is kept up to its 31st octet |
| DhcpReservations.ReservationTable.AddReservation | main/dhcp_manager.c:110-152 | the array program is the map update; the call fails exactly for a new client in a full table or when saving fails, and then the entry stays |
| DhcpReservations.ReservationTable.DelReservation | main/dhcp_manager.c:154-168 | the array program is the map removal; the call fails exactly when saving it fails |
| DhcpReservations.ReservationTable.ClearAll | main/dhcp_manager.c:170-182 | no client is left |
| DhcpReservations.ReservationTable.LookupReservation | main/dhcp_manager.c:184-192 | the scan is the map lookup |
| DhcpReservations.ReservationTable.IsIpReservedForOther | main/dhcp_manager.c:194-204 | the scan finds another client's reservation exactly if there is one |
| DhcpInvariants.CursorFresh | components/dhcpserver/dhcpserver.c:1089-1106 | the cursor walk over a strictly sorted list ends on an address that is not leased |
| DhcpInvariants.GapCounts | components/dhcpserver/dhcpserver.c:1108-1116 | the first-gap search finds an unleased pool address, or the leases fill the pool without a gap |
| DhcpInvariants.CandidateProperty | components/dhcpserver/dhcpserver.c:1080-1128 | the candidate is never leased, and lies beyond the pool exactly if every pool address is leased |
| DhcpInvariants.SkipBound | components/dhcpserver/dhcpserver.c:1130-1138 | the skip ends on an address not reserved for another client, or just beyond the pool |
| DhcpChoice.CandidateIsNextFit | components/dhcpserver/dhcpserver.c:1080-1128 | the candidate is the first pool address for an empty list without a decline before, otherwise the lowest free one from the cursor on, else the lowest free one, else beyond the pool |
| DhcpChoice.NewClientOffered | components/dhcpserver/dhcpserver.c:1064-1233 | without reservations a discover of a new client is offered that address and the cursor moves behind it, or is refused and the cursor goes to the start |
| DhcpChoice.KnownClient | components/dhcpserver/dhcpserver.c:1089-1106 | a message of a known client moves the cursor past an unbroken run of leased addresses in front of it and no further |
| DhcpChoice.DeclinedThenOffered | components/dhcpserver/dhcpserver.c:1203-1218 | a client that declines and asks again is offered the lowest free address from the cursor on |
| DhcpChoice.DeclinedNotOffered | components/dhcpserver/dhcpserver.c:1118-1124 | the only client of a server is not offered the address it just declined |
| DhcpChoice.FirstClient | components/dhcpserver/dhcpserver.c:1475-1477 | after a start with an empty list the first client is offered the first address of the pool |
| DhcpInvariants.ServeKeeps | components/dhcpserver/dhcpserver.c:1064-1233 | a message keeps order, one lease per client and bounds; without reserved addresses also unique addresses inside the pool and the cursor bounds |
| DhcpInvariants.TickKeeps | components/dhcpserver/dhcpserver.c:1538-1618 | so does a timer tick with its eviction |
| DhcpInvariants.EveryRunConsistent | components/dhcpserver/dhcpserver.c:1064-1618 | every state of every run of messages, ticks, stops and starts has an ascending list, one lease per client, none above the pool, whatever the reservations |
| DhcpInvariants.EveryRunExclusive | components/dhcpserver/dhcpserver.c:1064-1618 | with no reservation naming an address and no start that moves the pool off a lease, every state of every run is strictly ascending, inside the pool, with the cursor in the pool or just behind it |
| DhcpReplies.ReplyMeaning | components/dhcpserver/dhcpserver.c:1184-1229 | after an offer or acknowledgement the client's lease is the address sent, with a full timer; after a refusal, release or decline it has none; no other lease changes |
| DhcpReplies.AckMeaning | components/dhcpserver/dhcpserver.c:1092-1100 | an acknowledgement is sent only for the last requested address, or without one when ciaddr is a lease the client already had |
| DhcpMessages.ReplyTable | components/dhcpserver/dhcpserver.c:1013-1049 | the whole table of replies by message type, requested address and ciaddr, for a client with a lease or an address chosen for it; without a usable one a refusal; nothing without the cookie |
| DhcpMessages.DeclineRemembered | components/dhcpserver/dhcpserver.c:1084-1124 | after a message the server remembers a decline exactly if that was its reply |
| DhcpReplies.FullCount | components/dhcpserver/dhcpserver.c:1159-1162 | the pool is used up exactly if there are as many leases as pool addresses |
| DhcpReplies.RefusedWhenFull | components/dhcpserver/dhcpserver.c:1089-1182 | without reserved addresses a new client is refused exactly if every pool address is leased; otherwise it gets one that nobody holds |
| DhcpReplies.ReservationHonoured | components/dhcpserver/dhcpserver.c:1130-1182 | a new lease is the client's reserved address when it has one up to the pool end, and never an address reserved for another when it has none; a reserved address above the end is refused |
| DhcpReserved.RefusedExactly | components/dhcpserver/dhcpserver.c:1130-1182 | a new client is refused for want of an address if and only if its reserved address lies above the pool, or it has none and all addresses from the candidate to the end are reserved for others; nothing is leased then |
| DhcpReserved.RefusedWithRoom | components/dhcpserver/dhcpserver.c:1126-1162 | a client refused although a pool address is neither leased nor reserved |
| DhcpReserved.UniqueExactly | components/dhcpserver/dhcpserver.c:1130-1182 | a grant keeps addresses unique if and only if the reserved address is free or, without one, in front of every leased address ahead there is one not reserved for another |
| DhcpReserved.ServeUnique | components/dhcpserver/dhcpserver.c:1064-1233 | a message keeps addresses unique if and only if that holds or it leaves no new lease |
| DhcpReserved.UniqueRunExactly | components/dhcpserver/dhcpserver.c:1064-1618 | a run never leases an address twice if and only if that holds for each of its messages |
| DhcpReserved.ServeExclusive | components/dhcpserver/dhcpserver.c:1064-1233 | a message keeps the strong invariant if and only if the address it leases is free and inside the pool |
| DhcpReserved.ExclusiveRunExactly | components/dhcpserver/dhcpserver.c:1064-1618 | a run stays strictly ascending, inside the pool and with its cursor in bounds if and only if each message does so and no start moves the pool off a lease |
| DhcpReserved.ReservedAddressOfferedTwice | components/dhcpserver/dhcpserver.c:1140-1157 | a state that meets all invariants and a message after which two clients hold one address |
| DhcpReserved.CursorDraggedBelowPool | components/dhcpserver/dhcpserver.c:1175-1181 | a reservation below the pool after which the next client without one is leased an address outside the pool |
| DhcpAging.TickExactly | components/dhcpserver/dhcpserver.c:1578-1618 | a tick takes one off every timer, drops exactly the leases whose timer was 1 and, exactly if more than the allowed number modulo 256 are left, evicts one with the least time |
| DhcpAging.Expires | components/dhcpserver/dhcpserver.c:1597-1613 | while no message comes a lease counts down with every tick, and when its time is over it is gone and stays so |
| DhcpAging.LastsExactly | components/dhcpserver/dhcpserver.c:1597-1617 | with no more leases than stations a lease with time n lasts through exactly n - 1 ticks |
| DhcpServer.LeaseList.InsertNode | components/dhcpserver/dhcpserver.c:349-385 | the pointer program inserts in address order, behind equal addresses |
| DhcpServer.LeaseList.RemoveNode | components/dhcpserver/dhcpserver.c:394-419 | the pointer program removes exactly the given node |
| DhcpServer.LeaseList.KillOldest | components/dhcpserver/dhcpserver.c:1538-1570 | the lease with the smallest timer, the first of them, is removed |
| DhcpServer.LeaseList.AgeAndEvict | components/dhcpserver/dhcpserver.c:1591-1617 | the pointer program of a tick is the tick on values |
| DhcpServer.DhcpServer.ParseMsg | components/dhcpserver/dhcpserver.c:1064-1233 | the program on the linked list is the message step on values, reply and whole new state |
| DhcpServer.DhcpServer.Timer | components/dhcpserver/dhcpserver.c:1578-1618 | the program is the tick on values |
| DhcpServer.DhcpServer.SetPool | components/dhcpserver/dhcpserver.c:1374-1424 | the program sets the configured or automatic pool |
| DhcpServer.DhcpServer.StartServer | components/dhcpserver/dhcpserver.c:1451-1489 | a start on checked arguments sets pool and cursor and keeps the list; otherwise it fails |
| DhcpServer.DhcpServer.StopServer | components/dhcpserver/dhcpserver.c:1497-1530 | the list is emptied node by node |
| EthTxBuffers.EveryRun | components/eth_w5500/esp_eth_mac_w5500.c:731-1033 | in every interleaving no buffer is owned twice and the frame of every call is in exactly one place: sent at most once, never vanished |
| EthTxBuffers.NoSendFails | components/eth_w5500/esp_eth_mac_w5500.c:770 | in every interleaving no send to the pool or queue fails for lack of room |
| EthTxBuffers.StepLoses | components/eth_w5500/esp_eth_mac_w5500.c:955-1032 | a step loses a buffer if and only if it sets the active slot while it is occupied |
| EthTxBuffers.LossExactly | components/eth_w5500/esp_eth_mac_w5500.c:1021-1025 | a run loses no buffer if and only if the slot is never set while it is occupied |
| EthTxToken.CleanExactly | components/eth_w5500/esp_eth_mac_w5500.c:731-1033 | a run keeps the exclusion if and only if its SEND-done and timeout branches act only on outstanding SENDs |
| EthTxToken.NoBufferLost | components/eth_w5500/esp_eth_mac_w5500.c:955-1032 | such a run loses no buffer |
| EthTxOrder.StepStarted | components/eth_w5500/esp_eth_mac_w5500.c:739-772 | the only step that breaks the order of the started frames is an inline start that overtakes a waiting one |
| EthTxOrder.OrderExactly | components/eth_w5500/esp_eth_mac_w5500.c:739-772 | a run starts its frames in call order if and only if no inline start overtakes |
| EthTxOrder.StartedInCallOrder | components/eth_w5500/esp_eth_mac_w5500.c:739-757 | in such a run frames start in call order across the inline and the queued path |
| EthTxLoss.BufferLost | components/eth_w5500/esp_eth_mac_w5500.c:1005-1014 | a reachable state with two SENDs outstanding and a buffer nobody owns |
| EthTxLoss.OrderBroken | components/eth_w5500/esp_eth_mac_w5500.c:1005-1014 | a reachable state in which a caller's later frame was sent before its earlier one |
| EthTxCalls.CallEnds | components/eth_w5500/esp_eth_mac_w5500.c:731-773 | every step of a call brings it nearer to its end |
| EthTxCalls.CallGoesOn | components/eth_w5500/esp_eth_mac_w5500.c:731-773 | a call that has begun can always take a step |
| EthTxCalls.InlineCall | components/eth_w5500/esp_eth_mac_w5500.c:745-754 | an inline call on an idle transmitter issues its SEND and uses no buffer |
| EthTxCalls.InlineGivesWay | components/eth_w5500/esp_eth_mac_w5500.c:749-757 | one that finds something queued goes on to the queue |
| EthTxCalls.QueuedCall | components/eth_w5500/esp_eth_mac_w5500.c:759-772 | a queued call moves the first buffer of the pool to the end of the queue with its frame |
| EthTxCalls.DroppedCall | components/eth_w5500/esp_eth_mac_w5500.c:763-766 | without a buffer the frame is dropped and the call ends |
| EthTxCalls.TurnEnds | components/eth_w5500/esp_eth_mac_w5500.c:932-1033 | a turn of the driver always ends |
| EthTxCalls.QueueServed | components/eth_w5500/esp_eth_mac_w5500.c:1019-1025 | on an idle transmitter the head of the queue is sent and its buffer is the active one |
| EthTxCalls.StartFails | components/eth_w5500/esp_eth_mac_w5500.c:1026-1029 | when the start fails the frame is dropped and buffer and semaphore are given back |
| EthTxCalls.BufferReturned | components/eth_w5500/esp_eth_mac_w5500.c:955-963 | a finished or abandoned SEND returns its buffer and makes the transmitter idle |
| EthRx.DeliveredAll | components/eth_w5500/esp_eth_mac_w5500.c:970-985 | all frames are delivered exactly if each had memory and fits the limit |
| EthRx.DeliveredAppend | components/eth_w5500/esp_eth_mac_w5500.c:970-985 | a further frame is delivered, behind the others, exactly if there is memory and it is not too long |
| EthRx.Receiver.AllocRecvBuf | components/eth_w5500/esp_eth_mac_w5500.c:775-811 | reports the next frame's length and place and a copy length cut at the limit, or that it is too short, that memory is short, or that nothing waits |
| EthRx.Receiver.Receive | components/eth_w5500/esp_eth_mac_w5500.c:813-865 | reads the frame, frees its place whole, and says whether more wait |
| EthRx.Receiver.ReceiveInto | components/eth_w5500/esp_eth_mac_w5500.c:823-836 | the call with an explicit length reads one frame cut at it, or returns nothing |
| EthRx.Receiver.FlushFrame | components/eth_w5500/esp_eth_mac_w5500.c:867-895 | drops one whole frame and says whether more wait |
| EthRx.Receiver.DrainOne | components/eth_w5500/esp_eth_mac_w5500.c:969-996 | one turn consumes one whole frame and delivers it exactly if it fits and there was memory; a frame that is too short changes nothing |
| EthRx.Receiver.Drain | components/eth_w5500/esp_eth_mac_w5500.c:966-998 | without short frames the loop ends with the buffer empty, has delivered exactly the fitting frames in order, and moved the pointer by the total modulo 65536 |
| EthRx.DrainEndsExactly | components/eth_w5500/esp_eth_mac_w5500.c:969-997 | the loop empties the buffer if and only if no frame is too short; it stops at all if and only if none is, or the first one |
| Checksum.FoldedValue | main/netif_hooks.c:249-251 | folding keeps the sum modulo 0xFFFF and only zero folds to zero |
| Checksum.UpdateExact | main/netif_hooks.c:242-252 | the incremental update equals a full recomputation, both zeros included |
| Checksum.UpdateVerifies | main/netif_hooks.c:557-563 | when the sum changes by another amount than the update assumes, the packet verifies exactly if the two agree modulo 0xFFFF |
| Checksum.FilledInVerifies | main/netif_hooks.c:654 | filling in the computed checksum makes any byte string verify, odd lengths included |
| TtlOverride.OverrideTtl | main/netif_hooks.c:227-255 | the in-place program rewrites exactly the packets it applies to |
| TtlOverride.RewriteFrame | main/netif_hooks.c:239-252 | only TTL and checksum bytes change |
| TtlOverride.BuiltRewritten | main/netif_hooks.c:230-253 | every IPv4 packet becomes the same packet with the configured hop limit and another checksum, whatever its other fields and options |
| TtlOverride.OnlyIpv4 | main/netif_hooks.c:230-236 | nothing else is rewritten |
| TtlOverride.HeaderStaysCorrect | main/netif_hooks.c:305-320 | with and without an Ethernet header: a correct checksum stays correct and a receiver accepts after exactly if before |
| MssClamp.ClampTcpMss | main/netif_hooks.c:517-569 | the in-place program ends for every packet, stays inside the first segment and computes the clamp |
| MssClamp.ClampFrame | main/netif_hooks.c:552-564 | only the MSS value and the TCP checksum change, and the value becomes the smaller of old and limit |
| MssClamp.ClampIdempotent | main/netif_hooks.c:517-569 | clamping twice is clamping once |
| MssClamp.ClampTwice | main/netif_hooks.c:517-569 | two limits leave the smallest of the three values |
| MssClamp.FindMssEncoded | main/netif_hooks.c:544-568 | the walk passes over any list of other options to the MSS option behind them |
| MssClamp.FindMssStops | main/netif_hooks.c:544-550 | it finds none when the end mark, the end or an option that does not fit comes first |
| MssFrames.SynClamped | main/netif_hooks.c:517-569 | in an IPv4 TCP frame of any header lengths with the SYN bit, a SYN-ACK included, the MSS becomes the smaller of itself and the limit, behind any other options, and nothing else changes but the checksum |
| MssFrames.OthersUnchanged | main/netif_hooks.c:535-536 | without the SYN bit or without a limit nothing changes |
| MssFrames.WithoutMss | main/netif_hooks.c:544-550 | a segment without an MSS option in front of the end mark or of a malformed option is not changed |
| MssFrames.OnlyTcp | main/netif_hooks.c:518-539 | only SYN segments in IPv4 frames are ever changed |
| MssClamp.ClampAcceptedExactly | main/netif_hooks.c:552-564 | a frame that the receiver accepts is accepted after the clamp if and only if the value is at an even offset or the byte changes agree modulo 257 |
| MssClamp.ClampExactWhenEven | main/netif_hooks.c:552-564 | at an even offset the checksum stays equal to a recomputation |
| MssClamp.OddOffsetBreaksChecksum | main/netif_hooks.c:557-563 | a SYN of 192.168.4.2 with its own pseudo header and checksum that the receiver accepts before the clamp and not after it |
| FragNeeded.BuildAnswer | main/netif_hooks.c:574-658 | the answer has swapped addresses, agreeing lengths, both checksums verifying, the MTU, and quotes the header and min(8, available) bytes |
| FragNeeded.BuiltAnswered | main/netif_hooks.c:587-605 | a packet with its whole header in the segment is answered exactly if it is too long, must not be fragmented, is no later fragment and not ICMP |
| FragNeeded.BuiltQuote | main/netif_hooks.c:607-609 | it quotes that header and the first eight octets behind it, or as many as there are |
| RingBuffer.RingBuf.Alloc | components/pcap_capture/pcap_ringbuf.c:56-91 | a new buffer is empty and unsignalled; an existing one is left alone; without memory there is none |
| RingBuffer.RingBuf.Write | components/pcap_capture/pcap_ringbuf.c:133-180 | all bytes are appended and signalled, or nothing changes but the drop counter; refused exactly if absent, busy or short of room, and counted exactly in the latter two |
| RingBuffer.RingBuf.Read | components/pcap_capture/pcap_ringbuf.c:182-226 | the oldest min(length, held) bytes are taken out in order; what is left is signalled again; bytes read and held are the bytes accepted |
| RingBuffer.RingBuf.Peek | components/pcap_capture/pcap_ringbuf.c:228-255 | returns the prefix that the next read would take |
| RingBuffer.RingBuf.Skip | components/pcap_capture/pcap_ringbuf.c:257-273 | the oldest bytes are dropped, at most all |
| RingBuffer.RingBuf.Free | components/pcap_capture/pcap_ringbuf.c:97-117 | the buffer is gone and empty |
| RingBuffer.RingBuf.Reset | components/pcap_capture/pcap_ringbuf.c:119-131 | the buffer is kept and empty |
| RingSignal.NoLostWakeUp | components/pcap_capture/pcap_ringbuf.c:56-226 | with any number of writers, a run never leaves bytes unannounced if and only if all its drains are quiet |
| RingSignal.AnnouncedIsRead | components/pcap_capture/pcap_ringbuf.c:182-226 | announced bytes make the waiting reader take the signal and read instead of timing out |
| RingSignal.LostUntilWritten | components/pcap_capture/pcap_ringbuf.c:188-191 | unannounced bytes are not read however long the server polls, until a write, reset or disconnect |
| RingSignal.WriteAnnounces | components/pcap_capture/pcap_ringbuf.c:174-178 | the next write announces the old bytes too |
| RingSignal.LostWakeUp | components/pcap_capture/pcap_ringbuf.c:84-87 | a reachable state in which a packet waits unannounced |
| RingCalls.WriteEnds | components/pcap_capture/pcap_ringbuf.c:133-180 | every step of a write brings it nearer to its end |
| RingCalls.WriteGoesOn | components/pcap_capture/pcap_ringbuf.c:139-144 | a write never waits, not even for the mutex |
| RingCalls.WriteDone | components/pcap_capture/pcap_ringbuf.c:133-180 | a write that gets the mutex and finds room adds its bytes and sets the signal |
| RingCalls.WriteRefused | components/pcap_capture/pcap_ringbuf.c:139-158 | one that does not changes nothing |
| RingCalls.ReadPart | components/pcap_capture/pcap_ringbuf.c:188-224 | a read of a part takes the bytes out and signals again |
| RingCalls.ReadAll | components/pcap_capture/pcap_ringbuf.c:188-224 | a read of everything leaves the signal off |
| RingCalls.SessionBegins | components/pcap_capture/pcap_ringbuf.c:56-91 | a session begins with an empty buffer and no signal |
| PcapFormat.GlobalHeaderFields | components/pcap_capture/pcap_capture.c:70-79 | the fields of the stream's header |
| PcapFormat.RecordIs | components/pcap_capture/pcap_capture.c:283-312 | a record states the time and both lengths and holds the first min(length, snaplen) bytes of the packet |
| PcapFormat.CountPackets | esp_nat_bridge.py:1109-1115 | the loop ends for every file and counts by hopping from header to header |
| PcapFormat.WalkCounts | esp_nat_bridge.py:1109-1115 | over any prefix of a stream of whole records it counts exactly those whose 16-byte header is complete |
| PcapFormat.WalkCountsAll | esp_nat_bridge.py:1109-1115 | over the whole stream it counts all |
| PcapFormat.BoundaryExactly | components/pcap_capture/pcap_capture.c:332-335 | a part of a stream consists of whole records if and only if it ends at a record boundary |
| PcapCapture.BuildRecord | components/pcap_capture/pcap_capture.c:276-312 | the record holds the header and the first min(length, snaplen) bytes |
| PcapCapture.Capture.StreamConserved | components/pcap_capture/pcap_capture.c:175-204 | while a session streams without a mode reset, what was sent and what is held are the header and whole records |
| PcapCapture.Capture.ClientCounts | esp_nat_bridge.py:1109-1115 | counting in whatever a client received counts exactly the records whose header arrived |
| PcapCapture.Capture.Accept | components/pcap_capture/pcap_capture.c:157-173 | a session begins with an empty buffer of the configured size and nothing sent |
| PcapCapture.Capture.SendHeader | components/pcap_capture/pcap_capture.c:175-180 | the session streams exactly if the 24 header bytes were sent |
| PcapCapture.Capture.Pump | components/pcap_capture/pcap_capture.c:185-204 | a turn moves bytes from the buffer to the socket and loses none while the session lasts |
| PcapCapture.Capture.CapturePacket | components/pcap_capture/pcap_capture.c:276-316 | a packet is stored as one whole record or not at all |
| PcapCapture.Capture.SetMode | components/pcap_capture/pcap_capture.c:318-338 | switching capture on forgets the held bytes, unless the server cannot be started; the stream stays a header and whole records exactly if what was sent ends at a record boundary |
| Acl.DeniedExactly | components/acl/acl.c:329-388 | a flow is dropped if and only if the first rule that matches it denies |
| Acl.AddVerdict | components/acl/acl.c:153-196 | an added rule decides exactly the packets no earlier rule matches |
| Acl.DeleteVerdict | components/acl/acl.c:198-230 | a deleted rule changes only the verdicts it gave, and leaves those to the rules behind it |
| Acl.CidrBlock | components/acl/acl.c:342-350 | masked comparison with a prefix mask is membership in a block of 2^k addresses |
| Acl.MatchesExactly | components/acl/acl.c:337-365 | a stored CIDR rule matches exactly two blocks, a protocol and ports, the latter only for TCP and UDP |
| AclPackets.ParseBuilt | components/acl/acl.c:293-320 | the filter finds in a raw packet the addresses and protocol it was built from, and the ports if a whole TCP or UDP header is there, with or without IP options |
| AclPackets.BuiltDenied | components/acl/acl.c:238-425 | a packet is dropped if and only if the first rule that matches what it was built from denies |
| AclPackets.VerdictBits | components/acl/acl.c:371-373 | the verdict is the action and the monitor flag of the first matching rule and nothing else, 0xFF without one |
| AclPackets.BuiltVerdict | components/acl/acl.c:238-425 | the same of a packet, from what it was built of |
| AclPackets.HitExactly | components/acl/acl.c:367-369 | exactly the first matching rule counts the hit |
| AclPackets.CountedExactly | components/acl/acl.c:375-392 | exactly one of the three counters goes up |
| AclPackets.FrameRecognised | components/acl/acl.c:251-283 | the Ethernet header is skipped if and only if the destination address does not look like the beginning of a raw packet |
| AclPackets.FramedFlow | components/acl/acl.c:269-320 | then a frame has the flow and the verdict of the packet it carries |
| AclPackets.FrameMisread | components/acl/acl.c:251-264 | otherwise it passes every list or is read at the wrong place |
| AclPackets.OtherFramesPass | components/acl/acl.c:269-282 | frames of other types pass every list, unless their destination address begins with 4 |
| AclPackets.ShortPasses | components/acl/acl.c:287-300 | packets too short for a header, or of another IP version, pass |
| AclPackets.FramesAgreeExactly | components/acl/acl.c:248-283 | a frame and its packet have the same verdict for every list if and only if it is recognised or the misread flow happens to be the same |
| AclPackets.DeniedPacketPasses | components/acl/acl.c:260-263 | a frame that passes a list which denies everything |
| Acl.AclTable.Add | components/acl/acl.c:153-196 | the masked rule is appended to its list, others unchanged; fails exactly on a bad list or sixteen rules |
| Acl.AclTable.Delete | components/acl/acl.c:198-230 | one position is removed keeping order, the count follows; fails exactly without such a rule |
| Acl.AclTable.Clear | components/acl/acl.c:124-135 | one list is emptied, the others unchanged |
| Acl.AclTable.Recount | components/acl/acl.c:107-122 | the cached count becomes the number of valid entries, in whatever slots |
| Acl.AclTable.IsEmpty | components/acl/acl.c:91-97 | the cached count tells whether the list has rules |
| Acl.AclTable.CheckPacket | components/acl/acl.c:238-425 | the verdict of the list of rules on the packet, with its hits and statistics counted |
| Acl.AclTable.Drops | main/netif_hooks.c:154-173 | skipping a list whose count is zero never changes what is dropped |
| AclAddress.CountBits | components/acl/acl.c:474-484 | the loop counts the ones of the mask in host order |
| AclAddress.FormatIp | components/acl/acl.c:486-510 | prints `any`, a quad, or a quad with prefix length, cut at the buffer; nothing into an empty one |
| AclAddress.TextForms | components/acl/acl.c:492-507 | `any`, a bare quad for 32, and a quad with the prefix length otherwise |
| AclAddress.ParseIp | components/acl/acl.c:512-562 | parses `any` in any case, a quad, or a quad with a prefix length of 0 to 32, and masks the address |
| AclAddress.ParsedPrefix | components/acl/acl.c:533-539 | a quad with a prefix length is a block of that length, and nothing above 32 |
| AclAddress.ParsedText | components/acl/acl.c:486-562 | parsing a printed address gives the prefix mask with as many ones and the address masked with it |
| AclAddress.RoundTrip | components/acl/acl.c:486-562 | printing and parsing gives the pair back if and only if the mask is a prefix mask and the address masked; 19 bytes suffice |
| AclAddress.ParsedSurvives | components/acl/acl.c:486-562 | whatever parsing accepts survives printing and parsing |
| PercentCodec.UrlEncode | components/ddns/include/ddns_providers.h:13-26 | the buffer holds the encoding of the taken prefix and a NUL, and nothing behind them is written |
| PercentCodec.EndInside | components/ddns/include/ddns_providers.h:25 | the final NUL is written inside the buffer if and only if the buffer is not empty |
| PercentCodec.EncodedOne | components/ddns/include/ddns_providers.h:18-22 | letters, digits and - . _ ~ stay, other bytes become a percent sign and two upper-case digits |
| PercentCodec.DecodedTriple | components/cmd_router/cmd_router.c:167-176 | a percent sign with two digits of either case becomes their byte |
| PercentCodec.DecodedOther | components/cmd_router/cmd_router.c:177-181 | a plus becomes a blank and everything else stays |
| PercentCodec.DecodeEncode | components/cmd_router/cmd_router.c:161-184 | decoding an encoded string gives it back |
| PercentCodec.RoundTrip | components/ddns/include/ddns_providers.h:13-26 | through a bounded buffer a prefix comes back, and all of it if and only if it fits |
| PercentCodec.PreprocessString | components/cmd_router/cmd_router.c:161-184 | the string is replaced by its decoding in place, the write index never passing the read index, and nothing behind it changes |

## Left out

- DhcpServer.LeaseList: a list node and the lease it points to are one object, and allocation always succeeds.
- DhcpServer.DhcpServer.StopServer: a stop with another network interface, which the code refuses, has no effect to model.
- DhcpServer.DhcpServer.StartServer: the access point's mask is fixed to 255.255.255.0, as `main/esp32_nat_router.c:973` sets it.
- DhcpReplies.ReplyMeaning: sending the reply, its options, ARP entries and the lease callback are lwIP calls.
- DhcpInvariants.EveryRunConsistent: a start in a run has a configured pool that is not degenerate, and no lease above the new pool; the code checks neither, and does not empty the list.
- DhcpReservations.ReservationTable.AddReservation: writing the table to flash is a flag that says whether it succeeded.
- EthTx: timing is left out; a timeout may come whenever the semaphore is taken, and the status read may report a finished SEND at any time, which covers stale flags and bus faults. A failed start is one whose SEND was not issued.
- EthTx: oversized frames, which are refused before anything happens, and the copy of the frame bytes.
- EthRx.Receiver.Drain: frames that arrive while a drain is running, bus faults, and length words below two are left out; the frame limit ETH_MAX_PACKET_SIZE is a parameter because its header is not part of this model.
- FragNeeded.BuildAnswer: the buffer is always allocated; sending it is left out.
- RingBuffer.RingBuf: other users of the mutex appear as a flag; the interleavings are in RingSignal. The capacity counters for the status page are left out.
- RingBuffer.RingBuf.Read: waiting with a time-out is one look at the signal.
- PcapCapture.Capture.SendToClient: partial sends and retries are one number of bytes that the socket takes in the end.
- PcapCapture.Capture: the steps of a session are not interleaved below the level of its methods; the counters of captured packets are left out.
- AclAddress.Aton: lwIP's ip4addr_aton also reads octal, hexadecimal and shortened forms and trailing blanks; only dotted quads without leading zeros are read here.
- AclAddress.Atoi: numbers too large for an int, for which C gives no result.
- Acl.AclTable: the mutex, the rate-limited log and NULL packets.
- PercentCodec.UrlEncode: an empty output buffer, for which the code writes its NUL behind the buffer; `PercentCodec.EndInside` says so.
- PercentCodec.PreprocessString: a decoded NUL ends the C string early; the contract gives all decoded bytes.
- PPPoE, WireGuard, routes, NVS, the console, web, MQTT, DDNS and OTA code, SPI transfers and chip set-up: input, output and calls into other libraries.
