# Wi-Fi driver and alarm clock: a Dafny model

The RGB clock bundles a Realtek Wi-Fi driver and an application that schedules alarms. This project models the parts of both
that keep state in ways that are easy to get wrong, and proves what they promise.

| file | what it models |
|---|---|
| `PowerSave.dfy`, `PowerProgress.dfy`, `PowerTransmit.dfy`, `PowerReports.dfy`, `PwrCtrl.dfy` | the leisure power-save handshake and the command thread: first as atomic steps with the unlocked CPWM interrupt interleaved, its progress under interference, the transmit task, what reports of the chip do to it, then the functions themselves, each shown to be a path of those steps |
| `Nat25Spec.dfy`, `Nat25.dfy` | the NAT2.5 bridge database: a finite map with use counts, and the linked hash chains that refine it |
| `Pppoe.dfy` | relay tags written into and taken out of PPPoE discovery frames (appendix A of RFC 2516) |
| `Dhcp.dfy` | the broadcast flag and the incremental UDP checksum (section 3 of RFC 1624) |
| `Elements.dfy`, `ElementBuffer.dfy`, `ElementParse.dfy` | information elements (section 7.3.2 of IEEE 802.11-2007): octets, searching, removing, building, parsing |
| `BeaconElements.dfy`, `P2p.dfy` | elements of a beacon added, removed and replaced in place; attributes nested in a P2P element |
| `BssCapsSpec.dfy`, `BssCaps.dfy` | station flags, capability counters and the ERP octet of the beacon |
| `ScanTable.dfy`, `StationPool.dfy`, `AclSpec.dfy`, `Acl.dfy` | pools of slots: scanned networks, stations with their hash lists, the MAC access list |
| `AlarmTime.dfy`, `AlarmRuns.dfy`, `AlarmManager.dfy` | the delay until an alarm, its notifications over runs of scheduler passes, the pass itself and the editor lock |
| `AlarmClock.dfy` | alarm, snooze and off of one unit |
| `Bytes.dfy`, `Memory.dfy`, `Items.dfy`, `Slots.dfy`, `Options.dfy` | octets, memmove and memcpy, item lists laid out in a buffer, queues of slots, optional values |

Objects whose methods update fields are classes; buffers and slot pools are arrays that the methods change in place; searches
are loops. What a method does is stated against functions on values, and what the source promises is proved about those.
Arguments marked `ghost` only name what a buffer holds. Invariants that are mostly handed on from call to call are written as
`(...) == true`, which keeps the verifier from taking them apart each time. `dafny verify dfyconfig.toml` checks everything.

Places where the code does not do what its comments, its names or a standard suggest:

- The Barker bit of the ERP octet is not kept up to date (`BssCapsSpec.BarkerBitMissed`); `BssCapsSpec.BarkerStep` and
  `BssCapsSpec.BarkerRightIff` say exactly when it is right.
- Bits 0 and 1 of the octet that user space supplies stay wrong, if they are, until the number of non-ERP stations first
  crosses between 0 and 1 (`BssCapsSpec.ErpBitsWrongFromStart`, `BssCapsSpec.ErpBitsTrackStations`).
- A DHCP request with another flag bit set loses its checksum (`Dhcp.OtherFlagLost`, `Dhcp.PatchKeepsChecksum`); a request
  sent without checksum gets one, right only by chance (`Dhcp.NoChecksumBroken`, `Dhcp.PatchedHolds`).
- On a little-endian host the driver makes room for 2052 octets or more to insert a relay tag of 12 or more: nearly every
  PADI and PADR is refused, and one that is not gets a tag followed by memory contents (`Pppoe.HostReadingRight`, `Pppoe.Insert`).
- A response whose first relay tag is not the inserted one is refused or sent to the address in that tag (`Pppoe.OtherRelayFirst`).
- `rtw_free_all_stainfo` keeps a station if it is the only record in use and the broadcast record is missing
  (`StationPool.LoneStation`, `StationPool.LoneStationStays`, `StationPool.StaPriv.FreeAllStainfo`).
- A unit with an empty name does not lock the alarm list (`AlarmManager.LockHeld`).
- `rtw_add_bcn_ie` writes through a pointer that it has not set when the element goes in front of all others, or behind or
  in place of an element without a body (`BeaconElements.AddUndefined`).
- `cpwm_int_hdl` believes every report: one of a state below S2 that nobody asked for can leave the command thread parked for
  good (`PowerReports.UnaskedSleepLosesWakeUp`); `PowerReports.UnaskedSleepIff` says exactly after which ones no run does.
- A station that joins again without the greenfield or 20 MHz limit stays counted as limited until it leaves
  (`BssCapsSpec.LimitStays`, `BssCapsSpec.LimitsAreNeverWithdrawn`).
- The end of `rtw_unregister_evt_alive` releases a lock that it did not take, and `rtw_alloc_stainfo` releases one twice when
  the pool is empty; locks are not part of the model.

## Model

| member | source | states |
|---|---|---|
| PowerSave.NoLostWakeUp | linux/Arch/dwa-131/core/rtw_pwrctrl.c:847-879 | From any initial rpwm and for every interleaving, with unsolicited reports of S2 or more at any time and of less wherever they are harmless: if the command thread is parked and commands are queued, then an enqueuer is about to raise its semaphore, or the semaphore is positive, or CMD_ALIVE is set and a raise request is outstanding |
| PowerSave.NeverSleepsWhileAlive | linux/Arch/dwa-131/core/rtw_pwrctrl.c:988-1017 | For every interleaving of the four tasks: a request for a state below S2 is sent only while no task is alive |
| PowerSave.HandledInOrder | linux/Arch/dwa-131/core/rtw_cmd.c:459-549 | For every interleaving: accepted commands are those handled followed by those queued, each once and in order |
| PowerSave.StepKeepsInv | linux/Arch/dwa-131/core/rtw_pwrctrl.c:737-775 | Every step of enqueuers, thread, tx and rx tasks, mode changes, rtw_set_rpwm and the unlocked interrupt handler keeps the inductive invariant |
| PowerSave.RunKeepsInv | linux/Arch/dwa-131/core/rtw_pwrctrl.c:313-353 | The invariant holds along every run |
| PowerSave.InternalStepDescends | linux/Arch/dwa-131/core/rtw_cmd.c:459-549 | Each of the driver's own steps that does not handle a command lowers a rank and leaves the queue alone |
| PowerSave.QueuedCommandIsHandled | linux/Arch/dwa-131/core/rtw_cmd.c:344-378 | Under any schedule of the driver's own steps and firmware answers, the command at the head of the queue is handled within Rank steps |
| PowerProgress.HandledDespiteInterference | linux/Arch/dwa-131/core/rtw_cmd.c:459-549 | Once the chip is awake, under any interleaving with anybody's steps the thread handles the head of the queue with at most eight steps of its own |
| PowerProgress.HandledAfterAnswer | linux/Arch/dwa-131/core/rtw_pwrctrl.c:737-775 | A thread that found the chip asleep handles its command after the firmware's answer, whatever anybody does before and after it |
| PowerProgress.AwakeStep | linux/Arch/dwa-131/core/rtw_pwrctrl.c:988-1017 | No step of the driver but the thread's own unregistering puts the chip to sleep under the command task |
| PowerProgress.WaitsOrIsHandled | linux/Arch/dwa-131/core/rtw_cmd.c:459-549 | In every run a waiting command goes on waiting, at the head of the queue and with CMD_ALIVE set, until it is handled |
| PowerReports.UnaskedSleepLosesWakeUp | linux/Arch/dwa-131/core/rtw_pwrctrl.c:757-766 | A reachable state in which a report below S2 that nobody asked for is followed by a run that leaves a command queued with nothing to wake the thread |
| PowerReports.BusyInPsIsReached | linux/Arch/dwa-131/core/rtw_pwrctrl.c:396-540 | That state is reached by a run |
| PowerReports.UnaskedSleepIff | linux/Arch/dwa-131/core/rtw_pwrctrl.c:757-766 | For every state of a run and every unsolicited report below S2: no run after it loses a wake-up if and only if the chip was told to sleep, owes an answer, or the section under way will put things right |
| PowerReports.StrandedLoses | linux/Arch/dwa-131/core/rtw_pwrctrl.c:313-353 | From every state in which the chip is believed asleep, was told to wake, owes nothing and no section puts that right, some run loses a wake-up |
| PowerTransmit.NoLostTransmit | linux/Arch/dwa-131/core/rtw_pwrctrl.c:737-832 | For every interleaving: while the transmit task waits after finding the chip asleep, with XMIT_ALIVE set, its semaphore is positive, the firmware owes an answer, or the handler is about to raise it |
| PowerTransmit.XmitTokens | linux/Arch/dwa-131/core/rtw_pwrctrl.c:764-765 | Over every run the transmit semaphore has gained one token for each pass of the handler that found the chip awake with XMIT_ALIVE set, and lost those taken |
| PowerTransmit.CmdTokens | linux/Arch/dwa-131/core/rtw_pwrctrl.c:761-762 | Over every run the command semaphore has gained one token for each such pass with CMD_ALIVE set and for each command enqueued, and lost those taken |
| PowerTransmit.ToggleCountsRequests | linux/Arch/dwa-131/core/rtw_pwrctrl.c:343-349 | Over every run the toggle has flipped once for each request sent to the chip |
| PowerSave.NeverStuck | linux/Arch/dwa-131/core/rtw_cmd.c:459-549 | In every reachable state with a queued command one of the driver's own steps is possible |
| PwrCtrl.FinishIsRun | linux/Arch/dwa-131/core/rtw_pwrctrl.c:313-353 | An uninterrupted critical section is a run of the transition system |
| PwrCtrl.RegisterIsPath | linux/Arch/dwa-131/core/rtw_pwrctrl.c:847-879 | Registering a task, uninterrupted, is a path of the transition system with the stated end state |
| PwrCtrl.UnregisterIsPath | linux/Arch/dwa-131/core/rtw_pwrctrl.c:988-1017 | Unregistering a task likewise |
| PwrCtrl.EnterPsIsPath | linux/Arch/dwa-131/core/rtw_pwrctrl.c:483-528 | Entering power save likewise |
| PwrCtrl.LeavePsIsPath | linux/Arch/dwa-131/core/rtw_pwrctrl.c:459-482 | Leaving power save likewise |
| PwrCtrl.LastTaskSleeps | linux/Arch/dwa-131/core/rtw_pwrctrl.c:988-1017 | Unregistering asks the chip to sleep if and only if power save is on, no other task is alive and the chip is not asleep |
| PwrCtrl.IdleSleeps | linux/Arch/dwa-131/core/rtw_pwrctrl.c:513-524 | Entering power save asks the chip to sleep if and only if no task is alive |
| PwrCtrl.InterruptIsPath | linux/Arch/dwa-131/core/rtw_pwrctrl.c:737-775 | The interrupt handler, run to its end, likewise, for answers and for reports of its own |
| PwrCtrl.SectionKeepsInv | linux/Arch/dwa-131/core/rtw_pwrctrl.c:313-353 | A whole section keeps the invariant |
| PwrCtrl.Adapter.SetRpwm | linux/Arch/dwa-131/core/rtw_pwrctrl.c:313-353 | rtw_set_rpwm in place: nothing if the level is already requested; PS_ACK exactly when raising from below S2; cpwm follows at once only without PS_ACK |
| PwrCtrl.Adapter.RegisterAlive | linux/Arch/dwa-131/core/rtw_pwrctrl.c:800-910 | Registering in place makes the transition of the machine; fails exactly when the firmware is in power save with cpwm below S2 |
| PwrCtrl.Adapter.UnregisterAlive | linux/Arch/dwa-131/core/rtw_pwrctrl.c:950-1041 | Unregistering in place makes the transition of the machine |
| PwrCtrl.Adapter.SetPsMode | linux/Arch/dwa-131/core/rtw_pwrctrl.c:396-540 | Nothing for an illegal or unchanged mode, when not ready, or when opportunistic power save holds; else the transition of the machine, mode and smart_ps recorded |
| PwrCtrl.Adapter.CpwmIntHdl | linux/Arch/dwa-131/core/rtw_pwrctrl.c:737-775 | For every report: cpwm is the report, and from S2 on exactly the semaphores of the alive command and transmit tasks gain one token each; the transition of the machine |
| PwrCtrl.Adapter.EnqueueCmd | linux/Arch/dwa-131/core/rtw_cmd.c:302-378 | Dropped without effect exactly if the filter refuses it; else insertion followed by raising the semaphore |
| PwrCtrl.Adapter.DequeueCmd | linux/Arch/dwa-131/core/rtw_cmd.c:242-265 | Takes the head of the queue, or reports an empty queue |
| PwrCtrl.Adapter.DrainQueue | linux/Arch/dwa-131/core/rtw_cmd.c:476-540 | Handles everything that is queued, in order |
| PwrCtrl.Adapter.CmdThreadPass | linux/Arch/dwa-131/core/rtw_cmd.c:459-549 | One wake-up: either the chip is asleep and the thread parks with CMD_ALIVE set and the queue untouched, or everything queued is handled in order and CMD_ALIVE cleared; the whole state is that of the machine |
| PwrCtrl.DrainIsRun | linux/Arch/dwa-131/core/rtw_cmd.c:476-549 | Draining the queue is a run of dequeuing steps of the machine |
| Nat25.BridgeDb.HashLink | linux/Arch/dwa-131/core/rtw_br_ext.c:392-406 | Linking at the head of a bucket keeps the chain structure and adds exactly the entry |
| Nat25.BridgeDb.HashUnlink | linux/Arch/dwa-131/core/rtw_br_ext.c:409-422 | Unlinking through pprev_hash keeps the chain structure and removes exactly the entry |
| Nat25.BridgeDb.ChainIsBucket | linux/Arch/dwa-131/core/rtw_br_ext.c:392-422 | Following a bucket's chain meets exactly the entries whose address hashes to it, no address twice, and the map is what those entries say |
| Nat25.BridgeDb.Find | linux/Arch/dwa-131/core/rtw_br_ext.c:432-436 | The chain walk finds the one entry with the address, or none if the map has none |
| Nat25.BridgeDb.NetworkInsert | linux/Arch/dwa-131/core/rtw_br_ext.c:502-539 | The map gains or renews exactly the record of the address: that MAC, that age, the old use count or one |
| Nat25.BridgeDb.NetworkLookupAndReplace | linux/Arch/dwa-131/core/rtw_br_ext.c:425-499 | Changes the map as a lookup does; the destination becomes the bound MAC exactly if the address is there unexpired |
| Nat25.BridgeDb.ShortCut | linux/Arch/dwa-131/core/rtw_xmit.c:3143-3151 | The short-cut names the entry of the address, refreshed, with the sender's MAC and IP recorded, or nothing, with the record of MAC and IP left |
| Nat25.BridgeDb.FindAndTouch | linux/Arch/dwa-131/core/rtw_br_ext.c:1673-1697 | scdb_findEntry returns the entry of the address, or none; the refresh changes its age only |
| Nat25.BridgeDb.SweepEntry | linux/Arch/dwa-131/core/rtw_br_ext.c:675-747 | One entry of a sweep: an aged one loses a use and is freed at zero, the short-cut forgotten first |
| Nat25.BridgeDb.Expire | linux/Arch/dwa-131/core/rtw_br_ext.c:662-752 | A whole sweep over all buckets changes the map as the one-step specification says |
| Nat25.BridgeDb.CleanUp | linux/Arch/dwa-131/core/rtw_br_ext.c:631-659 | Leaves the empty map, empty buckets and no short-cut |
| Nat25Spec.UseCountConserved | linux/Arch/dwa-131/core/rtw_br_ext.c:437-441 | Over every run: use count = 1 + unexpired lookups - sweeps that found it aged, and at least 1 |
| Nat25Spec.FreedExactlyAtZero | linux/Arch/dwa-131/core/rtw_br_ext.c:675-747 | A record goes exactly in the sweep that finds it aged with its hits used up, and never by insertion, lookup or refresh |
| Nat25Spec.UnagedSurvivesSweep | linux/Arch/dwa-131/core/rtw_br_ext.c:145-162 | A sweep leaves an unaged record as it is |
| Nat25Spec.BoundToLastSender | linux/Arch/dwa-131/core/rtw_br_ext.c:514-536 | Over every run: an address in the map is bound to the client that last sent from it |
| Nat25Spec.PresentIff | linux/Arch/dwa-131/core/rtw_br_ext.c:502-752 | Over every run: an address is in the map if and only if some insertion put it there and no later clean-up, nor sweep that found it aged with its hits used up, dropped it |
| Nat25Spec.InsertEnters | linux/Arch/dwa-131/core/rtw_br_ext.c:514-536 | After an insertion the address is there with that MAC, that age, and its use count or one; every other address is as it was |
| Nat25Spec.LookupCounts | linux/Arch/dwa-131/core/rtw_br_ext.c:437-441 | A lookup adds one use to a record younger than 30000 jiffies and changes nothing else |
| Nat25Spec.AgeIsLastSeen | linux/Arch/dwa-131/core/rtw_br_ext.c:514-536 | Over every run: the age of a record is the time of the last insertion or refresh of its address |
| Nat25Spec.UnusedGoesAfterFiveMinutes | linux/Arch/dwa-131/core/rtw_br_ext.c:145-162 | A record with its hits used up survives a sweep if and only if its address was seen less than 30000 jiffies before |
| Nat25Spec.SweepOneAdvances | linux/Arch/dwa-131/core/rtw_br_ext.c:667-752 | Sweeping one address at a time, in any order, makes progress towards the swept map |
| Nat25Spec.SweepComplete | linux/Arch/dwa-131/core/rtw_br_ext.c:667-752 | When no address is left, the map is the swept map |
| Pppoe.RelayRoundTrip | linux/Arch/dwa-131/core/rtw_br_ext.c:1213-1334 | For every request, with or without a relay tag of its own anywhere, and every response that returns the inserted tag at any position with no relay tag before it: what went out is magic code, client MAC and the client's own value in one tag before its other tags; what comes back goes to the client's MAC with the client's own tag, or none if it had no value, and all other tags in order |
| Pppoe.OwnTag | linux/Arch/dwa-131/core/rtw_br_ext.c:1223-1232 | The value taken out is that of the client's own first relay tag, the other tags stay in order, and it is accepted exactly up to 28 octets |
| Pppoe.SomeAround | linux/Arch/dwa-131/core/rtw_br_ext.c:87-102 | Every request has such parts |
| Pppoe.NoRelayRefused | linux/Arch/dwa-131/core/rtw_br_ext.c:1298-1301 | A response without a relay tag is refused |
| Pppoe.TagFormat | linux/Arch/dwa-131/core/rtw_br_ext.c:95-99 | A tag on the wire: type and length with the high octet first, then the data |
| Pppoe.FrameFormat | linux/Arch/dwa-131/core/rtw_br_ext.c:1204-1204 | A frame on the wire: addresses, header, length of the tags, tags |
| Pppoe.OtherRelayFirst | linux/Arch/dwa-131/core/rtw_br_ext.c:1298-1330 | A response with another relay tag before it is refused if that tag has no magic code, and else goes to the address that tag holds |
| Pppoe.Insert | linux/Arch/dwa-131/core/rtw_br_ext.c:1213-1255 | On the octets of any well-formed discovery frame with any trailer, for both byte orders: passes exactly if it is a PADI or PADR, the old value is at most 28 octets and the tailroom suffices for what is copied; on a big-endian host the frame is then the one of the specification; otherwise exactly what is left is stated |
| Pppoe.InsertedWellFormed | linux/Arch/dwa-131/core/rtw_br_ext.c:119-119 | The length field covers the inserted tag if and only if it has room for eight octets more, or twelve without an old relay tag |
| Pppoe.Lookup | linux/Arch/dwa-131/core/rtw_br_ext.c:1290-1357 | On the octets of any well-formed discovery frame with any trailer: passes exactly if it is a PADO or PADS whose first relay tag carries magic and address; the frame is then that of the specification, trailer unchanged; otherwise unchanged |
| Pppoe.FindRelayTag | linux/Arch/dwa-131/core/rtw_br_ext.c:87-102 | Finds the first relay tag, or none, on the octets of any tag list |
| Pppoe.Skb.AddPppoeTag | linux/Arch/dwa-131/core/rtw_br_ext.c:105-122 | Fails without effect exactly if the tailroom is less than the length read; else the tag stands before the others and the length field covers it |
| Pppoe.Skb.PullAndMerge | linux/Arch/dwa-131/core/rtw_br_ext.c:124-143 | Takes out the octets and closes up, or fails without effect exactly if they reach past the end |
| Pppoe.Skb.PullFromTags | linux/Arch/dwa-131/core/rtw_br_ext.c:1234-1238 | Taking octets out of the tags leaves the other octets and the trailer and a right length field, and cannot fail on a well-formed frame |
| Pppoe.TakeOldRelay | linux/Arch/dwa-131/core/rtw_br_ext.c:1223-1239 | The first relay tag is taken out and its own octets returned; refused without effect exactly if they are too many |
| Pppoe.TrimRelay | linux/Arch/dwa-131/core/rtw_br_ext.c:1321-1330 | Magic and address are cut out of the tag and its length and the frame's corrected |
| Pppoe.DropRelay | linux/Arch/dwa-131/core/rtw_br_ext.c:1321-1328 | A tag with nothing behind the address goes altogether |
| Pppoe.HostReadingRight | linux/Arch/dwa-131/core/rtw_br_ext.c:110-110 | The length read without ntohs is right exactly on a big-endian host, or if its two octets are equal |
| Pppoe.RelayTagLength | linux/Arch/dwa-131/core/rtw_br_ext.c:110-121 | For the relay tag the driver copies the tag and nothing else on a big-endian host, and 256 times its data length and four octets on a little-endian one |
| Dhcp.DhcpFlagBcast | linux/Arch/dwa-131/core/rtw_br_ext.c:1639-1664 | Exactly the DHCP requests whose broadcast flag is clear are patched, in either byte order; every other datagram is untouched |
| Dhcp.RequestWords | linux/Arch/dwa-131/core/rtw_br_ext.c:1639-1651 | The words that make a datagram a request, in either byte order |
| Dhcp.SetBroadcast | linux/Arch/dwa-131/core/rtw_br_ext.c:1649-1664 | Untouched if the flag is set; else the flag is set, only flags and checksum change, new checksum + new flags = old checksum modulo 65535, and the new checksum is zero exactly if old checksum and new flags agree modulo 65535 |
| Dhcp.Fold | linux/Arch/dwa-131/core/rtw_br_ext.c:1661-1662 | The folding loop ends with 16 bits, the same residue modulo 65535, and zero only for zero |
| Dhcp.PatchedSum | linux/Arch/dwa-131/core/rtw_br_ext.c:1656-1663 | The sum of the datagram's words changes by exactly the old flags, modulo 65535 |
| Dhcp.PatchedHolds | linux/Arch/dwa-131/core/rtw_br_ext.c:1656-1663 | For all datagrams: the checksum holds afterwards if and only if the words added up to the old flags before |
| Dhcp.PatchKeepsChecksum | linux/Arch/dwa-131/core/rtw_br_ext.c:1656-1663 | A checksum that held still holds if and only if no other flag bit was set |
| Dhcp.OtherFlagLost | linux/Arch/dwa-131/core/rtw_br_ext.c:1649-1664 | A whole DHCPDISCOVER with another flag bit set whose checksum held and, patched, no longer holds |
| Dhcp.NoChecksumBroken | linux/Arch/dwa-131/core/rtw_br_ext.c:1649-1664 | A whole DHCPDISCOVER without a checksum comes out with one that does not hold |
| ElementParse.SetIe | linux/Arch/dwa-131/core/rtw_ieee80211.c:147-168 | Writes id, length and body in place, leaves the rest, advances pointer and frame length |
| ElementParse.BuildIes | linux/Arch/dwa-131/core/rtw_ieee80211.c:147-168 | Repeated writing yields exactly the octets of the element list |
| ElementParse.ParseElems | linux/Arch/dwa-131/core/rtw_ieee80211.c:1060-1185 | Fails if and only if the octets are not a concatenation of complete elements; otherwise each field is the body of the last element of its kind, and unknown elements are reported exactly if there are any |
| ElementParse.LastOf | linux/Arch/dwa-131/core/rtw_ieee80211.c:955-1050 | The last element that goes to a field, if any |
| ElementParse.ClassifyIsTable | linux/Arch/dwa-131/core/rtw_ieee80211.c:955-1178 | The parser's branches send an element to a field exactly if the table of ids and vendor prefixes does |
| ElementParse.NotComplete | linux/Arch/dwa-131/core/rtw_ieee80211.c:1060-1185 | Octets that end inside an element are no concatenation of elements, however they are read |
| ElementBuffer.GetIe | linux/Arch/dwa-131/core/rtw_ieee80211.c:226-257 | Position and length of the first element with the id, or null if there is none |
| ElementBuffer.GetIeEx | linux/Arch/dwa-131/core/rtw_ieee80211.c:271-308 | Position and length of the first element with id and OUI, or null if there is none |
| ElementBuffer.IesRemoveIe | linux/Arch/dwa-131/core/rtw_ieee80211.c:321-355 | From the offset on the buffer holds exactly the elements that do not match, in order, the part before and the octets behind are kept, the length is exact; removes something exactly if there was a match |
| ElementBuffer.RemoveStep | linux/Arch/dwa-131/core/rtw_ieee80211.c:328-350 | Cutting out the next match is one step of filtering the list |
| Elements.EncodeInjective | linux/Arch/dwa-131/core/rtw_ieee80211.c:147-168 | Octets determine their element list |
| Items.WithoutFirst | linux/Arch/dwa-131/core/rtw_ieee80211.c:321-355 | Searching to the first match and cutting it out is one step of filtering the list |
| Items.WithoutAppend | linux/Arch/dwa-131/core/rtw_ieee80211.c:321-355 | Filtering a list is filtering its parts, in order |
| Items.WithoutOne | linux/Arch/dwa-131/core/rtw_ieee80211.c:321-355 | A single item stays or goes |
| Elements.WithoutMatching | linux/Arch/dwa-131/core/rtw_ieee80211.c:271-355 | Filtering keeps exactly the elements with another id or, if an OUI is given, another start of the body |
| Elements.FirstMatchIsFirst | linux/Arch/dwa-131/core/rtw_ieee80211.c:226-308 | The match has the id and starts with the OUI, and no element before it does |
| Elements.ElemFormat | linux/Arch/dwa-131/core/rtw_ieee80211.c:147-168 | An element on the air: id, length, body |
| Items.AllAppend | linux/Arch/dwa-131/core/rtw_ieee80211.c:147-168 | The octets of a list are those of its parts one after the other, whatever the format of the items |
| BeaconElements.AddBcnIe | linux/Arch/dwa-131/core/rtw_ap.c:208-276 | Where the scan leaves a usable pointer, the beacon is that of the list with the element replaced or inserted and the length exact, also when a replacement fills the buffer; elsewhere reported and untouched |
| BeaconElements.AddUndefined | linux/Arch/dwa-131/core/rtw_ap.c:222-258 | Three beacons for which the pointer is unset or unusable: in front of all elements, behind a hidden SSID, and in place of one |
| BeaconElements.RemoveBcnIe | linux/Arch/dwa-131/core/rtw_ap.c:278-318 | The beacon is that of the list without the first element with the id, and shorter by it, if that has a body; else untouched |
| BeaconElements.SortedScanFinds | linux/Arch/dwa-131/core/rtw_ap.c:222-245 | On a sorted list the scan finds the id exactly if it is there |
| BeaconElements.AddedIsSorted | linux/Arch/dwa-131/core/rtw_ap.c:208-276 | The list stays sorted, holds the element, and keeps every element with another id |
| BeaconElements.AddedMeans | linux/Arch/dwa-131/core/rtw_ap.c:216-258 | On any list the element goes before the first with a greater id, or in place of one with its id that comes before that |
| BeaconElements.AddThenRemove | linux/Arch/dwa-131/core/rtw_ap.c:208-318 | Adding an absent id with a body and removing it gives back the list |
| P2p.GetP2pIe | linux/Arch/dwa-131/core/rtw_ieee80211.c:1402-1447 | The first P2P element that starts within MAX_IE_SZ, or null, also for a negative length |
| P2p.GetP2pAttr | linux/Arch/dwa-131/core/rtw_ieee80211.c:1459-1505 | The first attribute with the id, or null, also for an element of another kind |
| P2p.P2pAttrRemove | linux/Arch/dwa-131/core/rtw_ieee80211.c:1558-1598 | Ends with every attribute with the id gone, the others in order, the inner length octet and the returned length exact, zeros in the gap, and nothing outside the element touched |
| P2p.RemoveP2pAttr | linux/Arch/dwa-131/core/rtw_ieee80211.c:1600-1632 | The beacon is that of the list whose first P2P element holds exactly the attributes with another id, all other elements as they were, the outer length less by exactly the octets of the removed attributes, zeros behind it; untouched without a P2P element |
| P2p.RemovedOctets | linux/Arch/dwa-131/core/rtw_ieee80211.c:1558-1598 | The octets saved are those of the attributes with the id |
| P2p.AttrFormat | linux/Arch/dwa-131/core/rtw_ieee80211.c:1479-1482 | An attribute on the air: id, length with the low octet first, data |
| P2p.P2pFormat | linux/Arch/dwa-131/core/rtw_ieee80211.c:1406-1417 | A P2P element on the air: 221, length, OUI and type, attributes |
| P2p.RemovalIsComplete | linux/Arch/dwa-131/core/rtw_ieee80211.c:1558-1598 | Nothing with the id is left, every other attribute is, and a second removal changes nothing |
| BssCapsSpec.ErpBitsTrackStations | linux/Arch/dwa-131/core/rtw_ap.c:1901-1934 | Over every sequence of joins, re-joins and leaves, from any octet: bits 0 and 1 are both set if some station is non-ERP and both clear if none is, if and only if they were right at the start or some event has rewritten them |
| BssCapsSpec.ErpBitsTellJoins | linux/Arch/dwa-131/core/rtw_ap.c:1901-2544 | On the events alone, from a BSS without stations: bits 0 and 1 are both set if some station that is there said that it is non-ERP when it last joined and both clear if none did, if and only if they were clear at the start or have been rewritten |
| BssCapsSpec.FlagsTellLastJoin | linux/Arch/dwa-131/core/rtw_ap.c:2283-2451 | Over every run: the flags for non-ERP, preamble, slot time and no HT tell exactly what the station said when it last joined, and nothing once it has left |
| BssCapsSpec.StepTracks | linux/Arch/dwa-131/core/rtw_ap.c:2325-2358 | After one join or leave they are right if and only if they were or the event rewrites them, although the updater asks for exactly one and runs only at 0/1 transitions |
| BssCapsSpec.CrossesMeans | linux/Arch/dwa-131/core/rtw_ap.c:2325-2358 | A count crosses between 0 and 1 exactly if the first station with the flag comes or the last goes |
| BssCapsSpec.ErpBitsWrongFromStart | linux/Arch/dwa-131/core/rtw_ap.c:1901-1934 | A beacon that starts with bits 0 and 1 set keeps them while a station joins, although none is non-ERP |
| BssCapsSpec.LimitsAreNeverWithdrawn | linux/Arch/dwa-131/core/rtw_ap.c:2411-2451 | Over every run: the flags for no greenfield and for 20 MHz are set exactly if the station has joined with the limit since it last left, whatever it said at later joins |
| BssCapsSpec.LimitStays | linux/Arch/dwa-131/core/rtw_ap.c:2418-2428 | A station that joins again as a greenfield station stays flagged |
| BssCapsSpec.BarkerStep | linux/Arch/dwa-131/core/rtw_ap.c:2283-2311 | An event keeps a right Barker bit right if and only if, should the number of stations without short preamble cross between 0 and 1, that of non-ERP stations does too |
| BssCapsSpec.BarkerRightIff | linux/Arch/dwa-131/core/rtw_ap.c:1925-1928 | Over every such sequence: the Barker bit is right if and only if there are stations without short preamble now exactly if there were at the last rewrite, or, without one, exactly if the bit was set at the start |
| BssCapsSpec.SomeLastRewrite | linux/Arch/dwa-131/core/rtw_ap.c:1901-1934 | Every run has such a last rewrite, or none at all |
| BssCapsSpec.BarkerBitMissed | linux/Arch/dwa-131/core/rtw_ap.c:2283-2297 | A join that makes a right Barker bit wrong: a station lacks short preambles and the bit is clear |
| BssCapsSpec.CountIsCardinality | linux/Arch/dwa-131/core/rtw_ap.c:2836-2846 | A count is the number of stations with the flag |
| BssCapsSpec.NewOctet | linux/Arch/dwa-131/core/rtw_ap.c:1919-1928 | Bits 0 and 1 set exactly for one non-ERP station, bit 2 exactly for some station without short preamble, the other bits kept |
| BssCaps.Bss.Join | linux/Arch/dwa-131/core/rtw_ap.c:2263-2469 | Flags become those of the capabilities, each of six counters equals the number of flagged stations, the beacon changes in the ERP octet only and as the specification says, an update is reported exactly if a relevant count crosses between 0 and 1, and the ERP bits are right exactly if they were or have been rewritten |
| BssCaps.Bss.Leave | linux/Arch/dwa-131/core/rtw_ap.c:2471-2544 | The same for leaving, which clears all flags |
| BssCaps.UpdatesMeans | linux/Arch/dwa-131/core/rtw_ap.c:2283-2398 | An update is due exactly if the first non-ERP station comes or the last goes, or, beyond 802.11b, the first or last without short preamble or short slot time |
| BssCaps.Bss.StartBss | linux/Arch/dwa-131/core/rtw_ap.c:1390-1472 | The beacon from user space is in place, or refused exactly if too long or outside AP state or mode; the ERP octet is looked after from then on exactly if its element has one octet, and the BSS counts as started unless there is a WPS element |
| BssCaps.Bss.StartApMode | linux/Arch/dwa-131/core/rtw_ap.c:2823-2846 | The counters are right after the reset if and only if no station has a flag left |
| BssCaps.Bss.constructor | linux/Arch/dwa-131/core/rtw_ap.c:2836-2846 | No station has a flag, the counters are right and the BSS is not started |
| BssCaps.Bss.UpdateBcnErpinfoIe | linux/Arch/dwa-131/core/rtw_ap.c:1901-1934 | Rewrites the first octet of the first ERP element with a body, in place, and nothing else |
| BssCaps.Bss.UpdateBeacon | linux/Arch/dwa-131/core/rtw_ap.c:2055-2130 | Does nothing before the BSS is started; else updates the ERP element if its id is given, changes nothing for the ids whose updaters are empty, and marks the beacon |
| ScanTable.Table.UpdateScannedNetwork | linux/Arch/dwa-131/core/rtw_mlme.c:847-964 | A known network is refreshed in its entry; a new one takes the first free slot, or with none free the first of the least recently scanned entries; nothing else changes, slots are conserved and no network has two entries |
| ScanTable.Table.Search | linux/Arch/dwa-131/core/rtw_mlme.c:858-885 | The first entry for the network, and the oldest entry passed; there is one whenever the queue was not empty |
| ScanTable.Table.AllocNetwork | linux/Arch/dwa-131/core/rtw_mlme.c:217-253 | Takes the head of the free queue and counts it, or fails exactly if there is none |
| ScanTable.Table.FreeNetwork | linux/Arch/dwa-131/core/rtw_mlme.c:255-329 | Moves the entry to the free queue exactly if it is not pinned and is old enough by unsigned 32-bit difference or all have to go; slots are conserved |
| ScanTable.Table.FreeNetworkNolock | linux/Arch/dwa-131/core/rtw_mlme.c:331-358 | Moves the entry to the free queue unless it is pinned; slots are conserved |
| ScanTable.Table.FreeNetworkQueue | linux/Arch/dwa-131/core/rtw_mlme.c:410-441 | Leaves exactly the entries that a single freeing leaves alone, in order |
| ScanTable.Table.FreeScanqueue | linux/Arch/dwa-131/core/rtw_mlme.c:1338-1367 | All entries move to the free queue in order and the counter is zero |
| ScanTable.Table.constructor | linux/Arch/dwa-131/core/rtw_mlme.c:84-91 | All slots are free |
| ScanTable.RefreshedIsSame | linux/Arch/dwa-131/core/rtw_mlme.c:701-763 | A refreshed entry is for the same network |
| ScanTable.RefreshedMeans | linux/Arch/dwa-131/core/rtw_mlme.c:701-763 | Which record each field of a refreshed entry comes from, with the signal from the link, unchanged, or between old and new |
| ScanTable.SmoothBetween | linux/Arch/dwa-131/core/rtw_mlme.c:735-752 | A smoothed value lies between history and sample and moves off history if they are five apart, for all integers with C division |
| ScanTable.FreshMeans | linux/Arch/dwa-131/core/rtw_mlme.c:887-940 | A new entry is the record, seen now and not pinned |
| ScanTable.SameNetworkIff | linux/Arch/dwa-131/core/rtw_mlme.c:627-666 | Same network means same address, SSID and kind |
| ScanTable.StaysMeans | linux/Arch/dwa-131/core/rtw_mlme.c:255-310 | Which entries are left alone, in ticks by unsigned 32-bit difference |
| ScanTable.SurvivorsMeans | linux/Arch/dwa-131/core/rtw_mlme.c:410-441 | A sweep keeps exactly the entries that stay |
| Slots.PartitionCovers | linux/Arch/dwa-131/core/rtw_mlme.c:84-91 | Every slot of a pool is in exactly one of the two queues |
| StationPool.StaPriv.AllocStainfo | linux/Arch/dwa-131/core/rtw_sta_mgt.c:324-448 | Takes the first free record, or fails exactly if there is none; every record stays in the free queue or in the hash list of its address; for every address, what was found before is still found, and the new record is found exactly for its own address if nothing was |
| StationPool.StaPriv.FreeStainfo | linux/Arch/dwa-131/core/rtw_sta_mgt.c:452-643 | The record goes from its hash list to the end of the free queue; no lookup of another address changes, and with unique addresses its own is no longer found |
| StationPool.StaPriv.GetStainfo | linux/Arch/dwa-131/core/rtw_sta_mgt.c:688-742 | The record with the address, the broadcast record for every multicast address, none for a null pointer |
| StationPool.StaPriv.FreeAllStainfo | linux/Arch/dwa-131/core/rtw_sta_mgt.c:646-685 | Exactly the broadcast record stays in use, if and only if it is not the case that one record is in use and there is no broadcast record; unique addresses stay unique |
| StationPool.LoneStation | linux/Arch/dwa-131/core/rtw_sta_mgt.c:324-448 | There is a pool whose only record in use is a station's, without a broadcast record |
| StationPool.LoneStationStays | linux/Arch/dwa-131/core/rtw_sta_mgt.c:646-685 | In such a pool the freeing of all leaves the station, found as before |
| StationPool.StaPriv.InitBcmcStainfo | linux/Arch/dwa-131/core/rtw_sta_mgt.c:744-783 | The broadcast record is there afterwards exactly if it was or a record was free; one that was there is still the one found, and no other lookup changes |
| StationPool.StaPriv.constructor | linux/Arch/dwa-131/core/rtw_sta_mgt.c:95-131 | All records free and none in use |
| StationPool.LookupFinds | linux/Arch/dwa-131/core/rtw_sta_mgt.c:688-742 | A lookup finds a record in use with the address if there is one, and none otherwise |
| StationPool.LookupIs | linux/Arch/dwa-131/core/rtw_sta_mgt.c:688-742 | With unique addresses, looking up a record's address gives the record |
| Slots.CountMissing | linux/Arch/dwa-131/core/rtw_sta_mgt.c:324-448 | The records in use are as many as the pool exceeds the free queue |
| Acl.Pool.AddSta | linux/Arch/dwa-131/core/rtw_ap.c:1776-1848 | Refused exactly if sixteen addresses are listed; the set of addresses changes as the specification says, so below capacity a slot is always found |
| Acl.Pool.RemoveSta | linux/Arch/dwa-131/core/rtw_ap.c:1850-1891 | The set changes as the specification says; slots, queue and counter stay in step |
| Acl.Pool.AccessCtrl | linux/Arch/dwa-131/core/rtw_sta_mgt.c:798-847 | Mode 1 admits exactly the addresses not in the set, mode 2 exactly those in it, any other mode all |
| AclSpec.OnListIff | linux/Arch/dwa-131/core/rtw_ap.c:1776-1891 | After any run of adds and removes an address is listed exactly if an add that found room put it there and nothing has removed it since |
| Acl.Pool.Find | linux/Arch/dwa-131/core/rtw_sta_mgt.c:798-833 | The search over the queue answers membership in the set |
| Acl.Pool.FirstInvalid | linux/Arch/dwa-131/core/rtw_ap.c:1823-1828 | Below capacity the slot search ends at a slot that is not valid |
| Acl.Pool.constructor | linux/Arch/dwa-131/core/rtw_ap.c:2867-2875 | The empty set, mode 0 |
| Slots.SomeMissing | linux/Arch/dwa-131/core/rtw_ap.c:1823-1828 | A queue of different slots that is shorter than the pool lacks a slot |
| AlarmTime.LeastDelay | rgbclock/RgbLib/src/AlarmManager.cpp:309-350 | For every valid clock and alarm: the result is the least delay in sight at which the alarm is due; it is -1 if and only if there is none, and never less |
| AlarmTime.DueMeans | rgbclock/RgbLib/src/AlarmManager.cpp:316-342 | Being due in the week's calendar, Saturday wrapping to Sunday, is being due today or tomorrow |
| AlarmRuns.DailyFiring | rgbclock/RgbLib/src/AlarmManager.cpp:371-390 | Over every run of passes from any state: a daily alarm is notified at a pass if and only if it is due, was not due before in the same stay of the clock on its time, and did not start the run signalled in that stay |
| AlarmRuns.OncePerStay | rgbclock/RgbLib/src/AlarmManager.cpp:422-429 | Each whole stay with a due pass has exactly one notifying pass, the first due one; only a stay in which the run starts with the alarm signalled has none |
| AlarmRuns.FiresOnlyWhenDue | rgbclock/RgbLib/src/AlarmManager.cpp:371-390 | Whatever the state, a notified alarm is due |
| AlarmRuns.OneTimeAtMostOnce | rgbclock/RgbLib/src/AlarmManager.cpp:371-390 | A one-time alarm, with any time of day, is notified at most once in any run from any state |
| AlarmRuns.OneTimeFiring | rgbclock/RgbLib/src/AlarmManager.cpp:371-390 | An armed one-time alarm is notified exactly at the first pass at its time |
| AlarmManager.NextIsFirstLeast | rgbclock/RgbLib/src/AlarmManager.cpp:391-421 | A unit has an entry if and only if the least positive delay of its alarms is below 23 hours; it holds that delay and the time of the first alarm to have it |
| AlarmManager.WaitsMeans | rgbclock/RgbLib/src/AlarmManager.cpp:391-397 | An alarm counts for a unit if it is for it or for all and lies ahead |
| AlarmManager.ToldOnce | rgbclock/RgbLib/src/AlarmManager.cpp:374-382 | An alarm that fires tells each observer it is for once, in order, and no other |
| AlarmManager.ToldPerAlarm | rgbclock/RgbLib/src/AlarmManager.cpp:366-390 | In a pass each observer is told exactly as many times as there are firing alarms for it |
| AlarmManager.ToldObservers | rgbclock/RgbLib/src/AlarmManager.cpp:366-390 | A notice is sent if and only if it is one of an alarm that fires |
| AlarmManager.NoticesSay | rgbclock/RgbLib/src/AlarmManager.cpp:379-379 | A notice carries the volume of its alarm and asks for a smooth start for daily and smooth one-time alarms only |
| AlarmManager.Manager.Pass | rgbclock/RgbLib/src/AlarmManager.cpp:361-458 | For any alarms, with any times of day, and any observers: nothing while someone edits; else every alarm makes its tick, the notices are those of the alarms that fire, every unit's entry is its next alarm, saving is asked for exactly if a one-time alarm fired, and pending snooze and off requests reach every observer and are done with |
| AlarmManager.Manager.Forward | rgbclock/RgbLib/src/AlarmManager.cpp:438-456 | Pending snooze and off requests go to every observer once, in order |
| AlarmManager.Manager.Offer | rgbclock/RgbLib/src/AlarmManager.cpp:391-421 | The inner loop improves the entries of exactly the observers the alarm is for, names occurring twice included |
| AlarmManager.Manager.Notify | rgbclock/RgbLib/src/AlarmManager.cpp:374-382 | The inner loop tells exactly those observers |
| AlarmManager.LockHeld | rgbclock/RgbLib/src/AlarmManager.cpp:77-101 | From editing to saving no other unit gets the list, over all operations between, if and only if the unit's name is not empty |
| AlarmManager.LockTakenAndReleased | rgbclock/RgbLib/src/AlarmManager.cpp:77-101 | Editing takes a free lock and saving gives it back, whatever others do in between |
| AlarmManager.Manager.EditAlarms | rgbclock/RgbLib/src/AlarmManager.cpp:77-90 | Granted exactly if nobody else is editing |
| AlarmManager.Manager.SaveAlarms | rgbclock/RgbLib/src/AlarmManager.cpp:92-101 | Ends the editing of the unit that is editing and of no other |
| AlarmClock.RunKeepsInv | rgbclock/RgbLib/src/AlarmClock.cpp:105-255 | Over every sequence of notifications, snooze and off requests and ticks: counters below 1800 and 540, the worker runs exactly outside Normal, and display, keyboard, radio (with its volume) and light match the state |
| AlarmClock.OffEndsAtNextTick | rgbclock/RgbLib/src/AlarmClock.cpp:156-160 | After an off request, and any further snooze or off requests, the next tick gives Normal |
| AlarmClock.EndsInTime | rgbclock/RgbLib/src/AlarmClock.cpp:203-255 | Without a new alarm or snooze, Normal after at most 540 + 1800 ticks |
| AlarmClock.EndsExactly | rgbclock/RgbLib/src/AlarmClock.cpp:203-255 | Left alone, Normal after exactly the ticks that are left and not before |
| AlarmClock.NotifyRings | rgbclock/RgbLib/src/AlarmClock.cpp:105-178 | A notification rings the alarm with the given volume and smoothness, whatever the clock was doing |
| AlarmClock.SnoozeSilences | rgbclock/RgbLib/src/AlarmClock.cpp:132-154 | A snooze request turns an alarm into a silent snooze that counts from zero, and does nothing in any other state |
| AlarmClock.SnoozeRingsAgain | rgbclock/RgbLib/src/AlarmClock.cpp:242-250 | A snoozing clock keeps quiet for exactly 540 ticks and then rings again with the same volume |
| AlarmClock.AlarmLasts | rgbclock/RgbLib/src/AlarmClock.cpp:221-241 | An alarm goes on unchanged for exactly 1800 ticks and is then over |
| AlarmClock.AlarmClockUnit.AlarmNotify | rgbclock/RgbLib/src/AlarmClock.cpp:105-113 | alarmNotify makes the step of the machine |
| AlarmClock.AlarmClockUnit.AlarmSnooze | rgbclock/RgbLib/src/AlarmClock.cpp:132-154 | alarmSnooze makes the step of the machine, nothing outside Alarm |
| AlarmClock.AlarmClockUnit.RequestOff | rgbclock/RgbLib/src/AlarmClock.cpp:156-160 | alarmOff makes the step of the machine |
| AlarmClock.AlarmClockUnit.StartAlarm | rgbclock/RgbLib/src/AlarmClock.cpp:162-178 | startAlarm makes its part of the step |
| AlarmClock.AlarmClockUnit.Maintain | rgbclock/RgbLib/src/AlarmClock.cpp:203-255 | One round of the maintenance thread makes the tick of the machine |

## Left out

- Driver stop and surprise removal in `rtw_pwrctrl.c` and `rtw_cmd.c`, `rtw_stop_cmd_thread`, the filtering of commands after they are dequeued and the command callbacks: commands are handled as opaque values.
- PowerSave.NoLostWakeUp: unsolicited reports below S2 are steps of a run only where they are harmless, because the property is false with any other; the stray lock release of `rtw_unregister_evt_alive`, which has no caller, is not modelled.
- PowerProgress.HandledDespiteInterference: a chip that falls asleep by itself again before the command is handled is excluded.
- Spinlocks, semaphore implementation, logging, failing allocations and wrap-around of jiffies: a critical section is one step except where the interrupt handler reads or writes.
- The protocol parsing of `nat25_db_handle` other than PPPoE discovery, IPv6 address options, the 802.1Q handling around the short-cut.
- Frames, element buffers and attribute lists that are not well formed, for every search but the parser: the driver reads past the end of them.
- Overlapping `memcpy` is read as `memmove`.
- PPPoE without relay tags (`pppoe_connection_in_progress`) and the session phase.
- Pppoe.Insert: what lies behind the driver's scratch buffer in memory is a parameter; the session id is zero, as in every discovery frame this branch handles.
- Finding the UDP header behind Ethernet and IP headers; the DHCP model starts at the words of the datagram with its pseudo header.
- BeaconElements.AddBcnIe: room for the resulting beacon is required, because the driver does not check it; where the driver's pointer is unset or unusable the method reports so instead of modelling the write.
- BssCaps.Bss.StartBss: the HT capability octets that the driver rewrites in the beacon and the TIM element that it inserts are not modelled.
- BssCaps.Bss.UpdateBeacon: the ids of the TIM element and of vendor elements are not modelled.
- `associated_clients_update`, `rtw_ht_operation_update`, the TIM element and the transmission of the beacon; `ERP_IE_handler` keeps a copy of the octet that is not modelled.
- StationPool.StaPriv.FreeStainfo: transmit and reorder queues, timers and association ids of a record are not modelled; only its address and its place in the lists are.
- StationPool.StaPriv.AllocStainfo: the hash is any function to list numbers; wifi_mac_hash itself is not spelled out.
- `stop_ap_mode` and the ioctl that sets the mode of the access list.
- AlarmManager.Manager.Pass: the saving to a file is left out.
- Loading and saving of alarms, display texts, fonts, keyboard handling, configuration: plumbing around what is modelled.
- Races between alarm notification and the maintenance thread, and the destructor of the alarm clock: events and ticks are atomic.
- Register, USB and HAL access, OID and ioctl handlers, firmware images: calls into hardware that is not part of this model.
