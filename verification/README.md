# Core logic of the rtl8852cu driver

A Dafny model of seven components of the driver, nearly all from its `core` directory, with proofs of what
each of them is for. Code that edits buffers, chains and fields in place is modelled by classes and methods over
arrays and heap objects; each method is proved against a function of its inputs and the old state, and
the properties are proved of those functions over all inputs and all runs.

| file | component |
|---|---|
| `Common.dfy` | bytes, options and MAC addresses |
| `Elements.dfy` | information elements in byte buffers: look up, append, remove in place |
| `Inheritance.dfy` | the per-link element list as a difference against the primary link's, and back |
| `Beacon.dfy` | adding and removing beacon elements by splicing |
| `Tim.dfy` | the TIM element's partial virtual bitmap and its place in the beacon |
| `ChannelSwitch.dfy` | channel-switch elements counted down in the beacon |
| `SubmitCtx.dfy` | the submit-context handshake between waiting submitters and the command worker |
| `Nat25.dfy`, `Nat25Db.dfy` | the NAT2.5 database: as a table of chains, and as linked entries on the heap |
| `Pppoe.dfy` | the PPPoE relay tag of bridged discovery packets |
| `Regd.dfy`, `Cisr.dfy`, `UserCmd.dfy`, `Regulatory.dfy` | regulatory requests, country-IE records, the user's commands, and the state they live in |
| `ChannelSet.dfy`, `SupportedChannels.dfy` | the channel set under regulatory requests, bandwidth validity, the Supported Channels element |
| `ChplanHdl.dfy` | a change of requests carried through: which apply, the status, the channel set |
| `StaQueue.dfy` | the queue of stations to add and delete |
| `Protection.dfy` | station capability counters and the ERP bits of the beacon |

`dafny verify dfyconfig.toml` checks everything.

## Where the code does something else than it is meant to

Each of these is a lemma, most with the exact condition under which the meant property does hold.

- Comparison helper. `rtw_br_ext.c` tests `!_rtw_memcmp(..)` for "equal", but the helper in
  `os_dep/osdep_service_linux.c:58-65` is true on equality. The database is modelled for both
  conventions: it is a map exactly under the one it was written for (`Nat25.RefinesExactly`); under the
  other no chain ever holds two addresses (`Nat25.MixedUpChains`, `Nat25.MixedUpLookup`).
- Oversize commands. `rtw_enqueue_cmd` frees a command above the size limit and still reports success,
  so its waiting submitter later touches freed memory. The completion in `rtw_ap.c:6540-6558` does not
  take the mutex. The handshake is safe exactly without the two (`SubmitCtx.SafeExactly`). No caller that
  waits builds so large a command: their parameters are small structures of fixed size.
- Inherited elements. Of several elements with one key that differ from the primary link's only the last
  comes back, and a vendor element (ID 221) that differs in both lists does not come back at all
  (`Inheritance.RoundTrip`, `Inheritance.RoundTripUnique`). The length of the difference is cut to a byte
  (`Inheritance.RoundTripByLength`, `Inheritance.DifferenceLost`).
- Extension elements. The walker reads an extension ID without asking for the length: an ID 255 element
  without data is found under the ID of the element behind it (`Elements.SeenExactly`).
- Adding beacon elements. The check for room does not count the two header bytes, so an element can end
  behind the buffer (`Beacon.OverflowsExactly`, `Beacon.AddOverflows`), and the add has no effect without
  a nonempty element to put the new one next to (`Beacon.AddWorksExactly`). Either can leave a channel
  switch pending for ever (`ChannelSwitch.CountdownEndsExactly`). Elements without data are never removed
  (`Beacon.RemoveExactly`).
- New TIM. Its place is the total size of three other elements, wherever these are. If no elements end
  there it goes into the middle of one, and later lookups find damaged elements
  (`Tim.TimInsertsExactly`, `Tim.TimDamages`). There is no check for room (`Tim.TimOverflowsExactly`).
- Empty relay tag. It does not come back from the server (`Pppoe.RelayRoundTrip`).
- 6 GHz codes are checked against the validity table of the other bands (`ChannelSet.SixGigExactly`,
  `ChannelSet.SixGigEscapes`). With either of the driver's databases that loses no plan; it only makes codes that
  are not 6 GHz codes restrict more, and such codes are turned away before
  (`ChannelSet.SixGigInDriver`).
- One more country can loosen a channel. The status becomes the intersected one, beacon hints start to
  count, and a passive channel can become an active one (`ChannelSet.MonotoneExactly`,
  `ChannelSet.HintAppears`).
- A user's country. It can be stored without being put into effect, where country elements count only
  under a worldwide plan and the change turns them on or off (`UserCmd.UserSetAsideExactly`, `UserCmd.UserSetAsideSettled`,
  `UserCmd.UserSetAside`, `ChplanHdl.UsSetAside`).
- Protection bits. An access point started with one of them set keeps it until the first station without
  ERP comes (`Protection.ProtectionExactly`, `Protection.ProtectionStays`).
- Barker bit. It shows the state at the last protection change (`Protection.BarkerLags`,
  `Protection.BarkerExactly`, `Protection.BarkerMissed`).
- Station queue. A request can stay behind in an idle queue (`StaQueue.StrandedExactly`,
  `StaQueue.LeftBehind`), and the counter is a `u8` (`StaQueue.CounterExactly`).

## Model

| member | source | states |
|---|---|---|
| Elements.GetIe | rtl8852cu-20240510/core/rtw_ieee80211.c:330-401 | position and length of the first element that looks like a match, -1 exactly if none does; that is the first match by ID, and by extension ID if no ID 255 element lacks its data |
| Elements.SeenExactly | rtl8852cu-20240510/core/rtw_ieee80211.c:368-401 | the walker finds the first match if and only if no element without data before it has the extension ID behind it |
| Elements.SetIe | rtl8852cu-20240510/core/rtw_ieee80211.c:252-272 | appends the wire form of one element, everything after it untouched |
| Elements.RemoveFirst | rtl8852cu-20240510/core/rtw_ieee80211.c:521-552 | takes the element the walker finds out in place, moves up the rest, tells if there was none |
| Elements.RemoveIe | rtl8852cu-20240510/core/rtw_ieee80211.c:521-552 | leaves exactly the elements the walker does not take for a match, in order: those that do not match, if no ID 255 element lacks its data |
| Elements.RemovedIs | rtl8852cu-20240510/core/rtw_ieee80211.c:521-552 | searching on behind each removal, with the bytes left over behind the list, takes out all matches and nothing else on such lists |
| Elements.LookupGone | rtl8852cu-20240510/core/rtw_ieee80211.c:521-552 | after removal a lookup of what was removed finds nothing |
| Elements.LookupWithout | rtl8852cu-20240510/core/rtw_ieee80211.c:521-552 | and a lookup of anything else finds what it found before |
| Elements.ElementAt | rtl8852cu-20240510/core/rtw_ieee80211.c:330-366 | where on the wire the k-th element's ID, length and data are |
| Inheritance.RoundTrip | rtl8852cu-20240510/core/rtw_eht.c:34-70 | applying the difference to the primary list gives back the current elements of every key, if and only if of every key the element that differs is the only one, or none differs and the primary list has the same ones |
| Inheritance.RoundTripUnique | rtl8852cu-20240510/core/rtw_eht.c:34-70 | with one current element per key every lookup is given back if and only if no vendor element differs in both lists |
| Inheritance.PatchedSelect | rtl8852cu-20240510/core/rtw_eht.c:204-265 | which elements of each key the rebuilt list holds: none, the last that differs, or the primary list's |
| Inheritance.PatchedLookup | rtl8852cu-20240510/core/rtw_eht.c:204-265 | what a lookup finds in the rebuilt list with one current element per key, vendor conflicts included |
| Inheritance.ApplyOverrides | rtl8852cu-20240510/core/rtw_eht.c:34-70 | elements of the difference replace all those with the same key; of several with one key the last stays |
| Inheritance.Dropped | rtl8852cu-20240510/core/rtw_eht.c:34-70 | dropping the keys listed as not inherited removes all elements of those and no other |
| Inheritance.GoneExactly | rtl8852cu-20240510/core/rtw_eht.c:237-254 | a key is listed as not inherited if and only if the primary list has it and the current one has not |
| Inheritance.ChangedElements | rtl8852cu-20240510/core/rtw_eht.c:217-235 | an element is in the difference if and only if it is in the current list and the primary list has none of its key, or one with other data and the ID is not 221 |
| Inheritance.ChangedOfKey | rtl8852cu-20240510/core/rtw_eht.c:217-235 | of every key the difference carries those elements that differ, in order |
| Inheritance.NonInheritanceLists | rtl8852cu-20240510/core/rtw_eht.c:256-262 | the bytes of the Non-Inheritance element, and that the two lists it was made from are read back |
| Inheritance.ApplyUnique | rtl8852cu-20240510/core/rtw_eht.c:34-70 | rebuilding keeps keys unique |
| Inheritance.AppendChanged | rtl8852cu-20240510/core/rtw_eht.c:217-235 | the first loop writes the encoding of the changed elements |
| Inheritance.CollectGone | rtl8852cu-20240510/core/rtw_eht.c:237-254 | the second loop collects the IDs and extension IDs of missing elements in order |
| Inheritance.AppendNonInheritance | rtl8852cu-20240510/core/rtw_eht.c:256-262 | appends the Non-Inheritance element if anything is missing |
| Inheritance.BuildInheritedIes | rtl8852cu-20240510/core/rtw_eht.c:204-265 | the buffer holds the encoding of the whole difference; the result is its length as a byte |
| Inheritance.BuildAndUpdate | rtl8852cu-20240510/core/rtw_eht.c:34-265 | building and patching with the returned length applies the elements that end at that length |
| Inheritance.RoundTripByLength | rtl8852cu-20240510/core/rtw_eht.c:204-265 | with one current element per key that gives back every lookup if and only if the difference is shorter than 256 bytes and no vendor element differs in both lists |
| Inheritance.DifferenceLost | rtl8852cu-20240510/core/rtw_eht.c:204-265 | a difference of 256 bytes of which nothing is sent |
| Inheritance.ApplyElement | rtl8852cu-20240510/core/rtw_eht.c:34-70 | one element of the difference applied to the list in place |
| Inheritance.UpdateIesWithInheritance | rtl8852cu-20240510/core/rtw_eht.c:34-70 | the list in the buffer becomes the rebuilt list |
| Beacon.AddLookup | rtl8852cu-20240510/core/rtw_ap.c:170-241 | an add that takes effect is what the next lookup of that ID finds; no other ID's lookup changes |
| Beacon.AddKeepsSorted | rtl8852cu-20240510/core/rtw_ap.c:170-241 | a list sorted by ID stays sorted |
| Beacon.AddWorksExactly | rtl8852cu-20240510/core/rtw_ap.c:170-241 | data of a given length is found afterwards, whatever it is, if and only if fixed part, elements and that length are at most 768 bytes and the element to replace or else the predecessor exists and has data (or nothing is added and nothing was there) |
| Beacon.PivotWhenFirstIsBelow | rtl8852cu-20240510/core/rtw_ap.c:183-218 | there is such an element on lists of nonempty elements whose first ID is smaller |
| Beacon.OverflowsExactly | rtl8852cu-20240510/core/rtw_ap.c:178-181 | a beacon that fits becomes larger than the buffer if and only if a new element passes the check with less than two bytes to spare |
| Beacon.AddOverflows | rtl8852cu-20240510/core/rtw_ap.c:178-181 | a beacon of 765 bytes and three data bytes that end two bytes behind the buffer |
| Beacon.RemoveUndoesAdd | rtl8852cu-20240510/core/rtw_ap.c:170-278 | removing an ID just added that was absent before restores the list |
| Beacon.RemoveExactly | rtl8852cu-20240510/core/rtw_ap.c:243-278 | the list stays if and only if the first element of that ID is missing or has no data; else that one is gone and no other |
| Beacon.RemoveLeavesAbsent | rtl8852cu-20240510/core/rtw_ap.c:243-278 | the ID is gone if and only if at most one element had it, and that one had data |
| Beacon.BssNetwork.SearchSlot | rtl8852cu-20240510/core/rtw_ap.c:183-206 | the element to replace or to append behind |
| Beacon.BssNetwork.AddBcnIe | rtl8852cu-20240510/core/rtw_ap.c:170-241 | the buffer and its length after the splice are exactly those of the new list, without room those of the old one; nothing behind the new length is written |
| Beacon.BssNetwork.RemoveBcnIe | rtl8852cu-20240510/core/rtw_ap.c:243-278 | the same for removal |
| Tim.TimRoundTrip | rtl8852cu-20240510/core/rtw_ap.c:48-85 | decoding the element gives back counter, period, every octet of the bitmap and the AID 0 bit |
| Tim.WindowSmallest | rtl8852cu-20240510/core/rtw_ap.c:48-85 | no window with an even start that covers all nonzero octets is smaller |
| Tim.BmpNotEmpty | rtl8852cu-20240510/core/rtw_wlan_util.c:3066-3076 | true if and only if some octet is not zero |
| Tim.SetTimIe | rtl8852cu-20240510/core/rtw_ap.c:48-85 | the buffer holds the TIM element, the result is its length |
| Tim.TimReplaced | rtl8852cu-20240510/core/rtw_ap.c:87-168 | a TIM with data is replaced by the new one, and no other element's lookup changes |
| Tim.TimInserted | rtl8852cu-20240510/core/rtw_ap.c:87-168 | without a TIM, or with an empty one, an insertion at a boundary puts the new one between whole elements |
| Tim.TimInsertsExactly | rtl8852cu-20240510/core/rtw_ap.c:87-168 | a new TIM leaves all elements whole, for every bitmap, if and only if some first elements are together as long as the SSID, rates and DS elements |
| Tim.HeadIsBoundary | rtl8852cu-20240510/core/rtw_ap.c:120-138 | for instance if the elements 0, 1 and 3 come first in any order |
| Tim.TimDamages | rtl8852cu-20240510/core/rtw_ap.c:120-138 | a beacon in which it changes the country and rates elements and is not found itself |
| Tim.UpdateBcnTim | rtl8852cu-20240510/core/rtw_ap.c:87-168 | the beacon's bytes after the update, beyond the buffer if they reach there; fixed part and everything behind untouched |
| Tim.TimOverflowsExactly | rtl8852cu-20240510/core/rtw_ap.c:87-168 | they reach beyond the buffer if and only if the beacon's size without the old TIM and with the new one does |
| ChannelSwitch.Countdown | rtl8852cu-20240510/core/rtw_ap.c:3442-3542 | after k updates the elements show count N-k+1, after N+1 both are gone, the beacon is the one from before they were built, and the state is done for good |
| ChannelSwitch.CountdownShows | rtl8852cu-20240510/core/rtw_ap.c:3442-3542 | what lookups of elements 37 and 60 find during the countdown; all other elements stay |
| ChannelSwitch.CountdownEndsExactly | rtl8852cu-20240510/core/rtw_csa.c:55-97 | in a beacon with neither element the countdown ends if and only if the add of the channel switch element took effect, or with ECSA that of the extended one |
| ChannelSwitch.CountdownEnds | rtl8852cu-20240510/core/rtw_ap.c:3442-3542 | from any beacon a started switch ends if and only if element 37 has three bytes, or with ECSA element 60 has four |
| ChannelSwitch.CountdownStuck | rtl8852cu-20240510/core/rtw_ap.c:3442-3542 | without such an element beacon and state stay, and every update reports failure |
| ChannelSwitch.Adapter.BuildCsaIe | rtl8852cu-20240510/core/rtw_csa.c:55-74 | the beacon with the channel switch element added |
| ChannelSwitch.Adapter.BuildEcsaIe | rtl8852cu-20240510/core/rtw_csa.c:76-97 | the beacon with the extended element added |
| ChannelSwitch.Adapter.UpdateCsaIe | rtl8852cu-20240510/core/rtw_ap.c:3522-3542 | beacon, state, count and result of one update |
| SubmitCtx.SafeAlways | rtl8852cu-20240510/core/rtw_cmd.c:326-421 | in every interleaving of any number of commands the worker only signals contexts whose owner waits, a timed-out submitter only writes to a command not freed, and a command is freed at most once and in the end exactly once unless a callback has taken it |
| SubmitCtx.SafeExactly | rtl8852cu-20240510/core/rtw_cmd.c:206-255 | all runs are safe if and only if every waited-for command is within the size limit and completed under the mutex |
| SubmitCtx.ToldExactly | rtl8852cu-20240510/core/rtw_xmit.c:9452-9471 | in every such run a submitter is told of success if and only if the completion woke it and the handler succeeded, never after a timeout; from the completion on it can be woken |
| SubmitCtx.StepKeepsInv | rtl8852cu-20240510/core/rtw_cmd.c:326-421 | every step of submitter or worker keeps the protocol invariant |
| SubmitCtx.NeverStuck | rtl8852cu-20240510/core/rtw_cmd.c:387-421 | some step is possible unless everything is over: the mutex cannot deadlock |
| SubmitCtx.OversizeUnsafe | rtl8852cu-20240510/core/rtw_cmd.c:206-255 | a run in which the submitter of an oversize command touches freed memory |
| SubmitCtx.UnlockedUnsafe | rtl8852cu-20240510/core/rtw_ap.c:6540-6558 | a run in which the worker signals a context that is gone |
| Nat25.HashDecides | rtl8852cu-20240510/core/rtw_br_ext.c:328-378 | a bucket number below 16; changing one byte of an address keeps it if and only if that byte is none of those the hash takes for the address type, or its low four bits stay |
| Nat25.HashOfType | rtl8852cu-20240510/core/rtw_br_ext.c:328-378 | for which address types the type byte counts too |
| Nat25.RunRefines | rtl8852cu-20240510/core/rtw_br_ext.c:411-723 | over any run of insert, lookup, expire and cleanup the chains answer as a finite map and keep standing for it |
| Nat25.StepRefines | rtl8852cu-20240510/core/rtw_br_ext.c:411-723 | one operation: entries stay in their bucket with one entry per address and use count at least 1 |
| Nat25.InsertRefines | rtl8852cu-20240510/core/rtw_br_ext.c:484-519 | insert is map update, with use count 1 for a new address and kept for a known one |
| Nat25.LookupRefines | rtl8852cu-20240510/core/rtw_br_ext.c:411-481 | lookup is map lookup; only a fresh entry is used and counted |
| Nat25.ExpireRefines | rtl8852cu-20240510/core/rtw_br_ext.c:638-723 | expire takes one use from every expired entry and those without any left |
| Nat25.RefinesExactly | rtl8852cu-20240510/os_dep/osdep_service_linux.c:58-65 | the database behaves as a map on all runs if and only if the comparison means equality |
| Nat25.MixedUpChains | rtl8852cu-20240510/core/rtw_br_ext.c:411-519 | with the other comparison no chain ever holds two addresses |
| Nat25.MixedUpLookup | rtl8852cu-20240510/core/rtw_br_ext.c:411-519 | and an address just inserted is found only through another one's entry |
| Nat25.AgeingBound | rtl8852cu-20240510/core/rtw_br_ext.c:155-162 | an expired entry left alone is removed at exactly the expire pass whose number is its use count |
| Nat25.FreshSurvives | rtl8852cu-20240510/core/rtw_br_ext.c:638-723 | expire neither removes nor changes a fresh entry |
| Nat25.MacFor300Seconds | rtl8852cu-20240510/core/rtw_br_ext.c:144-162 | after an insert at one time, whatever is looked up, aged or inserted for other addresses up to another, a lookup then gives the MAC if and only if less than 300 times hz ticks lie between |
| Nat25.KeptFor300Seconds | rtl8852cu-20240510/core/rtw_br_ext.c:638-723 | an expire pass then leaves the entry as it is if and only if the same holds |
| Nat25Db.NetDb.Walk | rtl8852cu-20240510/core/rtw_br_ext.c:492-504 | following next_hash finds the entry that Find names |
| Nat25Db.NetDb.LookupAndReplace | rtl8852cu-20240510/core/rtw_br_ext.c:411-481 | answer and new table are those of the table operation with the limit 300 seconds ago; all links hold |
| Nat25Db.NetDb.NetworkInsert | rtl8852cu-20240510/core/rtw_br_ext.c:484-519 | the new table is that of the table operation; a valid cache stays valid |
| Nat25Db.NetDb.Link | rtl8852cu-20240510/core/rtw_br_ext.c:380-393 | the entry is the new head of its chain, doubly linked |
| Nat25Db.NetDb.HashUnlink | rtl8852cu-20240510/core/rtw_br_ext.c:396-408 | writing through pprev_hash makes the neighbours skip the entry and touches nothing else |
| Nat25Db.NetDb.Unlink | rtl8852cu-20240510/core/rtw_br_ext.c:396-408 | the chain without that entry, every pprev_hash still pointing at what points at its entry |
| Nat25Db.NetDb.Forget | rtl8852cu-20240510/core/rtw_br_ext.c:612-634 | the cache is cleared if and only if it was that entry, which then leaves the table |
| Nat25Db.NetDb.ExpireChain | rtl8852cu-20240510/core/rtw_br_ext.c:647-716 | one chain after the pass, while it is being unlinked under the walk |
| Nat25Db.NetDb.DbExpire | rtl8852cu-20240510/core/rtw_br_ext.c:638-723 | the new table is that of the table operation with the same limit; scdb_entry never points at a removed entry |
| Nat25Db.NetDb.DbCleanup | rtl8852cu-20240510/core/rtw_br_ext.c:609-635 | all chains are empty and a valid cache is cleared |
| Nat25Db.NetDb.ScdbFindEntry | rtl8852cu-20240510/core/rtw_br_ext.c:1557-1582 | the first entry the comparison picks |
| Nat25Db.Unlinked | rtl8852cu-20240510/core/rtw_br_ext.c:396-408 | a chain with an entry bypassed is linked both ways |
| Pppoe.RelayRoundTrip | rtl8852cu-20240510/core/rtw_br_ext.c:1129-1244 | stripping the echo of what was inserted gives back the client's MAC, and the tags with an old relay tag in front if and only if that was not empty |
| Pppoe.StripEcho | rtl8852cu-20240510/core/rtw_br_ext.c:1200-1244 | the same wherever the server puts the relay tag; the tags around it stay |
| Pppoe.RelayOnWire | rtl8852cu-20240510/core/rtw_br_ext.c:1134-1165 | the bytes of the frame with the relay tag: length, type 0x0110, magic code 0x8186, MAC and old data; an old tag is too long if and only if it has more than 28 bytes |
| Pppoe.TagCut | rtl8852cu-20240510/core/rtw_br_ext.c:124-143 | a tag cut out of a frame and the length corrected: a frame with the other tags |
| Pppoe.TagTrim | rtl8852cu-20240510/core/rtw_br_ext.c:1232-1241 | the front of a tag's data cut out and both lengths corrected |
| Pppoe.Skb.FindTag | rtl8852cu-20240510/core/rtw_br_ext.c:87-102 | position of the first tag of that type, -1 if there is none |
| Pppoe.Skb.PullAndMerge | rtl8852cu-20240510/core/rtw_br_ext.c:124-143 | the bytes before and after the hole, or nothing changed |
| Pppoe.Skb.AddTag | rtl8852cu-20240510/core/rtw_br_ext.c:105-122 | a frame with the new tag first and the right length, or -1 without room |
| Pppoe.Skb.InsertRelayTag | rtl8852cu-20240510/core/rtw_br_ext.c:1129-1169 | the frame's tags and result in all cases, too long an old tag and no room included |
| Pppoe.Skb.StripRelayTag | rtl8852cu-20240510/core/rtw_br_ext.c:1200-1244 | destination, tags, length field and trailing bytes after success; nothing changed on error |
| Regd.MarkAndSweep | rtl8852cu-20240510/core/rtw_chplan.c:2481-2534 | country-IE requests become the distinct plans of the records with their counts, all others keep order and content, and the plans changed if and only if one was new or one was swept |
| Regd.MarkStep | rtl8852cu-20240510/core/rtw_chplan.c:2229-2260 | one more record: counted, and a new request exactly for a new plan |
| Regd.SummarySumsUp | rtl8852cu-20240510/core/rtw_chplan.c:2662-2708 | the status has the common codes or UNSPECIFIED, the common country or "98", the protocols all enable and the initiators present |
| Regd.WhoseBits | rtl8852cu-20240510/core/rtw_chplan.c:2691-2692 | the lowest bits of the initiator bitmap say if an initial request, one of the user, one for country elements is applied |
| Regd.SummaryUnordered | rtl8852cu-20240510/core/rtw_chplan.c:2662-2708 | it depends neither on order nor on repetition |
| Regd.SummaryOfPermutation | rtl8852cu-20240510/core/rtw_chplan.c:2632-2713 | reordering the request list leaves the status as it is |
| Regd.SomeApplies | rtl8852cu-20240510/core/rtw_chplan.c:2632-2680 | in a list that is not empty some request applies |
| Regd.AddingKeepsApplied | rtl8852cu-20240510/core/rtw_chplan.c:2632-2680 | one more request leaves all that applied in force if and only if it ranks no higher than the highest, or has its source and that one applies always |
| Regd.WhoApplies | rtl8852cu-20240510/core/rtw_chplan.c:2632-2680 | by who asked: a request of the OS puts all Realtek ones out of force; without any the country-IE requests apply if there are some, else the user's, else the initial one, besides those set to apply always |
| Regd.SummaryOfMarked | rtl8852cu-20240510/core/rtw_chplan.c:2632-2713 | the status is that of the requests now marked as applied |
| Regd.NotYetInForce | rtl8852cu-20240510/core/rtw_chplan.c:2229-2260 | reconciling the list with the records, and storing a first request of the user, put no request in force: that is left to the selection |
| Cisr.PickIsMaximal | rtl8852cu-20240510/core/rtw_chplan.c:2316-2342 | a record is picked if any has a country; it is maximal, and has the current country code whenever a maximal record with the current status has |
| Cisr.PickIsFirst | rtl8852cu-20240510/core/rtw_chplan.c:2316-2342 | otherwise it is the first maximal one |
| Cisr.PickByStatus | rtl8852cu-20240510/core/rtw_chplan.c:2316-2342 | a record of an unknown country goes before one whose plan lacks the operating channel, that before one that applies |
| Cisr.PickOfHeard | rtl8852cu-20240510/core/rtw_chplan.c:1237-1315 | of the country elements heard: the worldwide plan if some country is not in the table, else the worldwide plan with the EDCCA modes of a country whose plan lacks the channel, else the plan of a country named, else nothing |
| Cisr.AlwaysInSync | rtl8852cu-20240510/core/rtw_chplan.c:2481-2534 | over every run, with changes of the mode, updates that skip the mark phase and other changes of the list in between: in per-link intersect mode the country-IE requests are the links' plans, each counted |
| Cisr.StepKeepsSync | rtl8852cu-20240510/core/rtw_chplan.c:2262-2314 | one call keeps that, whether or not it reaches the mark phase, and when it enters the mode |
| Cisr.OtherKeepsSync | rtl8852cu-20240510/core/rtw_chplan.c:2632-2713 | and so does any change that leaves plans and counts of country-IE requests alone |
| Cisr.UserKeepsCountryPart | rtl8852cu-20240510/core/rtw_chplan.c:2128-2166 | as the user's request does |
| Cisr.ReceivedIsWhole | rtl8852cu-20240510/core/rtw_chplan.c:1237-1315 | a received record has a country if and only if its plan is filled in |
| Cisr.SkippedUpdate | rtl8852cu-20240510/core/rtw_chplan.c:2262-2314 | of records of any kind: after an update that keeps their plans the requests still count the links if and only if no record gained or lost its country; received ones never do |
| Regulatory.RfCtl.ClearZeroRefReqs | rtl8852cu-20240510/core/rtw_chplan.c:2209-2227 | exactly the unreferenced requests are gone, the number follows, the result says if there were any |
| Regulatory.RfCtl.AddCountryIeReq | rtl8852cu-20240510/core/rtw_chplan.c:2229-2260 | counted or appended; true exactly if appended |
| Regulatory.RfCtl.AddFromPerLink | rtl8852cu-20240510/core/rtw_chplan.c:2442-2453 | all links' records added, row by row; true if and only if one had a new plan |
| Regulatory.RfCtl.AddFromScanned | rtl8852cu-20240510/core/rtw_chplan.c:2455-2479 | the same for scanned networks |
| Regulatory.RfCtl.UpdatePerLink | rtl8852cu-20240510/core/rtw_chplan.c:2262-2314 | which records change, and when that is reported |
| Regulatory.RfCtl.PickPerLink | rtl8852cu-20240510/core/rtw_chplan.c:2328-2342 | the double loop picks what Pick does |
| Regulatory.RfCtl.UpdateEffected | rtl8852cu-20240510/core/rtw_chplan.c:2322-2440 | the record in effect; change is reported if and only if its presence or its plan changed |
| Regulatory.RfCtl.MarkAndSweepReqs | rtl8852cu-20240510/core/rtw_chplan.c:2516-2531 | the list is reconciled with the records; true if and only if the set of plans changed |
| Regulatory.RfCtl.PrehdlCountryIe | rtl8852cu-20240510/core/rtw_chplan.c:2481-2534 | when the mark phase is reached in every mode, which record is in effect then, list, number and result, and that the call is a step of the runs above |
| Regulatory.RfCtl.PrehdlUser | rtl8852cu-20240510/core/rtw_chplan.c:2536-2630 | settings, cis_enabled, record in effect, the user's request, the country-IE plans left and the result of a user's command, in every mode; it is a step of the runs too, into the mode or out of it |
| Regulatory.RfCtl.UserCountryIe | rtl8852cu-20240510/core/rtw_chplan.c:2481-2534 | which record and which country-IE plans the handler leaves when called without a record, mark phase skipped or not |
| Regulatory.RfCtl.InitReq | rtl8852cu-20240510/core/rtw_chplan.c:1866-1879 | the state that every command keeps holds after start |
| UserCmd.UserSetAsideExactly | rtl8852cu-20240510/core/rtw_chplan.c:2552-2576 | a user's new plan alone is stored without being put into effect if and only if country elements count only under a worldwide plan, the new plan makes the configured country that or no longer that, and the handler run because of it leaves the country-IE plans it finds |
| UserCmd.UserSetAsideWithoutPlans | rtl8852cu-20240510/core/rtw_chplan.c:2552-2576 | with no country-IE plan and no record in effect the last means: they are turned off, or no record has a country |
| UserCmd.UserSetAsideSettled | rtl8852cu-20240510/core/rtw_chplan.c:2552-2576 | and in every state that commands leave: they are turned on while no record has a country, or off while there is no country-IE request |
| UserCmd.EffectExactly | rtl8852cu-20240510/core/rtw_chplan.c:2536-2630 | when any command is put into effect, by what it changes; invalid codes change no setting, but the mode and flags named with them count as changed |
| UserCmd.UserSetAside | rtl8852cu-20240510/core/rtw_chplan.c:2552-2576 | started worldwide, the US plan is set aside although it is the one that would apply |
| UserCmd.OutcomeIsCurrent | rtl8852cu-20240510/core/rtw_chplan.c:1723-1737 | after a command cis_enabled is on if and only if the source is Realtek and not switched off, and the mode asked for is always on, or on under a worldwide plan with the country asked for, or else the one before, being 00 |
| UserCmd.ConfiguredIs | rtl8852cu-20240510/core/rtw_chplan.c:1732-1733 | that country is the user's if there is a request of the user, else the initial one |
| UserCmd.OutcomeInEffect | rtl8852cu-20240510/core/rtw_chplan.c:2481-2534 | a command keeps that outside intersect mode the country-IE requests are the plan of the record in effect and nothing else, also if the mark phase is skipped |
| Regulatory.RfCtl.SelAndStatusUpdate | rtl8852cu-20240510/core/rtw_chplan.c:2632-2713 | a request is marked applied if and only if it has the highest source and its highest initiator or applies always; the status is their summary; country elements are enabled under a Realtek source not switched off, in one mode always, in the other if and only if the configured country is 00 |
| ChannelSet.Intersection | rtl8852cu-20240510/core/rtw_chplan.c:198-343 | which requests an enabled channel needs and where its flags come from: the union of those of the applied requests |
| ChannelSet.EnabledExactly | rtl8852cu-20240510/core/rtw_chplan.c:198-343 | a channel ends up enabled if and only if it is not of 5 GHz with 11a off, its number is not before the first zero of its exclusion list, and every applied request with a valid plan lists it without DIS or a disabled flag |
| ChannelSet.PassiveExactly | rtl8852cu-20240510/core/rtw_chplan.c:318-372 | an enabled channel is DFS if and only if some request says so, and passive if and only if some says so and no beacon hint counts: which it does under countries 00, 99 and 98 only, not on 2.4 GHz channels up to 11 and never on DFS channels |
| ChannelSet.OrderFree | rtl8852cu-20240510/core/rtw_chplan.c:250-285 | order and repetition of requests change neither the enabled channels nor their flags |
| ChannelSet.OrderFreeFlags | rtl8852cu-20240510/core/rtw_chplan.c:250-285 | nor the flags of the others, the databases marking no channel as disabled |
| ChannelSet.SixGigExactly | rtl8852cu-20240510/core/rtw_chplan.c:198-248 | a 6 GHz channel gets the flags it would get with the 6G validity table, whatever the plans list, if and only if it is excluded or every applied code is in both tables or in neither |
| ChannelSet.SixGigInDriver | rtl8852cu-20240510/core/rtw_regdb_rtk.c:466-500 | if all codes of the 6G table are in the other one, as in both databases: for 6G codes always, and no other code loosens anything |
| ChannelSet.SixGigEscapes | rtl8852cu-20240510/core/rtw_chplan.c:203-206 | tables with which a channel stays enabled against a valid plan that does not list it |
| ChannelSet.HintClears | rtl8852cu-20240510/core/rtw_chplan.c:318-338 | a beacon hint takes NO_IR from an enabled channel and nothing else |
| ChannelSet.NoLaxerExactly | rtl8852cu-20240510/core/rtw_chplan.c:287-355 | with more applied requests a channel is at least as restricted, beacon hint and status included, if and only if they do not turn its hint on: rule off before and on after, NO_IR before, and the channel allowing hints after |
| ChannelSet.MonotoneExactly | rtl8852cu-20240510/core/rtw_chset.c:169-212 | adding applied requests never makes an invalid channel and bandwidth valid if and only if it turns on the hint of no channel |
| ChannelSet.MonotoneValidity | rtl8852cu-20240510/core/rtw_chset.c:169-212 | in particular if the hint rule is not turned on; the rule goes by the country of the status |
| ChannelSet.HintAppears | rtl8852cu-20240510/core/rtw_chplan.c:350-354 | Germany applied besides Antarctica: channel 12, passive before, becomes valid as an active one |
| ChannelSet.ChSet.ApplyFromRtkPriv | rtl8852cu-20240510/core/rtw_chplan.c:198-248 | every channel's flags after one request |
| ChannelSet.ChSet.ApplyFromOs | rtl8852cu-20240510/os_dep/linux/wifi_regd.c:540-564 | the same for a request of the OS |
| ChannelSet.ChSet.ApplyRegdReqs | rtl8852cu-20240510/core/rtw_chplan.c:250-285 | and after all applied ones |
| ChannelSet.ChSet.ApplyRegulatory | rtl8852cu-20240510/core/rtw_chplan.c:287-343 | the final channel depends on band, number and hint only, not on its old flags; enable_ch_num counts the enabled ones |
| ChannelSet.CountEnabledIs | rtl8852cu-20240510/core/rtw_chplan.c:314-324 | which is the number of entries without the DIS flag |
| ChplanHdl.ApplyRequests | rtl8852cu-20240510/core/rtw_chplan.c:2735-2744 | after a change of the list: marks, status and every channel as the requests marked now and their status make it; what every command keeps stays |
| ChplanHdl.SetChplanUser | rtl8852cu-20240510/core/rtw_chplan.c:2715-2744 | a user's command as a whole: without effect status and channels stay; list, links, source and cis_enabled stay in step |
| ChplanHdl.SetChplanCountryIe | rtl8852cu-20240510/core/rtw_chplan.c:2715-2744 | the same for country elements; outside intersect mode the country-IE requests stay the plan of the record in effect |
| ChplanHdl.UsSetAside | rtl8852cu-20240510/core/rtw_chplan.c:2552-2576 | a call that stores US and leaves status and channels worldwide |
| ChannelSet.ChSet.SearchBch | rtl8852cu-20240510/core/rtw_chset.c:132-147 | the first enabled entry of that channel, -1 if there is none |
| ChannelSet.ChSet.IsBchbwValid | rtl8852cu-20240510/core/rtw_chset.c:169-212 | valid if and only if there are constituent channels and each is enabled and fits |
| ChannelSet.ValidExactly | rtl8852cu-20240510/core/rtw_chset.c:169-212 | that is: each constituent channel has an enabled entry, not passive unless the caller allows it (the primary one besides), without the flag against HT40 upper at even or lower at odd places, 80 or 160 MHz for such widths |
| ChannelSet.IsExclChs | rtl8852cu-20240510/core/rtw_chplan.c:106-132 | membership in the zero-terminated list |
| SupportedChannels.RunsRoundTrip | rtl8852cu-20240510/core/rtw_chset.c:296-324 | expanding the runs gives the channels in order, but for zeros; without zeros no two neighbours can be merged |
| SupportedChannels.ElementRoundTrip | rtl8852cu-20240510/core/rtw_chset.c:289-337 | reading the element's bytes and expanding gives exactly the enabled channels outside 6 GHz, but for a channel 0 |
| SupportedChannels.ChannelsInOrder | rtl8852cu-20240510/core/rtw_chset.c:296-308 | these are the channels of the entries without the DIS flag and not of 6 GHz, in order, each entry once |
| SupportedChannels.WriteRuns | rtl8852cu-20240510/core/rtw_chset.c:296-329 | the loop over fch and lch writes the runs |
| SupportedChannels.SetSptChsIe | rtl8852cu-20240510/core/rtw_chset.c:289-337 | ID, length byte, data, returned position and added length; nothing if no channel is listed |
| StaQueue.Conservation | rtl8852cu-20240510/core/rtw_ap.c:7351-7542 | in every interleaving the removed objects followed by the queued ones are the requests in order, the counter is the queue's length as a u8, and an object in hand is the head |
| StaQueue.StepKeepsInv | rtl8852cu-20240510/core/rtw_ap.c:7351-7678 | every enqueue and handler step keeps that |
| StaQueue.CounterExactly | rtl8852cu-20240510/core/rtw_ap.c:7639-7678 | the counter is the length if and only if that is below 256 |
| StaQueue.ServeExactly | rtl8852cu-20240510/core/rtw_ap.c:7406-7520 | what each event does to the head of the queue: successful start events and unknown ones leave queue, counter and token, a failed one gives up, an end event removes exactly the head and keeps the token if and only if the counter is not 0 and the next request could be started |
| StaQueue.HandlerKeeps | rtl8852cu-20240510/core/rtw_ap.c:7376-7398 | requests that come between the two sections of the handler change neither the object nor the event it serves |
| StaQueue.FreeingExactly | rtl8852cu-20240510/core/rtw_ap.c:7381-7542 | the handler is about to free the token if and only if at some point it gave up, by an empty queue, a station gone, a failed call or an end event with nothing left, and has not freed it since |
| StaQueue.TokenStays | rtl8852cu-20240510/core/rtw_ap.c:7527-7542 | a token that is out goes, and the state becomes idle again, only by freeing it after that |
| StaQueue.SmoothEnds | rtl8852cu-20240510/core/rtw_ap.c:7471-7542 | in runs without failed calls exactly the end events take requests out, one each |
| StaQueue.OneToken | rtl8852cu-20240510/core/rtw_ap.c:7612-7678 | a token is requested only while none is out |
| StaQueue.StrandedExactly | rtl8852cu-20240510/core/rtw_ap.c:7513-7542 | idle means empty at every point of a run if and only if no request while idle is refused its token and no token is freed with more in the queue than what is in hand |
| StaQueue.StepStrands | rtl8852cu-20240510/core/rtw_ap.c:7639-7678 | the same for one step |
| StaQueue.LeftBehind | rtl8852cu-20240510/core/rtw_ap.c:7513-7542 | a run that ends idle with a request in the queue |
| Protection.ProtectionBits | rtl8852cu-20240510/core/rtw_ap.c:3851-4143 | over any run each counter is the number of stations with its flag; once a station without ERP has joined both protection bits are set if and only if some station has no ERP, before that the byte is the initial one |
| Protection.FlagsExactly | rtl8852cu-20240510/core/rtw_ap.c:3851-4143 | over any run each flag of a station says what its last join said, and the greenfield, 20 MHz and 40 MHz intolerance flags whether any join or report since it last left did |
| Protection.ProtectionExactly | rtl8852cu-20240510/core/rtw_ap.c:3851-4143 | each bit is right after a run if and only if it was clear at the start or a station without ERP has joined |
| Protection.EverIsJoined | rtl8852cu-20240510/core/rtw_ap.c:3851-4143 | there has been a station without ERP if and only if one has joined |
| Protection.ProtectionStays | rtl8852cu-20240510/core/rtw_ap.c:2102-2112 | a start with Use-Protection set that stays |
| Protection.StepKeepsCounted | rtl8852cu-20240510/core/rtw_ap.c:3851-4143 | joins, re-joins, leaves and reports keep the counters right |
| Protection.StepKeepsBits | rtl8852cu-20240510/core/rtw_ap.c:3227-3259 | the test for 1 suffices, since the element is written only when the counter reaches 1 or 0 |
| Protection.BarkerLags | rtl8852cu-20240510/core/rtw_ap.c:3251-3254 | the Barker bit says what held when the element was last written |
| Protection.BarkerExactly | rtl8852cu-20240510/core/rtw_ap.c:3227-3259 | it is right at every point of a run if and only if it was clear at the start and no event brings the first or takes the last station without short preamble without a write |
| Protection.StepLags | rtl8852cu-20240510/core/rtw_ap.c:3251-3254 | the same for one event |
| Protection.BarkerMissed | rtl8852cu-20240510/core/rtw_ap.c:3868-3890 | a station without short preamble that it does not show |
| Protection.ErpWritten | rtl8852cu-20240510/core/rtw_ap.c:3227-3259 | writing the bits changes the low three bits of the first byte of element 42 as told, and the lookup of no other element |
| Protection.ApLink.UpdateBcnErpInfo | rtl8852cu-20240510/core/rtw_ap.c:3227-3259 | the beacon with the bits written, if the BSS has started, ERP is enabled and the element is there |
| Protection.ApLink.UpdateOnStaJoin | rtl8852cu-20240510/core/rtw_ap.c:3851-4048 | every flag and counter, and the beacon, after a join or re-join |
| Protection.ApLink.UpdateOnStaLeave | rtl8852cu-20240510/core/rtw_ap.c:4050-4143 | the same after a leave |
| Protection.ApLink.JoinIsStep | rtl8852cu-20240510/core/rtw_ap.c:3851-4048 | which is the step of a run for each flag and counter |
| Protection.ApLink.LeaveIsStep | rtl8852cu-20240510/core/rtw_ap.c:4050-4143 | the same for a leave |
| Protection.ApLink.BeaconIsStep | rtl8852cu-20240510/core/rtw_ap.c:3227-3259 | the element's byte changes as in a step of a run |
| Protection.ApLink.ProcessBssCoex | rtl8852cu-20240510/core/rtw_ap.c:3670-3675 | the 40 MHz intolerance flag and counter after a report |

## Left out

- The submit-context handshake and the station queue are transition systems over values, since the interleaving is what matters there: commands and queue objects are numbered, a pointer is a flag or a number, and list links are not modelled.
- Allocation: it always succeeds; no out-of-memory path is modelled.
- jiffies are integers without wrap-around; locks are atomic sections, and the mutex of the handshake is always acquired.
- The NAT2.5 frame parsing around the database (IPv4, IPv6, IPX, AppleTalk, VLAN, DHCP): it builds the network addresses. Where `rtw_xmit.c` sets the cached entry is not modelled; the proofs take it null or in the table.
- PPPoE: `tag_len` is the host-order number; on a little-endian machine the code adds the unconverted field. The mode without relay tags and session packets are not modelled, and a buffer has at most 65555 bytes, so that the length field cannot wrap.
- Pppoe.Skb.InsertRelayTag: says nothing of bytes behind the tags, because the code overwrites padding there.
- `HashUnlink` clears the links of an entry before it is freed; a freed entry is simply no longer in the table.
- Regulatory database contents, country tables, what the OS says of a channel, and TX power limits are parameters; of the databases it is used that they give no other flags than NO_IR and DFS, and which codes are valid.
- Requests of the OS entering the list, settings that do not concern country elements, the EDCCA mode and the synchronous command path of `rtw_chplan.c`: the handshake is the one of `SubmitCtx.dfy`.
- The beacon-hint end time is one yes or no per channel; which channels form a bandwidth is given by `rtw_get_op_chs_by_bcch_bw`, a parameter.
- SupportedChannels.SetSptChsIe: takes the buffer as large enough, as the code does.
- Station leave does not clear the traffic map, and HT operation, mesh and P2P elements of the beacon are not updated.
- The ERP bits are written as arithmetic on the byte, not with bit operations.
- `rtw_ap_bchbw_decision`, `rtw_check_beacon_data`, frame transmission, timers, cfg80211 and PHL calls, string formatting, dumps and `/proc` files.
