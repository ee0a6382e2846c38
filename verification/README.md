# A verified model of the rtl8852be driver core

This project models five stateful parts of the rtl8852be Wi-Fi driver in Dafny and proves what
they keep, undo and promise over all inputs, all runs or all interleavings.

- **Command layer** (`CmdProtocol`, `DfsPoll`). Callers submit commands, wait with a timeout and may
  detach; runners execute, complete and free them. Every memory access of the code is a step of its
  own, so the model sees an access to a freed object or to a frame that has returned. `DfsPoll` is the
  radar-detection poll: a timer, a queued command, and the channel availability check (CAC).
- **NAT2.5 bridge** (`Nat25Records`, `Nat25`, `PppoeTags`, `Pppoe`, `Vlan`, `DhcpChecksum`). A hash
  table of intrusively linked entries with ageing; PPPoE relay tags (RFC 2516, Appendix A); VLAN
  headers taken out and put back by overlapping copies; the UDP checksum patch for DHCP requests.
- **SoftAP** (`Elements`, `Tim`, `Beacon`, `ChannelSwitch`, `Stations`, `KeepAlive`, `AclPool`).
  In-place editing of the beacon's information elements, TIM encoding, the channel-switch countdown,
  station flags against BSS counters, expiry of silent stations, and the address access-control pool.
- **HE PPE thresholds** (`HePpe`). A cursor over three-bit fields that cross octets.
- **Channel plan** (`ChannelPlan`). The built channel set against the direct query, and beacon hints.

`Options`, `Bytes` and `Seqs` hold small shared definitions. Code that updates buffers, records and
lists in place is modelled by classes, arrays and loops, each proved against a function on values;
the theorems are about those functions. `dafny verify dfyconfig.toml` checks the whole project.

## Where the code and its promise part

- `rtw_enqueue_cmd` frees an oversized command and may still report success; a command code past the
  handler table is skipped but still indexes the table; an interrupted lock call goes on without the
  lock. `CmdProtocol.SafeIffClean` says exactly when all interleavings are safe.
- A radar poll that cannot be queued, or is dropped by the dispatcher, is not made up for while detection
  stays enabled (`DfsPoll.PollingNeverDiesIff`). Disabling keeps a channel recorded for others, so
  enabling on it starts no CAC.
- `_rtw_memcmp` of this driver is true on equality, while `rtw_br_ext.c` is written for the opposite
  convention. The database is modelled with the convention as a parameter. The `Shipped` lemmas of
  `Nat25Records` say exactly when the shipped code keeps addresses distinct, routes replies and refines
  the map; a fresh database already fails.
- The relay tag's length is stored in network order and read back raw. A little-endian host with enough
  room therefore forwards the request with octets of its own memory in it; without room it refuses it.
  An empty relay tag of the client is lost on any host.
- `rtw_set_tim_ie` returns its length in an octet, which wraps for a bitmap part of 251 octets. The place
  of a new TIM element is computed for beacons with a DS parameter set; without one it is inside the next
  element.
- The reset of `num_sta_no_ht` after an AP scan breaks the counter if and only if a station carries
  the flag. The Barker bit is rewritten only with the protection bits and can be stale, and so can the
  channel width, which is rewritten only with the HT operation mode or for a coexistence frame.
- The DHCP patch adds the whole new flags word to the checksum; it is right only for old flags 0.
- The PPE parser reads every field from two octets, so it reads one octet past most conforming elements;
  the values do not depend on it.

## Model

| member | source | states |
|---|---|---|
| `CmdProtocol.SafeIffClean` | core/rtw_cmd.c:310-405 | in every interleaving of any number of callers and runners no freed object, dead frame or missing table entry is touched, if and only if waiting requests are not oversized, codes are in the table, and signals cannot break the lock while anybody waits |
| `CmdProtocol.StepKeepsInv` | core/rtw_cmd.c:326-405 | every enabled step of a clean configuration is fault-free and keeps the protocol invariant of all commands |
| `CmdProtocol.OnlyLiveMemoryIsTouched` | core/rtw_cmd.c:326-405 | said of every step of every interleaving of a clean configuration: an object is used only while live, a context only through its link, in a frame whose caller has not returned, and before it is completed, the table only inside |
| `CmdProtocol.AtMostOnce` | core/rtw_cmd.c:326-405 | each submit context is completed at most once, each object freed at most once and exactly once when its runner is done; a waiting caller reports success only if its handler succeeded |
| `CmdProtocol.CallersAreTold` | core/rtw_cmd.c:701-714 | stated on the steps of any interleaving: a caller that does not wait is told whether its command was accepted; one that was woken is told of a success if and only if its handler succeeded; one that timed out is told of a failure, or, if it looks at the status, of a success if and only if the handler succeeded and the context was completed before the return; one whose command was refused is told so |
| `CmdProtocol.NoTimeOutAfterCompletion` | core/rtw_xmit.c:9395-9405 | no caller times out once its context is completed |
| `CmdProtocol.ChoiceIffExecuted` | core/rtw_phl_cmd.c:28-61 | in every interleaving a finished command has come to the choice of its callback if and only if its handler was reached, and was freed without it if and only if it was dropped |
| `CmdProtocol.EveryRunEnds` | core/rtw_cmd.c:206-239 | no interleaving is longer than 18 steps per request, whatever the configuration |
| `CmdProtocol.NeverStuck` | core/rtw_xmit.c:9384-9445 | no deadlock and no lost wake-up: while anything is unfinished a step other than a timeout is enabled |
| `CmdProtocol.MaximalRun` | core/rtw_cmd.c:701-714 | a run that cannot go on has every caller returned and every object freed exactly once |
| `CmdProtocol.OversizedWaitIsUnsafe` | core/rtw_cmd.c:214-228 | a waiting caller with an oversized command can write into the freed object |
| `CmdProtocol.UnknownCodeIsUnsafe` | core/rtw_cmd.c:386-398 | a command code past the table makes the runner read past the table |
| `CmdProtocol.InterruptedLockIsUnsafe` | include/osdep_service_linux.h:357 | an interrupted lock call lets the runner complete a context in a frame that has returned |
| `CmdProtocol.InterruptedRunnerIsUnsafe` | core/rtw_cmd.c:374-383 | so does an interrupted lock call of the runner alone: it writes the status into a frame that has returned |
| `DfsPoll.PollingNeverDiesIff` | core/rtw_cmd.c:3875-4010 | over every run, enabled detection always has a timer armed or a poll queued, if and only if no timer fires in vain while no other poll is queued, and no last queued poll is dropped while no timer is armed |
| `DfsPoll.DroppedPollIsFatal` | core/rtw_phl_cmd.c:20-54 | a run in which the dispatcher frees the one queued poll and detection stays on with nothing to come |
| `DfsPoll.RunIsConsistent` | core/rtw_cmd.c:4012-4091 | over every run enabled excludes supervision by others, and disabled means no timer, no CAC and no radar pending |
| `DfsPoll.StepKeeps` | core/rtw_cmd.c:3875-4091 | each step keeps that, and keeps the poll alive exactly if it is not one of the two fatal ones |
| `DfsPoll.LostUntilDisabled` | core/rtw_cmd.c:4034-4042 | a lost poll is not brought back by enabling again, only after disabling |
| `DfsPoll.CacLasts` | core/rtw_mlme_ext.c:874-897 | a started CAC waits for its whole time across clock wrap, is over at most two ticks later, and is never mistaken for stopped |
| `DfsPoll.EnableStartsCacIff` | core/rtw_cmd.c:4012-4052 | enabling starts a CAC, which then lasts its time, exactly if it is not bypassed and radar was pending, no channel was on record or the range is new; a bypass stops a CAC; otherwise its times stay |
| `DfsPoll.DisableStopsAll` | core/rtw_cmd.c:4054-4091 | disabling leaves no timer, CAC or pending radar, and which channel is then on record |
| `DfsPoll.RadarRestartsCac` | core/rtw_cmd.c:3875-3934 | radar found by a poll makes the next enable start a CAC on whatever channel, and stays pending until then |
| `DfsPoll.CheckEndsAtFirstPoll` | core/rtw_cmd.c:3936-3965 | over any polls that find nothing, the CAC goes on exactly as long as each poll is before its end and none is told to stop it once begun, and is stopped by the first other one |
| `DfsPoll.StaleChannelSkipsCac` | core/rtw_cmd.c:4054-4091 | a run in which a channel left on record by a disable makes a later enable start no CAC |
| `DfsPoll.Rfctl.RdEnable` | core/rtw_cmd.c:4012-4052 | enabling the poll on the driver's fields is the enable step |
| `DfsPoll.Rfctl.RdDisable` | core/rtw_cmd.c:4054-4091 | disabling it is the disable step |
| `DfsPoll.Rfctl.TimerHandler` | core/rtw_cmd.c:4004-4010 | the timer handler is the fire step |
| `DfsPoll.Rfctl.DropPoll` | core/rtw_phl_cmd.c:28-53 | a dropped poll command is the lose step: nothing sets the timer |
| `DfsPoll.Rfctl.RdHandler` | core/rtw_cmd.c:3875-3968 | the poll command is the poll step, for radar found and for none |
| `DfsPoll.Rfctl.StartCac` | core/rtw_mlme_ext.c:874-897 | the CAC times are set as the reset function says, skipping the reserved value |
| `Nat25Records.StepRefinesMap` | core/rtw_br_ext.c:415-523 | with the comparison the bridge code is written for, every insert, lookup, short cut refresh and expiry pass keeps all buckets consistent (right bucket, no address twice, use counts positive) and acts on the finite map from address to record key by key |
| `Nat25Records.RunRefinesMap` | core/rtw_br_ext.c:642-727 | the same over every run |
| `Nat25Records.ReplyRouting` | core/rtw_br_ext.c:415-523 | with that comparison, after an insert every lookup of the key within the ageing time yields the inserted MAC, through any other traffic and expiry passes |
| `Nat25Records.TouchRenews` | core/rtw_xmit.c:5800-5849 | a refresh through the short cut starts the ageing time anew, with the MAC on record |
| `Nat25Records.LifeOfAKey` | core/rtw_br_ext.c:415-727 | from the insert of an absent key over lookups while fresh and expiry passes once aged: the key is there exactly as long as there were no more passes than lookups, with its MAC |
| `Nat25Records.AnswerIs` | core/rtw_br_ext.c:415-485 | a lookup reports a hit if and only if the key has a record, aged or not, and writes a MAC, that of the record, if and only if the record is also younger than the ageing time (until the clock makes it look young again) |
| `Nat25Records.HashIsParity` | core/rtw_br_ext.c:330-381 | the bucket of an address is, bit by bit, the parity of the octets that name it, by its kind |
| `Nat25Records.FreshSurvives` | core/rtw_br_ext.c:642-727 | a fresh record is never freed or redirected, and gains exactly one use at every lookup of its key |
| `Nat25Records.AgedIsRemovedOnTime` | core/rtw_br_ext.c:642-727 | an aged record that is neither inserted again nor refreshed through the short cut is removed at exactly the expiry pass that takes its last use |
| `Nat25Records.ExpiredMeansAged` | core/rtw_br_ext.c:145-162 | within one clock period a record counts as expired exactly from the ageing time on, until half a period later |
| `Nat25Records.HitsAgreeIff` | os_dep/osdep_service_linux.c:58-65 | the two comparison conventions report a hit alike exactly if the bucket is empty or holds the key and another key |
| `Nat25Records.InsertsAgreeIff` | core/rtw_br_ext.c:488-523 | the two conventions insert alike exactly into an empty bucket, or where both records they would change already say what is inserted |
| `Nat25Records.ShippedKeepsDistinctIff` | core/rtw_br_ext.c:488-523 | with the shipped helper an insert keeps addresses distinct if and only if the bucket does not hold the key and nothing else |
| `Nat25Records.ShippedRoutesIff` | core/rtw_br_ext.c:415-523 | with the shipped helper a lookup right after an insert answers the inserted MAC if and only if the bucket holds another key |
| `Nat25Records.ShippedAnswerIs` | core/rtw_br_ext.c:415-485 | with the shipped helper a lookup reports a hit if and only if the bucket holds another key, and answers with the first such record if it is young enough |
| `Nat25Records.ShippedRoutingFails` | core/rtw_br_ext.c:415-523 | with the shipped helper the first key of an empty bucket is never answered |
| `Nat25Records.ShippedStepAgreesIff` | core/rtw_br_ext.c:415-727 | the shipped code does to every key what the map demands if and only if the event meets a bucket where the inverted comparison does not matter: nothing fresh under the key or the first other key on a lookup; on an insert an empty bucket, the key alone with one use, or records that already say it |
| `Nat25Records.ShippedStepKeepsConsistentIff` | core/rtw_br_ext.c:415-727 | the shipped code keeps the database consistent if and only if it does not insert a key beside itself |
| `Nat25Records.ShippedRunRefinesIff` | core/rtw_br_ext.c:415-727 | over every run the shipped code stays consistent and refines the map at every step if and only if each event meets those conditions |
| `Nat25Records.ShippedHelperDuplicates` | core/rtw_br_ext.c:488-523 | with the shipped helper two inserts of one key into an empty bucket leave exactly two records of it, so addresses are not distinct |
| `Nat25.LinkChain` | core/rtw_br_ext.c:384-398 | linking an entry in front keeps the chain acyclic with correct back links |
| `Nat25.UnlinkChain` | core/rtw_br_ext.c:400-412 | unlinking through the back link removes exactly that entry and keeps the rest linked |
| `Nat25.Table.Link` | core/rtw_br_ext.c:384-398 | the table stays valid and the chain gets the entry in front |
| `Nat25.Table.Unlink` | core/rtw_br_ext.c:400-412 | the table stays valid and the chain loses that entry only |
| `Nat25.Table.Insert` | core/rtw_br_ext.c:488-523 | the linked table after an insert holds the records the record-level insert gives |
| `Nat25.Table.LookupAndReplace` | core/rtw_br_ext.c:415-485 | the answer and the linked table are those of the record-level lookup: a hit exactly if the key has a record (with the shipped helper: if the bucket holds another key), a MAC exactly if it is also not expired |
| `Nat25.Table.RouteIp` | core/rtw_br_ext.c:800-828 | the destination an IP frame leaves with: the MAC of a fresh record, its own if the record has aged, and without a record broadcast or the bridge address by the last octet of the IP address |
| `Nat25.Table.Expire` | core/rtw_br_ext.c:642-727 | an expiry pass over the linked table, freeing while walking, is the record-level pass; `scdb_entry` never dangles |
| `Nat25.Table.Cleanup` | core/rtw_br_ext.c:613-639 | cleanup empties every chain and `scdb_entry` |
| `Nat25.Table.RememberScdb` | core/rtw_br_ext.c:1561-1584 | the shortcut entry is set only to an entry linked in the table |
| `Nat25.Table.TouchScdb` | core/rtw_xmit.c:5800-5849 | a refresh through the short cut entry changes the stamp of that linked entry only |
| `Nat25.Table.Handle` | core/rtw_br_ext.c:415-727 | any event on the linked table has the effect of the record-level step, for either helper |
| `Nat25.Table.RunAll` | core/rtw_br_ext.c:415-727 | over every run of events, short cut settings and short cut traffic the linked table stays valid and holds the records of the record-level run of these events with the refreshes in between |
| `PppoeTags.RoundTrip` | core/rtw_br_ext.c:1133-1246 | a reply echoing the inserted tag anywhere is routed to the requesting client, and carries exactly the client's own relay tag in its place if and only if that tag was absent or not empty |
| `PppoeTags.EchoIsOurs` | core/rtw_br_ext.c:1204-1246 | the bridge finds its tag in the reply and cuts it where it stood, all other tags staying |
| `PppoeTags.OursIff` | core/rtw_br_ext.c:1204-1246 | the relay tag of a reply is taken for the bridge's if and only if the bridge could have made it for some client around some relay data |
| `PppoeTags.EchoIs` | core/rtw_br_ext.c:1204-1246 | ... and then that client is the destination, and that relay data the tag left in its place |
| `PppoeTags.RelayedIs` | core/rtw_br_ext.c:1133-1173 | the tags of a relayed request: the bridge's tag in front around the client's first relay tag, which may have up to 28 octets, then all other tags in order |
| `Pppoe.Skb.FindTag` | core/rtw_br_ext.c:87-102 | on any frame, well formed or not, the loop is the walk along the length fields, which may leave the buffer |
| `Pppoe.WalkFindsFirst` | core/rtw_br_ext.c:87-102 | on well-formed tags the walk never leaves the buffer and finds the first tag of the kind, or that there is none |
| `Pppoe.Skb.AddTag` | core/rtw_br_ext.c:105-122 | with room, a big-endian host puts the tag in front of the others with the length field right; a little-endian host puts 256 times the length in octets in front, from the tag buffer on, and counts them; without room the frame is untouched |
| `Pppoe.LittleEndianOverreads` | core/rtw_br_ext.c:105-122 | the copy stays inside the tag buffer exactly on a big-endian host |
| `Pppoe.OverrunIsNoRelay` | core/rtw_br_ext.c:105-122 | the frame a little-endian host forwards begins with the right tag and is the frame of no relayed request |
| `Pppoe.Skb.PullAndMerge` | core/rtw_br_ext.c:124-143 | takes the octets out if and only if they are all there |
| `Pppoe.Skb.InsertRelay` | core/rtw_br_ext.c:1133-1173 | for a PADI or PADR: relayed exactly if the host is big-endian, the own relay tag fits and there is room, then tags, own relay data and length are those of the relayed request; forwarded with foreign octets exactly on a little-endian host with room for them; each other outcome says when it happens and what is left of the frame |
| `Pppoe.Skb.LookupRelay` | core/rtw_br_ext.c:1204-1246 | a PADO or PADS is accepted if and only if its first relay tag is one the bridge could have made; then it goes to the client named there, with the relay data put into that tag in its place, all other tags and both length fields right; otherwise, as for the tag of another relay, the frame is untouched |
| `Pppoe.Skb.ReplyReachesClient` | core/rtw_br_ext.c:1204-1246 | on octets: the echoed reply reaches the client with its own relay tag restored |
| `Vlan.Skb.Strip` | core/rtw_br_ext.c:1410-1421 | the overlapping copy takes exactly the VLAN header out and returns its tag control information |
| `Vlan.Skb.Restore` | core/rtw_br_ext.c:1450-1456 | the overlapping copy puts a VLAN header behind the addresses of whatever frame is there |
| `Vlan.Skb.Pass` | core/rtw_br_ext.c:1410-1456 | strip, lookup and restore change the destination address and nothing else, tagged or not; frames to a group address pass untouched |
| `Vlan.Inverse` | core/rtw_br_ext.c:1414-1456 | putting back what was taken out gives the frame |
| `Vlan.InverseBack` | core/rtw_br_ext.c:1414-1456 | taking out what was put in gives the frame and the tag control information |
| `Vlan.RedirectCommutes` | core/rtw_br_ext.c:1423-1456 | redirecting under the missing header is redirecting the whole frame |
| `DhcpChecksum.FlagBroadcast` | core/rtw_br_ext.c:1520-1558 | in an IP frame with a UDP datagram, and with the feature on, exactly the flags and the checksum of a DHCP request change, if its answer was to be unicast, as the patch function says |
| `DhcpChecksum.FlaggedOnTheWire` | core/rtw_br_ext.c:1520-1558 | octet by octet and for either byte order of the host: a datagram is changed if and only if it has the two ports, the cookie and a clear first flag bit, and then in that bit and the checksum only |
| `DhcpChecksum.Fold` | core/rtw_br_ext.c:1548-1550 | the folding loop ends with the representative modulo 65535 |
| `DhcpChecksum.ChecksumSurvivesIff` | core/rtw_br_ext.c:1540-1552 | a request with a valid checksum stays acceptable if and only if its old flags were 0, or its checksum equals the new flags |
| `DhcpChecksum.OtherFlagsBreakChecksum` | core/rtw_br_ext.c:1540-1552 | a request with other flags set whose valid checksum the patch makes unacceptable |
| `DhcpChecksum.AbsentChecksumIff` | core/rtw_br_ext.c:1540-1552 | a request without a checksum gets one that is acceptable if and only if the rest sums to zero or the new flags are all ones |
| `DhcpChecksum.AcceptedInAnyOrder` | core/rtw_br_ext.c:1546-1552 | acceptance does not depend on the byte order in which the host reads the words |
| `Elements.ParseEncode` | core/rtw_ieee80211.c:330-354 | the element list is read back from its octets |
| `Elements.EncodeParse` | core/rtw_ieee80211.c:330-354 | octets that parse are the octets of the parsed list |
| `Elements.AddTouchesOneId` | core/rtw_ap.c:167-233 | adding changes no element of another id, nor their order |
| `Elements.RemoveTouchesOneId` | core/rtw_ap.c:235-270 | removing changes no element of another id |
| `Elements.AddedKeepsAscending` | core/rtw_ap.c:167-233 | adding keeps ids ascending |
| `Elements.RemovedKeepsAscending` | core/rtw_ap.c:235-270 | removing keeps ids ascending |
| `Elements.AddedIsFound` | core/rtw_ap.c:167-233 | what was added is the first of its id, at its place |
| `Elements.AddedIs` | core/rtw_ap.c:167-233 | an addition replaces the first element whose id is not smaller if it has the id and a body, puts the new one in front of it if it has another id and the one before has a body, and does nothing in all other cases |
| `Elements.RemovedIs` | core/rtw_ap.c:235-270 | a removal takes out the first element of the id if it has a body, and nothing otherwise |
| `Elements.RemoveUndoesInsert` | core/rtw_ap.c:167-270 | removing undoes a fresh insertion, octet for octet, if and only if the inserted element has a body |
| `Elements.SplicedIsReadIff` | core/rtw_ieee80211.c:330-354 | octets of an element put into a list are read as an element by the walk if and only if they were put at a boundary |
| `Beacon.Bss.GetIe` | core/rtw_ieee80211.c:330-354 | the octet walk finds the first element of an id |
| `Beacon.Bss.AddBcnIe` | core/rtw_ap.c:167-233 | editing the octets in place adds the element to the list, stated by index and id: the first element whose id is not smaller is replaced, or the new one put in front of it, or nothing happens in the two cases where the code gives up; fixed fields and length stay right, whenever the result fits |
| `Beacon.Bss.RemoveBcnIe` | core/rtw_ap.c:235-270 | editing the octets in place removes the first match with a body |
| `Beacon.Bss.UpdateBcnTim` | core/rtw_ap.c:87-165 | the TIM element is replaced, or inserted where the computed place is a boundary, all other elements staying; at any other place the octets are put in all the same; behind the end the length grows by that of the element, from the old end on; with a part of 251 octets it is lost |
| `Beacon.TimUpdatedIs` | core/rtw_ap.c:87-165 | stated by index: the first TIM element is replaced, or a new one put in at the computed place, or the old one taken out once its length wraps |
| `Beacon.StationsReadTheirBits` | core/rtw_ap.c:48-165 | every station reads its own bit in the first TIM element of the updated beacon, with DTIM count 0 and period 1 |
| `Beacon.TimHeadIs` | core/rtw_ap.c:116-136 | the computed place: the lengths of SSID and supported rates, 0 for a missing one, and three octets |
| `Beacon.PlaceIsBoundaryIff` | core/rtw_ap.c:116-136 | behind SSID and supported rates the computed place is a boundary if and only if the next element has a body of one octet, as a DS parameter set has |
| `Beacon.MissingDsSwallowsTim` | core/rtw_ap.c:116-136 | behind any SSID and rates, with any other element next, the TIM octets land inside it and are not read |
| `Tim.FindBounds` | core/rtw_ap.c:56-70 | the two scans find the shortest part of the bitmap the encoding allows |
| `Tim.BoundsUnique` | core/rtw_ap.c:56-70 | there is only one such part |
| `Tim.SetTimIe` | core/rtw_ap.c:48-85 | the octets written are the TIM element of that part, the return value their number modulo 256 |
| `Tim.TimIsLossless` | core/rtw_ap.c:48-85 | for every bitmap and every AID, a station decoding the element reads exactly its bit, for parts up to 252 octets; id, length, count and period stand where they should |
| `Tim.LosslessOnlyUpTo252` | core/rtw_ap.c:48-85 | for a longer part some AID is read wrongly |
| `Tim.ReturnedLength` | core/rtw_ap.c:48-85 | the returned length is right if and only if the part has at most 250 octets, and when that is |
| `ChannelSwitch.Ap.UpdateCsaIe` | core/rtw_ap.c:3178-3244 | one call on the beacon octets is one step of the countdown, and says when a beacon has to be sent |
| `ChannelSwitch.DuringCountdown` | core/rtw_ap.c:3178-3244 | the k-th update of n leaves the element showing n-k+1, if it can be inserted, and no other element changed |
| `ChannelSwitch.AnnouncedOctets` | include/rtw_csa.h:19-22 | the announced body has the mode, the new channel and the number of beacons left at its three octets |
| `ChannelSwitch.CountdownEnds` | core/rtw_ap.c:3178-3244 | the switch is done at exactly update n+1 with the element list as at the start, and stays so, if a channel is named or the element could be inserted; otherwise never |
| `ChannelSwitch.UpdatesAreTold` | core/rtw_ap.c:3178-3244 | which updates of a countdown tell their caller to send a new beacon |
| `ChannelSwitch.ChangesAreTold` | core/rtw_ap.c:3178-3244 | no update changes an element without telling |
| `ChannelSwitch.ExistingIsCounted` | core/rtw_ap.c:3217-3244 | an announcement that was there before keeps its mode and channel and shows the count of the countdown |
| `ChannelSwitch.ExistingIsRemoved` | core/rtw_ap.c:3217-3244 | it is taken out at exactly update n+1, which ends the switch |
| `ChannelSwitch.ForeignIsLeft` | core/rtw_ap.c:3178-3244 | one of another length is left alone and the switch never ends |
| `ChannelSwitch.Ap.CountDownAll` | core/rtw_ap.c:3178-3244 | one update more than the count, made on the beacon buffer, ends the switch with every octet of the beacon as at the start |
| `Stations.Ap.Drive` | core/rtw_ap.c:3551-3830 | over every run of arrivals, joins, leaves and coexistence frames every counter is the number of stations with its flag; the ERP protection bits and the operation mode octet of the HT operation element say, bit by bit, which kinds of stations there are; the other bits of the ERP octet stay; the width bits are those of the width in use; no leave warns; the flags are those of the events; and the Barker bit is the one of the rewrites on the way |
| `Stations.OwnHistory` | core/rtw_ap.c:3551-3830 | each station carries what its own history of events says |
| `Stations.FlagsOfLastJoin` | core/rtw_ap.c:3551-3711 | the preamble, non-ERP, slot and no-HT flags of a station are what its last join said |
| `Stations.LastingFlags` | core/rtw_ap.c:3662-3704 | the greenfield, 20 MHz and 40 MHz flags are there exactly if some join or coexistence frame since the station came has declared them |
| `Stations.ComesAndGoesBlank` | core/rtw_ap.c:3747-3830 | a station that left is unknown, and one that comes carries nothing |
| `Stations.BarkerBitIsOfLastRewrite` | core/rtw_ap.c:2964-2996 | after a run the Barker bit says whether stations with long preambles were there at the last rewrite, when the first non-ERP station came or the last one went |
| `Stations.NoRewriteKeepsBarkerBit` | core/rtw_ap.c:2964-2996 | a run without such a rewrite leaves the bit |
| `Stations.Ap.constructor` | core/rtw_ap.c:4156-4197 | a fresh AP has exact counters |
| `Stations.Ap.Join` | core/rtw_ap.c:3551-3745 | flags of the joining station as its capabilities say, no counter drifts, HT operation mode and element refreshed, and the Barker bit is honest afterwards exactly if this join rewrote the ERP octet or the old bit already was |
| `Stations.Ap.Leave` | core/rtw_ap.c:3747-3830 | all flags cleared, no counter drifts, exactly when it warns, HT operation mode and element refreshed, exactly when the Barker bit is honest afterwards, and the announced width right if the mode changed |
| `Stations.Ap.Coexistence` | core/rtw_ap.c:3348-3384 | a coexistence frame sets at most the 40 MHz flag of a known station, counted; if it is news the announced width is right afterwards, and if it was right it stays so |
| `Stations.Ap.UpdateErpInfo` | core/rtw_ap.c:2964-2996 | the ERP octet written in place, everything else unchanged |
| `Stations.Ap.SetNonErp` | core/rtw_ap.c:3601-3625 | although written only when the counter reaches 0 or 1, the protection bits stay honest |
| `Stations.Ap.ErpOctetIsHonest` | core/rtw_ap.c:2964-2996 | the test for exactly 1 is right whenever the writer runs |
| `Stations.Ap.HtOperationUpdate` | core/rtw_ap.c:3449-3518 | the HT operation mode is the stated function of the counters, and the result is 0 exactly if nothing changed; what that says of the stations is in `Stations.Ap.ModeIsSaid` |
| `Stations.Ap.ModeIsSaid` | core/rtw_ap.c:3430-3518 | the mode octet is 3 in its low bits if and only if some station is not HT, 2 if and only if none is so but some station of a 40 MHz AP has 20 MHz only, 1 if and only if neither but legacy networks are near; its other bits say whether non-greenfield stations and non-HT stations are near |
| `Stations.Ap.UpdateHtInfo` | core/rtw_ap.c:3004-3084 | the width octet and the operation mode of the HT operation element, written in place, everything else unchanged; a wide AP in the 2.4 GHz band then announces 20 MHz if and only if something speaks against 40 MHz |
| `Stations.WidthOctetKeeps` | core/rtw_ap.c:3037-3074 | only the width bits are written, and they stay those of the width in use |
| `Stations.ErpOctetKeeps` | core/rtw_ap.c:2964-2996 | only the low three bits of the ERP octet are written |
| `Stations.WidthGoesStale` | core/rtw_ap.c:3697-3723 | a run in which a station that does not tolerate 40 MHz joins and the beacon goes on announcing 40 MHz |
| `Stations.Ap.RefreshHtOp` | core/rtw_ap.c:3719-3723 | although the element is rewritten only when the mode has changed, it carries the mode |
| `Stations.Ap.Discard` | core/rtw_ap.c:475-481 | freeing a station without a leave makes every counter of a flag it carries drift by one |
| `Stations.Ap.ScanDone` | core/rtw_ap.c:1465-1471 | the reset after a scan keeps the counters exact if and only if no station carries the no-HT flag |
| `Stations.ScanLeavesMixedMode` | core/rtw_ap.c:1465-1471 | a run that ends with the counter at -1 and mixed mode announced with nobody associated |
| `Stations.BarkerBitGoesStale` | core/rtw_ap.c:3551-3625 | a run in which a station with long preambles joins and the Barker bit stays clear |
| `KeepAlive.SilentStationExpires` | core/rtw_ap.c:495-741 | from any count and try number a silent station is dropped at exactly one computed tick, with probes on or off, asleep or awake |
| `KeepAlive.FreshStationExpires` | core/rtw_ap.c:495-741 | with probes on, a silent station with full count E is dropped at exactly tick E+3 |
| `KeepAlive.HeardStationIsNeverListed` | core/rtw_ap.c:308-353 | a station heard in every E consecutive ticks is never listed for a check |
| `KeepAlive.AnsweringStationStays` | core/rtw_ap.c:670-741 | an otherwise silent station that answers its probes gets its full count back at each, every E ticks, with no try on record |
| `KeepAlive.AnswerClearsTries` | core/rtw_ap.c:693-700 | an answer gives the full count back and clears the tries that came to nothing before |
| `KeepAlive.AnswererIsNeverDropped` | core/rtw_ap.c:670-741 | with probes on, a station that answers every probe is never dropped |
| `KeepAlive.SleeperIsNeverDropped` | core/rtw_ap.c:602-618 | with probes off, neither is a sleeping station that answers its calls |
| `KeepAlive.CallIsAnswered` | core/rtw_mlme_ext.c:4556-4560 | the answer to a call ends it and starts the count anew |
| `KeepAlive.GoneIsLeftAlone` | core/rtw_ap.c:670-741 | a station that is no longer associated is not dropped |
| `KeepAlive.ExemptStaysForEver` | core/rtw_ap.c:541-547 | in certification mode nobody is dropped |
| `KeepAlive.Ap.TimerTick` | core/rtw_ap.c:495-741 | the two walks over the association list drop exactly the stations whose own tick says so, in order, and the counter is the list's length |
| `KeepAlive.Ap.Ticks` | core/rtw_ap.c:495-741 | over every run, who is listed and with what count is what each station's own history says |
| `AclPool.Pool.AddSta` | core/rtw_ap.c:2471-2541 | the address is appended; fails exactly if it is absent and the pool is full |
| `AclPool.Pool.FreeSlot` | core/rtw_ap.c:2511-2524 | the slot scan fails exactly if sixteen nodes are linked |
| `AclPool.Pool.RemoveSta` | core/rtw_ap.c:2543-2588 | exactly that address goes, or all of them for the broadcast address; slots, list and count agree |
| `AclPool.Pool.ClearAll` | core/rtw_ap.c:2405-2441 | clearing empties list, slots and count |
| `AclPool.RunIsBoundedSet` | core/rtw_ap.c:2471-2588 | over every run the pool is a set of at most sixteen addresses |
| `AclPool.MemberIff` | core/rtw_ap.c:2471-2588 | an address is in the pool exactly if some accepted addition was not followed by a removal |
| `HePpe.SetThresholds` | core/rtw_he.c:253-280 | every stream up to NSTS gets the thresholds a complete element gives, whatever lies behind it; the others, and all of them without the padding value, stay; the octet cursor never overflows |
| `HePpe.ConformingElementIsOverreadIff` | core/rtw_he.c:266-273 | a conforming element is read one octet past its end if and only if the number of selected pairs is positive and not 3 modulo 4 |
| `HePpe.ReadsBehindIff` | core/rtw_he.c:266-273 | the same for any octets no longer than their fields need |
| `HePpe.ReadPair` | core/rtw_he.c:266-277 | one threshold is read from bit 7 + 6 times the number of selected pairs before it, or is 0 |
| `HePpe.LeBitsIsField` | include/basic_types.h:178-179 | the shifted little-endian word gives the three bits wherever they lie |
| `HePpe.ParseInvertsEncoding` | core/rtw_he.c:253-280 | for every NSTS, mask and table, parsing the encoded element, whatever follows it, gives them back, resource unit j being selected by bit j of the mask |
| `ChannelPlan.GetCh` | core/rtw_chplan.c:459-532 | the plan search finds a channel exactly if its list has it, and with which flags for which channel range and attribute |
| `ChannelPlan.IsExcluded` | core/rtw_chplan.c:438-450 | the search of the exclusion list |
| `ChannelPlan.ExcludedMeans` | core/rtw_chplan.c:438-450 | a channel is excluded exactly if it is listed before any 0 |
| `ChannelPlan.BuildSet` | core/rtw_chplan.c:807-910 | the built set is the beginning of what the plan offers and the rules let through, in plan order, as long as there is room, zero behind; with room for all, an entry is in it exactly if the direct query finds it with those flags, its band is there, it is not excluded and DFS is permitted |
| `ChannelPlan.SetAgreesWithQuery` | core/rtw_chplan.c:807-910 | what is offered is exactly what the direct query finds, with the same flags, if the band is there, the channel not excluded and DFS permitted |
| `ChannelPlan.FlagsAgree` | core/rtw_chplan.c:492-527 | the flags computed by the build and by the query are the same |
| `ChannelPlan.BeaconHint` | core/rtw_chplan.c:1068-1092 | a hint changes at most the no-transmit flag of one entry, and counts whether it did |
| `ChannelPlan.HintsOnlyLift` | core/rtw_chplan.c:1056-1092 | after any hints an entry differs at most in the no-transmit flag, lifted exactly if hints are allowed, one came for its channel, and it is neither DFS nor channel 1 to 11 |

## Left out

- Discarded commands (`discard` true in `rtw_run_cmd`) and the response buffers of commands: they depend on callers outside this model.
- Spin locks and the order of memory accesses below a single C statement; `CmdProtocol` interleaves statements, `DfsPoll` serialises whole handlers.
- The range comparison inside `rtw_is_cac_reset_needed` and the waiting-time computation: they are inputs (`far`, `wait`, `cac`) of `DfsPoll`.
- DFS hardware access, beacon stop and resume, and `rtw_dfs_rd_en_decision`: its outcome is an input of `DfsPoll`.
- IPX, AppleTalk and IPv6 neighbour-discovery frames, and the parsing of ARP and IP frames in `nat25_db_handle`: they repeat the same database calls with other keys.
- The PPPoE mode without relay tags (`pppoe_connection_in_progress`) and PPPoE session frames.
- Pppoe.Skb.InsertRelay: is stated for frames whose tags are well formed and whose buffer is smaller than 64 KiB, and so is the reply side; malformed tags are followed only by the search.
- DhcpChecksum.FlagBroadcast: works on the UDP datagram as 16-bit words and takes a complete DHCP message, as the code does; where the datagram starts in the frame is not modelled.
- `rtw_remove_bcn_ie_ex`, which is `rtw_remove_bcn_ie` with a longer match.
- Stations.Ap.UpdateHtInfo: an HT operation element, if there is one, has at least four octets; over a shorter one the code writes into the next element. Over runs the width octet is that of the width in use; whether that width is the right one is stated for the calls that write it.
- Room in the beacon buffer is assumed, as the code assumes it; allocation in the buffer edits succeeds.
- Capability copying in the join path, frame parsing of coexistence reports, and the authentication queue of the expiry timer.
- Tim.TimIsLossless: the source's bitmaps have at most 251 octets, so the bound of 252 is always met there.
- KeepAlive.Ap.TimerTick: sending the probe is an input (whether it is answered); what freeing the station does to the counters is in `Stations`, and digesting the sleep queue is not modelled.
- HePpe.SetThresholds: octets behind the element must be readable as far as the code reads them; an element too short for its own fields is taken together with what follows it.
- The channel plan tables, the 6 GHz band, and the operating system as regulatory source.
- Channel selection, AP start and stop tokens, key handling, register access, frame transmission and manufacturing-test commands.
