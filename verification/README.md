# FST manager and A3xx command stream: a verified model

Two programs are modelled.

**The FST manager** moves Wi-Fi peers between the interfaces of a bond (Fast Session Transfer, IEEE Std
802.11ad-2012). Its layers, from the bottom:

- `FstTc` the traffic-control filters: a priority allocator and the masked 32-bit keys that match an address;
- `FstMux` (with the records of `FstMuxBooks`) the bonding multiplexer, which must act as a map from address to
  interface although it keeps a list of filter lists and a separate list of TC handles;
- `FstManager` the peers, sessions and active interfaces of a group, as objects changed in place by event handlers.
  Each handler is proved to compute a function of `FstSession`, which describes the same step on values;
- `FstRuns`, `FstStation` and `FstOutcomes` the theorems about every run of such steps and what each event brings about;
- `MultiBand` the walk over multi-band elements that tells whether two addresses belong to one peer;
- `Tpoll` the traffic poller, an integer filter with a hysteresis state machine; `FstCtrl` the in-place tokenizer.

**The A3xx submission path of the Adreno driver** compiles indirect buffers, context switches and timestamps into
packets on a ring.

- `Pm4` packets, their words, and the decoder; `A3xxGpu` an interpreter of the packets the driver may emit;
- `A3xxStream` what is emitted and what it means; `A3xxRuns` sequences of submissions;
- `A3xxRefusal` when a ring refuses a context switch and takes the command it was for;
- `A3xxBuild` and `A3xxRing` the builders that write words into buffers and the ring they end up in;
- `AdrenoIrq` the walk over the interrupt status.

What the outside world answers (the supplicant, netlink, files, the profiler, faults, the GPU's pace) is a parameter
of each step, so that the theorems hold for every answer. Link-loss timers are in units of 32 microseconds (section
10.32.2.2 of IEEE Std 802.11ad-2012).

Some results are about failures. The station and access-point handlers of `fst_manager.c` dereference a null
interface in exactly the situations `StationCrashesIff` and `AccessPointCrashesIff` name, and in the forced
non-compliant mode such a situation is reached within three connections (`ForcedStationReachesNull`,
`ForcedAccessPointReachesNull`). The walk over a truncated dump leaves its buffer in exactly the cases of
`WalkOnAnyBytes`. A session refused to a new peer leaves its map entry behind (`RefusedSessionLeaksIff`).
`a3xx_drawctxt_switch` ignores the result of the context switch; `ProperIffSwitchTaken` and `RunsAsItMustIff` say when
the buffers that follow run as they must, `RefusedSwitchMisattributes` shows them run as another context otherwise, and
`RefusalIsReached` that a ring gets there by its sizes alone. A filter deletion refused by the
kernel leaves a filter without handle (`DelFilter`).

Where the code and its comments differ the code is followed: `_fst_mgr_peer_set_active_iface` keeps the active
interface when the peer has no address on it, and a failed read of the byte counters stores an undefined value as the
previous total.

## Model

| member | source | states |
|---|---|---|
| FstRuns.MapOverRuns | fst-manager/fst_manager.c:1166-1523 | over every run of connect, disconnect, setup, established, state-change and transfer events, station or access point, whichever filter additions fail: the map is exactly { address of a peer on its active interface -> that interface }, and an active interface is one the peer is connected on; assumes of each connection the handler does not ignore that nobody else has its address and that a new peer whose entry the map took gets its session (OneOwner) |
| FstRuns.StepKeepsMapIff | fst-manager/fst_manager.c:526-572 | one event of any kind keeps that invariant if and only if it meets that condition |
| FstRuns.MapInvOverRunsIff | fst-manager/fst_manager.c:1166-1523 | the invariant holds throughout a run if and only if every event of it does |
| FstRuns.SetActiveLocal | fst-manager/fst_manager.c:526-572 | changing the active interface touches only map entries of that peer, leaves them right, succeeds exactly when the requested interface becomes active, and cannot fail on a connected interface when the filter is granted |
| FstRuns.NextIfaceIsMaximal | fst-manager/fst_manager.c:574-593 | the search finds nothing exactly when only the active interface is connected; otherwise a connected, non-active interface that no other one outranks |
| FstRuns.MapSize | fst-manager/fst_manager.c:526-572 | there are never more map entries than peers |
| FstRuns.RefusedSessionLeaksIff | fst-manager/fst_manager.c:1196-1204 | a new peer for which no session can be created: the map is left with an entry of nobody if and only if it took the entry |
| FstStation.SessionsOverRuns | fst-manager/fst_manager.c:595-659 | station, every run, whichever external calls fail: an initiated or established session leaves from the active interface, and a session in progress goes to a connected interface that differs from the old one and is never non-compliant |
| FstStation.StepKeepsSessions | fst-manager/fst_manager.c:1233-1421 | one event keeps that, and only a connection can make a handler dereference null |
| FstStation.BestBackupOverRuns | fst-manager/fst_manager.c:1210-1222 | station, every run, whichever external calls fail: a session that was set up and is not yet switching goes to the best connected interface besides the active one; a better one that connects replaces it |
| FstStation.LiveOverRuns | fst-manager/fst_manager.c:1233-1325 | station, filters and sessions granted to the peers there are (new ones may be refused), reports in order, OneOwner, no dump that is overread, fewer than 65534 peers: in every reachable state each peer has a connection and a connected active interface, and every next event is handled without a null dereference |
| FstStation.ForcedOverRuns | fst-manager/fst_manager.c:302-320 | station in forced non-compliant mode: in every reachable state the active interface has the highest priority among the connected ones |
| FstStation.StationCrashesIff | fst-manager/fst_manager.c:1225-1228 | station, any failures: a handler goes wrong if and only if it overreads a dump, or (dereferencing null) a peer without active interface but with a non-compliant session connects anew |
| FstStation.RefusedFilterStrands | fst-manager/fst_manager.c:302-320 | one refused filter makes such a peer: in forced mode a better interface connects and its map entry is refused |
| FstStation.ForcedStationReachesNull | fst-manager/fst_manager.c:1166-1228 | for every station in forced mode, three of its interfaces and any addresses there is a run from the start, with that one refusal, whose next connection dereferences null |
| FstStation.AccessPointCrashesIff | fst-manager/fst_manager.c:1221-1228 | access point, every run: a handler goes wrong if and only if it overreads a dump, or (dereferencing null) a known peer whose session is non-compliant connects anew; without the forced mode the latter never happens |
| FstStation.ForcedAccessPointCrashes | fst-manager/fst_manager.c:595-603 | in the forced mode the second connection of the first peer is such a step, whatever the elements that lead to it |
| FstStation.ForcedAccessPointReachesNull | fst-manager/fst_manager.c:1166-1228 | and it is reached: for every access point in forced mode, two of its interfaces and any addresses there is a run from the start whose second connection dereferences null |
| FstStation.OverreadsIff | fst-manager/fst_manager.c:922-948 | in terms of the dumps: a handler overreads one exactly when the scan for a new connection comes, before any link, to a connection of which a dump asked for is cut off before the bytes that are read of its last element |
| FstStation.TruncatedDumpIsReached | fst-manager/fst_manager.c:876-920 | from the start of every manager two connections are enough, with a dump of two bytes |
| FstStation.TimeoutGuardsTheBest | fst-manager/fst_manager.c:633-641 | a station asks for a positive link-loss timeout only when no connected interface outranks the active one, and with a backup interface |
| FstStation.TimeoutGuardsTheBestOverRuns | fst-manager/fst_manager.c:1553-1558 | station, every run, whichever external calls fail: as long as a session set up with a positive link-loss timeout is not switching, the peer is active on the best interface it has |
| FstStation.TimeoutIsExactIff | fst-manager/fst_manager.c:42-43 | the timeout is the configured one in units of 32 microseconds exactly up to 4294967 ms; beyond, the 32-bit product wraps |
| FstStation.RetriesBounded | fst-manager/fst_manager.c:1396-1420 | every run: the counter of repeated setups stays below the configured number |
| FstOutcomes.SetupIff | fst-manager/fst_manager.c:595-659 | without a session in progress a setup is initiated if and only if: station, not in forced mode, an active connected interface and another connected one, elements of the peer, a session held or creatable, and every call of the supplicant granted; then it leaves from the active interface for the first of the best others, with timeout 0 if that outranks the active one and its configured timeout in units otherwise; a session in progress is left alone |
| FstOutcomes.StateChangeBrings | fst-manager/fst_manager.c:1340-1421 | station or access point, in any state with the map invariant and fewer than 65534 peers: a reported switch makes the session's new interface active, if it is connected and the filter granted, any other reason leaves active interface and map alone; the reported session is gone and, unless it is given up, the next setup is tried as in SetupIff; no other peer changes |
| FstOutcomes.SwitchHandsOver | fst-manager/fst_manager.c:1370-1377 | in any state that keeps the map invariant: after the report of a switch the peer is active on the session's new interface, and of its addresses the map has exactly the one there, under that name |
| FstOutcomes.HandoversOverRuns | fst-manager/fst_manager.c:1340-1421 | station, after every run, whichever calls failed in it: every session in progress goes to an interface other than its old one and a report of its switch hands its peer over to it, if the filter is granted |
| FstOutcomes.LostLinksOverRuns | fst-manager/fst_manager.c:1262-1325 | and so does the loss of the link of an established session, if the transfer is granted, with the session in transition |
| FstOutcomes.SetupRequestBrings | fst-manager/fst_manager.c:1423-1523 | in such a state, an access point accepts a request exactly for two known interfaces, one peer known by both addresses, active on the old one or brought there, and a session that can be had; then the peer is active on the old interface and its session has the id, leaves from the old for the new one, and has timeout 0 exactly if the new one outranks or the request says 0 |
| FstOutcomes.RequestedSwitchHandsOver | fst-manager/fst_manager.c:1340-1523 | two events: an accepted request followed by the report of a switch hands the peer over to the requested new interface |
| FstOutcomes.TransferBrings | fst-manager/fst_manager.c:1898-1944 | in such a state whose sessions in progress say where they go (as OrderOverRuns has it), a transfer on demand: granted, it hands the peer over and the session is in transition; refused, the session is gone and the next setup is tried; one that names no established session that leaves from that interface changes nothing |
| FstOutcomes.DisconnectBrings | fst-manager/fst_manager.c:1233-1325 | in such a state, a disconnection: an established session that leaves from there moves the peer to its new interface if the transfer is granted; else a peer active there is active on the best interface left, sessions of that interface are gone, others stay, and the next setup is tried; dropped exactly when no connection is left and no switch was started |
| FstOutcomes.ConnectBrings | fst-manager/fst_manager.c:1166-1231 | station in such a state, one more connection of a known peer, handled without a null dereference: a session in progress stays unless the new interface outranks its target; otherwise the next setup is tried, or, one-sided, the peer moves at once to the best interface if that outranks the active one |
| FstOutcomes.ConnectToAccessPointBrings | fst-manager/fst_manager.c:1166-1231 | access point, likewise: the session of a peer is only reset when outranked, nothing else changes |
| FstOutcomes.EstablishBrings | fst-manager/fst_manager.c:1545-1566 | a session, and nothing else, becomes established |
| FstOutcomes.OrderOverRuns | fst-manager/fst_manager.c:1166-1523 | over every run of orderly events: a session in progress has a new interface and is compliant |
| FstRuns.PeerByOtherAddrIs | fst-manager/fst_manager.c:922-948 | the scan finds the first peer with a linked connection |
| FstRuns.AddrOfIs | fst-manager/fst_manager.c:513-524 | the address of the first connection on the interface |
| FstManager.Group.Handle | fst-manager/fst_manager.c:1526-1566 | one notification, or one request to transfer a session: computes the step of FstSession for the event it amounts to, and logs the event, so that the log of every group object is a run |
| FstManager.Group.MultiplexerFollowsPeers | fst-manager/fst_manager.c:526-572 | of any group object whose logged events meet OneOwner: the multiplexer beneath the group maps exactly the addresses of the peers on their active interfaces |
| FstManager.Group.FrameReachesTheActiveInterface | fst-manager/fst_manager.c:526-572 | of any such group object, access point with queues assigned: a frame to the address of a peer on its active interface meets a filter and gets the queue of that interface and no other; a frame to any other address meets none |
| FstManager.Group.SetActiveIface | fst-manager/fst_manager.c:526-572 | computes SetActive on the peer and the map of the multiplexer beneath, keeps the group in order |
| FstManager.Peer.GetNextIface | fst-manager/fst_manager.c:574-593 | the loop computes the search NextIfaceIsMaximal is about |
| FstManager.Peer.GetAddrOfIface | fst-manager/fst_manager.c:513-524 | the loop finds the first address on the interface |
| FstManager.Peer.CheckCompliance | fst-manager/fst_manager.c:661-686 | a session is non-compliant exactly in forced mode or when no connection of the peer has multi-band elements |
| FstManager.Peer.DelIface | fst-manager/fst_manager.c:703-713 | removes the first connection on the interface and no other |
| FstManager.Session.Setup | fst-manager/fst_manager.c:195-299 | the first refusal of the supplicant ends the configuration; a non-compliant session is configured locally only; computes Configure, whose outcome SetupIff states |
| FstManager.Group.TryToInitiateNextSetup | fst-manager/fst_manager.c:595-659 | computes TryNext on the peer, creating a session if it has none; when that sets one up, and which, is SetupIff |
| FstManager.Group.PeerSessionDeinit | fst-manager/fst_manager.c:715-723 | takes the session off the list and off the peer, keeping the correspondence of both |
| FstManager.Group.PeerInit | fst-manager/fst_manager.c:739-784 | a new peer with one connection, active on it, holding a new session |
| FstManager.Group.PeerBySession | fst-manager/fst_manager.c:1355-1361 | every session on the list is held by exactly one peer, so that the lookup asserted non-null cannot fail |
| FstManager.Group.IndexByAddr | fst-manager/fst_manager.c:840-854 | the first peer known by the address |
| FstManager.Group.IndexByOtherAddr | fst-manager/fst_manager.c:922-948 | the first peer with a connection on another interface such that one of the two dumps names the other address; none where the scan overreads a dump |
| FstManager.Group.IsPeerConnected | fst-manager/fst_manager.c:950-966 | true exactly when some peer has that connection |
| FstManager.Group.OnPeerConnected | fst-manager/fst_manager.c:1166-1231 | required not to dereference null (the exact cases are in FstStation), the state after the handler is the one FstSession defines; peers and sessions stay in one-to-one correspondence and the map of the multiplexer is the one of the state |
| FstManager.Group.OnPeerDisconnected | fst-manager/fst_manager.c:1233-1325 | likewise; after a switch was started the session it dereferences still exists |
| FstManager.Group.OnSessionEstablished | fst-manager/fst_manager.c:1545-1566 | likewise, for the peer whose session has the id |
| FstManager.Group.OnSessionStateChange | fst-manager/fst_manager.c:1340-1421 | likewise, with the retry counter; where that takes the peer is StateChangeBrings |
| FstManager.Group.OnSetupRequest | fst-manager/fst_manager.c:1423-1523 | likewise; a station ignores setup requests; the session an access point answers with is stated by SetupRequestBrings |
| FstManager.Group.OnTransferRequest | fst-manager/fst_manager.c:1898-1944 | likewise; 0 exactly when the session is established on that old interface |
| MultiBand.WalkFindsAdvertisedAddress | fst-manager/fst_manager.c:876-920 | for any concatenation of well-formed elements the walk stays in the buffer and answers true exactly when an element of the leading multi-band run advertises the address |
| MultiBand.DumpNamesAdvertisedAddresses | fst-manager/fst_manager.c:876-920 | the same from the hexadecimal dump |
| MultiBand.FirstElement | fst-manager/fst_manager.c:856-874 | the bytes read for an element are the address its role makes it advertise: BSSID for an access point, trailing station address otherwise |
| MultiBand.IsOtherAddrInMbies | fst-manager/fst_manager.c:876-920 | for any dump: the loop terminates, answers what the walk defines, and reads past the end exactly where the walk does |
| MultiBand.WalkOnAnyBytes | fst-manager/fst_manager.c:896-913 | any bytes are complete multi-band elements and a rest: the walk finds the address in one of those; or else it looks at the rest, and leaves the buffer if and only if that is a truncated element without the bytes that are read of it |
| MultiBand.DumpOverreadIff | fst-manager/fst_manager.c:876-920 | the same of hexadecimal dumps: exactly which ones are overread |
| MultiBand.TwoBytesAreOverread | fst-manager/fst_manager.c:896-908 | the dump 9e16 is, whatever the address |
| MultiBand.UnhexHexOf | fst-manager/fst_manager.c:893-894 | a hexadecimal dump is read back as the bytes it was made of |
| MultiBand.CaseIsIgnored | fst-manager/fst_manager.c:893-894 | capital letters in a dump are read as small ones |
| FstMux.Mux.AddMapEntry | fst-manager/fst_mux_bonding.c:389-427 | as a finite map, in every state and for any answers: overwrites the key, or removes it when the addition or the priorities refuse; fails exactly then or for an unknown interface; is consistent afterwards exactly if a previous filter could be deleted; keeps the kernel steering unless the undoing of a half-installed filter is refused, too |
| FstMux.Mux.DelMapEntry | fst-manager/fst_mux_bonding.c:429-441 | removes exactly one key; a refused deletion leaves the mux inconsistent and is reported |
| FstMux.Mux.DelFilter | fst-manager/fst_mux_bonding.c:196-221 | removes the filter and its handle; refused without force, the filter stays with a cleared handle and no consistent reading of the records exists any more |
| FstMux.Mux.UnregisterIface | fst-manager/fst_mux_bonding.c:443-455 | removes the interface and exactly the keys mapped to it, whatever the kernel answers |
| FstMux.Mux.RegisterIface | fst-manager/fst_mux_bonding.c:346-387 | adds an interface without keys, refuses a known name |
| FstMux.Mux.PurgeIfaceFilters | fst-manager/fst_mux_bonding.c:223-240 | removes exactly the keys the interface owns |
| FstMux.Mux.Stop | fst-manager/fst_mux_bonding.c:457-466 | empties the map, the handle list and the kernel table; queue ids start over |
| FstMux.Mux.Start | fst-manager/fst_mux_bonding.c:315-344 | interfaces get consecutive queue ids; succeeds exactly when every assignment and the TC start do |
| FstMux.Mux.GetFilterByDa | fst-manager/fst_mux_bonding.c:91-104 | the nested search finds the filter of a mapped address and its interface, and only that |
| FstMux.Mux.FrameGoesToTheMappedInterface | fst-manager/fst_mux_bonding.c:411-421 | access point after a start: a frame to a mapped address selects the queue of its interface and of no other, a frame to any other address meets no L2DA filter |
| FstMux.Mux.StartAssignsQueues | fst-manager/fst_mux_bonding.c:315-328 | queue ids are distinct, positive and fit the queue mapping |
| FstMuxBooks.Books.CountsAgree | fst-manager/fst_mux_bonding.c:53-77 | there are as many mapped addresses as TC handles |
| FstMuxBooks.Books.LinkAgrees | fst-manager/fst_mux_bonding.c:411-424 | adding a filter for a new address together with its handle keeps filters, map and handles one to one |
| FstMuxBooks.Books.UnlinkAgrees | fst-manager/fst_mux_bonding.c:196-221 | removing a filter together with its handle keeps them one to one |
| FstMuxBooks.Books.ClearedHandleDisagrees | fst-manager/fst_tc.c:1085-1088 | a filter kept with a cleared handle contradicts any agreement |
| FstTc.Tc.GetLowestUnusedPrio | fst-manager/fst_tc.c:95-115 | the least priority not in use, or the maximum when all are |
| FstTc.NewPriorityAtMostCountPlusOne | fst-manager/fst_tc.c:95-115 | pigeonhole: a new priority is at most the number of filters plus one |
| FstTc.ExhaustedIffFull | fst-manager/fst_tc.c:1002-1007 | allocation fails exactly when all 65534 priorities are in use |
| FstTc.PrioritiesBoundedByPeak | fst-manager/fst_tc.c:1002-1088 | over any history of additions and deletions priorities stay distinct and none exceeds the largest number of filters held so far |
| FstTc.Tc.AddL2daFilter | fst-manager/fst_tc.c:997-1065 | installs the rule at the least unused priority and undoes it when a later request fails; succeeds exactly when netlink grants all requests and a priority is unused; is one step of the histories of PrioritiesBoundedByPeak |
| FstTc.Tc.DelL2daFilter | fst-manager/fst_tc.c:1067-1091 | the handle leaves the list whatever netlink answers, as one step of those histories; 0 exactly when it grants all requests |
| FstTc.StationRuleMatchesExactlyItsAddress | fst-manager/fst_tc.c:318-353 | the two masked words match a frame exactly when its destination is the address, whatever the headroom holds |
| FstTc.UniversalRuleMatchesEverything | fst-manager/fst_tc.c:354-362 | the key a station installs matches every frame |
| Tpoll.AverageStaysBetween | fst-manager/fst_tpoll.c:149-150 | on every run the average stays between the bounds of its start and the samples, and 32-bit arithmetic gives the exact average |
| Tpoll.NoOverflow | fst-manager/fst_tpoll.c:137-153 | no product or sum leaves the int range for samples of at most 21474836 bytes/ms |
| Tpoll.RangeIsSharp | fst-manager/fst_tpoll.c:149-150 | one byte/ms more overflows when alpha is 100 |
| Tpoll.AverageClimbs | fst-manager/fst_tpoll.c:137-153 | under sustained traffic the average gains at least one per sample until it exceeds the high threshold |
| Tpoll.HighTrafficIsReported | fst-manager/fst_tpoll.c:153-186 | and high traffic is reported within max(5, high + 2) valid samples of a restart |
| Tpoll.LowTrafficIsReported | fst-manager/fst_tpoll.c:168-171 | from high traffic on, samples below the low threshold are reported low within avg - low + 1 samples |
| Tpoll.ReportsAlternate | fst-manager/fst_tpoll.c:158-186 | high and low reports strictly alternate between restarts |
| Tpoll.NoEarlyReport | fst-manager/fst_tpoll.c:153-156 | no report in the first four valid samples after a restart |
| Tpoll.HighTrafficDwells | fst-manager/fst_tpoll.c:149-171 | if k idle samples would leave the average at the low threshold or above, no low report comes within k samples of a high one |
| Tpoll.ReportedIff | fst-manager/fst_tpoll.c:153-186 | exactly when a sample is reported, by averages and earlier reports alone: from the fifth after a restart, high if the average exceeds its threshold and the last report was not high, low likewise |
| Tpoll.SampleIsExactIff | fst-manager/fst_tpoll.c:137-147 | the sample of a usable reading is the number of whole bytes per ms since the previous step, if and only if that fits an int; the first after a restart is 0 |
| Tpoll.SamplesTelescope | fst-manager/fst_tpoll.c:122-193 | over any run of usable readings the samples times their ages add up to the bytes transmitted, up to less than the sum of the ages |
| Tpoll.AllUsableIff | fst-manager/fst_tpoll.c:128-135 | readings are usable throughout exactly when none failed and the counters never went back |
| Tpoll.HighLoadIsReported | fst-manager/fst_tpoll.c:122-186 | from the counters: if after a restart at least t bytes per ms are transmitted throughout, t far enough above the threshold, the poller reports high traffic within max(5, high + 2) usable readings, whatever unusable ones come between |
| Tpoll.LowLoadIsReported | fst-manager/fst_tpoll.c:122-186 | likewise low traffic within avg - low + 1 usable readings, once less than low is transmitted |
| Tpoll.MbpsIsExactIff | fst-manager/fst_tpoll.c:44 | a configured megabit per second is 125 bytes per ms exactly up to 17179869, where no 64-bit product and no int wraps |
| Tpoll.SettingsAreValidIff | fst-manager/fst_tpoll.c:258-288 | up to there the accepted thresholds are exactly the positive ones in order |
| Tpoll.Poller.Timer | fst-manager/fst_tpoll.c:122-193 | a usable reading takes one sample step; a failed one or counters that went back change nothing but the byte count kept; it divides by zero exactly for a usable reading after the first, less than a millisecond later; what its samples are is SampleIsExactIff |
| Tpoll.Poller.Init | fst-manager/fst_tpoll.c:258-288 | succeeds exactly for a positive interval, alpha in 1..100 and 0 < low < high |
| Tpoll.Poller.Resume | fst-manager/fst_tpoll.c:242-256 | restarts the filter when a group is polled |
| FstCtrl.ParseList | fst-manager/fst_ctrl.c:99-120 | for any NUL-terminated buffer: -1 exactly when there are more than size words; otherwise the starts of exactly the maximal non-space runs, in order, each a C string ended inside the buffer |
| FstCtrl.ParseListProc | fst-manager/fst_ctrl.c:129-159 | fails exactly for replies that start with FAIL or have more than 256 words; otherwise hands out C strings that are exactly the words, non-empty and free of spaces |
| FstCtrl.CutJoinedIff | fst-manager/fst_ctrl.c:99-120 | joining strings and cutting gives them back if and only if they are non-empty and free of spaces |
| AdrenoIrq.IrqCallbacks | graphics-kernel/adreno.c:415-438 | terminates; calls what Due lists and nothing else; handled exactly when the status is non-zero |
| AdrenoIrq.DueIsExact | graphics-kernel/adreno.c:415-438 | that list is exactly the set, enabled bits with a handler, in descending order, once each |
| Pm4.DecodeEncodeAll | graphics-kernel/adreno_pm4types.h:201-209 | emitted packets are read back as emitted, and what follows them as if it stood alone |
| Pm4.HeaderFields | graphics-kernel/adreno_pm4types.h:201-209 | the fields of type-0 and type-3 headers can be read back |
| A3xxStream.PagetableSwitchMeans | graphics-kernel/adreno_a3xx_ringbuffer.c:104-152 | the switch never waits forever, writes the whole TTBR0 while the bus is halted and the pipeline idle, and leaves the bus running, the TLB and the cached state invalidated and no other bit of the halt register changed; every wait is for a value its mask lets through |
| A3xxStream.SwitchMeans | graphics-kernel/adreno_a3xx_ringbuffer.c:315-347 | the context switch stores the context id and switches the table exactly when the page tables differ |
| A3xxStream.IbCommandsMean | graphics-kernel/adreno_a3xx_ringbuffer.c:378-423 | in any GPU state the stream runs the wanted buffers in order and once each and leaves all else as it was; which those are is IbCommandsRunThePicked |
| A3xxStream.IbCommandsRunThePicked | graphics-kernel/adreno_a3xx_ringbuffer.c:400-423 | said without the emitter's test: what runs, in order and once each, are the buffers at ascending positions that are exactly those of buffers without the skip mark, preambles only if the submission asks for them, none under the skip flag |
| A3xxStream.IbCommandsFit | graphics-kernel/adreno_a3xx_ringbuffer.c:386-423 | it decodes to well-formed packets and fits the 4 + 4n words |
| A3xxStream.WrappedMeans | graphics-kernel/adreno_a3xx_ringbuffer.c:230-295 | start timestamps before, end timestamps after the caller's commands |
| A3xxStream.WrappedFits | graphics-kernel/adreno_a3xx_ringbuffer.c:176-313 | at most 44 words around the caller's, for every flag set; exactly 44 with everything on |
| A3xxStream.SwitchCommandsFit | graphics-kernel/adreno_a3xx_ringbuffer.c:315-347 | the commands of a switch take 11 words, and 50 more for a new table, of a 64-word buffer |
| A3xxRuns.CommandMeans | graphics-kernel/adreno_a3xx_ringbuffer.c:176-313 | in any state of the GPU a command the ring takes executes to its end and leaves exactly this trace: fixup, profiler buffer, start timestamps, the wanted buffers in order, profiler buffer, end timestamps |
| A3xxRuns.SwitchMeansTrace | graphics-kernel/adreno_a3xx_ringbuffer.c:315-347 | likewise for the context switch, on a running bus |
| A3xxRuns.SubmissionMeans | graphics-kernel/adreno_a3xx_ringbuffer.c:349-453 | whatever is refused: what the ring received of a submission executes to its end, leaves exactly the trace of its parts, and the circumstances the next buffers meet |
| A3xxRuns.TraceOverRuns | graphics-kernel/adreno_a3xx_ringbuffer.c:349-453 | the exact trace of every run of submissions and resets, whatever is refused |
| A3xxRuns.BuffersRunProperly | graphics-kernel/adreno_a3xx_ringbuffer.c:349-453 | every run whose attempted context switches are taken: each submission leaves exactly the trace it must, its wanted buffers in order and once each, with its own TTBR0, as its own current context, bus released and TLB clean |
| A3xxRuns.WhateverRanWasProper | graphics-kernel/adreno_a3xx_ringbuffer.c:378-453 | such runs: apart from the NOP buffer that stalls the prefetch, whatever ran is a buffer of some submission and ran with the table of its context, as that context, bus released and TLB clean |
| A3xxRuns.TablesSwitchedSafely | graphics-kernel/adreno_a3xx_ringbuffer.c:104-152 | every run, whatever is refused: page tables are only switched with the bus halted, protection off and the pipeline idle |
| A3xxRuns.ActiveContextIsSetUp | graphics-kernel/adreno_a3xx_ringbuffer.c:349-373 | runs whose switches are taken: the GPU has the table and the id of the active context |
| A3xxRuns.SubmissionsTerminate | graphics-kernel/adreno_a3xx_ringbuffer.c:26-152 | every run, whatever is refused: in each of its states every submission executes to its end |
| A3xxRuns.ProperIffSwitchTaken | graphics-kernel/adreno_a3xx_ringbuffer.c:349-373 | from any state: the wanted buffers run as they must if and only if the switch was made and its table written (or there already, the TLB clean), or none was made and the GPU has that table and context already |
| A3xxRuns.RunsAsItMustIff | graphics-kernel/adreno_a3xx_ringbuffer.c:349-453 | the same over every run, whatever is refused, with the state before computed from the answers to the driver since the last reset |
| A3xxRuns.RefusedSwitchMisattributes | graphics-kernel/adreno_a3xx_ringbuffer.c:349-373 | for any two contexts, buffer and GPU a run of three submissions: the switch to the second context is refused and its command taken, and it submits again; both times its buffer runs with the table and as the first context |
| A3xxRefusal.RefusedThenTakenIff | graphics-kernel/adreno_a3xx_ringbuffer.c:349-453 | with a GPU that fetches nothing in between there are ring pointers at which a switch is refused and its command taken if and only if the command is smaller than the switch (and fits an empty ring) |
| A3xxRefusal.RefusedThenTakenLater | graphics-kernel/adreno_a3xx_ringbuffer.c:349-453 | with one that does, for every command that fits an empty ring |
| A3xxRefusal.RefusalIsReached | graphics-kernel/adreno_a3xx_ringbuffer.c:349-453 | for any two contexts with different page tables and any buffer, a new ring with a slow GPU gets there by submissions alone, and the buffer runs with the wrong table, as the wrong context |
| A3xxRuns.StampsOfOne | graphics-kernel/adreno_a3xx_ringbuffer.c:193-200 | within a submission the timestamp of the switch is below that of the command, and both are new |
| A3xxRuns.TimestampsIncrease | graphics-kernel/adreno_a3xx_ringbuffer.c:193-200 | the ring timestamps stored strictly increase over every run of the driver, whatever is refused, up to the 32-bit wrap |
| A3xxRuns.StampsAreSeen | graphics-kernel/adreno_a3xx_ringbuffer.c:276-295 | over every run: the values stored in the ring's end-timestamp word are exactly these, in that order and once each |
| A3xxRuns.OneInterruptEach | graphics-kernel/adreno_a3xx_ringbuffer.c:249-295 | over every run, whatever is refused: each context switch and each command the ring received raises exactly one interrupt, in that order, with the store of its end timestamp, when its buffers have completed and nothing is left to flush, but perhaps for a buffer of the profiler; nothing else interrupts |
| A3xxRuns.StreamMakesARun | graphics-kernel/adreno_a3xx_ringbuffer.c:378-453 | executing what any submissions issue as one stream is a run |
| A3xxBuild.EmitPagetableSwitch | graphics-kernel/adreno_a3xx_ringbuffer.c:104-152 | the words written are the encoding of the switch |
| A3xxBuild.BuildSwitch | graphics-kernel/adreno_a3xx_ringbuffer.c:315-344 | likewise for the context switch, in 64 words |
| A3xxBuild.BuildIbs | graphics-kernel/adreno_a3xx_ringbuffer.c:378-423 | likewise for the buffers of a command, in 4 + 4n words; which of them run is IbCommandsRunThePicked |
| A3xxBuild.EmitPrologue | graphics-kernel/adreno_a3xx_ringbuffer.c:202-245 | likewise for what precedes the caller's commands |
| A3xxBuild.EmitEpilogue | graphics-kernel/adreno_a3xx_ringbuffer.c:249-304 | likewise for what follows them |
| A3xxRing.Ring.AllocSpace | graphics-kernel/adreno_ringbuffer.c:67-104 | contiguous space, found exactly when there is room and where Place says; when the tail is too short a NOP covers it |
| A3xxRing.RoomIff | graphics-kernel/adreno_ringbuffer.c:67-104 | room is found exactly when the words can be appended behind the pending ones, or at the start with the tail given up, such that exactly those become pending and none is dropped |
| A3xxRing.Ring.AddCmds | graphics-kernel/adreno_a3xx_ringbuffer.c:176-313 | the ring receives the wrapped packets behind all pending ones, the write pointer moves by exactly what was emitted, the timestamp advances even when the ring is full |
| A3xxRing.Ring.DrawctxtSwitch | graphics-kernel/adreno_a3xx_ringbuffer.c:349-373 | the context becomes active whatever the ring answers, unless it is detached; the ring takes the switch exactly if 55 words more than it needs fit between its pointers |
| A3xxRing.Ring.SubmitCmd | graphics-kernel/adreno_a3xx_ringbuffer.c:378-453 | computes the effect the run theorems are about, with both answers about room decided by the pointers of the ring, the GPU fetching any number of packets between the two allocations, and moves the write pointer accordingly |
| A3xxRing.RingMakesARun | graphics-kernel/adreno_a3xx_ringbuffer.c:378-453 | every ring, whatever it refused: executing what it issued since the active context was last forgotten takes a GPU through a run of the submissions it was given, so that all of the above holds of it |
| A3xxRing.Ring.SetActiveCtxNull | graphics-kernel/adreno.c:1534-1549 | the reset forgets the active context |
| A3xxRing.QueueWraps | graphics-kernel/adreno_ringbuffer.c:84-95 | a NOP up to the end of the ring keeps the pending words a sequence of whole packets |
| A3xxRing.SameMeaning | graphics-kernel/adreno_ringbuffer.c:84-95 | those NOPs do not change what the stream means |

## Left out

- Several groups: lookups by interface or session id search one group; the retry counter is static in the source and shared by all groups.
- `fst_manager_enslave`: it restarts the multiplexer without reinstalling the filters of peers that stay (fst-manager/fst_manager.c:1804-1805), so the map is stated between restarts.
- FstRuns.MapOverRuns: what the map is in runs that do not meet OneOwner; MapInvOverRunsIff shows that the invariant then fails.
- FstManager.Group.SetActiveIface: in the group deletions of filters are taken to be granted; AddMapEntry and DelMapEntry state what refused ones do.
- FstTc.Tc.AddL2daFilter: a rule the kernel still holds at the new priority, left there by a refused removal, is replaced in the model; the kernel may keep both or, with NLM_F_EXCL, refuse.
- FstManager.Group.AnswerSetup: the new session goes on the list after the old one left it, not before; the list ends up the same.
- FstStation.ForcedOverRuns: stations only; an access point never fills the new interface of a session.
- Interfaces are compared by value, where the source compares pointers; names within a group are unique there.
- What an overread dump makes the manager do: the step has no result, as when it dereferences null.
- Link-loss detection files, `fst_cfgmgr` callbacks other than their veto on a connection, and all logging.
- The assertions that a station installs at most one filter (fst-manager/fst_mux_bonding.c:213-216, fst-manager/fst_tc.c:1033).
- Multicast, EAPOL and receive de-duplication filters, which share low priority numbers with the L2DA filters.
- Writing queue ids to the bond's file, except for its failure.
- Tpoll.Poller.Timer: overflow of 32-bit arithmetic, undefined in C, is modelled as wrap-around; the sample counter is unbounded.
- FstCtrl.ParseListProc: the item parsers and the output buffer.
- Allocation failure everywhere, and the lifetime of freed nodes and reference counts.
- A3xxGpu.Do: contents of indirect buffers, data caches, the prefetch parser that CP_WAIT_FOR_ME holds back, bits of the awaited registers other than bit 0, and the acknowledgement delay; a wait for a value the hardware model cannot reach, or operands the driver does not emit, are errors.
- Protected mode after the power-on fixup, which the source turns off and leaves to the submission's own flag.
- `KGSL_MEMSTORE_MAX` is computed for pages of 4096 bytes.
- The scratch word cleared by `adreno_set_active_ctxs_null`, snapshots, power states, preemption and the dispatcher.
- `fst_rateupg.c`, `fst_ini_conf.c`, `fst_cfgmgr.c`: the reports of the poller and the answers of the configuration are values.
