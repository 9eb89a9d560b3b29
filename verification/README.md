# NF tracing and enforcement: a Dafny model with proofs

The repository instruments the access and mobility function (AMF) of a 5G core with eBPF
programs and a pair of preloaded libraries. This project models five of its components and
proves what they keep over whole runs.

1. **The XDP enforcer** (`amf/amf_xdp.c`): every NGAP packet is parsed, categorised, checked
   against a state machine held in a map, put through a fixed-window rate limiter per source
   address, and counted. `Frames`, `RateLimiter` and `Enforcer` hold the program; `EnforcerRuns` and
   `EnforcerCounts` prove that the shared maps refine one fold per source, that a flood is bounded
   (exactly, for every interval length, and with `LimiterEvictions` under any evictions), that nobody is
   dropped without a witness, and that the counters add up. `NgapTracer` is a second, separately written
   parser (`amf/xdp_ngap.c`), compared with the first on all byte strings.
2. **The state machine as byte-keyed maps** (`amf/sm_map.c`, `amf/amf_comm.c`): `CStrings` has the two
   writers of zero-padded keys, `StateMachine` the 29 nodes and 52 edges, `SmMap` the loader and the
   lookups, `StateDiagram` the diagram of the documentation, which the loaded maps are proved to follow,
   and `FsmRuns` the safety claims about every run of the machine.
3. **The extractors** (`amf/amf_func_load.bpf.c`): `UserMemory` and `NgapWalker` read a Go message out of
   raw memory, and `NgapLayout` lays any such message out in bytes; `JsonScan` takes five strings out of
   JSON text.
4. **The header injectors** (`ssl_wr/`): `Hpack`, `HpackReference`, `HpackFragments`, `Http2Rewrite`,
   `Http2Delivery` and `Http2Calls` for HTTP/2, `Http1Inject`, `Http1Streams` and `Http1Messages` for
   HTTP/1.1. They say exactly when the frames or messages of any list of calls arrive, and exactly when
   the peer reads the old headers and the new one (for HTTP/2 with the limits under "Left out").
5. **Connect and accept tracing** (`amf/amf_tracer.bpf.c`): `SyscallPairing` proves that interleaved
   enter and exit handlers never use one another's arguments.

Programs that update state in place are classes and methods here, each proved against a function of
its inputs and old state; the theorems are about those functions. A `char` stands for one byte in the
text components, `Byte` is 0..255 elsewhere. Integer widths are written out where the programs can
wrap: the 32-bit window count, the 64-bit clock difference and counters, 64-bit addresses, 24-bit
frame lengths, and the `int` lengths of the two injectors.

## Assumptions

- Steps are sequential. `count++` in the limiter is not atomic in the source; lost increments are not
  modelled.
- Theorems about the limiter over time suppose a clock that neither goes back nor wraps
  (`MonotoneClock`), and, except `NoFalseDrops`, fewer than 2^32 packets in a window (`CounterFits`).
- Eviction by an LRU map is an event of its own and may happen between any two packets. The refinement
  theorems and the counter theorems hold with it, and so does `FloodIsBoundedUnderEviction`.
  `FloodIsBounded`, `QuietSourceIsNeverDropped` and `EveryDropIsDeserved` need the limiter entry of that one
  source kept; `StateIsFoldOfOwnLabels` and `StateIsMachineState` need its state entry kept;
  `FlagsAreAllButFirst` needs no state entry evicted, and `FlagsCountRepeats` is the form that allows
  eviction. Each map update may also fail; where a theorem needs success it says so.
- The tracer reads the saved pointer of a scratch entry after deleting the entry; the model copies the
  value before. Updating an existing scratch entry succeeds, as it needs no memory; a new entry may fail,
  and does when the map is full.

## Where the code and its comments differ

- `amf/amf_xdp.c:279-280` gives as an example of a mismatch a source already past
  REGISTERED_CONNECTED. As only one label is categorised, a source never gets past REG_RECEIVED, and
  every InitialUEMessage after its first is flagged (`FlagsAreAllButFirst`).
- `amf/xdp_ngap.c:247` announces an IPv4 check that is not there: the Ethernet type is never read
  (`TracerIgnoresEtherType`), so the two parsers differ on every other type (`OtherEtherTypeIsReportedOnly`).
- `amf/amf_comm.c` lets a UE return from UE/gNB straight into a late stage. A run to
  REGISTERED_CONNECTED has passed every stage since its last departure from UE/gNB exactly when that
  departure was by InitialUEMessage (`StagesPassedExactly`); `OtherDeparturesSkipStages` is a run with another.
- The HTTP/2 injector looks at neither PADDED nor END_HEADERS. The pad length still cuts its bytes off the
  end of the payload, so padding is read in place of the insertion. In a frame with END_HEADERS zero
  padding always spoils the header (`PaddedFrameIsSpoilt` is one); other padding decides by what it decodes to
  (`SignatureDelivered`, `PaddingCarries`). With CONTINUATION frames to come the header goes into the middle
  of the block: at a field boundary it arrives when there is no padding, unless no header came before it and
  a table size update comes after (`BoundaryDeliveredExactly`). A frame with zero padding or none is safe
  whatever follows it exactly when it has no padding, ends at a field boundary and gives a header
  (`SafeFrameExactly`; failing buffers are `EmptyFrameIsUnsafe` and `CutNameIsUnsafe`).
- The same injector takes the start of each call for the start of a frame. Over any list of calls the peer
  gets the frames that were written, headers made longer, exactly when every call that is rewritten starts
  where a frame starts and its length can still grow (`KeptExactly`). Calls of whole frames do
  (`WholeCallsDelivered`), and so does data in several calls that do not look like headers; one call that
  does look like them where no frame starts spoils the connection, whatever comes after it
  (`MisfitIsSpoilt`, `SplitDataIsSpoilt`).
- The HTTP/1.1 injector searches the C string in memory, not the bytes to be written, so it may copy out of
  range (`CopyGoesOutOfRange`), and it searches every buffer, so a blank line in the body of a message written
  in several calls triggers it again (`BodyIsSpoilt`; `DeliveredExactly` is the exact condition over any list
  of calls). One call adds one line at most, so two messages in one call do not both get it
  (`FewerCallsThanMessages`; `MessagesDeliveredExactly` is the exact condition over any list of calls and
  of messages in them).

## Model

| member | source | states |
|---|---|---|
| CStrings.KeySet | amf/sm_map.c:71-85 | the kernel copy loop writes the C string, cut to fit, over the front of the buffer and leaves the rest as it was |
| CStrings.Snprintf | amf/amf_comm.c:105 | the userspace writer leaves the cut string, one NUL, and the rest as it was |
| CStrings.WritersAgree | amf/sm_map.c:61-68 | in a zeroed buffer both writers leave the same bytes, for strings of any length |
| CStrings.CStrOfPadded | amf/amf_xdp.c:166-172 | a stored name is read back, cut to what fits |
| CStrings.TruncationNeverMatches | amf/sm_map.c:71-85 | a name that leaves room in its key is matched by no other string of any length: cutting never makes a false match |
| StateMachine.NamesDistinct | amf/amf_comm.c:9-41 | two nodes with the same name are the same node |
| StateMachine.TextsDistinct | amf/amf_comm.c:45-98 | two labels with the same text are the same label |
| StateMachine.RowsComplete | amf/amf_comm.c:45-98 | every row of the edge table is the one its source and label select |
| StateMachine.RowSound | amf/amf_comm.c:45-98 | a selected row has that source and that label |
| SmMap.RowsStored | amf/amf_comm.c:118-134 | storing rows with distinct keys into any map stores all of them, adds no other key and keeps other entries |
| SmMap.EdgeRowKeysDistinct | amf/amf_comm.c:45-98 | the 52 byte keys are pairwise distinct |
| SmMap.NodeRowKeysDistinct | amf/amf_comm.c:9-41 | the 29 byte keys are pairwise distinct |
| SmMap.LoadedFromEmpty | amf/amf_comm.c:100-141 | loading from empty maps gives exactly the two tables, in 29 and 52 entries |
| SmMap.TransitionLookupExact | amf/sm_map.c:100-107 | over the populated map and for all C strings of any length, the lookup finds `dst` if and only if (src, dst, event) is in the table |
| SmMap.TransitionLookupIsNext | amf/sm_map.c:94-107 | on the table's names and labels the lookup is the partial transition function, misses included |
| SmMap.NodeLookupExact | amf/sm_map.c:87-92 | a name is found with a kind if and only if it is a node of that kind |
| StateDiagram.LookupFollowsDiagram | amf/doc/amf_state_machine.py:21-74 | over the populated map the lookup from the caption of a box, along the inscription of an arrow, gives exactly the caption the arrow leads to, or nothing where there is no arrow |
| StateDiagram.OnlyArrowsAreFound | amf/doc/amf_state_machine.py:21-74 | no other pair of C strings, of any length, is found |
| StateDiagram.NodeLookupFollowsDiagram | amf/doc/amf_state_machine.py:8-19 | each caption is known with the kind its box is drawn as |
| StateDiagram.TransitionsAreArrows | amf/amf_comm.c:45-98 | the transition function is the set of arrows of the diagram, target by target |
| SmMap.RepopulationIsIdle | amf/amf_comm.c:100-141 | loading a second time changes nothing, whatever was in the maps before |
| SmMap.KernelKey | amf/sm_map.c:89-105 | the kernel key field is the padded C string |
| SmMap.UserKey | amf/amf_comm.c:122-124 | the userspace key field is the same padded string |
| SmMap.SmMaps.Populate | amf/amf_comm.c:100-141 | both maps and the result are those of the load functions: nodes first, edges only if all nodes were stored |
| SmMap.LoadStoresRows | amf/amf_comm.c:108-115 | a load stores all rows, or exactly those before the first update that is refused, and returns that update's error |
| SmMap.UpdateIsRefused | amf/amf_comm.c:108-115 | an update succeeds if and only if it has no fault of its own and its key is there or finds room; the error is the fault or -7 (E2BIG) |
| SmMap.FullMapsRefuse | amf/sm_map.c:40-56 | a node map with 64 other keys, or an edge map with 128, takes no row, and the load ends with that error |
| SmMap.LastPlaceIsUsed | amf/sm_map.c:40-56 | with one place left the first row is stored |
| SmMap.FreshLoadSucceeds | amf/amf_comm.c:100-141 | into empty maps, without faults of the updates themselves, both tables load completely |
| SmMap.SmMaps.NodeLookup | amf/sm_map.c:87-92 | answers from the node map by the padded key |
| SmMap.SmMaps.TransitionLookup | amf/sm_map.c:100-107 | answers from the edge map by the padded keys |
| FsmRuns.EdgesClimbOneStage | amf/amf_comm.c:45-98 | an edge advances at most one stage, and only by entering it, unless it leaves UE/gNB by another event |
| FsmRuns.StagesPassedExactly | amf/amf_comm.c:45-98 | a run that ends in REGISTERED_CONNECTED has visited all eleven stages in order since its last departure from UE/gNB if and only if that departure was by InitialUEMessage |
| FsmRuns.RegistrationPassesEveryStage | amf/amf_comm.c:45-98 | so every registration passes all eleven stages when UE/gNB is only ever left by InitialUEMessage, the only label the categoriser gives |
| FsmRuns.OtherDeparturesSkipStages | amf/amf_comm.c:90-91 | a concrete two-event run with another departure |
| FsmRuns.FailureIsKept | amf/amf_comm.c:92-97 | from a failure state other than PDU_SESSION_REJECTED every run stays in failure and moves at most once, to CLEANUP_REQUIRED |
| FsmRuns.FailureIsAbsorbing | amf/amf_comm.c:24-33 | a failure state is absorbing if and only if it is not PDU_SESSION_REJECTED |
| FsmRuns.NodeKindIsTabled | amf/amf_comm.c:9-41 | the kinds used in these claims are those of the node table |
| FsmRuns.TerminalHasNoEdges | amf/amf_comm.c:45-98 | six states, and no others, have no outgoing edge |
| FsmRuns.TerminalIsFinal | amf/amf_xdp.c:275-286 | from such a state every later event is flagged and changes nothing |
| FsmRuns.ReplayAcceptedOnce | amf/amf_comm.c:63 | in any run "replay/abnormal retry" is accepted at most once |
| RateLimiter.EntryCountsItsWindow | amf/amf_xdp.c:197-214 | in every run the entry was opened by an arrival, covers the present, and counts exactly the arrivals of its window |
| RateLimiter.AdmittedExactly | amf/amf_xdp.c:206-213 | a packet is admitted if and only if its window holds at most 50 arrivals so far |
| RateLimiter.DropHasWitness | amf/amf_xdp.c:212-213 | each drop has a window, opened by an arrival, with more than 50 arrivals |
| RateLimiter.NoFalseDrops | amf/amf_xdp.c:197-214 | if no window length holds more than 50 arrivals, nothing is dropped |
| RateLimiter.AdmissionBound | amf/amf_xdp.c:197-214 | in every run any closed interval of length T admits at most 50 (T / (W + 1) + 1), plus 49 unless W + 1 divides T |
| RateLimiter.WindowBound | amf/amf_xdp.c:88-89 | any interval of one window length admits at most 99 |
| RateLimiter.RunBound | amf/amf_xdp.c:197-214 | from a run's first packet on, length T admits at most 50 (T / (W + 1) + 1) |
| RateLimiter.BoundIsReached | amf/amf_xdp.c:197-214 | for every length some run reaches the bound for intervals exactly |
| RateLimiter.BoundInNumbers | amf/amf_xdp.c:88-89 | that bound is 50 for each started stretch of 1 000 000 001 ns, plus 49 if the last is not full |
| LimiterEvictions.EvictionBound | amf/amf_xdp.c:115-122 | when the entry is evicted at any times, an interval admits at most 50 more for each of its arrivals, after the first, that finds no entry |
| LimiterEvictions.EvictionBoundIsReached | amf/amf_xdp.c:115-122 | for every length and number of reopenings some run reaches that bound exactly |
| Frames.ParseUndoesBuild | amf/amf_xdp.c:219-257 | from every well-formed frame the enforcer recovers the source address and the big-endian first two payload bytes |
| Frames.BuildUndoesDissect | amf/amf_xdp.c:219-257 | every byte string with an IPv4 header of 5 to 15 words and an NGAP chunk after it is rebuilt from its parts, byte by byte |
| Frames.ParseAcceptsExactlyBuiltFrames | amf/amf_xdp.c:219-257 | with such a header length the accepted byte strings are exactly the built frames |
| Frames.ParsedExactly | amf/amf_xdp.c:219-257 | on every byte string, whatever header length it announces: the parser gives this address and code if and only if the frame has these bytes at these positions |
| Enforcer.XdpEnforcer.BumpStat | amf/amf_xdp.c:134-139 | one 64-bit counter goes up by one, modulo 2^64 |
| Enforcer.XdpEnforcer.UeStateSet | amf/amf_xdp.c:166-172 | the entry becomes the stored form of the state and the time, if the update succeeds |
| Enforcer.XdpEnforcer.TrackState | amf/amf_xdp.c:271-286 | for any label, flags a source with no edge from its state, else moves it along the edge |
| Enforcer.XdpEnforcer.RateLimited | amf/amf_xdp.c:197-214 | the verdict and the entry are those of the accounting function; other sources keep theirs |
| Enforcer.XdpEnforcer.Enforce | amf/amf_xdp.c:217-299 | verdict, both maps and all counters are those of one step of the model, for every byte string; every read is in bounds; XDP_DROP is returned if and only if the drop counter moves, and then the source's entry counts more than 50 packets in a window of one second that is not over |
| Enforcer.XdpEnforcer.Categorised | amf/amf_xdp.c:259-298 | the same for the part after the procedure code is known, drops and the drop counter included |
| Enforcer.LimiterInNumbers | amf/amf_xdp.c:197-214 | a packet is refused if and only if the entry's window of 10^9 ns, in 64-bit differences, is not over and its 32-bit count passes 50; what the entry becomes in each case |
| Enforcer.InitialMessageInFull | amf/amf_xdp.c:266-298 | an InitialUEMessage (code 15): verdict, state entry with name and time, limiter entry and the three counters, with the names and numbers written out |
| Enforcer.OtherProceduresPass | amf/amf_xdp.c:259-264 | a message with another code is let through and counted, and nothing else changes |
| Enforcer.OtherFramesPass | amf/amf_xdp.c:219-257 | a frame without NGAP is let through and nothing changes |
| Enforcer.VerdictShows | amf/amf_xdp.c:290-298 | a step answers with a drop if and only if its drop counter moves, and then it was an InitialUEMessage of a source whose entry is overfull |
| EnforcerRuns.StateRefinesPerSource | amf/amf_xdp.c:161-172 | whatever the interleaving, the maps hold for a source what its own packets and evictions alone would leave |
| EnforcerRuns.LogRefinesPerSource | amf/amf_xdp.c:266-298 | flags and drops of a source depend on its own packets and evictions only |
| EnforcerRuns.SourceFollowsLimiter | amf/amf_xdp.c:290-295 | the drops of a source are those of the limiter run on its arrival times |
| EnforcerRuns.FloodIsBounded | amf/amf_xdp.c:290-295 | in every interleaved run, any closed interval lets at most the limiter's bound of one source's messages through |
| EnforcerRuns.FloodIsBoundedUnderEviction | amf/amf_xdp.c:197-214 | the same in every interleaved run whatever, with evictions and failed insertions: 50 more for each message of the interval, after the first, that finds no entry |
| EnforcerRuns.QuietSourceIsNeverDropped | amf/amf_xdp.c:290-295 | a source with at most 50 arrivals in each window length never loses a packet, whatever others send |
| EnforcerRuns.EveryDropIsDeserved | amf/amf_xdp.c:290-295 | each dropped packet lies in a window its source opened and overfilled |
| EnforcerRuns.VerdictsAreBounded | amf/amf_xdp.c:290-298 | in every interleaved run, the number of a source's InitialUEMessages that are answered by XDP_PASS in any interval keeps to the bound in numbers: 99 in one second |
| EnforcerRuns.LetThroughArePassed | amf/amf_xdp.c:290-298 | that number is the one the log of the source gives |
| EnforcerCounts.CountersConserve | amf/amf_xdp.c:134-139 | in every reachable state the counters are the passed, dropped and flagged packets modulo 2^64; passed and dropped together are the categorised ones, and flags never exceed labels |
| EnforcerCounts.DropsAreCounted | amf/amf_xdp.c:290-295 | in every run the drop counter is the number of packets answered by XDP_DROP, modulo 2^64 |
| EnforcerCounts.StateIsFoldOfOwnLabels | amf/amf_xdp.c:271-286 | the stored state of a source is the fold of the partial transition function over its own labels, for any edge map |
| EnforcerCounts.WalkIsTrack | amf/sm_map.c:94-107 | over the populated map that fold by names is the run of the state machine |
| EnforcerCounts.StateIsMachineState | amf/amf_xdp.c:271-286 | over the populated map the stored state of a source is the name of the machine's state after the source's own labels |
| EnforcerCounts.RegistersOnce | amf/amf_xdp.c:271-286 | a source's first message registers it unflagged, every later one is flagged and changes nothing |
| EnforcerCounts.FlagsCountRepeats | amf/amf_xdp.c:271-286 | labelled packets are the flagged ones plus the state entries ever created, present or evicted |
| EnforcerCounts.FlagsAreAllButFirst | amf/amf_xdp.c:271-286 | without eviction, N labelled packets of D sources give exactly N - D flags |
| NgapTracer.XdpTracer.HandleSctp | amf/xdp_ngap.c:50-109 | at most one event, exactly when an NGAP chunk is inside the frame and the ring buffer has room |
| NgapTracer.XdpTracer.HandleOther | amf/xdp_ngap.c:184-234 | one event with both addresses and the raw bytes, cut to 1480, that could be loaded |
| NgapTracer.XdpTracer.XdpProg | amf/xdp_ngap.c:237-260 | per frame at most one event, always the one the report function gives |
| NgapTracer.ReportInFull | amf/xdp_ngap.c:50-260 | for every byte string: no report, the raw one, or the NGAP one, each field by its position in the frame |
| NgapTracer.ReportUndoesBuild | amf/xdp_ngap.c:50-109 | from every well-formed frame the tracer recovers addresses, ports, chunk length, procedure code and criticality |
| NgapTracer.ParsersAgree | amf/xdp_ngap.c:50-109 | on every byte string the enforcer reaches a source and code if and only if the tracer reports them and the Ethernet type is IPv4 |
| NgapTracer.TracerIgnoresEtherType | amf/xdp_ngap.c:247-250 | no value of the Ethernet type changes the report |
| NgapTracer.OtherEtherTypeIsReportedOnly | amf/xdp_ngap.c:247-253 | each NGAP frame under another Ethernet type is reported and not enforced |
| UserMemory.DecodeUndoesEncode | amf/amf_func_load.bpf.c:250-251 | a little-endian word is read back |
| UserMemory.WordIsHeld | amf/amf_func_load.bpf.c:213-217 | a word written little-endian into mapped bytes is what a probe reads there |
| UserMemory.BytesAreHeld | amf/amf_func_load.bpf.c:284 | a probe of mapped bytes returns them, for every length |
| UserMemory.UnreadableIsZero | amf/amf_func_load.bpf.c:213-217 | a probe that cannot read a byte of its range gives zeros |
| NgapWalker.SubmsgPtr | amf/amf_func_load.bpf.c:199-219 | the pointer of the present alternative, and its procedure code when there is one |
| NgapWalker.AlternativePointers | amf/amf_func_load.bpf.c:199-219 | the three alternatives have their pointers at 8, 16 and 24, and there is no other |
| NgapWalker.CopyEmbeddedNasPdu | amf/amf_func_load.bpf.c:224-288 | on any memory the record carries what the walk finds for the procedure, zero-filled behind; nothing for procedures other than 15 and 46 |
| NgapWalker.ScanList | amf/amf_func_load.bpf.c:255-287 | the loop carries what the scan from element 0 finds |
| NgapWalker.ScanFindsFirst | amf/amf_func_load.bpf.c:255-287 | on a laid-out list the scan gives the octets of the first IE with id 38 among the first twelve |
| NgapWalker.WalkerUndoesLayout | amf/amf_func_load.bpf.c:224-288 | for every message whose words and byte runs a probe returns at the offsets (232 and 392, 32 and 40) and strides (96 and 56) of the two Go structures, the walker reads the first NAS PDU of the first twelve IEs, cut to 512 bytes; nothing if absent, nil or empty |
| NgapWalker.FirstNasPduIs | amf/amf_func_load.bpf.c:255-287 | what is copied is the PDU of the first IE with id 38, cut to 512 bytes, and nothing if no IE has that id |
| NgapWalker.NothingBehindNil | amf/amf_func_load.bpf.c:229-253 | on any memory: a nil message or list pointer, or a length that is not positive, gives no PDU |
| NgapWalker.NoOctetsBehindNil | amf/amf_func_load.bpf.c:268-283 | the same for the PDU's own pointer, slice and length |
| NgapLayout.WalkerReadsBytes | amf/amf_func_load.bpf.c:135-192 | the same for every message that lies in memory as bytes, little-endian, at those offsets and strides, which the layout states in numbers and not by the walker's own functions |
| NgapLayout.LayoutHolds | amf/amf_func_load.bpf.c:135-192 | memory can be built that holds any given list of IEs that fits, starting at any address |
| NgapLayout.WalkerUndoesStoring | amf/amf_func_load.bpf.c:224-288 | from that memory the walker gets the first NAS PDU of the list back: it undoes the layout |
| NgapLayout.PduIsDispatchable | amf/amf_func_load.bpf.c:291-318 | a PDU in bytes is one that `DispatchLaidOut` accepts |
| NgapWalker.Dispatch | amf/amf_func_load.bpf.c:291-318 | the whole record on any memory: presence, procedure code, and the PDU, which only initiating messages of two procedures have |
| NgapWalker.DispatchLaidOut | amf/amf_func_load.bpf.c:291-318 | for a laid-out PDU the record has its procedure code and its first NAS PDU |
| JsonScan.ScanFindsLeastMatch | amf/amf_func_load.bpf.c:722-737 | the scan gives the end of the least match below 256 inside the body if memory can be read up to it, and -1 if and only if there is no such match |
| JsonScan.MatchIsOccurrence | amf/amf_func_load.bpf.c:703-713 | a match is an occurrence of the whole key in the body |
| JsonScan.PositionGuardNeverFires | amf/amf_func_load.bpf.c:751-752 | after a scan for a key of at most 14 bytes the position is below the extractor's guard |
| JsonScan.FindKeyCtx.FindKeyCb | amf/amf_func_load.bpf.c:689-720 | the callback stops exactly at a match, past the end, or where memory cannot be read, and records only a match |
| JsonScan.JsonFindKey | amf/amf_func_load.bpf.c:725-737 | the bounded loop computes the scan from 0 |
| JsonScan.JsonExtractStr | amf/amf_func_load.bpf.c:749-776 | the field becomes the string at the position, zero-filled, so always terminated |
| JsonScan.ExtractionUndoesPrinting | amf/amf_func_load.bpf.c:689-776 | of a printed key and value in memory that can be read up to the key it returns the value cut to 31 characters when at most four blanks are between them, and nothing otherwise |
| JsonScan.NothingWithoutQuote | amf/amf_func_load.bpf.c:755-761 | a value that is not a string gives nothing |
| JsonScan.NothingNearTheEnd | amf/amf_func_load.bpf.c:751-752 | nor does a position from 984 on |
| JsonScan.EventSbiBody.ParseIes | amf/amf_func_load.bpf.c:806-826 | `reason`, `accessType`, `cause`, `deregReason` and `nfId` each hold the text of their own key, cut and zero-filled; the body is unchanged |
| Hpack.DecodeContinues | ssl_wr/ld-pre-http2-example.c:82-84 | decoding a longer block first gives the shorter one's headers, then goes on from its table, at the start of a block only if there were no headers yet (section 3.2 of RFC 7541) |
| Hpack.DecodeGoesOn | ssl_wr/ld-pre-http2-example.c:82-84 | the same for a fragment cut anywhere: its whole fields first, then its incomplete field with what follows |
| Hpack.FragmentIsWhole | ssl_wr/ld-pre-http2-example.c:82-84 | a fragment decodes by itself if and only if no incomplete field is left of it |
| Hpack.EvictedExactly | ssl_wr/ld-pre-http2-example.c:82-84 | the peer's dynamic table keeps its newest entries, as many as fit (sections 4.3 and 4.4 of RFC 7541) |
| Hpack.LookupExactly | ssl_wr/ld-pre-http2-example.c:82-84 | indices name the static table first, then the dynamic one from its newest entry on, and nothing else (section 2.3.3 of RFC 7541) |
| Hpack.LeadingLiteralDecodes | ssl_wr/ld-pre-http2-example.c:66-73 | the built bytes decode to the one header, leave the dynamic table alone, and end the start of the block |
| Hpack.InsertedLiteralDecodes | ssl_wr/ld-pre-http2-example.c:66-84 | put at any field boundary of any decodable block, they add just that header there |
| Hpack.AppendedLiteralDecodes | ssl_wr/ld-pre-http2-example.c:66-84 | appended to any decodable block they append that header and leave the resulting table as it was |
| HpackFragments.InsertedExactly | ssl_wr/ld-pre-http2-example.c:82-84 | at a field boundary the header arrives between its neighbours with the same table if and only if a header came before or no table size update comes next |
| HpackFragments.SafeExactly | ssl_wr/ld-pre-http2-example.c:59-84 | a fragment cut anywhere, also within a Huffman-coded string, is safe for all completions if and only if it decodes by itself and gives a header |
| HpackFragments.CutFieldDerails | ssl_wr/ld-pre-http2-example.c:82-84 | every field cut short, in its index, length, characters or Huffman code, has a completion with which the decoder parts from the old headers at one that is not the inserted one, or fails; with zero padding in front too |
| HpackFragments.ZerosAreUnsafe | ssl_wr/ld-pre-http2-example.c:75-86 | with zero padding before the inserted bytes no fragment is safe |
| HpackFragments.CutCodeLosesHeader | ssl_wr/ld-pre-http2-example.c:82-84 | of a Huffman-coded string cut short the header is lost with every completion that does not go on as a zero byte does |
| HpackFragments.CutCharactersLoseHeader | ssl_wr/ld-pre-http2-example.c:82-84 | of a string cut among its characters the header is lost with every completion to valid headers, whatever bytes after a first zero are put in |
| HpackReference.IntReadsBack | ssl_wr/ld-pre-http2-example.c:66-73 | every integer is read back from its encoding with any of the prefixes (section 5.1 of RFC 7541), whatever follows |
| HpackReference.FieldReadsBack | ssl_wr/ld-pre-http2-example.c:66-73 | every encoded representation, indexed, literal in its three forms or size update, with plain or Huffman-coded strings, decodes to its effect on headers and table, failures included |
| HpackReference.DecodeUndoesEncode | ssl_wr/ld-pre-http2-example.c:66-73 | decoding any encoded block gives what its representations mean, which makes the decoder of the other rows the one of section 6 of RFC 7541 |
| HpackReference.PlainLiteralIsEncoded | ssl_wr/ld-pre-http2-example.c:66-73 | the bytes the injector builds are a literal without indexing (section 6.2.2 of RFC 7541) |
| Http2Rewrite.Write24 | ssl_wr/ld-pre-http2-example.c:16-21 | three big-endian bytes, the rest unchanged |
| Http2Rewrite.Enc24ReadsBack | ssl_wr/ld-pre-http2-example.c:11-21 | a written length is read back modulo 2^24 |
| Http2Rewrite.ParseUndoesPrint | ssl_wr/ld-pre-http2-example.c:33-42 | printed frames of legal length, followed by an incomplete one, are parsed back: the frame parser the claims are about is the inverse of the layout in section 4.1 of RFC 7540 |
| Http2Rewrite.BuildLiteral | ssl_wr/ld-pre-http2-example.c:63-73 | the scratch buffer starts with the literal without indexing of name and value |
| Http2Rewrite.InsertedBytes | ssl_wr/ld-pre-http2-example.c:60-73 | the 31 bytes that are inserted, one by one |
| Http2Rewrite.SentInBytes | ssl_wr/ld-pre-http2-example.c:44-98 | when a call is rewritten, and into which bytes, by position in its buffer |
| Http2Rewrite.StreamIdIsNumber | ssl_wr/ld-pre-http2-example.c:49-53 | the stream identifier is the big-endian number of the field without its first bit |
| Http2Rewrite.SslWrite | ssl_wr/ld-pre-http2-example.c:23-99 | a buffer that starts with a complete HEADERS frame on a stream is sent rewritten, 31 bytes longer; every other buffer, and any buffer when memory or `int` runs out, is passed on as it is; so the bytes handed on are those `SentBy` gives for the call |
| Http2Rewrite.FramingKeptExactly | ssl_wr/ld-pre-http2-example.c:75-86 | the output splits into the same frames, the first one extended, if and only if the longer length fits in 24 bits (section 4.1 of RFC 7540) |
| Http2Delivery.ExtendedBlock | ssl_wr/ld-pre-http2-example.c:75-86 | for any padding the block grows by the first bytes of padding and insertion together, as many as were inserted (section 6.2 of RFC 7540) |
| Http2Delivery.RewrittenBlock | ssl_wr/ld-pre-http2-example.c:59-96 | for any buffer that starts with a HEADERS frame: the header blocks a peer collects before and after, END_HEADERS set or not, padded or not |
| Http2Delivery.SignatureDelivered | ssl_wr/ld-pre-http2-example.c:44-96 | with END_HEADERS set: other frames stay; the peer gets the old headers and x-nf-signature if and only if those bytes decode to it, which with zero padding is if and only if there is none |
| Http2Delivery.SslWriteDelivers | ssl_wr/ld-pre-http2-example.c:23-99 | the program and its peer together: from a whole unpadded block the peer decodes its headers and then `x-nf-signature: test-signature`, byte by byte |
| Http2Delivery.HeaderBlockIsMiddle | ssl_wr/ld-pre-http2-example.c:44-57 | with flags 8 and 32 in all combinations the peer takes what lies between pad length, priority and padding (section 6.2 of RFC 7540) |
| Http2Delivery.BlockIsJoined | ssl_wr/ld-pre-http2-example.c:82-84 | fragments in CONTINUATION frames are joined up to the one with flag 4 (section 6.10 of RFC 7540) |
| Http2Delivery.PaddingCarries | ssl_wr/ld-pre-http2-example.c:82-84 | padding that holds the literal delivers it though the insertion is cut off |
| Http2Delivery.BoundaryDeliveredExactly | ssl_wr/ld-pre-http2-example.c:59-96 | with CONTINUATION frames in the buffer, zero padding or none, and a field boundary at the end of the first frame: delivered if and only if there is no padding, and the first frame gave a header or the next starts with no size update |
| Http2Delivery.SafeFrameIsSafeFragment | ssl_wr/ld-pre-http2-example.c:59-96 | with any padding a frame is safe for all frames after it if and only if its fragment is safe for all completions of what is put in |
| Http2Delivery.SafeFrameExactly | ssl_wr/ld-pre-http2-example.c:59-96 | a HEADERS frame without END_HEADERS, with zero padding or none, is safe for all frames after it if and only if it has no padding, its block ends with a field, and gives a header |
| Http2Delivery.CutFrameLosesHeader | ssl_wr/ld-pre-http2-example.c:59-96 | of a frame with zero padding or none, cut among the characters of a string, the header is lost with all frames after it that make valid headers |
| Http2Delivery.EmptyFrameIsUnsafe | ssl_wr/ld-pre-http2-example.c:59-96 | a buffer with an empty HEADERS frame before a size update: decodable before the rewriting, not after |
| Http2Delivery.CutNameIsUnsafe | ssl_wr/ld-pre-http2-example.c:59-96 | a buffer cut inside a name: decodable, and the header not delivered |
| Http2Delivery.PaddedFrameIsSpoilt | ssl_wr/ld-pre-http2-example.c:59-96 | a buffer with one byte of padding: decodable, and the header not delivered |
| Http2Calls.KeptExactly | ssl_wr/ld-pre-http2-example.c:44-98 | over any list of calls, after any part of a frame: the frames arrive as written, or as headers longer by the insertion, with the same bytes left over, if and only if every call that is rewritten starts where a frame starts and its length can still grow |
| Http2Calls.ConnectionKeptExactly | ssl_wr/ld-pre-http2-example.c:44-98 | the same from the start of a connection, with the program's own insertion |
| Http2Calls.AlignedDelivered | ssl_wr/ld-pre-http2-example.c:44-98 | over such calls it is exactly the frame at the start of each rewritten call that is longer |
| Http2Calls.MisfitIsSpoilt | ssl_wr/ld-pre-http2-example.c:44-98 | one call rewritten within a frame, or too long to grow, spoils the frames whatever is sent after it, changed or not |
| Http2Calls.WholeCallsAligned | ssl_wr/ld-pre-http2-example.c:44-98 | calls of whole frames meet that condition if and only if none is rewritten whose length cannot grow |
| Http2Calls.WholeCallsDelivered | ssl_wr/ld-pre-http2-example.c:44-98 | over calls of whole frames the peer gets all frames, the first of each rewritten call extended |
| Http2Calls.ContinuedFrameIsSpoilt | ssl_wr/ld-pre-http2-example.c:44-98 | how a frame of which three bytes or more are missing is spoilt by a call that looks like headers: it arrives with the same length and other bytes |
| Http2Calls.SplitDataIsSpoilt | ssl_wr/ld-pre-http2-example.c:44-98 | a DATA frame in two such calls arrives with another payload, whatever is sent after it |
| Http1Inject.JoinedLines | ssl_wr/ld-preload-example.c:36-37 | splitting at line breaks loses nothing |
| Http1Inject.PrintUndoesParse | ssl_wr/ld-preload-example.c:36-37 | a parsed message holds every byte of its text |
| Http1Inject.EndMoves | ssl_wr/ld-preload-example.c:36-43 | the first empty line of the output lies exactly the injected length later |
| Http1Inject.InjectionAddsLine | ssl_wr/ld-preload-example.c:36-43 | the header lines are the old ones followed by the new one, the body is identical |
| Http1Inject.SslWrite | ssl_wr/ld-preload-example.c:15-53 | what is handed on, in every case: unchanged, injected, a negative length, or a copy out of range exactly when the line would go in past the data |
| Http1Inject.TriggeredInFull | ssl_wr/ld-preload-example.c:36-49 | a call that triggers: the bytes sent, a negative length past 2^31 - 1, or a copy out of range |
| Http1Inject.OthersAreUnchanged | ssl_wr/ld-preload-example.c:27-35 | any other call sends its bytes as they are |
| Http1Streams.StreamIsPlain | ssl_wr/ld-preload-example.c:27-52 | over several calls the stream is what was meant if and only if none of them triggers |
| Http1Streams.FirstBufferDeliveredExactly | ssl_wr/ld-preload-example.c:27-52 | a message whose header section is in the first buffer arrives with the line added and its body unchanged if and only if no later buffer triggers |
| Http1Streams.StreamWithOne | ssl_wr/ld-preload-example.c:36-49 | if one call of any list triggers, the line is put into the text of all calls at that call's place, or the call fails |
| Http1Streams.SameTextExactly | ssl_wr/ld-preload-example.c:39-43 | the line put in at two places gives the same text if and only if only copies of it lie between them |
| Http1Streams.DeliveredExactly | ssl_wr/ld-preload-example.c:27-52 | for any calls whose text has a header section: delivered if and only if exactly one call triggers, it does not fail, and its line goes in at the end of the header section or before copies of it there |
| Http1Streams.SignatureDeliveredExactly | ssl_wr/ld-preload-example.c:29 | the same for the program's own line |
| Http1Streams.BodyWithBlankLineIsSpoilt | ssl_wr/ld-preload-example.c:27-52 | a header section in one call and any body with a blank line in it in the next: not delivered |
| Http1Streams.BodyIsSpoilt | ssl_wr/ld-preload-example.c:27-52 | a shortest such pair of calls, with the program's own line |
| Http1Streams.CopyGoesOutOfRange | ssl_wr/ld-preload-example.c:36-43 | a call of two bytes with the blank line in memory after them: the copies go out of range |
| Http1Streams.MessagesAreIndependent | ssl_wr/ld-preload-example.c:27-52 | of several messages on one connection each is sent as its own calls alone would send it |
| Http1Messages.StreamOfCalls | ssl_wr/ld-preload-example.c:27-52 | the lines of all triggering calls are put into the text of all calls, each at its call's place, unless one of them fails |
| Http1Messages.SameTextsExactly | ssl_wr/ld-preload-example.c:39-43 | lines put in at two lists of places give the same text if and only if there are as many places in both, and between each two of them only copies of the line |
| Http1Messages.MessagesDeliveredExactly | ssl_wr/ld-preload-example.c:27-52 | for any calls and any messages in them, however the calls cut the messages: every message arrives with its line if and only if no call fails, as many trigger as there are messages, and each line goes in at the end of its header section or among copies of it there |
| Http1Messages.FewerCallsThanMessages | ssl_wr/ld-preload-example.c:27-52 | messages written in fewer calls than there are messages do not all get their line |
| SyscallPairing.AmfTracer.TraceConnectEnter | amf/amf_tracer.bpf.c:839-849 | saves the arguments under the thread, replacing an old entry, if there is room; nothing else changes |
| SyscallPairing.AmfTracer.TraceConnectExit | amf/amf_tracer.bpf.c:852-869 | takes back the thread's entry and reports on success or EINPROGRESS |
| SyscallPairing.AmfTracer.TraceAcceptEnter | amf/amf_tracer.bpf.c:874-884 | the same for accept, in its own map |
| SyscallPairing.AmfTracer.TraceAcceptExit | amf/amf_tracer.bpf.c:887-904 | takes back the entry, reports unless failed, and reads no peer from a null address |
| SyscallPairing.OpenIsLatestEnter | amf/amf_tracer.bpf.c:838-904 | with unlimited maps a call is open if and only if the thread's latest operation of the kind entered it |
| SyscallPairing.ScratchHoldsOpenCalls | amf/amf_tracer.bpf.c:40-56 | over every interleaving a scratch map holds open calls only, with their own arguments, and at most 4096 |
| SyscallPairing.HeldExactly | amf/amf_tracer.bpf.c:838-904 | an entry is held if and only if the thread's latest operation entered the call and found a place |
| SyscallPairing.ReportsAreOnlyLost | amf/amf_tracer.bpf.c:838-904 | full maps can only lose reports: the log is the ideal one with some left out, in order |
| SyscallPairing.NothingIsLost | amf/amf_tracer.bpf.c:40-56 | with no more open calls than places the maps and the log are the ideal ones |
| SyscallPairing.ReportsArePaired | amf/amf_tracer.bpf.c:851-904 | each report comes from an exit that returned 0 or -115 (connect) or at least 0 (accept), in the traced cgroup, and has the address saved by the same thread's latest enter of the kind |
| SyscallPairing.ExitReportsExactly | amf/amf_tracer.bpf.c:851-904 | a traced exit reports if and only if it returned 0 or -115 (connect) or at least 0 (accept), space is left, and that enter was stored |
| SyscallPairing.OthersAreIgnored | amf/amf_tracer.bpf.c:838-904 | operations of other cgroups, and all while no cgroup is set, change nothing |
| SyscallPairing.PeerIsRead | amf/amf_tracer.bpf.c:87-101 | the peer of an IPv4 address (family 2), or zeros |
| SyscallPairing.PortIsSwapped | amf/amf_tracer.bpf.c:100 | a port in network order is reported as a number |
| SyscallPairing.FdIsExtended | amf/amf_tracer.bpf.c:844 | the saved descriptor is the lower half of the register with its sign |
| SyscallPairing.PairedExactly | amf/amf_tracer.bpf.c:79-85 | a report pairs the two ends of one system call if and only if no operation of its thread and kind in between went untraced |
| SyscallPairing.ReportsMatchCalls | amf/amf_tracer.bpf.c:79-85 | so every report of a thread that stays in its cgroup pairs the two ends of one system call |
| SyscallPairing.MovedThreadMispairs | amf/amf_tracer.bpf.c:79-85 | for a thread that moves between cgroups a run reports the second call with the first one's address |

## Left out

- Loaders, process and cgroup discovery, skeleton loading, ring-buffer polling, signals and printing: plumbing.
- `attach_programs` and `detach_programs`, in every directory: thin wrappers.
- The function tables, the uprobe handlers that only copy a label, and disabled blocks: nothing to prove.
- The NRF and namespace tracers: copies of the pairing modelled here.
- `handle_tls` in `amf/xdp_ngap.c`: not reachable from `xdp_prog`.
- The read and write handlers of the tracer: single events without state.
- The capture of the JSON body in `amf_sbi_body`: the model starts from a captured body of at most 1024 bytes.
- The NAS, GMM and SBI uprobes other than the NGAP dispatcher: reads at fixed offsets without loops.
- Concurrency inside a handler: steps are atomic here, so lost updates of `count++` do not appear.
- The choice an LRU map makes: eviction may hit any entry at any time.
- Pinning and the order of object loads: the enforcer theorems take the edge map as given, populated or not, and say which.
- The real `SSL_write` and its return value: the model ends with what is handed to it.
- Huffman decoding and the contents of the static table: parameters of `Hpack.Codec`; the theorems hold for all of them.
- The maximum frame size a peer has set.
- How a peer of HTTP/1.1 finds the end of a body: the messages of `Http1Messages` are given as texts, and every list of texts is allowed.
- HpackFragments.SafeExactly: asks of the given completion of a cut Huffman-coded string that it does not go on as a zero byte does, and of the code that it is one-to-one and spells the header without zero bytes; and leaves out a fragment nothing completes, for which there is nothing to deliver.
- HpackFragments.CutFieldDerails: asks the same of that completion and of the code.
- HpackFragments.ZerosAreUnsafe: asks the same.
- Http2Delivery.SafeFrameExactly: the same, and padding that is not zero, for which `SafeFrameIsSafeFragment` says what is put in.
- Http1Inject.SslWrite: asks that a NUL or a match lies in readable memory, as `strstr` does of its caller.
- NgapLayout.WalkerUndoesStoring: places messages in the lower half of the address space, where user memory is; `WalkerReadsBytes` has no such bound.
