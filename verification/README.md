# A verified model of the PMCI stack: PLDM library and MCTP daemon

This project models the stateful algorithms of a DMTF PMCI implementation and proves what they promise over all inputs
and all runs. Code that changes state is modelled by classes, arrays and loops, each method proved against a function of
the old state; what the system promises is then proved about those functions.

| area | files | main results |
|---|---|---|
| PDR repository (`libpldm_intel/pdr.c`) | `PdrRecords`, `PdrRepository`, `PdrLaws`, `PdrHistory` | over every run the contents are those of a plain account of adds and removals; a removal leaves exactly the local records, in order, renumbered in the nodes and in the stored headers, with the cached ends and counters right; handles ascend over every run; iteration by next handle visits everything once, exactly when handles are distinct and none after the first is zero |
| Entity association tree | `EntityForest`, `EntityTreeLaws`, `EntityAdd`, `EntityTree`, `EntityPdr`, `EntityTreePdr`, `EntityVisit`, `EntityOrder` | what exactly one add brings in, and that all else stays; numbering and container ids over every run of adds; the triple (type, instance, container) is unique; the stored PDRs of any tree give back its parent relation and child order; each contained entity is in exactly one PDR |
| Numeric sensor and effecter PDRs | `NumericPdr`, `NumericWire`, `NumericParse` | the length validators and the cursor-driven readers accept exactly the buffers that start with an encoding, and return what is encoded, which is what the bytes at each offset say, real32 fields as their conversion leaves them |
| Bridge discovery (`mctpd/src/PCIeBinding.cpp`) | `Discovery`, `DiscoveryLaws`, `DiscoveryEntries`, `DiscoveryOrder`, `Registration`, `RegistrationInfo`, `PcieBinding` | termination for arbitrary replies, no device read twice in a refresh, exactly the bridges read; which rows each read brings in; the exact condition under which endpoint ids stay distinct, and under which new rows stand behind their bridge; what is registered after any run of table updates, with which information, and exactly when that is the whole table |
| Control request queue (`mctpd/src/MCTPBinding.cpp`) | `CtrlQueue`, `CtrlQueueLaws`, `CtrlSchedule`, `CtrlTxQueue` | one callback per request over every interleaving, a timer whenever the queue is not empty, which request a reply completes, why every event happened, and the exact retransmission schedule with the exact condition under which it is kept |
| FRU tables (`libpldm_intel/fru.c`) | `Fru`, `FruTables` | the one-pass filter refines parse, filter, serialise; which records and fields a filter keeps; identity, idempotence and composition of filters; records appended one by one are the table |
| CRCs (`libpldm_intel/utils.c`) | `Crc`, `CrcLaws`, `CrcDivision` | both table-driven loops compute remainders of polynomial division; CRC-32 notices every change inside four bytes, five are too many, and exactly the changes divisible by the generator go unnoticed |
| Firmware segments (`libpldm_intel/firmware_update.c`) | `Firmware` | exactly which requests are accepted; responses are windows of the zero-padded image; every image can be transferred; accepted requests reproduce every image exactly when they cover it |
| Repository change events (`libpldm_intel/platform.c`) | `ChangeEvent` | encoding and walking are inverse, in both directions; the precomputed size is the size |
| Vendor-defined messages | `Vdm` | one row per vendor over every run of registrations; the enumeration reads out the whole database exactly when it holds 1 to 255 vendors |
| SMBus device table (`mctpd/src/SMBusBinding.cpp`) | `SmbusTable` | EIDs and addresses stay in bijection through every discovery pass, for any registration results, and what each device ends with |

`Bytes` holds the integer widths and byte order shared by all of them, `Wrappers` the values that may be absent, `Layouts`
the encodings offset by offset. A little-endian host is assumed throughout. C assertions are preconditions.

A method is proved against a function of the old state, and that function against statements that do not name it: over
bytes, positions, groups of siblings, or the steps of a run.

## Where the code does less than one might expect

Each of these is proved, with the exact condition or a concrete input.

- A request without response is tried 1 + retry count times and given up when its time has passed exactly when the retry
  delay is at least one poll interval, the total time is a whole number of polls and at most 5 * 2^32, and, beyond 32 bits,
  a retry falls due at the last poll before each point where the unsigned remaining time wraps. For totals of 32 bits the
  first two conditions decide; without them the remaining time wraps at the deadline, or there are too few polls
  (`CtrlSchedule.OnScheduleIff`). A retry delay of zero has no schedule.
- A reply completes its own request unless an older outstanding request was issued its id a multiple of 32 ids earlier
  (`CtrlQueueLaws.ReplyCompletesIff`).
- Distinct rows from the bus owner do not suffice for distinct endpoint ids: a bridge may report the bus owner's own EID as
  a bridge, which is then read as if it were the bus owner. Discovery keeps EIDs distinct for all replies exactly when no
  row is such an impostor and either the owner's EID is taken or every bridge has the owner's address
  (`DiscoveryLaws.DistinctForAllRepliesIff`).
- The rows found behind a bridge are inserted behind the index that the bridge had when the pass began. That is right
  behind the bridge exactly when nothing was inserted earlier in the pass (`DiscoveryOrder.InsertsRightBehindIff`);
  otherwise they go in front of the bridge (`DiscoveryOrder.FoundBehindStandsBefore`).
- An endpoint whose registration fails is not asked again while its row stays in the table
  (`Registration.UnansweredStaysOut`). Even if all registrations are answered, an endpoint of the table is not registered
  when one of its rows went away and none is new, which takes a repeated EID; the whole table, without the own EID, is
  registered exactly when there is no such endpoint, in one update (`Registration.AnsweredUpdateIff`) and over runs
  (`Registration.RunsRegisterTableIff`). Distinct EIDs suffice but are not needed.
- With supplied handles that repeat, iterating by next handle misses records (`PdrLaws.RepeatedHandleBreaksWalk`); the
  iteration is complete exactly when handles are distinct and none after the first is zero (`PdrLaws.WalkVisitsAllIff`).
- Finding an entity by type and instance number finds every entity of a tree exactly when no two of them share both
  (`EntityVisit.FindsEveryEntityIff`); entities in different containers may (`EntityVisit.SharedPairIsAmbiguous`).
- The assertions of the association PDR extractor do not keep it inside its input (`EntityPdr.AssertedCanOverrun`). It
  stays inside exactly when also the contained entities, 6 bytes each from byte 20 on, end within the PDR's length
  (`EntityTreePdr.EntityAssociationPdrExtract`).
- The numeric PDR parsers pass real32 fields to a byte order conversion for integers. What they deliver is what was encoded
  exactly when that conversion leaves each converted real32 field as it is (`NumericPdr.DeliveredIff`); the conversion is a
  parameter. With the usual C library it turns 0.5 into 0.
- A firmware request of 31 bytes from one past the image end is refused but remembered, and a response to it then passes
  all checks and copies 2^32 - 1 bytes. No other remembered request overruns the payload (`Firmware.OverrunsIff`).
- A vendor database of 256 or more entries is enumerated as its first 255, with success (`Vdm.EnumerationReadsAll`).

## Model

| member | source | states |
|---|---|---|
| PdrRepository.PdrRepo.AddRecord | libpldm_intel/pdr.c:34-49 | links a new node of any size at the end; the list, its cached ends and its 32-bit counters agree afterwards |
| PdrRepository.PdrRepo.Add | libpldm_intel/pdr.c:51-106 | appends any non-empty record and returns its handle: the one supplied, or the last one plus one, then also written into the stored header, for which a record with computed handle needs its four bytes; the flag and all other bytes are those given |
| PdrHistory.AddStores | libpldm_intel/pdr.c:51-106 | an add appends one record with the handle and the flag asked for, every byte as given except a computed handle, lowest byte first; earlier records are unchanged |
| PdrHistory.RunsKeepAccount | libpldm_intel/pdr.c:22-106 | in every state of every run the repository holds, in order, what a plain account of adds and removals says: each PDR with its flag, its size and its bytes behind the handle |
| PdrHistory.LocalsStay | libpldm_intel/pdr.c:606-651 | a PDR added as local is in every later state of a run, with the bytes behind the handle it was added with |
| PdrHistory.RemotesGo | libpldm_intel/pdr.c:606-651 | right after a removal nothing in the repository is remote |
| PdrHistory.SizeIsAllBytes | libpldm_intel/pdr.c:34-49 | the byte total is the length of all PDRs written one after the other |
| PdrRepository.PdrRepo.FindRecord | libpldm_intel/pdr.c:137-165 | finds the first record with the handle (0 means the first record) and the next handle to ask for, or nothing |
| PdrRepository.PdrRepo.GetNextRecord | libpldm_intel/pdr.c:167-189 | the record after one in list order, or nothing after the last |
| PdrRepository.PdrRepo.FindRecordByType | libpldm_intel/pdr.c:191-218 | the first record of the type from the start or after a given record, or nothing |
| PdrRepository.PdrRepo.RemoveRemotePdrs | libpldm_intel/pdr.c:606-651 | the list becomes the local records, renumbered if anything was removed and unchanged otherwise, with ends and counters consistent |
| PdrRecords.LocalsKeepShape | libpldm_intel/pdr.c:606-638 | filtering keeps well-formed records, and changes nothing exactly when no record is remote |
| PdrRecords.LookupIsFirst | libpldm_intel/pdr.c:137-165 | what a lookup by handle finds is the first record with that handle |
| PdrLaws.LocalsInOrder | libpldm_intel/pdr.c:606-638 | each local record survives, at its rank among the locals |
| PdrLaws.RemovalKeepsLocals | libpldm_intel/pdr.c:606-651 | after a removal record i sits at its rank with handle rank + 1, in the node and in the stored header, all other bytes unchanged |
| PdrLaws.LocalSize | libpldm_intel/pdr.c:619-630 | the byte total left is the byte total of the local records |
| PdrLaws.RunsStayAscending | libpldm_intel/pdr.c:22-106 | over every run of adds and removals handles are non-zero and strictly increasing |
| PdrLaws.WalkVisitsAllIff | libpldm_intel/pdr.c:22-32 | iterating from handle 0 by next handle visits every record once, in order, and stops, exactly when handles are distinct and none after the first is 0 |
| PdrLaws.RunsCanBeWalked | libpldm_intel/pdr.c:137-165 | in every state of every run the iteration visits every record once, in order, and stops |
| PdrLaws.RepeatedHandleBreaksWalk | libpldm_intel/pdr.c:51-73 | a supplied handle equal to an earlier one makes the iteration miss a record |
| EntityForest.InsertOnChain | libpldm_intel/pdr.c:347-413 | an insert puts one entity behind the end of its type's run, or at the end of the chain, and leaves the rest of the chain as it was |
| EntityForest.InsertKeepsSiblings | libpldm_intel/pdr.c:347-413 | a group stays in one container, contiguous by type and numbered 1, 2, ... per type; the new entity gets the next number |
| EntityForest.SiblingsAreDistinct | libpldm_intel/pdr.c:395-405 | among siblings (type, instance) identifies an entity |
| EntityForest.BetweenSameType | libpldm_intel/pdr.c:347-366 | all siblings between two of one type are of that type |
| EntityTreeLaws.AddIds | libpldm_intel/pdr.c:368-413 | an add brings in exactly the new node |
| EntityTreeLaws.AddKeepsTreeOk | libpldm_intel/pdr.c:328-413 | one add keeps every group ordered and every group's container id its own |
| EntityTreeLaws.RunsKeepTreeOk | libpldm_intel/pdr.c:328-413 | over every run of adds: siblings share a container id, different groups have different ones, same-type siblings are contiguous and numbered from 1 |
| EntityTreeLaws.TriplesAreUnique | libpldm_intel/pdr.c:328-413 | over a whole tree (type, instance, container) identifies an entity |
| EntityTree.FindInsertionAt | libpldm_intel/pdr.c:347-366 | the loop returns the end of the first run of the type, or the end of the chain |
| EntityTree.LinkAfter | libpldm_intel/pdr.c:395-413 | linking in behind a node on the heap is the insert on the chain |
| EntityTree.AssociationTree.AddEntity | libpldm_intel/pdr.c:368-413 | the heap tree after an add has one node more: of the type and kind asked for, among the children of the parent asked for; all other nodes keep their entity, kind, parent and place |
| EntityAdd.AddPutsOneIn | libpldm_intel/pdr.c:368-413 | for every allowed add to any tree: one entity comes in, of the type and kind asked for, at the end of the first run of its type among the children of the parent, or at their end; no other group of siblings changes |
| EntityAdd.AddNumbersNext | libpldm_intel/pdr.c:384-413 | in a tree built by adds the new entity has the next number of its type in its group, the group's container id or a new one for a first child, and stands behind the last sibling of its type or at the end |
| EntityVisit.VisitedIsAll | libpldm_intel/pdr.c:426-441 | a visit lists each entity as often as it occurs |
| EntityVisit.VisitListsOnce | libpldm_intel/pdr.c:426-460 | in a tree built by adds a visit lists every entity exactly once |
| EntityOrder.VisitsChainFirst | libpldm_intel/pdr.c:426-441 | a visit lists a whole chain in order, then what is below each of its nodes, the last one first |
| EntityVisit.GetNumNodes | libpldm_intel/pdr.c:415-424 | the count is the number of entities visited |
| EntityVisit.VisitNodes | libpldm_intel/pdr.c:426-441 | the recursion writes the visited entities in order |
| EntityVisit.Visit | libpldm_intel/pdr.c:443-460 | the array handed out holds exactly the visited entities; nothing for an empty tree |
| EntityVisit.FindNode | libpldm_intel/pdr.c:653-680 | the recursive search returns the node found and fills in its container id, or leaves both as they were |
| EntityVisit.FindIff | libpldm_intel/pdr.c:653-669 | something is found exactly when an entity has the type and instance number, and what is found has them |
| EntityOrder.FindIsFirst | libpldm_intel/pdr.c:653-669 | what is found is the first match when each node comes before all below it and these before its later siblings, although the code looks at siblings first |
| EntityVisit.FindsEveryEntityIff | libpldm_intel/pdr.c:653-669 | in a tree built by adds every entity is what the search for its type and instance number finds exactly when no two entities share type and instance number |
| EntityVisit.SharedPairIsAmbiguous | libpldm_intel/pdr.c:653-669 | a tree with two entities of one type and instance number, in two containers, of which only one is found |
| EntityPdr.EntityRoundTrip | libpldm_intel/pdr.c:706-724 | an entity read where it was written is that entity |
| EntityPdr.ExtractRoundTrip | libpldm_intel/pdr.c:682-724 | a PDR of a group, under any handle, passes the extractor's assertions and yields container and contained entities in order |
| EntityPdr.AssertedCanOverrun | libpldm_intel/pdr.c:682-724 | 26 bytes that pass the assertions although the contained entities they announce lie past their end |
| EntityPdr.StoredDecodes | libpldm_intel/pdr.c:508-604 | each PDR emitted is stored under the next handle in turn and yields its group |
| EntityPdr.GroupCidIsShared | libpldm_intel/pdr.c:529-531 | a PDR's container id field is the container id of all its contained entities |
| EntityPdr.ContainedIsBelow | libpldm_intel/pdr.c:586-604 | together the PDRs contain every entity outside the top chain as often as it occurs |
| EntityPdr.ContainedExactlyOnce | libpldm_intel/pdr.c:586-604 | every entity outside the top chain is contained once in exactly one PDR, entities of the top chain in none |
| EntityPdr.PdrsRecoverTree | libpldm_intel/pdr.c:557-604 | from the groups of a tree each node's children of each association kind come back in order |
| EntityPdr.RepositoryRecoversTree | libpldm_intel/pdr.c:508-724 | in the repository afterwards every new record passes the extractor's assertions, and from their bytes alone each node's children of each association kind come back in order |
| EntityOrder.RepositoryTellsChildren | libpldm_intel/pdr.c:508-724 | in the repository the PDR for a node and a kind lists exactly the node's children of that kind, in order |
| EntityOrder.PdrsInVisitingOrder | libpldm_intel/pdr.c:557-604 | the PDRs come in visiting order: for each entity one for its logical children, if any, then one for its physical ones, with the container id the children share |
| Layouts.GroupLayout | libpldm_intel/pdr.c:508-555 | the bytes of an association PDR, offset by offset |
| EntityTreePdr.GetNumChildren | libpldm_intel/pdr.c:488-506 | counts the children of one association kind |
| EntityTreePdr.AddPdrEntry | libpldm_intel/pdr.c:508-555 | the buffer of precomputed size holds the PDR of the group, which is then added |
| EntityTreePdr.AddPdrs | libpldm_intel/pdr.c:586-595 | node, siblings, children: the recursion stores the groups of the whole chain in that order |
| EntityTreePdr.EntityAssociationPdrAdd | libpldm_intel/pdr.c:597-604 | the repository grows by exactly the PDRs of all groups of the tree |
| EntityTreePdr.EntityAssociationPdrExtract | libpldm_intel/pdr.c:682-724 | for every input that passes the assertions: the loop reads the container and all contained entities if they lie inside the input, and reads past its end otherwise |
| NumericPdr.ReadIsExact | libpldm_intel/pdr.c:736-846 | a value read and encoded again gives the bytes read |
| NumericPdr.ValueRoundTrip | libpldm_intel/pdr.c:736-846 | a value of any format encoded and read again is that value, signs included |
| NumericParse.Take | libpldm_intel/pdr.c:861-1100 | consecutive fields of one format: the cursor ends behind them and the values encode to the bytes passed over |
| NumericParse.ReadReadings | libpldm_intel/pdr.c:726-849 | fails exactly on an unknown data size; otherwise hysteresis and bounds are what lies at the cursor, and the middle block is that block with its real32 fields converted where the code converts them |
| NumericParse.ReadRanges | libpldm_intel/pdr.c:851-1105 | fails exactly on an unknown range format; otherwise the ranges are what lies at the cursor, converted if they are real32 |
| NumericParse.ValidateSensorLength | libpldm_intel/pdr.c:1107-1163 | accepts exactly known codes with room for 57 + 3s + 9r bytes, looking at the range format behind the readings |
| NumericParse.ValidateEffecterLength | libpldm_intel/pdr.c:1220-1279 | accepts exactly known codes with room for 56 + 2s + 5r bytes |
| NumericWire.AcceptedIff | libpldm_intel/pdr.c:1107-1163 | accepted are, by the bytes alone, data sizes 0 to 5 and range formats 0 to 6 with as many bytes as they ask for |
| NumericPdr.NumericLength | libpldm_intel/platform.h:535-636 | an encoded sensor has 57 + 3s + 9r bytes, an encoded effecter 56 + 2s + 5r |
| NumericPdr.LiesIff | libpldm_intel/platform.h:535-636 | a buffer starts with an encoding exactly when every field lies at its offset |
| NumericPdr.OnlyOne | libpldm_intel/pdr.c:1165-1218 | at most one PDR of a layout can start a buffer |
| NumericPdr.EncodedIsAccepted | libpldm_intel/pdr.c:1107-1163 | the validator turns no encoded PDR away |
| NumericParse.Parse | libpldm_intel/pdr.c:1165-1218 | accepts exactly the buffers that start with an encoding, delivers what is encoded with the real32 fields converted, and never reaches a failing reader after validation; by the bytes alone: every reading and range is the unsigned or two's complement little-endian number at its offset that its code asks for (effecters: lines 1502-1560) |
| NumericWire.DeliveredIsOnWire | libpldm_intel/pdr.c:736-1105 | for each data size and range format code the delivered hysteresis, bounds and ranges are the numbers that the bytes at their offsets say, and all other bytes are as they were except converted real32 fields |
| NumericPdr.DeliveredIff | libpldm_intel/pdr.c:1165-1218 | what is delivered is what was encoded exactly when the conversion leaves each converted real32 field as it is |
| Discovery.RequestsGrow | mctpd/src/PCIeBinding.cpp:168-241 | one device gets 1 to 255 requests, each recorded as called; rows are never dropped or reordered |
| Discovery.ReadGrows | mctpd/src/PCIeBinding.cpp:168-241 | a read marks exactly its own pair as called and keeps the rows in order |
| DiscoveryLaws.RoundCallsNewPair | mctpd/src/PCIeBinding.cpp:288-298 | each round calls a pair never called before, so the loop ends for all replies |
| DiscoveryLaws.RefreshReadsOnce | mctpd/src/PCIeBinding.cpp:269-298 | in one refresh no pair is read twice, each read sends at most 255 requests, and in the end every bridge was read |
| DiscoveryEntries.RefreshReadsBridges | mctpd/src/PCIeBinding.cpp:243-298 | read are exactly the owner and the bridges in the final table, with and without a pool of endpoints |
| DiscoveryLaws.SafeRowsStayDistinct | mctpd/src/PCIeBinding.cpp:107-267 | from safe owner rows: EIDs stay distinct, earlier rows keep their order, every address is one the owner reported |
| DiscoveryLaws.UnsafeRowsBreak | mctpd/src/PCIeBinding.cpp:212-238 | if the owner's rows are not safe there are replies after which an EID is repeated |
| DiscoveryLaws.DistinctForAllRepliesIff | mctpd/src/PCIeBinding.cpp:107-267 | discovery keeps EIDs distinct for all replies exactly when the owner's rows are distinct and safe |
| Registration.UpdateStaysInside | mctpd/src/PCIeBinding.cpp:318-380 | an update registers nothing outside the new table and keeps the interface maps in agreement, whatever the outcomes |
| Registration.UpdateKeys | mctpd/src/PCIeBinding.cpp:318-380 | for any tables, outcomes and endpoints registered before: registered afterwards is exactly who was and lost no row, or has a new row, is not the own EID and answered |
| Registration.UpdateRegistersTableIff | mctpd/src/PCIeBinding.cpp:318-380 | for any outcomes: the new table's EIDs except the own one are registered exactly when each was registered and lost no row, or has a new row that answered |
| Registration.AnsweredUpdateIff | mctpd/src/PCIeBinding.cpp:318-380 | with all registrations answered that is so exactly when every EID that stays although a row with it went away has a new row; the others are lost, which takes a repeated EID |
| Registration.UpdateRegistersTable | mctpd/src/PCIeBinding.cpp:318-380 | so with distinct EIDs in the old table and answered registrations exactly the new table's EIDs except the own one are registered |
| Registration.UnansweredStaysOut | mctpd/src/PCIeBinding.cpp:345-380 | an endpoint that did not answer is not asked again while its row stays |
| Registration.PopulateAdds | mctpd/src/MCTPBinding.cpp:1684-1745 | a new endpoint enters the endpoint, type and UUID maps, and the vendor map exactly if it supports vendor messages; a registered one keeps its interfaces, nobody else's change, and unregistering undoes it |
| Registration.UnregisterRemoves | mctpd/src/MCTPBinding.cpp:2175-2201 | the endpoint has no interface left in any map, every other EID's are unchanged, and the maps stay in agreement |
| RegistrationInfo.UpdateTells | mctpd/src/PCIeBinding.cpp:318-380 | after an update an endpoint that stayed has all its interfaces as they were; any other registered one has those that the first answer of its new rows gave, a vendor interface exactly if it supports vendor messages |
| RegistrationInfo.RunsTellTheAnswer | mctpd/src/PCIeBinding.cpp:269-380 | in every state of every run a registered endpoint's interfaces hold what it answered in the update that registered it, since when it has lost no row |
| Registration.RepeatedEidLosesEndpoint | mctpd/src/PCIeBinding.cpp:318-345 | two rows with one EID of which one goes away: the endpoint still in the table is unregistered |
| Registration.RunsStayInside | mctpd/src/PCIeBinding.cpp:269-380 | over every run of updates the maps have equal keys containing the vendor map's, and only table EIDs are registered |
| Registration.RunsRegisterTableIff | mctpd/src/PCIeBinding.cpp:269-380 | over a run with answered registrations every table is registered exactly, without the own EID, if and only if in each update every EID that stays although a row with it went away has a new row |
| Registration.RunsRegisterTable | mctpd/src/PCIeBinding.cpp:269-380 | so over every run of tables with distinct EIDs exactly the table's EIDs except the own one are registered |
| Registration.RefreshesRegisterTable | mctpd/src/PCIeBinding.cpp:269-380 | the same for tables that discovery produced from safe owner rows, whatever the devices answer |
| DiscoveryOrder.ReadAsksEveryHandle | mctpd/src/PCIeBinding.cpp:127-241 | a device gets one request for each handle its own responses lead to from handle 0 on, until a request fails, a response names no next handle, or 255 were sent |
| DiscoveryOrder.ReadInserts | mctpd/src/PCIeBinding.cpp:107-241 | what a bridge reports goes into the table in one piece behind the given index, under the bridge's address and with EIDs not there before, all else keeps its order; what the owner reports is appended |
| DiscoveryOrder.PassGoesOn | mctpd/src/PCIeBinding.cpp:243-267 | a pass is reading its rows one after the other, each at its index at the start of the pass |
| DiscoveryOrder.InsertsRightBehindIff | mctpd/src/PCIeBinding.cpp:207-267 | from a table of distinct EIDs, that index is the bridge's own place exactly when nothing was inserted earlier in the pass; otherwise the rows go in front of the bridge |
| DiscoveryOrder.FoundBehindStandsBefore | mctpd/src/PCIeBinding.cpp:207-267 | two bridges with one endpoint each: the endpoint found behind the second one stands in front of it |
| PcieBinding.Binding.TakeResponse | mctpd/src/PCIeBinding.cpp:207-239 | the loop over one response's entries appends, for the owner, a row with the reported EID and address for each PCIe entry that is no range, and for a bridge inserts a row under its address for each single PCIe EID not known yet, in order, and nothing else |
| DiscoveryEntries.OwnerReadAppends | mctpd/src/PCIeBinding.cpp:168-241 | a read of the owner appends exactly one row for each PCIe entry in its replies that is no range of endpoints, in order, with the reported EID, address and type, a bridge with endpoints as a bridge |
| DiscoveryEntries.BridgeReadInserts | mctpd/src/PCIeBinding.cpp:168-241 | a read of a bridge inserts exactly the single PCIe EIDs in its replies that are not known yet, in order, with the reported type, under the bridge's address |
| PcieBinding.Binding.ReadRoutingTable | mctpd/src/PCIeBinding.cpp:168-241 | the request loop is the specified read |
| PcieBinding.Binding.ProcessBridgeEntries | mctpd/src/PCIeBinding.cpp:243-267 | one pass reads the uncalled bridges of the table at its start |
| PcieBinding.Binding.UpdateRoutingTable | mctpd/src/PCIeBinding.cpp:269-316 | the whole refresh terminates, replaces the table by the discovered one and updates the interfaces, or does nothing before discovery |
| PcieBinding.Binding.ProcessRoutingTableChanges | mctpd/src/PCIeBinding.cpp:318-380 | first gone rows are unregistered, then new rows other than the own one registered |
| CtrlQueueLaws.StepKeepsOk | mctpd/src/MCTPBinding.cpp:696-774 | every push, poll, response or foreign id keeps the queue invariant |
| CtrlQueueLaws.RunsKeepOk | mctpd/src/MCTPBinding.cpp:696-774 | in every state of every run a non-empty queue has its timer pending, and each request is either queued or was called back exactly once |
| CtrlQueueLaws.ReplyCompletesIff | mctpd/src/MCTPBinding.cpp:108-157 | a reply completes its request exactly when no older outstanding request was issued its id a multiple of 32 earlier |
| CtrlQueueLaws.FewIdsSuffice | mctpd/src/MCTPBinding.cpp:108-157 | fewer than 32 ids issued while requests are outstanding suffice for that |
| CtrlQueueLaws.ResponseTakesFirst | mctpd/src/MCTPBinding.cpp:108-157 | a response completes the first queued request with its instance id and only that one; without one it changes nothing |
| CtrlQueueLaws.EventsHaveCauses | mctpd/src/MCTPBinding.cpp:108-157 | in every run a request is called back as answered only by a response whose instance id is its own and that finds it queued, as unanswered only by a poll, and sent only by its push or a poll that finds it queued |
| CtrlQueueLaws.TimerFollowsQueue | mctpd/src/MCTPBinding.cpp:696-774 | the timer runs after a push, after a poll exactly if requests are left, and nothing else touches it |
| CtrlSchedule.PollOnSchedule | mctpd/src/MCTPBinding.cpp:719-766 | with a configuration that keeps the schedule one poll moves an unanswered entry along it, resending exactly when due, and drops it exactly at the total time |
| CtrlSchedule.UnansweredOnSchedule | mctpd/src/MCTPBinding.cpp:696-774 | in every run a request unanswered after n polls was sent 1 + (5n / delay) times and is queued, or at the deadline was sent 1 + retry count times, called back and dropped, whatever else is queued |
| CtrlSchedule.OnScheduleIff | mctpd/src/MCTPBinding.cpp:719-766 | for every configuration with a retry delay: the schedule is kept exactly when the delay is at least one poll interval, the total time a whole number of polls, at most 5 * 2^32, and a retry falls due at the last poll before each point where the remaining time wraps |
| CtrlSchedule.BeyondThirtyTwoBits | mctpd/src/MCTPBinding.cpp:719-766 | a total time of more than 32 bits that keeps the schedule and a regular one that does not |
| CtrlTxQueue.TxQueue.SendRequest | mctpd/src/MCTPBinding.cpp:978-998 | takes the next instance id, queues and sends the request, and starts the timer only if it had expired |
| CtrlTxQueue.TxQueue.TimerFired | mctpd/src/MCTPBinding.cpp:696-774 | the loop ages, resends or drops every entry as specified and rearms the timer unless the queue is empty |
| CtrlTxQueue.TxQueue.HandleCtrlResp | mctpd/src/MCTPBinding.cpp:108-157 | the first entry with the instance id is called back and removed; without one nothing changes and the response is not taken |
| CtrlTxQueue.TxQueue.CreateInstanceId | mctpd/src/MCTPBinding.cpp:1048-1054 | instance ids count modulo 32 |
| Fru.FieldsRoundTrip | libpldm_intel/fru.c:222-234 | encoded fields parse back, whatever follows |
| Fru.ParseOfBytes | libpldm_intel/fru.c:172-202 | a table's bytes parse back to the table |
| Fru.BytesOfParse | libpldm_intel/fru.c:222-269 | whatever parses is the bytes of the table it parses to |
| Fru.AnyIsIdentity | libpldm_intel/fru.c:220-266 | filtering with only wildcards changes nothing |
| Fru.FilterIsIdempotent | libpldm_intel/fru.c:220-266 | the result is well formed and filtering it again by the same option changes nothing |
| Fru.FilterInStages | libpldm_intel/fru.c:220-266 | filtering by set id and then by the rest is filtering by all at once |
| Fru.RecordsKept | libpldm_intel/fru.c:220-266 | a filter keeps exactly the records with the wanted set id and type, each at its rank with its header and exactly its wanted fields, 0 standing for any |
| Layouts.RecordLayout | libpldm_intel/fru.c:172-202 | the bytes of a FRU record, offset by offset |
| FruTables.EncodeFruRecord | libpldm_intel/fru.c:172-202 | the error cases exactly; on success header and fields stand behind what was there, nothing else changes |
| FruTables.AppendRecord | libpldm_intel/fru.c:172-202 | appending a record's encoding to a table's bytes gives the bytes of the longer table |
| FruTables.KeptStep | libpldm_intel/fru.c:250-262 | one field adds its bytes and one to the count exactly when its type is selected |
| FruTables.FilteredStep | libpldm_intel/fru.c:220-266 | one record adds its header with the count patched and its kept fields exactly when it is selected |
| FruTables.SkipFields | libpldm_intel/fru.c:225-231 | the skipping loop ends behind the record's fields |
| FruTables.CopyFields | libpldm_intel/fru.c:248-262 | the copying loop appends exactly the kept fields and counts them, staying inside the buffer |
| FruTables.CopyRecord | libpldm_intel/fru.c:237-265 | a selected record is appended with its field count patched afterwards |
| FruTables.GetFruRecordByOption | libpldm_intel/fru.c:212-269 | the in-place walk writes exactly parse, filter, serialise, and leaves the rest of the buffer alone |
| Gf2.FeedIsDivision | libpldm_intel/utils.c:84-100 | a shift register fed with a message holds the remainder of long division |
| CrcLaws.TableEntry | libpldm_intel/utils.c:13-80 | every entry of both tables is its index after eight register steps |
| CrcLaws.TableByte | libpldm_intel/utils.c:84-91 | one table lookup is eight register steps |
| CrcLaws.ComputeCrc32 | libpldm_intel/utils.c:84-91 | the loop computes the CRC-32 register over the bytes |
| CrcLaws.ComputeCrc8 | libpldm_intel/utils.c:93-100 | the loop computes the CRC-8 register over the bytes |
| CrcDivision.Crc32IsDivision | libpldm_intel/utils.c:84-91 | the CRC-32 is, up to its complements, the remainder of the message followed by 32 zeros |
| CrcDivision.Crc8IsDivision | libpldm_intel/utils.c:93-100 | the CRC-8 is the remainder of the message followed by 8 zeros |
| CrcDivision.Generator32 | libpldm_intel/utils.c:13-56 | the CRC-32 generator by the degrees of its terms |
| CrcDivision.Generator8 | libpldm_intel/utils.c:57-80 | the CRC-8 generator is x^8 + x^2 + x + 1 |
| CrcLaws.WindowIsNoticed | libpldm_intel/utils.c:84-91 | equal-length messages that differ only inside four consecutive bytes have different CRC-32 values |
| CrcLaws.CollideIff | libpldm_intel/utils.c:84-91 | messages of equal length share their CRC-32 exactly when their sum leaves an empty register empty |
| CrcDivision.CollideIffDivisible | libpldm_intel/utils.c:84-91 | that is, exactly when their sum, followed by 32 zeros, is divisible by the generator polynomial |
| CrcLaws.FiveBytesCanCollide | libpldm_intel/utils.c:84-91 | two messages differing in five bytes share their CRC-32 |
| Firmware.AcceptedIff | libpldm_intel/firmware_update.c:18-33 | a request is accepted exactly when its length is from 32 to the maximum and it needs at most 32 bytes past the image end |
| Firmware.AcceptedIsBounded | libpldm_intel/firmware_update.c:18-51 | an accepted request starts at most at the image end; it is padded by what the image lacks, at most 32 and at most its length |
| Firmware.PaddedPortionIsWindow | libpldm_intel/firmware_update.c:73-110 | the image portion at the offset followed by the padding is the requested window of the image |
| Firmware.RangeIsCheckedAlike | libpldm_intel/firmware_update.c:18-51 | a request refused for its range when decoded is refused again when a response is encoded |
| Firmware.FirmwareUpdate.InitializeFwUpdate | libpldm_intel/firmware_update.c:11-16 | sets the sizes and keeps the remembered request |
| Firmware.FirmwareUpdate.DecodeRequest | libpldm_intel/firmware_update.c:53-71 | reads offset and length exactly, remembers the request even when refusing it, and reports the verdict |
| Firmware.FirmwareUpdate.GetPaddingLength | libpldm_intel/firmware_update.c:35-51 | the bytes requested past the image end, refused above 32 |
| Firmware.FirmwareUpdate.EncodeResponse | libpldm_intel/firmware_update.c:73-110 | the refusals exactly; then code, image portion and zeros fill the payload, or the number of bytes to copy exceeds the payload or the portion |
| Firmware.OverrunsIff | libpldm_intel/firmware_update.c:35-110 | a remembered request that passes all checks overruns the payload exactly if it asks for 31 bytes from one past the image end; decoding refused it |
| Firmware.ReassembledAt | libpldm_intel/firmware_update.c:11-110 | putting responses together, covered bytes are the image's or zero past its end, the others untouched |
| Firmware.ReassemblesIff | libpldm_intel/firmware_update.c:11-110 | accepted requests in any order reproduce every image exactly when they cover it |
| Firmware.EveryImageIsTransferred | libpldm_intel/firmware_update.c:11-110 | for every image and every portion size from 32 to the maximum the consecutive requests are accepted and their responses put together are the image |
| ChangeEvent.ExpectedSize | libpldm_intel/platform.c:1241-1254 | the precomputed size is the length of the encoding |
| ChangeEvent.EncodeChange | libpldm_intel/platform.c:1273-1288 | one record: header and entries, nothing else changed |
| ChangeEvent.Encode | libpldm_intel/platform.c:1229-1292 | the error cases exactly, the size alone without a buffer, otherwise the event's bytes |
| ChangeEvent.WalkOfEvent | libpldm_intel/platform.c:1229-1347 | walking an encoded event with the two decoders recovers the format and every change with every entry |
| ChangeEvent.EventOfWalk | libpldm_intel/platform.c:1294-1347 | whatever the walk accepts starts with the encoding of what it returns |
| Layouts.EventLayout | libpldm_intel/platform.c:1256-1290 | the bytes of an event, offset by offset |
| Vdm.VendorDatabase.ManageVdpciVersionInfo | mctpd/src/MCTPBinding.cpp:569-602 | adds a row for a new vendor, or updates the command set of its row |
| Vdm.RunsKeepDistinct | mctpd/src/MCTPBinding.cpp:569-602 | over every run vendor ids stay distinct and each vendor has the command set it registered last |
| Vdm.VendorsKeepTheirPlace | mctpd/src/MCTPBinding.cpp:569-602 | a vendor keeps its place in the database |
| Vdm.RunsUsePciIds | mctpd/src/MCTPBinding.cpp:569-602 | every row has vendor id format 0 |
| Vdm.SelectorsLeadThroughAll | mctpd/src/PCIeBinding.cpp:539-588 | following the selectors the responder reports from 0 on leads through the database in order, each row with all its fields, and not past its 255th row |
| Vdm.GetPciVdMessageSupport | mctpd/src/MCTPBinding.cpp:1451-1544 | against any peer the list is what was collected up to the first failure or last set, with success exactly at a last set |
| Vdm.EnumerationReadsAll | mctpd/src/MCTPBinding.cpp:1451-1544 | against the responder the whole database is read in order exactly for 1 to 255 vendors, the first 255 from there on, and an empty one is refused |
| SmbusTable.LookupsAreInverse | mctpd/src/SMBusBinding.cpp:220-247 | in a bijective table the two lookups are inverse to each other |
| SmbusTable.DiscoveredLookups | mctpd/src/SMBusBinding.cpp:723-806 | one device changes its own EID to its outcome, nobody else's, and the table stays a bijection |
| SmbusTable.PassResult | mctpd/src/SMBusBinding.cpp:723-806 | a device tried in a pass, at its bus address shifted up by one, ends it with the EID its registration returned, unless that is null or then another device's; the last try of an address counts |
| SmbusTable.PassKeepsBijection | mctpd/src/SMBusBinding.cpp:723-806 | a pass keeps the bijection and the EID of every address it does not try |
| SmbusTable.PassesKeepLookupsInverse | mctpd/src/SMBusBinding.cpp:723-806 | through any number of passes the lookups stay inverse, for any registration results |
| SmbusTable.SmbusBinding.RemoveDeviceTableEntry | mctpd/src/SMBusBinding.cpp:944-952 | removes exactly the rows of an EID |
| SmbusTable.SmbusBinding.GetEidFromDeviceTable | mctpd/src/SMBusBinding.cpp:954-972 | the EID of the first row with the address, null without one |
| SmbusTable.SmbusBinding.GetBindingPrivateData | mctpd/src/SMBusBinding.cpp:219-247 | the address of the first row with the EID and the mux settings of its bus, or nothing |
| SmbusTable.SmbusBinding.InitEndpointDiscovery | mctpd/src/SMBusBinding.cpp:723-806 | the registration loop is the specified pass over the devices |

## Left out

- D-Bus, asio, logging, file descriptors and I2C: ticks, messages, replies and registration outcomes are steps or
  parameters, over which every statement is universal.
- The bytes of routing table responses: a reply is the list of the fields that the code looks at, and the entry type byte
  is its kind and the remaining bits; libmctp's macros and codecs are not part of this model.
- Aliasing of stored PDRs: a record's bytes are a sequence held by its node, so that a caller writing through the pointer
  returned by a lookup is not modelled. Where the code writes or reads a record's header without looking at its size, the
  bytes touched are required to be there: the four of the handle for a PDR added with computed handle and for the local
  records of a removal that removes something, the type byte for the records that a search by type looks at.
- Memory exhaustion, `free` and the destroy functions.
- Timer errors: the queue's poll timer either fires or is cancelled by the queue itself. Waiting for the state of a request
  to change (`mctpd/src/MCTPBinding.cpp:1000-1046`) is left out; the queue's callback stands for it.
- Which bytes a request carries and whether a transmission succeeds matter to the control queue only as far as they change
  its entries; a transmission attempt is logged either way.
- `real32` fields of numeric PDRs are kept as bytes, and what the byte order conversion makes of one is a parameter, since
  it depends on the C library. On the integers among the common fields the conversions do nothing on the assumed host. On
  a failure the C parsers may have written part of the output structure; here nothing is returned. The repeated copies of
  one field width are one method with a count.
- EncodeResponse: the PLDM message header it writes is not modelled, only the check of the instance id. A copy that exceeds
  the payload or the image portion is the outcome `OutOfBounds`, after which nothing is promised.
- EntityAssociationPdrExtract: a read past the end of the input gives no array, and nothing is promised after it.
- DecodeRequest: an absent payload stands for any of its pointers being null; so does an absent buffer for the two event
  decoders `ChangeEvent.DecodeEvent` and `ChangeEvent.DecodeRecord`.
- GetPciVdMessageSupport: a request that cannot be formatted, gets no reply, or gets a short or unsuccessful one is one
  outcome, since each makes the enumeration fail at once.
- SelectorsLeadThroughAll: the generic library call before the lookup is taken to succeed; the SMBus responder
  (`mctpd/src/SMBusBinding.cpp:891-942`) differs only in the completion code of a refusal.
- InitEndpointDiscovery: scanning the buses for devices, the mux settings stored beside an address, and what other
  coroutines do to the table while a registration waits; a pass is a list of devices with their registration results.
- FRU record set PDRs, `busOwnerRegisterEndpoint` and the UUID table, the SMBus endpoint mode, the SMBus bandwidth timer,
  and the fixed-size PLDM encoders and decoders, which would only add easy members.
