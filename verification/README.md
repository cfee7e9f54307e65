# Verified model of the Auto Response control software

Auto Response lets an Ethernet controller answer ARP, neighbour discovery, ICMP echo and SNMP requests and
watch for wake-up packets while the processor sleeps. This Dafny project models the software that prepares
the controller for that, and proves what the prepared tables contain.

* **Interface collection** (`Devices`, `BoundedTable`, `BoundedPass`, `Ipv4Collection`, `Ipv6Collection`,
  `Ipv6Saturation`, `Ipv6Order`, `InterfaceTables`, `DeepSleep`). On every suspend, nested loops over a
  physical device and its VLAN devices fill tables of fixed capacity, whose live rows are then published.
  `InterfaceTables.InterfaceDb` holds the arrays and sizes that the loops change; its methods are proved
  against the sequences of rows written, and lemmas say exactly what those sequences are, for every topology
  and every capacity of at least one.
* **Wake-up rules** (`FilterTables`, `ProtocolNames`, `WakeupRules`, `WakeupTool`). Three arrays whose unused
  slots are recognised by a zero value, although zero is also a rule; and the tool that reads a file of
  sections and feeds them.
* **SNMP responses** (`SnmpTable`, `SingleOpen`). An array that behaves like a bounded map in insertion order,
  and the spin-lock protocol that gives one client at a time the right to change it.
* **SNMP text codecs** (`Strings`, `HexCodec`, `BitCodec`, `IntegerCodec`, `OidCodec`, `SnmpEntries`,
  `SnmpTool`). Loops that overwrite the buffer they read: dotted OIDs, hexadecimal and binary strings, numbers
  in their shortest big-endian form, the type-length-value entry, and whole configuration files.

`dafny verify dfyconfig.toml` checks the whole project.

## How to read it

Code that changes state step by step is a class or a method over arrays; its `ensures` clause ties the new
state to a specification function, and lemmas state what that function means, in the end in terms of the
addresses, fields, characters and octets of the original and without the function. An inner loop that the C
code nests in a longer function is a method of its own (`CopyVlanAddresses`, `CopyVlanNdp`, `CloseGap`,
`PackPairs`, `ConvertComponents`), so that its frame stays small. Arguments marked `ghost` carry the text or
the rows that a proof talks about and have no counterpart in the program.

Things that the C code does and that the proofs take into account:

* Leaving an address loop because a table is full leaves the inner loop only. Later VLAN devices each still
  overwrite the last slot and raise the published size, which can thus exceed the capacity.
  `BoundedPass.SizeWithinCapacityIff` (IPv4) and `Ipv6Saturation.SizeExceedsCapacityIff` (IPv6) say exactly
  when it does. The controller is handed the raw size, and then also reads what lies behind the table:
  `DeepSleep.PublicationIsDeterminedIff`.
* An IPv6 table that becomes full ends the address loop of the device for both kinds of address, so that
  addresses can be lost although they would fit; `Ipv6Collection.CompleteIff` says exactly when nothing is.
* Once the physical device has filled the temporary table, a VLAN address that carries both flags goes to the
  target table (`Ipv6Saturation.ShutTableMisplacesAddresses`).
* Storing a rule that looks like an unused slot, the zero rule or a port rule with both ports zero, leaves its
  slot looking unused. The count can therefore exceed the capacity, and the next search for a new rule then
  reads past the array. `FilterTables.RunClosedForm` gives the exact runs for which this happens;
  the methods report it as `outside`, where the original goes on with whatever it finds.
* A rule for port zero with a mask is overwritten by the next new rule
  (`FilterTables.MaskedZeroPortRuleIsLost`, `FilterTables.ReceiveKeepsLiveRulesIff`,
  `FilterTables.RunKeepsEverythingIff`).
* A protocol name is copied with its line break to buffers of ten bytes, first by the tool and then by the
  driver. Longer lines, among them those of known names such as IPv6-ICMP, do not fit
  (`WakeupTool.FileFeedsSections`, `WakeupTool.NameIsStoredIff`); this too is reported as `outside`.
* An unknown protocol name yields code 255 and is stored; the tests for a negative code never succeed on an
  unsigned byte.
* A full SNMP table or a full IP protocol table reports success, a full port table does not.
* The length of a decoded value is taken with `strlen`, so a decoded zero byte ends it.
  `SnmpEntries.HexIsStoredWholeIff` and `SnmpEntries.BitsAreStoredWholeIff` give the exact condition.
* A positive number whose bit length is a multiple of eight gets no leading zero octet, so an INTEGER reader
  sees a negative number (`IntegerCodec.SignedReadingIff`, `IntegerCodec.SmallestMisread`).
* The bytes of a number are copied from its memory, which is the network order on the big-endian target only
  (`armodule/source/Makefile:42`).

## Model

| member | source | states |
|---|---|---|
| BoundedTable.OverlayForgets | armodule/source/arctrl_core.c:189-199 | the live rows of a refilled table do not depend on its earlier contents |
| BoundedTable.OverlayIsLossless | armodule/source/arctrl_core.c:194-198 | a table shows every row written exactly when no more rows are written than it has slots |
| BoundedPass.FillIndexIsWhereTheTotalReachesRoom | armodule/source/arctrl_core.c:222-223 | the device that fills a table is the one whose addresses bring the total up to the free slots |
| BoundedPass.AcceptedClosedForm | armodule/source/arctrl_core.c:203-229 | the VLAN loop writes everything that fits, and afterwards the first address of each later device that has one |
| BoundedPass.WritesClosedForm | armodule/source/arctrl_core.c:179-232 | the rows written in both passes: the first `capacity` of all rows, then those overwriting first addresses |
| Ipv4Collection.ExactResult | armodule/source/arctrl_core.c:179-232 | size and every slot of the ARP table after collection, for every topology, including saturation |
| Ipv4Collection.PhysicalAddressesAreWrittenFirst | armodule/source/arctrl_core.c:187-198 | address `i` of the physical device is row `i` of the table, as far as there are slots, in the order of its list |
| Ipv4Collection.VlanAddressAt | armodule/source/arctrl_core.c:203-226 | address `j` of a running VLAN device stands behind those of the physical device and of the VLAN devices before it, with MAC and VID of its device |
| Ipv4Collection.RowsAreWrittenInOrder | armodule/source/arctrl_core.c:179-232 | there are no other rows than these, and the first `capacity` of them are written in this order |
| Ipv4Collection.LastDeviceTakesLastSlot | armodule/source/arctrl_core.c:221-226 | the last slot of a full table ends up with the first address of the last running VLAN device that has one |
| BoundedPass.CompleteIffAllFit | armodule/source/arctrl_core.c:179-232 | the table shows all addresses with the right size if and only if they all fit |
| BoundedPass.SizeWithinCapacityIff | armodule/source/arctrl_core.c:203-229 | the published size stays within the capacity if and only if the physical device fills the table alone, or nothing does, or no later non-empty device follows the filling one |
| BoundedPass.SizeCanExceedCapacity | armodule/source/arctrl_core.c:221-228 | two VLAN devices with one address each give a size of two with a capacity of one |
| Ipv4Collection.SizeBound | armodule/source/arctrl_core.c:194-221 | the size never exceeds the capacity by more than the number of devices |
| Ipv4Collection.WrittenRowsAreFromTheirDevices | armodule/source/arctrl_core.c:187-226 | every row written, also to a saturated table, has an address of the physical device or of a running VLAN device on it, with its MAC and VID; when all fit, every such row is written |
| Ipv6Collection.ShutTablesDoNotMatter | armodule/source/arctrl_core.c:257-287 | the flags set by the physical pass change nothing when all addresses fit |
| Ipv6Collection.CompleteIff | armodule/source/arctrl_core.c:234-331 | both tables show the order-preserving partition of all addresses if and only if all fit and no device has an address left when one of its addresses fills a table |
| Ipv6Collection.CompleteBelowCapacity | armodule/source/arctrl_core.c:234-331 | with both totals below the capacity nothing is lost, duplicated or cross-filed |
| Ipv6Collection.FullTableLosesAddressesOfTheOtherKind | armodule/source/arctrl_core.c:256-259 | a permanent address behind the temporary address that fills its table is lost although it would fit |
| Ipv6Collection.FullTargetLosesTemporaryAddresses | armodule/source/arctrl_core.c:269-272 | likewise a temporary address behind the permanent address that fills the target table |
| Ipv6Saturation.WalkFilesUpToItsEnd | armodule/source/arctrl_core.c:285-326 | in every case, with tables shut or full before and addresses of both kinds, a walk files exactly the addresses up to the first one that leaves its table full |
| Ipv6Saturation.WalkEnds | armodule/source/arctrl_core.c:285-326 | every walk has such an end |
| Ipv6Saturation.TableIsBoundedPass | armodule/source/arctrl_core.c:234-331 | while the other table has room, an NDP table receives exactly what the ARP pass would write from the addresses of its kind |
| Ipv6Saturation.ExactResult | armodule/source/arctrl_core.c:234-331 | size and every slot of an NDP table, saturated or not, for every topology in which the other table keeps room |
| Ipv6Saturation.SizeWithinCapacityIff | armodule/source/arctrl_core.c:284-326 | the size of such a table stays within the capacity if and only if no later device with an address of its kind follows the filling one |
| Ipv6Saturation.FewAddressesLeaveRoom | armodule/source/arctrl_core.c:256-273 | a table keeps room when there are fewer addresses of its kind than slots and, in case of the target table, no address carries both flags |
| Ipv6Saturation.WalkOverfillsIff | armodule/source/arctrl_core.c:300-323 | a walk fills a table up to the capacity; a table that is full before grows by one row if and only if the walk reaches an address of its kind |
| Ipv6Saturation.SizeExceedsCapacityIff | armodule/source/arctrl_core.c:284-326 | for every topology, also when both tables fill: a size exceeds the capacity if and only if some VLAN device reaches a table that is full already |
| Ipv6Saturation.SizesFitWhenAllFit | armodule/source/arctrl_core.c:234-331 | when all addresses fit, both sizes stay within the capacity |
| Ipv6Saturation.SizeCanExceedCapacity | armodule/source/arctrl_core.c:300-310 | two VLAN devices with one temporary address each give a size of two with a capacity of one |
| Ipv6Saturation.ShutTableMisplacesAddresses | armodule/source/arctrl_core.c:287-312 | a VLAN address with both flags goes to the target table once the physical device has filled the temporary one |
| Ipv6Saturation.WrittenRowsAreFromTheirDevices | armodule/source/arctrl_core.c:245-325 | the rows written, also to saturated tables, are an order-preserving selection of the addresses of their kind, with the MAC, VLAN flag and VID of their device |
| Ipv6Saturation.WrittenRowsAreRouted | armodule/source/arctrl_core.c:287-312 | for every topology, every row written is that of a visited device and of an address that goes to its table, the addresses with both flags behind a full temporary table included |
| Ipv6Order.PhysicalAddressAt | armodule/source/arctrl_core.c:245-274 | a temporary address of the physical device stands in the temporary rows behind the temporary ones before it, a permanent one likewise in the target rows, in the order of the list |
| Ipv6Order.VlanAddressAt | armodule/source/arctrl_core.c:278-325 | an address of a running VLAN device stands behind those of its kind of the physical device and of earlier VLAN devices, with MAC and VID of its device |
| Ipv6Order.RowsAreCounted | armodule/source/arctrl_core.c:234-331 | there are as many rows of a kind as addresses |
| Ipv6Order.RowsAreWrittenInOrder | armodule/source/arctrl_core.c:234-331 | while the other table has room, the first `capacity` rows of a kind are written in this order |
| InterfaceTables.InterfaceDb.constructor | armodule/source/arctrl_core.c:81-138 | the tables are allocated with the capacities given, and the echo databases share two of them |
| InterfaceTables.InterfaceDb.GetIpv4Info | armodule/source/arctrl_core.c:179-232 | the nested loops stay within the table and leave exactly the specified rows and size on top of stale contents |
| InterfaceTables.InterfaceDb.CopyVlanAddresses | armodule/source/arctrl_core.c:208-226 | the inner loop writes all rows that fit but at least one, and leaves the index at the smaller of size and last slot |
| InterfaceTables.InterfaceDb.GetIpv6Info | armodule/source/arctrl_core.c:234-331 | both NDP tables and sizes are exactly the specified ones, and every write is in bounds on every input |
| InterfaceTables.InterfaceDb.CopyPhysicalNdp | armodule/source/arctrl_core.c:243-276 | the physical pass, its indexes, and which table it has filled |
| InterfaceTables.InterfaceDb.CopyVlanNdp | armodule/source/arctrl_core.c:284-326 | the pass over one VLAN device, with both indexes at the smaller of size and last slot |
| DeepSleep.GetInterfaceInfo | armodule/source/arctrl_core.c:333-350 | the sizes restart at zero; without a device only that happens and an error is returned |
| DeepSleep.ProcessDeepSleepEvent | armodule/source/arctrl_fmd.c:158-210 | exactly when a suspend succeeds, its two error paths, and that each database handed over is the table of that name with its own raw size |
| DeepSleep.HandedIsPublished | armodule/source/arctrl_fmd.c:191-199 | reading each database that is handed over, with its own size, gives what the state publishes, field by field |
| DeepSleep.SizesFitIff | armodule/source/arctrl_fmd.c:191-199 | the published sizes fit if and only if no device writes an address to a table that is full already |
| DeepSleep.SuspendForgets | armodule/source/arctrl_fmd.c:179-199 | when the sizes fit, one successful suspend publishes the same whatever the tables held and whatever lies behind them in memory |
| DeepSleep.HistoryIndependence | armodule/source/arctrl_fmd.c:179-199 | when the sizes fit, a successful suspend publishes the same after any two histories, also with saturated tables |
| DeepSleep.PublicationIsDeterminedIff | armodule/source/arctrl_fmd.c:191-206 | what the controller reads is independent of the memory behind the tables if and only if the sizes fit |
| DeepSleep.EchoViewsAgree | armodule/source/arctrl_core.c:132-135 | after any run that ends in success, what is read through the echo databases equals what is read through the ARP and assigned-NDP databases |
| DeepSleep.EchoSizesAgreeAfterIff | armodule/source/arctrl_core.c:335-341 | exactly when the echo sizes agree with the table sizes after any suspend, failed ones included |
| DeepSleep.PublishesTheTopologyIff | armodule/source/arctrl_fmd.c:179-199 | what is read through the databases handed over is exactly the current topology and nothing stale if and only if all addresses fit and no IPv6 table fills up too early in a device |
| DeepSleep.TopologyOfPhysical | armodule/source/arctrl_core.c:187-274 | where that topology shows each address of the physical device, and the number of rows of each database |
| DeepSleep.TopologyOfVlan | armodule/source/arctrl_core.c:203-325 | where it shows each address of a running VLAN device |
| FilterTables.ReceivePacked | armodule/source/arctrl_wakeup.c:188-305 | the effect of one received rule, of any kind, on a table of rules, a slot that looks unused, and zeros; and exactly when it reads past the table |
| FilterTables.RunClosedForm | armodule/source/arctrl_wakeup.c:150-305 | the table after any sequence of any rules; a run reads past the table if and only if an absent rule comes when the kept rules and the stored rules that look unused outnumber the slots |
| FilterTables.SummaryIsCounted | armodule/source/arctrl_wakeup.c:188-305 | after any run the first distinct rules are kept in arrival order; a rule that looks unused has been counted if and only if one came while there was room |
| FilterTables.RunLeavesTableIff | armodule/source/arctrl_wakeup.c:150-186 | when zero is the only such rule, as for protocols: a run reads past the table if and only if zero was counted, the table then filled up, and an absent rule comes |
| FilterTables.ThreeProtocolsLeaveTable | armodule/source/arctrl_wakeup.c:180-183 | the protocols 0, 1 and 2 read past a table of one slot |
| FilterTables.MaskedZeroPortRuleLeavesTable | armodule/source/arctrl_wakeup.c:155-164 | so do three port rules without the zero rule, one of them with ports zero and a mask |
| FilterTables.RunWithoutZero | armodule/source/arctrl_wakeup.c:114-137 | for codes that are not zero and rules with a port that is not zero: the first `capacity` distinct rules in arrival order, and unused slots behind them |
| FilterTables.ReplayChangesNothing | armodule/source/arctrl_wakeup.c:206-224 | receiving known rules again changes nothing, also after an overflow |
| FilterTables.RunKeepsEverythingIff | armodule/source/arctrl_wakeup.c:188-305 | for any rules, the live slots are exactly the set of received rules if and only if the run stays in the table, the ordinary rules fit, and the live rules that look unused are those received |
| FilterTables.DistinctRulesAreKeptIff | armodule/source/arctrl_wakeup.c:188-305 | when zero is the only such rule, that is the case if and only if at most `capacity` distinct rules arrived; the count is then their number |
| FilterTables.ProtocolsAreKeptIff | armodule/source/arctrl_wakeup.c:206-224 | for any protocol codes, zero included, the live slots hold exactly the received codes if and only if at most `capacity` distinct ones came |
| FilterTables.RunKeepsLayout | armodule/source/arctrl_wakeup.c:114-137 | every run of arbitrary rules keeps unused slots behind used ones |
| FilterTables.ReceiveKeepsLiveRulesIff | armodule/source/arctrl_wakeup.c:231-258 | exactly when storing a rule overwrites a live one |
| FilterTables.MaskedZeroPortRuleIsLost | armodule/source/arctrl_wakeup.c:120-122 | a rule for port zero with a mask disappears when another rule arrives |
| ProtocolNames.StrncmpIsPrefix | armodule/source/arctrl_wakeup.c:143-144 | comparing as many characters as the given name has is a prefix test |
| ProtocolNames.SearchIsExact | armodule/source/arctrl_wakeup.c:139-148 | for a newline-terminated name the search finds the first entry with exactly that name, or yields 255 |
| ProtocolNames.GetProtCode | armodule/source/arctrl_wakeup.c:139-148 | the loop over the zero-padded name table returns the specified code |
| ProtocolNames.CodesCountUp | armodule/source/arctrl_wakeup.c:29-76 | the codes of the 139 names count up with the position, with five gaps and one number that has two names |
| ProtocolNames.WellKnownCodes | armodule/source/arctrl_wakeup.c:139-148 | the search yields 1 for ICMP, 6 for TCP and 17 for UDP |
| WakeupRules.FilterTable.GetFreeIndex | armodule/source/arctrl_wakeup.c:114-137 | the first slot with code zero, or with both ports zero; -1 if there is none |
| WakeupRules.FilterTable.GetIndex | armodule/source/arctrl_wakeup.c:150-186 | the first counted slot with the rule, or -1 if and only if there is none; exactly when the search reads past the array |
| WakeupRules.FilterTable.Store | armodule/source/arctrl_wakeup.c:232-258 | find or insert: the new table, that only a slot with code zero or both ports zero is overwritten, whether the rule is in it, and whether the search left the array |
| WakeupRules.WakeupDb.constructor | armodule/source/arctrl_wakeup.c:79-112 | three zeroed tables with the capacities given |
| WakeupRules.WakeupDb.RecvConfig | armodule/source/arctrl_wakeup.c:188-305 | one command changes one table as specified; only a full port table is reported; exactly when a search leaves its table |
| WakeupRules.CommandGoesToItsTable | armodule/source/arctrl_wakeup.c:197-295 | after a command its rule is in the table for it, unless that is full, and the other two tables are as before |
| WakeupRules.IsFullForIff | armodule/source/arctrl_wakeup.c:114-137 | a table is full for a rule if and only if it does not hold it and each slot has a code or a port that is not zero |
| WakeupTool.MemcmpIsPrefix | usr/ar-wakeup-lib/ar_wakeup_tool.c:57-63 | comparing as many bytes as the line has is a prefix test |
| WakeupTool.MemcmpIgnoresMemory | usr/ar-wakeup-lib/ar_wakeup_tool.c:57-63 | what lies behind the literal in memory does not matter to it, however long the line is |
| WakeupTool.HeaderMatchIsExact | usr/ar-wakeup-lib/ar_wakeup_tool.c:57-63 | for a complete line a header matches exactly when it is that line |
| WakeupTool.ClassifyIsExact | usr/ar-wakeup-lib/ar_wakeup_tool.c:55-67 | a complete line opens a section exactly when it is its header, and is data exactly when it has no leading `#` |
| WakeupTool.LineInSection | usr/ar-wakeup-lib/ar_wakeup_tool.c:55-84 | each complete line, by its text: the three headers open their sections, a line without `#` is data of the open section, any other changes nothing |
| WakeupTool.FileFeedsSections | usr/ar-wakeup-lib/ar_wakeup_tool.c:55-98 | processing a file feeds each table with the data lines of its own section, in order, and with nothing else; the program leaves a buffer if and only if a protocol line has ten or more characters or a table is overrun |
| WakeupTool.FileFailsIff | usr/ar-wakeup-lib/ar_wakeup_tool.c:86-145 | from zeroed tables, the program leaves a buffer or a table if and only if a protocol line has ten or more characters or the rules of a section overrun their table |
| WakeupTool.InterleavingDoesNotMatter | usr/ar-wakeup-lib/ar_wakeup_tool.c:139-145 | two files with the same data lines in each section leave all three tables equal |
| WakeupTool.FileIsStoredIff | usr/ar-wakeup-lib/ar_wakeup_tool.c:139-145 | from zeroed tables each table ends up with exactly the rules of its section if and only if the protocol lines fit their buffer, at most as many distinct protocols come as there are slots, and both port tables keep everything |
| WakeupTool.BlocksAreStored | usr/ar-wakeup-lib/ar_wakeup_tool.c:139-145 | a file of three blocks with few enough lines leaves each table with exactly the codes or port rules of its block |
| WakeupTool.NameIsStoredIff | usr/ar-wakeup-lib/ar_wakeup_tool.c:86-98 | a protocol name that is the only line of its section is stored if and only if, with its line break, it has fewer than ten characters |
| WakeupTool.Ipv6IcmpLeavesBuffer | usr/ar-wakeup-lib/ar_wakeup_tool.c:88-91 | the known name IPv6-ICMP does not fit the buffer |
| WakeupTool.Tool.ProcessIpProt | usr/ar-wakeup-lib/ar_wakeup_tool.c:86-98 | the copied line is sent as a protocol name; exactly when the copy leaves its buffer or the search its table |
| WakeupTool.Tool.ProcessLine | usr/ar-wakeup-lib/ar_wakeup_tool.c:55-84 | one line, compared byte by byte with the headers, changes section and tables as specified |
| WakeupTool.Tool.ProcessFile | usr/ar-wakeup-lib/ar_wakeup_tool.c:139-145 | the loop over all lines has the specified effect, up to a line with which the program leaves a buffer or a table |
| SnmpTable.CreateRefines | armodule/source/arctrl_snmp.c:97-120 | creating replaces in place, appends, or is ignored when the table is full |
| SnmpTable.DeleteRefines | armodule/source/arctrl_snmp.c:121-147 | deleting removes exactly one key and keeps the order of the others |
| SnmpTable.CreateIsFound | armodule/source/arctrl_snmp.c:97-120 | a created entry is found under its key unless the key is new and the table full; every other key shows what it showed before, and a new key comes last |
| SnmpTable.DeleteIsGone | armodule/source/arctrl_snmp.c:121-147 | a deleted key is not found any more, every other key keeps its entry and its order |
| SnmpTable.DeleteUndoesCreate | armodule/source/arctrl_snmp.c:97-147 | deleting what was just created for a new key gives the table back |
| SnmpTable.RunRefinesOrderedMap | armodule/source/arctrl_snmp.c:89-155 | every run of creates and deletes lists a finite map in insertion order, each key once |
| SnmpTable.RunIsBounded | armodule/source/arctrl_snmp.c:108-117 | no run stores more entries than there are slots |
| SnmpTable.CreatesAreLastWriteWins | armodule/source/arctrl_snmp.c:97-120 | after any list of creates: the first `capacity` distinct keys in arrival order, each with its last entry |
| SnmpTable.LastWriteIsLast | armodule/source/arctrl_snmp.c:97-107 | the last entry for a key is the one with none for it behind |
| SnmpTable.KeepsKeysDistinct | armodule/source/arctrl_snmp.c:89-155 | keys stay pairwise distinct under every operation |
| SnmpTable.SnmpDb.GetFreeIndex | armodule/source/arctrl_snmp.c:69-77 | the first slot without an OID is the one behind the entries in use |
| SnmpTable.SnmpDb.GetIndex | armodule/source/arctrl_snmp.c:79-87 | the position of the entry for an OID, or -1 |
| SnmpTable.SnmpDb.CloseGap | armodule/source/arctrl_snmp.c:126-143 | the shifting loop removes one entry, keeps the order of the others and clears the last slot |
| SnmpTable.SnmpDb.RecvAgentConfig | armodule/source/arctrl_snmp.c:89-155 | the new contents of the table; the result is always zero |
| SingleOpen.NextKeepsLock | armodule/source/arctrl_snmptool.c:44-50 | every step keeps the lock with at most one client |
| SingleOpen.NextKeepsCount | armodule/source/arctrl_snmptool.c:45-65 | every step keeps the count equal to the number of counted clients, which is at most one |
| SingleOpen.NextKeepsReads | armodule/source/arctrl_snmptool.c:35-68 | no step of another client invalidates a count or a slot that a client has read |
| SingleOpen.NextKeepsTable | armodule/source/arctrl_snmptool.c:101 | every step keeps the table equal to the completed creations, one after the other |
| SingleOpen.Safety | armodule/source/arctrl_snmptool.c:35-103 | the invariant holds in every reachable state, for any number of clients and every interleaving |
| SingleOpen.ReachableStates | armodule/source/arctrl_snmptool.c:35-103 | the open count is the number of clients that have the device and at most one; the table is that of the completed sends one after the other, keys distinct, size bounded |
| SingleOpen.LogIsCompletedSends | armodule/source/arctrl_snmptool.c:101 | for any interleaving, the creations that have taken effect are exactly the sends that have run to their end, in that order |
| SingleOpen.SendCreatesEntry | armodule/source/arctrl_snmptool.c:78-103 | a client that sends an entry gets back to holding the device with exactly this entry created |
| SingleOpen.UnlockedMeansHolding | armodule/source/arctrl_snmptool.c:44-65 | outside the critical section the counted clients are those that use or are about to release the device |
| SingleOpen.SecondOpenIsRefused | armodule/source/arctrl_snmptool.c:45-48 | a client that tests the count while another has the device is turned away |
| SingleOpen.Device.Open | armodule/source/arctrl_snmptool.c:35-56 | the statements are the steps of an open in the protocol, so that every state they lead to is a reachable one; the caller gets the device if and only if the minor number is zero and nobody has it, and otherwise who has it does not change |
| SingleOpen.Device.Release | armodule/source/arctrl_snmptool.c:58-68 | the statements are the steps of a release; the device belonged to the caller alone and to nobody afterwards |
| SingleOpen.UninterruptedOpen | armodule/source/arctrl_snmptool.c:35-56 | the steps of an open from any state with a free lock can all be taken, and lead to the device held or, when it is in use, back |
| SingleOpen.UninterruptedRelease | armodule/source/arctrl_wakeuptool.c:53-60 | the steps of a release likewise |
| SingleOpen.OpenMovesHolder | armodule/source/arctrl_snmptool.c:44-50 | an open without interruption makes the caller the only holder if there is none, and leaves the holders alone otherwise |
| SingleOpen.ReleaseFreesDevice | armodule/source/arctrl_snmptool.c:62-65 | before a release the caller is the only holder; after it there is none |
| HexCodec.PrintOfDecoded | usr/ar-snmp-lib/lib-tool/ar_snmp_tool.c:98-111 | printing the decoded bytes gives the lower-cased text back, without an odd last digit |
| HexCodec.DecodeOfPrinted | usr/ar-snmp-lib/lib-tool/ar_snmp_tool.c:98-111 | decoding inverts printing for every byte sequence |
| HexCodec.DecodedPair | usr/ar-snmp-lib/lib-tool/ar_snmp_tool.c:82-111 | a pair of digits, upper or lower case, becomes sixteen times the first plus the second |
| HexCodec.Atoi | usr/ar-snmp-lib/lib-tool/ar_snmp_tool.c:82-96 | the digits become their values up to the terminator, and nothing else changes |
| HexCodec.PackPairs | usr/ar-snmp-lib/lib-tool/ar_snmp_tool.c:104-109 | packing over the digits being read gives the pairs and a terminator; the one-byte index does not wrap |
| HexCodec.ConvertValue | usr/ar-snmp-lib/lib-tool/ar_snmp_tool.c:98-111 | the buffer ends up with one byte for each pair of digits and a terminator |
| BitCodec.ExpandOfPacked | usr/ar-snmp-lib/lib-tool/ar_snmp_tool.c:113-134 | expanding the packed bytes most significant bit first gives the digits back |
| BitCodec.PackedByte | usr/ar-snmp-lib/lib-tool/ar_snmp_tool.c:113-134 | eight digits become the sum of their weights from 128 down to 1 |
| BitCodec.PackOfExpanded | usr/ar-snmp-lib/lib-tool/ar_snmp_tool.c:113-134 | packing the digits of any bytes gives the bytes back |
| BitCodec.AddDigit | usr/ar-snmp-lib/lib-tool/ar_snmp_tool.c:127 | the shift and the or put one more digit in its place without disturbing the others |
| BitCodec.ConvertBitValue | usr/ar-snmp-lib/lib-tool/ar_snmp_tool.c:113-134 | the loop terminates and packs in place, behind the digits still to be read |
| IntegerCodec.GetSize | usr/ar-snmp-lib/lib-tool/ar_snmp_tool.c:51-65 | the bit-counting loop yields the least positive number of bytes that hold the value |
| IntegerCodec.GetVal | usr/ar-snmp-lib/lib-tool/ar_snmp_tool.c:67-80 | exactly the last `size` bytes of the value are copied |
| IntegerCodec.MinimalSizeIsMinimal | usr/ar-snmp-lib/lib-tool/ar_snmp_tool.c:51-65 | there is exactly one least number of bytes, between one and four |
| IntegerCodec.DecodeOfEncoded | usr/ar-snmp-lib/lib-tool/ar_snmp_tool.c:51-80 | the bytes read back as the value for every 32-bit value, and no leading byte is superfluous |
| IntegerCodec.SignedReadingIff | usr/ar-snmp-lib/lib-tool/ar_snmp_tool.c:160-166 | read as two's complement the bytes mean the given integer if and only if it is not positive with a bit length that is a multiple of eight; otherwise they mean it minus a power of 256 |
| IntegerCodec.SmallestMisread | usr/ar-snmp-lib/lib-tool/ar_snmp_tool.c:160-166 | 128 is read as -128, and no smaller number is misread |
| OidCodec.JoinOfComponents | usr/ar-snmp-lib/lib-tool/ar_snmp_tool.c:312-324 | the components contain no dot, and joined by dots they are the text |
| OidCodec.ComponentsOfJoined | usr/ar-snmp-lib/lib-tool/ar_snmp_tool.c:312-324 | splitting inverts joining |
| OidCodec.ParseOfPrinted | usr/ar-snmp-lib/lib-tool/ar_snmp_tool.c:307-329 | parsing the dotted form of a byte sequence gives it back up to its first zero, so all of it if and only if it has none |
| OidCodec.ParseOfNumbers | usr/ar-snmp-lib/lib-tool/ar_snmp_tool.c:307-329 | numbers of any size and sign, joined by dots, become their remainders modulo 256 up to the first zero |
| OidCodec.PrintOfThree | usr/ar-snmp-lib/lib-tool/ar_snmp_tool.c:313 | the notation at a concrete OID |
| OidCodec.AtoiOfPrintedInt | usr/ar-snmp-lib/lib-tool/ar_snmp_tool.c:69 | every integer is read back from its decimal notation, up to the first character that is no digit |
| OidCodec.AtoiSkips | usr/ar-snmp-lib/lib-tool/ar_snmp_tool.c:69 | white space before a number and a plus sign do not matter |
| OidCodec.ParseOidFits | usr/ar-snmp-lib/lib-tool/ar_snmp_tool.c:325-327 | the result never reaches beyond the terminator of the text it replaces |
| OidCodec.ConvertComponents | usr/ar-snmp-lib/lib-tool/ar_snmp_tool.c:309-324 | both scratch buffers stay in bounds and hold the converted components |
| OidCodec.ProcessString | usr/ar-snmp-lib/lib-tool/ar_snmp_tool.c:307-329 | the buffer ends up with the components modulo 256, up to the first that is zero |
| SnmpEntries.ContentIsShort | usr/ar-snmp-lib/lib-tool/ar_snmp_tool.c:160-294 | the contents never exceed 127 octets |
| SnmpEntries.ParseOfTlv | usr/ar-snmp-lib/lib-tool/ar_snmp_tool.c:136-305 | every built response is a well-formed short-form type-length-value sequence |
| SnmpEntries.ObjectIdIsRead | usr/ar-snmp-lib/lib-tool/ar_snmp_tool.c:192-219 | the response for a dotted object identifier is read as tag 6 and its components, one octet each |
| SnmpEntries.TextIsRead | usr/ar-snmp-lib/lib-tool/ar_snmp_tool.c:220-244 | the response for a text is read as tag 4 and the text |
| SnmpEntries.HexIsRead | usr/ar-snmp-lib/lib-tool/ar_snmp_tool.c:245-270 | the response for hexadecimal digits is read as tag 4 and their octets |
| SnmpEntries.BitsAreRead | usr/ar-snmp-lib/lib-tool/ar_snmp_tool.c:271-296 | the response for binary digits is read as tag 3 and their octets |
| SnmpEntries.NumberIsRead | usr/ar-snmp-lib/lib-tool/ar_snmp_tool.c:141-167 | the response for a decimal number is read under the tag of its type as that number, in its shortest form, with the exact signed exception |
| SnmpEntries.NumberOfTlv | usr/ar-snmp-lib/lib-tool/ar_snmp_tool.c:157-166 | the number of a line is read back from its response, as a signed number with the exact exception |
| SnmpEntries.HexIsStoredWholeIff | usr/ar-snmp-lib/lib-tool/ar_snmp_tool.c:262-264 | a hexadecimal value is stored whole if and only if no aligned pair of its digits is a double zero |
| SnmpEntries.BitsAreStoredWholeIff | usr/ar-snmp-lib/lib-tool/ar_snmp_tool.c:288-290 | a bit string is stored whole if and only if every group of eight digits holds a one |
| SnmpEntries.ConvertText | usr/ar-snmp-lib/lib-tool/ar_snmp_tool.c:210-288 | each type applies its own conversion to the value buffer |
| SnmpEntries.PutText | usr/ar-snmp-lib/lib-tool/ar_snmp_tool.c:237-239 | the length octet and the copied contents, up to the first zero |
| SnmpEntries.PutNumber | usr/ar-snmp-lib/lib-tool/ar_snmp_tool.c:161-163 | the length octet and the bytes of a number |
| SnmpEntries.SetParam | usr/ar-snmp-lib/lib-tool/ar_snmp_tool.c:136-305 | both buffers of the entry with sizes and terminators, all writes in bounds |
| SnmpTool.ShareEntryIff | usr/ar-snmp-lib/lib-tool/ar_snmp_tool.c:337-338 | two OID texts share an entry if and only if their components agree modulo 256 up to the first zero |
| SnmpTool.ObjectIdLine | usr/ar-snmp-lib/lib-tool/ar_snmp_tool.c:331-350 | a line with letter `o` yields one entry for its OID with tag 6 and the components of its value |
| SnmpTool.TextLine | usr/ar-snmp-lib/lib-tool/ar_snmp_tool.c:331-350 | a line with letter `s` or `d` yields one entry with tag 4 and its text |
| SnmpTool.HexLine | usr/ar-snmp-lib/lib-tool/ar_snmp_tool.c:331-350 | a line with letter `x` yields one entry with tag 4 and its octets |
| SnmpTool.BitsLine | usr/ar-snmp-lib/lib-tool/ar_snmp_tool.c:331-350 | a line with letter `b` yields one entry with tag 3 and its octets |
| SnmpTool.NumberLine | usr/ar-snmp-lib/lib-tool/ar_snmp_tool.c:331-350 | a line with letter `i`, `u`, `g` or `t` yields one entry with the tag of its type and its number |
| SnmpTool.OtherLetterYieldsNothing | usr/ar-snmp-lib/lib-tool/ar_snmp_tool.c:297-301 | exactly the nine type letters yield an entry |
| SnmpTool.EntriesSnoc | usr/ar-snmp-lib/lib-tool/ar_snmp_tool.c:377-380 | the entries of a file are those of its lines, in order |
| SnmpTool.LastResponseSnoc | usr/ar-snmp-lib/lib-tool/ar_snmp_tool.c:377-380 | a later line for the same OID takes the place of earlier ones, any other does not |
| SnmpTool.FileIsLastWriteWins | usr/ar-snmp-lib/lib-tool/ar_snmp_tool.c:331-350 | a file leaves the first `capacity` distinct OIDs in arrival order, each with the response of its last line |
| SnmpTool.CreateEntry | armodule/source/arctrl_snmptool.c:78-103 | the driver creates the entry with the contents of both buffers |
| SnmpTool.ProcessLine | usr/ar-snmp-lib/lib-tool/ar_snmp_tool.c:331-350 | one line goes through parser, encoder and table |
| SnmpTool.ProcessFile | usr/ar-snmp-lib/lib-tool/ar_snmp_tool.c:377-380 | the loop over a file has the effect of creating the entries of its lines |

## Left out

- DeepSleep.ProcessDeepSleepEvent: whether the two ports and the device exist is an input, because the kernel and frame manager calls that find them are not visible; the call that hands the tables over is modelled by what is returned.
- Ipv4Collection.ArpWrites: sizes are unbounded numbers; `Ipv4Collection.SizeBound` and `Ipv6Saturation.SizeBound` show that the 32-bit counters cannot wrap while the capacity plus the number of devices is below 2^32. Devices without an IPv4 or IPv6 configuration block are taken to have an empty list.
- Ipv6Saturation.ExactResult: needs the other table to keep room; where both tables fill, `WalkFilesUpToItsEnd` describes the pass device by device and `SizeExceedsCapacityIff` the sizes.
- Ipv6Saturation.WrittenRowsAreFromTheirDevices: for the target table it leaves out topologies with addresses of both flags behind a physical device that fills the temporary table; `WrittenRowsAreRouted` covers these too, without the order.
- WakeupTool.Tool.ProcessFile: the four numbers of a port rule are a function of the line, because the scanning library is not modelled; lines that do not hold four numbers leave uninitialised values in the original.
- WakeupTool.Tool.ProcessIpProt: stops where the original would write behind its buffer; what such a write does is not modelled.
- InterfaceTables.InterfaceDb.constructor: needs capacities of at least one, because the original writes a slot before it looks at the capacity.
- WakeupRules.FilterTable.GetIndex: stops where the original would read behind the table; what it then finds there is not modelled.
- FilterTables.RunLeavesTableIff: is stated for zero as the only rule that looks unused; `RunClosedForm` covers all rules.
- SingleOpen.ReachableStates: the interleaved table updates are those of the SNMP device; the wake-up device repeats the same protocol around its own tables. Clients are single-threaded, and a waiting client is one that cannot take its step yet. Storing an entry, its four fields and the count, is one step.
- SingleOpen.Device.Open: runs from a moment when the lock is free, and without interruption; interleavings are those of the step model.
- SingleOpen.Device.Release: likewise.
- SnmpTable.SnmpDb.RecvAgentConfig: entries are values, so nothing is said about the ownership of their buffers; deleting an entry in the original frees the buffers of the last one.
- SnmpTool.ProcessFile: lines are given as their three scanned fields, each shorter than its 128-byte buffer.
- SnmpEntries.SetParam: addresses of type `a` are not covered, because their size is measured before the buffer is terminated; allocation succeeds.
- BitCodec.ConvertBitValue: needs a multiple of eight digits, because otherwise the original reads behind the text.
- HexCodec.ConvertValue: needs at least one digit, because the original computes the length minus one.
- OidCodec.ProcessString: needs components of at most three characters and at most 127 components, the sizes of its scratch buffers.
- IntegerCodec.GetSize: takes the converted number; decimal texts outside the 32-bit range are undefined in the original.
- Community strings, sysfs and proc files, statistics, debug dumps, module registration and removal, and the resume handler: straight-line code or calls into code that is not visible.
