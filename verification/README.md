# Proofs about the quartz-sonic configuration engine

`quartz-sonic` is the agent that runs on a SONiC switch and carries configuration
requests into CONFIG_DB and into FRR. This project models the part of it that decides
what ends up configured, and proves what each call leaves behind, whatever the requests
are and wherever a redis call fails:

- **The write layer** (`Store`, `Keys`, `Diffs`): the database as a map from keys to
  non-empty rows, a platform on which any call may fail (a failed write may have
  happened all the same), the undo log `Batch` with its rollback, unbatched write
  chains, key building and splitting, and the diff of two row families.
- **Convergence to a requested state**: interfaces and VRFs (`L3`, `L3Calls`, `Vrfs`,
  `VrfReads`, `VrfCalls`), VLAN membership (`Vlans`, `VlanWrites`, `VlanLifecycle`,
  `VlanUpdate`, `VlanRuns`), spanning tree (`Stp`, `PortDigest`), BGP in both of its
  schemas (`Bgp`, `BgpCalls`), static routes (`StaticRoutes`), OSPF areas (`Ospf`), ACLs
  (`Acl`, `AclWrites`) and FDB entries (`Fdb`). Each call is a method on the failing platform;
  what its writes amount to is a function or a transition on stores; and the safety
  properties are lemmas over every run of the transitions.
- **Printers and parsers**: FRR routing policy (`Policy`, `PolicyRoundTrip`,
  `PolicyTheorems`) and BFD peers (`Bfd`), each proved to undo the other, and the
  daemons' commands, word by word (`CommandWords`) and interpreted, so that a put is proved
  to leave exactly the requested object (`PolicyWrites`, `PolicyRuns`, `PolicyDaemon`,
  `BfdWrites`).
- **Algorithms**: both copies of the civil-date conversion (`Calendar`), natural
  ordering of names with saturating numbers (`NaturalOrder`), base-32 over a wrapping
  32-bit accumulator (`DeviceId`), area identifiers (`Ospf`), the memoised join over
  ASIC_DB (`Fdb`).

`Common` and `Text` hold numbers in decimal, words, lines and trimming; `VrfWitness`,
`StpWitness` and `Counterexamples` hold inputs that end where one would not expect.
`dafny verify dfyconfig.toml` checks everything.

## How failure is modelled

`Store.Platform` has a schedule that says of each call whether it works, is refused, or
reports failure although the write happened. "No call failed" is `AllWork` over the
calls a method made. `OneFailureAtMost` says that at most one of them failed, so that
whatever failed, the writes of the rollback work: this is the condition under which a
failed batch is proved to leave the store exactly as it was. A `steady` platform repeats
no key in a scan. `Platform.log` lists the writes that took effect, and the properties
about every intermediate store are stated on it.

## How results are stated

What a call leaves is said twice: as the store that its writes produce, which the proofs
about failures and runs use, and read back field by field (`Keys.Raw`, `Keys.SaysNumber`,
`Keys.SaysBool`, `Keys.KeepsOthers`), without the functions that build the writes. The
same holds for what is printed: `Calendar.PrintedByPosition`, `CommandWords`.

## Where the code does less than one would expect

Some natural claims are false of the code. For each of them the project proves when
exactly the code meets it, and it gives an input on which the claim fails (`Counterexamples`
where no other member is named):

- A prefix list named `ge` or `le` is misread, and only through its own rules
  (`PolicyTheorems.RoundTripExactly`).
- Settings of a BFD peer that follow a `profile` line inside the peer are lost on reading
  back (`Bfd.ReadBackExactly`, `Bfd.ProfileReferenceHidesSettings`). The agent itself
  never writes that order.
- Distinct names can compare equal in natural order, so that a sort and a dedup can leave
  a name twice (`NaturalOrder.SortDedupIsUniqueExactly`, `NaturalOrder.SortDedupCanRepeat`).
- A `delete_vrf` that cannot read the rows that bind the VRF removes it all the same:
  exactly when every one of them was lost (`VrfCalls.DeleteVrf`,
  `VrfWitness.BoundVrfDeleted`).
- Clearing the last field of a VLAN's row removes the VLAN under its members; an update
  does so exactly when its row keeps no field at some step and has members then, and no
  other call ever does (`VlanUpdate.UpdateVlan`, `VlanRuns.EveryRunKeepsMembers`,
  `VlanUpdate.ClearedLastField`).
- A member row under a misspelt VLAN name survives every port update
  (`VlanWrites.UpdatePort`), and a static FDB row under one survives every write of the
  entry (`Fdb.PutStatic`, `Fdb.DeleteStatic`).
- Neither the timers of one VLAN nor the global timers under its overrides are checked for
  the relation of IEEE 802.1D as they take effect together (`Stp.PutVlan`,
  `Stp.PutGlobal`, `StpWitness`).
- Taking a BGP instance or spanning tree down deletes the parent row first, so that an
  interruption leaves orphans (`BgpCalls.InterruptedTeardown`, `Stp.InterruptedDisable`);
  deleting an ACL table or rule deletes rules before descriptions, so that one leaves
  descriptions without their rule (`AclWrites.InterruptedDrop`,
  `AclWrites.InterruptedDeleteRule`).
- In legacy mode `delete_neighbor` does not check the peer, so a peer with a bar in it
  names a row of the other schema (`BgpCalls.DeleteNeighbor`).

## Model

| member | source | states |
|---|---|---|
| Store.Platform.Write | src/sonic/store.rs:81-113 | a write with nothing in it never reaches redis; a write that reports failure has either happened in full or not at all, and the log lists exactly the writes that took effect |
| Store.Platform.Scan | src/sonic/store.rs:76-79 | a scan that works yields exactly the keys with the prefix, in any order, and possibly repeated unless the platform is steady |
| Store.Batch.Snapshot | src/sonic/store.rs:287-294 | one snapshot a key, holding the row the key had before the batch touched it; nothing in the store changes |
| Store.Batch.Run | src/sonic/store.rs:296-309 | after any step, failed or not, every row either still is what it was before the batch or has a snapshot of what it was |
| Store.Batch.Rollback | src/sonic/store.rs:311-320 | if the calls of the rollback work, the store is again exactly the one before the batch, whichever writes had happened, one reported as failed included |
| Store.Apply | src/sonic/store.rs:324-337 | success exactly when no call failed, and then the store is the one the writes produce run directly; with one failing call, a snapshot read or a write, applied or not, the store is unchanged; rows the batch does not name never change whatever fails; what reached the log is a first part of the program and, after a failure, restoring writes only |
| Store.WriteEach | src/sonic/stp.rs:554-570 | a chain of unbatched writes stops at the first failure, having carried out a prefix of them |
| Store.DeleteEach | src/sonic/stp.rs:490-492 | an unbatched deletion loop removes the rows of a prefix of the keys and no other, and the first call to fail says how many |
| Store.WrittenOnce | src/sonic/store.rs:441-477 | what any row reads after a program that writes it at most once |
| Keys.TwoPartsExactly | src/sonic/store.rs:202-205 | splitting a key at the first bar inverts building it: a key splits into (a, b) exactly when it is the prefix, a, a bar and b, neither part empty |
| Keys.ThreePartsExactly | src/sonic/store.rs:208-212 | the same for keys of three parts |
| Keys.BoolFieldReadBack | src/sonic/switching.rs:434-440 | a boolean written to a field is read back |
| Keys.NumFieldReadBack | src/sonic/switching.rs:410-412 | a number written to a field is read back, when it fits the width of the reader |
| Keys.DeleteBeneath | src/sonic/acl.rs:283-292 | deleting every scanned key below a prefix removes rows below it only, and all of them when no call fails |
| L3.ConvergeReachesTarget | src/sonic/l3.rs:234-277 | the forward writes of converge end in the target store, whatever was there |
| L3.TargetMeaning | src/sonic/l3.rs:234-277 | what the target holds, read back: exactly the desired addresses; the attribute row if and only if a VRF or an address was asked for, naming the VRF and no placeholder with one, a placeholder without one, its other fields kept; kept address rows under an unchanged VRF as they were, every other address row a placeholder; every other row the same |
| L3.ConvergeIsSequenced | src/sonic/l3.rs:249-276 | at every intermediate store: a write that changes the VRF in effect happens while the interface has no address row, and an address row is added only under an existing attribute row |
| L3.KeptRowsNotWritten | src/sonic/l3.rs:249-276 | with the VRF unchanged, no write at all names a kept address row |
| L3Calls.WriteProgram | src/sonic/l3.rs:249-276 | the batch body: stale addresses go, then the attribute row, then the missing addresses, for any order of the scan |
| L3Calls.Converge | src/sonic/l3.rs:234-277 | exactly the target store, or, when one call failed, exactly the starting store; the forward writes that took effect, of a failed call too, follow the order above, and all after them restore; read back, the store holds just that |
| L3Calls.ReadCurrent | src/sonic/l3.rs:234-248 | what converge reads is the VRF in effect and the address set |
| Vrfs.StepKeepsConsistent | src/sonic/l3.rs:195-466 | every transition of the write calls, failed writes included, keeps: each bound VRF has its row, and each attribute row lies in the table of its interface kind |
| Vrfs.EveryRunStaysConsistent | src/sonic/l3.rs:195-466 | over every run of VRF, interface and loopback calls, with writes failing anywhere, every bound vrf_name names an existing VRF row |
| VrfCalls.CheckBase | src/sonic/l3.rs:180-193 | an interface is accepted only if its base row exists, and always then when the reads work |
| Vrfs.RowsByName | src/sonic/l3.rs:50-66 | in which table the rows of an interface lie, by its name |
| VrfCalls.CheckInput | src/sonic/l3.rs:195-216 | accepted input names an existing VRF and distinct well-formed addresses; with the reads working, exactly that input is accepted |
| VrfCalls.PutInterface | src/sonic/l3.rs:219-231 | each call is one transition of the runs above, the target store or the starting store; its forward writes, of a failed call too, are in the order SONiC demands; without a failing call the answer is done exactly when the interface exists and the input is valid; done, the interface reads back as asked for, its attribute row there if and only if a VRF or an address was |
| VrfCalls.CreateLoopback | src/sonic/l3.rs:294-307 | the same for a new loopback, its order included; refused when the name is taken or malformed |
| VrfCalls.DeleteInterface | src/sonic/l3.rs:309-327 | deletes the rows of the one interface only, all of them on success, a part of them on failure; without a failing call done exactly for an existing loopback |
| VrfCalls.CreateVrf | src/sonic/l3.rs:403-417 | the VRF row is written in order, a prefix of the writes on failure; refused without a write; done, its fallback and vni read back as asked for, its other fields kept; without a failing call done exactly for a valid new VRF |
| VrfCalls.UpdateVrf | src/sonic/l3.rs:419-427 | the same for an existing VRF |
| VrfCalls.WriteVrfFields | src/sonic/l3.rs:429-444 | the fields of a VRF row, unbatched: a prefix of the writes has happened; done, they read back as asked for and no other row changed |
| VrfReads.L3Rows | src/sonic/l3.rs:73-93 | the rows read are those of the four tables, one call for each scan and each row; a row whose last read failed counts as empty |
| VrfReads.MergedSeesBinding | src/sonic/l3.rs:451-464 | with every attribute row in its own table, the merged map shows each binding whose row was read |
| VrfReads.ShownExactly | src/sonic/l3.rs:451-464 | the merged map shows nothing bound to the VRF exactly when every row that binds it was lost |
| VrfCalls.DeleteVrf | src/sonic/l3.rs:446-466 | deletes the VRF row and nothing else; with only row reads failing it is done exactly when every row that binds the VRF was lost, else refused; unless the VRF is bound and all of that was lost, the call is one of the transitions whatever fails |
| VrfCalls.DeletingVrfSafeExactly | src/sonic/l3.rs:446-466 | removing a VRF row keeps the bindings whole exactly when nothing is bound to it |
| VrfWitness.BoundVrfDeleted | src/sonic/l3.rs:446-465 | a store and a schedule: the one row that binds the VRF cannot be read, the call is done, and the interface stays bound to no VRF |
| Calendar.CivilIsInverse | src/sonic/system.rs:664-675 | for every day number the date is valid and counting its days gives the number back |
| Calendar.CivilOfDays | src/sonic/system.rs:664-675 | for every valid date the date of its day number is the date itself |
| Calendar.CivilFollowsCalendar | src/sonic/system.rs:664-675 | day 0 is 1970-01-01 and the date of the next day is the Gregorian successor |
| Calendar.CopiesAgree | src/cli/mod.rs:264-274 | the second copy of the algorithm computes the same date for every day number |
| Calendar.StampDeterminesSecond | src/sonic/system.rs:665-681 | hours, minutes and seconds are in range and the printed tuple recomputes the Unix second (section 5.6 of RFC 3339) |
| Calendar.PrintedTimeDeterminesSecond | src/cli/mod.rs:264-280 | both printed texts determine the second: equal texts exactly for equal seconds, over all integers |
| Calendar.PrintedByPosition | src/sonic/system.rs:664-682 | for every instant of the years 0 to 9999 the digits of year, month, day, hour, minute and second stand at their places in the text, with the separators between them, in both printers |
| NaturalOrder.NaturalCmp | src/sonic/switching.rs:375-396 | the loop terminates; Less exactly when, after parts that read alike, the first name has ended or holds the smaller number or the smaller byte; Greater the other way; Equal exactly on equal token sequences |
| NaturalOrder.NaturalLessExactly | src/sonic/switching.rs:372-396 | the same of the comparison of any two names, said without it |
| NaturalOrder.NumbersOrder | src/sonic/switching.rs:372-374 | after any start that ends in no digit, the smaller number comes first, Ethernet4 before Ethernet12 |
| NaturalOrder.BytesOrder | src/sonic/switching.rs:390-393 | after a common start the smaller byte comes first, unless both are digits |
| NaturalOrder.PrefixOrders | src/sonic/switching.rs:379-380 | a name comes before every longer one that goes on with another token |
| NaturalOrder.TakeNumberValue | src/sonic/switching.rs:400-407 | a digit run is read as the smaller of its decimal value and 2^64 - 1 |
| NaturalOrder.FoldIsCapped | src/sonic/switching.rs:400-407 | the saturating fold from any point on is the cap of the whole decimal value |
| NaturalOrder.NaturalIsTotalPreorder | src/sonic/switching.rs:375-396 | reflexive, antisymmetric under flipping, transitive, and Equal exactly on equal token sequences |
| NaturalOrder.DistinctNamesCanTie | src/sonic/switching.rs:375-396 | two distinct names that compare Equal |
| NaturalOrder.SortDedupIsUniqueExactly | src/sonic/l3.rs:124-125 | after a stable sort and a dedup of neighbours each name occurs once exactly when no two tying names alternate in the input |
| NaturalOrder.SortDedupCanRepeat | src/sonic/l3.rs:124-125 | a list of two tying names, one of them twice, keeps it twice |
| NaturalOrder.SortDedupUniqueWithoutTies | src/sonic/stp.rs:157-158 | in particular when no two distinct names tie |
| DeviceId.CrockfordPrefix | src/identity/deviceid.rs:17-38 | for every byte string and n >= 1: min(n, ceil(8 len / 5)) characters, character i standing for the i-th five-bit group, most significant bit first, of the zero-padded bits (section 6 of RFC 4648), although the accumulator wraps at 32 bits |
| DeviceId.EncodePrefixAgreesExactly | src/identity/deviceid.rs:17-38 | two outputs share a prefix exactly when the padded bits under it agree |
| DeviceId.EncodeInjective | src/identity/deviceid.rs:17-38 | full-length output is injective on byte strings of one length |
| DeviceId.DeriveDeviceId | src/identity/deviceid.rs:41-50 | the id is QS and the first sixteen characters in four groups |
| DeviceId.DeviceIdCarriesTenBytes | src/identity/deviceid.rs:41-50 | two digests give one id exactly when their first ten bytes agree |
| Policy.ParseRunningConfig | src/sonic/policy.rs:141-200 | the loop over lines, with the entry it has open, computes the fold the theorems below are about |
| PolicyRoundTrip.ClauseParses | src/sonic/policy.rs:205-236 | every kind of clause line of an entry, printed for any valid value, sets its own field and no other |
| PolicyTheorems.RuleParses | src/sonic/policy.rs:104-138 | a printed prefix rule is read back as its normal form: itself, except that a list named like a bound keyword misleads the reader in the way the normal form says |
| PolicyTheorems.EntryParses | src/sonic/policy.rs:548-592 | the lines of an entry, whatever clauses are present, add that entry and close it |
| PolicyTheorems.ListsParse | src/sonic/policy.rs:110-138 | printed lists are appended in order, rules under their own list |
| PolicyTheorems.MapsParse | src/sonic/policy.rs:141-236 | printed maps are appended in order, entries under their own map |
| PolicyTheorems.IndentationIgnored | src/sonic/policy.rs:155-198 | parsing sees only the trimmed lines |
| PolicyTheorems.ParseOfPrinted | src/sonic/policy.rs:141-200 | for every validated policy and any text that prints it with any indentation: the normalised policy comes back and no definition appears among the references |
| PolicyTheorems.ParseOfPrintedText | src/sonic/policy.rs:141-200 | the same for the unindented text itself |
| PolicyTheorems.ParseOfRunning | src/sonic/policy.rs:141-200 | amid the other lines of a running configuration the normalised policy comes back as well, and the references are exactly the route maps those lines refer to |
| Policy.ReferenceExactly | src/sonic/policy.rs:192-198 | the map a line refers to is the word after its first route-map |
| PolicyTheorems.RoundTripExactly | src/sonic/policy.rs:104-236 | the policy comes back unchanged exactly when no list named ge or le carries a rule that misreads and free text is trimmed and single-spaced |
| Counterexamples.GeListReadsOtherwise | src/sonic/policy.rs:104-107 | a valid prefix list named ge whose rule is read back without its bound |
| PolicyTheorems.WordsUnchangedExactly | src/sonic/policy.rs:205-236 | rejoining the words of a text changes nothing exactly when it is single-spaced |
| PolicyWrites.CheckedRuleIsValid | src/sonic/policy.rs:355-381 | every prefix rule that passes the checks is one the round trip covers |
| PolicyWrites.CheckedEntryIsValid | src/sonic/policy.rs:504-546 | every map entry that passes the checks is one the round trip covers |
| PolicyWrites.PutPrefixListEffect | src/sonic/policy.rs:411-427 | interpreting the commands of a put leaves exactly the requested list, with every other object unchanged, when no name is used in both families |
| PolicyWrites.DeletePrefixListEffect | src/sonic/policy.rs:433-462 | deleting removes exactly the named list |
| PolicyWrites.PutRouteMapEffect | src/sonic/policy.rs:596-621 | interpreting the commands of a map put leaves exactly the requested map and every other object unchanged |
| PolicyDaemon.Daemon.PutPrefixList | src/sonic/policy.rs:393-429 | the running text is parsed and the list is emitted as text; done exactly when the input passes the checks and both vtysh sessions work; then the requested list and nothing else changed; wherever FRR stopped taking commands, what is left is a step of the runs below |
| PolicyDaemon.Daemon.DeletePrefixList | src/sonic/policy.rs:433-462 | deleted exactly when the running text shows it and no route map matching on it; afterwards none does; taken or not, a step of the runs below |
| PolicyDaemon.Daemon.PutRouteMap | src/sonic/policy.rs:596-621 | exactly the requested map from the emitted text, every other object unchanged; wherever FRR stopped taking commands, what is left is a step of the runs below |
| PolicyDaemon.Daemon.DeleteRouteMap | src/sonic/policy.rs:625-641 | removes exactly a map that the running text shows and does not refer to elsewhere; taken or not, a step of the runs below |
| PolicyRuns.ListPutKeeps | src/sonic/policy.rs:411-429 | of a list put taken in part, nothing happened, or the old list is gone and a first part of the new one is there; no name comes into two lists and the lists of other names are what they were |
| PolicyRuns.MapPutKeeps | src/sonic/policy.rs:596-621 | a map put of which FRR took a first part of the commands leaves no map twice and every other map and list what it was |
| PolicyRuns.StepKeeps | src/sonic/policy.rs:393-641 | each write, stopped after any of its commands, keeps: no prefix-list name in two lists, of one family or both, and no route map twice |
| PolicyRuns.EveryRunKeeps | src/sonic/policy.rs:393-641 | over every run of the four writes, each stopped anywhere, both hold, and a list or map that no call of the run writes is what it was, deletions of a map that is referred to included |
| PolicyRuns.StepMatchesNone | src/sonic/policy.rs:548-592 | only a map put whose entries ask for it, taken in whole or in part, makes a map match on a list |
| PolicyRuns.MatchedListStays | src/sonic/policy.rs:433-462 | over every run, a list that a route map matches on is what it was while no call writes that map or puts the list, whatever deletions were asked for |
| PolicyRuns.DeletedListUnmatched | src/sonic/policy.rs:433-462 | over every run, after a deletion that took effect the list is away until it is put again, and no map matches on it until one is put that asks for it |
| PolicyDaemon.RuleLines | src/sonic/policy.rs:417-426 | the commands that build a list are, as text, the printed list |
| PolicyDaemon.MapLines | src/sonic/policy.rs:548-592 | the commands that build a map are, as text, the printed map |
| CommandWords.PrefixLineWords | src/sonic/policy.rs:411-427 | the words of a prefix-list command as FRR splits them: family, list, sequence number, action, prefix, each bound behind its keyword |
| CommandWords.HeaderWords | src/sonic/policy.rs:549-615 | the words that open an entry and those that remove an object |
| CommandWords.ClauseLineWords | src/sonic/policy.rs:548-592 | the words of every clause of an entry |
| CommandWords.ClausesAre | src/sonic/policy.rs:548-592 | an entry has, for each part given, the clause with its value, and no other |
| Bfd.ParsePeerLine | src/sonic/bfd.rs:105-131 | the index loop computes the keyword scan, an argument being taken whatever word it is |
| Bfd.IdentityScans | src/sonic/bfd.rs:195-216 | the identity-line parser inverts the printer for every peer, also when an interface or VRF is named like a keyword |
| Bfd.SettingParses | src/sonic/bfd.rs:133-145 | each setting line, printed for any value that fits, has its meaning and no other effect |
| Bfd.ParseRunningBfd | src/sonic/bfd.rs:49-103 | the loop over lines computes the fold the theorems below are about |
| Bfd.ParseOfPrinted | src/sonic/bfd.rs:49-103 | whatever precedes the block, however it is indented, with profile blocks of any content in between and any text after the closing exit: exactly the entries of the block are reported |
| Bfd.ReadBackExactly | src/sonic/bfd.rs:75-81 | a peer is read back whole exactly when the settings after a profile reference inside it add nothing to those before |
| Bfd.ProfileReferenceHidesSettings | src/sonic/bfd.rs:75-81 | a peer whose interval is lost on reading back because a profile reference stands before it |
| Bfd.RoundTrip | src/sonic/bfd.rs:49-145 | every list of valid peers in the form the agent writes is read back as it was, for any text around it |
| Bfd.RoundTripOfText | src/sonic/bfd.rs:49-145 | the same for the block as one text followed by any text |
| BfdWrites.CheckedPeerIsValid | src/sonic/bfd.rs:277-325 | every peer that passes the checks is one the round trip covers |
| CommandWords.IdentityLineWords | src/sonic/bfd.rs:195-216 | the words of an identity line: each value behind its keyword |
| CommandWords.SettingLineWords | src/sonic/bfd.rs:349-366 | the words of each setting line |
| BfdWrites.PutEffect | src/sonic/bfd.rs:327-366 | interpreting the commands of a put leaves the requested peer with exactly its settings and every peer of another identity as it was |
| BfdWrites.PutCutShort | src/sonic/bfd.rs:327-366 | what any first part of the commands of a put leaves: the old peers, or those without the replaced one, or these and the new peer with a first part of its settings |
| BfdWrites.PartlyPutKeepsOne | src/sonic/bfd.rs:327-366 | none of these has an identity twice |
| BfdWrites.Daemon.PutPeer | src/sonic/bfd.rs:277-366 | the answer is exactly determined, a vtysh session that fails included; done, the peer of the identity is replaced whatever local address it had; wherever FRR stopped taking commands the old peer stands, or is gone, or the new one is there with a first part of its settings, every other peer is what it was and no identity occurs twice |
| BfdWrites.Daemon.DeletePeer | src/sonic/bfd.rs:380-406 | the answer is exactly determined; done, exactly the peer of the identity is removed, so that none is left; otherwise the peers are what they were or that one is gone |
| StaticRoutes.SlotsAreClean | src/sonic/staticroutes.rs:73-78 | a slot read from any field is empty, or trimmed and without a separator |
| StaticRoutes.DecodedIsClean | src/sonic/staticroutes.rs:81-103 | decoding any row at all yields only hops the columns can hold |
| StaticRoutes.HopsRoundTripExactly | src/sonic/staticroutes.rs:81-117 | decoding an encoded list gives the list, of any length, exactly when every hop is one the columns can hold |
| StaticRoutes.RewrittenRowReadsTheSame | src/sonic/staticroutes.rs:81-117 | a row rewritten from what was read of it reads the same |
| StaticRoutes.CheckedHopsAreClean | src/sonic/staticroutes.rs:170-201 | every validated hop list is one the columns can hold |
| StaticRoutes.SpellingsExactly | src/sonic/staticroutes.rs:128-228 | a key is read as the route exactly when it is one of the keys that the writes look at for the route |
| StaticRoutes.CheckRoute | src/sonic/staticroutes.rs:158-216 | with the reads working, exactly the valid routes are accepted |
| StaticRoutes.PutLeavesOneRow | src/sonic/staticroutes.rs:233-249 | after a put exactly one row across both spellings holds the route, it decodes to the requested hops, and every other row is the same |
| StaticRoutes.Put | src/sonic/staticroutes.rs:233-249 | done: that store; one failing call: the store unchanged; without a failing call done exactly for the valid routes of a supported image; the row written holds each value of each hop in its own column at the place of the hop |
| StaticRoutes.RowSays | src/sonic/staticroutes.rs:106-126 | the row of any list of clean hops, column by column and hop by hop, and no other field |
| StaticRoutes.Get | src/sonic/staticroutes.rs:128-152 | one document for each scanned key that reads as a route, with the hops of its row |
| StaticRoutes.PutThenGet | src/sonic/staticroutes.rs:128-249 | after a put the route is reported with the requested hops, once for each time the scan yields its key |
| StaticRoutes.Delete | src/sonic/staticroutes.rs:253-276 | success or not found: neither spelling is left; whatever fails, no other row is touched |
| StaticRoutes.DeleteLeavesNoSpelling | src/sonic/staticroutes.rs:253-276 | after a delete no key is read as the route |
| Diffs.DiffConverges | src/sonic/switching.rs:687-701 | deletes and sets are disjoint, applying them yields the desired map, and they touch exactly the keys that differ |
| Diffs.CarryOut | src/sonic/switching.rs:914-922 | the write program of a diff: each row deleted or written once |
| Diffs.CarriedOut | src/sonic/switching.rs:914-922 | what each row of the family reads once the program has been carried out |
| Vlans.VlanNames | src/sonic/switching.rs:355-357 | the id of a canonical VLAN name is the id it was made from |
| Vlans.ComputeDesired | src/sonic/switching.rs:659-682 | the loop computes the desired rows, an invalid id anywhere refusing them all |
| Vlans.ModeReadBack | src/sonic/switching.rs:133-157 | the mode read back from any listing of the desired rows is the mode requested; a trunk with no VLAN beyond its native one reads as access, or as routed without one |
| Vlans.ExactMembershipReadsBack | src/sonic/switching.rs:61-73 | a store that holds exactly the wanted rows is read back as the requested triple, for any order of the scan |
| Vlans.MembershipAskedExactly | src/sonic/switching.rs:656-682 | the wanted rows are exactly: the native VLAN untagged, every other VLAN of a trunk tagged, no other |
| Vlans.ModeWords | src/sonic/switching.rs:909-911 | a member row is tagged when it says so, untagged also when it says nothing |
| Vlans.AllowedExactly | src/sonic/switching.rs:842-1061 | the rule that every member row names an existing VLAN outlasts a write exactly when the write is allowed: a member comes under an existing VLAN, and a VLAN row loses its last field, or goes, only without members |
| Vlans.EveryWriteKeepsExactly | src/sonic/switching.rs:842-1061 | the rule holds after every write of a program exactly when each is allowed where it happens |
| VlanWrites.ReadPort | src/sonic/switching.rs:902-913 | the current membership read for a canonical port is its membership |
| VlanWrites.PortConverged | src/sonic/switching.rs:914-922 | carrying the diff out leaves exactly the wanted rows |
| VlanWrites.ExactOnlyIfCanonical | src/sonic/switching.rs:902-922 | a misspelt row of the port survives every update and is never wanted |
| VlanWrites.UpdatePort | src/sonic/switching.rs:842-925 | the port's rows are exactly the wanted ones if and only if none was misspelt; the port row carries the patch; other ports' and all other rows are untouched whatever fails; every write, of a stopped call too, is to the port's row or to a canonical member row of it, set only under an existing VLAN; without a failing call the answer is exactly determined; read back, each field of the port row given is set or cleared and every other is what it was |
| Counterexamples.MisspeltMemberSurvives | src/sonic/switching.rs:902-922 | a port asked to be routed: done, and still in VLAN 10 under a name with a leading zero |
| VlanLifecycle.MemberMap | src/sonic/switching.rs:736-746 | accepted exactly when no member repeats, and then the map lists the members with their modes |
| VlanLifecycle.CreateVlan | src/sonic/switching.rs:944-975 | the new row, exactly the requested members, the requested addresses added, nothing else; wherever it stopped its writes are a first part of the row's, then members and addresses of this VLAN; without a failing call done exactly for a valid id, distinct existing members, valid addresses and a new VLAN; vlanid, description and helpers read back as given, each member with its tagging mode |
| VlanUpdate.UpdateVlan | src/sonic/switching.rs:979-1042 | exactly the requested members and addresses, the attribute row exactly when there is an address, the patched row, nothing else; wherever it stopped, its writes keep the members under an existing VLAN exactly when the row kept a field, or had no member, as far as it got; for a whole update that is a condition on the row, the input and the members known before the call; description and helpers read back as given, an inherited helper list cleared only when none is asked for, each member with its tagging mode |
| VlanUpdate.UpdateKeepsExactly | src/sonic/switching.rs:991-1040 | the same for any run of an update, stopped anywhere, the fields left after each write being computed from those of the row and from which inputs are empty |
| VlanUpdate.OtherFieldSurvives | src/sonic/switching.rs:944-1002 | a row with any field beside the three an update may clear, such as the vlanid a creation writes, never breaks the rule |
| VlanUpdate.ClearedLastField | src/sonic/switching.rs:991-1002 | a store and an update without a description: done, and a member is left under no VLAN |
| VlanLifecycle.DeleteVlan | src/sonic/switching.rs:1046-1061 | everything that hangs off the VLAN goes and nothing else ever does; wherever it stopped, the VLAN row went only last and after each of its member rows |
| VlanRuns.EveryRunKeepsMembers | src/sonic/switching.rs:842-1061 | over every run of update_port, create_vlan, update_vlan and delete_vlan, each stopped anywhere: every member row names an existing VLAN after every single write if and only if each update of an existing VLAN, on the store it found, left the VLAN's row a field for as long as a member needed it |
| VlanRuns.StepKeepsAnchored | src/sonic/switching.rs:842-1061 | every write of every call, stopped anywhere, leaves each VLAN row a field beside the three an update may clear, when each had one |
| VlanRuns.AnchoredRunKeepsMembers | src/sonic/switching.rs:842-1061 | from a store whose VLAN rows each hold such a field, an empty one for instance, no run breaks the rule at any write, and the rows hold one after every write |
| Stp.GlobalFieldsReadBack | src/sonic/stp.rs:429-440 | the timers written are the timers read back |
| Stp.SeedsEffect | src/sonic/stp.rs:460-470 | the seeded VLANs are on and every other VLAN row is as it was |
| Stp.EnableKeepsSound | src/sonic/stp.rs:370-474 | enabling within the limit, or reconfiguring what is enabled, keeps: VLAN instances only under the global row, no more on than the limit, stored timers in the relation |
| Stp.L2Interfaces | src/sonic/stp.rs:145-160 | exactly the VLAN members and the ports with a spanning-tree row |
| Stp.PutGlobal | src/sonic/stp.rs:370-474 | disabling takes every dependent row down; any other mode goes in one batch, refused unless the global timers in effect satisfy the relation; every VLAN then runs with its own overrides over them, and all are in the relation exactly when those merged timers are; one failing call leaves the store unchanged; without a failing call it is one of the transitions, and on first enabling it is refused exactly when the scan gives more VLANs than the limit or another check fails; its rows read back as those of Stp.Enable do |
| Stp.PutGlobalRelatedExactly | src/sonic/stp.rs:370-474 | after the batch every VLAN runs with its overrides over the new global timers, and all instances are in the relation exactly when these merged timers are |
| StpWitness.PutGlobalBreaksRelation | src/sonic/stp.rs:370-474 | a store and accepted global timers under which the override of a VLAN leaves the relation |
| Stp.Enable | src/sonic/stp.rs:376-474 | the batch: global row, then on first enabling one instance for each VLAN and one row for each layer-2 port; without a failing call refused exactly for unsupported MST, timers out of relation or range, or more VLANs than the limit; read back, the global row takes payload, stored value or default, the region what was given or a placeholder, and on first enabling a row that is on stands for each VLAN and each layer-2 port, their other fields kept; every other row is what it was |
| Stp.Disable | src/sonic/stp.rs:477-494 | on success every dependent row is gone and every other row the same; stopped anywhere, what is left is sound exactly before the first deletion and once every VLAN row has gone |
| Stp.InterruptedDisable | src/sonic/stp.rs:477-494 | after n deletions the configuration is sound exactly for n = 0 or once every VLAN row has gone |
| Counterexamples.DisableOrphansVlan | src/sonic/stp.rs:477-494 | the call on spanning tree with one instance, redis failing after the first deletion: the instance has no global row |
| Stp.PartialVlanKeepsSound | src/sonic/stp.rs:554-570 | however far the writes of a VLAN got, the configuration stays sound |
| Stp.CountOthers | src/sonic/stp.rs:534-552 | the count is never below the number of other instances, failed row reads included, and is that number when no read fails and the scan repeats no key |
| Stp.PutVlan | src/sonic/stp.rs:511-572 | the timers in effect on the VLAN are then the merged ones (payload, row, global row, defaults), so they satisfy the relation of IEEE 802.1D exactly when those do; with the reads working each call, also one that fails while writing, is a sound transition; without a failing call the answer is exactly determined; the row reads back enabled as asked, each override set, cleared or left, and no other row is ever written |
| Stp.PutVlanRelatedExactly | src/sonic/stp.rs:511-572 | after a whole call every instance is in the relation exactly when all others were and the merged timers are |
| StpWitness.ShortDelayBreaks | src/sonic/stp.rs:514-525 | one store with every timer at its default and one accepted input whose merged timers break the relation of section 8.10.2 of IEEE 802.1D-1998 |
| StpWitness.PutVlanBreaksRelation | src/sonic/stp.rs:511-572 | the call on it is done and the VLAN runs with them |
| Stp.OtherWritesKeepSound | src/sonic/stp.rs:623-683 | a write to any other row, a port row for one, keeps the configuration sound |
| Stp.StepKeepsSound | src/sonic/stp.rs:370-572 | every transition keeps the configuration sound |
| Stp.EveryRunStaysSound | src/sonic/stp.rs:370-572 | over every run from an empty spanning-tree configuration every store is sound |
| PortDigest.PortOper.Fold | src/sonic/stp.rs:116-137 | the digest stays the summary of the rows so far: first worst state, 64-bit sums that wrap, guard flag; each counter takes its own field |
| PortDigest.Digest | src/sonic/stp.rs:163-175 | folding all rows of a port summarises them |
| PortDigest.OrderHardlyMatters | src/sonic/stp.rs:104-137 | for any two orders of the same rows both sums and the guard flag agree and the worst states are equally bad |
| PortDigest.WorstMeans | src/sonic/stp.rs:102-113 | the state summed up is among the best few of forwarding, learning, listening, blocking, disabled exactly when every state reported is; a state that is none of them ranks below all |
| Bgp.GlobalKeepsNested | src/sonic/bgp.rs:463-498 | setting an instance up keeps: a family row has its neighbor row, a per-VRF neighbor row its instance row |
| Bgp.UpsertKeepsNested | src/sonic/bgp.rs:560-639 | so does creating or changing a neighbor |
| Bgp.DeleteKeepsNested | src/sonic/bgp.rs:713-737 | so does deleting one, also when it stops half-way |
| Bgp.TeardownKeepsNested | src/sonic/bgp.rs:447-461 | so does taking an instance down |
| Bgp.StepKeepsNested | src/sonic/bgp.rs:396-737 | so does every transition in either mode |
| Bgp.EveryRunStaysNested | src/sonic/bgp.rs:396-737 | over every run in any mix of legacy and frrcfgd calls every store is properly nested |
| BgpCalls.PutGlobal | src/sonic/bgp.rs:396-499 | an ASN sets the instance up in one batch; a null ASN leaves no row under the VRF and changes no other, and stopped anywhere what is left is properly nested exactly before the first deletion and once no neighbor or family row of the VRF is left; legacy mode touches no frrcfgd row; without a failing call done exactly for accepted input; set up, the instance row and the path rows of both families read back each number, name and flag as asked for, their other fields kept, and no other row changed |
| BgpCalls.InterruptedTeardown | src/sonic/bgp.rs:447-461 | a teardown interrupted after n deletions is properly nested exactly for n = 0 or once no neighbor or family row of the VRF is left |
| Counterexamples.TeardownOrphansNeighbor | src/sonic/bgp.rs:447-461 | the call on an instance with a neighbor, redis failing after the first deletion: the neighbor has no instance |
| BgpCalls.UpsertEffect | src/sonic/bgp.rs:597-638 | the neighbor row reads back as asked for, field by field, the asked families are on, the family rows are exactly those, and no other row changes |
| BgpCalls.UpsertNeighbor | src/sonic/bgp.rs:560-639 | without a failing call done exactly under an existing instance and for a new or existing neighbor as asked; exactly the desired families; one failing call leaves the store unchanged; read back, each field of the neighbor row is the one asked for |
| BgpCalls.UpsertLegacy | src/sonic/bgp.rs:641-711 | the flat row only, each of its fields read back as asked for, and only for what the flat schema can express |
| BgpCalls.FlatKeyExactly | src/sonic/bgp.rs:713-725 | a flat neighbor key is a frrcfgd row exactly when the peer splits at a bar |
| BgpCalls.DeleteNeighbor | src/sonic/bgp.rs:713-737 | families first, then the neighbor, so no failure leaves a family row alone; a legacy delete leaves frrcfgd rows alone exactly when the peer is no pair |
| Counterexamples.LegacyDeleteTakesFrrRow | src/sonic/bgp.rs:713-725 | a legacy deletion that is done and took a per-VRF neighbor row |
| Fdb.NormalMacExactly | src/sonic/fdb.rs:42-54 | normalising a MAC is idempotent and two accepted spellings agree exactly when their hexadecimal digits do |
| Fdb.PutStatic | src/sonic/fdb.rs:178-207 | the reader then reports the entry from exactly the canonical row if and only if the port is not blank and no row under a misspelt VLAN name was reported as it; every other spelling under the canonical name is gone and no other row changed |
| Fdb.DeleteStatic | src/sonic/fdb.rs:209-223 | the reader then reports the entry no more if and only if no row under a misspelt VLAN name was reported as it; every spelling under the canonical name is gone and nothing else went |
| Fdb.LeadingZeroIsReported | src/sonic/fdb.rs:73-88 | misspelt names exist: with a leading zero the row is reported as the VLAN exactly when it names a port, and no write looks at it |
| Counterexamples.MisspeltEntrySurvives | src/sonic/fdb.rs:178-207 | a static entry set: done, and reported a second time from a row under a misspelt VLAN name |
| Fdb.ResolveCached | src/sonic/fdb.rs:253-289 | one key through the caches resolves as it does directly, and the caches stay true of the snapshot |
| Fdb.LearnedEntries | src/sonic/fdb.rs:253-289 | the memoised loop gives the entries of resolving every key directly, for any key sequence |
| Fdb.OidNames | src/sonic/fdb.rs:246-252 | with unique object ids the names found are exactly the names of the two maps |
| Fdb.SortedInOrder | src/sonic/fdb.rs:290 | the output is ordered by VLAN, then MAC |
| Fdb.SortIsStable | src/sonic/fdb.rs:290 | and keeps the order of entries with the same VLAN and MAC |
| Fdb.GetTable | src/sonic/fdb.rs:244-300 | the entries in ascending order of VLAN, then MAC, cut at the cap, with the flag and the total describing the uncut table; that table holds exactly the entries the scanned keys stand for |
| Fdb.ResolvedExactly | src/sonic/fdb.rs:253-289 | an entry is in the table exactly when a key stands for it: its MAC, the number of its VLAN, the name of its port, static exactly when its type mentions STATIC |
| Fdb.CheckMacExactly | src/sonic/fdb.rs:143-160 | accepted are exactly the unicast addresses but zero, in their normal spelling |
| Ospf.QuadExactly | src/sonic/ospf.rs:254-256 | a string is accepted as a dotted quad exactly when it is the printed form of its value |
| Ospf.NormalizedAreaExactly | src/sonic/ospf.rs:253-259 | an accepted spelling normalises to the printed quad of the number it denotes; all others are refused |
| Ospf.SameAreaExactly | src/sonic/ospf.rs:253-259 | two accepted spellings normalise alike exactly when they denote one 32-bit value; normalising is idempotent |
| Ospf.SpellingsShareRowsExactly | src/sonic/ospf.rs:324-383 | two spellings address a common row exactly when they denote one area |
| Ospf.AreasApart | src/sonic/ospf.rs:324-364 | no row belongs to two areas or two VRFs |
| Ospf.PutAreaEffect | src/sonic/ospf.rs:345-363 | the stub flag reads back, exactly the desired networks stand, each a placeholder, other fields kept, no row of another area or VRF changed |
| Ospf.PutArea | src/sonic/ospf.rs:324-364 | that store, or with one failing call the store unchanged |
| Ospf.DeleteArea | src/sonic/ospf.rs:366-383 | on success no row of the area is left; whatever fails, no other row changes |
| Acl.ProtocolRoundTrip | src/sonic/acl.rs:46-53 | a protocol compiled, named and compiled again is the same number, for each address family |
| Acl.PortReadBack | src/sonic/acl.rs:338-358 | a printed port or range is read back |
| Acl.RuleFields | src/sonic/acl.rs:374-423 | the pushing loop yields the fields of exactly the accepted rules |
| Acl.FieldsSay | src/sonic/acl.rs:374-423 | the fields of an accepted rule, one by one by their names: priority, action, addresses, protocol number, a port or a range in its own field; and no other field |
| Acl.DocOfFields | src/sonic/acl.rs:55-85 | reading the fields gives the normalised rule |
| Acl.CompileRoundTrip | src/sonic/acl.rs:46-423 | for every table type and accepted rule: decompiling gives the normalised rule, which is accepted again and compiles to the same fields |
| AclWrites.StepKept | src/sonic/acl.rs:233-477 | every transition keeps: rules have their table, descriptions their rule, and every row of a table of another owner is what it was |
| AclWrites.EveryRunKeeps | src/sonic/acl.rs:233-477 | over every run of whole calls rules keep their tables, descriptions their rules, and rows of foreign tables are what they were |
| AclWrites.EveryRunExactly | src/sonic/acl.rs:233-477 | over every run, deletions stopped anywhere included: rules keep their tables and foreign rows are what they were; descriptions keep their rules all the way exactly when no stopped deletion took a described rule and left a description |
| AclWrites.InterruptedDrop | src/sonic/acl.rs:283-292 | a deletion stopped anywhere leaves every description its rule exactly when the rules that went had none, or all descriptions of the table went |
| AclWrites.InterruptedDeleteRule | src/sonic/acl.rs:465-477 | the deletion of a rule stopped between its writes does so exactly when the rule has no description |
| Counterexamples.DeleteRuleOrphansDescription | src/sonic/acl.rs:465-477 | the call on a described rule, redis failing between its two deletions: the description has no rule |
| AclWrites.CreateTable | src/sonic/acl.rs:233-255 | a new managed table, never over an existing one; type, stage, ports and description read back as given |
| AclWrites.UpdateTable | src/sonic/acl.rs:257-281 | only a managed table, its type unchanged; one failing call leaves the store unchanged; stage, ports and description read back as given, a legacy ports field gone, every other field kept |
| AclWrites.DeleteTable | src/sonic/acl.rs:283-292 | the table with its rules and descriptions, all on success, no other row ever; wherever it stopped, descriptions keep their rules exactly when the rules that went had none or all descriptions went |
| AclWrites.PutRule | src/sonic/acl.rs:434-463 | the rule row is the compiled rule and nothing of what was there before; the description goes with it; one failing call leaves the store unchanged; each field of the row reads back as asked for |
| AclWrites.DeleteRule | src/sonic/acl.rs:465-477 | the rule and its description, and nothing else; stopped between the two, the description keeps its rule exactly when there is none |

## Left out

Stated weaker than the code allows, or under an assumption:

- Store.Apply: says nothing about the rows the batch names when the rollback's own calls fail too (the code promises best effort only), and nothing about the order of the rollback's writes: a restored address row may come back after its attribute row.
- Store.Platform.Scan: takes the prefix as plain text, so names with redis pattern characters are not covered; the order of a scan, and whether it repeats a key, are arbitrary.
- Store.Platform.Write: the fields of one HSET are a map, so a repeated field name within one command is not modelled.
- VrfCalls.DeleteVrf: keeps the bindings whole only while not every row that binds the VRF is lost, because a failed row read counts as an empty row.
- Vrfs.EveryRunStaysConsistent: assumes that VRF names carry no outer white space and that attribute rows lie in the table of their kind, which every modelled call keeps.
- Stp.PutVlan: its transition needs the reads before the writes to work; the limit is compared with a count that a scan repeating a key makes larger, never smaller.
- Stp.EveryRunStaysSound: is about whole calls and partly written VLANs; what an interrupted disable leaves is in `Stp.Disable`, and the timers of single VLANs are in `Stp.PutVlan`.
- Bgp.EveryRunStaysNested: is about runs without an interrupted teardown, and names without a bar; what an interrupted teardown leaves is `BgpCalls.InterruptedTeardown`.
- AclWrites.EveryRunKeeps: is about whole calls; runs with interrupted deletions are `AclWrites.EveryRunExactly`.
- AclWrites.StepKept: is about table names without a bar, which is what the name check lets through.
- StaticRoutes.Get: does not model the final sort of the documents or the capability document.
- Fdb.GetTable: the reader of the JSON tail of an ASIC_DB key is a parameter.
- PolicyDaemon.Daemon.PutPrefixList: that FRR takes each line as the command it spells, and that its running configuration parses to its objects, are the interpreter and the precondition of this project; a `write memory` that cannot be started counts as a session that fails after its last command, and one that fails otherwise is only logged.
- BfdWrites.Daemon.PutPeer: the same for the BFD daemon; that a running configuration it is shown reports the daemon's peers is its precondition.

Parameters of the calls:

- Reading an IP address or a dotted quad, and the platform's answers (capability, routing mode, published speeds, MST support), are parameters. Where a lemma needs it, an address is assumed to be one word.
- SHA-256 is left out: the digest is any 32 bytes.

Not modelled:

- Redis connections, SCAN cursors, process spawning, files, TLS, certificates, gRPC and scheduling.
- Two calls running at once: every run is a sequence of calls.
- The JSON documents, the dispatch table of the management API, and the wording of error messages.
- Port-channel writes, OSPF instance and interface writes, spanning-tree port and MST instance writes beyond the rows they touch, and the BGP read side.
- Orphans across tables that the code does not prevent: members of a deleted port channel, static routes of a deleted VRF.
- Modules that keep one table each (storm control, sFlow, IGMP, LLDP, DHCP relay, AAA, QoS, mirroring, MCLAG): they repeat easier versions of what is proved here.
- Counters, gauges, telemetry, status files and enrolment.
