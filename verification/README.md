# Verified model of rackd's core

rackd keeps an inventory of networks, devices and DNS records. This project models the parts of it that are hard to
get right and proves what they keep:

- the DNS service, which holds records in a store and mirrors them at a DNS provider, one record at a time, a zone
  at a time or by importing what the provider has;
- network discovery: subnet enumeration, the pool of scan workers, the mDNS and LLDP parsers;
- the HTTP rate limiter, login sessions and the recent-log buffer;
- reverse-lookup names, zone matching, the audit-log CSV and the device CSV export and import.

Code that changes state is a class or a method with loops, proved against functions on values; what the system
promises is then proved of those functions over all inputs, all runs or all interleavings. `dafny verify
dfyconfig.toml` checks everything.

| file | models |
|---|---|
| `Text.dfy`, `Bytes.dfy` | splitting, joining, in-place reversal; bytes, bit masks, addresses as numbers |
| `Dns.dfy` | records, store and provider; create, update, delete and sync of one record |
| `DnsZoneSync.dfy`, `DnsLink.dfy`, `DnsImport.dfy` | zone sync, device matching, import |
| `DnsEffects.dfy`, `DnsImportRows.dfy` | answers and effects of the operations, field by field |
| `DnsService.dfy`, `DnsRuns.dfy`, `DnsStrays.dfy` | the service object; all runs of its operations; provider entries without a row |
| `ReverseNames.dfy`, `ZoneMatch.dfy` | reverse-lookup names, longest-suffix zone match |
| `Subnet.dfy`, `ScanPool.dfy`, `Mdns.dfy`, `MdnsMessages.dfy`, `Lldp.dfy` | discovery |
| `RateLimit.dfy`, `Sessions.dfy`, `RecentLog.dfy`, `Paging.dfy` | rate limiter, sessions, log buffer, page limits |
| `AuditCsv.dfy`, `DeviceCsv.dfy` | CSV export and import |

## Assumptions

- The clock, generated ids and tokens, the order in which a query or the provider lists things, and every failure
  are arguments of the operations. A store call that fails has no effect; a provider write that fails may or may not
  have taken effect. Nobody else writes at the provider.
- The provider maps (zone, name, type) to one value. The store refuses a second row for the same (zone, name, type),
  as its schema does; so a rename to a taken name is an error and needs no precondition.
- Printing and parsing of IP addresses and of RFC 3339 times, case folding and CSV quoting by the standard library
  are taken as given.

## Where the code does less than one would expect

Each of these is proved, with its exact condition and a failing case.

- A record marked synced need not be at the provider: a delete that reaches the provider but not the store leaves the
  row behind, still marked synced. Full agreement holds over a run exactly when no such delete is in it
  (`DnsRuns.AgreementOverRuns`); a *different* value is never served for a synced row, whatever fails
  (`DnsRuns.NeverStale`).
- Syncing a record whose value the provider already has never updates the TTL there (`Dns.SyncedTtl`,
  `Dns.TtlChangeIsNotPushed`).
- Creating an existing key with a TTL of zero stores zero, where a new key gets the zone's default
  (`DnsEffects.CreateExistingRow`, `DnsEffects.ZeroTtlIsStored`, `DnsEffects.CreateNewRow`).
- Zone sync is documented as syncing all records; it syncs the first 100, because the listing underneath is clamped
  to one default page, and reports success (`DnsZoneSync.FaultFreePassSyncsZone`,
  `DnsZoneSync.LongZoneStaysPending`).
- The provider can be left serving what no row stands for: by a rename, which never removes the old name, and by a
  delete of a record that is not marked synced or whose removal fails. These are the only ways
  (`DnsStrays.StepOwned`, `DnsStrays.OwnedOverRuns`, `DnsStrays.RenameLeavesOldName`).
- A completed scan can report fewer scanned hosts than it scanned: the number is the position of whichever worker
  published last. It is sure to be right exactly when there is at most one worker slot or at most one host
  (`ScanPool.CompletedCountIsTotal`, `ScanPool.CompletedScanCanReportFewer`).
- The mDNS query builder and the name decoder agree on labels of 1 to 191 bytes, not only the 63 of section 3.1 of
  RFC 1035, and on no others (`Mdns.QueryRoundTrip`, `Mdns.LongLabelDoesNotRoundTrip`). Labels behind a sixth
  pointer are silently lost (`Mdns.LongChainsAreCut`, `Mdns.SixJumpsLoseTheName`).
- Importing a listing with two values of one name and type stores the last one, and a repeat never skips all of it
  (`DnsImport.SecondImportIsQuiet`, `DnsImport.TwoValuesAreImportedAgain`). Only the first 100 devices are considered
  for links (`DnsImport.ImportMissesLinkExactly`).
- An LLDP chassis type and chassis can come from different TLVs, when the last chassis TLV announces a MAC it does not
  hold (`Lldp.ChassisFromOneTlv`, `Lldp.ChassisCanBeMixed`).
- The reset time announced by the rate limiter is as without cleanup exactly when no pass came more than two windows
  after the client's last reset (`RateLimit.ResetTimeExactly`, `RateLimit.ResetTimeObservesCleanup`). Admission and
  remaining quota never depend on cleanup.
- Cleanup does not change which session lookups and refreshes succeed, but it changes the error of the failing ones
  ("not found" instead of "expired") and makes invalidating an expired session fail, exactly when a pass and no lookup
  or refresh has come since the session expired (`Sessions.CleanupNoticedExactly`, `Sessions.CleanupCanBeNoticed`).
- The device CSV shows neither the status of a device, its history and custom fields, nor anything of an address but
  network id and IP, nor fractions of a second; so a device comes back exactly when it has none of these and its
  lists survive the separators (`DeviceCsv.RowRoundTrip`, `DeviceCsv.StatusIsNotRestored`).
- The audit CSV does not quote a carriage return: a reader that also accepts "\r\n" as line end, as section 2 of
  RFC 4180 has it, loses one at the end of an unquoted last column, and nothing else
  (`AuditCsv.ExportIsReadableWithCrlf`, `AuditCsv.CarriageReturnIsLost`).
- Expanding a network with no prefix bits would never end (`Subnet.DefaultRouteContainsAll`); the limit of 16 host
  bits keeps such networks out.

## Model

| member | source | states |
|---|---|---|
| `DnsRuns.NeverStale` | internal/service/dns.go:440-967 | after any run of create, update, delete, record sync, zone sync and import, with any calls failing, (zone, name, type) is unique and no row marked synced has another value at the provider |
| `DnsRuns.AgreementOverRuns` | internal/service/dns.go:440-967 | in all states of a run every row marked synced has exactly the provider's value, if and only if no delete of the run reached the provider but not the store |
| `DnsRuns.StepAgreement` | internal/service/dns.go:440-967 | one operation from an agreeing state keeps full agreement if and only if it is not such a delete |
| `DnsRuns.OrphaningDeleteExists` | internal/service/dns.go:644-655 | a concrete agreeing state and delete after which a synced row is missing at the provider |
| `DnsStrays.StepOwned` | internal/service/dns.go:440-967 | from a state in which every provider entry has a row, an operation keeps that if and only if it is neither a done rename away from a served name nor a done delete that leaves the entry |
| `DnsStrays.OwnedOverRuns` | internal/service/dns.go:440-967 | every provider entry has a row in all states of a run if and only if no operation of the run is one of these |
| `DnsStrays.UpdateOwned` | internal/service/dns.go:572-606 | an update leaves an entry without a row if and only if it is carried out, moves the row and the old key is served |
| `DnsStrays.DeleteOwned` | internal/service/dns.go:644-655 | a delete does if and only if it is carried out, the key is served, and the record is not synced or the removal did not happen |
| `DnsStrays.RenameLeavesOldName` | internal/service/dns.go:572-606 | a concrete rename that leaves the old name at the provider |
| `Dns.SyncKeeps` | internal/service/dns.go:926-967 | a record sync touches only its row's status and its key at the provider, and keeps uniqueness and agreement |
| `Dns.SyncEstablishes` | internal/service/dns.go:926-967 | the provider then serves the row's value exactly as far as a write took effect, else is unchanged; success means it is known to and the store accepted the status |
| `Dns.SyncedTtl` | internal/service/dns.go:947-953 | the provider's TTL equals the record's afterwards if and only if the value had to be written or it was equal already |
| `Dns.TtlChangeIsNotPushed` | internal/service/dns.go:947-953 | a concrete record marked synced while the provider keeps another TTL |
| `DnsEffects.SyncSucceedsExactly` | internal/service/dns.go:926-967 | a sync succeeds if and only if the zone is found, the provider available, a write confirmed or the value read to be there, and the store takes the status |
| `DnsEffects.SyncNeedsProvider` | internal/service/dns.go:927-935 | without its zone or provider a sync does nothing and fails |
| `Dns.AutoSyncKeeps` | internal/service/dns.go:506-514 | the automatic sync after a change, including the write that marks a failure, keeps uniqueness and agreement |
| `Dns.UpdateKeeps` | internal/service/dns.go:546-622 | every update, also a rename, keeps uniqueness and agreement |
| `Dns.UpdateEffect` | internal/service/dns.go:546-622 | exactly when an update is refused and why, that a refused one changes nothing, that a done one changes only its row as asked, and that with automatic sync and no fault the row ends up synced |
| `DnsEffects.RefusedFieldIs` | internal/service/dns.go:559-599 | which field of an update is refused: the first of an unknown device, an empty name, type or value, a negative TTL |
| `DnsEffects.UpdateAnswers` | internal/service/dns.go:546-608 | an update is done if and only if its row exists, no field is refused, no other row has the new key and the store works |
| `DnsEffects.UpdateStatus` | internal/service/dns.go:601-619 | the status after a done update: unchanged if nothing was given, pending with the provider untouched without automatic sync, else synced or failed as the sync went |
| `Dns.CreateKeeps` | internal/service/dns.go:440-517 | every create keeps uniqueness and agreement |
| `Dns.CreateEffect` | internal/service/dns.go:440-517 | a done create leaves one row with its key and the requested value, under the existing id if the key existed; otherwise nothing changes |
| `DnsEffects.CreateRefusals` | internal/service/dns.go:445-483 | which field a create refuses: the first missing one, then an unknown zone, then an unknown device; a negative TTL only when the key exists |
| `DnsEffects.CreateDone` | internal/service/dns.go:440-503 | a create that is not refused is done if and only if the store works and, unless the existing row is updated, key and id are free |
| `DnsEffects.CreateNewRow` | internal/service/dns.go:485-514 | a new row has all requested fields, the requested TTL if positive and the zone's if not, and no address; it is pending with the provider untouched without automatic sync, synced and served with it and no fault, failed if the provider refused it |
| `DnsEffects.CreateExistingRow` | internal/service/dns.go:475-482 | creating an existing key gives its row the requested value and TTL, and the device if one is given |
| `DnsEffects.ZeroTtlIsStored` | internal/service/dns.go:475-482 | a TTL of zero is stored as zero in an existing row |
| `Dns.DeleteKeeps` | internal/service/dns.go:625-658 | a delete keeps uniqueness and absence of stale values, and full agreement if and only if it does not orphan the row |
| `DnsEffects.DeleteEffect` | internal/service/dns.go:625-658 | a delete is done if and only if row and zone are found and the store works; then exactly its row is gone; the provider loses exactly the row's key if and only if the row was synced, the provider available and the removal not refused |
| `DnsZoneSync.SyncRowsEffect` | internal/service/dns.go:697-704 | after the zone loop every row and key is as if each record had been synced alone from the start, and unlisted keys are unchanged |
| `DnsZoneSync.SyncRowsKeeps` | internal/service/dns.go:697-704 | the zone loop keeps uniqueness and agreement |
| `DnsZoneSync.FailedRows` | internal/service/dns.go:697-704 | the failed ids are exactly the listed rows that fail when tried on their own |
| `DnsZoneSync.FailedInOrder` | internal/service/dns.go:697-704 | the failed ids come in the order of the rows |
| `DnsZoneSync.SyncedRowsAgree` | internal/service/dns.go:697-704 | every listed record that is not among the failed ones is marked synced and the provider serves its value |
| `DnsZoneSync.RepeatWritesExactly` | internal/service/dns.go:944-957 | in a repeat after a full success, a row is written at the provider if and only if it could not be read there |
| `DnsZoneSync.RepeatIsQuiet` | internal/service/dns.go:663-727 | such a repeat changes nothing if every row can be read at the provider, whatever else fails |
| `DnsZoneSync.PassCoversZone` | internal/service/dns.go:684-688 | one pass lists the whole zone if and only if it has at most 100 rows; later rows keep their state |
| `DnsZoneSync.FaultFreePassSucceeds` | internal/service/dns.go:697-710 | without faults every listed row syncs and a pass reports full success |
| `DnsZoneSync.FaultFreePassSyncsZone` | internal/service/dns.go:684-710 | such a pass leaves the whole zone synced if and only if the rows beyond the first 100 were synced before |
| `DnsZoneSync.LongZoneStaysPending` | internal/service/dns.go:684-710 | a zone of 101 pending records that is not synced by such a pass |
| `DnsZoneSync.FaultFreePassRecovers` | internal/service/dns.go:684-710 | from any state with unique keys, orphaned rows included, such a pass over at most 100 rows leaves every row of the zone synced and served with its value |
| `DnsService.Service.SyncRecord` | internal/service/dns.go:926-967 | the method's branches on the provider's answers have exactly the specified effect and result |
| `DnsService.Service.UpdateRecord` | internal/service/dns.go:546-622 | the field-by-field method refines the specified update |
| `DnsService.Service.ApplyRequest` | internal/service/dns.go:559-604 | the stepwise validation reports the first refused field, and otherwise applies every given field and resets the status if there was one |
| `DnsService.Service.CreateRecord` | internal/service/dns.go:440-517 | the method refines the specified create, including the update of an existing key |
| `DnsService.Service.DeleteRecord` | internal/service/dns.go:625-658 | the method refines the specified delete |
| `DnsService.Service.SyncZone` | internal/service/dns.go:663-727 | not found, unreachable and failed listing each exactly when, without effect; else Total = Synced + Failed over the listed rows, failed ids in order, and success, failed or partial status accordingly |
| `DnsService.Service.SyncListed` | internal/service/dns.go:697-704 | the loop over the rows as listed has the effect and the failed ids of the specification, since earlier rows never change later ones |
| `DnsService.Service.ImportFromDNS` | internal/service/dns.go:761-870 | the loop and its counters match the specified import, with Total = Imported + Skipped + Failed, Linked at most Imported and one name for each skipped and failed record; the provider is not written |
| `DnsService.Service.ImportOne` | internal/service/dns.go:803-864 | one listed record is skipped, refreshed, created or failed as specified |
| `DnsImport.CountersAddUp` | internal/service/dns.go:803-867 | Total = Imported + Skipped + Failed, and Linked is at most Imported |
| `DnsImport.NamesInOrder` | internal/service/dns.go:803-867 | the names listed for a result are those of all records that had it, in the order of the listing |
| `DnsImportRows.StoredKey` | internal/service/dns.go:806-832 | a listed record whose key is stored is skipped if and only if the value is the same; else the row becomes synced with the listed value, and the listed TTL if positive, keeping a link, unless the store fails |
| `DnsImportRows.NewKey` | internal/service/dns.go:833-860 | one whose key is not stored becomes a synced row with the listed value, and the listed TTL or the zone's if that is zero, unless the store fails |
| `DnsImportRows.ImportExplained` | internal/service/dns.go:803-867 | over any listing and faults, a row is synced if any record was imported under its key and as before otherwise; its TTL is the last positive one imported, else its own, else the first one imported or the zone's for zero; the last import of its key counted as linked if and only if the row has a device |
| `DnsImport.ImportPreserves` | internal/service/dns.go:803-867 | whatever is listed and whatever fails: no row disappears or moves, no device link changes, rows with unlisted keys are untouched |
| `DnsImport.ImportKeeps` | internal/service/dns.go:803-867 | importing what the provider serves keeps synced rows in agreement with it |
| `DnsImport.ImportIsComplete` | internal/service/dns.go:803-867 | with no failing call, a listed record fails if and only if its name is empty, and for every other key the last value listed is stored |
| `DnsImport.SecondImportIsQuiet` | internal/service/dns.go:803-867 | a second import of the same listing skips every record with a name if and only if records listed with the same key have the same value, and then it changes nothing |
| `DnsImport.TwoValuesAreImportedAgain` | internal/service/dns.go:803-867 | a listing of two name servers that no second import skips |
| `DnsImport.ImportMissesLinkExactly` | internal/service/dns.go:791-795 | the import misses the link that all devices would give if and only if no device of the first 100 answers to the record but a later one does |
| `DnsLink.LinkedIsSound` | internal/service/dns.go:1152-1194 | matching changes only the links; they are set if and only if some device answers to the record, to the first such device and its fitting address |
| `DnsLink.LinkByAddress` | internal/service/dns.go:1154-1164 | an A or AAAA record is linked to the first device that has its value for an IP, and to the first such address |
| `DnsLink.LinkByDomain` | internal/service/dns.go:1165-1175 | a CNAME record is linked to the first device with its full name among the domains, and to no address |
| `DnsLink.LinkByHostname` | internal/service/dns.go:1176-1191 | a PTR record is linked to the first device whose host name in the zone is its value, and to that device's first address its name stands for, if any |
| `DnsLink.NotLinked` | internal/service/dns.go:1192-1194 | no other record is linked, nor one that no device fits |
| `DnsLink.AnsweringIsFirst` | internal/service/dns.go:1152-1194 | the chosen device answers and no earlier one does |
| `DnsLink.MatchDeviceForRecord` | internal/service/dns.go:1152-1194 | the nested search loops compute that match |
| `ReverseNames.V4RoundTrip` | internal/service/dns.go:1020-1046 | for every text, turning it into an IPv4 reverse name and back gives it again |
| `ReverseNames.V4NameSpelled` | internal/service/dns.go:1020-1046 | the reverse name of a.b.c.d is d.c.b.a.in-addr.arpa. |
| `ReverseNames.V4NameRebuilt` | internal/service/dns.go:1101-1118 | every accepted IPv4 reverse name, with or without its last dot, is the name of the text it gives |
| `ReverseNames.V6RoundTrip` | internal/service/dns.go:1048-1071 | for every 16-byte address, the eight groups recovered from its reverse name spell the original bytes |
| `ReverseNames.ReverseIP` | internal/service/dns.go:1040-1046 | the swap loop reverses the dotted parts |
| `ReverseNames.ReverseIPv6` | internal/service/dns.go:1049-1071 | the loop from the last byte down yields all nibbles in reverse order |
| `ReverseNames.PtrNameToText` | internal/service/dns.go:1101-1145 | suffix tests, reversal and regrouping yield the text handed to the IP parser, or nothing for other names |
| `Text.ReverseInPlace` | internal/service/dns.go:1042-1044 | the two-index loop reverses any array |
| `ZoneMatch.MatchZoneForDomain` | internal/service/dns.go:1076-1095 | returns a longest covering zone with its prefix, the first of that name, and nothing if and only if no zone covers the domain |
| `ZoneMatch.MatchRebuildsDomain` | internal/service/dns.go:1076-1095 | a zone is returned if and only if some zone name equals the domain or is a dotted suffix; prefix, dot and name rebuild the domain, or the prefix is "@" |
| `ZoneMatch.OrderDoesNotMatter` | internal/service/dns.go:1076-1095 | the chosen name and prefix are the same for every list with the same zones |
| `Subnet.ExpandCIDR` | internal/discovery/helpers.go:20-35 | for any address length the loop ends, also when the increment wraps, and lists in order exactly the hosts: base+1 to base+2^k-2 when 2^k > 2, else all 2^k |
| `Subnet.PlanScan` | internal/discovery/unified_scanner.go:94-104 | a scan is refused if and only if the network has more than 65536 addresses, and otherwise has at least one target and targets exactly the hosts |
| `Subnet.IncrementIP` | internal/discovery/helpers.go:37-44 | the in-place carry loop yields the next address |
| `Subnet.NextAddsOne` | internal/discovery/helpers.go:37-44 | the next address is one more as a number, and the all-ones address wraps to zero |
| `Subnet.MaskClearsHostBits` | internal/discovery/helpers.go:22-24 | the bytewise mask clears exactly the low host bits of the whole address |
| `Subnet.ContainsIsRange` | internal/discovery/helpers.go:26 | the mask test holds exactly on a range of 2^k values from the network address |
| `Subnet.GuardAfterNext` | internal/discovery/helpers.go:26-29 | after an increment the loop guard holds exactly while fewer than 2^k addresses have been listed |
| `Subnet.DefaultRouteContainsAll` | internal/discovery/helpers.go:26-29 | with no prefix bits the loop guard holds of every address and its successor |
| `ScanPool.PoolSafety` | internal/discovery/unified_scanner.go:254-323 | under every interleaving: at most Workers hosts in flight, no host dispatched or published twice, ScannedHosts within 1..total once published; "completed" only after every host was dispatched and published exactly once, with FoundHosts the number of hosts where a device was found |
| `ScanPool.StepKeepsInv` | internal/discovery/unified_scanner.go:265-323 | every atomic step of dispatcher or worker keeps the pool's invariant, and FoundHosts does not decrease |
| `ScanPool.FoundNeverDecreases` | internal/discovery/unified_scanner.go:304-310 | FoundHosts never decreases along a run |
| `ScanPool.HitsAreProbes` | internal/discovery/unified_scanner.go:284-302 | the counted hosts are exactly those whose discovery returned a device |
| `ScanPool.ScannedIsLastPublisher` | internal/discovery/unified_scanner.go:304-310 | ScannedHosts is the position of whichever host published last |
| `ScanPool.CompletedCountIsTotal` | internal/discovery/unified_scanner.go:254-323 | every completed run reports all hosts scanned if and only if there is at most one worker slot or at most one host |
| `ScanPool.RunInTurn` | internal/discovery/unified_scanner.go:277-310 | with one slot, every dispatched host but the last has given its slot back and the reported number is how many have published |
| `ScanPool.CompletedScanCanReportFewer` | internal/discovery/unified_scanner.go:304-323 | for any two or more hosts and slots, an interleaving that completes with one host too few |
| `ScanPool.RunsAreBounded` | internal/discovery/unified_scanner.go:265-323 | no run has more than 7 x hosts + 3 steps |
| `ScanPool.NoDeadlock` | internal/discovery/unified_scanner.go:265-323 | with a worker slot, a state without a possible step is a completed or cancelled scan whose started workers have all finished |
| `Mdns.ParseName` | internal/discovery/mdns.go:216-273 | ends on every input without reading outside it, computes the specified walk, and resumes within the data, never before its start |
| `Mdns.WalkStaysInside` | internal/discovery/mdns.go:216-273 | whatever the pointers say, the resume offset is fixed by the first pointer and lies within the data |
| `Mdns.ParseResolvesNames` | internal/discovery/mdns.go:216-273 | a well-formed name of at most five jumps decodes to its dotted labels, and the resume offset is just past its first pointer or terminator |
| `Mdns.ParseMeets` | internal/discovery/mdns.go:216-273 | on every input, well formed or not, the decoded name is made of exactly the labels met within five jumps |
| `Mdns.LongChainsAreCut` | internal/discovery/mdns.go:216-273 | a well-formed name with any number of jumps decodes to a front of its labels, and to the whole name if and only if at most five pointers lie in front of its last label |
| `Mdns.SixJumpsLoseTheName` | internal/discovery/mdns.go:228-255 | a concrete name behind six pointers that decodes to nothing |
| `Mdns.BuildQuery` | internal/discovery/mdns.go:111-136 | the buffer is the header, each label behind its length byte, a terminator and the question tail |
| `Mdns.QueryRoundTrip` | internal/discovery/mdns.go:111-273 | parsing a built query at offset 12 gives back the name and an offset four bytes before the end, if and only if every label has 1 to 191 bytes |
| `Mdns.LongLabelDoesNotRoundTrip` | internal/discovery/mdns.go:126-131 | a single label of 192 bytes does not come back |
| `Mdns.StoredNameRoundTrip` | internal/discovery/mdns.go:216-273 | the same for a name stored anywhere in a message |
| `Mdns.SkipQuestions` | internal/discovery/mdns.go:153-159 | well-formed questions are skipped to exactly their end |
| `Mdns.ParseResponse` | internal/discovery/mdns.go:138-214 | total on all inputs; a well-formed response yields exactly the reports of its records, in order |
| `MdnsMessages.CompressedName` | internal/discovery/mdns.go:244-255 | labels, or none, and two pointer bytes with any 14-bit target decode to these labels and the ones stored there, and the caller resumes just past the pointer |
| `MdnsMessages.MessageSaysItsRecords` | internal/discovery/mdns.go:138-214 | a message encoded from any questions and records reports exactly what its records say, in order: an address record its host and address, a pointer record the host it points to, any other record nothing |
| `MdnsMessages.ReportsWhatItSays` | internal/discovery/mdns.go:182-208 | the same for one record |
| `Lldp.ParseLLDP` | internal/discovery/lldp.go:76-138 | ends in bounds on every input and folds the handlers over the TLVs it visits |
| `Lldp.FrameVisitsItsTlvs` | internal/discovery/lldp.go:96-127 | on a frame serialised from any list of TLVs and an end TLV, with any padding, the loop visits exactly that list |
| `Lldp.FrameAnswer` | internal/discovery/lldp.go:76-138 | such a frame is answered if and only if some chassis TLV has at least two bytes, seven where a MAC is announced, or the last system name is not empty; with the last chassis, chassis type, port and texts, and the first management address or else the sender's |
| `Lldp.FoldChassis` | internal/discovery/lldp.go:140-166 | the chassis is that of the last TLV that gives one, the chassis type that of the last one that sets it |
| `Lldp.ChassisFromOneTlv` | internal/discovery/lldp.go:148-153 | these are the same TLV if and only if the last one that sets the type is not an announced MAC of fewer than six bytes |
| `Lldp.ChassisCanBeMixed` | internal/discovery/lldp.go:148-153 | two TLVs whose answer calls a raw text a MAC |
| `Lldp.LastTextsFirstAddress` | internal/discovery/lldp.go:187-221 | folding keeps the last port description, system name and system description and the first usable management address |
| `Lldp.FrameGivesAddress` | internal/discovery/lldp.go:199-221 | an answered frame carries the IPv4 or IPv6 address that its first usable management TLV encodes |
| `Lldp.FrameFallsBackToSender` | internal/discovery/lldp.go:133-137 | an answered frame without a usable one carries the sender's address |
| `Lldp.UnusableExactly` | internal/discovery/lldp.go:199-221 | a management TLV gives nothing if and only if it is too short, cut, of another subtype or announces too few bytes |
| `Lldp.MgmtEncoded` | internal/discovery/lldp.go:199-221 | length, subtype, address and anything after it decode to that address |
| `Lldp.ChassisEncoded` | internal/discovery/lldp.go:140-166 | the encodings of a MAC, an IPv4 address and a text as chassis decode to them |
| `Lldp.PortEncoded` | internal/discovery/lldp.go:168-185 | the encodings of a MAC and a text as port decode to them |
| `Lldp.HeaderExactly` | internal/discovery/lldp.go:76-91 | a frame is parsed only if it goes to one of the three LLDP multicast addresses with the LLDP ethertype |
| `RateLimit.RateLimiter.Allow` | internal/api/ratelimit.go:42-72 | admission and the new bucket are those of the specified call; no other bucket changes |
| `RateLimit.RateLimiter.GetRemaining` | internal/api/ratelimit.go:75-92 | the full quota for new or expired clients, else the tokens left |
| `RateLimit.RateLimiter.GetResetTime` | internal/api/ratelimit.go:95-108 | one window after the last reset, or after now for an unknown client |
| `RateLimit.RateLimiter.Sweep` | internal/api/ratelimit.go:110-126 | a cleanup pass drops exactly the buckets last reset more than two windows ago |
| `RateLimit.WindowBound` | internal/api/ratelimit.go:42-126 | over every run of calls and cleanup passes, any closed interval one window long holds at most 2 x requests - 1 admitted calls of a client; one quota without a window, none without a quota |
| `RateLimit.WindowBoundIsReached` | internal/api/ratelimit.go:42-72 | for every quota and window, zero ones included, a run that reaches the bound |
| `RateLimit.TokensConserved` | internal/api/ratelimit.go:42-72 | between resets, admitted calls plus remaining tokens equal the quota |
| `RateLimit.CleanupUnobservable` | internal/api/ratelimit.go:42-126 | after any run, admission and remaining quota are as if no client had ever been forgotten |
| `RateLimit.ResetTimeExactly` | internal/api/ratelimit.go:95-126 | after any run the announced reset time is as if nothing had been forgotten if and only if no cleanup pass came more than two windows after the client's last reset |
| `RateLimit.ForgottenExactly` | internal/api/ratelimit.go:110-126 | a client has been forgotten if and only if such a pass came |
| `RateLimit.ResetTimeObservesCleanup` | internal/api/ratelimit.go:95-126 | a run after which the announced reset time depends on a cleanup pass |
| `RateLimit.RemainingIsExact` | internal/api/ratelimit.go:75-92 | a remaining quota of r means exactly the next r calls at that instant are admitted |
| `RateLimit.RefusedUntilReset` | internal/api/ratelimit.go:42-108 | a refused client is next admitted if and only if it comes back strictly after the announced reset time, whatever others and cleanup do |
| `RateLimit.QuotaUntilReset` | internal/api/ratelimit.go:75-108 | any client that makes no call in between has its full quota strictly after the reset time it was told, and until then exactly what it had left |
| `Sessions.GetSucceedsExactly` | internal/auth/session.go:91-165 | after any run with a non-decreasing clock, a lookup finds a session if and only if the token is granted by the history of calls and its lifetime is not over, and it is that session |
| `Sessions.RefreshSucceedsExactly` | internal/auth/session.go:128-143 | a refresh succeeds in exactly the same cases and grants a full lifetime from its second clock reading |
| `Sessions.GrantGoesBack` | internal/auth/session.go:91-165 | a grant goes back to a creation that nothing ended since, and expires one lifetime after it or after a refresh that came in time and after which no other did |
| `Sessions.CreatedIsGranted` | internal/auth/session.go:91-165 | a token created and not ended since, singly, by user or by another creation, is granted |
| `Sessions.StoreTracksGrants` | internal/auth/memory_store.go:22-78 | the store holds exactly the granted sessions except for some that have expired |
| `Sessions.ExpiredStaysExpired` | internal/auth/session.go:128-143 | once a token finds no session, no later call other than its creation makes it find one |
| `Sessions.CleanupUnobservable` | internal/auth/memory_store.go:68-78 | cleanup passes anywhere in a run change neither which lookups and refreshes succeed nor the session they return |
| `Sessions.CleanupNoticedExactly` | internal/auth/memory_store.go:29-78 | the full answers of lookup, refresh and invalidation, errors included, are as without any cleanup pass of the run if and only if it is not the case that a pass, but no lookup or refresh of the token, came since its session expired |
| `Sessions.StoredExactly` | internal/auth/memory_store.go:22-78 | the store holds a token if and only if it is granted and no lookup, refresh or pass has come since it expired |
| `Sessions.CleanupCanBeNoticed` | internal/auth/memory_store.go:29-78 | a run after which a lookup says "not found" instead of "expired" and an invalidation fails, because of a pass |
| `Sessions.SessionManager.CreateSession` | internal/auth/session.go:91-114 | a generated token maps to a new session with a full lifetime; without a token nothing changes |
| `Sessions.SessionManager.GetSession` | internal/auth/session.go:116-126 | answer and store as specified; an expired session is dropped, the object returned is the stored one |
| `Sessions.SessionManager.RefreshSession` | internal/auth/session.go:128-143 | overwriting the shared object's expiry changes exactly that token's session |
| `Sessions.SessionManager.InvalidateSession` | internal/auth/session.go:145-155 | removes exactly the token's session and reports whether there was one |
| `Sessions.SessionManager.InvalidateUserSessions` | internal/auth/session.go:157-165 | removes exactly the user's sessions; an empty user removes none |
| `Sessions.SessionManager.CleanupExpiredSessions` | internal/auth/session.go:71-77 | removes exactly the expired sessions |
| `Sessions.MemoryStore.Get` | internal/auth/memory_store.go:29-44 | missing, expired and dropped, or held, with the exact new map |
| `Sessions.MemoryStore.DeleteByUser` | internal/auth/memory_store.go:57-66 | the deleting loop leaves exactly the other users' sessions |
| `Sessions.MemoryStore.Cleanup` | internal/auth/memory_store.go:68-78 | the deleting loop leaves exactly the sessions not yet expired |
| `RecentLog.Store.Add` | internal/log/log.go:251-260 | the buffer stays exactly the last min(n, 2000) of the n entries added since the last clear, in order |
| `RecentLog.Store.Get` | internal/log/log.go:323-333 | finds an id if and only if one of those entries has it, and then the newest of them |
| `RecentLog.Store.List` | internal/log/log.go:262-305 | without a filter everything newest first, with one the requested page of what it keeps |
| `RecentLog.Store.Clear` | internal/log/log.go:335-339 | empties the buffer and its history |
| `Paging.Pagination.Clamp` | internal/model/pagination.go:16-26 | the limit ends up in 1..1000 with 100 as default, the offset at least 0 |
| `RecentLog.NewestKeepsExactly` | internal/log/log.go:268-289 | the filtered list has every kept entry as often as the buffer, and nothing else |
| `RecentLog.FilterMeans` | internal/log/log.go:268-289 | which entries a filtered list holds, criterion by criterion |
| `RecentLog.NoFilterKeepsAll` | internal/log/log.go:291-293 | without a filter the list holds the whole buffer |
| `RecentLog.NewestFirst` | internal/log/log.go:268-289 | newer entries come before older ones |
| `RecentLog.PagesCoverList` | internal/log/log.go:295-304 | for any requested limit successive pages concatenate to the whole list, nothing lost or repeated, and later pages are empty |
| `AuditCsv.ExportAuditLogsCSV` | internal/audit/audit.go:18-48 | the buffer is the header line and one escaped line for each log |
| `AuditCsv.ExportIsReadable` | internal/audit/audit.go:18-55 | whatever the fields contain, a reader in the style of section 2 of RFC 4180 whose lines end in "\n" recovers every column of every row |
| `AuditCsv.ExportIsReadableWithCrlf` | internal/audit/audit.go:18-55 | a reader that also accepts "\r\n" recovers everything if and only if no last column is written without quotes and ends in a carriage return |
| `AuditCsv.CarriageReturnIsLost` | internal/audit/audit.go:50-55 | a log that such a reader does not recover |
| `AuditCsv.ExportIsUnambiguous` | internal/audit/audit.go:18-55 | two log lists give the same text if and only if all their exported columns are equal |
| `AuditCsv.ReadsCell` | internal/audit/audit.go:50-55 | reading an escaped field in front of a separator gives the field and the separator back |
| `AuditCsv.EscapedExactly` | internal/audit/audit.go:50-55 | a field is written as it is if and only if it has no comma, quote or line feed |
| `DeviceCsv.ExportImportRoundTrip` | internal/importdata/import.go:44-115 | whatever order the columns are put in, importing an export restores all devices, with all their fields, if and only if each is restorable |
| `DeviceCsv.RowRoundTrip` | internal/export/export.go:51-72 | a device's own row gives the device back if and only if the fields without a column are at their zero values, its times are whole seconds, and its addresses, tags and domains survive their cells |
| `DeviceCsv.StatusIsNotRestored` | internal/model/device.go:38-58 | no device that has a status comes back; the import leaves the status empty |
| `DeviceCsv.AddressesRestored` | internal/importdata/import.go:256-272 | the addresses cell restores a list if and only if every address has nothing but a network id and an IP, the id non-empty and free of ":" and ";" and the IP free of ";" |
| `DeviceCsv.ListRestored` | internal/importdata/import.go:89-97 | a tags or domains cell restores a list if and only if no item has a ";" and it is not a single empty item |
| `DeviceCsv.ImportIgnoresOrder` | internal/importdata/import.go:53-82 | the imported device does not depend on the order of the columns |
| `DeviceCsv.ExportDevicesCSV` | internal/export/export.go:40-74 | writes the header and each device's row in order |
| `DeviceCsv.JoinAddresses` | internal/export/export.go:76-82 | joins "network:ip" parts with ";" |
| `DeviceCsv.ParseAddresses` | internal/importdata/import.go:256-272 | keeps exactly the parts with a non-empty network id before their first colon, in order |
| `DeviceCsv.MapHeader` | internal/importdata/import.go:53-57 | every column name maps to its last position |
| `DeviceCsv.GetField` | internal/importdata/import.go:249-254 | the cell in the last column of that name, or "" if the column or the cell is missing |
| `DeviceCsv.ImportDevicesCSV` | internal/importdata/import.go:44-115 | one device for each record, in order |

## Left out

- HTTP handlers, permission checks, the MCP server, command line: request plumbing.
- SQL storage: the store is a map with its uniqueness rule; other storage errors of pure lookups are not distinguished.
- Technitium client: only the provider interface is modelled; several values under one name and type are not.
- SyncDevice, LinkRecord, PromoteRecord, zone and provider management: they reuse the modelled steps or change which remote data a record refers to.
- generatePTRZone: keeps a different part of the address than a full reverse name.
- Scan progress rows in the database: written outside the lock from copies, so their order is not modelled; neither is a cancellation that arrives while the dispatcher is blocked.
- Progress percentage, port probing, vendor and device-type guesses, SNMP, SSH: foreign calls or heuristics.
- mDNS host and service names: the two string heuristics are parameters of the response parser.
- LLDP text of MAC and IP addresses: identifiers are kept as bytes.
- Log text search, case folding and secret redaction: parameters of the filter.
- Session tokens' randomness, the SQL session store, locks: each call is one atomic step.
- Stored time stamps and error messages of records, zones and scans: not part of the model.
- Timestamps in CSV: kept as their RFC 3339 text and a fraction of a second; parsing the text is not modelled.
- Subnet.ExpandCIDR: requires at least one prefix bit, because the loop never ends without one; `Subnet.PlanScan` has no such condition.
- JSON export and import, networks and datacenters in CSV: easier versions of the device CSV.
