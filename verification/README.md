# Verified models of a key-value store, a packet filter, their bitsets and a record codec

Four parts of a Tailscale client in Rust, modelled in Dafny, with proofs of what each is for.

**The transactional store** (`ts_kv_store`; files `kv_*.dfy`). Values have two version slots. A table has a
delete mask and a list of written keys, and its secondary indexes are tables of their own. `Machine` is the
store as its users see it: one committed database and, inside a transaction, a private copy and a trail of what
the transaction did to each table. Its commands are insert, remove, with_mut, for_each_mut and clear on a
table, remove and with_mut through an index, and insert and remove of a singleton. `RunAll` shows that every
admissible run of locked sections is a run of that machine, whatever the schema and the data. `Serializable`
says what such a run amounts to: the one-by-one execution of exactly the commands that took effect. Rollback
and commit are exact on tables, indexes and singletons together. Each operation keeps the indexes the inverse of
their tables exactly when it is tame: an insert or with_mut when extracted keys stay unique, a removal unless the
row was already gone and another row now bears one of its keys, and for_each_mut, whatever its order, when no
row is given a key that another row bore or is given. `TwoSlotsSuffice` compares the two slots with an unbounded
version list over every history.

A run is not admissible if it runs for_each_mut in a transaction over a row that the transaction deleted and
never wrote, or goes through an index that an earlier operation has made wrong, committed or in the same
transaction. Both can be told from the operations before the one in question.

**The packet filter** (`ts_bart_packetfilter`; files `pf_*.dfy`). Rules are split into four indexes over
bitsets of rule ids that are reused through freelists. The lookup is shown to return exactly the rules with
an accepting verdict after every run of inserts, removes and clears, and the verdict is compared with the
linear scan of `ts_packetfilter`.

**The record codec** (`ts_control_noise`; files `noise_*.dfy`). The authenticated cipher is a pair of
functions, the second undoing the first. `Transfer` is the round trip over any payloads, any fragmentation
and any read sizes.

**Bitsets, sparse arrays and one-octet prefix matching** (`ts_bitset`, `ts_dynbitset`, `ts_array256`,
`ts_bart`; files `bits_*.dfy`). Words are numbers below 2^64, and the machine operations on them are
arithmetic. The in-place shifts, rank, population count, bit scans and masks are proved against the bits.
The sparse array is a partial map and the growable bitset a finite set.

What the source updates in place is a class with those fields, or an array. A loop that updates variables is
a method with invariants. Preconditions are those of the source: a schema that declares the table a command
names, a slot below 256, a nonce counter that has not run out.

## Where code and intent part

- `for_each_mut` clones rows that the same transaction has deleted and does not record them. After rollback
  the clone stays and hides a later committed write (`StaleAfterRollback`). `IndexedTable.ForEachMut` states
  the exact condition under which rollback stays exact. Commit is exact in any case (`Table.CommitTxn`).
- `for_each_mut` moves rows in the indexes one by one, so a row that takes a key another row still bears loses
  it when that row is visited, though keys are unique before and after (`PassLosesRow`). `PassAgrees` states the
  exact condition for one order of the pass, `AnyOrderAgrees` for all of them.
- Removing a row twice in one transaction reports the hidden value to the indexes and can drop the entry of
  another row (`DoubleRemoveDropsOther`). `RemoveAgrees` states the exact condition.
- The filter looks up only the longest source prefix, so a rule with a shorter covering prefix is missed
  (`NestedSourceMissed`). `Matches` states when the answer differs from the scan's, and when it cannot.
- The growable bitset's `first_set` numbers blocks by 64 whatever their width (`WideFirstSet`).
  `DynBitset.FirstSet` states when the answer is right.

## Model

| member | source | states |
|---|---|---|
| VersionedValues.SetIsolated | ts_kv_store/src/storage.rs:369-394 | a write is what its transaction reads back, the committed reader still reads what it read before, and the slot ids stay distinct |
| VersionedValues.CloneIsolated | ts_kv_store/src/storage.rs:267-306 | cloning gives the transaction a version of its own and changes no read at either id |
| VersionedValues.GcRestores | ts_kv_store/src/storage.rs:247-263 | collecting a transaction leaves no slot of its id, keeps the committed read, and empties the value exactly when nothing was committed |
| VersionHistory.StepAgrees | ts_kv_store/src/storage.rs:239-395 | one write, mutation, begin, commit or rollback keeps the slots in agreement with an unbounded version list |
| VersionHistory.TwoSlotsSuffice | ts_kv_store/src/storage.rs:239-395 | over every history the two slots answer like the unbounded version list at the committed id and at the running id, and never share an id |
| Tables.BeginConsistent | ts_kv_store/src/storage.rs:134-139 | opening a transaction with a larger id changes nothing a reader sees |
| Tables.RowHiddenView | ts_kv_store/src/storage.rs:428-457 | a delete recorded in the mask takes the row from its transaction and from nobody else |
| Tables.OverlayWritten | ts_kv_store/src/storage.rs:510-525 | a write after a clear goes to the overlay: seen by the transaction, not by the committed reader |
| Tables.CollectedConsistent | ts_kv_store/src/storage.rs:586-610 | collecting the recorded keys and dropping the mask restores the committed view, and no slot keeps the dead id |
| Tables.CommitConsistent | ts_kv_store/src/storage.rs:637-655 | applying the mask to the data makes the pending view the committed one, whatever is on record |
| Tables.Table.Get | ts_kv_store/src/storage.rs:691-697 | a read returns exactly what the view of its transaction holds |
| Tables.Table.RecordMutation | ts_kv_store/src/storage.rs:883-907 | a transactional write is put on record for rollback and nothing else is; a raw write is not |
| Tables.Table.Insert | ts_kv_store/src/storage.rs:781-798 | the view gains the row, the committed view of a running transaction does not change, and the slots and mask are exactly these |
| Tables.Table.Remove | ts_kv_store/src/storage.rs:800-822 | the view loses the row and the committed view stays; the value reported to the indexes is the newest one below the mask even if the mask hides it |
| Tables.Table.WithMut | ts_kv_store/src/storage.rs:699-723 | mutates exactly the visible row, reports its value before and after, and leaves the committed view |
| Tables.Table.Clear | ts_kv_store/src/storage.rs:824-836 | the transaction sees nothing, the committed view stays |
| Tables.Table.GcTxn | ts_kv_store/src/storage.rs:586-610 | rollback: the committed view is back and no slot holds the dead id; states the rows left for any state of the table |
| Tables.Table.CheckTxnConsistency | ts_kv_store/src/storage.rs:617-630 | holds exactly when neither mask nor record belongs to another transaction |
| Tables.Table.CommitTxn | ts_kv_store/src/storage.rs:637-655 | the committed view becomes the pending view, also when versions are missing from the record |
| Tables.Table.Len | ts_kv_store/src/storage.rs:657-665 | equals the number of visible rows; the subtraction under a partial mask never underflows |
| Tables.Table.IsEmpty | ts_kv_store/src/storage.rs:667-676 | true exactly when no row is visible |
| Tables.Table.VisitRow | ts_kv_store/src/storage.rs:731-740 | one row of a for_each_mut pass: a visible row is mutated and put on record, a row the mask hides is cloned and not put on record |
| IndexViews.InsertReads | ts_kv_store/src/storage.rs:781-798 | what a write does to every row and index entry, right or wrong: new keys lead to the row, other old keys of the row are gone, the rest stays |
| IndexViews.RemoveReads | ts_kv_store/src/storage.rs:800-822 | what a removal does to every row and index entry, right or wrong |
| IndexViews.InsertAgrees | ts_kv_store/src/storage.rs:781-798 | a write keeps every index the inverse of its table if and only if the extracted keys stay unique |
| IndexViews.RemoveAgrees | ts_kv_store/src/storage.rs:800-822 | a removal keeps every index the inverse of its table if and only if it removes a visible row or no live row is found under a key of the hidden value |
| Passes.PassRows | ts_kv_store/src/storage.rs:742-779 | whatever order a for_each_mut pass takes, every visible row comes out mapped |
| Passes.PassAgrees | ts_kv_store/src/storage.rs:742-779 | the indexes are the inverse of the table after the pass if and only if extracted keys are unique after every step of it |
| Passes.AnyOrderAgrees | ts_kv_store/src/storage.rs:742-779 | the indexes agree after the pass for every order it may take if and only if no row is given a key that another row bore or is given |
| IndexedTables.IndexedTable.ForEachMut | ts_kv_store/src/storage.rs:742-779 | a pass over all visible rows in some order, moving each in every index; the committed view stays; rollback stays exact if and only if every row the transaction deleted was on record |
| IndexedTables.IndexedTable.OnInsert | ts_kv_store/src/schema.rs:502-512 | each index gains exactly the extracted keys of the value, pointing to the row |
| IndexedTables.IndexedTable.OnRemove | ts_kv_store/src/schema.rs:514-520 | each index loses exactly the extracted keys of the value |
| IndexedTables.IndexedTable.Insert | ts_kv_store/src/storage.rs:781-798 | row and indexes change together: old keys out, new keys in; the committed view of both stays |
| IndexedTables.IndexedTable.Remove | ts_kv_store/src/storage.rs:800-822 | row and indexes change together; the keys dropped are those of the reported value |
| IndexedTables.IndexedTable.WithMut | ts_kv_store/src/storage.rs:699-723 | a mutation moves the row in every index as writing the mutated value would |
| IndexedTables.IndexedTable.Clear | ts_kv_store/src/schema.rs:496-500 | table and indexes are seen empty, the committed view stays |
| IndexedTables.IndexedTable.GcTxn | ts_kv_store/src/schema.rs:459-464 | rollback restores the committed view of the table and of each index, when no version is missing from the record |
| IndexedTables.IndexedTable.CommitTxn | ts_kv_store/src/schema.rs:451-455 | commit makes the pending view of the table and of each index the committed one |
| IndexedTables.IndexedTable.GetByIndex | ts_kv_store/src/operations.rs:229-242 | follows the index to the row, right or wrong |
| IndexedTables.BearerFound | ts_kv_store/src/operations.rs:229-242 | when the indexes agree a key leads to a row bearing it, and is there exactly when some row bears it |
| IndexedTables.IndexedTable.RemoveByIndex | ts_kv_store/src/operations.rs:504-526 | removes the row the index leads to and the key, whether or not the indexes agree; the committed view stays |
| IndexedTables.RemoveBearerAgrees | ts_kv_store/src/operations.rs:504-526 | when the indexes agree that removes exactly the rows bearing the key, and the indexes still agree |
| IndexedTables.IndexedTable.WithMutByIndex | ts_kv_store/src/operations.rs:478-502 | mutates the row the index leads to, whether or not the indexes agree; the committed view stays |
| IndexedTables.MutateBearerAgrees | ts_kv_store/src/operations.rs:478-502 | when the indexes agree that mutates exactly the rows bearing the key, and the indexes agree afterwards if and only if extracted keys are unique |
| Machine.Serializable | ts_kv_store/src/lib.rs:49-59 | over every sequence of operations the committed database is the serial execution of exactly the effective commands, and an open transaction sees it with its own commands on top |
| TableStorages.StepViewRows | ts_kv_store/src/operations.rs:352-526 | each command changes the rows of its table as the abstract store says; one through an index does when the indexes agree |
| TableStorages.StepViewAgrees | ts_kv_store/src/schema.rs:496-520 | a tame command keeps all indexes of its table the inverse of it, and of all commands but a pass over the rows only a tame one does |
| TableStorages.TableStorage.Execute | ts_kv_store/src/operations.rs:352-526 | a row command changes its own table, its indexes and its trail and no other, at its transaction only |
| TableStorages.TableStorage.GcTxn | ts_kv_store/src/schema.rs:459-464 | rollback restores the committed view of every table and index |
| TableStorages.TableStorage.CommitTxn | ts_kv_store/src/schema.rs:446-457 | succeeds if and only if every table and index passes its check; a failure changes nothing; on a readable store it never fails and the pending views become the committed ones |
| Storages.Storage.constructor | ts_kv_store/src/storage.rs:42-50 | a new store stands for the empty database at the first transaction id |
| Storages.Storage.WriteSingle | ts_kv_store/src/storage.rs:78-105 | a singleton insert or removal is seen at the running id only |
| Storages.Storage.RecordMutation | ts_kv_store/src/storage.rs:69-76 | a singleton written in a transaction is on record for rollback |
| Storages.Storage.Execute | ts_kv_store/src/operations.rs:319-526 | a command on the storage is the same command on the abstract store, one through an index when the indexes agree; agreement is kept if and only if the command is tame, for a pass over the rows if |
| Machine.TameRunHealthy | ts_kv_store/src/storage.rs:57-190 | no run of tame operations makes an index wrong, committed or pending |
| Storages.Storage.BeginTransaction | ts_kv_store/src/storage.rs:134-139 | a transaction takes the next id; with no transaction left pending it starts on a private copy of the committed database, which stays |
| Storages.Storage.CommitTransaction | ts_kv_store/src/storage.rs:144-156 | all or nothing: fails exactly when the id is not the running one, leaving everything unchanged; otherwise the pending database becomes the committed one everywhere at once |
| Storages.Storage.RollbackTransaction | ts_kv_store/src/storage.rs:161-170 | the running transaction vanishes from the abstract store; a stale id does nothing |
| Storages.Storage.ClearTransaction | ts_kv_store/src/storage.rs:174-190 | exact rollback: the store is what it would be had the transaction never begun, except for the id counter |
| KvStores.GetRow | ts_kv_store/src/operations.rs:133-143 | a row read returns what the abstract store holds at the current transaction id |
| KvStores.GetSingle | ts_kv_store/src/storage.rs:108-115 | a singleton read returns what the abstract store holds at the current transaction id |
| KvStores.GetByIndex | ts_kv_store/src/operations.rs:229-242 | an index read follows the index, and finds the one row bearing the key when the indexes are right |
| KvStores.Perform | ts_kv_store/src/lib.rs:200-205 | each locked section, with recovery of an abandoned transaction first, is one step of the abstract store, and keeps the indexes right if it is tame and, a pass over the rows aside, only then |
| KvStores.RowAcross | ts_kv_store/src/operations.rs:352-526 | reading a row before and after any command: what was written or mutated is read, a removed row is not, and rows the command does not concern read as before |
| KvStores.SingleAcross | ts_kv_store/src/storage.rs:78-115 | the same of a singleton |
| KvStores.RunAll | ts_kv_store/src/storage.rs:57-190 | every admissible run of operations simulates the abstract store; the indexes of the committed database are right unless an untame command took effect, those of a transaction unless it ran one itself or began on wrong ones |
| KvStores.RunFresh | ts_kv_store/src/lib.rs:119-144 | from an empty store every admissible run leaves the serial execution of the effective commands, and every index right unless an untame command took effect |
| Iterators.ListsOnce | ts_kv_store/src/storage.rs:918-942 | a pass over the keys in any order without repeats lists each visible row once |
| Iterators.TableIterator.Next | ts_kv_store/src/storage.rs:921-942 | yields the next visible row; ends only after all of them |
| Iterators.CollectRows | ts_kv_store/src/storage.rs:678-689 | iteration yields each visible row once and nothing else |
| Iterators.IndexIterator.Next | ts_kv_store/src/iter.rs:149-155 | yields the row of the next index key; ends early only at a key that finds no row |
| Iterators.CollectByIndex | ts_kv_store/src/iter.rs:142-156 | when the index is the inverse of the table, index iteration never ends early: every row under each of its keys, each key once |
| Limits.StaleAfterRollback | ts_kv_store/src/storage.rs:731-776 | a deleted row touched by for_each_mut survives rollback as a stale clone: a later committed write is invisible to the next transaction |
| Limits.PassLosesRow | ts_kv_store/src/storage.rs:742-757 | a for_each_mut pass that gives the first row the key of the second and the second a new key: keys are unique before and after, and the first row is lost from the index |
| Limits.DoubleRemoveDropsOther | ts_kv_store/src/storage.rs:810-816 | removing a row twice in one transaction drops the index entry of another, live row |
| IdSets.PopFreelist | ts_bart_packetfilter/src/lib.rs:56-66 | takes the least free id out of the freelist |
| IdSets.Compact | ts_bart_packetfilter/src/lib.rs:224-232 | drops free slots from the end; the freelist is still exactly the holes and the last slot is in use |
| IdSets.AscendingAppend | ts_bart_packetfilter/src/lib.rs:86-90 | a new largest id goes to the end of the ascending listing, so ids read upward pair with the rules in order |
| CapLookups.CapLookup.Insert | ts_bart_packetfilter/src/cap_lookup.rs:32-50 | the relation gains exactly this pair, through reused or new ids; ids stay injective and the freelist exactly the holes |
| CapLookups.CapLookup.Remove | ts_bart_packetfilter/src/cap_lookup.rs:53-75 | the relation loses exactly this pair; an id left with no rules is freed and the slots compacted |
| CapLookups.CapLookup.Clear | ts_bart_packetfilter/src/cap_lookup.rs:78-82 | the relation is empty |
| CapLookups.CapLookup.Lookup | ts_bart_packetfilter/src/cap_lookup.rs:85-92 | exactly the rules some given name accepts for |
| DstLookups.DstMatchLookup.LookupId | ts_bart_packetfilter/src/dst_port.rs:156-161 | finds the id of a (rule, destination) pair if and only if it is stored |
| DstLookups.DstMatchLookup.Insert | ts_bart_packetfilter/src/dst_port.rs:45-89 | the stored pairs gain exactly this one; each live id belongs to one pair, the freelist is exactly the holes, the last slot is in use |
| DstLookups.DstMatchLookup.Remove | ts_bart_packetfilter/src/dst_port.rs:91-136 | the stored pairs lose exactly this one, from every table |
| DstLookups.DstMatchLookup.Clear | ts_bart_packetfilter/src/dst_port.rs:148-154 | no pairs are stored |
| DstLookups.DstMatchLookup.CompactSlots | ts_bart_packetfilter/src/dst_port.rs:138-146 | dropping free slots from the end changes no stored pair |
| DstLookups.DstMatchLookup.Lookup | ts_bart_packetfilter/src/dst_port.rs:163-186 | exactly the rules with a single destination whose port range holds the port, both ends included, and one of whose prefixes the address bits start with; every id met is in range |
| BartFilters.BartFilter.AllocateId | ts_bart_packetfilter/src/lib.rs:104-110 | the id is unused and below every id still free, so the ids of one ruleset come out increasing |
| BartFilters.BartFilter.AddRule | ts_bart_packetfilter/src/lib.rs:115-136 | the four indexes say of every id what the live rule of that id says, with the new rule added |
| BartFilters.BartFilter.DropRule | ts_bart_packetfilter/src/lib.rs:154-188 | the four indexes say of every id what the live rule of that id says, with the rule taken out |
| BartFilters.BartFilter.Insert | ts_bart_packetfilter/src/lib.rs:95-141 | stores the ruleset under its name in place of the old one; all other rules keep their ids |
| BartFilters.BartFilter.Remove | ts_bart_packetfilter/src/lib.rs:143-192 | forgets the named ruleset and exactly its ids |
| BartFilters.BartFilter.Clear | ts_bart_packetfilter/src/lib.rs:244-252 | no ruleset is left |
| BartFilters.BartFilter.Lookup | ts_bart_packetfilter/src/lib.rs:194-222 | exactly the live rules that list the protocol, have a destination entry whose port range and prefix bits hold the packet, and share a capability or list the longest stored source prefix the source bits start with |
| FilterVerdicts.VerdictSound | ts_bart_packetfilter/src/lib.rs:194-222 | the filter never accepts through a rule that a scan of the rules rejects |
| FilterVerdicts.MissedExactly | ts_bart_packetfilter/src/lib.rs:196-204 | a rule the scan accepts is missed if and only if it shares no capability and each of its covering source prefixes is beaten by a longer stored one |
| FilterVerdicts.PacketVerdict | ts_bart_packetfilter/src/lib.rs:194-222 | on one packet the filter accepts exactly when the scan does by a rule that is not beaten by longer prefixes, and what the scan accepts when stored source prefixes do not nest |
| FilterVerdicts.FlatAgrees | ts_packetfilter/src/rule.rs:29-37 | when stored source prefixes do not nest, filter and scan agree on every rule and packet |
| FilterVerdicts.Matches | ts_bart_packetfilter/src/lib.rs:265-269 | the answer: never more than the scan accepts, less exactly when every rule the scan accepts is beaten, and the same when stored source prefixes do not nest |
| FilterVerdicts.MatchFor | ts_bart_packetfilter/src/lib.rs:256-263 | names the ruleset of the least accepted id, exactly when the filter accepts; it holds a rule that filter and scan accept; when stored source prefixes do not nest, exactly when the scan accepts |
| FilterVerdicts.RunOps | ts_bart_packetfilter/src/lib.rs:92-252 | over every run of insert, remove and clear the filter stays consistent and holds the rulesets a plain map would |
| FilterVerdicts.InsertThenRemove | ts_bart_packetfilter/src/lib.rs:143-192 | removing a ruleset takes out of all four indexes exactly what inserting it put in |
| FilterVerdicts.NestedSourceMissed | ts_bart_packetfilter/src/lib.rs:196-204 | a concrete pair of rules whose source prefixes nest: the scan accepts the packet and the filter does not |
| NoiseCodec.NoncesDistinct | ts_control_noise/src/codec.rs:87-93 | different counters give different nonces |
| NoiseCodec.ChunksFlatten | ts_control_noise/src/codec.rs:108-131 | chunking loses nothing; every chunk is non-empty, no record exceeds 4096 bytes, and all but the last fill them |
| NoiseCodec.RecordsAt | ts_control_noise/src/codec.rs:108-131 | the wire: each record is the byte 4, two length bytes with the high one first, and what the cipher makes of the chunk under the next nonce |
| NoiseCodec.Codec.NextNonce | ts_control_noise/src/codec.rs:87-93 | twelve bytes: four zeros, then the counter in eight bytes, most significant first; the counter then advances by one |
| NoiseCodec.FirstByte | ts_control_noise/src/codec.rs:89-90 | the byte order: the first byte counts most |
| NoiseCodec.Codec.Encode | ts_control_noise/src/codec.rs:108-131 | appends one record per chunk under consecutive nonces |
| NoiseCodec.Codec.DecodeNext | ts_control_noise/src/codec.rs:138-187 | a record yields exactly what the cipher decrypts under the next nonce, and is an error if it does not decrypt, either way consumed with one nonce; an error frame is consumed and skipped, other known types are consumed errors, an unknown type an error, a part of a frame is left; excludes a record shorter than its tag |
| NoiseCodec.RecordParts | ts_control_noise/src/codec.rs:111-128 | the header length is the body and tag length, it fits its 16 bits, and the parts can be read back |
| NoiseCodec.DecodesFirst | ts_control_noise/src/codec.rs:138-169 | a record not all there leaves bytes and nonce alone; a complete one yields its chunk and uses one nonce, whatever follows |
| NoiseCodec.DecodesStream | ts_control_noise/src/codec.rs:138-169 | decoding any part of a record stream that has arrived yields its next chunk and leaves the rest of the stream under the next nonce, or waits |
| FramedReader.FramedIo.PollNext | ts_control_noise/src/framed_io.rs:97-107 | the next chunk in order under the next nonce; a closed stream ends where a record ends and is broken where one is cut |
| FramedReader.FramedIo.PollFillBuf | ts_control_noise/src/framed_io.rs:89-110 | offers the held chunk if it is not used up, else the next one, losing nothing; stops only when no complete record is buffered: waits on an open stream, is empty at the end of a closed one, fails when a record was cut short |
| FramedReader.FramedIo.Consume | ts_control_noise/src/framed_io.rs:112-120 | drops exactly the consumed bytes |
| FramedReader.FramedIo.PollRead | ts_control_noise/src/framed_io.rs:61-80 | returns as much of the held chunk, or of the next one, as fits; nothing at the end of the stream; with nothing in flight it stops only when all was read and without an error |
| FramedReader.Serve | ts_control_noise/src/framed_io.rs:61-120 | over any order of arrivals, reads and a hangup, bytes read and bytes unread together are the stream |
| FramedReader.Transfer | ts_control_noise/src/codec.rs:108-169 | stream round trip: any payloads, any fragmentation, any read sizes give a prefix of the concatenated payloads at any time, and all of them with equal nonce counters and a clean end when the peer hangs up after everything arrived |
| Bitsets.ShlInPlace | ts_bitset/src/lib.rs:557-581 | bit i comes from bit i minus the shift, or is zero, for any width and shift, although the loop overwrites what it reads |
| Bitsets.ShrInPlace | ts_bitset/src/lib.rs:610-634 | bit i comes from bit i plus the shift, or is zero, for any width and shift |
| Bitsets.SetBitAtSpec | ts_bitset/src/lib.rs:117-119 | setting adds exactly this bit |
| Bitsets.ClearBitAtSpec | ts_bitset/src/lib.rs:156-159 | clearing drops exactly this bit |
| Bitsets.TestBitSpec | ts_bitset/src/lib.rs:195-197 | the masked word is nonzero exactly when the bit is set |
| Bitsets.FirstSet | ts_bitset/src/lib.rs:200-213 | the lowest set bit, and none exactly when there is none |
| Bitsets.NextSet | ts_bitset/src/lib.rs:217-237 | the lowest set bit from a position up |
| Bitsets.LastSet | ts_bitset/src/lib.rs:240-258 | the highest set bit, and none exactly when there is none |
| Bitsets.IntersectionTop | ts_bitset/src/lib.rs:287-298 | the highest bit set in both |
| BitRanks.CountAll | ts_bitset/src/lib.rs:326-336 | the word-wise population count is the number of set bits |
| BitRanks.IntersectInPlace | ts_bitset/src/lib.rs:356-362 | keeps exactly the bits set in both |
| BitRanks.InvertInPlace | ts_bitset/src/lib.rs:366-373 | flips every bit |
| BitRanks.MaskWordSpec | ts_bitset/src/rank.rs:107-120 | a mask word has exactly the bits up to and including the position |
| BitRanks.BuildRankMask | ts_bitset/src/rank.rs:93-103 | the mask has exactly the bits up to and including the position |
| BitRanks.Rank | ts_bitset/src/rank.rs:43-48 | the number of bits set up to and including the position |
| BitRanks.DropLowest | ts_bitset/src/lib.rs:278-278 | and-ing with the predecessor takes out the lowest set bit and no other |
| BitRanks.Bits | ts_bitset/src/lib.rs:268-283 | lists set bits, each at the place that counts the set bits below it |
| BitRanks.ListsAll | ts_bitset/src/lib.rs:268-283 | such a listing is ascending and has every set bit |
| BitRanks.BitsAfter | ts_bitset/src/lib.rs:491-494 | lists, ascending, exactly the set bits above a position |
| SparseArrays.Array256.constructor | ts_array256/src/lib.rs:43-48 | a new array holds nothing |
| SparseArrays.Array256.StorageIndex | ts_array256/src/lib.rs:183-185 | the element of a slot stands at the number of taken slots below it |
| SparseArrays.Array256.Get | ts_array256/src/lib.rs:99-108 | reads the partial map |
| SparseArrays.Array256.Insert | ts_array256/src/lib.rs:126-144 | updates the partial map at one slot and returns what was there; storage length stays the number of set bits |
| SparseArrays.Array256.Remove | ts_array256/src/lib.rs:147-163 | drops one slot from the partial map and returns what was there |
| SparseArrays.Array256.Clear | ts_array256/src/lib.rs:166-169 | holds nothing |
| SparseArrays.Array256.Iter | ts_array256/src/lib.rs:189-194 | lists every entry of the map in slot order, each element with its own slot |
| SparseArrays.Array256.IterAfter | ts_array256/src/lib.rs:198-208 | lists exactly the entries above a slot, in slot order |
| BaseIndexes.FromPrefix | ts_bart/src/base_index.rs:71-77 | the index is not zero and its bit length is the prefix length plus one |
| BaseIndexes.PrefixRoundTrip | ts_bart/src/base_index.rs:91-100 | numbering a prefix and reading it back gives its length and its octet with the low bits cleared |
| BaseIndexes.IndexRoundTrip | ts_bart/src/base_index.rs:91-100 | every index is the number of the prefix it stands for |
| BaseIndexes.CoversIff | ts_bart/src/base_index.rs:118-123 | the range of an index holds exactly the octets whose prefix of that length has that index |
| BaseIndexes.ParentOf | ts_bart/src/base_index.rs:167-174 | half of an index is the same octet one bit shorter |
| BaseIndexes.LpmEntry | ts_bart/src/lpm.rs:35-46 | the bitset has exactly the index and its ancestors |
| BaseIndexes.AncestorsOf | ts_bart/src/lpm.rs:35-46 | the ancestors of a prefix of an octet are exactly the indexes no longer than it that cover the octet |
| BaseIndexes.LookupIndex | ts_bart/src/node/mod.rs:219-222 | one intersection and one top bit find the longest stored prefix, among those no longer than the query, that covers it, with the value stored under it |
| BaseIndexes.LongestMatch | ts_bart/src/lpm.rs:22-46 | for every stored set and every octet, the lookup gives the longest stored prefix covering the octet and its value, or none exists |
| DynBitsets.CanonicalUnique | ts_dynbitset/src/lib.rs:17-20 | vectors that end in a used block and hold the same bits are equal, so structural equality is set equality |
| DynBitsets.WithBitsUpto | ts_bitset/src/lib.rs:380-397 | the mask has exactly the bits below the position |
| DynBitsets.DynBitset.TruncateEmpty | ts_dynbitset/src/lib.rs:92-96 | the last block is in use and no bit changed |
| DynBitsets.DynBitset.EnsureCapacity | ts_dynbitset/src/lib.rs:72-78 | there is room for the bit and no bit changed |
| DynBitsets.DynBitset.Set | ts_dynbitset/src/lib.rs:104-111 | adds exactly this bit and keeps the last block in use |
| DynBitsets.DynBitset.Clear | ts_dynbitset/src/lib.rs:113-123 | drops exactly this bit and keeps the last block in use |
| DynBitsets.DynBitset.ZeroFrom | ts_dynbitset/src/lib.rs:57-70 | keeps exactly the bits below the position |
| DynBitsets.DynBitset.UnionInPlace | ts_dynbitset/src/lib.rs:239-248 | holds the union and keeps the last block in use |
| DynBitsets.DynBitset.IntersectInPlace | ts_dynbitset/src/lib.rs:250-259 | holds the intersection and keeps the last block in use |
| DynBitsets.DynBitset.NextSet | ts_dynbitset/src/lib.rs:143-157 | the lowest bit held from a position up, for blocks of any width |
| DynBitsets.DynBitset.FirstSet | ts_dynbitset/src/lib.rs:133-141 | empty exactly when no bit is held; equals the lowest bit if and only if blocks are one word wide or that bit is in the first block |
| DynBitsets.DynBitset.Bits | ts_dynbitset/src/lib.rs:261-266 | lists exactly the held bits, ascending, for blocks of any width |
| DynBitsets.WideFirstSet | ts_dynbitset/src/lib.rs:133-141 | with two-word blocks holding only bit 128 the scan answers 64 |

## Left out

- Locks, lock poisoning, panicking closures and the unsafe lifetimes of iterators: each locked section is one step. Recovery of an abandoned transaction goes through the write path; taking the write lock inside a held read lock is not modelled.
- Owners of tables and singletons: their checks are debug assertions, and owners are not rolled back.
- `for_each_mut` over an index changes the index it iterates over and is not modelled.
- KvStores.RunAll: excludes runs that are not admissible, because rolling back after them is not exact or because a wrong index leads to a row that does not bear the key; what each such operation does by itself is stated by IndexedTables.IndexedTable.ForEachMut, RemoveByIndex and WithMutByIndex.
- Storages.Storage.Execute: for a pass over the rows index agreement is shown to follow from tameness only, because the order is the hash map's; the exact condition for a given order is Passes.PassAgrees.
- Transaction ids are unbounded numbers; the 64-bit counter of the source fails when it runs out.
- The routing trie and the port trie behind the filter are maps from prefix or port range to ids, with longest match and all covering entries as their lookups; only the one-octet step of the routing trie is modelled, on its own.
- The bitsets of rule ids inside the filter are finite sets of numbers; that the growable bitset behaves as one is proved separately.
- `last_set` and `invert_inplace` of the growable bitset, `resize`, bitwise operators, formatting and iteration adaptors would only add easy members; `allot.rs` and the lookup tables are finite.
- NoiseCodec.Codec.DecodeNext: excludes a complete record shorter than its tag, on which the source panics, and a nonce counter that has run out.
- FramedReader.FramedIo.PollNext: is stated for streams of honestly encrypted records; what any other bytes do is stated of one decoding step by NoiseCodec.Codec.DecodeNext.
- The handshake, the cipher itself, write-side polling and logging of error frames are not modelled; that a closed stream ends or fails by what is left in its buffer is the behaviour of the framing library.
- Serialisation, HTTP, TLS, relays, dialling, SSH, user interfaces and foreign-function layers are outside the model.
