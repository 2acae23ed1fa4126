# Verification of protoc2: label codec, Hiview cache, event hub, Hiview log file

A Dafny 4.11 model of four stateful parts of the repository, each built in the form the source has and proved
against a specification whose own laws are proved as lemmas. `dafny verify dfyconfig.toml` checks everything.

`Common` has what several parts share, and `Limits` collects concrete inputs at which the code does less than it
seems to.

**The label wire codec** (`protoc2/label.pb.cc`, and the older schema in `protoc2/label.pb - 旧的.cc`).
`Wire` has the wire format of the Protocol Buffers "Encoding" guide: varints, tags, records, both directions.
`Utf8` says which strings are valid.
`Schema` has the tables of the two generated files: field numbers, tag bytes, kinds, tag costs, and the order of
the fields in memory, in which they are sized and merged. `Message` says on values what a serializer, a parse
loop and a merge compute; `Codec`, `MergeLaws`, `FieldOrder` and `Interop` prove the laws, and
`Examples` has the bytes of every message with all fields set. `MessageObjects` is the
class that does the work in place: parse loops with a fast path, merging into `this`, a sizing pass that fills
the size caches, and a serializer that uses them as length prefixes. One class stands for the generated classes,
which differ in their tables only. Floats are their four raw bytes; an enum is any 32-bit number.

**The Hiview cache** (`hiview_cache.c`). `HiviewCaches` is the ring buffer with its 16-bit cursors, proved to be a
bounded byte queue. `CacheThreads` is the same cache with one reader that checks and copies without the lock and
any number of writers, cut into steps of one byte or one cursor update, for every interleaving; `CacheRuns`
says what a run does from its list of steps alone.

**The event hub** (`utils_list.h`, `event_hub_service.c`, `event_hub_api.c`). `UtilsList` is the intrusive circular
list on the heap. `EventHub` says what the two registries hold, send and free after any sequence of messages, and
`HubRegistry` says it with the fields of the messages;
`EventHubServices` is the service that relinks the lists, proved to take exactly those steps, and `EventHubApi`
has the calls that produce its messages and the serving of a whole queue of them.

**The rotating log file** (`hiview_file.c`, `hiview_util.c`). `LogFile` and `LogRuns` have the header, the cursors
and whole runs with rotations and reopenings; `FileUtil` is a file system that may fail or cut reads and writes
short, with the copy loop and the move; `HiviewFiles` is the log file object over it.

## Where the code does less than it seems to

Each has its exact condition, and an input at which it happens in `Limits`.

- A receiver gets its own message number only when that is below 0x8000: the 32-bit number is stored in a 16-bit
  field (`EventHub.OwnMsgId`, `Limits.MsgIdIsCut`).
- A receiver registration without a sender queue changes nothing; it does not unsubscribe (`EventHub.NullReceiver`,
  `Limits.ReceiverStays`).
- A move of a file onto itself reports success and loses the content (`FileUtil.HIVIEW_FileMove`,
  `Limits.MoveOntoItself`).
- After a rotation, the length of a record is not checked again, so the file stays within its limits exactly when
  the record fits in an empty file (`LogRuns.WriteHolds`, `Limits.WriteBeyondLimit`).
- A dump file gets no prefix of its own. Unless the header in memory happened to have one, reopening the file
  does not find its content again (`LogRuns.ReopenRecovers`, `Limits.NewPrefixKnown`, `Limits.DumpIsLost`).
- The length asked of a read is compared with a cursor that counts the header in, and a read that asks for more
  than the whole file returns nothing even when bytes are left (`LogRuns.ReadProgress`, `Limits.ReadGetsNothing`).
- Closing a file changes its destination: from any other path to that of the debug log, and from that to the one of
  the UE events (`HiviewFiles.ClosedPathDiffers`, `Limits.EventLogGoesElsewhere`).
- A message comes back unchanged exactly when its strings are valid UTF-8, which the serializer does not see to, and
  it has no negative zero (`MergeLaws.RoundTripExact`, `Limits.MinusZeroIsLost`, `Limits.BadNameIsWritten`).

## Model

| member | source | states |
|---|---|---|
| `Wire.VarintDigits` | protoc2/label.pb.cc:2791-2944 | the bytes of a varint are the digits of the number to base 128, the lowest first, with the high bit set in all but the last |
| `Wire.VarintShortest` | protoc2/label.pb.cc:2946-3075 | no shorter sequence of digits holds the number |
| `Wire.ReadVarintDigits` | protoc2/label.pb.cc:2605-2616 | for every input, what is read is the value of the digits up to the first byte below 128, padded encodings included; it fails exactly when none of the first bytes is below 128 |
| `Wire.ReadNumbers` | protoc2/label.pb.cc:2605-2616 | a tag is the value of at most five digits modulo 2^32, a number that of at most ten modulo 2^64, and each fails exactly when that many bytes have their high bit set |
| `Wire.ReadDelimitedExact` | protoc2/label.pb.cc:2619-2634 | a length-delimited payload is read exactly when its length is at most 2^31 - 17 and that many bytes are there, and it is those bytes |
| `Utf8.ValidIffEncoded` | protoc2/label.pb.cc:2631 | a string is valid exactly when it is the encoding of some sequence of code points, surrogates excluded, in the bit layout of section 3 of RFC 3629 |
| `Message.NonzeroBits` | protoc2/label.pb.cc:2823 | a float counts as zero exactly when its exponent and fraction are zero, whatever its sign |
| `Message.EnumNumbers` | protoc2/label.pb.cc:2613-2616 | an enum is written as its value modulo 2^64, and read as the signed number of 32 bits that is the same modulo 2^32 |
| `Wire.RecordRoundTrip` | protoc2/label.pb.cc:2605-2616 | a record that is written and followed by anything is read back whole, with its exact length; tags, varints up to ten bytes, fixed and delimited payloads |
| `Wire.RecordsRoundTrip` | protoc2/label.pb.cc:2791-2944 | the records of a message are what its bytes decode to |
| `Schema.NewSchemaOk` | protoc2/label.pb.cc:2605-2789 | the tables of the new schema have one-byte tags that fit their kinds, tag costs equal to the encoded length of the tag, and a layout order that visits each field once |
| `Schema.OldSchemaOk` | protoc2/label.pb - 旧的.cc:1689-1852 | the same for the tables of the older schema |
| `Schema.NewExtendsOld` | protoc2/label.pb - 旧的.cc:1689-1783 | every message of the older schema has the first fields of the new one, with the same tags and kinds, so that all added fields have larger numbers |
| `Examples.FullIsWritten` | protoc2/label.pb.cc:2791-2944 | for each of the eight messages with all fields set: it is well formed, its bytes are these, field by field, and it is what is read from them |
| `Examples.OldKeepsTheRest` | protoc2/label.pb - 旧的.cc:1689-1852 | from the same bytes the older schema reads as many fields as it has, and keeps the bytes of exactly the others |
| `Codec.ParseKeepsGood` | protoc2/label.pb.cc:2605-2789 | whatever bytes are parsed into a well-formed message, the result is well formed: each field has its kind, and no unknown record is one that a case accepts |
| `Codec.ParseIsFold` | protoc2/label.pb.cc:2605-2789 | the parse loop is the decoding of the input into records followed by one update per record; it fails exactly when the one or the other does |
| `Codec.SerializeThenParse` | protoc2/label.pb.cc:2605-3150 | parsing the bytes of `b` into any `m` succeeds exactly when every string in `b` is valid UTF-8, and then is the merge of `b` into `m`, through all nested and repeated messages and unknown records |
| `MergeLaws.RoundTrip` | protoc2/label.pb.cc:3159-3164 | parsing the bytes of `b` into a new message gives `b` with negative zeros turned positive, or fails when a string is not valid |
| `MergeLaws.RoundTripExact` | protoc2/label.pb.cc:2605-3164 | a message comes back unchanged exactly when its strings are valid UTF-8 and no float in it, at any depth, is a negative zero |
| `MergeLaws.CopyIsNormal` | protoc2/label.pb.cc:3152-3164 | CopyFrom gives the message with negative zeros turned positive, at every depth |
| `MergeLaws.CopyIdempotent` | protoc2/label.pb.cc:3159-3164 | copying a copy changes nothing more |
| `MergeLaws.MergeDefault` | protoc2/label.pb.cc:3092-3150 | the cleared message is a right identity of MergeFrom |
| `MergeLaws.MergeAssociative` | protoc2/label.pb.cc:3092-3150 | MergeFrom is associative, through submessages, repeated fields and unknown records |
| `MergeLaws.SerializeIgnoresZeroSigns` | protoc2/label.pb.cc:2822-2827 | a message and its copy have the same bytes: zeros of either sign are not written |
| `MergeLaws.ParseTwice` | protoc2/label.pb.cc:2605-2789 | parsing two serialized messages one after the other is parsing into the target the merge of the two |
| `Interop.PassThrough` | protoc2/label.pb - 旧的.cc:1689-1852 | an older program reads a newer message exactly when the strings it knows are valid, and writes back the very bytes it has read, added fields and unknown records of every level included |
| `Interop.ThereAndBack` | protoc2/label.pb - 旧的.cc:1689-1852 | a message that passes through an older program is, read again by a newer one, the copy of itself |
| `Interop.LabelPassThrough` | protoc2/label.pb - 旧的.cc:1689-1852 | the same for the two schemas of the repository, whose tables are proved to fit together |
| `FieldOrder.FoldIsFieldwise` | protoc2/label.pb.cc:2605-2789 | the value of each field after a parse depends on the records with its number only, and the parse fails exactly when one field does |
| `FieldOrder.FieldOrderIrrelevant` | protoc2/label.pb.cc:2605-2789 | two inputs with the same records for every field number are both rejected or give the same known fields |
| `FieldOrder.LastOneWins` | protoc2/label.pb.cc:2612-2640 | of the records of a number, enum or string the last one counts |
| `FieldOrder.RepeatedAppends` | protoc2/label.pb.cc:1493-1504 | a repeated field gets one new element per record, each parsed on its own, in order |
| `FieldOrder.SubmessageJoins` | protoc2/label.pb.cc:2619-2624 | when all records of a submessage field are accepted, they act like one record with their contents joined, for a submessage that is there and for one that is made |
| `FieldOrder.ParseConcat` | protoc2/label.pb.cc:2605-2789 | whatever follows an accepted input is parsed into its result |
| `ParseSteps.MatchedTurn` | protoc2/label.pb.cc:1488-1504 | a turn of the loop whose tag the switch accepts, for tags of any encoding: the low byte and the number of the tag decide |
| `ParseSteps.UnmatchedTurn` | protoc2/label.pb.cc:1505-1517 | a turn whose tag no case accepts keeps the record; tag zero ends the parse as a failure |
| `ParseSteps.FastPath` | protoc2/label.pb.cc:1493-1504 | going on with the next element when the next byte is the tag again is what the plain loop would do |
| `MessageSteps.TotalIsSum` | protoc2/label.pb.cc:2946-3075 | adding up the fields in any order that visits each once gives the same sum |
| `MessageSteps.SizeInLayoutOrder` | protoc2/label.pb.cc:2946-3075 | the sizes, added in layout order and with the unknown records, are the length of the serialization, which visits the fields in number order |
| `MessageObjects.MessageObject.Clear` | protoc2/label.pb.cc:2578-2603 | the object is a new message again |
| `MessageObjects.MessageObject.InternalParse` | protoc2/label.pb.cc:2605-2789 | the loop with switch and fast path accepts exactly the inputs that the specification accepts, and leaves exactly its result |
| `MessageObjects.MessageObject.ParseRun` | protoc2/label.pb.cc:1493-1504 | the inner loop over one repeated field stops where the outer loop goes on with the same outcome |
| `MessageObjects.MessageObject.MergeFrom` | protoc2/label.pb.cc:3092-3150 | merging in place, unknown records first and fields in layout order, gives the merged message, with copies of its own of all submessages |
| `MessageObjects.MessageObject.CopyFrom` | protoc2/label.pb.cc:3159-3164 | clearing and merging gives the copy; copying from itself changes nothing |
| `MessageObjects.MessageObject.ByteSizeLong` | protoc2/label.pb.cc:2946-3075 | the result is the length of the serialization, and so is the cached size of this object and of every submessage at any depth |
| `MessageObjects.MessageObject.WriteMessage` | protoc2/label.pb.cc:2802-2808 | tag, cached size and content of a submessage are its record: the cached size is the right length prefix |
| `MessageObjects.MessageObject.InternalSerialize` | protoc2/label.pb.cc:2791-2944 | after sizing, the bytes written are the serialization |
| `MessageObjects.MessageObject.SerializeToArray` | protoc2/label.pb.h:1500 | sizing and then writing gives the serialization, of the announced length |
| `HiviewCaches.PutAppends` | protoc2/base/dfx/hiview_lite/hiview_cache.c:64-86 | bytes put at the write cursor, going round at the end, are appended to the queue, also when the cursor rests at the end of the buffer |
| `HiviewCaches.TakeDrops` | protoc2/base/dfx/hiview_lite/hiview_cache.c:126-130 | lowering the used size drops the oldest bytes |
| `HiviewCaches.InitHiviewStaticCache` | protoc2/base/dfx/hiview_lite/hiview_cache.c:8-23 | an empty cache over the given buffer |
| `HiviewCaches.InitHiviewCache` | protoc2/base/dfx/hiview_lite/hiview_cache.c:25-46 | an empty cache over a new buffer, or nothing changed |
| `HiviewCaches.WriteToCache` | protoc2/base/dfx/hiview_lite/hiview_cache.c:48-91 | appends all the bytes exactly when they fit, and otherwise none; cursors and 16-bit sums stay in range |
| `HiviewCaches.ReadFromCache` | protoc2/base/dfx/hiview_lite/hiview_cache.c:93-132 | takes exactly the oldest bytes when there are enough of them, and otherwise nothing |
| `HiviewCaches.PrereadFromCache` | protoc2/base/dfx/hiview_lite/hiview_cache.c:134-168 | returns what the next read returns, and changes nothing |
| `HiviewCaches.DiscardCacheData` | protoc2/base/dfx/hiview_lite/hiview_cache.c:170-178 | leaves an empty queue |
| `HiviewCaches.DestroyCache` | protoc2/base/dfx/hiview_lite/hiview_cache.c:180-194 | leaves a cache without a buffer |
| `CacheThreads.StepKeepsInv` | protoc2/base/dfx/hiview_lite/hiview_cache.c:48-132 | every step of a writer or of the reader, in any state, keeps the invariant that ties cursors, buffer and copied bytes to the queue |
| `CacheThreads.RunKeepsInv` | protoc2/base/dfx/hiview_lite/hiview_cache.c:48-168 | the invariant holds after any interleaving of any number of steps |
| `CacheThreads.NothingLost` | protoc2/base/dfx/hiview_lite/hiview_cache.c:48-132 | in every reachable state the bytes accepted are those taken by reads, then those in the cache, then those of the writer at work |
| `CacheThreads.ReadsAreFifo` | protoc2/base/dfx/hiview_lite/hiview_cache.c:93-168 | when a read or preread ends, it has the oldest bytes in order, whatever writers did between its check and its copy |
| `CacheThreads.NoRace` | protoc2/base/dfx/hiview_lite/hiview_cache.c:100-130 | no writer stores to a place that the reader, without the lock, has read or will read |
| `CacheRuns.RunTells` | protoc2/base/dfx/hiview_lite/hiview_cache.c:48-168 | from the list of steps alone: the bytes accepted are those of the writes let in, the reader is at the last call that has not ended, and as many bytes are taken as the ended reads asked for |
| `CacheRuns.TakenAreFirst` | protoc2/base/dfx/hiview_lite/hiview_cache.c:93-132 | over every interleaving, the bytes taken are the first ones accepted, the cache has those that follow, and all of them when no writer is at work |
| `CacheRuns.CallReturns` | protoc2/base/dfx/hiview_lite/hiview_cache.c:93-168 | a call ends with exactly the bytes it asked for, those that follow the ones taken so far; a read takes them out, lowering the used size by their number, and a preread changes nothing |
| `CacheRuns.OnlyReadsTake` | protoc2/base/dfx/hiview_lite/hiview_cache.c:126-130 | no other step takes a byte |
| `CacheRuns.WriteCompletes` | protoc2/base/dfx/hiview_lite/hiview_cache.c:48-91 | a write that finds the lock free is let in exactly when its bytes fit, and can go on, whatever the reader is at, until all of them are behind the others |
| `CacheRuns.ReadCompletes` | protoc2/base/dfx/hiview_lite/hiview_cache.c:93-168 | a read or preread that finds no writer at work is let in exactly when the bytes are there, and can go on to its end |
| `UtilsList.UtilsListInit` | protoc2/base/ohos_defs/utils_list.h:39-43 | a ring of one node |
| `UtilsList.UtilsListAdd` | protoc2/base/ohos_defs/utils_list.h:152-155 | the node comes directly behind the list head, and the rest of the ring is as before |
| `UtilsList.UtilsListInsert` | protoc2/base/ohos_defs/utils_list.h:160-167 | the node comes directly before the given one |
| `UtilsList.UtilsListTailInsert` | protoc2/base/ohos_defs/utils_list.h:187-190 | the node comes last |
| `UtilsList.UtilsListDelete` | protoc2/base/ohos_defs/utils_list.h:235-241 | the others form the ring, in the same order, and the node points nowhere |
| `UtilsList.DeleteAt` | protoc2/base/ohos_defs/utils_list.h:235-241 | the same, for the node at any place of a list |
| `UtilsList.AddAndDelete` | protoc2/base/ohos_defs/utils_list.h:152-241 | a node that is added and deleted again leaves the original ring: every node of it has the links that it had, and the node points nowhere |
| `UtilsList.UtilsListEmpty` | protoc2/base/ohos_defs/utils_list.h:264-267 | true exactly when the head is alone |
| `UtilsList.UtilsListAddList` | protoc2/base/ohos_defs/utils_list.h:288-299 | two disjoint rings become one: the old head, all of the new ring from its given node on, the rest of the old ring |
| `UtilsList.UtilsListTailInsertList` | protoc2/base/ohos_defs/utils_list.h:320-323 | the new ring comes directly before the old head |
| `UtilsList.UtilsListDelInit` | protoc2/base/ohos_defs/utils_list.h:489-494 | the others form a ring, and the node one of its own |
| `UtilsList.KeepPlaces` | protoc2/base/ohos_defs/utils_list.h:465-469 | the survivors are the elements at all the places whose element is not deleted, in order |
| `UtilsList.ForEachSafe` | protoc2/base/ohos_defs/utils_list.h:465-469 | the delete-safe loop visits every node that was there once, in order, and terminates, whichever nodes its body deletes; the survivors form the ring in their old order |
| `EventHub.FindDrop` | protoc2/base/event_hub/source/event_hub_service.c:86-97 | stopping at the first match is enough: no other node with that key is left, and all other keys find the same node as before |
| `EventHub.RegisteredIsStanding` | protoc2/base/event_hub/source/event_hub_service.c:78-138 | after any registrations a list is exactly those that name a queue and that no later one with the same key replaces, the newest first |
| `EventHub.RegisteredRepresents` | protoc2/base/event_hub/source/event_hub_service.c:78-138 | the list and a map with one entry per key agree after any registrations |
| `EventHub.ListsAreMaps` | protoc2/base/event_hub/source/event_hub_service.c:78-183 | after any messages each list is its standing registrations, represents the map of its registrations, and has a queue in every node |
| `HubRegistry.ListsByFields` | protoc2/base/event_hub/source/event_hub_service.c:78-138 | after any messages: one node for each handle whose last registration names a queue, with that registration's identity; one node for each pair of receiver and sender that is registered, with the number of the last registration; and no other nodes |
| `HubRegistry.FireByFields` | protoc2/base/event_hub/source/event_hub_service.c:42-76 | after any messages an event sends nothing when the last registration of its handle names no queue or there is none, and otherwise one request to each receiver registered for that registration's identity and to no other, with the number of the receiver's last registration cut to 16 bits and the given value, the latest registration first; the registries stay as they are |
| `EventHub.FireTells` | protoc2/base/event_hub/source/event_hub_service.c:42-76 | after any messages an event sends nothing for an unknown handle, else one request to each receiver registered for the handle's current sender and to no other, in list order, with the receiver's number cut to 16 bits and the given value; the lists stay as they are |
| `EventHub.OwnMsgId` | protoc2/base/event_hub/source/event_hub_service.c:69 | the number sent is the receiver's own exactly when it is below 0x8000, and otherwise the signed number of 16 bits that is the same modulo 2^16 |
| `EventHub.NullReceiver` | protoc2/base/event_hub/source/event_hub_service.c:78-108 | a receiver registration without a sender queue leaves both lists as they are, and its node to the framework |
| `EventHub.NodesConserved` | protoc2/base/event_hub/source/event_hub_service.c:155-183 | the nodes submitted are, with multiplicity, those in the lists, those the hub freed and those left to the framework |
| `EventHub.StepKeepsPlaces` | protoc2/base/event_hub/source/event_hub_service.c:155-183 | a message with a node that the hub has not had leaves every node in exactly one place: linked, freed or left to the framework |
| `EventHub.OwnedOnce` | protoc2/base/event_hub/source/event_hub_service.c:155-183 | when no node is submitted twice, none is in two of these places or twice in one: no double free, and nothing freed that is linked |
| `EventHub.FreedAlike` | protoc2/base/event_hub/source/event_hub_service.c:86-127 | what a registration frees was registered for the same handle, or for the same pair of receiver and sender |
| `EventHub.FreedBy` | protoc2/base/event_hub/source/event_hub_service.c:86-137 | the hub frees only nodes that name a queue, and leaves to the framework only those that do not |
| `EventHubServices.FindNode` | protoc2/base/event_hub/source/event_hub_service.c:52-58 | the loop over a ring ends at the first node with the key, or at the head |
| `EventHubServices.DeleteOld` | protoc2/base/event_hub/source/event_hub_service.c:118-127 | the first node with the key, and no other, is unlinked and freed |
| `EventHubServices.UpdateNode` | protoc2/base/event_hub/source/event_hub_service.c:110-138 | the ring is relinked to the list that the specification gives, the flag says whether the node is linked, and the node that is freed is the one that was unlinked, which is the one the specification says |
| `EventHubServices.EventHubService.Initialize` | protoc2/base/event_hub/source/event_hub_service.c:145-153 | two empty rings: the start of every run |
| `EventHubServices.EventHubService.EventHub_UpdateSenderNode` | protoc2/base/event_hub/source/event_hub_service.c:110-138 | the step that the specification takes for a sender, with what is freed and what is left to the framework taken from what the loop and the flag did; the other ring is untouched |
| `EventHubServices.EventHubService.EventHub_UpdateReceiverNode` | protoc2/base/event_hub/source/event_hub_service.c:78-108 | the same for a receiver |
| `EventHubServices.EventHubService.EventHub_FireEvents` | protoc2/base/event_hub/source/event_hub_service.c:42-76 | the requests sent are those that the specification gives, and the rings are untouched |
| `EventHubServices.EventHubService.MessageHandle` | protoc2/base/event_hub/source/event_hub_service.c:155-183 | every message does its step, freed nodes included, and the length becomes zero exactly when the node is linked |
| `EventHubServices.EventHubService.Deliver` | protoc2/base/samgr_lite/samgr/source/message.c:88-97 | the framework frees a node exactly when the hub has left it to it |
| `EventHubApi.EventHub_SendEvent` | protoc2/base/event_hub/source/event_hub_api.c:17-30 | one request with the handle and the value and no data to free, or nothing without a hub; a queue that the hub can be served stays one |
| `EventHubApi.EventHub_ListenToEvent` | protoc2/base/event_hub/source/event_hub_api.c:32-54 | one request with a node of its own, filled in with both identities and the number; a queue that the hub can be served stays one |
| `EventHubApi.EventHub_AddSender` | protoc2/base/event_hub/source/event_hub_api.c:56-74 | one request with a node of its own, filled in with the handle and the identity; a queue that the hub can be served stays one |
| `EventHubApi.PostKeepsQueued` | protoc2/base/event_hub/source/event_hub_api.c:39-73 | a request with a node of its own keeps the queue as the hub needs it: the hub has had none of the waiting nodes, neither linked nor freed nor left to the framework, and no two are the same |
| `EventHubApi.Serve` | protoc2/base/event_hub/source/event_hub_service.c:155-183 | serving a whole queue of posted requests takes the service through the run that they stand for, each step with its node unlinked, and leaves every node in one place: none freed twice, none freed and linked |
| `EventHub.RunContinues` | protoc2/base/event_hub/source/event_hub_service.c:155-183 | serving more messages after others is one run over all of them, so what holds after any run holds after any serving |
| `LogFile.SwapTwice` | protoc2/base/dfx/hiview_lite/hiview_util.c:198-206 | swapping the bytes of a number twice gives it back |
| `LogFile.HeaderRoundTrip` | protoc2/base/dfx/hiview_lite/hiview_file.c:77-129 | a header that is swapped, stored in 27 packed bytes, loaded and swapped is the same header |
| `LogFile.OnDiskBytes` | protoc2/base/dfx/hiview_lite/hiview_file.c:77-98 | the 27 bytes of a stored header: prefix, version and time with the most significant byte first, cursors and size with the least significant byte first |
| `LogFile.RecognisedIff` | protoc2/base/dfx/hiview_lite/hiview_file.c:119-123 | a file is recognised exactly by its size and the letters HVW at its start |
| `LogFile.NewHeaderBytes` | protoc2/base/dfx/hiview_lite/hiview_file.c:43-63 | the first eleven bytes of a new file of each of the five kinds |
| `LogFile.OpenForeign` | protoc2/base/dfx/hiview_lite/hiview_file.c:42-66 | opening a file that is not recognised puts a new header in its first 27 bytes and leaves the others |
| `LogFile.OpenKnown` | protoc2/base/dfx/hiview_lite/hiview_file.c:67-72 | opening a file that is recognised leaves it as it is and takes its prefix, type, time and size over; the versions are those of the code, and the cursors stand at the end of the file and the start of its body |
| `LogFile.OverwriteBytes` | protoc2/base/dfx/hiview_lite/hiview_file.c:145-151 | a write changes the bytes it covers and no others, and the file grows only when it goes beyond the end |
| `LogRuns.FreshHolds` | protoc2/base/dfx/hiview_lite/hiview_file.c:26-75 | a new file that is not a dump starts every run within its limits |
| `LogRuns.WriteHolds` | protoc2/base/dfx/hiview_lite/hiview_file.c:131-153 | a write rotates exactly when the bytes do not fit behind the others, leaves the header and the bytes since the last rotation, moves the whole old file, and stays within the limits exactly when it has not rotated or the bytes fit in an empty file |
| `LogRuns.ReadHolds` | protoc2/base/dfx/hiview_lite/hiview_file.c:155-177 | a read returns as many unread bytes of the body as it asks for when there are that many, and otherwise all that are left, but none when it asks for more than the whole file has |
| `LogRuns.ReadProgress` | protoc2/base/dfx/hiview_lite/hiview_file.c:164-167 | while bytes are left, a read returns some exactly when it asks for no more than the file has, header included |
| `LogRuns.ReopenRecovers` | protoc2/base/dfx/hiview_lite/hiview_file.c:100-129 | opening a written file finds its end and its header again exactly when its prefix is one of this code; only the read cursor starts again |
| `LogRuns.Run` | protoc2/base/dfx/hiview_lite/hiview_file.c:131-254 | over every run of writes that fit, reads and reopenings: header <= rCursor <= wCursor = file length <= limits, the file is its header and the bytes since the last rotation, reads give a prefix of them, and the moved file is a header and the bytes before |
| `LogRuns.LogConserves` | protoc2/base/dfx/hiview_lite/hiview_file.c:131-153 | the files found at the destination right after each rotation of a run are a header and the bytes of one log each; these bytes, one file after another, and then those of the log are all that was written. The destination keeps the last file only |
| `FileUtil.HIVIEW_FileCopy` | protoc2/base/dfx/hiview_lite/hiview_util.c:129-176 | for every chunking and every failure, a reply of zero means that the destination is the source, byte for byte; no other file changes |
| `FileUtil.CopyLoop` | protoc2/base/dfx/hiview_lite/hiview_util.c:155-162 | the loop over the reused buffer terminates, and succeeds only with all bytes copied |
| `FileUtil.HIVIEW_FileMove` | protoc2/base/dfx/hiview_lite/hiview_util.c:178-185 | a reply of zero means that the source is gone, and that its content is at the destination exactly when the two paths differ |
| `FileUtil.Change32Endian` | protoc2/base/dfx/hiview_lite/hiview_util.c:198-206 | the bytes of the result are those of the number in the other order |
| `HiviewFiles.WriteFileHeader` | protoc2/base/dfx/hiview_lite/hiview_file.c:77-98 | success means that the file starts with the header as it is stored, and is the same behind it |
| `HiviewFiles.ReadFileHeader` | protoc2/base/dfx/hiview_lite/hiview_file.c:100-129 | the header is taken over only from a file that is recognised, and always when nothing fails |
| `HiviewFiles.InitHiviewFile` | protoc2/base/dfx/hiview_lite/hiview_file.c:26-75 | when nothing fails, header and file are what the specification gives, for a new, a recognised and a foreign file |
| `HiviewFiles.ProcFile` | protoc2/base/dfx/hiview_lite/hiview_file.c:217-254 | a copy leaves the file and its header; a move puts the whole file at the destination and starts a new one; only these two files change, whatever fails |
| `HiviewFiles.WriteToFile` | protoc2/base/dfx/hiview_lite/hiview_file.c:131-153 | when nothing fails, the step that the specification takes; in any case a reply other than zero means that the bytes are directly before the write cursor |
| `HiviewFiles.ReadFromFile` | protoc2/base/dfx/hiview_lite/hiview_file.c:155-177 | when nothing fails, the step that the specification takes; in any case a reply other than zero means that many bytes of the file, from the read cursor on |
| `HiviewFiles.ClosedPathDiffers` | protoc2/base/dfx/hiview_lite/hiview_file.c:196-215 | no destination survives a close; the log path and the UE event path take turns from then on |
| `HiviewFiles.CloseHiviewFile` | protoc2/base/dfx/hiview_lite/hiview_file.c:196-215 | the descriptor is closed unless it is zero, and the destination becomes another one |
| `Limits.MsgIdIsCut` | protoc2/base/event_hub/source/event_hub_service.c:69 | a receiver registered with number 0x8000 is sent -0x8000 |
| `Limits.ReceiverStays` | protoc2/base/event_hub/source/event_hub_service.c:78-108 | a receiver that is registered stays so after the same registration without a queue |
| `Limits.MoveOntoItself` | protoc2/base/dfx/hiview_lite/hiview_util.c:178-185 | a file of three bytes that is moved onto itself is gone |
| `Limits.WriteBeyondLimit` | protoc2/base/dfx/hiview_lite/hiview_file.c:139-151 | one byte written to a file with room for its header only leaves 28 bytes where 27 are allowed |
| `Limits.NewPrefixKnown` | protoc2/base/dfx/hiview_lite/hiview_file.c:43-57 | a new file has a prefix of this code exactly when it is of one of five kinds or the header had one before |
| `Limits.DumpIsLost` | protoc2/base/dfx/hiview_lite/hiview_file.c:43-57 | a dump file created with a zeroed header is opened again with the write cursor before its one byte |
| `Limits.EventLogGoesElsewhere` | protoc2/base/dfx/hiview_lite/hiview_file.c:196-215 | a closed event file goes to the path of the debug log, and a closed debug log to that of the UE events |
| `Limits.MinusZeroIsLost` | protoc2/label.pb.cc:729-753 | a size whose width is -0.0 comes back with +0.0 |
| `Limits.BadNameIsWritten` | protoc2/label.pb.cc:1193-1307 | a key point whose name is the byte 0xFF is written as three bytes that are then refused |

## Left out

- The library primitives (`ReadTag`, `ReadVarint64`, `ParseMessage`, `UnknownFieldParse`, `InternalWriteMessage`) are not in the repository; they are modelled from the Protocol Buffers "Encoding" guide, sections "Base 128 Varints", "Message Structure", "Length-Delimited Records", "Last One Wins" and "Field Order".
- Group wire types inside unknown fields: a record with one is a parse failure here.
- The parse buffers and slop bytes of the library, its recursion limit, arenas, destructors, reflection, `InternalSwap`, and the conversion of cached sizes to `int`.
- Messages of more than INT_MAX less 16 bytes: the laws about bytes ask for a shorter serialization, because longer length prefixes are refused when they are read.
- MessageObjects.MessageObject.InternalParse: says nothing about what an object holds after a failed parse.
- The messages of `protobuf-3.17.2-release/`, which repeats the two generated files, and `DefectRect` in the older schema, which does not have it.
- HiviewCaches.DiscardCacheData: takes no lock in the source, so it is modelled for one thread only, like `DestroyCache`; the step model has one reader, as the source's comment says, and sequentially consistent memory.
- EventHubApi.EventHub_AddSender: assumes that the allocation succeeds and that the hub's queue has room, as the source does; `EventHub_GetInstance` is a lookup in a registry that is not part of this model.
- EventHubServices.EventHubService.Deliver: is the one call of the handler and the freeing of the request's data; shared and answered requests of the framework are left out.
- `UtilsListHeadInsert` and `UtilsListHeadInsertList`, which call the functions modelled here.
- HiviewFiles.WriteToFile: the lengths of reads and writes are below 2^31, since the replies are signed numbers of 32 bits; null path pointers, and the mutex around the destination, are left out; the file and the place it is moved to have different paths, which the source sees to when a watcher registers one.
- HiviewFiles.ProcFile: promises nothing about the content when a copy fails, because the source is unlinked regardless.
- HiviewFiles.CloseHiviewFile: does not model the freeing of path strings; the destinations are those of the default directory. The watcher functions `RegisterFileWatcher` and `UnRegisterFileWatcher` do not appear; whether a watcher is registered is a field.
- FileUtil.HIVIEW_FileCopy: the failure to allocate its buffer is left out; a file that is unlinked while it is open is not modelled, since the code closes files before it moves them.
- The serial port messages, clocks (a time is a parameter), the Hiview service, the queues of the service framework, `label_pb2.py`, the detection engine and the test programs.
