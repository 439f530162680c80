# kvx in Dafny

kvx is a sharded key/value store that keeps its data in memory and speaks a memcached-style text protocol. This project
models its core and proves what the code is meant to guarantee:

- the hash table whose growth is spread over later calls (`Swar`, `Mask`, `Buckets`, `Chains`, `Halves`, `Tables`, `TableRuns`,
  `TableLaws`) is a plain map at every point of every migration, its load stays bounded, and growths never overlap;
- the slab allocator (`Slabs`, `SizeClasses`, `Allocators`) never hands out a chunk twice, keeps its stacks of slabs with room
  exact, and serves each request from the least class that fits;
- a shard and the store (`Items`, `Shards`, `Kvs`, `StoreLaws`) keep the live chunks and the items of the table in one-to-one
  correspondence and refine a map from keys to value, flags and expiry: a get answers with what the last effective set wrote;
- threads calling the store (`Threads`) are serialised by one mutex a shard, and every interleaving is linearizable to that map;
- the protocol parser (`Bytes`, `Numbers`, `Tokens`, `Protocol`, `Grammar`, `Frames`) accepts exactly the well-formed frames, gives
  each error exactly for the bytes that call for it, and its verdicts are stable under arriving bytes; printed commands, streams and answers (`Printing`, `Streams`, `Responses`) read
  back as what was printed;
- connection buffers (`Connections`) are FIFO byte queues under a hard limit;
- Sattolo's shuffle (`Cycles`) yields a single cycle for every sequence of random numbers, every single cycle for some, and
  different cycles for different choices.

The code is imperative and so is the model: buckets, tables, slabs, size classes, allocators, items, shards, writers and
connections are classes with the fields of the C structures, and loops carry their invariants. Each class has a ghost picture
of what it stands for (the map of a table, the live chunks of an allocator, the history of a connection) that its `Valid()`
ties to the real fields. A method is proved equal to a function on values, and that function is then tied down by laws that do not
name it: bytes of the line, literal answers, requests and answers of a run. `dafny verify dfyconfig.toml` checks the project.

How the C is represented: sizes are unbounded unless a wrap, a narrow field or a 64-bit limit matters, and then it is written
out (`Items.Item.SetKey`, `Allocators.Total`, `Protocol.BodyOf`, `Streams.GrowWindow`). XXH3 is a function `H` from keys to 64-bit words about
which nothing is assumed; callers of a table pass `hash == H(key)`, as the code does. Slices are offsets into a buffer. The
answers of `pages_map`, `realloc`, `recv` and `send` are parameters that may be anything.

Where the code and its comments disagree the model follows the code: the comment on the tag match (src/hashtable.c:50) says a
bit is set if and only if the byte equals the tag, which `Swar.FalseCandidate` refutes; `Swar.CandidatesExactWhen` says exactly when it
is true. Two more intentions fail for some inputs. A request near the largest size wraps when the header is added
(src/slab_alloc.c:296) and is granted a chunk that is too small: `Allocators.WrappedRequest` is one, and `Allocators.RoomExactlyWhen` says exactly
when the room suffices. The rollback of a set that gets no chunk (src/kv.c:105-110) runs into the null it should remove:
`Shards.EmptyKeyInVain` is an instance, and `Shards.Shard.ReserveInVain` says exactly when no chunk is granted and what the rollback then meets.

## Model

| member | source | states |
|---|---|---|
| Swar.CandidateExactly | src/hashtable.c:46-55 | before masking, a candidate bit is set if and only if the byte equals the tag, or differs from it in bit 0 alone above another candidate |
| Swar.CandidatesExactWhen | src/hashtable.c:46-55 | the candidates are exactly the bytes equal to the tag if and only if no byte above one of these differs from the tag in bit 0 alone |
| Swar.FalseCandidate | src/hashtable.c:50 | a concrete word of tags for which the commented equivalence fails |
| Swar.GatherBit | src/hashtable.c:17-19 | the gather multiplication moves the top bit of byte i to bit i, without carries |
| Swar.MatchBit | src/hashtable.c:46-55 | after masking, a bit stands for a busy slot that is a candidate, and no busy slot with the tag is missed |
| Swar.SetTagAt | src/hashtable.c:97-105 | writing one tag changes that tag and no other |
| Swar.FirstFree | src/hashtable.c:72-76 | the lowest empty slot, or -1 if and only if all eight are busy |
| Swar.DropLowest | src/hashtable.c:217-220 | clearing the lowest bit removes the slot just taken and no other |
| Mask.PowerOfTwoTest | src/hashtable.c:145-146 | the bit trick is zero exactly for powers of two |
| Mask.MaskIsModulo | src/hashtable.c:339 | masking with a power of two less one is the remainder |
| Mask.IndexDoubles | src/hashtable.c:393 | a key of old bucket i goes to new bucket i or i plus the old count |
| Mask.IndexInRange | src/hashtable.c:453 | the bucket index stays inside the array |
| Mask.IndexIs | src/hashtable.c:339 | the bucket is the hash without its low byte, modulo the number of buckets |
| Items.Item.KeyMatches | src/item.h:51-57 | true exactly when the item's key equals the given one |
| Items.Item.SetKey | src/item.h:39-43 | the key's bytes are stored, its length in 16 bits |
| Items.Item.SetValue | src/item.h:45-49 | the value's bytes are stored behind the key, its length in 32 bits |
| Buckets.Bucket.Scan | src/hashtable.c:216-229 | the candidate loop finds the first slot that holds the key, or none if no slot does |
| Buckets.Bucket.FirstFreeSlot | src/hashtable.c:72-76 | the first slot that is not busy |
| Buckets.Bucket.Reserve | src/hashtable.c:460-461 | one slot becomes busy with the tag, all others keep state and tag |
| Buckets.Bucket.Clear | src/hashtable.c:550-552 | one slot becomes empty with tag zero and no item, all others stay |
| Chains.FindSlot | src/hashtable.c:235-253 | the walk finds the first holder of the key on the whole chain, as a linear scan by key would |
| Chains.FindSlotChained | src/hashtable.c:206-233 | the same for the overflow part of a chain |
| Chains.FindSlotOrFree | src/hashtable.c:305-327 | the first holder; else the first empty slot; else slot 0 of a bucket appended to the chain |
| Chains.FindSlotOrFreeChained | src/hashtable.c:256-303 | the same, given what the first bucket offered |
| Chains.InitChain | src/hashtable.c:37-44 | an empty bucket is linked behind the chain |
| Halves.ChainSearchable | src/hashtable.c:206-253 | in a well-kept half every chain may be searched: busy slots hold items, and holders of a key wear its tag |
| Halves.TagIs | src/hashtable.c:494 | the tag is the top byte of the hash |
| Halves.SearchFinds | src/hashtable.c:235-253 | a search ends in the slot recorded for the key, which holds the key's item |
| Halves.SearchMisses | src/hashtable.c:235-253 | a search that finds nothing means the half does not store the key |
| Halves.FindOrGrow | src/hashtable.c:305-327 | find-or-free on a half keeps its layout and contents and ends in the key's slot or an empty one on its chain |
| Halves.InsertItem | src/hashtable.c:391-402 | a migrated item enters the new half once, under its key, and nothing else changes |
| Halves.GetItem | src/hashtable.c:506-526 | lookup in one half |
| Halves.DeleteItem | src/hashtable.c:540-574 | deletion in one half removes that key and no other |
| Tables.Transfer | src/hashtable.c:381-403 | migrating one slot moves exactly its key; the destination search never meets a copy, so the item is always added |
| Tables.Table.MigrateSlot | src/hashtable.c:381-403 | the same on the table, the sum of the two sizes unchanged |
| Tables.Table.MigrateSlots | src/hashtable.c:405-415 | all busy slots of a bucket leave it |
| Tables.Table.MigrateBucket | src/hashtable.c:417-432 | all keys of a chain have landed in the new half |
| Tables.Table.MigrateChain | src/hashtable.c:424-431 | the loop over the overflow buckets leaves every one empty |
| Tables.LandLastFlight | src/hashtable.c:434-440 | after the last chain the old half is empty and the new half holds the whole map |
| Tables.Table.FinishMigration | src/hashtable.c:362-379 | the new half becomes the table; the load is below the new threshold |
| Tables.Table.ProcessMigrationStep | src/hashtable.c:434-440 | one step advances the migration by one bucket or ends it, the map and the total size unchanged |
| Tables.Table.Maintenance | src/hashtable.c:442-446 | one migration step if a migration runs, which leaves room for one more item within the load bound; the map and the total size unchanged |
| Tables.Table.CheckInitMigration | src/hashtable.c:342-360 | growth starts exactly when the threshold is reached, no migration runs and memory is granted |
| Tables.RoutedTo | src/hashtable.c:335-340 | the routing test picks the only half that can hold the key |
| Tables.Table.SetOld | src/hashtable.c:450-468 | reserving a slot in the old half |
| Tables.Table.SetNew | src/hashtable.c:470-488 | reserving a slot in the new half |
| Tables.Table.Set | src/hashtable.c:490-504 | returns the key's slot: with the key's item if the map has the key, else reserved for it and holding null; all other keys unaffected |
| Tables.Table.Get | src/hashtable.c:528-538 | returns the map's item or null |
| Tables.Table.DeleteOld | src/hashtable.c:540-556 | deletion in the old half |
| Tables.Table.DeleteNew | src/hashtable.c:558-574 | deletion in the new half |
| Tables.Table.Delete | src/hashtable.c:576-588 | removes exactly the key and returns its item or null |
| Tables.Table.Store | src/hashtable.c:118-121 | the caller's write through the returned pointer puts the item in the map under the key |
| Tables.Table.LenIsMapSize | src/hashtable.c:590-593 | the length is the size of the map |
| Tables.Table.LoadBound | src/hashtable.c:342-360 | with memory granted: at most 6n items when idle, 6n + 1 + migration position while migrating |
| Tables.Table.Compared | src/hashtable.c:576-588 | a delete of a key whose reserved slot was never stored to either takes the slot's chain in its migration step, or leaves that chain and its routing alone and searches it; every slot the search visits before the reserved one holds another key, and the reserved one is a candidate |
| TableRuns.Init | src/hashtable.c:140-175 | a table if and only if the capacity (128 for 0) is a power of two and memory is granted; it is empty and grows at six items a bucket |
| TableRuns.UnreachedAreEmpty | src/hashtable.c:381-440 | a new bucket j with j mod n at or past the migration position is empty |
| TableRuns.Run | src/hashtable.c:490-593 | every sequence of set, get, delete and length returns what a plain map returns; migrations advance by one bucket a set or delete and growths do not overlap |
| TableLaws.AfterTouch | src/hashtable.c:490-588 | in a run, a set, get or delete returns the item of the last set of its key, or null after a delete |
| TableLaws.NeverSet | src/hashtable.c:490-588 | on a new table it returns null while its key has not been set |
| TableLaws.LengthCounts | src/hashtable.c:590-593 | the length is the number of keys whose last set or delete is a set |
| TableRuns.MigrationLength | src/hashtable.c:434-446 | a migration over n buckets ends with exactly the n-th set or delete, whatever memory is refused; with memory granted throughout no growth begins in that call |
| Slabs.Slab.constructor | src/slab_alloc.c:45-60 | a fresh slab of 2 MiB is cut into as many equal chunks as fit behind its header, none live, all unused |
| Slabs.Slab.AllocItem | src/slab_alloc.c:68-92 | null only when no chunk is free; else a chunk that was not live, from the free list first; the partition into live, free and unused is kept |
| Slabs.Slab.FreeItem | src/slab_alloc.c:94-103 | the chunk leaves the live ones and heads the free list, which stays acyclic |
| Slabs.Slab.ChunksDisjoint | src/slab_alloc.c:82-83 | chunks do not overlap |
| Slabs.Slab.InsideSlab | src/slab_alloc.c:56 | chunks lie between the header and the end of the slab |
| Slabs.AlignUpLeast | src/slab_alloc.c:22-25 | the least multiple of eight not below the value |
| SizeClasses.NextIsLarger | src/slab_alloc.c:208-220 | one growth step: the multiple of 8 from a quarter more to seven bytes beyond that, or the largest size where a quarter more exceeds it |
| SizeClasses.ClimbGrows | src/slab_alloc.c:251-256 | the class sizes are strictly increasing multiples of 8 from 48 to 2^19, each but the last at least a quarter larger than the one before |
| SizeClasses.LadderUnique | src/slab_alloc.c:251-256 | the growth rule determines the list of sizes |
| SizeClasses.LadderIsGeometric | src/slab_alloc.c:208-259 | from 48 to 2^19 each size is the only multiple of 8 in its quarter range |
| SizeClasses.FortyTwoClasses | src/slab_alloc.c:222-259 | there are 42 sizes, and these are their values |
| SizeClasses.CountSlabClasses | src/slab_alloc.c:222-234 | the counting loop ends and counts that list, which has 42 sizes |
| SizeClasses.FitIsTight | src/slab_alloc.c:272-292 | a class fits if and only if the size is at most 2^19; above 48 bytes the chunk is below 1.25 times the size plus 7 |
| Allocators.SlabClass.GrowSlabs | src/slab_alloc.c:148-161 | the capacity of both arrays grows by half |
| Allocators.SlabClass.Grow | src/slab_alloc.c:163-174 | a new slab joins the class and the stack; other chunks are untouched |
| Allocators.SlabClass.AllocItem | src/slab_alloc.c:176-192 | a class always yields a chunk, never one that is live: from the slab on top of the stack, and from one new slab exactly when the stack is empty |
| Allocators.SlabClass.FreeItem | src/slab_alloc.c:194-200 | a slab that regains its first free chunk goes on top of the stack, which again lists exactly the slabs with room |
| Allocators.SlabClass.StackHasRoom | src/slab_alloc.c:194-200 | the stack never overflows its array |
| Allocators.SlabClass.LiveHeader | src/slab_alloc.c:88-96 | word 0 of a live chunk leads to its slab and class |
| Allocators.SlabClass.Release | src/slab_alloc.c:94-103 | freeing a chunk changes the liveness of that chunk only |
| Allocators.Allocator.constructor | src/slab_alloc.c:236-259 | one empty class a size |
| Allocators.Allocator.FindClass | src/slab_alloc.c:272-292 | binary search returns the least class that fits, or the number of classes |
| Allocators.Allocator.AllocItem | src/slab_alloc.c:294-309 | null if and only if the length is 0 or the length plus 24, in 64 bits, exceeds 2^19; else a chunk of the least fitting class that was not live |
| Allocators.LeastChunk | src/slab_alloc.c:272-309 | a granted chunk is of the least of the 42 sizes that has the room; 25 bytes get a chunk of 64 |
| Allocators.RoomExactlyWhen | src/slab_alloc.c:296 | a granted chunk has the room asked for if and only if adding the header does not wrap |
| Allocators.WrappedRequest | src/slab_alloc.c:296 | a request of the largest size on a new allocator is granted a chunk that is too small |
| Allocators.Allocator.FreeItem | src/slab_alloc.c:94-103 | exactly that chunk stops being live |
| Allocators.Serve | src/slab_alloc.c:94-309 | for every sequence of requests the live chunks are exactly those granted and not freed, each once, each with room for the length asked if adding the header did not wrap, else for the wrapped total |
| Allocators.OneMoreRequest | src/slab_alloc.c:94-309 | what `Serve` holds after one more request: a granted length joins at the end, a freed one is cut out, and other requests change nothing |
| Shards.BindNew | src/kv.c:102-113 | adding a live chunk under a new key keeps chunks and items in bijection |
| Shards.Rebind | src/kv.c:115-127 | so does exchanging the chunk of a key |
| Shards.Unbind | src/kv.c:147-154 | and removing a key with its chunk |
| Shards.Shard.constructor | src/kv.c:30-39 | an empty shard |
| Shards.Shard.Get | src/kv.c:48-84 | the reply and destination buffer are the map's; the shard is unchanged; the mutex is free again on every path |
| Shards.Shard.MakeRoom | src/kv.c:97-127 | the chunk for a set: the present one if it is large enough, no chunk changing hands, else one of the least class that fits; null exactly for oversized entries, the map then unchanged |
| Shards.Shard.Exchange | src/kv.c:117-126 | the old chunk is freed once, after the new one is granted |
| Shards.Shard.Fill | src/kv.c:129-133 | the item then holds the key, value, flags and expiry |
| Shards.Shard.Set | src/kv.c:86-138 | the map gains the entry, or is unchanged with NO_MEM; bijection and size invariants hold; the mutex is free again on every path |
| Shards.Shard.ReserveInVain | src/kv.c:99-110 | for an absent key whose size fits no chunk, and only then, no chunk is granted; the reserved slot is left busy and null under the key's tag, and the delete meant as rollback comes to that null: its migration step takes the slot's chain, or its search reaches the slot before finding the key |
| Shards.EmptyKeyInVain | src/kv.c:99-110 | an instance: the empty key and value on a new shard, where no migration runs and the search compares with null |
| Shards.Shard.Delete | src/kv.c:140-158 | the map loses exactly the key, and its chunk is freed |
| Kvs.CoverSet | src/kv.c:204-216 | a set on the shard its key picks is the set on the whole map |
| Kvs.CoverDelete | src/kv.c:218-226 | the same for a delete |
| Kvs.CoverGet | src/kv.c:189-202 | the same for a get |
| Kvs.ShardIs | src/kv.c:189-226 | the shard is picked by the low byte of the hash |
| Kvs.Kv.constructor | src/kv.c:165-177 | 256 empty shards in fresh memory that share none of it |
| Kvs.Kv.Get | src/kv.c:189-202 | the whole store answers as the map |
| Kvs.Kv.Set | src/kv.c:204-216 | the whole store changes as the map, all 256 shards staying sound and apart |
| Kvs.Kv.Delete | src/kv.c:218-226 | the whole store changes as the map |
| Kvs.Run | src/kv.c:165-226 | every sequence of gets, sets and deletes gives the answers of a plain map, whatever the page allocator answers |
| Kvs.RunNew | src/kv.c:165-226 | the same from a new store, whose map is empty |
| StoreLaws.AfterSet | src/kv.c:48-138 | in a run, a get whose key was last changed by a set answers the length, flags and expiry of that set with its value at the front of a large enough buffer, or the length alone with the buffer unchanged; a delete succeeds; what happens to other keys does not matter |
| StoreLaws.AfterDelete | src/kv.c:48-158 | when the last change was a delete, a get and another delete answer NOT_FOUND |
| StoreLaws.NeverSet | src/kv.c:48-158 | so do they on a new store while nothing has changed the key |
| StoreLaws.SetAnswer | src/kv.c:86-138 | a set is answered NO_MEM if key and value exceed 2^19 - 24 bytes, and else as done |
| Threads.Linearizable | src/kv.c:48-226 | in every interleaving of any threads the finished calls form a sequential run of a map that gives every returned answer and respects real-time order; calls have their own numbers and each return answers one call |
| Threads.LegalIsRun | src/kv.c:48-226 | the sequential order is a run from the empty map, so the laws of `StoreLaws` hold of its answers |
| Threads.NoDeadlock | src/kv.c:58-155 | while a call is in progress some thread can take a step that brings its own call nearer to its end |
| Threads.MutualExclusion | src/kv.c:58-155 | two threads are never inside one shard |
| Threads.ChangesOnlyUnderLock | src/kv.c:95-135 | a shard's memory changes only by the holder of its mutex |
| Threads.Quiescent | src/kv.c:58-155 | with no call in progress all mutexes are free and the shards make up the map of the order |
| Threads.StepKeeps | src/kv.c:48-158 | every step of every thread keeps the invariant |
| Numbers.ParseUint | src/protocol.c:38-68 | accepts exactly the nonempty decimal tokens with value at most the limit, and returns the value |
| Numbers.ValueWeighs | src/protocol.c:38-68 | the value of a token is the sum of its digits times powers of ten |
| Numbers.NumberExactly | src/protocol.c:38-68 | a number is one or more of the characters 0 to 9; 123 is read as one hundred and twenty-three |
| Numbers.Digits | src/protocol.c:471-480 | formatting yields a number without leading zeros that reads back as the same value |
| Numbers.DigitsUnique | src/protocol.c:471-480 | it is the only such number |
| Numbers.DigitsFitBuffers | src/protocol.c:497-498 | 32-bit numbers fit 10 bytes, 64-bit numbers 20 |
| Numbers.FormatUint | src/protocol.c:471-480 | the backward loop writes the digits and nothing else |
| Tokens.TokensExactly | src/protocol.c:147-167 | the tokens are exactly the longest runs of bytes other than blank and tab, each once, in order |
| Protocol.FindLine | src/protocol.c:111-135 | the first CR or LF decides the line or the error |
| Protocol.Tokenize | src/protocol.c:137-171 | all tokens, or an error if there are more than six |
| Protocol.ParseKey | src/protocol.c:194-213 | accepts exactly the keys of 1 to 250 bytes above 0x20 without 0x7f |
| Protocol.ParseGetKeys | src/protocol.c:249-287 | every key is validated; the first invalid one decides the error; the first is reported |
| Protocol.ParseHeader | src/protocol.c:289-348 | agrees with the meaning of the line by its tokens, the get shortcut included |
| Protocol.GetPrefix | src/protocol.c:294-303 | the prefix test is true exactly when the first word is get |
| Protocol.ParseBody | src/protocol.c:350-390 | the value is delimited by its length, never scanned, and must be followed by CR LF |
| Protocol.ParseCommand | src/protocol.c:410-445 | the first frame of the buffer; errors consume nothing |
| Grammar.HeaderExactly | src/protocol.c:289-348 | a line is accepted as a command if and only if its words, names and limits written out, read as that command |
| Grammar.HeaderRejects | src/protocol.c:249-348 | a line is rejected with an error if and only if its words call for that error: more than six words, an unknown name, a wrong number of words or no noreply where one is due, the key, flags, expiry, length, in this order; for a get the first bad key decides |
| Grammar.NamesSpelled | src/protocol.c:71-109 | the six names, letter by letter |
| Grammar.LineExactly | src/protocol.c:111-135 | a line ends at the first CR or LF, which is a CR before an LF |
| Grammar.LineRejects | src/protocol.c:111-135 | EXPECTED_CRLF exactly for an LF or a CR before another byte as the first break; INCOMPLETE exactly without a break or with a CR as the last byte and first break |
| Grammar.FrameExactly | src/protocol.c:410-445 | a buffer is accepted as a frame if and only if it is framed so, byte by byte |
| Grammar.FrameRejects | src/protocol.c:350-445 | each error of the parser exactly for the bytes that call for it: of the line, of its words, of a value that is too long for 64 bits, not yet there, or not followed by CR LF |
| Grammar.IncompleteEnds | src/protocol.c:392-445 | every INCOMPLETE buffer has an extension with another verdict |
| Frames.VerdictStable | src/protocol.c:392-409 | a verdict other than INCOMPLETE is the same for every extension of the buffer |
| Frames.VerdictOfPrefix | bench/protocol_bench.c:489-517 | every strict prefix of a frame is INCOMPLETE, every longer prefix of the buffer gives the frame |
| Frames.PrefixFree | bench/protocol_bench.c:489-517 | no frame is a proper prefix of another |
| Frames.NextKey | src/protocol.c:447-468 | moves to the next token before the end of the keys, or reports that there is none |
| Frames.ListKeys | src/protocol.c:447-468 | the key of a parsed get and the keys after it are exactly the words of the line, in order, all valid |
| Printing.JoinTokens | bench/protocol_bench.c:241-293 | words joined by blanks are told apart again, each in its place |
| Printing.PrintBound | bench/protocol_bench.c:336-340 | a printed command is no longer than its allowance |
| Printing.RoundTrip | bench/protocol_bench.c:241-293 | parsing a printed command returns its fields and consumes exactly the printed length, whatever its value and whatever follows |
| Printing.PrintedFields | bench/protocol_bench.c:241-293 | the same field by field: kind, flags, expiry and noreply are those requested, and the reported slices hold the key's and the value's bytes |
| Printing.Writer.PutNumber | bench/protocol_bench.c:141-158 | appends the decimal digits |
| Printing.Writer.EmitGet | bench/protocol_bench.c:241-247 | appends the printed get and records where its key is |
| Printing.Writer.EmitSet | bench/protocol_bench.c:249-271 | appends the printed set and records where its fields are |
| Printing.Writer.EmitDelete | bench/protocol_bench.c:273-280 | appends the printed delete |
| Printing.Writer.EmitTouch | bench/protocol_bench.c:282-293 | appends the printed touch |
| Printing.Writer.Emit | bench/protocol_bench.c:306-323 | dispatch over the four |
| Streams.PrintedStream | bench/protocol_bench.c:342-371 | concatenated printed commands parse back to the same list |
| Streams.FramesForAt | bench/protocol_bench.c:342-371 | each place of that list holds the printed command and its length |
| Streams.Totals | bench/protocol_bench.c:643-670 | one more frame adds its length to the total, and key length, value length and the number of its kind to the sum, modulo 2^64 |
| Streams.BuildStream | bench/protocol_bench.c:342-371 | the stream and its records, inside the allotted buffer |
| Streams.CheckFields | bench/protocol_bench.c:430-448 | true exactly when the reported fields are the recorded ones |
| Streams.FieldsMatch | bench/protocol_bench.c:394-428 | what the parser must report for a printed command is what was recorded when printing it |
| Streams.CheckDecides | bench/protocol_bench.c:394-448 | the check of a printed command is passed by reports of its own fields and no others |
| Streams.VerifyStream | bench/protocol_bench.c:451-487 | the check of a built stream always succeeds |
| Streams.ParseAll | bench/protocol_bench.c:649-670 | counts and sums the frames of the stream up to the first that does not parse |
| Streams.ParseChunked | bench/protocol_bench.c:716-754 | same count and sum for every chunk size; ok if and only if the whole stream parses; at most one retry a chunk, and just one a chunk when it does |
| Responses.WriteGetResult | src/protocol.c:482-543 | the exact text, or the first error that applies, each by its condition, with the destination unchanged |
| Responses.ResultReadsBack | src/protocol.c:516-541 | the text is a line of the words VALUE, key, flags and length in decimal, then the value, each ended by CR LF, and no more |
| Responses.ResultUnambiguous | src/protocol.c:94-100 | a stream of answers can be read back in one way only |
| Connections.Grow | src/conn.c:23-56 | succeeds if and only if the limit allows and memory is granted; the bytes stay; the new capacity is the doubled one |
| Connections.Doubled | src/conn.c:34-46 | the doubled capacity reaches what is needed, stays within the limit, and is at least twice the old one or the limit |
| Connections.DoubledExactly | src/conn.c:34-46 | the new capacity is the first of cap, 2 cap, 4 cap and so on to reach the need, or the limit if half the limit comes first |
| Connections.CapModest | src/conn.c:172-183 | growing for n bytes never leaves more than 2n, unless that much was there before |
| Connections.Compact | src/conn.c:58-69 | the live bytes move to the front unchanged |
| Connections.Conn.constructor | src/conn.c:89-109 | two empty queues |
| Connections.Conn.Attach | src/conn.c:111-136 | an attached connection starts with empty queues |
| Connections.Conn.Recv | src/conn.c:159-213 | takes every byte before the first final answer of the kernel, which decides between AGAIN, EOF and ERROR, if the buffer gets room for more; else fills the buffer, with FULL at the limit and ERROR below it when memory is refused; what is left of the kernel's answers, the capacity and the end-of-stream flag are exact; successful reads are no more than the limit less the unread bytes |
| Connections.RecvConserves | src/conn.c:159-213 | what arrived and what is left make up what was on offer; FULL means as many unread bytes as the limit, and with memory granted it is the result if and only if the stream has at least as many bytes as there is room |
| Connections.RecvByAnswer | src/conn.c:185-212 | with room for more than the bytes before it, the first final answer decides: AGAIN for would-block or no more answers, ERROR for a failure, EOF for a close or a read of no bytes; all bytes before it arrive |
| Connections.CapGranted | src/conn.c:172-183 | without a refusal only the limit keeps the buffer from having the room |
| Connections.Conn.Consume | src/conn.c:215-228 | succeeds if and only if that many bytes are unread, and removes exactly these |
| Connections.Conn.Write | src/conn.c:230-263 | succeeds if and only if pending plus new bytes are within the limit (and memory is granted when needed); on failure pending bytes are intact |
| Connections.Conn.Flush | src/conn.c:265-306 | sends the first pending bytes, as many as the kernel takes before its first final answer; OK if and only if these are all; else AGAIN or ERROR by that answer |
| Connections.FlushStep | src/conn.c:273-301 | the meaning of a flush agrees with each single answer of the kernel, capped at the largest reportable count |
| Connections.RunConserves | src/conn.c:159-306 | over any run of operations on the two queues, the bytes sent and then the pending ones are the data of all accepted writes in order, the bytes consumed and then the unread ones all bytes received in order; the capacities stay within the limit |
| Connections.Perform | src/conn.c:159-306 | each operation on a connection has the outcome and the effect of the one on the queues |
| Connections.OutcomesExactly | src/conn.c:159-263 | the literal outcome of a consume and a write by the sizes, and of a receive and a flush without a descriptor or after the end of the stream |
| Connections.Run | src/conn.c:159-306 | every run of a connection has the outcomes of the queues: the ok flags, the results, the bytes moved and the rest of each script; the kernel and the parser saw exactly the bytes these tell, in the order of `RunConserves` |
| Cycles.SwapJoins | bench/hashtable_bench.c:173-180 | before step i each cycle holds exactly one index up to i; the swap joins two cycles |
| Cycles.MakeCycle | bench/hashtable_bench.c:165-183 | a single cycle through all n indices for every sequence of random numbers: the one whose choices are the residues of these numbers |
| Cycles.ChoicesDecide | bench/hashtable_bench.c:173-180 | two results are equal if and only if the random numbers leave the same residue modulo i for every i from 1 to n - 1 |
| Cycles.EveryCycleChosen | bench/hashtable_bench.c:173-180 | every single cycle of n indices is the result for some random numbers |

## Left out

- Shards.Shard.Set: an absent key whose length sum is 0 or above 2^19 - 24 is excluded; the rollback at src/kv.c:105-110 then searches the table while the reserved slot is busy and null or migrates that slot (`Shards.Shard.ReserveInVain`), which has no meaning in C. Keys are at most 65535 bytes, the range of the length field, and length sums do not pass 2^64.
- Kvs.Kv.Set: carries the same precondition.
- Kvs.Run: each set meets that precondition when its turn comes; the same holds for `Kvs.RunNew`.
- Threads.Linearizable: a set that would break that precondition does not take its last step; runs beyond it are not covered.
- Allocators.SlabClass.GrowSlabs: the two arrays are sequences, so only their capacity changes; the copying by realloc is not modelled.
- Connections.Conn.Attach: failures of the descriptor calls are not modelled.
- Shards.Shard.constructor: the first bucket array is assumed granted; the source does not check it.
- Streams.ParseChunked: streams are below 2^63 bytes, as C objects are, so that the window's sum cannot wrap.
- Connections.Conn.constructor: the case in which the initial buffers are refused is not modelled.
- Cycles.MakeCycle: n = 0 is excluded; the source's loop counter then starts at the largest size.
- Threads: calls are the steps lock, read, intermediate writes, last write, unlock, return; what one call computes is the sequential contract of `Shards`. The C memory model below the mutex is not modelled.
- Memory that the C code frees (old bucket arrays, overflow buckets) is left to garbage collection; the sizes passed to munmap are not modelled, and the source does not carry new_bytes over to old_bytes.
- The eight item pointers of a bucket, the data bytes of an item and the slab and stack arrays are sequence-valued fields that are reassigned; aliasing between chunk headers and the free list is modelled by the shared word 0 only.
- An out-of-memory abort of malloc or calloc, and null arguments.
- XXH3, sockets, pollers, descriptors, errno and signals; worker, main, flag and configuration files.
- The version, error and fixed-string response writers, usable_size and the destroy functions: one branch each.
- Random keys and values, timing, memory and latency reports in the benchmarks.
