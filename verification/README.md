# Verified model of the video server's support library

The library feeds a video server: encoded frames travel through a pooled producer/consumer ring, threads exchange
messages and jobs, timers fire, strings are hashed, digested and transcoded.  This project models its stateful
and algorithmic core in Dafny and proves what that core is for.

Each component appears in the form the C++ has.  Objects that update their fields are classes over heap nodes,
arrays and linked lists, with loops and invariants; every method is proved against a function or effect on values.
Where several threads meet, a second model describes one step per critical section, and theorems hold for every
state of every run.  The two models of a component share the same value functions, or are linked by lemmas that say which step is which operation.

| component | files | main results |
|---|---|---|
| pooled ring `CPcp` | PcpCursor, PcpPool, PcpProtocol, PcpInvariant, PcpTheorems, PcpReads, Pcp | exact node accounting in every interleaving, stable, ordered and fully accounted delivery to readers however slow, exact condition for the cursor comparison, what each Read does and what a write means for the next one, tight pool size, heap refinement |
| streaming MD5 | Md5Words, Md5Transform, Md5, Md5Known | any sequence of updates computes the one-shot digest; the 64 unrolled steps are the four rounds of section 3.4 of RFC 1321; the macros bit by bit; a known answer of section A.5 |
| message store | MessageStore, MessageProtocol, Message | link-by-link walks under striped locks refine a map from id to FIFO queue |
| transcoders | Base64, Gb2312 | whole-string round trips through loops whose cursors drift apart, and for every string the exact condition under which they hold |
| queues and lists | Chain, LinkedQueue, ThreadPool, RingList, FifoList | jobs start once and in order, no stranded job, no stuck consumers, bounded FIFO |
| timers | Timer, TimerProtocol | exact firing counts and exact condition for distinct ids over every run |
| hash table | Hash | refines an insert-if-absent map over every run |

## Where the code and its promise part

Each of these is stated by a lemma or a contract that says exactly when it happens.

* `CPcp::Read` compares wrapped cursors.  The verdict is the intended one exactly when fewer than N records were
  written since the handle last looked, or backlog plus wrapped overrun exceeds N.  After exactly N writes an
  up-to-date reader is told that nothing is there (`PcpCursor.DecideExact`, `PcpCursor.FullTurnLooksEmpty`).  What a
  late reader loses is whole turns, never order (`PcpCursor.AnchorExact`, `PcpTheorems.LossExplained`).  With N = 1 every
  write is a whole turn: the next Read of an up-to-date handle gets the new record if and only if N is at least 2
  (`PcpReads.NewestRecordRead`).
* `Base64Decode` skips CR and LF only between quartets: a break inside a quartet is decoded as data, and because the
  count runs ahead of the pointer at padding, a break after the padding makes it decode the padding, although
  section 6.8 of RFC 2045 lets a decoder meet breaks anywhere (`Base64.BreaksExact`, `Base64.TrailingExact`).
* `CMessage::Recv` returns -1 also for a message it has found and removed when nothing was copied into a real buffer:
  an empty message, or a length that is not positive (`Message.CMessage.Recv`).
* The ring list signals only when its size becomes one.  Nobody is ever stuck, but consumers may sleep while more
  elements wait than there are consumers awake; that cannot happen if and only if the list holds at most one element
  or there is one consumer (`RingList.NoStuckConsumers`, `RingList.ServedExact`).  The thread pool's one signal per
  job needs no such condition (`ThreadPool.NoIdleWhileWork`).
* Timer intervals in seconds are converted through a 32-bit product, correctly exactly while the number of
  milliseconds fits (`Timer.SecondsExact`).
* Timer ids stay distinct in a step exactly unless the id counter has come full circle since some timer got its id and
  before it was inserted.  Bounding the number of ids handed out is not enough, because skipped ids move the counter
  too; bounding it together with the number of listed timers is (`TimerProtocol.StepIdsExact`,
  `TimerProtocol.FewerIdsStillCollide`, `TimerProtocol.IdsWithinBudget`).
* A string comes back from UTF-8 exactly when each of its GB2312 pairs is complete and stands for a character, or
  happens to equal what a failed search leaves of the pair before it (`Gb2312.ReturnsExact`).

## Model

| member | source | states |
|---|---|---|
| PcpCursor.DecideExact | procon/pcp.cpp:183-207 | for every history, the three-way comparison of wrapped cursors gives the verdict of the absolute record numbers (empty iff nothing unread, take iff at most N unread, resync otherwise) if and only if fewer than N records were written since the last look or backlog + overrun mod N exceeds N |
| PcpCursor.FullTurnLooksEmpty | procon/pcp.cpp:183-187 | exactly N writes since the last look are reported as "empty" although N records wait |
| PcpCursor.AnchorExact | procon/pcp.cpp:183-207 | whatever passed unseen, the comparison gives the verdict intended for the wanted record moved on by exactly the whole turns missed, and these are none exactly when fewer than N records were written since the last look |
| PcpPool.FreshPoolRefs | procon/pcp.cpp:53-82 | the pool Init builds satisfies the reference-count invariant with nothing referred to |
| PcpPool.RefTallocRing | procon/pcp.cpp:331-352 | taking the head of a free list for an empty slot keeps every node's count equal to its references and free iff zero |
| PcpPool.RefTallocHeld | procon/pcp.cpp:331-352 | the same when the node goes to a producer |
| PcpPool.RefTcopy | procon/pcp.cpp:354-367 | one more user for a slot's node matches one more holder, and the node is live |
| PcpPool.RefTfreeRing | procon/pcp.cpp:373-398 | releasing a slot's reference keeps the invariant: the node returns to its own channel's list exactly when that was the last reference |
| PcpPool.RefTfreeHeld | procon/pcp.cpp:373-398 | the same when a holder lets go |
| PcpPool.RefPublish | procon/pcp.cpp:315-322 | a producer's reference can become the slot's without touching the counter |
| PcpPool.ReferencedIsLive | procon/pcp.cpp:331-398 | a node referred to by a slot or a holder has users >= 1 and is on no free list |
| PcpPool.TakenCopiedFreed | procon/pcp.cpp:331-398 | a node taken from the front of its list, copied k times and freed k times is as it was when taken; one more Tfree puts it, unused, at the back of its list |
| PcpPool.WriteKeepsRefs | procon/pcp.cpp:249-282 | whatever Write of a record does, on success and on pool exhaustion, references stay exactly counted |
| PcpPool.NodeWriteKeepsRefs | procon/pcp.cpp:313-325 | the same for Write of the producer's own node, whose holder's reference is used up |
| PcpInvariant.ReadAnchored | procon/pcp.cpp:183-207 | every Read of every handle, however late, gets the verdict intended for the record its cursor really stands for; on "take" the slot holds that record, or is NULL and then exactly N records are unread |
| PcpInvariant.ReadExact | procon/pcp.cpp:183-207 | if fewer than N records were written since the previous Read or Open, whatever happened before, the verdict is the intended one and on "take" the slot holds the oldest unread record, or is NULL and then exactly N are unread |
| PcpInvariant.ReadKeepsHandle | procon/pcp.cpp:189-207 | Read leaves every handle with cursors that stand for its record numbers, deliveries in order, and every record up to its cursor either received or listed as lost |
| PcpInvariant.KeepOpen | procon/pcp.cpp:110-144 | opening a reader keeps the system invariant, the new handle's cursors standing for "everything so far is read" |
| PcpInvariant.KeepWriteTfree | procon/pcp.cpp:249-252 | releasing the old node of a slot, with other threads anywhere, keeps the invariant while the slot's pointer dangles |
| PcpInvariant.KeepWriteTalloc | procon/pcp.cpp:253-281 | installing a fresh node, or giving up with the slot NULL and the cursor in place, keeps the invariant |
| PcpInvariant.KeepWriteFill | procon/pcp.cpp:256-276 | filling the fresh node and moving the cursor keeps the invariant, the record being the newest of the channel |
| PcpInvariant.KeepNodeWrite | procon/pcp.cpp:315-325 | publishing the producer's own node keeps the invariant |
| PcpInvariant.KeepEndRead | procon/pcp.cpp:182-208 | Read's locked section keeps the invariant, delivering or not |
| PcpInvariant.KeepTallocNode | procon/pcp.cpp:331-352 | a producer taking a node outside any channel section keeps the invariant |
| PcpInvariant.KeepTfreeHeld | procon/pcp.cpp:373-398 | a consumer's Tfree, interleaved anywhere under the pool lock only, keeps the invariant |
| PcpInvariant.StepKeepsInv | procon/pcp.cpp:161-398 | every step of every thread keeps locks, reference counts, ring contents, handles and per-channel node totals consistent |
| PcpInvariant.RunKeepsInv | procon/pcp.cpp:161-398 | so does every finite interleaving |
| PcpTheorems.InitialInv | procon/pcp.cpp:42-102 | the state after Init satisfies the invariant, each channel owning N + 1 nodes |
| PcpTheorems.NodeAccounting | procon/pcp.cpp:331-398 | in every reachable state a node is on its own channel's free list exactly once and unused, or on none with users equal to its slot (at most one) plus its holders |
| PcpTheorems.MutualExclusion | procon/pcp.cpp:182-208 | no two threads are ever inside one channel's section |
| PcpTheorems.HeldNodeStable | procon/pcp.cpp:182-207 | over any run that does not give back this very reference, the node a reader holds stays off the free lists, is not handed out again and keeps its payload |
| PcpTheorems.DeliveredRecordStable | procon/pcp.cpp:189-207 | a delivered node carries the record the cursor really stands for, the oldest unread one if fewer than N were written since the last look, and goes on carrying it while the reader holds it, even when the slot is overwritten |
| PcpTheorems.DeliveryInOrder | procon/pcp.cpp:161-212 | over every run, what any handle received is a strictly increasing selection of the records written to its channel |
| PcpTheorems.DeliveryComplete | procon/pcp.cpp:161-212 | over every run, each record from the opening of a handle to its cursor was either received or lost, and none is both |
| PcpTheorems.LossExplained | procon/pcp.cpp:183-207 | a Read loses a record only to a whole turn written since the last look, to more than N waiting records, or to a slot a failed Write cleared |
| PcpTheorems.LosslessDelivery | procon/pcp.cpp:161-212 | a handle that lost nothing received exactly the records from its opening to its cursor, one by one |
| PcpTheorems.NodeBudget | procon/pcp.cpp:59-81 | free + own ring + outside is always N + 1 nodes per channel |
| PcpTheorems.WriteSucceeds | procon/pcp.cpp:253-277 | with at most ASSUME_CONSUMER_SIZE = 1 node of the channel live outside its ring, Talloc finds a node, the cursor advances by one modulo N and the slot holds the record |
| PcpTheorems.WriteFailsWhenTwoHeld | procon/pcp.cpp:253-281 | the bound is tight: with the rest of the ring full, Write fails (slot NULL, cursor and history unchanged) iff at least two nodes are outside |
| PcpTheorems.StepsAreWrite | procon/pcp.cpp:249-282 | the protocol's steps of Write, uninterrupted, have the effect proved of the heap method |
| PcpTheorems.StepIsRead | procon/pcp.cpp:182-208 | so has the protocol's step of Read |
| PcpReads.ReadTakes | procon/pcp.cpp:192-199 | a Read whose record is in the ring hands out the node of its slot with that record, appends it to what was received, and moves the cursors to the record after it and to the write position |
| PcpReads.ReadPassesCleared | procon/pcp.cpp:192-199 | a Read that finds its slot cleared by a failed Write gets nothing and passes over that record only |
| PcpReads.ResyncExact | procon/pcp.cpp:200-207 | a Read more than N records behind gets nothing, sets both cursors to the write position, and lists every unread record as lost to this |
| PcpReads.NothingAfterResync | procon/pcp.cpp:183-207 | after it, over any run without a write to the channel, the handle receives nothing and stays up to date |
| PcpReads.UpToDateReadsNothing | procon/pcp.cpp:183-187 | an up-to-date handle gets nothing and does not move |
| PcpReads.NothingUntilWritten | procon/pcp.cpp:183-187 | over any run, until a record is written to its channel an up-to-date handle receives nothing and does not move |
| PcpReads.OpenExact | procon/pcp.cpp:120-127 | a new reader is up to date: both cursors at the write position, nothing received, nothing lost |
| PcpReads.StepIsNodeWrite | procon/pcp.cpp:313-325 | the protocol's step of Write(node) has the effect proved of the heap method |
| PcpReads.NodeWriteExact | procon/pcp.cpp:315-325 | Write(node) moves the cursor on by one, puts the producer's node into the old slot, makes its payload the newest record and uses its reference up |
| PcpReads.WriteExact | procon/pcp.cpp:256-276 | the last step of Write(pieces) moves the cursor on by one and makes the record in the old slot the newest |
| PcpReads.NewestRecordRead | procon/pcp.cpp:183-207 | a handle that had read everything before the newest record gets exactly that record and its node at its next Read if and only if N is at least 2 |
| PcpReads.NodeWriteThenRead | procon/pcp.cpp:183-325 | so an up-to-date handle's next Read after Write(node) gets that very node if and only if N is at least 2 |
| PcpReads.WriteThenRead | procon/pcp.cpp:183-277 | and the same after Write(pieces) |
| PcpReads.TallocNodeExact | procon/pcp.cpp:331-352 | a producer's Talloc hands out the front node of the list with one user and no payload, or nothing when the list is empty |
| PcpReads.FillNodeExact | procon/pcp.cpp:331-352 | a producer filling its node changes that payload and nothing else |
| PcpReads.TfreeHeldExact | procon/pcp.cpp:373-398 | Tfree ends the reference: the node has one user less and goes to the back of its channel's list with the last one |
| PcpReads.RecordPasses | procon/pcp.cpp:161-398 | from every state in which a channel is unlocked and has a free node, with N at least 2, writing a record, reading it with an up-to-date handle and giving the node back is a run; the history and what the handle received grow by that record, and no reference is left over |
| Pcp.HeapTalloc | procon/pcp.cpp:336-348 | unlinking the head, and clearing the tail when the list runs empty, represents removing the first node of the list |
| Pcp.HeapPutBack | procon/pcp.cpp:382-395 | linking a node behind the tail represents appending it, and every other channel's list is untouched |
| Pcp.HeapGrow | procon/pcp.cpp:66-78 | linking a new node behind the tail represents a longer list of unused nodes |
| Pcp.CPcp.Init | procon/pcp.cpp:42-102 | every channel gets N + 1 distinct unused nodes, empty slots and cursor 0 |
| Pcp.CPcp.AddNode | procon/pcp.cpp:61-79 | one new unused node at the back of the channel's list, nothing else changed |
| Pcp.CPcp.Open | procon/pcp.cpp:110-144 | no handle for a bad channel or flag; a reader starts at the write cursor |
| Pcp.CPcp.Talloc | procon/pcp.cpp:331-352 | the head of the list comes off and is the result, with one user and no payload; NULL iff the list is empty |
| Pcp.CPcp.Tcopy | procon/pcp.cpp:354-367 | the node has one more user, lists untouched; NULL passes through |
| Pcp.CPcp.Tfree | procon/pcp.cpp:373-398 | heap and lists change as the pool's Tfree says |
| Pcp.FlattenExact | procon/pcp.cpp:243-273 | a record is as long as its pieces together, and each piece sits behind the ones before it |
| Pcp.CPcp.Fill | procon/pcp.cpp:256-273 | the node holds the pieces one behind the other |
| Pcp.CPcp.Read | procon/pcp.cpp:161-212 | nothing on an empty verdict; on a lost frame both cursors at the write position and NULL; otherwise the slot's node, the begin cursor one further and the end cursor at the write position; references stay exactly counted |
| Pcp.CPcp.Write | procon/pcp.cpp:218-286 | on 0 the old slot holds a node of one user with the concatenated pieces and the cursor is one further, on -1 the slot is NULL and the cursor stays; other slots and cursors stay and references stay exactly counted |
| Pcp.CPcp.WriteNode | procon/pcp.cpp:293-329 | the old slot holds the producer's node, the cursor is one further, the old node is released and the producer's reference used up; a NULL node or wrong handle changes nothing and returns -1 |
| Md5Words.RotateLeftExact | common/md5.cpp:77 | rotating by n is x * 2^n mod 2^32 plus x / 2^(32 - n), for every word and every n from 1 to 31 |
| Md5Words.FExact | common/md5.cpp:70 | at every place F has the digit of y where x has a 1 and that of z where x has a 0 |
| Md5Words.GExact | common/md5.cpp:71 | G has the digit of x where z has a 1 and that of y where it has a 0; it is F(z, x, y) |
| Md5Words.HExact | common/md5.cpp:72 | H has a 1 exactly where an odd number of the three words has one |
| Md5Words.IExact | common/md5.cpp:73 | I has the digit of y inverted where z has a 0, and the sum of the digits of x and y modulo 2 where z has a 1 |
| Md5Transform.ShiftAmounts | common/md5.cpp:34-49 | the sixteen shift amounts, four to a round, as RFC 1321 lists them |
| Md5Transform.FourSteps | common/md5.cpp:200-203 | four consecutive macro calls are four steps of section 3.4 of RFC 1321, after which each register is back in its role |
| Md5Transform.RoundOne | common/md5.cpp:199-215 | the 16 unrolled calls of round 1 equal steps 1 to 16 of the loop form, with its constants, words and rotations |
| Md5Transform.RoundTwo | common/md5.cpp:217-233 | round 2 equals steps 17 to 32 |
| Md5Transform.RoundThree | common/md5.cpp:235-251 | round 3 equals steps 33 to 48 |
| Md5Transform.RoundFour | common/md5.cpp:253-269 | round 4 equals steps 49 to 64 |
| Md5Transform.FromLittleEndian | common/md5.cpp:284-297 | the low-order-first bytes of a number determine it |
| Md5Transform.DecodeEncode | common/md5.cpp:284-312 | Decode undoes Encode on every word sequence |
| Md5Transform.Encode | common/md5.cpp:284-297 | the loop writes the words' bytes in order and nothing beyond len |
| Md5Transform.Decode | common/md5.cpp:302-312 | the loop reads the block's words |
| Md5Transform.Transform | common/md5.cpp:191-279 | the state becomes the compression of state and block by the 64-step loop form, whose constants, words and macros the rows around this one and the known answer pin down |
| Md5.PadShortest | common/md5.cpp:174-180 | the padded message is a whole number of blocks and no shorter zero run would do |
| Md5.PadExact | common/md5.cpp:57-61 | behind the message come the byte 0x80, zeros, and eight bytes that read back as its length in bits modulo 2^64 |
| Md5.InitialBytes | common/md5.cpp:110-114 | the initial registers hold the bytes 01 23 45 67, 89 ab cd ef, fe dc ba 98, 76 54 32 10 of section 3.3 of RFC 1321 |
| Md5Known.EmptyDigest | common/md5.cpp:163-281 | the digest of the empty message is d41d8cd98f00b204e9800998ecf8427e, the known answer of section A.5 of RFC 1321 |
| Md5.AbsorbConcat | common/md5.cpp:141-152 | absorbing whole blocks and then more is absorbing the concatenation |
| Md5.AbsorbRest | common/md5.cpp:137-157 | only the chaining state and the unfinished block of what came before matter to what follows |
| Md5.UpdateEnd | common/md5.cpp:141-157 | after the block loop the state has absorbed all complete blocks of everything so far, and what remains is the new unfinished block |
| Md5.AddBitsExact | common/md5.cpp:131-135 | the two-word update with compare-for-carry and >> 29 is addition of 8 * len modulo 2^64, for all counters and lengths |
| Md5.CountOfMessage | common/md5.cpp:128-135 | the counter stays the bit length of the message, and its bits 3 to 8 are the byte count mod 64 |
| Md5.Md5Context.Init | common/md5.cpp:105-115 | the context stands for the empty message |
| Md5.Md5Context.Update | common/md5.cpp:121-158 | the context stands for the old message followed by the input: state, counter and buffer prefix |
| Md5.Md5Context.AbsorbBlocks | common/md5.cpp:137-152 | topping up the buffer and looping over the input absorbs every complete block of old rest and input |
| Md5.Md5Context.AddCount | common/md5.cpp:131-135 | the counter words stand for the longer message |
| Md5.Md5Context.Final | common/md5.cpp:163-187 | the digest written is the one-shot digest of everything given to Update, and the context is wiped |
| Md5.PaddingBytes | common/md5.cpp:174-180 | message, the code's padding and the saved length are the padded message of sections 3.1 and 3.2 of RFC 1321 |
| Md5.LengthBytes | common/md5.cpp:170-171 | the two counter words, encoded, are the 64-bit length low-order first |
| Md5.GenerateKey | common/md5.cpp:385-400 | the buffer receives the digest of the data and the result is 0; a NULL argument writes nothing and returns -1 |
| Md5.DigestOfChunks | common/md5.cpp:105-187 | any sequence of updates gives the digest of the concatenation: chunking does not matter |
| MessageStore.SameBucketSameMutex | common/message.cpp:57-65 | ids that share one of the 20000 buckets share one of the 40 mutexes |
| MessageStore.AppendEnqueues | common/message.cpp:93-107 | linking behind the last node of a shared bucket enqueues for that id and changes no other id's queue |
| MessageStore.UnlinkDequeues | common/message.cpp:152-187 | unlinking the first node of an id dequeues its oldest message and changes no other id's queue |
| MessageStore.NoMatchNothingPending | common/message.cpp:152-187 | the search fails exactly when nothing is waiting under the id |
| MessageStore.EnqueueWaits | common/message.cpp:87-107 | a send adds one body behind those waiting under its id |
| MessageStore.DequeueWaits | common/message.cpp:152-187 | a receive takes the body that waited longest under its id, if there is one, and no other id notices |
| MessageStore.EnqueueDequeue | common/message.cpp:67-192 | a message sent to an id with nothing waiting is what the next receive of that id gets, and the store is as before |
| MessageStore.IndexExact | common/message.cpp:57-65 | ids below 20000 each have their own bucket and ids below 40 their own mutex, periodically |
| MessageProtocol.BucketExclusion | common/message.cpp:87-109 | two threads never walk the same bucket, although locks belong to stripes |
| MessageProtocol.StepKeepsInv | common/message.cpp:67-192 | every link-by-link step of every thread keeps locks owned and walks inside their buckets |
| MessageProtocol.StepRefinesQueue | common/message.cpp:67-192 | every step is one atomic queue operation or none: enqueue at the end, dequeue of the oldest, or a miss on an empty queue, including the unlocked first look |
| MessageProtocol.StepIsEnqueue | common/message.cpp:93-107 | the step that ends a sender's walk changes the buckets by the enqueue that the linked store's Send performs |
| MessageProtocol.StepIsDequeue | common/message.cpp:152-187 | the step that ends a receiver's walk is the dequeue that the linked store's Recv performs, found or missed |
| MessageProtocol.FifoPerId | common/message.cpp:67-192 | over any interleaving and for every id: waiting + sent = received + still waiting, in order |
| MessageProtocol.SendAlone | common/message.cpp:67-112 | an uninterrupted Send can always run to its end and is one enqueue |
| MessageProtocol.RecvAlone | common/message.cpp:136-192 | an uninterrupted Recv on a bucket that is not empty can always run to its end and is one dequeue, of the oldest message of its id or a miss |
| Message.BucketsAppend | common/message.cpp:93-107 | the linked buckets stay well formed, each message in its own bucket |
| Message.BucketsUnlink | common/message.cpp:170-177 | the same when a node is unlinked, at the head or further on |
| Message.CMessage.Last | common/message.cpp:99-105 | the walk ends at the last node of the chain |
| Message.CMessage.Search | common/message.cpp:149-187 | the walk finds the oldest message of the id and its predecessor |
| Message.CMessage.Send | common/message.cpp:67-112 | one more body waits under the id, behind the others, and no other id notices; a NULL buffer sends an empty message and returns 0 |
| Message.CMessage.TakeOldest | common/message.cpp:142-189 | the buckets change by one dequeue, or not at all when nothing matches |
| Message.CMessage.CopyOut | common/message.cpp:156-169 | a NULL buffer gives 0; otherwise the first min(msgLen, length) bytes of the body are copied and counted, or -1 if that is none; the rest of the buffer stays |
| Message.CMessage.Recv | common/message.cpp:136-192 | the body that waited longest under the id leaves, others stay; the first min(msgLen, length) bytes of it are copied and counted; -1 when nothing waits, and also when a message was taken but no byte copied into a real buffer; 0 for a NULL buffer |
| Message.SendThenRecv | common/message.cpp:67-192 | a non-empty body sent to an id with nothing waiting comes back whole from the next Recv with room, both returning its length |
| Base64.DeTabCode | common/base64.cpp:120-135 | the decoding table inverts the alphabet, which avoids '=', CR and LF |
| Base64.Capitals | common/base64.cpp:249 | table 1 of RFC 4648, values 0 to 25 |
| Base64.SmallLetters | common/base64.cpp:249 | values 26 to 51 |
| Base64.DigitsAndSigns | common/base64.cpp:249 | values 52 to 63 |
| Base64.OutsideAlphabet | common/base64.cpp:120-135 | a character of the decoding table that is not in the alphabet decodes like the first letter |
| Base64.KnownAnswers | common/base64.cpp:262-283 | the test vectors of section 10 of RFC 4648 |
| Base64.SextetsOfGroup | common/base64.cpp:264-267 | the encoder's four table indices are the four 6-bit pieces of the 24-bit group of section 4 of RFC 4648 |
| Base64.GroupRoundTrip | common/base64.cpp:152-172 | shifting the sextets back together gives the three bytes |
| Base64.EncodeText | common/base64.cpp:250-253 | the encoded length is 4 * ceil(n / 3) |
| Base64.YieldAtLeast | common/base64.cpp:148-181 | from any position, more than 4 * k characters, padding only among the last two, decode to more than 3 * k bytes less the padding, wherever breaks stand |
| Base64.BreaksExact | common/base64.cpp:148-181 | however CR and LF are put into an encoded text, decoding gives the original if and only if they stand only before quartets and none follows the padding |
| Base64.TrailingExact | common/base64.cpp:148-181 | breaks at the end of an encoded text are harmless if and only if it ends without padding |
| Base64.RoundTrip | common/base64.cpp:137-188 | decoding undoes encoding for every byte string |
| Base64.Base64Encode | common/base64.cpp:247-287 | -1 and nothing written when dstSize is too small; otherwise the encoded text, its terminator, and nothing beyond |
| Base64.EncodeGroups | common/base64.cpp:262-269 | the loop writes the quartets of all full groups and nothing beyond |
| Base64.EncodeLast | common/base64.cpp:270-283 | one or two trailing bytes become a padded quartet |
| Base64.Base64Decode | common/base64.cpp:137-188 | the decoded bytes, a terminator, nothing beyond, and their number as result |
| Base64.DecodeGroup | common/base64.cpp:151-174 | one pass of the loop over a group, with pointer and count moving differently at padding |
| Gb2312.Utf8Layout | common/gb2312.cpp:2101-2115 | the three bytes are 1110xxxx 10xxxxxx 10xxxxxx of section 3 of RFC 3629, for every 16-bit value |
| Gb2312.Utf8Inverse | common/gb2312.cpp:2064-2072 | UTF_8ToUnicode undoes UnicodeToUTF_8 for every 16-bit value, and the lead byte is not ASCII |
| Gb2312.PairPosition | common/gb2312.cpp:2026-2035 | the byte pair (0xa1 + r, 0xa1 + c) with r, c below 94 has the code point at row r, column c, and every other pair has 0 |
| Gb2312.CharacterExact | common/gb2312.cpp:2117-2155 | an ASCII byte is converted to itself, a pair of the table to the three bytes of its code point |
| Gb2312.ToUtf8Concat | common/gb2312.cpp:2117-2155 | a well-formed text and whatever follows it are converted independently |
| Gb2312.InverseOfDefined | common/gb2312.cpp:1082-1089 | under the table hypothesis a position is the inverse of its own code point, and ERROR has none |
| Gb2312.UnicodeToGb2312 | common/gb2312.cpp:2038-2062 | the binary search finds a position exactly when one has the code point, and then that one |
| Gb2312.PairRoundTrip | common/gb2312.cpp:2074-2099 | a defined pair survives both look-ups, whatever the scratch buffer held |
| Gb2312.PairExact | common/gb2312.cpp:2074-2099 | a pair survives both look-ups if and only if it stands for a character or equals what a failed search leaves in the buffer |
| Gb2312.ReturnsFrom | common/gb2312.cpp:2117-2190 | from any pair of cursors and any buffer, the rest of the string comes back if and only if its pairs are complete and each is defined or equals the leftover of the one before |
| Gb2312.ReturnsExact | common/gb2312.cpp:2117-2190 | the same for every whole string with the cleared buffer |
| Gb2312.RoundTrip | common/gb2312.cpp:2117-2190 | every string of ASCII bytes and defined pairs comes back unchanged; its length is ASCII count + 2 * pair count, the output's ASCII count + 3 * pair count |
| Gb2312.SinglePairExact | common/gb2312.cpp:2026-2084 | in particular a pair alone comes back if and only if it is defined or is what a failed search leaves in the cleared buffer |
| Gb2312.Gb2312ToUtf8 | common/gb2312.cpp:2117-2155 | the loop writes the conversion and its terminator |
| Gb2312.Convert | common/gb2312.cpp:2074-2084 | the position of the code point, offset by 0xa1; a failed search leaves the buffer's old bytes, which are offset again |
| Gb2312.Utf8ToGb2312 | common/gb2312.cpp:2157-2190 | the loop writes the conversion back and its terminator |
| LinkedQueue.Queue.AddNode | common/fifoList.cpp:179-215 | the list stays an acyclic chain of `size` nodes from front to rear; contents grow by the element at the rear |
| LinkedQueue.Queue.DelNode | common/fifoList.cpp:220-242 | contents lose their first element; both ends become NULL with the last one; -1 on empty |
| LinkedQueue.Queue.DelNodeRear | common/fifoList.cpp:247-275 | contents lose their last element, found by walking from the front |
| ThreadPool.StepKeepsInv | common/threadPool.cpp:45-145 | every step of Adds and workers keeps: started + queued = added, and while a worker sleeps the queue is no longer than signals owed plus workers woken |
| ThreadPool.StartedInOrder | common/threadPool.cpp:116-145 | in every reachable state the jobs started are exactly the first ones added, each once, in order |
| ThreadPool.LookExact | common/threadPool.cpp:116-137 | a worker that looks starts the oldest job, and waits when there is none |
| ThreadPool.NoStrandedJob | common/threadPool.cpp:69-72 | if every worker waits unsignalled, at most as many jobs are queued as Adds still owe a signal |
| ThreadPool.NoIdleWhileWork | common/threadPool.cpp:71-123 | while any worker waits, queued jobs do not outnumber woken workers and owed signals |
| ThreadPool.ClThreadPool.Enqueue | common/threadPool.cpp:57-70 | the queue grows by the job at the rear, size by one, and the list invariant (rear NULL iff empty) is kept |
| ThreadPool.ClThreadPool.Take | common/threadPool.cpp:120-137 | the oldest job leaves the queue, with size and both ends right, or the worker would wait |
| RingList.CRingList.AddNode | common/ringList.cpp:159-192 | a usable item goes to the rear; NULL or an empty length changes nothing and returns -1 |
| RingList.CRingList.Put | common/ringList.cpp:131-146 | a full list loses its oldest element even when the item is unusable; signals exactly when flagged, successful and now of size one |
| RingList.CRingList.Get | common/ringList.cpp:66-84 | the oldest element stays; sleeps exactly on an empty list with the flag set |
| RingList.CRingList.Pop | common/ringList.cpp:107-129 | the oldest element leaves; on an empty list -1, after sleeping iff flagged |
| RingList.StepKeepsInv | common/ringList.cpp:66-146 | every step keeps: a non-empty list has a consumer awake |
| RingList.NoStuckConsumers | common/ringList.cpp:107-146 | over every run, for any number of consumers and max >= 1, if all consumers sleep unsignalled the list is empty |
| RingList.StarvingRun | common/ringList.cpp:107-146 | for every number of consumers and every capacity from two on there is a run after which more elements wait than consumers are awake while one sleeps |
| RingList.ServedExact | common/ringList.cpp:107-146 | every run keeps sleepers unneeded (never more elements than consumers awake while one sleeps) if and only if max is one or there is one consumer |
| FifoList.StepConserves | common/fifoList.cpp:79-275 | every operation keeps size <= max and only moves elements off the front or the rear |
| FifoList.FifoRun | common/fifoList.cpp:79-275 | over every run with max >= 1: what was taken from the front, then what is listed, is what was put in and not taken back, in order |
| FifoList.Fates | common/fifoList.cpp:79-275 | over every run each element taken from the front was either given to the caller of a Pop, freed by a Put, or removed by a Delete, exactly one of them, and nothing else was given, freed or removed |
| FifoList.OverflowKeepsNewest | common/fifoList.cpp:128-156 | any number of Puts leaves the last max elements |
| FifoList.CFifoList.Put | common/fifoList.cpp:128-156 | a full list first loses its oldest element, which is freed; then data goes to the rear with result 0, or NULL fails with -1; signals exactly when flagged and successful |
| FifoList.CFifoList.Pop | common/fifoList.cpp:158-176 | with a result pointer and a non-empty list the oldest element leaves and is returned with 0; otherwise nothing changes, -1, after waiting iff flagged |
| FifoList.CFifoList.Get | common/fifoList.cpp:79-97 | the same with the element left in place |
| FifoList.CFifoList.Delete | common/fifoList.cpp:99-106 | the oldest element leaves with result 0; -1 on an empty list |
| FifoList.CFifoList.DelNodeRear | common/fifoList.cpp:247-275 | the newest element leaves with result 0; -1 on an empty list |
| Timer.TickAfter | common/timer.cpp:51-79 | a timer n sweeps old stands at n mod I, fires on the next sweep iff that completes a period, and its 32-bit count never wraps |
| Timer.SecondsExact | common/timer.cpp:46-49 | in seconds mode the interval is 10 sweeps per second if and only if the milliseconds fit 32 bits |
| Timer.MillisecondsExact | common/timer.cpp:46-49 | in milliseconds mode the interval is rounded down to whole sweeps of ten |
| Timer.UsedBound | common/timer.cpp:188-208 | k successive counter values that are all taken need k listed timers |
| Timer.Tries | common/timer.cpp:188-208 | with fewer than 2^32 timers the id search ends, after at most one step more than there are timers, at the first free value |
| Timer.DeleteExact | common/timer.cpp:214-248 | deleting takes out the first timer with the id and nothing else, the others in order; with distinct ids the id is gone and every other id still there; an id that is not listed changes nothing |
| Timer.CallbacksConcat | common/timer.cpp:71-81 | the callbacks of a sweep come in list order |
| Timer.AfterReturns | common/timer.cpp:190 | the counter repeats a value exactly after a multiple of 2^32 increments |
| Timer.SweepNodes | common/timer.cpp:71-81 | the loop ticks every listed timer once and runs the due callbacks in list order |
| Timer.DeleteNode | common/timer.cpp:218-244 | unlinks the first timer with the id, wherever it is, and only that one; -1 if there is none |
| Timer.ClTimer.ExeTimer | common/timer.cpp:61-85 | one sweep of the whole list |
| Timer.ClTimer.GetTimerID | common/timer.cpp:181-212 | the first counter value after the old one that no listed timer has |
| Timer.ClTimer.InsertTimerList | common/timer.cpp:32-38 | the timer becomes the first of the list |
| Timer.ClTimer.Add | common/timer.cpp:153-179 | a timer with an unused id, its converted interval and elapse 0 in front |
| Timer.ClTimer.Delete | common/timer.cpp:214-248 | the first timer with the id is gone, the others keep their order and state |
| TimerProtocol.CallbacksOnce | common/timer.cpp:71-81 | a sweep runs each listed timer's callback once if it is due and not at all otherwise |
| TimerProtocol.StepKeepsFire | common/timer.cpp:61-248 | sweeps, both halves of Add and Delete, interleaved, keep every listed timer on time |
| TimerProtocol.FiresExactly | common/timer.cpp:61-85 | in every reachable state a timer inserted n sweeps ago has fired floor(n / I) times and stands at n mod I (I = 0 counts as 1), whatever was added or deleted meanwhile |
| TimerProtocol.StepIdsExact | common/timer.cpp:181-212 | a step keeps listed and pending ids distinct if and only if it does not hand out an id when the counter has come full circle since a pending timer got its own |
| TimerProtocol.StepsAreAdd | common/timer.cpp:153-212 | getting an id and inserting in a row put a timer with elapse 0 in front, under the first counter value that no listed timer has |
| TimerProtocol.IdsStayDistinct | common/timer.cpp:153-212 | over every run with fewer than 2^32 increments between any timer's two lockings all ids are distinct |
| TimerProtocol.FewerIdsStillCollide | common/timer.cpp:188-208 | a run in which only 2^32 - 1 ids are handed out while a timer is pending, and one of them repeats its id |
| TimerProtocol.IdsWithinBudget | common/timer.cpp:153-212 | with at most L timers listed whenever an id is handed out and at most k ids handed out between any timer's two lockings, ids stay distinct in every run while k * (L + 1) is below 2^32 |
| Hash.ElfStep | common/hash.cpp:26-30 | one round keeps the hash below 2^28 |
| Hash.ElfStepExact | common/hash.cpp:26-30 | with s the shifted sum plus the character the round gives s itself below 2^28, and in general the low 28 bits of s with its top four folded into bits 4 to 7 |
| Hash.WidenExact | common/hash.cpp:26 | a char is widened by sign extension in two's complement where char is signed, and with zeros where it is not |
| Hash.KnownSum | common/hash.cpp:21-31 | the sum of the key abcdefgh, in which bits are folded, is 0x89abaa8 |
| Hash.ElfSum | common/hash.cpp:21-31 | the hash is below 2^28 after every prefix of the key, for signed and unsigned char |
| Hash.ShiftLosesNothing | common/hash.cpp:26 | so shifting in the next character loses no bit |
| Hash.ElfHash | common/hash.cpp:19-34 | the loop computes the bucket index, below max |
| Hash.InsertRefines | common/hash.cpp:95-142 | insert on the table is insert-if-absent on the map: a present key keeps its value; keys stay in their buckets, once |
| Hash.RemoveRefines | common/hash.cpp:162-200 | remove deletes only its key from the map |
| Hash.RunRefines | common/hash.cpp:95-200 | over every run of operations, whatever collides, the table stands for the map |
| Hash.Search | common/hash.cpp:103-110 | the walk finds the key's node or NULL |
| Hash.RemoveNode | common/hash.cpp:170-197 | unlinks the key's node from a non-empty chain, at the head or further on |
| Hash.ClHash.constructor | common/hash.cpp:36-51 | an empty table that stands for the empty map |
| Hash.ClHash.Insert | common/hash.cpp:95-142 | the linked table changes by one insert; -1 for a NULL key or value |
| Hash.ClHash.GetVal | common/hash.cpp:144-159 | the value stored under the key, or NULL |
| Hash.ClHash.Remove | common/hash.cpp:162-202 | the linked table changes by one removal; 0 iff the key was there |

## Left out

- Allocation failure everywhere: allocations are taken to succeed.
- Destructors, `CPcp::Close`, `ClTimer::Destroy`, `ClThreadPool::Destroy` and shutdown, whose flag is set outside the lock.
- `CMessage::Find`, which walks a bucket without its lock; `CRingList::Wait`, an unconditional wait; `SetMax`; the plain size queries.
- Mutexes and condition variables are modelled by ownership and waiting states, with spurious wake-ups; scheduling fairness and liveness are not modelled.
- Pcp.CPcp.Write: requires the pieces to fit a node; the truncating copy at procon/pcp.cpp:261-266 is not modelled. The piece list is a sequence, not count, length and pointer arrays.
- Pcp.CPcp.Tfree: requires a node with users >= 1, as the code's counting does. Header and payload of a node are one immutable value that is replaced, so aliasing into a payload is not modelled; the type tag of a node is left out.
- Pcp.CPcp.Read: the handle is an object and not an integer cast to a pointer.
- PcpProtocol: one step per pool-lock section, with the code around it that only touches what the channel's mutex protects; memory-model effects below that are not modelled.
- Md5.GenerateKey: requires a length below 2^32 - 63, as Update does.
- Md5.DigestOfChunks: requires each chunk to be shorter than 2^32 - 63, as Update does.
- Md5.Md5Context.Update: requires a length below 2^32 - 63, so that the loop's bound does not wrap; UINT4 is the 32-bit word of RFC 1321. Shifts and masks of words are written as division and remainder outside the macros, whose shift amounts are bit vectors.
- The sine formula behind the 64 constants of MD5: they are a table in the model as in the code.
- `Md5Passwd`: formatting around the digest.
- Message ids are non-negative.
- Base64.Base64Decode: requires characters below 123, where the decoding table ends, and room for the result; reads past the terminator are taken to see zeros. dstSize is not a parameter, since the code ignores it.
- Base64.Base64Encode: requires room for the terminator, which the code's size check does not count.
- Gb2312.Gb2312ToUtf8: requires room for the result; the sizing at common/gb2312.cpp:2212 is not modelled, nor are reads past the terminator (they see zeros). Bytes of a code point are taken low byte first, as the code assumes.
- The contents of the two GB2312 tables: they are parameters with the hypothesis TablesOk, which also says that no position has code point 0.
- ThreadPool jobs are opaque values; copying of their arguments is not modelled.
- FifoList.CFifoList.Put: requires max >= 1, fixed; freeing the payload is modelled as naming it.
- Timer callbacks are opaque and do not call back into the timer, as the source demands; real time is not modelled, sweeps are counted.
- Hash.ClHash.Remove: requires the key's bucket not to be empty, because the code reads its head first. Keys are byte strings without terminator; the value size is the length of the byte string.
- Hash.ClHash.GetVal: returns the value and not a pointer into the table.
- The vendor encoder code, sockets, files, parameter store and the other thin wrappers are not part of this model.
