# Verified model of the Poplar2 core

A Dafny model of the stateful core of Poplar2: the streaming MD5 digest (`common/md5.c`), the
chained hash table (`common/hash.c`), the doubly linked list (`common/list.c`), the network-order
stream buffer and its queue (`apps/pop_stream.c`) and the string hashes (`apps/hash_key.c`).
`dafny verify dfyconfig.toml` checks all of it.

## What is proved

**MD5.** `Md5Spec` states section 3 of RFC 1321 on values: padding, table-driven steps, block fold,
output. The context (`Md5.Context`) is a class with the arrays of the C struct, updated in place.
Two results meet in it: the 64 unrolled, register-rotating macro calls, with their shifts, wrapping
additions and bit operators, are the table-driven schedule (`Md5Transform.Transform`), and a context
fed in any pieces represents the concatenation, so that `Final` stores the one-shot digest
(`Md5Digest.AnyChunkingGivesMd5`). Besides: the counter's carry test is exact 64-bit addition, the fill level derived from the counter is always the true one,
updates are homomorphic from every context, reachable or not, the padding fills every context to 56
bytes and runs one block more iff there were 56 already, the steps permute the register states, and
padding is injective. The tables have laws of their own: the strides of the word order, the
progressions of the rotations, and the recurrence of the sine for the constants (`Md5Tables`).

**Hash table.** Chains, slot array, cached keys and counter live on the heap. Every operation equals
an operation on a value (`HashModel`: one sequence per slot), and there any run of calls behaves as a
family of independent cells, one per class of equal data, whatever collides. Iteration with a
releasing callback visits every datum once and leaves exactly what was not released; cleaning frees
every bucket once.

**List.** Each operation's pointer surgery keeps the mirrored links of a duplicate-free spine and
refines a sequence edit. Adding values one by one with the sorting insertion yields the stable sort,
and that is the only sequence with its properties. Concatenation terminates for lists without common
nodes. Two lists with a common node are one spine, and there it never reaches the end.

**Streams.** A buffer is a byte queue under any interleaving of typed puts and gets. A run fails
exactly when the queue underflows, the capacity is exceeded, or a get meets 2^32 unread bytes or more
whose number, converted to `int` by the read guard, looks too small. Typed fields that fit therefore
round-trip iff they are fewer than 2^32 bytes. Positional writes read back as the bytes last written,
however they overlap. For every guard it is stated which requests it decides wrongly.

**Queue of streams.** A run of pushes and pops, stepped on links, ends and counter as the code does in
any state, spells out the queue after every call iff every pushed stream had a null link and was not
queued; it is then first in, first out. Pushing a popped stream again shows how it fails: the pops go
round a cycle for ever. The counter is the length less the pops from the empty queue, modulo 2^64, in
every run.

**String hashes.** SDBM, DJB and BKDR are polynomials modulo 2^31, RS is the sum of every character
times the multipliers of all later positions. PJW and ELF compute the same function: sixteen times the
hash plus the character, with the top four bits folded into bits 4 to 7. Its value never reaches 2^28,
and as long as nothing was folded it is the polynomial with multiplier 16.

## How the code is read

- Unsigned integers are naturals with explicit ranges; shifts and casts are divisions and remainders.
  Bit operators are computed on binary digits (`Bits`). Where bytes are assembled, the "or" of
  disjoint bytes is written as their sum.
- Buckets and list nodes keep their datum for life, so `data` (and a bucket's `key`) are constants.
- Callbacks are pure functions. An iteration callback decides, from the data it was given before and
  the datum at hand, whether it releases that datum. Allocation succeeds; freeing is a ghost record
  of what was freed, in order.
- A failed `assert` of the C code is a precondition here, in the width the C code computes it. Where a
  guard lets through a request for memory outside the buffer, that memory is a precondition too.
- Long loops are split where the C function has a natural seam: `Transform` by its four rounds, the
  update loop by byte, hash and list operations into a walk and the pointer surgery after it.

## Where code and documentation disagree

- `common/md5.c:117-119` says `MD5Init` sets all fields to zero; it loads four constants and leaves
  the buffer and the digest alone. `Init` does the same.
- `apps/pop_stream.h:64-69` says new streams are zero filled; `stream_new` allocates the data without
  clearing it. The constructor promises nothing about the contents.
- `apps/pop_stream.c:411` calls `stream_write` saner than `stream_put`; both use the same size check
  and both are `Stream.Buffered.Write`.
- `apps/pop_stream.h:102-103` calls the converted count the number of bytes still to be read. From
  2^31 bytes on it can differ: `StreamGuards.ReadGuardOverruns` and `StreamGuards.ReadGuardRefuses`
  say for which counts the guard admits too much or refuses too much, `StreamModel.BufferIsQueue` what
  that does to runs.
- The checks of positions and forward moves add in `size_t`. `StreamGuards.PositionGuard` says they are
  exact iff the sum does not wrap; `Stream.Buffered.ForwardEndp` when a wrapped move breaks the stream.
- `stream_fifo_pop` counts down on an empty queue too, and neither push nor pop resets a stream's
  link. `FifoModel.LinksAreQueue` and `FifoModel.CountIsLength` say exactly when the chain and the
  counter stay right.

## Model

| member | source | states |
|---|---|---|
| Bits.BitOfOperators | common/md5.c:73-76 | and, or, exclusive or and complement act on each of the 32 bits by itself |
| Bits.BitIsDigit | common/md5.c:73-76 | the digits the operators act on are those of division by powers of two |
| Bits.AndOfMask | apps/hash_key.c:14 | a mask of k ones keeps the remainder modulo 2^k |
| Bits.RotateByShiftsRotates | common/md5.c:90 | the "or" of the two shifts moves the upper n bits below the lower 32 - n |
| Words.RotateMovesUp | common/md5.c:90 | the lower 32 - n bits move up by n and the upper n bits come in below them |
| Words.RotateInverse | common/md5.c:90 | rotating left by n and then by 32 - n is the identity, for every shift |
| Md5Algebra.BitFunctions | common/md5.c:73-76 | at every bit F and G choose, H is the parity, I flips, where RFC 1321 says |
| Md5Tables.WordStrides | common/md5.c:229-310 | the rounds start at words 0, 1, 5 and 0 and go on by 1, 5, 3 and 7, modulo 16 |
| Md5Tables.EachRoundUsesEveryWord | common/md5.c:229-310 | in each round the word determines the step, by the inverse stride |
| Md5Tables.Rotations | common/md5.c:224-294 | the four rotations of each round as progressions of the step modulo 4 |
| Md5Tables.ConstantsAreSines | common/md5.c:229-310 | with the signs of sin(1) to sin(64), every three neighbouring constants satisfy sin(n - 1) + sin(n + 1) == 2 cos(1) sin(n), the first lies on the unit circle with cos(1), up to rounding |
| Md5Algebra.StepLaw | common/md5.c:96-115 | three registers move on; the new one, less its neighbour and rotated back, is the sum of the oldest, the auxiliary function, a word and a constant, modulo 2^32 |
| Md5Transform.FF | common/md5.c:96-100 | three updates of a register, each addition wrapping, rotation by shifts: the RFC step with the first auxiliary function |
| Md5Transform.GG | common/md5.c:101-105 | three updates of a register, each addition wrapping, rotation by shifts: the RFC step with the second auxiliary function |
| Md5Transform.HH | common/md5.c:106-110 | three updates of a register, each addition wrapping, rotation by shifts: the RFC step with the third auxiliary function |
| Md5Transform.II | common/md5.c:111-115 | three updates of a register, each addition wrapping, rotation by shifts: the RFC step with the fourth auxiliary function |
| Md5Transform.Round1 | common/md5.c:223-244 | the unrolled calls 1 to 16, read in rotating roles, are steps 0 to 15 of the schedule |
| Md5Transform.Round2 | common/md5.c:246-266 | calls 17 to 32 are steps 16 to 31, word index 5k+1 mod 16 |
| Md5Transform.Round3 | common/md5.c:268-288 | calls 33 to 48 are steps 32 to 47, word index 3k+5 mod 16 |
| Md5Transform.Round4 | common/md5.c:290-310 | calls 49 to 64 are steps 48 to 63, word index 7k mod 16 |
| Md5Transform.Transform | common/md5.c:217-316 | for every state and block the in-place transformation is the 64-step schedule of section 3.4, each resulting word added modulo 2^32 to the one that was in the buffer |
| Md5Algebra.CompressFeedsForward | common/md5.c:312-315 | the chaining words taken off the result again and the steps run backwards from there give the chaining words |
| Md5Algebra.UnstepStep | common/md5.c:96-115 | subtraction and the inverse rotation undo a step |
| Md5Algebra.StepUnstep | common/md5.c:96-115 | a step undoes its inverse |
| Md5Algebra.StepsAreABijection | common/md5.c:229-310 | for a fixed block every register state comes from exactly one, found by running the schedule backwards |
| Md5.CarryAddIsExact | common/md5.c:149-153 | the carry test, the shifted length and the length's top bits make exact addition modulo 2^64 |
| Md5.WordAtIsAssembled | common/md5.c:161-165 | the four shifted bytes are a little-endian word |
| Md5.Context.Init | common/md5.c:120-131 | counter zero, the four initial words as the code stores them, buffer untouched; the context represents the empty message |
| Md5Digest.InitialBytes | common/md5.c:127-130 | the initial words, low byte first, are the bytes 01 23 45 67 89 ab cd ef fe dc ba 98 76 54 32 10 that section 3.3 lists |
| Md5.Context.CountBits | common/md5.c:149-153 | the two counter words after an update hold the 64-bit sum |
| Md5.Context.Assemble | common/md5.c:161-165 | the first n words of the buffer, no other word changed |
| Md5.Context.PutByte | common/md5.c:156-168 | one loop body: store, and on a full buffer one block transformation |
| Md5.Context.Update | common/md5.c:137-170 | exact new context, whole buffer included; a context that represents m then represents m followed by the input |
| Md5.Context.Final | common/md5.c:176-213 | exact new context; the digest of a context that represents m is the one-shot MD5 of m |
| Md5.Context.StoreDigest | common/md5.c:203-212 | the chaining words, low byte first |
| Md5Digest.OutputBytes | common/md5.c:203-212 | the sixteen bytes, written out by division |
| Md5Stream.LevelFollowsCount | common/md5.c:146-147 | the fill level derived from the counter advances with the bytes fed, modulo 64, from any counter |
| Md5Stream.UpdateIsHomomorphic | common/md5.c:137-170 | from any context, two updates give the same counter, registers and buffer as one with the concatenation |
| Md5Stream.PutHolds | common/md5.c:155-169 | one byte keeps: registers are the fold of all complete blocks, buffer holds the rest |
| Md5Stream.FeedHolds | common/md5.c:155-169 | any input keeps it, wherever the block boundaries fall |
| Md5Stream.FoldLast | common/md5.c:155-169 | the fold starts at the given registers and takes the blocks one after the other |
| Md5Digest.UpdateRepresents | common/md5.c:137-170 | with the bit count, every update keeps a reachable context representing its message |
| Md5Digest.PaddingMatches | common/md5.c:184-193 | the two-case padding of the code is the padding of section 3.1 |
| Md5Digest.PaddingShape | common/md5.c:191-193 | fed with the padding, any context is filled to 56 bytes; the block function runs meanwhile iff the tail had 56 bytes or more, once, on the tail and the padding that completes its block |
| Md5Digest.LastBlockWords | common/md5.c:184-200 | fourteen buffer words and the saved counter are the words of the last 64 padded bytes |
| Md5Digest.FinishIsMd5 | common/md5.c:176-213 | finishing a context that represents m gives the one-shot digest of m |
| Md5Digest.AnyChunkingGivesMd5 | common/md5.c:42-51 | init, updates with any pieces, final: the MD5 of the concatenation, whatever was in the buffer |
| Md5Digest.PaddedIsInjective | common/md5.c:61-70 | different messages have different padded messages |
| Md5Digest.PaddedLaw | common/md5.c:184-200 | the message, 0x80, the fewest zeros that bring the length to 56 modulo 64, and the bit count modulo 2^64, low byte first |
| HashModel.FindLaw | common/hash.c:47-51 | a lookup finds a datum iff it is equal to the one asked for and stored in the table |
| HashModel.InsertLaw | common/hash.c:53-66 | inserting for an absent class changes that class's lookup only, keeps the invariant and adds one |
| HashModel.InsertInFront | common/hash.c:59-63 | the new datum is the first of the slot its key gives modulo the size; everything else keeps its place |
| HashModel.RemoveLaw | common/hash.c:90-106 | removal empties that class only, keeps the invariant and takes one off iff something was found |
| HashModel.ApplyMovesOneCell | common/hash.c:39-107 | each call answers and moves its class's cell as specified and no other |
| HashModel.RunIsCells | common/hash.c:39-107 | over any run of gets, lookups and releases, answers and later lookups are those of independent cells |
| HashModel.OtherClassesDoNotMatter | common/hash.c:39-107 | a lookup after a run equals the lookup after only the calls of its class |
| HashTable.Walk | common/hash.c:87-105 | the loop with the trailing pointer finds the first equal datum of the chain |
| HashTable.Table.constructor | common/hash.c:5-19 | empty slots, count 0, invariant established |
| HashTable.Table.Push | common/hash.c:59-65 | a fresh bucket with the datum at the head of its slot, every other bucket where it was, one more counted, and the datum found |
| HashTable.Table.Get | common/hash.c:39-68 | the stored datum if there is one; otherwise what the allocator returns, put in front of its slot, counted and found from then on, if it returns something; otherwise nothing, and nothing changed |
| HashTable.Table.Lookup | common/hash.c:71-74 | finds without changing anything |
| HashTable.Unlink | common/hash.c:94-97 | bypassing a bucket, at the head or behind its predecessor, leaves every other chain linked as it was |
| HashTable.Table.Release | common/hash.c:79-107 | the datum found, no longer found and counted off, if there was one; its bucket and no other is taken out |
| HashTable.NoSharing | common/hash.c:46-47 | no bucket occurs twice in a chain or in two chains |
| HashTable.Table.IterateSlot | common/hash.c:118-125 | one chain: every bucket present at the start is visited once, in order, though visits may release |
| HashTable.Table.Iterate | common/hash.c:110-126 | all data, slot by slot, each once, as many as the count said; what remains is the swept table |
| HashSweep.KeptPosition | common/hash.c:118-125 | kept data of a chain are found as before, released ones not at all |
| HashSweep.SweepRemovesExactlyTheReleased | common/hash.c:110-126 | after an iteration a lookup finds what it found before unless that datum's visit released it |
| HashTable.Table.FreeChain | common/hash.c:137-146 | frees a chain bucket by bucket, counting each off |
| HashTable.Table.Clean | common/hash.c:129-149 | every bucket freed once, data passed to the callback in order, all slots null, count 0 |
| HashTable.FlattenInjective | common/hash.c:129-149 | over the whole table no bucket occurs twice |
| ListModel.SortedInsertAllPermutes | common/list.c:67-104 | sorted insertion loses and invents nothing |
| ListModel.SortedInsertAllIsStableSort | common/list.c:67-104 | adding values one by one gives a sorted sequence with ties in insertion order |
| ListModel.StableSortIsUnique | common/list.c:67-104 | sorted sequences with the same ties are equal |
| ListModel.SortedInsertAllIsTheStableSort | common/list.c:67-104 | a sequence is a stable sort of the values iff it is the one insertion builds |
| ListModel.NoComparisonAppends | common/list.c:96-102 | without a comparison sorted insertion appends |
| ListModel.RemoveUndoesInsert | common/list.c:107-161 | deleting by value or position undoes an insertion in front of all equal elements |
| ListModel.RemoveFirstLaw | common/list.c:139-161 | removing an absent value changes nothing, of a present one the first occurrence goes |
| LinkedList.LinkLast | common/list.c:34-41 | relinks to the spine with the node at the end |
| LinkedList.LinkFirst | common/list.c:54-61 | relinks to the spine with the node at the front |
| LinkedList.LinkBefore | common/list.c:82-89 | relinks to the spine with the node before the given one |
| LinkedList.LinkAfter | common/list.c:127-133 | relinks to the spine with the node after the given one |
| LinkedList.UnlinkNode | common/list.c:166-173 | relinks to the spine without the node |
| LinkedList.List.Add | common/list.c:27-44 | the value appended, invariant and count kept |
| LinkedList.List.AddHead | common/list.c:47-64 | the value prepended |
| LinkedList.List.FirstGreater | common/list.c:78-80 | stops at the first element the value is less than |
| LinkedList.List.AddSort | common/list.c:67-104 | the value before the first greater element, or at the end without one; without a comparison appended |
| LinkedList.List.AddAfter | common/list.c:107-136 | the value behind the given node, at the front for null |
| LinkedList.List.DeleteNode | common/list.c:164-176 | that element and no other removed |
| LinkedList.List.Lookup | common/list.c:234-242 | the first node that holds the value |
| LinkedList.List.Delete | common/list.c:139-161 | the first occurrence removed; list, nodes and counter untouched if there is none |
| LinkedList.List.DeleteAll | common/list.c:205-223 | every node freed once, data deleted in order, the list empty |
| LinkedList.SharedNodeOneSpine | common/list.c:245-250 | two lists with a common node have all nodes in common, in the same order |
| LinkedList.AddList | common/list.c:245-250 | terminates with the data of m behind those of l and m unchanged, for m empty or without a node of l |
| LinkedList.SelfAppend | common/list.c:245-250 | on one non-empty spine, under one header or two, the cursor has not reached the end after any number of rounds |
| LinkedList.SelfAppendedRepeats | common/list.c:245-250 | after any number of rounds that list repeats the original one |
| StreamModel.BufferIsQueue | apps/pop_stream.c:221-509 | any interleaving of puts and gets is the run of a byte queue within getp <= endp <= size; it fails iff underflow, overflow or a get at an obscured unread count |
| StreamModel.PutLaw | apps/pop_stream.c:435-509 | a put writes its bytes behind the end cursor and no other byte |
| StreamModel.RunWritesOnlyItsPuts | apps/pop_stream.c:221-509 | a run changes no byte before its first put, consumed or not, nor behind its last |
| StreamModel.FieldsRoundTrip | apps/pop_stream.c:221-509 | a fitting list of typed fields reads back, as written, iff it is less than 2^32 bytes |
| StreamModel.PatchedRead | apps/pop_stream.c:511-583 | after any overlapping positional writes a positional read gives the bytes last written |
| StreamModel.PatchReadsBack | apps/pop_stream.c:511-583 | a field patched in and not overwritten since reads back as its value |
| ByteOrder.BigEndianEncode | apps/pop_stream.c:489-509 | decoding an encoded value that fits its width returns it |
| ByteOrder.BigEndianDecode | apps/pop_stream.c:361-384 | encoding a decoded byte string returns it |
| StreamGuards.ReadGuardIsExact | apps/pop_stream.h:103 | the read guard admits exactly the reads in bounds iff converting the unread count to int and back keeps it |
| StreamGuards.ReadGuardOverruns | apps/pop_stream.c:210 | some read past the unread bytes is admitted iff the converted count is negative, unless 2^64 - 2^31 bytes are unread |
| StreamGuards.ReadGuardRefuses | apps/pop_stream.c:210 | some read in bounds is refused iff the converted count is not negative and 2^32 bytes or more are unread |
| StreamGuards.ReadGuardCanFail | apps/pop_stream.h:103 | one byte refused with 2^32 unread, a read past the end admitted with 2^31 unread |
| StreamGuards.SmallReadsAreGuarded | apps/pop_stream.c:368 | a typed get is admitted iff its bytes are there and the unread count is not obscured: below 2^32, or with at least the width in its low 32 bits |
| StreamGuards.PositionGuard | apps/pop_stream.c:13-15 | an end position is admitted iff it is within the limit or wraps to within it |
| StreamGuards.BlockPutAccepted | apps/pop_stream.c:40-49 | a block put passes both checks iff its end does not wrap, and then writes what fits |
| Stream.Buffered.constructor | apps/pop_stream.c:53-75 | empty cursors, the given size, no promise about the contents |
| Stream.BigEndianBytes | apps/pop_stream.c:489-509 | byte k of the big-endian form is the value divided by the power of 256 of its place, modulo 256 |
| Stream.Buffered.StoreQ | apps/pop_stream.c:573-580 | eight stores write the big-endian form and no other byte |
| Stream.Buffered.LoadQ | apps/pop_stream.c:349-356 | eight shifted bytes are the big-endian value |
| Stream.Buffered.PutC | apps/pop_stream.c:435-447 | one byte at the end cursor |
| Stream.Buffered.PutW | apps/pop_stream.c:451-465 | two bytes, high first |
| Stream.Buffered.PutL | apps/pop_stream.c:469-485 | four bytes, high first |
| Stream.Buffered.PutQ | apps/pop_stream.c:489-509 | eight bytes, high first |
| Stream.Buffered.GetC | apps/pop_stream.c:222-234 | the next byte, cursor past it |
| Stream.Buffered.GetW | apps/pop_stream.c:254-270 | the big-endian value of the next two bytes |
| Stream.Buffered.GetL | apps/pop_stream.c:315-333 | the big-endian value of the next four bytes |
| Stream.Buffered.GetQ | apps/pop_stream.c:362-384 | the big-endian value of the next eight bytes |
| Stream.Buffered.PutCAt | apps/pop_stream.c:512-525 | one byte overwritten, no cursor moved |
| Stream.Buffered.PutWAt | apps/pop_stream.c:528-542 | two bytes overwritten |
| Stream.Buffered.PutLAt | apps/pop_stream.c:545-561 | four bytes overwritten |
| Stream.Buffered.PutQAt | apps/pop_stream.c:564-583 | eight bytes overwritten |
| Stream.Buffered.GetCFrom | apps/pop_stream.c:237-250 | the byte at an offset |
| Stream.Buffered.GetWFrom | apps/pop_stream.c:273-290 | the big-endian value of two bytes at an offset |
| Stream.Buffered.GetLFrom | apps/pop_stream.c:293-312 | the big-endian value of four bytes at an offset |
| Stream.Buffered.GetQFrom | apps/pop_stream.c:337-359 | the big-endian value of eight bytes at an offset |
| Stream.Buffered.GetBlock | apps/pop_stream.c:206-218 | the next n bytes, cursor past them; the cursors stay in order iff that many were unread |
| Stream.Buffered.Write | apps/pop_stream.c:414-431 | as much of the block as fits, zeros for a missing source, and how much that was |
| Stream.Buffered.SetGetp | apps/pop_stream.c:163-173 | only the get cursor moves |
| Stream.Buffered.ForwardGetp | apps/pop_stream.c:177-188 | skips unread bytes as a get would; a wrapping sum moves the cursor back |
| Stream.Buffered.ForwardEndp | apps/pop_stream.c:191-202 | only the end cursor moves; the cursors stay in order iff the sum does not wrap or does not wrap below the get cursor |
| Stream.Buffered.Reset | apps/pop_stream.c:780-784 | both cursors at zero, bytes untouched |
| Stream.Buffered.Resize | apps/pop_stream.c:116-138 | the common prefix survives, both cursors are pulled back into it |
| Stream.Copy | apps/pop_stream.c:89-102 | contents and cursors of the source, bytes beyond them and size of the target, whatever its cursors were |
| Stream.Dup | apps/pop_stream.c:105-113 | an equal stream just large enough |
| StreamFifo.Fifo.Push | apps/pop_stream.c:811-821 | links, ends and counter make the modelled step in any state; a chain stays one iff the stream's own link was null and it was not queued |
| StreamFifo.Fifo.Pop | apps/pop_stream.c:824-841 | links, ends and counter make the modelled step in any state; from a chain the first stream, the counter right iff there was one |
| StreamFifo.Fifo.Clean | apps/pop_stream.c:851-863 | every queued stream freed once, in order, the queue empty |
| FifoModel.PushSpells | apps/pop_stream.c:811-821 | a push on links that spell a queue spells it with the stream added iff its link is null and it is not queued |
| FifoModel.PopSpells | apps/pop_stream.c:824-841 | a pop on links that spell a queue returns its first stream and spells the rest |
| FifoModel.LinksAreQueue | apps/pop_stream.c:811-841 | over any run, from any links, the links spell the queue after every call iff every push was of a stream with a null link, not queued; the pops then return what the queue returns |
| FifoModel.CountOfRun | apps/pop_stream.c:811-841 | in every run the counter is the length of the queue less the pops from the empty one, modulo 2^64 |
| FifoModel.CountIsLength | apps/pop_stream.c:838 | the counter is the length iff the number of pops from the empty queue is a multiple of 2^64 |
| FifoModel.FirstInFirstOut | apps/pop_stream.c:811-841 | in such a run what was popped and then what the links spell is what was pushed, in order |
| FifoModel.DistinctStreamsAreProper | apps/pop_stream.c:811-841 | streams without a link, each pushed at most once, make such a run |
| FifoModel.PushedAgainNeverEnds | apps/pop_stream.c:811-841 | push a, push b, pop, push a: the pops return b and a in turn for ever, though the queue is empty after two |
| StringHashes.HornerIsPolynomial | apps/hash_key.c:10 | the loops' recurrence is the polynomial in the multiplier with the characters as coefficients |
| StringHashes.FirstCharacters | apps/hash_key.c:4-31 | the exact hashes of strings of up to two characters, written out |
| StringHashes.SDBMHash | apps/hash_key.c:4-15 | the polynomial with multiplier 65599, modulo 2^31 |
| StringHashes.DJBHash | apps/hash_key.c:102-112 | the polynomial with multiplier 33 and initial term 5381, modulo 2^31 |
| StringHashes.BKDRHash | apps/hash_key.c:88-99 | the polynomial with multiplier 131, modulo 2^31 |
| StringHashes.RsIsSum | apps/hash_key.c:18-31 | the recurrence with multipliers 63689 * 378551^k is the sum of every character times all later multipliers |
| StringHashes.RSHash | apps/hash_key.c:18-31 | that sum's recurrence modulo 2^31, though hash and multiplier are kept modulo 2^32 |
| StringHashes.PJWHash | apps/hash_key.c:47-66 | the fold hash, the same function as ELF; the polynomial with multiplier 16 while that is below 2^28 |
| StringHashes.ELFHash | apps/hash_key.c:69-85 | the fold hash, the same function as PJW; the polynomial with multiplier 16 while that is below 2^28 |
| StringHashes.PjwFolds | apps/hash_key.c:59-62 | clearing the top bits with the constant mask is the fold, in numbers |
| StringHashes.ElfFolds | apps/hash_key.c:77-81 | clearing the top bits with their own complement is the same fold |
| StringHashes.FoldHashStep | apps/hash_key.c:58-62 | one character: 16 times the hash plus the character modulo 2^32, the top four bits cleared and exclusive-ored into bits 4 to 7 |
| StringHashes.FoldHashIsHorner | apps/hash_key.c:58 | below 2^28 the hash is the polynomial with multiplier 16 |
| StringHashes.FoldHashIsSmall | apps/hash_key.c:65 | the value stays below 2^28, so the final mask changes nothing |

## Left out

- JSHash and APHash: mixing loops with no description other than their bodies.
- The sine itself, as a real function: `Md5Tables.ConstantsAreSines` has its recurrence and its first value, up to rounding.
- `stream_read_unblock`, `stream_read_try`, `stream_recvfrom`, `stream_recvmsg`, `stream_flush`: calls into the operating system.
- `stream_put_ipv4`, `stream_get_ipv4`, `stream_put_in_addr`: four-byte copies in host byte order.
- `hash_create`, `hash_free`, `hash_alloc_intern`, `list_delete`, `listnode_head`, `listnode_tail`, `stream_pnt`, `stream_empty`, `stream_fifo_head` and the cursor readers: wrappers and field reads.
- `common/memory.c`: allocation is taken to succeed, and use after free is not modelled.
- Event loop, HTTP, TCP and domain modules: not part of this model.
- HashTable.Table.Get: does not model wrap-around of the 64-bit count, because every counted bucket occupies memory.
- HashTable.Table.Iterate: does not model callbacks that insert, release other data or change the data they see; the source's own comment speaks of releasing the bucket given.
- HashTable.Table.Release: does not model data whose key or comparison changes while stored.
- Stream.Buffered.GetBlock: does not model reads past the allocated bytes, which the guard can admit.
- Stream.Buffered.PutCAt, Stream.Buffered.PutWAt, Stream.Buffered.PutLAt, Stream.Buffered.PutQAt: do not model offsets whose end wraps, which pass the guard and address memory outside the buffer.
- Stream.Buffered.GetCFrom, Stream.Buffered.GetWFrom, Stream.Buffered.GetLFrom, Stream.Buffered.GetQFrom: as for the positional writes.
- StreamFifo.Fifo.Clean: does not model links that close a cycle, whose streams the code frees again.
