# Verification of U8's algorithms

U8 is a JavaScript host with native cryptography, networking and database bindings. This project models the
algorithms and state machines inside it and proves what they promise, for every input, every order of calls and
every choice of comparator, cipher, MAC or table.

| files | what they model |
|---|---|
| `Heaps`, `HeapScans`, `Frontiers`, `FastPriorityQueue` | the array heap over an arbitrary strict weak order: the queue's methods are proved equal to functions on its items, and the functions are proved to keep a heap, to sort when drained, to be sound when scanning, and to select the k smallest by a best-first search |
| `Words`, `StreebogLps`, `StreebogAdd`, `StreebogSse`, `StreebogHash`, `StreebogContext`, `StreebogDigests`, `StreebogLaws` | GOST R 34.11-2012: `StreebogHash` is the definition of RFC 6986 over any tables; the table, bit-loop and SSE forms, the carry loops and the buffered stream are proved to compute it; `StreebogLaws` says what the definition amounts to without using it |
| `TlsReadPump` | the read side of a TLS connection: pending reads, left-over bytes, the in-progress flag and callbacks that may read again, nondeterministically |
| `Radix`, `Safe58` | base 58 by long division in place, with arbitrary initial contents of the decoder's stack buffer |
| `KeyAddress` | the address format on top of it |
| `CtrTransformer`, `SymmetricKey` | the counter-mode keystream, plain encryption and encrypt-then-authenticate with the 32-byte delay ring |
| `PgPool` | the connection pool as interleaved steps |
| `Pbkdf2`, `Base64` | key derivation and base64 |

Objects whose methods update their fields are classes; loops that update variables are methods with loops. Words
and bytes are numbers below 2^64 and 256, masks and shifts on them are divisions and remainders, and exclusive or is
defined bit by bit.

## What the proofs brought to light

- `removeMany` steps back only to half the index (jslib/FastPriorityQueue.js:170). It removes every match of every
  heap if and only if no matching item lies, in the order, between two items that do not match;
  `HeapScans.ScanMisses` gives a heap of seven items for every predicate that fails this.
- `doDecode` copies cells it never wrote exactly when a text has more leading '1's than spare cells
  (crypto/Safe58.cpp:109, 124): `Safe58.RightForEveryBufferIff`. The text "1" is the shortest such input
  (`Safe58.OneDecodesToGarbage`).
- The type mark check of an address looks at four bits only (crypto/KeyAddress.cpp:20), so 256 passes the check whose
  message speaks of 0 to 15, and comes back from the text as 0; an address whose type mark is not 0 modulo 16
  does not match its own key (crypto/KeyAddress.cpp:113-116).
- `connect` goes through on a pool whose connections are all in use (db/PGPool.cpp:440); the maximum then holds exactly
  when the ones in use and the new ones fit. A connection popped before a failing spawn is never handed out nor
  returned, and the pool can then be empty below its maximum (db/PGPool.cpp:503-508, `PgPools.FailedSpawnEmptiesPool`).
  `PgPools.AlwaysExplainedIff` and `PgPools.AlwaysWithinIff` say for whole runs exactly when neither happens.
- "data corrupted: bad hmac record size" (crypto/SymmetricKey.cpp:66-67) is never thrown.
- The documentation calls `kSmallest` the equivalent of polling k times; that is so up to items neither of which is
  less than the other, and `Frontiers.TiesMayDiffer` is a heap on which the lists differ. They agree
  on every heap if and only if the order tells all items apart (`Frontiers.SearchIsPollingIffNoTies`).

## Model

| member | source | states |
|---|---|---|
| FastPriorityQueues.FastPriorityQueue.constructor | jslib/FastPriorityQueue.js:35-40 | an empty queue over any strict weak order |
| FastPriorityQueues.FastPriorityQueue.Clone | jslib/FastPriorityQueue.js:44-51 | a fresh queue with the same items in the same positions; the original is untouched |
| FastPriorityQueues.FastPriorityQueue.Add | jslib/FastPriorityQueue.js:55-71 | the heap order is kept and the items are the old ones and the new one |
| FastPriorityQueues.FastPriorityQueue.Heapify | jslib/FastPriorityQueue.js:74-81 | any array becomes a heap of exactly its items; on an empty one a cell outside the queue is written |
| FastPriorityQueues.FastPriorityQueue.PercolateUp | jslib/FastPriorityQueue.js:84-99 | moving a hole up the ancestor path is the sequence of swaps of the specification, forced or not |
| FastPriorityQueues.FastPriorityQueue.PercolateDown | jslib/FastPriorityQueue.js:102-126 | moving a hole down, ties to the left child, is the sequence of swaps of the specification |
| FastPriorityQueues.FastPriorityQueue.RemoveAt | jslib/FastPriorityQueue.js:131-140 | returns the item at the index and keeps the heap order; outside the queue it does nothing |
| FastPriorityQueues.FastPriorityQueue.Remove | jslib/FastPriorityQueue.js:145-154 | removes one item iff some item is equivalent to the value, and then an equivalent one; the rest stay |
| FastPriorityQueues.FastPriorityQueue.BatchRemove | jslib/FastPriorityQueue.js:158-178 | ends although the index moves backwards; removed and remaining items are the original ones, all removed ones match, the limit holds |
| FastPriorityQueues.FastPriorityQueue.RemoveOne | jslib/FastPriorityQueue.js:183-186 | finds an item iff one matches, and removes only that one |
| FastPriorityQueues.FastPriorityQueue.RemoveMany | jslib/FastPriorityQueue.js:192-194 | sound and conserving for every predicate; unless it stops at the limit it leaves no match when none in the queue lies between two of its items that do not match |
| FastPriorityQueues.FastPriorityQueue.Peek | jslib/FastPriorityQueue.js:203-206 | an item than which no other is less, or undefined when empty |
| FastPriorityQueues.FastPriorityQueue.Poll | jslib/FastPriorityQueue.js:218-228 | takes the root and restores the heap order, even when the root was out of place |
| FastPriorityQueues.FastPriorityQueue.ReplaceTop | jslib/FastPriorityQueue.js:233-239 | exchanges a least item for the new one and keeps the heap order |
| FastPriorityQueues.FastPriorityQueue.ForEach | jslib/FastPriorityQueue.js:262-269 | calls back with every item exactly once in non-decreasing order; the queue is unchanged |
| FastPriorityQueues.FastPriorityQueue.KSmallest | jslib/FastPriorityQueue.js:276-296 | min(k, size) items from distinct positions, non-decreasing, none of the others less, exactly those of the best-first search; the queue is unchanged |
| FastPriorityQueues.NextPosition | jslib/FastPriorityQueue.js:288-293 | the second queue after a turn of the loop: its root polled, then the left and the right child added if they exist |
| Heaps.RootIsLeast | jslib/FastPriorityQueue.js:203-206 | in a heap no item is less than the root |
| Heaps.SiftUpMakesHeap | jslib/FastPriorityQueue.js:61-70 | sifting up repairs a heap that is wrong only at one item |
| Heaps.RaiseKeepsRest | jslib/FastPriorityQueue.js:84-99 | forced sifting up keeps the order of everything below the root |
| Heaps.SiftDownMakesHeap | jslib/FastPriorityQueue.js:109-125 | sifting down repairs a heap, or the part of one being built, that is wrong only below one item |
| Heaps.PollKeepsHeap | jslib/FastPriorityQueue.js:218-228 | polling gives a heap even if only the root was out of place |
| Heaps.RemoveAtKeepsHeap | jslib/FastPriorityQueue.js:131-140 | forced percolation followed by poll gives a heap without the item |
| Heaps.HeapifiedIsHeap | jslib/FastPriorityQueue.js:74-81 | bottom-up sifting from the middle gives a heap |
| HeapScans.DrainSorts | jslib/FastPriorityQueue.js:262-269 | repeated polling of a heap is non-decreasing |
| HeapScans.DrainPermutes | jslib/FastPriorityQueue.js:262-269 | repeated polling yields every item exactly once |
| HeapScans.ScanSound | jslib/FastPriorityQueue.js:158-178 | a scan from any index with any room removes only matches, loses nothing and leaves a heap |
| HeapScans.ScanOneFindsFirst | jslib/FastPriorityQueue.js:183-186 | with a limit of one the first match in array order goes, iff there is one |
| HeapScans.ScanFindsAll | jslib/FastPriorityQueue.js:164-174 | stepping back to half the index is enough when none of the queue's matches lies between two of its items that do not match and the limit is not reached |
| HeapScans.BatchRemoveFindsAll | jslib/FastPriorityQueue.js:158-178 | under the same condition every match goes when there is no limit, or one that is not reached |
| HeapScans.ScanMisses | jslib/FastPriorityQueue.js:164-174 | otherwise a heap of seven items makes the scan step over a match |
| HeapScans.RemovesAllIffNoMatchBetween | jslib/FastPriorityQueue.js:158-194 | `removeMany` without a limit removes every match of every heap iff no match lies, in the order, between two items that do not match |
| HeapScans.KSmallestAgreesWithPolling | jslib/FastPriorityQueue.js:271-296 | position by position the k smallest are equivalent to what repeated polling gives |
| HeapScans.KSmallestIsPolling | jslib/FastPriorityQueue.js:271-296 | they are equal when items the order cannot tell apart are equal |
| Frontiers.BestFirstSelects | jslib/FastPriorityQueue.js:276-296 | the best-first search of any heap lists its k smallest items |
| Frontiers.SearchIsPollingIffNoTies | jslib/FastPriorityQueue.js:271-296 | the search gives the first k items of repeated polling on every heap iff items the order cannot tell apart are equal |
| Frontiers.TiesMayDiffer | jslib/FastPriorityQueue.js:271-296 | on a heap of three items with a tie the search and repeated polling give different lists |
| HeapScans.SortedPrefixesAgree | jslib/FastPriorityQueue.js:271-276 | two sorted selections of the smallest of the same items agree up to equivalence |
| Frontiers.ByItemOrders | jslib/FastPriorityQueue.js:278-282 | comparing positions by their items is again a strict weak order |
| Frontiers.FrontierAdvances | jslib/FastPriorityQueue.js:288-293 | after each step the second queue holds exactly the untaken positions whose parent is taken |
| Frontiers.AdvanceCounts | jslib/FastPriorityQueue.js:288-293 | a turn of the loop takes the root off the second queue and adds exactly its children that exist |
| Frontiers.SearchGoesOn | jslib/FastPriorityQueue.js:287-294 | while results are missing the search has a next position, and taking it keeps the frontier, the order and the list to come |
| Frontiers.FrontierCovers | jslib/FastPriorityQueue.js:276-296 | every untaken position has an ancestor on the frontier whose item is not greater |
| Frontiers.FrontierNeverDry | jslib/FastPriorityQueue.js:287-288 | the frontier is not empty while fewer positions than items are taken |
| Frontiers.PickRoot | jslib/FastPriorityQueue.js:288-289 | the root of the second queue extends the result by a least remaining item |
| Frontiers.PickedIsKSmallest | jslib/FastPriorityQueue.js:276-296 | what the search has picked is the k smallest |
| StreebogLps.LinSplits | crypto/gost3411-2012.h:1060-1073 | the linear map of a number is the exclusive or of the maps of its low and high bits |
| StreebogLps.RowIsLinear | crypto/gost3411-2012.h:1039-1048 | the first k look-ups give the linear map of the first k substituted bytes |
| StreebogLps.TableFormIsSLP | crypto/gost3411-2012.h:1031-1048 | for any S-box and matrix the table form is substitution, transposition and linear map, for every vector |
| StreebogLps.SlpTable | crypto/gost3411-2012.h:1031-1048 | the table loop computes SLP |
| StreebogLps.LinHighIsLin | crypto/gost3411-2012.h:1062-1073 | shifting out top bits and taking rows in order is the linear map defined from the low bits |
| StreebogLps.Tau | crypto/gost3411-2012.h:850 | the shift-and-mask macro transposes an 8 by 8 matrix of bytes |
| StreebogLps.PermuteBytes | crypto/gost3411-2012.h:1055-1058 | the scattered writes fill every cell with the substituted byte the transposition puts there |
| StreebogLps.LinearWord | crypto/gost3411-2012.h:1063-1072 | the bit loop computes the linear map |
| StreebogLps.SlpSmall | crypto/gost3411-2012.h:1049-1073 | the small-table routine computes SLP, also in place |
| StreebogAdd.SumValue | crypto/gost3411-2012.h:998-1015 | limbwise addition with carries is addition of the numbers |
| StreebogAdd.SumIsAddition | crypto/gost3411-2012.h:998-1015 | dropping the last carry is reduction modulo 2^512 |
| StreebogAdd.AddMod512 | crypto/gost3411-2012.h:998-1015 | (a + b) mod 2^512, for every pair, also for a == b |
| StreebogAdd.AddMod512Digit | crypto/gost3411-2012.h:1017-1029 | (a + b) mod 2^512 for a one-limb b, in spite of the early exits |
| StreebogSse.AddHalves | crypto/gost3411-2012.h:1176-1183 | the signed compare with flipped sign bits finds exactly the lanes that overflowed |
| StreebogSse.AddCarry64 | crypto/gost3411-2012.h:1185-1200 | sum and carry of two registers are exact; the loop goes on at most twice, once for each lane |
| StreebogSse.AddCarryLast64 | crypto/gost3411-2012.h:1201-1210 | the sum modulo 2^128 |
| StreebogSse.CarryTurn | crypto/gost3411-2012.h:1217-1246 | a turn of the 32-bit loop keeps the total and moves the lowest carry up a lane |
| StreebogSse.AddCarry32 | crypto/gost3411-2012.h:1217-1233 | sum and carry of two registers are exact with 32-bit lanes; the loop goes on at most four times, once for each lane |
| StreebogSse.AddCarryLast32 | crypto/gost3411-2012.h:1234-1246 | the sum modulo 2^128 with 32-bit lanes, in spite of the early exit; the loop goes on at most three times |
| StreebogSse.AddMod512Sse | crypto/gost3411-2012.h:1291-1322 | (a + b) mod 2^512 through either carry macro and every early exit |
| StreebogSse.AddMod512DigitSse | crypto/gost3411-2012.h:1324-1337 | (a + digit) mod 2^512 through either carry macro |
| StreebogSse.SlpWordSse | crypto/gost3411-2012.h:1339-1422 | an output word by byte extraction is a word of SLP |
| StreebogSse.SlpSse | crypto/gost3411-2012.h:1339-1422 | SLP on registers is SLP on the vector they hold |
| StreebogSse.LoadValue | crypto/gost3411-2012.h:1250-1280 | loading a vector keeps the 512-bit number it stands for |
| StreebogContext.Context.Xslp | crypto/gost3411-2012.h:1076-1090 | SLP of the exclusive or, with aliased arguments, in both table forms |
| StreebogContext.Context.Encrypt | crypto/gost3411-2012.h:1119-1128 | the interleaved rounds and the final exclusive or give E(k, m) xor h xor m |
| StreebogContext.Context.BlockScalar | crypto/gost3411-2012.h:1105-1129 | one turn of the scalar loop is one step of section 9 of RFC 6986 |
| StreebogContext.Context.TransformScalar | crypto/gost3411-2012.h:1098-1130 | any number of blocks, aligned or not, are absorbed in order |
| StreebogContext.Context.Transform1Scalar | crypto/gost3411-2012.h:1131-1146 | g_0(h, m) |
| StreebogContext.Context.EncryptSse | crypto/gost3411-2012.h:1486-1503 | the rounds with the message added to the hash first give the same value |
| StreebogContext.Context.BlockSse | crypto/gost3411-2012.h:1468-1504 | one turn of the SSE loop is the same step |
| StreebogContext.Context.TransformSse | crypto/gost3411-2012.h:1453-1511 | the SSE build ends in the state of the scalar build for any number of blocks |
| StreebogContext.Context.Transform1Sse | crypto/gost3411-2012.h:1512-1549 | g_0(h, m) on registers |
| StreebogContext.Context.TransformN | crypto/gost3411-2012.h:1098-1511 | whichever build, hash, counter and sigma are those of section 9 of RFC 6986 |
| StreebogContext.Context.Transform1 | crypto/gost3411-2012.h:1131-1549 | whichever build, g_0(h, m) |
| StreebogContext.Context.Init | crypto/gost3411-2012.h:1560-1578 | the context of the empty message for the digest size, 512 bits unless 256 or 32 is asked for |
| StreebogContext.Context.Update | crypto/gost3411-2012.h:1596-1626 | a context of a message becomes the context of the message and the data; buffer_usage stays below 64 |
| StreebogContext.Context.Finish | crypto/gost3411-2012.h:1647-1670 | the digest of the message held, truncated to its size; the context is wiped |
| StreebogContext.FinalXor | crypto/gost3411-2012.h:1127-1128 | the order of the scalar final exclusive or does not matter |
| StreebogContext.FinalXorSse | crypto/gost3411-2012.h:1482-1503 | nor does that of the SSE build |
| StreebogHash.AbsorbConcat | crypto/gost3411-2012.h:1596-1626 | absorbing whole blocks first and the rest after is absorbing everything |
| StreebogHash.CounterIsLength | crypto/gost3411-2012.h:1658-1663 | the counter ends at 8 * |M| mod 2^512 |
| StreebogHash.SigmaIsBlockSum | crypto/gost3411-2012.h:1658-1664 | sigma ends at the sum of all blocks of the padded message mod 2^512 |
| StreebogLaws.BytesOfBlock | crypto/gost3411-2012.h:1658-1667 | reading a block as words and writing the words as bytes is no change |
| StreebogLaws.BlockOfBytes | crypto/gost3411-2012.h:1658-1667 | nor is writing a vector and reading it |
| StreebogLaws.ValueOfBlock | crypto/gost3411-2012.h:1116-1118 | a block stands for the number its bytes write, least significant first |
| StreebogLaws.SubstitutedByTau | crypto/gost3411-2012.h:1053-1058 | byte n before the linear map is the substituted byte TAU(n) of the vector |
| StreebogLaws.LinOfBit | crypto/gost3411-2012.h:1062-1073 | the bit of weight 2^k selects row 63 - k |
| StreebogLaws.OneTable | crypto/gost3411-2012.h:1040-1047 | every S-box and matrix has exactly one table |
| StreebogLaws.EIsCascade | crypto/gost3411-2012.h:1119-1128 | E(K, m) is twelve rounds under K_1 to K_12 and the addition of K_13 |
| StreebogLaws.GIsEncryption | crypto/gost3411-2012.h:1112-1128 | adding h and m to g_N(h, m) leaves the encryption of m under the key made of h and N |
| StreebogLaws.PaddedInjective | crypto/gost3411-2012.h:1652-1656 | the padding of a tail determines the tail |
| StreebogLaws.BlockSumOfNumbers | crypto/gost3411-2012.h:1117-1118 | the sum of the blocks adds the numbers their bytes write, the padded tail last |
| StreebogLaws.DigestStages | crypto/gost3411-2012.h:1560-1670 | the digest of every message stage by stage: each block with the bits before it, the padded tail, the length, the sum, the last 32 or all 64 bytes |
| StreebogLaws.PadTwice | crypto/gost3411-2012.h:1711-1716 | pad and padded key determine each other |
| StreebogLaws.BlockKeyBytes | crypto/gost3411-2012.h:1697-1709 | a key of at most a block is followed by zeros, a longer one counts as its digest |
| StreebogLaws.HmacByBytes | crypto/gost3411-2012.h:1691-1747 | HMAC of a key of at most a block from the two pads byte by byte |
| StreebogLaws.HmacOfLongKey | crypto/gost3411-2012.h:1700-1704 | a longer key gives what its digest gives |
| Words.ByteOfBytes | crypto/gost3411-2012.h:1040-1047 | shifting and masking a word written in bytes gives those bytes |
| StreebogDigests.DigestChunks | crypto/gost3411-2012.h:1560-1670 | however a message is cut and whichever build, repeated `update` and `final` give the digest of the message |
| StreebogDigests.HmacInit | crypto/gost3411-2012.h:1691-1721 | the context holds the inner pad of the key, hashed first if longer than a block |
| StreebogDigests.HmacFinish | crypto/gost3411-2012.h:1730-1747 | the digest of the outer pad and the inner digest |
| StreebogDigests.HmacDigest | crypto/gost3411-2012.h:1691-1758 | HMAC of RFC 2104, for every key and however the data is cut into updates |
| TlsReadPump.IOTLS.constructor | AsyncIO/IOTLS.h:250-256 | nothing received, issued or delivered, no read in progress |
| TlsReadPump.IOTLS.Read | AsyncIO/IOTLS.cpp:86-201 | while a read is in progress, also from inside a callback, it only queues; otherwise left-over bytes are handed over at once, as many as asked for and there are, or the read is armed; refused calls change nothing; the pump stays valid |
| TlsReadPump.IOTLS.Take | AsyncIO/IOTLS.cpp:105-109 | bytes leave the queue in order; fewer than asked for only when that empties it |
| TlsReadPump.IOTLS.Serve | AsyncIO/IOTLS.cpp:105-116 | the request gets its bytes before anything else is delivered, and the queue goes on |
| TlsReadPump.IOTLS.Callback | AsyncIO/IOTLS.cpp:622-627 | a callback that reads any number of times keeps the accounts |
| TlsReadPump.IOTLS.CheckReadQueue | AsyncIO/IOTLS.cpp:203-284 | the first waiting read is served from left-over bytes or armed, whichever there is; it ends, whatever callbacks enqueue, with a read armed or nothing waiting |
| TlsReadPump.IOTLS.OnTlsRead | AsyncIO/IOTLS.cpp:598-667 | hands over at most the maximum, queues the rest; end of stream and reset give 0, errors their code |
| TlsReadPump.IOTLS.OnStartFailed | AsyncIO/IOTLS.cpp:126-136 | the armed read gets the error and the queue goes on |
| TlsReadPump.Served | AsyncIO/IOTLS.cpp:105-111 | a hand-over from left-over bytes takes them from the front, never more than asked for, and fewer only when it takes them all |
| TlsReadPump.FirstDelivery | AsyncIO/IOTLS.cpp:598-627 | a read hands over all its bytes or exactly the maximum; status 0 at end of stream and reset, the code of every other error |
| TlsReadPump.ValidIsOrdered | AsyncIO/IOTLS.cpp:86-284 | a valid pump is ordered: bytes delivered and left over are those received, requests are served first in first out within their sizes, an armed read means no bytes are left over, and without one nothing waits |
| TlsReadPump.Step | AsyncIO/IOTLS.cpp:86-667 | what each event does first, whatever its callbacks do: which bytes arrive, which request is queued, armed or served with what, which end or error is reported |
| TlsReadPump.RunReceives | AsyncIO/IOTLS.cpp:598-667 | over any run the bytes received are those of the events that found a read armed, and history only grows |
| TlsReadPump.Run | AsyncIO/IOTLS.cpp:86-667 | every run goes through ordered states, each following from the one before it by its event |
| Safe58.BuildIndexes | crypto/Safe58.cpp:15-23 | the table inverts the alphabet and is -1 elsewhere |
| Safe58.IndexOfLetter | crypto/Safe58.cpp:13-23 | each letter is found at its own index |
| Safe58.DivMod58 | crypto/Safe58.cpp:127-136 | value = 58 * quotient + remainder, digits in range, the prefix untouched |
| Safe58.DivMod256 | crypto/Safe58.cpp:138-147 | value = 256 * quotient + remainder, digits stay below 58, the leading digit becomes 0 |
| Safe58.DivisionStep | crypto/Safe58.cpp:129-134 | one digit of the division loses nothing |
| Safe58.WriteDigits | crypto/Safe58.cpp:39-54 | the significant digits, within two cells a byte; the outer loop ends |
| Safe58.StripOnes | crypto/Safe58.cpp:52-54 | the stripping loop never executes |
| Safe58.WriteOnes | crypto/Safe58.cpp:56-58 | one '1' for every leading zero byte |
| Safe58.Encode | crypto/Safe58.cpp:25-63 | the radix-58 digits of the input, one leading '1' for each leading zero |
| Safe58.Divide | crypto/Safe58.cpp:102-124 | one pass for each significant digit, in bounds; the output is the radix-256 digits after the cells copied for leading zeros |
| Safe58.DoDecode | crypto/Safe58.cpp:82-125 | refuses exactly the texts with a character outside the alphabet |
| Safe58.Decode | crypto/Safe58.cpp:65-80 | the same on the text with look-alikes replaced unless strict |
| Safe58.NormalizeKeepsText | crypto/Safe58.cpp:67-75 | replacing look-alikes does not touch letters of the alphabet |
| Safe58.NormalizeIsReplacing | crypto/Safe58.cpp:67-75 | reading look-alikes at once is the six replacements one after the other |
| Safe58.DigitRead | crypto/Safe58.cpp:65-80 | I, !, | and l stand for the digit of 1, O and 0 for that of o, every other character for itself |
| Safe58.EncodesA | crypto/Safe58.cpp:25-63 | the byte 97 is written "2g" |
| Safe58.AssembledIff | crypto/Safe58.cpp:109-124 | the output is right iff the unwritten cells copied are zero |
| Safe58.AssembledCells | crypto/Safe58.cpp:109-124 | the output cell by cell: unwritten cells, zeros, and the bytes of the number |
| Safe58.RightForEveryBufferIff | crypto/Safe58.cpp:109-124 | the output is right whatever the buffer holds iff there are at least as many spare cells as leading '1's |
| Safe58.OneDecodesToGarbage | crypto/Safe58.cpp:109-124 | the text "1" decodes to whatever its one buffer cell holds |
| Safe58.DecodingFits | crypto/Safe58.cpp:108-124 | the digits never need more cells than there are characters |
| Safe58.DecodeAfterEncode | crypto/Safe58.cpp:25-125 | decoding an encoding gives the bytes back iff the unwritten cells copied for leading zeros are zero |
| Safe58.DecodeAfterEncodeNonzero | crypto/Safe58.cpp:25-125 | bytes with a nonzero first byte always come back, whatever the buffer holds |
| Safe58.SurvivesEveryBufferIff | crypto/Safe58.cpp:25-125 | bytes come back whatever the buffer holds iff the encoding is longer than they are by at least their leading zeros |
| Safe58.EncodeAfterDecode | crypto/Safe58.cpp:25-125 | encoding what a text of the alphabet is decoded to gives the text back iff the unwritten cells copied for leading '1's are zero |
| Safe58.EncodeAfterDecodeNoOnes | crypto/Safe58.cpp:25-125 | texts that do not begin with '1' always come back, whatever the buffer holds |
| Radix.ConvertRoundTrip | crypto/Safe58.cpp:25-125 | changing radix and back is the identity, leading zeros included |
| Radix.ConvertKeepsValue | crypto/Safe58.cpp:25-125 | changing radix keeps the number and the count of leading zeros |
| Radix.NumOfRep | crypto/Safe58.cpp:44-50 | digits of a number denote it, without a leading zero |
| Radix.RepOfNum | crypto/Safe58.cpp:44-50 | digits without a leading zero are those of the number they denote |
| KeyAddresses.Mask | crypto/KeyAddress.cpp:84-97 | a mask only for exponent 0x10001, and 1, 2 or 3 exactly for strengths of 2048, 4096 or 8192 bits and up to 7 more |
| KeyAddresses.KeyAddress.InitFromKey | crypto/KeyAddress.cpp:18-44 | refuses exactly type marks with bits 4 to 7 and keys without a mask; otherwise mask and mark, the digest of the key, and the checksum of all before it |
| KeyAddresses.KeyAddress.InitFromPacked | crypto/KeyAddress.cpp:53-82 | accepts iff the mask nibble is not zero and the four bytes after the digest are the checksum of all before them; every field is read from its place |
| KeyAddresses.KeyAddress.InitFromString | crypto/KeyAddress.cpp:46-51 | accepts iff the text decodes to an acceptable address |
| KeyAddresses.KeyAddress.ToString | crypto/KeyAddress.cpp:99-101 | the base-58 text of the packed bytes |
| KeyAddresses.KeyAddress.IsMatchingKey | crypto/KeyAddress.cpp:113-116 | true iff the packed bytes are those of the key with type mark 0; throws iff the key has no mask |
| KeyAddresses.TextOfAddress | crypto/KeyAddress.cpp:46-101 | text written for an address is read back as its bytes, whatever the decoder's buffer holds |
| KeyAddresses.AddressAccepted | crypto/KeyAddress.cpp:18-82 | every address of a key is accepted, has 37 or 53 bytes by its digest and does not begin with zero |
| KeyAddresses.AcceptedIsLayout | crypto/KeyAddress.cpp:53-82 | what is accepted begins with a well-formed address, and is one at 37 or 53 bytes |
| KeyAddresses.AddressesEqualIff | crypto/KeyAddress.cpp:103-107 | two addresses are equal iff mask, type, length class and digest are |
| KeyAddresses.MatchesOwnKeyIff | crypto/KeyAddress.cpp:113-116 | an address answers to its own key iff its type mark is 0 modulo 16 |
| KeyAddresses.MarksLetThrough | crypto/KeyAddress.cpp:19-21 | the range check lets through every mark whose low byte is below 16, not only 0 to 15 |
| KeyAddresses.ParseBack | crypto/KeyAddress.cpp:18-107 | an address built from a key parses back from its text as an equal address with the same length class, mask and digest, and the type mark modulo 16 |
| CtrTransformers.ApplyXor | crypto/CTRTransformerAES.cpp:62-71 | exclusive or at the offset only; throws iff the mask does not fit, changing nothing |
| CtrTransformers.CtrTransformer.constructor | crypto/CTRTransformerAES.cpp:12-29 | a random nonce iff none is given; no keystream used yet |
| CtrTransformers.CtrTransformer.PrepareBlock | crypto/CTRTransformerAES.cpp:45-60 | the block of the next counter, and the counter moves on |
| CtrTransformers.CtrTransformer.NextByte | crypto/CTRTransformerAES.cpp:39-43 | byte i of the keystream is byte i mod 16 of the cipher of the nonce xor big-endian counter i / 16 |
| CtrTransformers.CtrTransformer.TransformByte | crypto/CTRTransformerAES.cpp:31-33 | each call combines its byte with the next byte of the keystream |
| CtrTransformers.CounterBlocksDistinct | crypto/CTRTransformerAES.cpp:45-51 | cipher inputs coincide iff the counters agree modulo 2^32 |
| CtrTransformers.CounterBlockBytes | crypto/CTRTransformerAES.cpp:45-51 | the nonce, with only its last four bytes combined with the counter, high byte first |
| CtrTransformers.StreamByteOf | crypto/CTRTransformerAES.cpp:39-60 | byte i of the keystream is byte i mod 16 of that block enciphered for the counter i / 16 |
| CtrTransformers.FromBigEndian32 | crypto/CTRTransformerAES.cpp:47-50 | the four counter bytes write the counter modulo 2^32 |
| CtrTransformers.TransformedTwice | crypto/CTRTransformerAES.cpp:31-43 | the same keystream twice is the identity |
| SymmetricKeys.SymmetricKey.EtaEncrypt | crypto/SymmetricKey.cpp:80-102 | nonce, every byte combined with its byte of the keystream, and the MAC of exactly those bytes |
| SymmetricKeys.SymmetricKey.EtaDecrypt | crypto/SymmetricKey.cpp:36-74 | accepts iff there are 48 bytes and the last 32 are the MAC of those between; the delay ring separates them without slicing, and the size check after it never fails |
| SymmetricKeys.SymmetricKey.Encrypt | crypto/SymmetricKey.cpp:104-112 | nonce, and every byte combined with its byte of the keystream |
| SymmetricKeys.SymmetricKey.Decrypt | crypto/SymmetricKey.cpp:114-128 | every input of 16 bytes or more decrypts; shorter ones are refused |
| SymmetricKeys.EtaDecryptsEncryptions | crypto/SymmetricKey.cpp:36-102 | an input decrypts to a message iff it is the encryption of that message under the nonce it begins with |
| SymmetricKeys.EtaRoundTrip | crypto/SymmetricKey.cpp:36-102 | what was encrypted comes back, under any nonce |
| SymmetricKeys.DecryptsEncryptions | crypto/SymmetricKey.cpp:104-128 | without authentication, likewise |
| SymmetricKeys.RoundTrip | crypto/SymmetricKey.cpp:104-128 | what was encrypted comes back, under any nonce |
| SymmetricKeys.EtaEncryptedBytes | crypto/SymmetricKey.cpp:80-102 | the specification of the encryption byte by byte |
| SymmetricKeys.EtaDecryptedBytes | crypto/SymmetricKey.cpp:36-74 | accepted iff 48 bytes or more and the last 32 are the MAC of those from the 17th to before them, and what comes out byte by byte |
| PgPools.PgPool.constructor | db/PGPool.cpp:404-405 | nothing spawned; the defaults of the header |
| PgPools.PgPool.PushSpawned | db/PGPool.cpp:444-457 | a new connection gets an id of its own and is accounted for |
| PgPools.PgPool.Connect | db/PGPool.cpp:437-461 | which calls are refused and change nothing; how many connections are spawned, four at most, under which ids, when some attempt fails and whether a failure is on record; the limit holds afterwards iff those in use and the new ones fit |
| PgPools.PgPool.ConnectAndLoadTypes | db/PGPool.cpp:437-465 | the whole call: the first new connection is out for the query, and success needs the type names |
| PgPools.PgPool.GetUnusedConnection | db/PGPool.cpp:496-510 | the first idle connection moves into use; one more is spawned iff it was the last and there is room; a failure is on record iff the last attempt failed and then leaves the connection in use for good; being within the limit does not change |
| PgPools.PgPool.ReleaseConnection | db/PGPool.cpp:535-547 | the connection is idle again, behind the others, and has no holder |
| PgPools.PgPool.Drain | db/PGPool.cpp:550-562 | everything idle is taken, in order, none lost |
| PgPools.PgPool.CheckAndResetAllConnections | db/PGPool.cpp:549-564 | undisturbed, drain-and-return leaves the idle queue, its order and the used map as they were |
| PgPools.EveryConnectionOnce | db/PGPool.cpp:496-547 | balanced accounts mean: ids are unique, idle and used are disjoint, nobody shares a connection, and the total is the number ever spawned |
| PgPools.AccountsTaken | db/PGPool.cpp:501-505 | taking the first idle connection keeps the accounts balanced |
| PgPools.AccountsReleased | db/PGPool.cpp:535-547 | giving one back keeps the accounts balanced |
| PgPools.TakenReleased | db/PGPool.cpp:553-563 | releasing the first connection taken leaves the map as if it had not been taken |
| PgPools.TakenExactly | db/PGPool.cpp:554-559 | draining adds exactly the idle connections to the map, each under its id |
| PgPools.NextKeepsGood | db/PGPool.cpp:437-564 | every event keeps ids unique, idle and used disjoint, one holder each, and an empty queue explained by the maximum, a reset under way or a failed spawn |
| PgPools.WithinIff | db/PGPool.cpp:437-510 | the total is within the maximum after a `connect` that goes through iff the connections in use and those it opens fit, and after any other event iff it was before |
| PgPools.AfterKeepsGood | db/PGPool.cpp:437-564 | in every run ids stay unique, idle and used disjoint, one holder each, an empty queue explained, and no connection taken out for an exception comes back |
| PgPools.AfterKeepsWithin | db/PGPool.cpp:437-564 | with room for every `connect` the total never exceeds the maximum |
| PgPools.AfterStaysUp | db/PGPool.cpp:444-510 | no failure is on record while every attempt to open a connection succeeds |
| PgPools.EmptyOnlyWhenFull | db/PGPool.cpp:437-564 | while every attempt to open a connection succeeds, an empty queue means that the maximum is reached or a reset is still returning connections |
| PgPools.ExplainedIff | db/PGPool.cpp:437-564 | an empty queue stays so explained unless, with no reset under way and room for one more, the attempt to open one fails as the last idle connection is taken or as the first of a `connect`; from a queue run dry this way exactly a connection given back, or a `connect` that opens one or has no room, leads back |
| PgPools.AlwaysExplainedIff | db/PGPool.cpp:437-564 | throughout a run an empty queue means that the maximum is reached or a reset is still returning connections iff no event runs the queue dry in the state it meets |
| PgPools.AlwaysWithinIff | db/PGPool.cpp:437-564 | throughout a run the maximum is kept iff no `connect` opens more than there is room for |
| PgPools.OneHolderEach | db/PGPool.cpp:496-564 | in a good state nobody shares a connection and the total is the number ever spawned |
| PgPools.Step | db/PGPool.cpp:437-564 | the pool's methods do what the event leads to |
| PgPools.Run | db/PGPool.cpp:437-564 | every run ends in the state its events lead to, with all of the above |
| PgPools.ReconnectOverfills | db/PGPool.cpp:437-461 | a second `connect` while everything is in use can exceed the limit |
| PgPools.FailedSpawnEmptiesPool | db/PGPool.cpp:503-508 | after a failed spawn nothing is idle although there is room, and one connection has no holder |
| Pbkdf2s.Pbkdf2.F | crypto/PBKDF2.cpp:42-72 | block i is the exclusive or of the c chained values |
| Pbkdf2s.Pbkdf2.XorInto | crypto/PBKDF2.cpp:66-68 | every byte of the block is combined with the byte of the other |
| Pbkdf2s.Pbkdf2.Compute | crypto/PBKDF2.cpp:23-40 | the first dkLen bytes of T_1 || T_2 || ... of section 5.2 of RFC 8018, computed once |
| Pbkdf2s.ChainByte | crypto/PBKDF2.cpp:62-70 | every iteration combines each byte of the block with the byte of the next U |
| Pbkdf2s.USteps | crypto/PBKDF2.cpp:57-69 | each U is the function of the one before |
| Pbkdf2s.DerivedByte | crypto/PBKDF2.cpp:26-72 | byte m of block i, counted from zero, combines bytes m of U_1 to U_c for the salt followed by i + 1 |
| Pbkdf2s.DerivedPrefix | crypto/PBKDF2.cpp:23-40 | a shorter derivation is a prefix of a longer one |
| Base64.FindsValue | crypto/base64.cpp:35-43 | for every character the test accepts, the search finds the value RFC 4648 gives it |
| Base64.SextetsByBits | crypto/base64.cpp:55-58 | the masks and shifts of the encoder cut a 24-bit number into sextets |
| Base64.OctetsByBits | crypto/base64.cpp:101-103 | those of the decoder cut it into octets |
| Base64.OctetsOfSextets | crypto/base64.cpp:55-103 | the two are inverse on every group of three bytes |
| Base64.Encode | crypto/base64.cpp:45-85 | the encoding of section 4 of RFC 4648, group by group, with padding |
| Base64.Decode | crypto/base64.cpp:87-122 | the octets of the letters up to the first other character, whatever the buffers held before |
| Base64.EncodedForm | crypto/base64.cpp:45-85 | 4 * ceil(|x| / 3) characters, padding only at the end and as much as is missing |
| Base64.DecodeAfterEncode | crypto/base64.cpp:45-122 | text after padding is ignored; text after an unpadded encoding is decoded as well |
| Base64.RoundTrip | crypto/base64.cpp:45-122 | decoding an encoding gives the bytes back |
| Base64.DecodedLength | crypto/base64.cpp:95-122 | three bytes for every four letters and one less than the letters left over |
| Base64.LeftOverOctets | crypto/base64.cpp:111-119 | which bytes two or three letters left over give; one gives none |
| Base64.Examples | crypto/base64.cpp:45-85 | encodings given in section 10 of RFC 4648, and one with the last two letters of the alphabet |

## Left out

- FastPriorityQueues.FastPriorityQueue.Heapify: the queue holds its own sequence, so changes through the caller's array are not seen; the value `undefined` is a parameter.
- FastPriorityQueues.FastPriorityQueue.RemoveMany: states completeness only when no match lies between two items that do not match, because for every other predicate some heap makes it fail (`HeapScans.RemovesAllIffNoMatchBetween`).
- FastPriorityQueues.FastPriorityQueue.KSmallest: takes k from 0 on; a negative k or limit makes JavaScript throw a RangeError when the result array is made.
- `trim`, `isEmpty` and non-function callbacks of the queue; comparators and callbacks that have effects or are not strict weak orders.
- Sizes, counters and block numbers beyond 2^31, where the C++ and JavaScript integers overflow; the models count without bound, and the keystream counter and block numbers keep their low 32 bits.
- The concrete S-box, matrix, 2048-entry table and round constants of Streebog: everything holds for any S-box and matrix with the table that belongs to them. Registers are pairs of numbers, memory alignment is a parameter, and a 32-bit-lane register is four numbers.
- TlsReadPump.IOTLS.Read: the two overloads are one method with a flag; the exception for a missing event loop, `close` and `stopRead` are not modelled, because they abandon pending reads without clearing `tlsReading`.
- TlsReadPump.IOTLS.Callback: a callback may issue any number of reads of any size, of size zero only finitely many in one step; callbacks that each read zero bytes again without end are not modelled.
- The test-then-put of `read` (AsyncIO/IOTLS.cpp:102, 140) is not under a lock: the pump's properties are about runs of atomic steps, which is an assumption. `Queue` is not part of this model and is taken as a first-in first-out queue.
- Safe58.DoDecode: the contents of the buffer before it is written are a parameter.
- KeyAddresses.KeyAddress.InitFromPacked: asks for at least 37 bytes, because the code reads past the end of shorter input. The object left behind by a constructor that throws is not described.
- The digests, CRC-32, AES, HMAC-SHA and the random generator are functions and values of the right lengths; key sizes AES refuses are not distinguished.
- KeyAddresses.KeyAddress.InitFromString: likewise for texts that decode to fewer bytes.
- CtrTransformers.ApplyXor: asks for a non-empty mask, because the loop touches a byte of it before it tests.
- CtrTransformers.CtrTransformer.constructor: a nonce that is given has at least 16 bytes, because the code reads that many.
- PgPools.PgPool.Connect: `connect` does not hold the pool's mutex, and the atomicity of its spawning loop is an assumption. In runs the query for the type names is one client's get and release, because it gives its connection back after `connect` may have returned.
- PgPools.PgPool.ReleaseConnection: only for connections that are out; a release of an unknown id inserts an empty entry.
- The pool's `close`, waiting on its condition variable, the two constructors that connect at once, libpq, query execution, paging and `replacePlaceholders`.
- Pbkdf2s.Pbkdf2.Compute: lengths are not negative and the hash has a positive length.
- V8 bindings, `main.cpp`, `Scripter`, sockets, files, timers, the TLS handshake, RSA keys, `BossSerializer`, `KeyInfo`, `HashId` and the DNS and HTTP wrappers.
