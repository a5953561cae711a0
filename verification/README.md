# A verified model of the light wallet

The project models five parts of the repository and proves what they promise, or exactly when they keep the promise:

- **Checksum** (`html/js/crc32.js`): `Crc32Bits` is the bit-at-a-time CRC-32 of section 8 of RFC 1952 (section 8.1.1.6.2
  of ITU-T V.42), `Crc32Table` the literal table, `Crc32` the table loop, `Crc32Detection` what the code detects.
- **Text codecs** (`html/js/base58.js`, `html/js/cn_util.js`): `Radix` and `JsText` are the arithmetic and the
  JavaScript strings below them; `Base58` and `Base58Decode` the block codec; `Varint`, `Address` and `Money` the varints,
  addresses and amounts. JSBigInt is modelled by the integers, hashing and the curve by arbitrary functions on bytes.
- **Thread pool** (`ext/ThreadSafeQueue.hpp`, `ext/ThreadPool.hpp`): `ThreadSafeQueue` is the queue with its condition
  variable, as a class whose methods are the critical sections; `ThreadPool` interleaves workers, clients, `tryPop`,
  `clear`, spurious wakeups and `destroy` in any order.
- **Scanner** (`src/TxSearch.cpp`, `src/CurrentBlockchainStatus.cpp`): `TxSearch` takes `set_searched_blk_no` and the
  update at the end of a window as one step each, `TxSearchRaces` takes them apart; `BlockStream` is what the scanner sees
  and stores of the blocks.
- **Requests** (`src/OpenMoneroRequests.cpp`, `src/RandomOutputs.cpp`): `PaidImport` is the import of a wallet against
  payment over failing database calls, `RandomOutputs` the bounded sampling of decoys.

Where the source changes state or loops, a class or a method does so here, with a contract that equates its result or new
state with a function; the lemmas are about those functions.

Places where the code does not do what its comments, messages or names say, each with the exact condition:

- `UINT64_MAX` in `html/js/base58.js:15` is 2^64, so a full block worth exactly 2^64 is accepted and reads as eight zero
  bytes (`Base58Decode.BlockBackAndThere`, `Canonicity`, `MaximalBlockReadsAsZero`).
- `decode_address` ignores bytes behind the checksum (`Address.Acceptance`, `TrailingBytesIgnored`, `Reprinted`).
- The "64-bit varint" check admits every index below 2^70 (`Varint.BufferAccepted`).
- `parseMoney` returns the method `negate` for negative amounts with a decimal point (`Money.ShortRoundTrip`).
- `clear` does not make `waitPop` return (`ThreadSafeQueue.WaitPopReturns`).
- `set_searched_blk_no` and the end of a window hold different mutexes, so a request can be overwritten
  (`TxSearchRaces.GapExactly`, `RequestLost`, `LostUntilNextRequest`).
- The timestamp meant for one block is kept for a whole window (`BlockStream.TimestampsOfRun`, `WrongTimestamp`).
- A failed select counts as "no payment yet", so only the table's unique key keeps an account from a second payment row
  (`PaidImport.SecondRow`); and a payment whose account update fails, or finds the account at block 0 already, is spent
  without a reset for good (`ResetWithPayment`, `NeverResetLater`).
- With no unlocked output the index drawn is 2^64 - 1 (`RandomOutputs.PickIsGood`).

## Model

| member | source | states |
|---|---|---|
| Crc32Table.EntryTied | html/js/crc32.js:15-48 | every entry b of the literal table is b after eight steps of the bit-at-a-time code with polynomial 0xEDB88320 |
| Crc32.Type.constructor | html/js/crc32.js:49-50 | the remainder starts as all ones |
| Crc32.Type.ProcessString | html/js/crc32.js:54-60 | the table loop leaves, from every starting remainder, the remainder of feeding the message bit by bit |
| Crc32.Type.Checksum | html/js/crc32.js:51-53 | the checksum is the complement of the remainder |
| Crc32.Run | html/js/crc32.js:9-13 | the whole computation is the CRC-32 of RFC 1952 |
| Crc32.CheckValue | html/js/crc32.js:9-62 | the checksum of the nine characters 1 to 9 is 0xCBF43926 |
| Crc32Bits.BitwiseIsBitSerial | html/js/crc32.js:54-60 | feeding bytes is feeding their bits |
| Crc32Bits.BitwiseConcat | html/js/crc32.js:54-60 | processing a and then b is processing a + b |
| Crc32Bits.FeedBitsLinear | html/js/crc32.js:54-60 | the code is linear: the remainder of an exclusive or is the exclusive or of the remainders |
| Crc32Detection.FeedBitsInjective | html/js/crc32.js:54-60 | feeding the same bits never merges two different remainders |
| Crc32Detection.ShortPatternShows | html/js/crc32.js:54-60 | no non-zero error pattern of at most 32 bits vanishes |
| Crc32Detection.BurstDetected | html/js/crc32.js:54-60 | every burst error of at most 32 bits, at any position and from any remainder, changes the remainder |
| Crc32Detection.PatternOf33 | html/js/crc32.js:15-60 | of all 33-bit error patterns exactly the generator polynomial vanishes |
| Crc32Detection.CollisionOf33 | html/js/crc32.js:54-60 | messages differing inside 33 bits collide if and only if they differ by the generator, so 32 is sharp |
| Crc32Detection.ByteBurstDetected | html/js/crc32.js:49-60 | strings that differ inside at most four consecutive bytes have different checksums |
| JsText.HexToBin | html/js/base58.js:17-24 | odd lengths throw; otherwise each pair of characters is read as parseInt reads it |
| JsText.BinToHex | html/js/base58.js:26-32 | the hexadecimal text of the bytes |
| JsText.DigitsInOrder | html/js/base58.js:20-29 | the sixteen digits in order, lower-case when printed, in both cases when read |
| JsText.PairIsParseInt | html/js/base58.js:20-22 | each byte is what parseInt makes of the two characters (white space, sign, 0x, longest run of digits, NaN), kept modulo 256 |
| JsText.CaseDoesNotMatter | html/js/base58.js:17-24 | reading a text is reading it with A to F replaced by a to f |
| JsText.BytesOfHexOf | html/js/base58.js:17-32 | hextobin undoes bintohex on all byte strings |
| JsText.HexOfBytesOf | html/js/base58.js:17-32 | bintohex undoes hextobin on exactly the lower-case hexadecimal strings |
| Base58.IndexOfSymbol | html/js/base58.js:4-8 | indexOf finds each digit's symbol at the digit: the alphabet has no duplicates |
| Base58.Uint8BeTo64 | html/js/base58.js:50-79 | the big-endian value of one to eight bytes, a throw for every other length |
| Base58.Uint64To8Be | html/js/base58.js:81-92 | the last `size` base-256 digits of the number, a throw for sizes outside 1 to 8 |
| Base58.BlockFits | html/js/base58.js:9-15 | 256^n is at most 58^size for every block size, and 58^size stays below 2^64 for short blocks |
| Base58.SizeIsLeast | html/js/base58.js:9 | every tabled size is the least number of digits that holds all values of its block |
| Base58.AddressLengths | html/js/base58.js:113-134 | 69 bytes, a standard address, take 95 characters, and 77, an integrated one, 106 |
| Base58.EncodeBlock | html/js/base58.js:94-111 | writes the block's digits into its own slot and nothing else, with leading '1's; both length errors |
| Base58.EncodeHex | html/js/base58.js:113-134 | the loops over full blocks and the last block give the blocks' encodings one after the other |
| Base58.EncodedBytesConcat | html/js/base58.js:113-134 | encoding distributes over concatenation at multiples of eight bytes |
| Base58Decode.ScanIsNumber | html/js/base58.js:145-159 | the running overflow check is the check of the final number against 2^64, and the scan computes that number |
| Base58Decode.BlockAcceptance | html/js/base58.js:136-165 | accepts exactly alphabet strings of a tabled length whose number is below 256^n for short blocks, at most 2^64 for full ones, and yields that number's bytes |
| Base58Decode.BlockErrors | html/js/base58.js:136-165 | which of the five errors a refused block throws, for each an if and only if: the first trouble from the right decides, the limit of a short block comes last |
| Base58Decode.EncodedLengthError | html/js/base58.js:172-177 | a text is refused as a whole if and only if its length leaves 1, 4 or 8 modulo 11 |
| Base58Decode.BlockThereAndBack | html/js/base58.js:94-165 | decode_block undoes encode_block on every block |
| Base58Decode.BlockBackAndThere | html/js/base58.js:94-165 | encode_block undoes decode_block on exactly the accepted blocks not worth 2^64 |
| Base58Decode.MaximalBlockReadsAsZero | html/js/base58.js:15-157 | the block worth 2^64 is accepted and reads as eight zero bytes |
| Base58Decode.DecodeBlock | html/js/base58.js:136-165 | the loop with its throws in order, and what it writes into the buffer |
| Base58Decode.DecodeText | html/js/base58.js:167-187 | the loops over full blocks and the last block give the blocks' bytes one after the other, or the first error |
| Base58Decode.RoundTrip | html/js/base58.js:113-187 | of the strings of even length exactly the lower-case hexadecimal ones survive encode and decode |
| Base58Decode.Canonicity | html/js/base58.js:113-187 | an accepted text is what encode prints for it if and only if no full block is worth 2^64 and all characters fit a byte |
| Varint.LowBits | html/js/cn_util.js:239-250 | the lowest base-10^7 digit of JSBigInt still holds the low seven bits |
| Varint.EncodeVarint | html/js/cn_util.js:239-250 | the loop prints the unsigned LEB128 encoding (section 7.6 of DWARF 5) |
| Varint.ByteHolds | html/js/cn_util.js:239-250 | byte k holds the k-th seven bits, and its top bit says whether more bytes follow |
| Varint.ReadBack | html/js/cn_util.js:239-250 | every natural number is read back, whatever follows it |
| Varint.PrefixFree | html/js/cn_util.js:239-250 | no encoding is a proper prefix of another |
| Varint.Minimal | html/js/cn_util.js:239-250 | the encoding is the only shortest byte string that reads as the number |
| Varint.LengthBound | html/js/cn_util.js:239-250 | n bytes hold exactly the numbers below 128^n |
| Varint.BufferAccepted | html/js/cn_util.js:564-574 | derivation_to_scalar accepts exactly 64-character derivations and indices below 2^70, and which error it throws otherwise |
| Varint.BufferInjective | html/js/cn_util.js:564-576 | different derivations or indices are hashed as different buffers |
| Address.CnFastHash | html/js/cn_util.js:278-289 | throws exactly for odd lengths and characters that are not hexadecimal digits; otherwise the lower-case hash |
| Address.Acceptance | html/js/cn_util.js:470-512 | a decoded text is read as keys k if and only if it begins with a prefix announcing them, k and their checksum |
| Address.AddressErrors | html/js/cn_util.js:470-499 | what decode_address throws: the decoding error, or the prefix error if and only if none of the three prefixes is there, or else the checksum error |
| Address.AddressRoundTrip | html/js/cn_util.js:357-362 | decode_address returns the printed spend and view keys, in lower case, if and only if the two prefixes differ |
| Address.AddressBytes | html/js/cn_util.js:357-362 | a standard address is the Base58 text of prefix, spend key, view key and the first four bytes of their hash, in this order |
| Address.PrintRefuses | html/js/cn_util.js:278-362 | pubkeys_to_string throws if and only if the keys are not hexadecimal text of an even length together |
| Address.AddressSize | html/js/cn_util.js:357-362 | with a one-byte prefix it has 95 characters |
| Address.IntegratedRoundTrip | html/js/cn_util.js:364-373 | for every accepted address the integrated one returns its keys and the payment id if and only if both prefixes have equal varint lengths |
| Address.IntegratedBytes | html/js/cn_util.js:364-373 | an integrated address has the payment id behind the keys, or the throw of decoding the given address |
| Address.IntegratedSize | sql/openmonero.sql:113 | with a one-byte prefix it has the 106 characters that the payment table has room for |
| Address.AcceptedKeys | html/js/cn_util.js:470-512 | accepted keys are complete, 64 lower-case digits each |
| Address.Reprinted | html/js/cn_util.js:357-512 | printing the accepted keys gives the address back if and only if it is a standard one, without bytes behind the checksum, in a text that encode prints |
| Address.TrailingBytesIgnored | html/js/cn_util.js:482-499 | bytes behind the checksum do not change the result |
| Address.GenerateKeys | html/js/cn_util.js:389-397 | throws exactly for seeds that are not 64 characters; otherwise the secret is the reduced seed and the public key its multiple of the base point, in lower case |
| Address.PrefixAgreement | html/js/cn_util.js:436-468 | create_addr_prefix is the first 44 characters of create_address for every seed, or the same throw |
| Address.CreatedKeys | html/js/cn_util.js:436-456 | both key pairs over the primitives: what is hashed and reduced for 64-character seeds and for all others |
| Address.CreatedAddressReads | html/js/cn_util.js:436-512 | which seeds make an address, and when its decoding gives the public keys back |
| Address.RestoredFromSpendKey | html/js/cn_util.js:436-455 | the spend secret of an account made from a 64-character seed makes the same account again, if reducing twice is reducing once |
| Address.NetworkPrefixes | html/js/config.js:14-22 | the prefixes of the three networks are different and one byte long, as the round trips ask |
| Money.PadLeftLoop | html/js/cn_util.js:682-687 | the loop puts just the missing characters in front |
| Money.FullText | html/js/cn_util.js:695-708 | the text is the sign, the whole coins without leading zeros, the point, and all the decimals |
| Money.ShortText | html/js/cn_util.js:714-720 | the same without trailing zeros, without the point when no decimals are left, and never empty |
| Money.TrimRightLoop | html/js/cn_util.js:677-680 | the loop removes the character from the end |
| Money.TrimRightIs | html/js/cn_util.js:677-680 | what is removed is just the run of that character at the end |
| Money.FullRoundTrip | html/js/cn_util.js:695-748 | parseMoney undoes formatMoneyFull, for every number of places, on exactly the amounts that are not negative |
| Money.ShortRoundTrip | html/js/cn_util.js:714-748 | parseMoney undoes formatMoney on exactly the amounts that are not negative or are whole coins |
| Money.ParsedIsFloor | html/js/cn_util.js:726-748 | w.f is read as its value in smallest units, rounded down |
| Money.ParseParts | html/js/cn_util.js:739-748 | only the first `places` decimals count, whatever follows; a minus sign before a decimal point yields the method |
| Money.NotDecimalExactly | html/js/cn_util.js:732-747 | a text is not read as decimal if and only if one of the characters that count is no digit |
| ThreadSafeQueue.ThreadSafeQueue.TryPop | ext/ThreadSafeQueue.hpp:35-45 | takes the front item of a valid non-empty queue, changes nothing otherwise |
| ThreadSafeQueue.ThreadSafeQueue.WaitPop | ext/ThreadSafeQueue.hpp:54-73 | one look at the predicate: sleeps, fails, or takes the front item |
| ThreadSafeQueue.ThreadSafeQueue.Push | ext/ThreadSafeQueue.hpp:78-83 | appends the item and wakes one sleeper if there is one |
| ThreadSafeQueue.ThreadSafeQueue.Clear | ext/ThreadSafeQueue.hpp:97-105 | the loop empties the queue and wakes everybody |
| ThreadSafeQueue.ThreadSafeQueue.Invalidate | ext/ThreadSafeQueue.hpp:114-120 | marks the queue invalid and wakes everybody |
| ThreadSafeQueue.WaitPopKeeps | ext/ThreadSafeQueue.hpp:54-73 | waitPop keeps the items bounded by the woken threads while some thread sleeps, even when a newcomer barges in |
| ThreadSafeQueue.PushKeeps | ext/ThreadSafeQueue.hpp:78-83 | so does push, whichever thread notify_one picks |
| ThreadSafeQueue.OldestFirst | ext/ThreadSafeQueue.hpp:35-73 | a valid queue hands out its oldest item and keeps the others in place |
| ThreadSafeQueue.AllNotified | ext/ThreadSafeQueue.hpp:97-120 | clear and invalidate leave nobody asleep, an empty and an invalid queue |
| ThreadSafeQueue.WaitPopReturns | ext/ThreadSafeQueue.hpp:47-105 | when waitPop returns; clear alone never ends it |
| ThreadPool.WaitersKept | ext/ThreadPool.hpp:173-216 | no step of any thread loses a wakeup |
| ThreadPool.TasksKept | ext/ThreadPool.hpp:173-200 | after every step each task is in one place only, popped in order of submission, and none is passed over without clear |
| ThreadPool.AlwaysInvariant | ext/ThreadPool.hpp:127-216 | in every interleaving from the start on: no lost wakeup, and tasks conserved, first in first out, run at most once |
| ThreadPool.QueuedTasksGetWorkers | ext/ThreadSafeQueue.hpp:54-83 | with tasks queued the workers can only all be stuck when all have left after m_done |
| ThreadPool.AnyTime | ext/ThreadPool.hpp:173-200 | no interleaving is ruled out: clients and spurious wakeups come at any time, and a worker that does not sleep can go on |
| ThreadPool.DestroyStarts | ext/ThreadPool.hpp:205-208 | in every reachable pool m_done can be set and the queue then invalidated, which wakes everybody and changes no worker and no task |
| ThreadPool.DestroyGoesOn | ext/ThreadPool.hpp:205-208 | whatever happens in between, m_done stays set and the queue can be invalidated |
| ThreadPool.ShutdownTerminates | ext/ThreadPool.hpp:190-216 | after invalidate nobody sleeps, nothing is popped, each worker step uses up one of at most 2N, and the steps run out exactly when all workers have returned |
| ThreadPool.OneMoreTask | ext/ThreadPool.hpp:190-200 | after m_done is set a worker starts at most one more task |
| ThreadPool.WorkGetsDone | ext/ThreadPool.hpp:190-200 | a pool left alone comes to rest after an exact number of worker steps, and then every task is finished |
| TxSearch.TxSearch.constructor | src/TxSearch.cpp:49-51 | the scan resumes at the stored height |
| TxSearch.TxSearch.SetSearchedBlkNo | src/TxSearch.cpp:671-676 | stores height and flag |
| TxSearch.TxSearch.ChooseWindow | src/TxSearch.cpp:92-145 | the window in 64-bit arithmetic, or waiting |
| TxSearch.TxSearch.FinishWindow | src/TxSearch.cpp:624-631 | moves on only when no request came, and clears the flag |
| TxSearch.FirstWindow | src/TxSearch.cpp:49-95 | the first window of a new scanner begins at the stored height |
| TxSearch.AnyTime | src/TxSearch.cpp:671-676 | requests may come between windows and inside them |
| TxSearch.HistoryIsHonest | src/TxSearch.cpp:92-631 | heights count as scanned only when a window over them ends that was begun after the last request, where the scan stood |
| TxSearch.AlwaysCovered | src/TxSearch.cpp:87-631 | in every interleaving every height from the last requested one up to searched_blk_no was scanned after that request |
| TxSearch.RequestSurvivesWindow | src/TxSearch.cpp:628-676 | a request that arrives inside a window is not overwritten at its end |
| TxSearch.WindowBegins | src/TxSearch.cpp:92-99 | when there is a window to scan, with wrap-around of the 64-bit sum, and where it ends without one |
| TxSearch.WindowsIsCeiling | src/TxSearch.cpp:94-95 | the number of windows needed is the number of blocks divided by the lookahead, rounded up |
| TxSearch.Progress | src/TxSearch.cpp:94-631 | on a fixed chain every completed window brings the number of windows still needed down by exactly one |
| TxSearch.RequestIsServed | src/TxSearch.cpp:624-676 | after at most 1 + ceil((last - v + 1) / lookahead) windows everything from v on was scanned, and the scanner never idles before |
| TxSearchRaces.GapExactly | src/TxSearch.cpp:628-676 | single accesses interleaved: a step opens a gap if and only if it overwrites a request for a height already passed that came after the window was begun and whose flag was not seen |
| TxSearchRaces.RaceAnyTime | src/TxSearch.cpp:628-676 | no interleaving of the single accesses is ruled out |
| TxSearchRaces.RaceHistoryIsHonest | src/TxSearch.cpp:92-676 | the history of scanned heights is kept as in TxSearch |
| TxSearchRaces.OverwriteLeavesBehind | src/TxSearch.cpp:628-629 | such a write leaves the requested height behind |
| TxSearchRaces.CoveredUnlessOverwritten | src/TxSearch.cpp:628-676 | runs without such a write leave no gap |
| TxSearchRaces.RequestLost | src/TxSearch.cpp:628-676 | a concrete run that loses a request |
| TxSearchRaces.LostUntilNextRequest | src/TxSearch.cpp:87-631 | a height left behind stays unscanned until the next request |
| TxSearchRaces.Uninterrupted | src/CurrentBlockchainStatus.cpp:1070-1088 | with both updates uninterrupted these steps are those of TxSearch |
| BlockStream.InitTxsDataVector | src/CurrentBlockchainStatus.cpp:1287-1316 | the nested loops flatten the blocks, coinbase first |
| BlockStream.FoundInOrder | src/CurrentBlockchainStatus.cpp:1332-1340 | no hash missed means one transaction per hash, in order |
| BlockStream.GetTxsInBlocks | src/CurrentBlockchainStatus.cpp:1318-1345 | succeeds if and only if all transactions are known, and then hands them out in lockstep |
| BlockStream.Lockstep | src/CurrentBlockchainStatus.cpp:1287-1345 | position by position the flat vectors are the block-by-block stream with each block's own height |
| BlockStream.StreamOfBlock | src/CurrentBlockchainStatus.cpp:1296-1313 | in the stream of a block its miner transaction comes first and is the only coinbase one; the others follow in the block's order |
| BlockStream.ScanWindow | src/TxSearch.cpp:188-206 | the loop with its running index sees exactly that stream, whichever turns end in `continue` |
| BlockStream.RowsOfWindow | src/TxSearch.cpp:167-328 | a window stores exactly the transactions it should, all under the timestamp of the first one found |
| BlockStream.WindowsDoNotMatter | src/TxSearch.cpp:92-206 | for every lookahead the windows together show the blocks one after the other |
| BlockStream.TimestampsOfWindow | src/TxSearch.cpp:167-272 | a window stores the right timestamps if and only if all it stores has the timestamp of its first find |
| BlockStream.TimestampsOfRun | src/TxSearch.cpp:167-328 | a whole scan does if and only if every window does |
| BlockStream.SingleBlocks | src/TxSearch.cpp:95-169 | with a lookahead of one block it always does |
| BlockStream.WrongTimestamp | src/TxSearch.cpp:167-272 | two blocks for which the lookahead changes what is stored |
| PaidImport.OpenMoneroRequests.ImportWalletRequest | src/OpenMoneroRequests.cpp:1111-1374 | the request with all its early exits is the transition function over tables and answers |
| PaidImport.OpenMoneroRequests.SelectPayment | src/OpenMoneroRequests.cpp:2494-2539 | no rows and a failed select both count as no payment; two rows are an error |
| PaidImport.FirstRequest | src/OpenMoneroRequests.cpp:1184-1243 | without a row, or when selecting throws, the unpaid row is stored unless write or key refuses it, and the user is told so if and only if the write is acknowledged |
| PaidImport.FulfilledRequest | src/OpenMoneroRequests.cpp:1249-1266 | a fulfilled account is told so and left as it is |
| PaidImport.UnpaidRequest | src/OpenMoneroRequests.cpp:1268-1374 | the unpaid row is fulfilled with the transaction found if and only if there is an address, a payment and no refusal; then reset, rescan and answer, each with its condition |
| PaidImport.RefusedRequest | src/OpenMoneroRequests.cpp:1111-1192 | without a login, or with two rows, nothing changes |
| PaidImport.AlwaysSafe | src/OpenMoneroRequests.cpp:1184-1370 | over every run of requests and failures: one row per account (with the unique key), one reset per account, only after fulfilment |
| PaidImport.Changes | src/OpenMoneroRequests.cpp:1195-1317 | a request adds one unpaid row, or fulfils the only row of its account, or leaves the payments as they are |
| PaidImport.FulfilledForever | src/OpenMoneroRequests.cpp:1249-1317 | a fulfilled payment never reverts |
| PaidImport.SecondRow | src/db/MySqlAccounts.cpp:315-342 | the one way to a second payment row |
| PaidImport.ResetWithPayment | src/OpenMoneroRequests.cpp:1301-1344 | the fulfilling request resets the account if and only if both updates go through and the first is acknowledged |
| PaidImport.SearchOrdered | src/OpenMoneroRequests.cpp:1319-1368 | the search thread starts over only after the stored reset, and success is reported only when all of it worked |
| PaidImport.NeverResetLater | src/OpenMoneroRequests.cpp:1249-1266 | an account that paid without a reset is never reset later |
| PaidImport.FreeRequest | src/OpenMoneroRequests.cpp:1122-1178 | without a fee: payments untouched, and reset, rescan and answer, each with its condition |
| RandomOutputs.RandomIndex | src/RandomOutputs.cpp:16-29 | below num_outs if there are outputs, else 2^64 - 1 |
| RandomOutputs.EveryIndexDrawn | src/RandomOutputs.cpp:22-28 | every index below num_outs can come out |
| RandomOutputs.RandomOutputs.FindRandomOutputs | src/RandomOutputs.cpp:56-144 | the entries found are the picks up to the first that fails; success means one for each amount |
| RandomOutputs.RandomOutputs.Sample | src/RandomOutputs.cpp:101-138 | the loop finds the first outs_count different indices of the first 101 draws, or gives up |
| RandomOutputs.DrawnAt | src/RandomOutputs.cpp:108-118 | the k-th index comes from the k-th random number |
| RandomOutputs.PickPossible | src/RandomOutputs.cpp:101-138 | a pick succeeds if and only if outs_count different indices can be chosen from the first 101 draws |
| RandomOutputs.PickIsGood | src/RandomOutputs.cpp:99-140 | outs_count different indices, all below num_outs if positive; success bounds outs_count by 101 and by num_outs |
| RandomOutputs.PickCanSucceed | src/RandomOutputs.cpp:101-138 | up to 101 outputs, and up to as many as there are, can always be found with the right random numbers |
| RandomOutputs.SuccessExactly | src/RandomOutputs.cpp:56-144 | when the whole request succeeds, and that the entries are good and in order |

## Left out

- `crc32.Utf8Encode` and other string encodings: messages are bytes, JavaScript strings are sequences of characters of at
  most one code unit.
- Curve operations, Keccak, RingCT and the minified libraries: arbitrary functions on bytes.
- JSBigInt itself: amounts and block numbers are integers. Its other spellings of numbers (hexadecimal, exponents) and its
  errors on text that is no number are the one answer `NotDecimal` of `Money.ParseMoney`.
- ThreadPool.AlwaysInvariant: futures, the tasks' own results and exceptions, and a constructor that fails half-way are not
  modelled; tasks are assumed to end, and workers, clients and the destroyer are steps of one transition system, not
  Dafny methods, because Dafny has no threads.
- TxSearch.AlwaysCovered: failing reads and exceptions, which end the scan, are not modelled; nor is the height stored in
  the account (update_acc and src/TxSearch.cpp:608-622), which the source itself calls racy against a concurrent request.
- BlockStream.ScanWindow: identification of outputs and inputs and the outcome of the inserts are given predicates; block
  ranges are complete, and the transaction lookup answers in the order asked.
- PaidImport.AlwaysSafe: requests come one at a time. The update of an account to values it already has counts as failed,
  as MySQL reports no changed row. Account creation is part of the login answer.
- RandomOutputs.RandomIndex: the square root and so the distribution; every value from 0 to num_outs may come out before
  the clamp.
- Sessions, JSON, logging, configuration and the user interface; `TxUnlockChecker`, `chunks`, sums over inputs and outputs:
  they would only add easy members.
