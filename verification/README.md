# Verified model of the server's byte, bit and state-machine code

This project models, in Dafny, the parts of the game server that stand on their own: the packet codec, the MD5
digest, the bit packers and the three name codecs on top of them, the Blowfish variant, the breadcrumb rings behind
crash logs, the JSON log printer, the login lockout, the per-thread settings cache, Base32 and one-time passwords, and
the Vana'diel calendar. Code that updates memory in place is modelled by methods over arrays and objects, each proved
against a specification function; what the code is for is then proved about those functions, for all inputs and,
where there is state, for all runs.

## How it is laid out

| file | content |
|---|---|
| `words.dfy`, `words32.dfy`, `bits.dfy` | bits of natural numbers, shifts and masks; 32-bit words; byte sequences as bit sequences, low bit first and high bit first |
| `bit_packing.dfy` | the bit-field packers and unpackers in both bit orders |
| `six_bit_text.dfy`, `name_codecs.dfy` | packed six-bit text, C strings, and the linkshell and signature codecs |
| `soul_plate.dfy` | the seven-bit soul-plate codec |
| `prefix_codes.dfy`, `packet_codec.dfy` | code trees and the bit-at-a-time decoder; compressor, jump table, lookup table, decompressor |
| `md5_block.dfy`, `md5.dfy` | the block function and the streaming digest against RFC 1321 |
| `blowfish.dfy` | the Feistel network, the four-way block routines, the key schedule |
| `circular_buffer.dfy`, `backtrace.dfy` | the ring buffer; two rings with one sequence counter, read merged, sequentially and under concurrency |
| `numerals.dfy`, `json_reader.dfy`, `json_log.dfy`, `json_line.dfy` | decimal numerals; a reader by the codes of RFC 8259; the JSON printer; the whole log line |
| `otp.dfy` | Base32 decoding and time-based one-time passwords |
| `login_lockout.dfy` | the failure table and runs of login attempts |
| `settings_cache.dfy` | the cached read, and its interleavings with writers |
| `vana_time.dfy` | calendar fields, recomposition, the earth clock |

`dafny verify dfyconfig.toml` checks everything.

## What the proofs found

Where a property that one would expect does not hold of the code, the model keeps the code as it is and states exactly
when the property holds.

- The linkshell codec loses the tail of some names. Characters 4k+1 and 4k+2 of `p`, `F`, `V` before `a`, `b`, `c` pack
  into a zero byte, where the C-string copy stops. The decoder then returns the first 4k+1 characters, except that when
  exactly one zero byte follows the stored string it returns one character more.
- The signature codec has the same weakness, but only a digit can complete such a pair (`F`, `V`, `l` before `0`, `1`, `2`);
  names of letters always survive.
- `generateTOTP` reduces modulo 10^6 whatever its `digits` parameter says, and prints into ten bytes: it is the standard's
  password exactly for six digits.
- `zlib_compress` returns eight more than the bits it wrote after the marker byte. Handed to `zlib_decompress` as a bit
  count, that number yields at least one symbol too many, unless the turn after the last code reads past the input.
- A code that the declared bit count cuts off is finished by `zlib_decompress` from the zero-filled peek or from whatever
  follows in memory, so it can emit one symbol more than the bit-at-a-time decoder, never two.
- A soul-plate name with a byte of 128 or more spoils the character before it: the byte's top bit lands in that
  character's lowest bit, except across the eighth character. No such name comes back whole.
- The calendar's month day and month are read from totals rounded up, so at a day's (month's) first instant they read one
  too few; and the twelfth month of year 1 reads as month 0. Past the first year these are the only instants whose
  fields do not recombine; before the epoch no instant's fields do. Within a field's first coarser unit the code
  divides by zero.
- Between an update's write of the map and its bump of the generation, a setting cached before still answers with its
  old value. It is then right exactly when the store reads the setting as it did when it was cached, and stays so until
  the bump, whatever else is written or read.
- A log line is JSON exactly when every double in it is finite: infinity and not-a-number are printed as bare words.

Comments in `vana_time.h` give the ranges [1, 30] and [1, 12] for month day and month; the code also returns 0, and the
model follows the code.

## Model

| member | source | states |
|---|---|---|
| BitPacking.PackBitsBE | src/common/utils.cpp:285-307 | in place, the buffer's bits low bit first become the old ones with exactly the slice at the bit offset replaced by the value's low digits; the offset after the field is returned |
| BitPacking.UnpackBitsBE | src/common/utils.cpp:314-357 | returns the number below 2^len whose digits are that slice, through whichever of the five word widths is chosen; 0 when the field spans more than 64 bits from its first byte |
| BitPacking.PackBitsLE | src/common/utils.cpp:364-414 | the same replacement in the buffer read high bit first, although done by reversing bytes into a scratch word and packing low bit first; a field spanning more than 64 bits changes nothing and returns 0 |
| BitPacking.UnpackBitsLE | src/common/utils.cpp:421-475 | returns the number below 2^len whose digits are the slice of the buffer read high bit first, by the one-byte case and by the reversed word alike |
| BitPacking.PackedFieldReadsBackBE | src/common/utils.cpp:285-357 | what unpackBitsBE returns for a field packBitsBE has written is the value modulo 2^len |
| BitPacking.PackedFieldReadsBackLE | src/common/utils.cpp:364-475 | the same for packBitsLE and unpackBitsLE |
| BitPacking.DisjointFields | src/common/utils.cpp:285-475 | packing one field leaves every disjoint field as it was, and packs of disjoint fields commute |
| NameCodecs.EncodeStringLinkshell | src/common/utils.cpp:477-509 | the target's 20 bytes are the zero-padded C string of the image: six bits a character, high bit first, then ones in the terminator's variable width, then zeros |
| NameCodecs.DecodeStringLinkshell | src/common/utils.cpp:511-551 | the target's 20 bytes are the zero-padded text read from the six-bit fields, ended by code 0 or by either terminator |
| NameCodecs.LinkshellRoundTrip | src/common/utils.cpp:477-551 | decode after encode for every alphanumeric name, cut to 20: the name itself or, from the first lossy pair on, cut before it, with the one exceptional zero fill |
| NameCodecs.LinkshellSurvivesIff | src/common/utils.cpp:477-551 | for every name at all, decode after encode returns its first 20 characters if and only if they are alphanumeric and hold no lossy pair |
| NameCodecs.LosesTailIsZeroByte | src/common/utils.cpp:488-506 | a pair of characters packs into a zero byte exactly when it is one of `pFV` at 4k+1 and one of `abc` at 4k+2 |
| NameCodecs.LinkshellAlphabet | src/common/utils.cpp:488-499 | a to z are codes 1 to 26, A to Z 27 to 52, 0 to 9 53 to 62, in both directions, and no other character has a code |
| NameCodecs.EncodeStringSignature | src/common/utils.cpp:553-578 | the target's 16 bytes are the zero-padded C string of the six-bit image without terminator; the result is the C string in the target |
| NameCodecs.DecodeStringSignature | src/common/utils.cpp:580-603 | the target's 16 bytes are the zero-padded C string of the sixteen characters read from the six-bit fields |
| NameCodecs.SignatureRoundTrip | src/common/utils.cpp:553-603 | for every name at all, decode after encode returns the characters before the first that is not alphanumeric or completes a lossy pair, of the first 15 |
| NameCodecs.SignatureAlphabet | src/common/utils.cpp:562-573 | 0 to 9 are codes 1 to 10, A to Z 11 to 36, a to z 37 to 62, in both directions, and no other character has a code |
| NameCodecs.SignatureSurvivesIff | src/common/utils.cpp:553-603 | nothing is lost if and only if the first 15 characters are alphanumeric and no `F`, `V` or `l` at 4k+1 precedes a `0`, `1` or `2` |
| NameCodecs.AlphabeticSignatureSurvives | src/common/utils.cpp:553-603 | every name of up to 15 letters comes back whole |
| SoulPlate.ShiftLeftClearing | src/common/utils.cpp:631-640 | the bit-by-bit shift that clears bit 7 between steps is one left shift kept to eight bits |
| SoulPlate.PackSoultrapperName | src/common/utils.cpp:607-655 | the 14 plate bytes are the shift-and-or layout of the name cut to 15 characters and then stripped of underscores, in order; nothing after them changes |
| SoulPlate.PlateNameIs | src/common/utils.cpp:612-617 | the cut to 15 comes first and underscores count toward it: without one among them the first 15 characters stay as they are, and one that is there is left out in its place with the rest around it in order |
| SoulPlate.StrippedJoin | src/common/utils.cpp:617-617 | stripping a concatenation concatenates the stripped parts, so order and repetition stay |
| SoulPlate.PlateIsSevenBitStream | src/common/utils.cpp:607-655 | for every name, read high bit first that layout is the plain concatenation of the characters' seven bits, zero-filled, except that a byte of 128 or more sets the lowest bit of the character before it |
| SoulPlate.UnpackSoultrapperName | src/common/utils.cpp:658-700 | the bit-serial reader returns the seven-bit characters of the plate up to the first outside '0' to 'z' |
| SoulPlate.PlateRoundTrip | src/common/utils.cpp:607-700 | for every name, unpacking the packed name gives the longest displayable prefix of the cut and stripped name as stored, which is the name itself when it is ASCII |
| SoulPlate.PlateSurvivesIff | src/common/utils.cpp:607-700 | for every name, nothing of the cut and stripped name is lost if and only if all of it is displayable |
| PacketCodec.PopulateJumpTable | src/common/zlib.cpp:114-141 | each word becomes the symbol it holds, the entry it addresses, or null; the table resolved from any file that spells a code tree, by addresses relative to its first word, represents that tree |
| PacketCodec.AddressResolves | src/common/zlib.cpp:120-127 | a word that holds the address of word k resolves to entry k, wherever the file was based and though addresses wrap at 32 bits |
| PacketCodec.SmallestFile | src/common/zlib.cpp:114-141 | such files exist: the words of a table for two symbols with codes 0 and 1, based at any address |
| PacketCodec.SpelledIsRepresented | src/common/zlib.cpp:114-141 | for every tree and every word a file spells it at, the resolved table represents it at the same place |
| PacketCodec.CodeWords | src/common/zlib.cpp:224-240 | the table words a byte's code and length come from: 128 and 384 on for bytes 0 to 127, 0 and 256 on for 128 to 255 |
| PacketCodec.Codec.BuildDecodeTable | src/common/zlib.cpp:157-179 | entry b of the lookup table is where a walk along b's eight bits, low first, reaches a leaf, or empty when it does not |
| PacketCodec.Codec.Compress | src/common/zlib.cpp:210-263 | if the codes fit, the bytes after the marker are exactly the concatenated codes, each from its byte's own table words, zero-filled to a byte, nothing past them changes and the result is their bits plus 8; if not, the first character without room is named, the buffer holds the whole bytes of the codes before it, and the result is -1, or the input's length and the fill over that when the input is as long as the buffer |
| PacketCodec.Codec.GiveUp | src/common/zlib.cpp:225-237 | every byte of the buffer after the three overlapping fills, or -1 and no change |
| PacketCodec.Codec.FlushBytes | src/common/zlib.cpp:247-252 | moving whole bytes out of the 64-bit accumulator loses no bit and writes no further than the bits reach |
| PacketCodec.Codec.FinishBytes | src/common/zlib.cpp:255-261 | the last bits fill one more byte from below, zeros above them, and the marker goes in front |
| PacketCodec.Codec.WalkMemory | src/common/zlib.cpp:306-316 | the walk through the jump table ends at the leaf, and after the bits, that the code tree gives for the memory's bits, at a position that fits 32 bits |
| PacketCodec.FastStep | src/common/zlib.cpp:291-303 | the eight-bit peek, whose missing next byte reads as zeros, resolves to the code the payload holds, or to one the payload cuts off |
| PacketCodec.SlowStep | src/common/zlib.cpp:304-317 | the tree walk over memory, also where it runs past the declared bits, does the same |
| PacketCodec.TurnIsWalk | src/common/zlib.cpp:289-318 | whichever path a turn of the loop takes, it takes the code the bit-at-a-time walk over the payload finds, and another only if that walk ends unfinished |
| PacketCodec.LoopDecodes | src/common/zlib.cpp:289-318 | from any bit on, the loop emits what the bit-at-a-time decoder does, then the one symbol whose code is cut off, if the peek or the memory finishes it |
| PacketCodec.StaysInsideIff | src/common/zlib.cpp:289-318 | the loop reads no memory past the input if and only if the payload alone fills the output, ends with a code, or ends inside one that the zero-filled peek or the memory finishes |
| PacketCodec.ShortMemory | src/common/zlib.cpp:289-318 | with a bit count past the end of memory, whatever is emitted before a read past it is the bit-at-a-time decoding of the memory |
| PacketCodec.Codec.Decompress | src/common/zlib.cpp:268-322 | the output is the first out_sz symbols of the loop, by table or by tree turn by turn, and nothing else of the buffer changes; -1 and no change for a wrong marker; the bit position never wraps |
| PacketCodec.RefinesBitDecoder | src/common/zlib.cpp:265-322 | for every bit stream and code tree the table-driven loop extends the bit-at-a-time decoding by at most one symbol, and equals it if and only if no code is cut off by the bit count or the one cut off cannot be finished |
| PacketCodec.EncodedDecodes | src/common/zlib.cpp:210-322 | the bit-at-a-time decoder inverts the concatenation of codes, for every message and every matching pair of tables |
| PacketCodec.RoundTrip | src/common/zlib.cpp:210-322 | decompressing with the return value less 8 as bit count gives back every compressed message, and for every output size reads no memory past it |
| PacketCodec.ReturnValueOvershoots | src/common/zlib.cpp:261-290 | decompressing with the return value itself gives the message, and more if and only if the single turn after the last code finishes a code without reading past the memory |
| Md5Block.FirstForm | src/common/md52.cpp:89-106 | the first round's bit form equals F of section 3.4 of RFC 1321 |
| Md5Block.SecondForm | src/common/md52.cpp:110-127 | the second round's bit form equals G of that section |
| Md5Block.RotatedDigit | src/common/md52.cpp:78-78 | rotation moves every digit up by the count, around the end |
| Md5Block.GetUint32Is | src/common/md52.cpp:25-31 | the merged word is four bytes of the block as a number, lowest first |
| Md5Block.Process | src/common/md52.cpp:52-177 | the 64 unrolled steps over registers exchanged by name equal the standard's 64 uniform operations on the block's words, added to the state |
| Md5.Context.Update | src/common/md52.cpp:181-222 | after any update the state, the buffered tail and the two-word length are those of the whole message so far, extended by the input |
| Md5.ChunkIndependence | src/common/md52.cpp:181-222 | absorbing a list of chunks one by one equals absorbing their concatenation at once |
| Md5.FoldResumes | src/common/md52.cpp:181-222 | the state and tail left by a message are all that absorbing more depends on |
| Md5.PaddedIsWhole | src/common/md52.cpp:226-247 | the padded message is a whole number of blocks with an empty tail, for every length |
| Md5.PaddedIs | src/common/md52.cpp:226-248 | the padded message is the message, a byte 0x80, zeros and, in the last eight bytes, lowest first, eight times its length modulo 2^64 |
| Md5.LengthWords | src/common/md52.cpp:238-242 | the two words assembled from the byte totals are the message's length in bits modulo 2^64, low byte first |
| Md5.Context.Finish | src/common/md52.cpp:230-254 | the digest is that of section 3 of RFC 1321 for everything absorbed, its bytes 0-3, 4-7, 8-11 and 12-15 being the final words a, b, c and d, lowest byte first, and the tail ends empty |
| Md5.Hash | src/common/md52.cpp:260-266 | the 16 bytes written are the digest of the first `size` bytes, spelling the four words in order, and nothing else changes |
| Blowfish.Unwinds | src/common/blowfish.cpp:295-358 | j reverse rounds undo the last j forward rounds, up to the masks of two subkeys, for any round function |
| Blowfish.DecipherInvertsEncipher | src/common/blowfish.cpp:295-358 | deciphering undoes enciphering for all subkeys, all boxes and all blocks |
| Blowfish.EncipherInvertsDecipher | src/common/blowfish.cpp:295-358 | enciphering undoes deciphering likewise |
| Blowfish.RoundFunction | src/common/blowfish.cpp:290-293 | in plain arithmetic, which box words each byte of the argument selects, the parity of two of them with 32 added, and the sum modulo 2^32 |
| Blowfish.EncipherScalar | src/common/blowfish.cpp:295-325 | the loop over exchanged halves computes sixteen rounds and the final whitening |
| Blowfish.DecipherScalar | src/common/blowfish.cpp:327-358 | the loop that takes subkeys from the end is enciphering under the reversed subkeys |
| Blowfish.EncipherBlocks | src/common/blowfish.cpp:409-450 | in place, each of the first `count` blocks becomes its own encipherment, by the interleaved chains and the 0 to 3 left over alike, and every word after them is unchanged |
| Blowfish.DecipherBlocks | src/common/blowfish.cpp:364-405 | the same for deciphering |
| Blowfish.BlocksRoundTrip | src/common/blowfish.cpp:364-450 | deciphering an enciphered buffer restores every word |
| Blowfish.InitTables | src/common/blowfish.cpp:452-505 | the in-place initialisation leaves in P and S the schedule's 521 steps from the constant table mixed with the cyclic, sign-extended key |
| Blowfish.KeyWordIs | src/common/blowfish.cpp:467-477 | in plain arithmetic, each cyclic key byte goes below those before it, and a negative one sets every digit above its own |
| Blowfish.TableWordIs | src/common/blowfish.cpp:462-463 | each table word is four of the constant bytes as a number, lowest first |
| Blowfish.ScheduleChains | src/common/blowfish.cpp:478-502 | each of the 521 steps writes one pair of words alone, subkeys first: the encipherment of the pair before it, of zeros at first, under the tables so far |
| RingBuffer.PowerOfTwoTest | src/common/circular_buffer.h:78-87 | the constructor's test accepts exactly the powers of two |
| RingBuffer.MaskIsRemainder | src/common/circular_buffer.h:111-115 | wrapping by the mask is the remainder by the capacity |
| RingBuffer.CircularBuffer.Create | src/common/circular_buffer.h:77-87 | an empty ring for a power of two, the exception for anything else |
| RingBuffer.CircularBuffer.CommitUnlocked | src/common/circular_buffer.h:117-127 | head, tail and full flag again describe everything written, one item more, past a full ring too |
| RingBuffer.CircularBuffer.Enqueue | src/common/circular_buffer.h:129-145 | the item follows everything written before |
| RingBuffer.CircularBuffer.Emplace | src/common/circular_buffer.h:147-155 | what the writer makes of the reused slot follows everything written before |
| RingBuffer.CircularBuffer.Snapshot | src/common/circular_buffer.h:157-178 | the last min(n, capacity) of the n items written, oldest first, including the full ring where head equals tail |
| RingBuffer.CircularBuffer.Size | src/common/circular_buffer.h:95-109 | the length of that snapshot |
| RingBuffer.CircularBuffer.IsFull | src/common/circular_buffer.h:188-194 | true exactly when at least `capacity` items were written |
| Backtrace.Log.PushTraceEntry | src/common/logging.cpp:61-71 | the history grows by the trace with the next sequence number, in the trace ring alone |
| Backtrace.Log.PushEventEntry | src/common/logging.cpp:264-267 | the same for events |
| Backtrace.Log.GetBacktrace | src/common/logging.cpp:279-298 | the formatted history, in order, reduced to its last 64 events and last 512 traces |
| Backtrace.FormatIs | src/common/logging.cpp:294-294 | a line is file, colon, line number, colon and space, message |
| Backtrace.MergeIsHistory | src/common/logging.cpp:279-289 | any sorting by sequence of the two rings' contents is that reduced history |
| Backtrace.NoEvictionAcrossRings | src/common/logging.cpp:52-54 | each kind keeps its own last entries however many pushes of the other there are |
| Backtrace.RunKeepsConsistent | src/common/logging.cpp:61-71 | in every interleaving of pushes, each drawing its number under its ring's lock, each ring with its push in flight is its part of the history |
| Backtrace.RingsAlwaysIncrease | src/common/logging.cpp:56-71 | in every reachable state each ring is strictly increasing in sequence |
| Backtrace.QuietReadIsHistory | src/common/logging.cpp:279-298 | once no push is in flight, however they interleaved, the merged read is the reduced history |
| Backtrace.RacingReadIsOrdered | src/common/logging.cpp:279-298 | a read that races with pushes still returns entries of the history in its order, without repetition |
| Backtrace.RacingReadContains | src/common/logging.cpp:279-284 | a racing read returns exactly the events committed as it took the events and the traces committed as it took the traces, each unless a ring's capacity of later ones of its kind had overwritten it |
| Backtrace.CommittedStays | src/common/logging.cpp:61-71 | in every run each ring's committed entries stay in front of all later ones |
| JsonLog.AppendEscape | src/common/logging_json.cpp:63-91 | the switch over one character appends the two-character escape of section 7 of RFC 8259 where there is one, six characters for other controls, and else the character |
| JsonLog.AppendEscaped | src/common/logging_json.cpp:56-96 | the escaped text, and nothing else, is appended |
| JsonLog.AppendFields | src/common/logging_json.cpp:104-117 | the rendered fields, commas between them and only there, are appended for every nesting |
| JsonLog.AppendFieldValue | src/common/logging_json.cpp:119-141 | a value of each kind, doubles included, is appended as rendered |
| JsonLog.EscapedIsClean | src/common/logging_json.cpp:56-96 | no control byte survives in a printed string, and every quote in it is preceded by an odd number of backslashes |
| JsonLog.ReadEscaped | src/common/logging_json.cpp:56-96 | a reader by the codes of section 7 of RFC 8259 recovers every byte string from its printed form and stops at its closing quote |
| JsonLog.ValueReadsBack | src/common/logging_json.cpp:119-141 | every printed value whose doubles are finite, nested to any depth, reads back as the value, whatever follows it |
| JsonLog.ReadFinite | src/common/logging_json.cpp:134-137 | a finite double in any of its printed forms, with or without fraction and exponent, reads back as its decimal |
| JsonLog.ValueFails | src/common/logging_json.cpp:119-141 | a printed value with an infinite double or not-a-number anywhere inside is not JSON, whatever follows it |
| JsonLog.NotFiniteTexts | src/common/logging_json.cpp:134-137 | the texts of infinity and not-a-number, byte by byte |
| JsonLog.FieldListReadsBack | src/common/logging_json.cpp:104-141 | a printed field list is JSON if and only if its doubles are finite, and then reads back as that list, keys and order included |
| JsonLine.RenderJsonLine | src/common/logging_json.cpp:145-172 | the format string's pieces, the comma and the context together are one rendered field list between braces |
| JsonLine.FixedKeys | src/common/logging_json.cpp:152-155 | the fixed keys, byte by byte |
| JsonLine.LineReadsBack | src/common/logging_json.cpp:145-172 | a log line is JSON if and only if the doubles in its context are finite, and then reads back as one object: time, level, source and message, then the context's fields in order |
| Otp.Base32Decode | src/login/otp_helpers.h:38-86 | the first 5n/8 whole bytes of the n values' bits, high bit first, though the accumulator is never masked and wraps at 32 bits; an invalid character anywhere is an error |
| Otp.LookupIs | src/login/otp_helpers.h:40-74 | the table after upper-casing gives the values of section 6 of RFC 4648, and the skipped characters are = space - and _ |
| Otp.EncodeCounter | src/login/otp_helpers.h:88-98 | the eight counter bytes are the counter's 64 digits, high bit first |
| Otp.BinaryCodeIsTruncation | src/login/otp_helpers.h:103-107 | the shifts and masks compute the dynamic truncation of section 5.3 of RFC 4226 for every digest |
| Otp.GenerateTOTP | src/login/otp_helpers.h:88-114 | the zero-filled truncation modulo 10^6 of the keyed hash of the time step, cut to nine characters; an invalid secret is an error |
| Otp.MeetsStandardIff | src/login/otp_helpers.h:88-114 | the printed code is the standard's password for every digest if and only if six digits are asked for |
| LoginLockout.LoginFailures.IsLoginLockedOut | src/login/login_helpers.cpp:348-363 | whether the address is at the limit within the window; an entry past the window is dropped |
| LoginLockout.LoginFailures.RecordLoginFailure | src/login/login_helpers.cpp:365-375 | one more failure, counted afresh after the window, in eight bits, stamped with the later clock reading |
| LoginLockout.LoginFailures.LoginAttempt | src/login/auth_session.cpp:191-335 | check, then record or clear or neither, for each outcome |
| LoginLockout.RunTells | src/login/login_helpers.cpp:341-380 | at every moment of every run an address' entry is the length and last stamp of the streak of failures in its history, and that streak never exceeds five |
| LoginLockout.StreakRunsTogether | src/login/login_helpers.cpp:365-375 | the streak is at least m exactly when the last m events are failures each within 60 seconds of the one before |
| LoginLockout.CountWithinLimit | src/login/login_helpers.cpp:365-375 | over every run the count stays between 1 and 5, so its eight bits never wrap |
| LoginLockout.RefusedIff | src/login/login_helpers.cpp:348-363 | after every run an attempt is refused if and only if the address' last five events are failures, each weighed at most 60 seconds after the one before it, and at most 60 seconds passed since the last was recorded |
| LoginLockout.ReadmittedAfterWindow | src/login/login_helpers.cpp:355-359 | an address is let in again once more than 60 seconds passed since its last recorded failure, refused attempts notwithstanding |
| LoginLockout.FiveInAWindow | src/login/login_helpers.cpp:341-380 | over every run, any span of 60 seconds without a successful login holds at most five recorded failures of an address |
| LoginLockout.OthersDoNotMatter | src/login/login_helpers.cpp:344-380 | an address' entry and history depend on its own attempts alone |
| SettingsCache.Store.Set | src/common/settings.h:199-206 | the key has the new value, no other key changes, the generation is one higher |
| SettingsCache.SetThenRead | src/common/settings.h:74-165 | a key set reads as the conversion of its value, other keys read as before, an unknown key as the default |
| SettingsCache.ReadCache.Get | src/common/settings.h:167-191 | a hit under the current generation answers from the cache, anything else reads and keeps; from a coherent cache the answer is the uncached one and the cache stays coherent |
| SettingsCache.StepKeepsInv | src/common/settings.h:167-206 | every atomic step of any reader or writer keeps each cached and each fetched value one the setting had since its tag's generation began |
| SettingsCache.CurrentWhenQuiet | src/common/settings.h:173-185 | in every interleaving, with no writer between its write and its bump, every entry tagged with the current generation equals the uncached read |
| SettingsCache.GetSeesFinishedUpdates | src/common/settings.h:167-206 | in every interleaving a get answers with a value the setting had since the generation it loaded began, so no finished update is missed; with no update under way as it began, with one it had during the get |
| SettingsCache.QuietGetIsUncached | src/common/settings.h:167-206 | a get with no update under way or made meanwhile equals the uncached read |
| SettingsCache.StaleUntilBump | src/common/settings.h:167-206 | in every run, from a moment when a setting is cached and no update is under way until the next bump of the generation, through any writes and any other thread's steps, the cached value and every get of it equal the uncached read if and only if the store reads the setting as it did at that moment |
| SettingsCache.PinnedUntilBump | src/common/settings.h:173-185 | in every run, until a bump, a value cached under the current generation stays and every get of its key answers it, whatever is pending |
| SettingsCache.StaleRun | src/common/settings.h:199-206 | for every change of a setting there is a run in which a get that begins after the write still answers the value before it |
| VanaTime.MonthdayIs | src/common/vana_time.h:116-123 | the month day of every instant at which the code does not divide by zero, with the instants where it is not the calendar's; before the epoch, 0 at a month's first instant and the day total in 32 bits otherwise |
| VanaTime.MonthIs | src/common/vana_time.h:125-132 | the same for the month |
| VanaTime.HourIs | src/common/vana_time.h:107-114 | the hour at every instant at which the code does not divide by zero: the hour of the day and, before the epoch, only in a day's first hour, the hour total in 32 bits otherwise |
| VanaTime.WeekdayIs | src/common/vana_time.h:142-149 | the same for the weekday of the eight-day week |
| VanaTime.YeardayIs | src/common/vana_time.h:151-158 | the same for the day, from 0, of the 360-day year |
| VanaTime.RecomposesIff | src/common/vana_time.h:90-140 | at every instant at which no field divides by zero, before the epoch too, the six fields recombine in mixed radix to the second count if and only if the instant is past the first year, not a day's first and not inside the twelfth month of year 1 |
| VanaTime.EarthRoundTrip | src/common/vana_time.h:65-75 | every Vana'diel instant that the 64-bit nanosecond earth clock can hold survives conversion to it and back |
| VanaTime.OnEarthClockIff | src/common/vana_time.h:65-69 | conversion to the earth clock stays within 64 bits exactly between these two millisecond counts |
| VanaTime.VanadielRoundTrip | src/common/vana_time.h:65-75 | an earth instant comes back cut to a 25000th of a second toward the epoch, and unchanged if and only if it lies on one |

## Left out

- PacketCodec.Codec.Compress: a buffer too short for the fill of the out-of-space branch is excluded, since the original writes past it there.
- PacketCodec.Codec.GiveUp: empty buffers, buffers of more than 2^29 - 3 bytes, whose size in bits wraps in the original, and results (eight more than the bits written, or the length of the input) of 2^31 and more, which it cannot return, are excluded from compression.
- PacketCodec.Codec.Decompress: an input past whose end the original would read before the output is full is excluded, and so are bit counts less than 8 or than the longest code below 2^32, where the original's byte count or bit position can wrap.
- PacketCodec.Codec.BuildDecodeTable: the code tables' own contents (res/compress.dat, res/decompress.dat) are not part of this model; that the word file spells a finite code tree is assumed of it.
- BitPacking.PackBitsBE: fields that span more than 64 bits from their first byte, which the original does not reject here, and negative offsets are excluded.
- NameCodecs.DecodeStringSignature: strings shorter than 11 bytes, which the original reads past, are excluded.
- Md5.Hash: negative sizes are excluded.
- Md5Block.Process: the sine constants are taken over as constants; where they come from is not modelled.
- Blowfish.InitTables: the 4168 constant bytes are a parameter.
- Blowfish.Unwinds: nothing is said about cryptographic strength; the round function masks its boxes in a way the standard cipher does not, and is modelled as it is.
- JsonLog.ValueReadsBack: which decimal the formatting library gives for a double is not modelled, only the form of its text; the reader takes no white space and reads escapes by code for ASCII only, which is all that is printed; bytes of 128 and above pass through unread as text.
- JsonLine.RenderJsonLine: the time stamp's text is a parameter free of characters that need escapes.
- Otp.GenerateTOTP: the keyed hash is an uninterpreted function; negative `digits` and `period` are excluded.
- Backtrace.Log.GetBacktrace: std::sort is stood in for by an insertion sort; MergeIsHistory holds for any sorting. The 64-bit sequence number does not wrap.
- Backtrace.RacingReadContains: mutexes and atomics are atomic steps, and each ring is snapshotted in one; memory orders are not modelled.
- LoginLockout.LoginFailures.LoginAttempt: password, account status and one-time-password checks are the attempt's given outcome; attempts are handled one after the other, and clock readings do not overflow.
- SettingsCache.ReadCache.Get: conversions between the stored types and the requested one are a parameter; an exception between tagging an entry and refreshing it is not modelled.
- SettingsCache.StepKeepsInv: a read or write of the map is one atomic step, and the 64-bit generation does not wrap.
- VanaTime.RecomposesIff: instants of the first year are excluded, since the original divides by zero there.
- VanaTime.EarthRoundTrip: the earth clock is taken to count nanoseconds; instants more than 292 years before the epoch or 260 after it overflow it and are excluded.
- Big-endian hosts: the branches for them are not modelled.
- Sockets, message queues, database and Lua access, file watching, consoles and crash handlers: input and output over libraries not part of this model.
- SHA-1, HMAC, bcrypt and random numbers: foreign calls.
- Moon phase, local time, distances and damage formulas: floating point or platform-dependent.
- Guild points, day elements, transport and further calendar lookups on top of the modelled accessors: tables that would only add easy members.
