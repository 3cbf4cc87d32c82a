# dybase and QuickJS helpers in Dafny

This project models two groups of C and C++ code and proves properties of the
models.

**dybase** is an embedded object store. The model covers:

- the B-tree index (`btree.cpp`, `btree.h`). Pages are sorted runs of
  (key, oid) items, and the insert, remove and find paths are specified by the
  logical key order of the scalar key types. The iterator walks the tree over
  an explicit stack of (page, position) frames.
- the self-describing field encoding of object records (`database.h`,
  `database.cpp`):
  - the tag byte with the type in its low nibble;
  - short lengths in the high nibble and long ones as a 4-byte integer;
  - encoding and decoding of one element;
  - the store and load cursors over a record;
  - the header check and the class signature size.
- the handle hash table (`hashtab.h`) with its chains, its remove and its
  `each` walk.
- the growable byte buffers (`buffer.h`).
- the object-id layer of the database (`database.cpp`). This is the handle
  index with its free list, the allocation bitmap, allocate, free, and the
  early part of commit.
- the page pool (`pagepool.cpp`, `pagepool.h`), a class over fixed arrays:
  - the hash table of cached pages;
  - the free-frame list and the LRU list;
  - the dirty-page queue;
  - find, unfix, modify, put, get, copy and a flush that writes every dirty
    page in ascending file offset.

  The database file is a map from page address to page contents. Every write
  is also recorded in a sequence, so its order can be stated.
- the portable-type macros of `stdtp.h`: `DOALIGN` and the split and join of 64-bit values into 32-bit halves (`cons_nat8`, `cons_int8`).

**QuickJS helpers** covers:

- the integer helpers of `cutils.h`:
  - min/max and clz;
  - the unaligned 32-bit loads and stores;
  - byte swaps;
  - UTF-16 surrogate split and join;
  - hex digits;
- the integer paths of `dtoa.c`. These are the limb arithmetic of the big
  number buffer, the integer-to-text conversions in any radix, and the
  power-of-two radix logarithm. No floating point is modelled.
- the front end of `libregexp.c`:
  - the digit, hex and octal escape parsers;
  - the modifier parser;
  - the capture-name search;
  - the hashed string set behind class ranges;
  - the simple-quantifier test and the backtracking stack-size computation
    over the compiled opcodes;
  - the line-terminator and word-character predicates.
- `jscompress.c`: the LZ match finder and compressor, the token
  compatibility test, hex digits, the token buffer and the skip mask of the
  preprocessor directives;
- `qjsc.c`: the module name list, the generated C identifier and its unique
  variant, and the `-f`/`-fno-` feature bitmap.

Reads and writes of files, callbacks and the allocator are not executed
effects in the model:

- the pool's file is a `map` plus a write log;
- callbacks are function parameters;
- a freshly allocated block is a new Dafny array or a parameter.

## Model

| member | source | states |
|---|---|---|
| CUtils.MaxInt | cutils.h:80-86 | the result is one of the two and at least both |
| CUtils.MinInt | cutils.h:88-94 | the result is one of the two and at most both |
| CUtils.Clz32 | cutils.h:128-132 | for a non-zero 32-bit value, r leading zeros: 2^(31-r) <= a < 2^(32-r) |
| CUtils.Clz64 | cutils.h:134-138 | for a non-zero 64-bit value, r leading zeros: 2^(63-r) <= a < 2^(64-r) |
| CUtils.GetU32 | cutils.h:179-182 | the value whose four little-endian bytes are the four bytes at off |
| CUtils.GetU32Bytes | cutils.h:179-182 | four bytes read little-endian form a 32-bit value whose bytes they are |
| CUtils.GetPutU32 | cutils.h:179-192 | reading back the bytes a value is stored as gives the value |
| CUtils.PutU32 | cutils.h:189-192 | the four bytes at off become the value's bytes, nothing else changes, and get_u32 there reads it back |
| CUtils.BSwap16 | cutils.h:225-228 | the two bytes trade places |
| CUtils.BSwap32 | cutils.h:232-236 | byte k of the result is byte 3 - k of the input |
| CUtils.BSwap64 | cutils.h:240-250 | byte k of the result is byte 7 - k of the input |
| CUtils.BSwapInvolutions | cutils.h:225-250 | swapping twice gives the value back, at each width |
| CUtils.SurrogateRanges | cutils.h:301-314 | the shift tests hold exactly on 0xD800-0xDFFF, 0xD800-0xDBFF and 0xDC00-0xDFFF |
| CUtils.LoSurrogateValue | cutils.h:321-324 | the or of the low ten bits with 0xDC00 is 0xDC00 plus those bits |
| CUtils.SurrogateSplitJoin | cutils.h:316-329 | a supplementary code point splits into a high and a low surrogate that join back into it |
| CUtils.SurrogateJoinSplit | cutils.h:316-329 | a high and a low surrogate join into a supplementary code point that splits back into them |
| CUtils.FromHex | cutils.h:331-341 | the digit value of a hex character of either case, -1 for anything else |
| StdTp.DoAlignRoundsUp | storage/dybase/src/stdtp.h:76 | for a power-of-two boundary and no wrap-around, DOALIGN gives the least multiple of the boundary not below x |
| StdTp.DoAlignValue | storage/dybase/src/stdtp.h:76 | DOALIGN equals x + b - 1 rounded down to a multiple of b |
| StdTp.DoAlignMask | storage/dybase/src/stdtp.h:76 | the word-width-w DOALIGN is the mask of x + b - 1 with the complement of b - 1 |
| StdTp.ConsNat8 | storage/dybase/src/stdtp.h:135 | cons_nat8's high 32 bits are hi and its low 32 bits are lo |
| StdTp.Nat8RoundTrip | storage/dybase/src/stdtp.h:135 | joining the two halves of any 64-bit unsigned value gives it back |
| StdTp.ConsInt8 | storage/dybase/src/stdtp.h:136 | cons_int8's signed high half is hi and its low half is lo, on 64-bit two's complement |
| StdTp.ConsInt8Value | storage/dybase/src/stdtp.h:136 | the shifted-and-or pattern is the two's complement of hi * 2^32 + the unsigned low half |
| StdTp.Int8RoundTrip | storage/dybase/src/stdtp.h:136 | joining the two signed halves of any 64-bit signed value gives it back |
| Buffer.GrownSize | storage/dybase/src/buffer.h:29 | the grown size is the larger of the need and twice the old allocation, and is one of the two |
| Buffer.CapacityAfter | storage/dybase/src/buffer.h:28-37 | the capacity after append covers the need, never shrinks, and is unchanged when the need fits |
| Buffer.Regrow | storage/dybase/src/buffer.h:30-33 | a fresh array of the new size whose first used elements are the old ones |
| Buffer.SmallBuffer.constructor | storage/dybase/src/buffer.h:13-17 | the buffer starts empty on its inline storage of initSize elements |
| Buffer.SmallBuffer.Append | storage/dybase/src/buffer.h:27-41 | returns the old count, grows the count by n, keeps the old contents, reallocates exactly when n more do not fit |
| Buffer.Buffer.constructor | storage/dybase/src/buffer.h:51-55 | the buffer starts with no storage and no elements |
| Buffer.Buffer.Grab | storage/dybase/src/buffer.h:61-65 | hands out the storage and forgets it, leaving the counts |
| Buffer.Buffer.Append | storage/dybase/src/buffer.h:71-85 | returns the old count, grows the count by n, keeps the old contents, reallocates exactly when n more do not fit |
| Buffer.Buffer.Add | storage/dybase/src/buffer.h:69 | the contents become the old contents followed by the value |
| HashTab.HashStep | storage/dybase/src/hashtab.h:26 | one step of the hash is (h << 2) ^ byte in 32 bits: its low two bits are those of the byte |
| HashTab.HashFromSnoc | storage/dybase/src/hashtab.h:25-27 | hashing one more byte is one more step on the hash so far |
| HashTab.CalculateHashCode | storage/dybase/src/hashtab.h:21-29 | the loop returns the hash of the whole key as the left-to-right fold defines it |
| HashTab.LeadingZeroHash | storage/dybase/src/hashtab.h:21-29 | a leading zero byte leaves the hash unchanged, so keys of different length can share it |
| HashTab.Bucket | storage/dybase/src/hashtab.h:47 | the bucket of a hash is below the table size 1013 |
| HashTab.MatchIndex | storage/dybase/src/hashtab.h:55-59 | the first entry of the chain whose hash, size and bytes match the key, or -1 when none does |
| HashTab.Without | storage/dybase/src/hashtab.h:70 | unlinking entry i leaves the chain one shorter with every other entry in order |
| HashTab.FindInPrepend | storage/dybase/src/hashtab.h:48-49 | a lookup in a chain with an entry in front finds that entry if it matches, otherwise looks at the rest |
| HashTab.RemoveUndoesPut | storage/dybase/src/hashtab.h:40-75 | removing the key just put unlinks the entry put and leaves the old chain |
| HashTab.ChainVisits | storage/dybase/src/hashtab.h:91-95 | the entries of one chain that each visits: a prefix of the chain, stopping right after the first callback that returns non-zero |
| HashTab.EachContinuesAfterStop | storage/dybase/src/hashtab.h:6 | a callback that returns non-zero on the first entry visited does not stop each: the next bucket is still visited |
| HashTab.RemoveIndexAsWritten | storage/dybase/src/hashtab.h:68-69 | remove's match test as written: the first entry with the same hash whose first keySize bytes equal the key, whatever its size |
| HashTab.RemoveIgnoresKeySize | storage/dybase/src/hashtab.h:69 | with an entry for the key [0, 0], removing the key [0] finds and unlinks it though get finds no such key |
| HashTab.PlacedPrepend | storage/dybase/src/hashtab.h:47-49 | putting an entry at the head of its bucket keeps every entry in the bucket of its hash |
| HashTab.PlacedWithout | storage/dybase/src/hashtab.h:70 | unlinking an entry keeps every entry in the bucket of its hash |
| HashTab.HashTable.constructor | storage/dybase/src/hashtab.h:35-38 | a fresh table of 1013 empty buckets |
| HashTab.HashTable.Put | storage/dybase/src/hashtab.h:40-50 | the new entry heads its bucket, no other bucket changes, the key now maps to the value and every other key as before |
| HashTab.HashTable.Get | storage/dybase/src/hashtab.h:52-62 | the value of the first matching entry of the key's bucket, or None |
| HashTab.HashTable.Remove | storage/dybase/src/hashtab.h:64-75 | returns what get would have returned and unlinks exactly that entry; no other bucket changes |
| HashTab.HashTable.Clear | storage/dybase/src/hashtab.h:77-86 | every bucket empty and no key found |
| HashTab.HashTable.EachAsWritten | storage/dybase/src/hashtab.h:88-97 | each as written: buckets from the last down, each chain walked until its callback returns non-zero, then the next bucket |
| HashTab.HashTable.Each | storage/dybase/src/hashtab.h:6 | each as its declaration promises: a prefix of all entries, buckets from the last down, ending right after the first non-zero callback |
| MpLimbs.ValueSplit | dtoa.c:68 | the number of a limb sequence is the number of its low k limbs plus 2^(32k) times that of the rest |
| MpLimbs.TopDifferenceDecides | dtoa.c:407-414 | of two equally long limb sequences equal above limb k, the one smaller at limb k is the smaller number |
| MpLimbs.MpAddUi | dtoa.c:75-89 | the limbs plus the returned carry times 2^(32n) are the old limbs plus b; the carry is 0 or 1 and the limbs past n are untouched |
| MpLimbs.MpMul1 | dtoa.c:91-104 | tabr plus the returned high carry times 2^(32n) is taba times b plus l; the limbs past n are untouched |
| MpLimbs.MpDiv1 | dtoa.c:136-149 | for a remainder r below b, taba plus r times 2^(32n) is tabr times b plus the returned remainder, which is below b |
| MpLimbs.Mpb.Renorm | dtoa.c:214-218 | the top zero limbs go, down to one limb, and the number is unchanged |
| MpLimbs.Mpb.SetU64 | dtoa.c:419-432 | the number becomes m, in one limb when m fits in 32 bits and in two otherwise, normalized |
| MpLimbs.Mpb.GetU64 | dtoa.c:434-446 | for one or two limbs, the number they represent |
| MpLimbs.ShorterIsSmaller | dtoa.c:404-407 | of two normalized numbers, the one with fewer limbs is the smaller |
| MpLimbs.MpbCmp | dtoa.c:400-417 | the shorter operand is smaller; with equal lengths, or both normalized, the sign of a - b |
| MpLimbs.CmpLimbs | dtoa.c:408-416 | the sign of the difference of the two n-limb numbers |
| DtoaInt.PowUi | dtoa.c:241-269 | a^b reduced modulo 2^64, on every path: b of 0 or 1, the power-of-5 and power-of-10 tables, square-and-multiply |
| DtoaInt.SquareMultiply | dtoa.c:261-268 | the left-to-right square-and-multiply loop over the bits of b yields a^b modulo 2^64 |
| DtoaInt.Pow5FromTable | dtoa.c:250-254 | the table entry, joined with its high byte from b = 14 on, is exactly 5^b |
| DtoaInt.Pow5Joined | dtoa.c:221-231 | for b = 14 .. 17 the low word or'ed with the high byte shifted by 32 is 5^b, below 2^64 |
| DtoaInt.Pow10Fits | dtoa.c:255-256 | 10^b = 5^b * 2^b, which fits in 64 bits for b <= 17, so the shift does not wrap |
| DtoaInt.MulLog2Radix | dtoa.c:474-483 | for a power-of-two radix 2^k, the biased truncating division yields floor(a / k) |
| DtoaInt.BiasedDivIsFloor | dtoa.c:480-482 | biasing a negative a by k - 1 before C's truncating division rounds toward minus infinity |
| IntText.ToDigit | dtoa.c:1320-1330 | 0-9 for decimal digits, 10-35 for letters of either case, exactly 36 for anything that is not a letter or digit |
| IntText.ParseDigitsInverse | dtoa.c:590-700 | the digits written for n in any radix 2 to 36 read back as n |
| IntText.DigitRoundTrip | dtoa.c:553-556 | to_digit of the character written for digit d is d |
| IntText.DigitsNoLeadingZero | dtoa.c:590-603 | the digits of a positive number have no leading zero |
| IntText.DigitsBounds | dtoa.c:590-603 | k digits are written for n exactly when radix^(k-1) <= n < radix^k (a single digit for 0) |
| IntText.DigitsIsPadded | dtoa.c:532-540 | the digits of n are its zero-padded digits at their own length |
| IntText.DigitsSplit | dtoa.c:628-640 | the digits of hi * radix^len + lo are those of hi followed by lo padded to len |
| IntText.U32ToaLen | dtoa.c:532-540 | buf[off .. off + len] gets the low len decimal digits of n, zero-padded; the rest of buf is unchanged |
| IntText.U64ToaBinLen | dtoa.c:542-558 | buf[off .. off + len] gets the low len digits of n in radix 2^radixBits; the rest of buf is unchanged |
| IntText.DigitsBackward | dtoa.c:594-598 | the digits of n end up at the end of the scratch buffer, starting at q |
| IntText.U32Toa | dtoa.c:590-603 | writes the decimal digits of n without leading zeros ("0" for 0) at off and returns their count; nothing else changes |
| IntText.I32Toa | dtoa.c:605-613 | writes '-' before the digits of the magnitude for negative n, INT32_MIN included, and returns the count |
| IntText.U64Toa | dtoa.c:615-645 | writes the decimal digits of n, through the nine-digit groups of the fast path, and returns their count |
| IntText.UpperGroups | dtoa.c:625-640 | the part above the last nine digits is written as its own decimal digits, one or two leading digits and a group of nine when it is 2^32 or more |
| IntText.U64ToaRadix | dtoa.c:657-689 | writes the digits of n in radix 2 to 36 from 0-9a-z without leading zeros and returns their count |
| IntText.BinaryDigitCount | dtoa.c:661-667 | for a power-of-two radix, ceil(bit length / radix bits) digits are exactly the digits of n |
| IntText.GeneralRadix | dtoa.c:671-687 | the do-while over a 41-byte scratch buffer writes the digits of n in a radix that is not a power of two |
| Codec.Int32RoundTrip | storage/dybase/src/database.h:323-324 | the four bytes memcpy stores an int as read back as that int |
| Codec.ShortLengthRange | storage/dybase/src/database.h:420 | the unsigned test (length - 1) < 15 holds exactly for lengths 1 to 15 |
| Codec.ShortTag | storage/dybase/src/database.h:421 | the packed tag holds the type in its low nibble and the length in its high one |
| Codec.Nibble | storage/dybase/src/database.h:297 | type & 0xF is the tag modulo 16 |
| Codec.LengthHeader | storage/dybase/src/database.h:420-425 | the length goes into one tag byte for lengths 1 to 15 and into a tag and four bytes otherwise |
| Codec.Encode | storage/dybase/src/database.h:397-456 | a scalar is its type byte and its value's bytes; a string or byte vector its length header and payload; an array or map its length header alone |
| Codec.ScalarSizes | storage/dybase/src/database.h:399-418 | references and ints take 5 bytes, bools 2, dates, longs and reals 9 |
| Codec.StoreHandle.constructor | storage/dybase/src/database.h:385-390 | the body starts with the 8 bytes of the object header and the signature with the class name and its NUL |
| Codec.StoreHandle.SetElement | storage/dybase/src/database.h:397-456 | the body grows by exactly the element's encoding; the signature is unchanged |
| Codec.StoreHandle.SetScalar | storage/dybase/src/database.h:399-418 | the body grows by the type byte and the value's bytes |
| Codec.StoreHandle.SetLength | storage/dybase/src/database.h:420-425 | the body grows by the length header |
| Codec.StoreHandle.SetFieldValue | storage/dybase/src/database.h:392-395 | the field name and its NUL join the signature and the element's encoding joins the body |
| Codec.DecodeAt | storage/dybase/src/database.h:293-366 | one step of hasNext: a decoded element with an 8-byte union and a cursor inside the record, or None when a read would leave it |
| Codec.DecodeEncode | storage/dybase/src/database.h:293-366 | decoding what setElement wrote, amid any bytes, gives back the type, the value or the length and payload, and moves the cursor past exactly that element |
| Codec.DecodeScalar | storage/dybase/src/database.h:298-314 | a scalar decodes to its type and value bytes, kept in the union |
| Codec.DecodeString | storage/dybase/src/database.h:315-343 | a string or byte vector decodes to its length and a pointer to its payload in the record |
| Codec.DecodeHeader | storage/dybase/src/database.h:344-363 | an array or map header decodes to its length |
| Codec.LoadHandle.constructor | storage/dybase/src/database.h:281 | a handle over the record bytes, no field seen yet |
| Codec.LoadHandle.HasNext | storage/dybase/src/database.h:293-366 | false exactly at the end, leaving the handle as it was; otherwise the handle holds the decoded element and the cursor is past it; the handle stays valid, so the walk over a record can go on |
| Codec.LoadHandle.HasNextField | storage/dybase/src/database.h:287-291 | hasNext's outcome and new state, with the field count one higher exactly when an element was read; the handle stays valid |
| Codec.IsInitializedMeans | storage/dybase/src/database.h:177-186 | isInitialized holds exactly for an initialized header with dirty and curr each 0 or 1 whose current root has a sound size, index and bitmap |
| Codec.SignatureSizeOfCreated | storage/dybase/src/database.h:200-221 | getSignatureSize of a created class is the length of its signature |
| Codec.LongLength | storage/dybase/src/database.h:323-324 | the four length bytes after a long-form tag read back as the length |
| Codec.ShortLength | storage/dybase/src/database.h:316-318 | a short-form tag differs from the bare type, keeps the type in its low nibble and the length in its high one |
| Codec.DecodeStringShort | storage/dybase/src/database.h:316-321 | a short string or byte vector decodes to its length from the tag and a pointer just past the tag at its payload |
| Codec.DecodeStringLong | storage/dybase/src/database.h:322-327 | a long string or byte vector decodes to its length from the four bytes and a pointer past them at its payload |
| Codec.DecodeHeaderShort | storage/dybase/src/database.h:345-349 | a short array or map header decodes to its length from the tag, the cursor one byte on |
| Codec.DecodeHeaderLong | storage/dybase/src/database.h:350-352 | a long array or map header decodes to its length from the four bytes, the cursor five bytes on |
| Codec.LoadHandle.LoadFixed | storage/dybase/src/database.h:298-314 | the scalar cases copy the value's bytes into the union and move past them, as the step function decodes them |
| Codec.LoadHandle.LoadPayload | storage/dybase/src/database.h:315-343 | the string and byte-vector cases set the length and the payload pointer and move past the payload, as the step function decodes them |
| Codec.LoadHandle.LoadCount | storage/dybase/src/database.h:344-363 | the array and map cases set the length alone, as the step function decodes them |
| Database.FreeHandle | storage/dybase/src/database.cpp:1191-1192 | the handle word of a freed id carries the free flag in its three flag bits and the old list head above them |
| Database.FreeHandleFacts | storage/dybase/src/database.cpp:1191-1192 | the shifted head or'ed with the flag is the head, taken modulo 2^29, times 8 plus 4, below 2^32 |
| Database.NextFree | storage/dybase/src/database.cpp:1162 | the next free id read back from a handle word is the word shifted right past the flag bits, so at most the word |
| Database.OverlapMeansIntersect | storage/dybase/src/database.cpp:530 | for non-empty ranges that do not wrap, wasReserved's unsigned test is exactly interval intersection |
| Database.BitCount | storage/dybase/src/database.cpp:924 | the number of 32-byte quanta, computed in 32 bits, is below 2^27 |
| Database.BitCountRoundsUp | storage/dybase/src/database.cpp:924 | away from the 32-bit wrap, the quanta cover the size and one fewer would not |
| Database.ClearedBits | storage/dybase/src/database.cpp:944-961 | clearing the bit run [lo, hi) turns off exactly those bits and keeps every other bit |
| Database.ZeroBytes | storage/dybase/src/database.cpp:949 | memset sets the bytes of the range to zero and leaves every other byte |
| Database.ClearBitmapRun | storage/dybase/src/database.cpp:942-961 | the bitmap becomes the old one with exactly the bits of the run cleared, and every bitmap page from the first to the last one touched is marked as having INT_MAX space, no other |
| Database.ClearInByte | storage/dybase/src/database.cpp:960 | a run within one byte clears exactly its bits |
| Database.ClearRunPages | storage/dybase/src/database.cpp:944-958 | a run past its first byte clears exactly its bits, page by page, and marks each page it reaches |
| Database.ClearRunTail | storage/dybase/src/database.cpp:955-958 | the whole bytes of the last page go to zero and the last byte loses its low bits, so the run is cleared |
| Database.CursorAfter | storage/dybase/src/database.cpp:932-940 | the cursor never moves forward; it moves back exactly when the freed space is of its kind, on its page and before it, and then to the freed byte |
| Database.Database.Work | storage/dybase/src/database.cpp:1159 | the working root is the one not current on disk |
| Database.Database.constructor | storage/dybase/src/database.cpp:42-53 | a valid opened state with every bitmap page's free space INT_MAX, both cursors at the first bitmap page, no reservation and nothing modified |
| Database.Database.GetRoot | storage/dybase/src/database.cpp:400 | the root object of the working root |
| Database.Database.SetRoot | storage/dybase/src/database.cpp:402-405 | only the working root's root object changes, to oid, and the database is modified |
| Database.Database.SetDirty | storage/dybase/src/database.cpp:549-558 | the database is modified and dirty; roots, index and handles are unchanged |
| Database.Database.AllocateId | storage/dybase/src/database.cpp:1157-1186 | a non-empty free list hands out its head and moves it to the next link; otherwise the next unused slot is taken, the index doubled first when full; the id's handle is 0 and the committed root is untouched |
| Database.Database.FreeId | storage/dybase/src/database.cpp:1188-1194 | oid heads the free list, its handle links to the old head, its index page is dirty, nothing else changes |
| Database.Database.WasReserved | storage/dybase/src/database.cpp:527-535 | true exactly when some reserved location meets [pos, pos + size) by the unsigned test |
| Database.Database.CommitTransaction | storage/dybase/src/database.cpp:1201-1206 | an unopened database is an error, an unmodified one is left alone, a modified one goes on to write the transaction |
| Database.Database.Free | storage/dybase/src/database.cpp:920-962 | exactly the bits of the quanta the object covered are cleared, the pages touched get INT_MAX space, the allocated delta drops by the quanta freed and each cursor moves back as the freed space requires; nothing else changes |
| BtreeKey.MemCmp | storage/dybase/src/btree.cpp:311 | memcmp over equally long strings is zero exactly on equal strings |
| BtreeKey.CompareStringsOrder | storage/dybase/src/btree.cpp:310-314 | compareStrings is negative, zero or positive exactly as the first string comes before, equals or comes after the second lexicographically, a proper prefix first |
| BtreeKey.CmpOrder | storage/dybase/src/btree.cpp:271 | the three-way key comparison agrees with the key order in all three outcomes |
| BtreeKey.LtTrans | storage/dybase/src/btree.cpp:271 | the key order is transitive |
| BtreeKey.LtTotal | storage/dybase/src/btree.cpp:271 | any two keys are equal or ordered one way or the other |
| BtreeKey.PackItem | storage/dybase/src/btree.cpp:71-122 | a key of another type than the tree's is refused with bad key type, a string key over the maximum length is refused, and otherwise the item holds the key and the oid |
| BtreeNode.CapFits | storage/dybase/src/btree.cpp:458 | n records fit in a page exactly when n times the record width fits in the key area |
| BtreeNode.Search | storage/dybase/src/btree.cpp:429-436 | the binary search ends at the first position whose key is not before the key sought: every key before it is before, no key from it on is |
| BtreeFind.SearchContext.constructor | storage/dybase/src/btree.h:16-26 | a search context with the key type and bounds given and an empty selection |
| BtreeFind.PastBound | storage/dybase/src/btree.cpp:271 | CHECK(k, high, inclusion) holds exactly when k lies past the bound |
| BtreeFind.LowStart | storage/dybase/src/btree.cpp:274-285 | the low-bound search leaves the position before which every key is below the bound and from which none is |
| BtreeFind.FindLeaf | storage/dybase/src/btree.cpp:286-294 | the selection grows by the oids of the leaf's items in range, in order; false only after an item past the high bound |
| BtreeFind.Continue | storage/dybase/src/btree.cpp:303-304 | the inner loop goes on exactly when the child returned true, a separator follows it and that separator is not above the high bound |
| BtreeFind.Visit | storage/dybase/src/btree.cpp:297-302 | searching child l extends the selection by that child's items in range |
| BtreeFind.FindInner | storage/dybase/src/btree.cpp:286-307 | the selection grows by the oids in range of every entry under the inner page, in order |
| BtreeFind.FindPage | storage/dybase/src/btree.cpp:316-404 | dbBtreePage::find extends the selection by exactly the oids of the page's entries in range, in key order; false only when the high bound was passed |
| BtreeInsert.Rank | storage/dybase/src/btree.cpp:429-436 | the position of a key among the entries lies within them |
| BtreeInsert.RankAt | storage/dybase/src/btree.cpp:429-436 | when the first r keys are before k and the next is not, k's position is r |
| BtreeInsert.InsertLeaf | storage/dybase/src/btree.cpp:446-511 | a leaf's items after an insertion are those of Inserts: a refused duplicate, a replaced oid, or the item at its position; a full leaf divides into two well-formed halves around a separator |
| BtreeInsert.LeafFit | storage/dybase/src/btree.cpp:459-511 | the items go back into the leaf when they fit and are divided at half otherwise, both halves in shape and the items all kept |
| BtreeInsert.InsertPage | storage/dybase/src/btree.cpp:512-566 | dbBtreePage::insert: the page's entries change as Inserts says and the result is a page, two pages and a separator, or a refused duplicate, each in shape |
| BtreeInsert.InsertInner | storage/dybase/src/btree.cpp:438-445 | the insertion under an inner page changes its entries as Inserts says |
| BtreeInsert.Absorb | storage/dybase/src/btree.cpp:438-445 | an inner page takes in its child's result: its entries are those before the child, the child's new entries and those after it |
| BtreeInsert.InnerFit | storage/dybase/src/btree.cpp:459-511 | the children go back into the page when they fit and are divided at half otherwise, every entry kept |
| BtreeRemove.FirstMatch | storage/dybase/src/btree.cpp:1087-1105 | the position of the first entry with the key and the oid (any oid for 0) lies within the entries or is their end |
| BtreeRemove.FirstMatchAt | storage/dybase/src/btree.cpp:1087-1105 | no match before j and a match at j (or j at the end) is the first match |
| BtreeRemove.RemoveLeaf | storage/dybase/src/btree.cpp:1078-1108 | the first item with the key and the oid is deleted, or nothing is found and the leaf stays |
| BtreeRemove.LeafDelete | storage/dybase/src/btree.cpp:1092-1099 | the leaf without item r, underflowing exactly when less than half of the page is used |
| BtreeRemove.RemovePage | storage/dybase/src/btree.cpp:1113-1187 | dbBtreePage::remove: the page's entries lose their first match, or nothing is found; the result is in shape, possibly underflowed |
| BtreeRemove.RemoveInner | storage/dybase/src/btree.cpp:1113-1187 | the removal under an inner page deletes the first match of its entries |
| BtreeRemove.Absorb | storage/dybase/src/btree.cpp:1160-1185 | an inner page takes in its child's result, repairing an underflowed child, and its entries are the child's replaced |
| BtreeRemove.HandleUnderflow | storage/dybase/src/btree.cpp:973-1072 | an underflowed child is merged with or shares records with a sibling, the next one when there is one, and the page's entries are unchanged apart from the child's |
| BtreeRemove.WithNext | storage/dybase/src/btree.cpp:977-1020 | the underflowed child and the sibling after it are merged or rebalanced, all entries kept in order |
| BtreeRemove.WithPrevious | storage/dybase/src/btree.cpp:1021-1071 | the underflowed last child and the sibling before it are merged or rebalanced, all entries kept in order |
| BtreeRemove.Merge | storage/dybase/src/btree.cpp:1005-1020 | two neighbouring children that fit in one page become one, the separator between them dropped, all entries kept |
| BtreeRemove.Join | storage/dybase/src/btree.cpp:1005-1020 | the joined page is in shape and holds the first page's entries followed by the second's |
| BtreeRemove.Redistribute | storage/dybase/src/btree.cpp:988-1004 | the records of two neighbouring children are divided anew with a new separator, all entries kept in order |
| BtreeRemove.Divide | storage/dybase/src/btree.cpp:988-1004 | the first t records go to the first page, the rest to the second, the new separator between them, both pages in shape |
| BtreeRemove.Shares | storage/dybase/src/btree.cpp:988-1004 | when the two pages do not fit in one, sharing moves at least one record and leaves both with two records or more, none over capacity |
| BtreeRemove.HalfFull | storage/dybase/src/btree.cpp:1096-1098 | a page not underflowed holds at least two records |
| BtreeIndex.ConfOf | storage/dybase/src/btree.cpp:458 | the page parameters of a scalar tree: a record is the key and a 4-byte oid, and they are sound |
| BtreeIndex.NewRoot | storage/dybase/src/btree.cpp:406-424 | a new root over the two halves of a split root is in shape and holds their entries in order |
| BtreeIndex.OnlyChild | storage/dybase/src/btree.cpp:217-223 | a root left with no separator has one child, which holds all the entries |
| BtreeIndex.Shrink | storage/dybase/src/btree.cpp:209-227 | after an underflow an empty leaf root empties the tree and a root without separators gives way to its child; the entries are kept and the height drops by at most one |
| BtreeIndex.Btree.constructor | storage/dybase/src/btree.cpp:46-69 | a valid empty index of the key type and uniqueness given |
| BtreeIndex.Btree.Insert | storage/dybase/src/btree.cpp:124-158 | a refused key leaves the tree; otherwise the contents change as Inserts describes, false exactly for a refused duplicate, and the height grows by at most one |
| BtreeIndex.Btree.Remove | storage/dybase/src/btree.cpp:183-235 | a non-unique index without an oid, a refused key, an empty tree or a missing item give false and leave the tree; otherwise the first match goes, Removes describing the contents |
| BtreeIndex.Btree.Find | storage/dybase/src/btree.cpp:19-44 | a bounded search with a key of another type is refused and changes nothing; otherwise the selection grows by the oids of the items within the bounds, in key order |
| BtreeIter.Wrap32 | storage/dybase/src/btree.cpp:1238-1250 | the 32-bit difference agrees with the true one modulo 2^32 and equals it when it fits |
| BtreeIter.CompareAsWritten | storage/dybase/src/btree.cpp:1235-1253 | compare as written has the sign of the difference whenever that fits in 32 bits |
| BtreeIter.CompareWraps | storage/dybase/src/btree.cpp:1235-1253 | int keys 2000000000 and -2000000000, and oids 0x80000001 and 1, compare the wrong way round as written, the right way in the key order |
| BtreeIter.TillStopsAsWritten | storage/dybase/src/btree.cpp:1692-1695 | the upper-bound test stops exactly past the bound whenever the difference fits in 32 bits |
| BtreeIter.TillWraps | storage/dybase/src/btree.cpp:1531-1534 | over items -2000000000 and 5 up to 2000000000 inclusive the test as written stops at once, where the ordered test selects both oids |
| BtreeIter.EntriesSorted | storage/dybase/src/btree.cpp:1477-1535 | the entries of a well-formed page are in key order, as the iterator relies on |
| BtreeIter.FirstFrom | storage/dybase/src/btree.cpp:1486-1520 | the descent's binary search lands on the first position whose key is not before the lower bound |
| BtreeIter.TillTest | storage/dybase/src/btree.cpp:1531-1534 | the iteration stops exactly when the current item lies past the upper bound, and then nothing more is selected |
| BtreeIter.DiveDown | storage/dybase/src/btree.cpp:1678-1685 | the do-while pushes the leftmost path below the child reached and stands on the first item of its leaf |
| BtreeIter.Iterator.constructor | storage/dybase/src/btree.cpp:1477-1535 | the iterator is positioned so that what it will hand out is exactly the oids of the tree's items within the bounds, in key order |
| BtreeIter.Iterator.DescendInner | storage/dybase/src/btree.cpp:1486-1506 | each inner level pushes its page with the first position not before the lower bound and the child there |
| BtreeIter.Iterator.EnterLeaf | storage/dybase/src/btree.cpp:1507-1535 | the leaf level takes the first item not before the lower bound, or moves on past the leaf, so that the selection is what is pending |
| BtreeIter.Iterator.CheckTill | storage/dybase/src/btree.cpp:1531-1534 | the iteration ends exactly when the current item lies past the upper bound; the stack is kept |
| BtreeIter.Iterator.Next | storage/dybase/src/btree.cpp:1602-1611 | 0 when nothing is pending; otherwise the first pending oid, and the rest stays pending |
| BtreeIter.Iterator.GotoNextItem | storage/dybase/src/btree.cpp:1670-1695 | after the current item the pending oids are the selection of the entries after it |
| BtreeIter.Iterator.Climb | storage/dybase/src/btree.cpp:1672-1688 | popping exhausted frames and advancing the first one with a child left keeps the entries still to come |
| BtreeIter.Iterator.Dive | storage/dybase/src/btree.cpp:1678-1685 | the do-while fills the stack down to a leaf, keeping the entries still to come |
| BtreeIter.Open | storage/dybase/src/btree.cpp:1271-1280 | a key type other than the tree's with a bound is an error; otherwise an iterator over the items within the bounds |
| PagePool.ListPushFront | storage/dybase/src/pagepool.cpp:194-196 | linking a frame at the head of the LRU list keeps the doubly linked list well formed, with the frame first |
| PagePool.ListUnlink | storage/dybase/src/pagepool.cpp:25-26 | unlinking element k of the LRU list keeps the doubly linked list well formed, without that element |
| PagePool.Bucket | storage/dybase/src/pagepool.cpp:19 | the bucket of an address is at most the hash mask |
| PagePool.BucketIsPageModulo | storage/dybase/src/pagepool.cpp:19 | with 2^k buckets the bucket is the page number modulo the table size |
| PagePool.Zeros | storage/dybase/src/pagepool.cpp:104 | a page of zero bytes |
| PagePool.PatchBytes | storage/dybase/src/pagepool.cpp:238-246 | the bytes memcpy covers come from the data, every other byte of the page is kept |
| PagePool.OverlayBytes | storage/dybase/src/pagepool.cpp:234-248 | each byte of a page after an object is stored comes from the object where the object covers it and from the page otherwise |
| PagePool.HashSizeFor | storage/dybase/src/pagepool.cpp:150-155 | the hash size is a power of two, at least minHashSize and the pool size, and below twice the pool size unless it is minHashSize |
| PagePool.LruAfterRelease | storage/dybase/src/pagepool.cpp:193-196 | a frame whose last pin goes joins the LRU list, which then holds exactly the unpinned frames in use |
| PagePool.LruAfterPin | storage/dybase/src/pagepool.cpp:24 | a frame already pinned gains a pin and the LRU list is unchanged |
| PagePool.InsertByAddress | storage/dybase/src/pagepool.cpp:250-254 | inserting a frame in ascending address order gives the same frames plus one, still ordered and distinct |
| PagePool.SortByAddress | storage/dybase/src/pagepool.cpp:260 | qsort with compareOffs yields a permutation of the queue in ascending address order |
| PagePool.QueueSorted | storage/dybase/src/pagepool.cpp:258-262 | the sorted dirty queue holds each dirty frame in use exactly once and nothing else |
| PagePool.Words | storage/dybase/src/pagepool.cpp:121 | size rounded up to whole 4-byte words: at least size bytes, fewer than 4 more |
| PagePool.CopyWordsAsWritten | storage/dybase/src/pagepool.cpp:121-138 | the words copy moves as written: the rounded count for sizes from 1 to 2^32 - 4, between 1 and 2^32 always |
| PagePool.CopyZeroWraps | storage/dybase/src/pagepool.cpp:121-138 | for size 0 and the three largest sizes copy as written moves 2^32 words, more than rounding up asks |
| PagePool.BytesAt | storage/dybase/src/pagepool.cpp:114-142 | n bytes of the pages seen through the pool from an address on, byte j being the byte at that address plus j |
| PagePool.Pool.Open | storage/dybase/src/pagepool.cpp:144-179 | a valid empty pool: frames 1 to poolSize chained into the free list, a power-of-two hash size, no dirty frame, and every page seen as the file holds it |
| PagePool.Pool.FindCached | storage/dybase/src/pagepool.cpp:19-23 | the frame caching the address when the collision chain holds one, 0 exactly when none does |
| PagePool.Pool.Unfix | storage/dybase/src/pagepool.cpp:189-203 | one pin less on the frame; the last pin puts it at the head of the LRU list, otherwise the list is untouched |
| PagePool.Pool.Pin | storage/dybase/src/pagepool.cpp:24-29 | one pin more; a frame nobody pinned leaves the LRU list from its position, otherwise the list is untouched |
| PagePool.Pool.Modify | storage/dybase/src/pagepool.cpp:223-232 | the frame becomes dirty; a frame that was clean joins the end of the dirty queue, one that was dirty leaves the queue as it was |
| PagePool.Pool.WriteBack | storage/dybase/src/pagepool.cpp:51-62 | a dirty victim's bytes are written to the file at its address and it leaves the queue; a clean one writes nothing; no page seen through the pool changes |
| PagePool.Pool.Evict | storage/dybase/src/pagepool.cpp:46-69 | the LRU tail is taken: written back when dirty, out of the LRU list and of its chain, its address no longer cached, no page seen through the pool changed |
| PagePool.Pool.FindHit | storage/dybase/src/pagepool.cpp:21-42 | a hit pins the frame once more and makes it dirty when asked; one frame fewer is available when it was unpinned |
| PagePool.Pool.Claim | storage/dybase/src/pagepool.cpp:45-74 | a miss takes the head of the free list or else the LRU tail; one frame fewer is available and no page seen through the pool changes |
| PagePool.Pool.FindMiss | storage/dybase/src/pagepool.cpp:45-111 | a miss caches the address in a frame pinned once, dirty exactly when asked, holding what the file holds or zeros past its end |
| PagePool.Pool.Find | storage/dybase/src/pagepool.cpp:15-112 | the frame returned caches the address and holds the page as seen before; on a hit pin count and dirty flag grow as asked, on a miss the frame is pinned once; no page seen through the pool changes |
| PagePool.Pool.Store | storage/dybase/src/pagepool.cpp:238-239 | data goes into the frame's page at its offset and the frame is unfixed; only that page changes |
| PagePool.Pool.PatchPage | storage/dybase/src/pagepool.cpp:236-247 | the page is found dirty, patched and unfixed: only that page changes, by exactly the data |
| PagePool.Pool.Put | storage/dybase/src/pagepool.cpp:234-248 | every page seen through the pool afterwards holds the object's bytes where the object covers it and its old bytes elsewhere |
| PagePool.Pool.Read | storage/dybase/src/pagepool.h:71 | get, then unfix: n bytes of the page from the offset on; no page seen through the pool changes |
| PagePool.Pool.Copy | storage/dybase/src/pagepool.cpp:114-142 | the destination pages hold the copied words over their old bytes, nothing else changes, and the words are the source's bytes when the ranges do not overlap |
| PagePool.Pool.FlushFrame | storage/dybase/src/pagepool.cpp:262-281 | a dirty frame is written to the file at its address and marked clean, one write more; a clean one writes nothing; pins and pages seen are unchanged |
| PagePool.Pool.FlushAll | storage/dybase/src/pagepool.cpp:259-284 | the frames of the sorted queue are written in turn, no frame stays dirty and the queue is empty; no page seen through the pool changes |
| PagePool.Pool.Flush | storage/dybase/src/pagepool.cpp:256-290 | the dirty frames are written once each in ascending address order, none stays dirty, nDirtyPages is 0, and no page seen through the pool changes |
| PagePool.ChainPush | storage/dybase/src/pagepool.cpp:79-80 | linking a frame at the head of a collision chain gives a chain with it first |
| PagePool.ChainRemoveFirst | storage/dybase/src/pagepool.cpp:65-67 | unhooking the first frame of a chain leaves the rest as the chain |
| PagePool.ChainRemoveLater | storage/dybase/src/pagepool.cpp:65-67 | unhooking a later frame relinks its predecessor past it |
| PagePool.QueueHasRoom | storage/dybase/src/pagepool.cpp:32-33 | while a frame in use is clean the dirty queue has room for it (also lines 83-84, 229-230) |
| PagePool.EnqueueInv | storage/dybase/src/pagepool.cpp:227-231 | a clean frame appended to the dirty queue keeps the queue holding exactly the dirty frames, each knowing its position |
| PagePool.TakeFreeInv | storage/dybase/src/pagepool.cpp:70-74 | taking the head of the free list keeps every invariant, the frame taken being the one being set up |
| PagePool.WriteInv | storage/dybase/src/pagepool.cpp:53 | writing a dirty frame stores its bytes as the file page at its address, grows the file size past it when needed and changes no other page of the file (also lines 61, 269-275) |
| PagePool.DequeueInv | storage/dybase/src/pagepool.cpp:57-60 | moving the last queue entry into the leaving frame's place keeps the queue holding exactly the other dirty frames |
| PagePool.QueueDetachClean | storage/dybase/src/pagepool.cpp:51 | a clean victim is in no queue position, so the queue stays as it is |
| PagePool.ChainUnhookInv | storage/dybase/src/pagepool.cpp:63-67 | unhooking the victim from its collision chain removes exactly its address from the cached ones |
| PagePool.EvictLruInv | storage/dybase/src/pagepool.cpp:46-49 | with no free frame the victim is the LRU tail, pinned by nobody, and unlinking it keeps the list and free-list invariants (also lines 68-69) |
| PagePool.AttachInv | storage/dybase/src/pagepool.cpp:76-80 | the frame set up for addr, pinned once, clean and at the head of its chain, restores every invariant |
| PagePool.ReleaseInv | storage/dybase/src/pagepool.cpp:193-196 | the last pin released links the frame at the list head and keeps the list and free-list invariants |
| PagePool.LruAfterUnpin | storage/dybase/src/pagepool.cpp:192-193 | a frame still pinned after unfix stays out of the LRU list |
| PagePool.LruAfterAcquire | storage/dybase/src/pagepool.cpp:24-26 | a frame taken out of the LRU list and pinned once leaves the list holding exactly the unpinned frames |
| PagePool.AcquireInv | storage/dybase/src/pagepool.cpp:24-26 | a hit on an unpinned frame unlinks it from the LRU list and keeps the list and free-list invariants |
| PagePool.OpenInv | storage/dybase/src/pagepool.cpp:150-176 | the tables open sets up satisfy every invariant: all frames free, no list, chain or queue entry |
| PagePool.QueueFrames | storage/dybase/src/pagepool.cpp:258-262 | the queue holds distinct dirty frames in use, and every dirty frame |
| PagePool.QueueClean | storage/dybase/src/pagepool.cpp:283-284 | with no dirty frame an empty queue is consistent |
| PagePool.CleanInv | storage/dybase/src/pagepool.cpp:274 | a frame whose bytes are the file's page may be marked clean |
| PagePool.NewHeaders | storage/dybase/src/pagepool.cpp:157-164 | the header arrays of open, frames 1 to poolSize chained into the free list and every frame clean |
| PagePool.NewTables | storage/dybase/src/pagepool.cpp:153-154 | a zeroed hash table, the dirty queue and the zeroed page buffers (also lines 169-177) |
| PagePool.Pool.Unlink | storage/dybase/src/pagepool.cpp:25-26 | pages[next].prev = prev and pages[prev].next = next, nothing else (also lines 68-69, 264-265) |
| PagePool.Pool.LinkFront | storage/dybase/src/pagepool.cpp:194-196 | the frame becomes the list head, nothing else changes (also lines 278-280) |
| PagePool.Pool.TakeFree | storage/dybase/src/pagepool.cpp:70-74 | the head of the free list is taken and the frames in use grow by one |
| PagePool.Pool.WriteFrame | storage/dybase/src/pagepool.cpp:53 | the frame's bytes become the file page at its address, one write more, no page seen through the pool changes (also lines 61) |
| PagePool.Pool.Dequeue | storage/dybase/src/pagepool.cpp:57-60 | the last queue entry moves into the frame's position and the queue is one shorter |
| PagePool.Pool.ChainPred | storage/dybase/src/pagepool.cpp:65-66 | the walk finds the frame's position in its chain and its predecessor, 0 when it is first |
| PagePool.Pool.SkipLink | storage/dybase/src/pagepool.cpp:67 | *np = collisionChain: the table slot when the frame is first, its predecessor's link otherwise |
| PagePool.Pool.ChainUnhook | storage/dybase/src/pagepool.cpp:63-67 | the frame leaves its chain and its address is cached no more; no page seen through the pool changes |
| PagePool.Pool.LruDrop | storage/dybase/src/pagepool.cpp:47 | the LRU tail is taken out of the list (also lines 68-69) |
| PagePool.Pool.Unhook | storage/dybase/src/pagepool.cpp:46-69 | the victim leaves the LRU list and its chain; no page seen through the pool changes |
| PagePool.Pool.Attach | storage/dybase/src/pagepool.cpp:76-80 | the frame caches addr, pinned once and clean, at the head of its chain |
| PagePool.Pool.ReadFrame | storage/dybase/src/pagepool.cpp:93-105 | the frame holds the file's page, or zeros past the end of the file |
| PagePool.Pool.Place | storage/dybase/src/pagepool.cpp:76-105 | the frame caches addr pinned once, dirty exactly when asked, and no page seen through the pool changes |
| PagePool.Pool.Install | storage/dybase/src/pagepool.cpp:76-80 | the frame caches addr pinned once and clean, and no page seen through the pool changes (also lines 93-105) |
| PagePool.Pool.Write | storage/dybase/src/pagepool.cpp:238-239 | memcpy into the frame: its page is patched with the data at the offset |
| PagePool.Pool.PutPiece | storage/dybase/src/pagepool.cpp:236-247 | one page's part of the object is stored, extending what the pages hold of the object |
| PagePool.Pool.CopyWords | storage/dybase/src/pagepool.cpp:121-141 | the loop stores the rounded number of words at dst, each the word read at src, which are the source bytes when the ranges do not overlap |
| PagePool.Pool.CopyStep | storage/dybase/src/pagepool.cpp:122-138 | one word read and stored, the page positions moved on a page boundary |
| PagePool.Pool.ReadWord | storage/dybase/src/pagepool.cpp:135 | four bytes read from the source page, which continue the source bytes when the ranges do not overlap |
| PagePool.Pool.StoreWord | storage/dybase/src/pagepool.cpp:135-137 | four bytes stored at the destination page, extending the overlay by them |
| PagePool.Pool.Touch | storage/dybase/src/pagepool.cpp:263-266 | the pin and unpin around a flushed page: the pins are as before and an unpinned frame moves to the list head (also lines 277-281) |
| PagePool.Pool.CleanFrame | storage/dybase/src/pagepool.cpp:267-276 | a dirty frame is written and marked clean, no page seen through the pool changes |
| PagePool.Pool.FlushStep | storage/dybase/src/pagepool.cpp:262-281 | one more frame of the sorted queue has been written |
| PagePool.Pool.FlushLoop | storage/dybase/src/pagepool.cpp:261-282 | every frame of the sorted queue is written in order, no page seen through the pool changes |
| PagePool.Pool.BeginFlush | storage/dybase/src/pagepool.cpp:259 | flushing is set and nothing else changes |
| PagePool.Pool.EndFlush | storage/dybase/src/pagepool.cpp:283-284 | with no frame dirty, flushing is cleared and nDirtyPages is 0 |
| Regexp.FromHexIsDigitVal | cutils.h:331-341 | from_hex gives the hexadecimal digit value of both letter cases and -1 for any other character |
| Regexp.RunStops | libregexp.c:642-645 | a run of digits ends at the first character that is not one |
| Regexp.RunDigits | libregexp.c:642-645 | every character of a run is a digit of the radix |
| Regexp.ValueMonotone | libregexp.c:646 | the value of a run never decreases as digits are added |
| Regexp.ParseDigits | libregexp.c:635-661 | the value of the decimal digits at p and the position after them; a value reaching INT32_MAX gives INT32_MAX when overflow is allowed and -1 with the position kept otherwise |
| Regexp.ShiftIn4 | libregexp.c:720 | (c << 4) OR h for a hexadecimal digit h is c * 16 + h |
| Regexp.ShiftIn3 | libregexp.c:772 | (c << 3) OR v for an octal digit v is c * 8 + v |
| Regexp.HexDigits | libregexp.c:733-741 | n hexadecimal digits give their value, below 16^n; fewer than n give -1 |
| Regexp.BracedHex | libregexp.c:713-727 | a braced escape is accepted exactly when one or more hexadecimal digits are closed by a brace with a value at most 0x10FFFF, and then gives that value and the position after the brace; otherwise -1 |
| Regexp.BracedAtBrace | libregexp.c:721-726 | digits followed by the closing brace within range make a well-formed braced escape |
| Regexp.NotBracedAt | libregexp.c:717-719 | a run that meets a character which is neither a digit nor the closing brace is malformed |
| Regexp.NotBracedTooBig | libregexp.c:721-722 | a prefix of the digits whose value passes 0x10FFFF makes the escape malformed |
| Regexp.HexStep | libregexp.c:717-720 | one more digit of a run multiplies the value by 16 and adds the digit |
| Regexp.OctalLength | libregexp.c:768-781 | a legacy octal escape spans one to three digits, all octal |
| Regexp.UnsignedOctal | libregexp.c:769-770 | *p - '0' in uint32 is at most 7 exactly for an octal digit, and is then its value |
| Regexp.LegacyOctal | libregexp.c:762-782 | the value of the legacy octal digits and the position after them, below 256 |
| Regexp.FixedHexEscape | libregexp.c:728-758 | \xHH and \uHHHH give the value of their digits, or -1 with the position kept; with allow_utf16 2 an escaped surrogate pair becomes one code point |
| Regexp.ParseEscape | libregexp.c:681-788 | for each first letter: the control escapes, the braced and fixed hexadecimal forms, \0 alone in unicode mode, the legacy octal forms otherwise, and -2 with the position kept for any other letter; -1 for a malformed escape |
| Regexp.ModRunLetters | libregexp.c:1763-1772 | the modifier run is made of the letters i, m and s |
| Regexp.ParseModifiers | libregexp.c:1757-1780 | a duplicate modifier is reported exactly when a letter of the run repeats; otherwise the mask is the set of flags the run names and the position is after it |
| Regexp.UpdateModifier | libregexp.c:1782-1790 | a flag in the removal mask is off, one only in the addition mask is on, any other keeps its value |
| Regexp.NameEnd | libregexp.c:1747 | strlen of a name stops at its NUL within the buffer |
| Regexp.NameEndBelow | libregexp.c:1746-1749 | in a NUL-terminated buffer every name ends before the buffer does |
| Regexp.NameIndexFirst | libregexp.c:1746-1752 | the index found is -1 exactly when the name is absent, and otherwise that of its first occurrence |
| Regexp.FindGroupName | libregexp.c:1734-1755 | the 1-based index of the first group of that name, -1 exactly when there is none |
| Regexp.ReStringHash | libregexp.c:145-153 | the loop computes h = h * 263 + c from 1 and the final multiplication by 0x61C88647, in 32 bits |
| Regexp.BucketBound | libregexp.c:228 | h0 >> (32 - hash_bits) is below the table size |
| Regexp.AbsentFromTable | libregexp.c:228-234 | when the bucket of a string's hash does not hold it, the table does not hold it at all |
| Regexp.RehashChain | libregexp.c:251-258 | moving one chain into the new table adds exactly its entries and keeps each in the bucket of its hash |
| Regexp.EntriesPrepend | libregexp.c:270-271 | linking an entry at the head of a bucket adds exactly that entry |
| Regexp.PlacedPrepend | libregexp.c:270-271 | an entry put in the bucket of its own hash keeps the table well placed |
| Regexp.EntriesExtend | libregexp.c:250-258 | the entries of the first i + 1 buckets are those of the first i and of bucket i |
| Regexp.CharStringsAdd | libregexp.c:289-291 | a character joining the range set adds exactly its one-character string |
| Regexp.REStringList.constructor | libregexp.c:155-162 | an empty, valid string list with no hash table |
| Regexp.REStringList.SearchChain | libregexp.c:227-234 | the chain walk finds the string exactly when the list holds it |
| Regexp.REStringList.Rehash | libregexp.c:250-258 | the new table of 2^new_hash_bits buckets holds the same entries, each in the bucket of its hash |
| Regexp.REStringList.Grow | libregexp.c:240-263 | the table grows to 2^max(hash_bits + 1, 4) buckets, more than the strings, holding the same strings |
| Regexp.REStringList.Insert | libregexp.c:265-275 | the new string joins the list at the head of its bucket, and the count grows by one |
| Regexp.REStringList.Find2 | libregexp.c:222-276 | 1 and nothing changed when the string is present; 0 and nothing changed when absent without add; with add the list gains it and 1 is returned, the table growing first when full |
| Regexp.REStringList.Find | libregexp.c:278-284 | re_string_find2 on the string's own hash, with the same outcomes |
| Regexp.REStringList.UnionChar | libregexp.c:290 | the character joins the range set and the members gain its one-character string |
| Regexp.REStringList.Add | libregexp.c:287-295 | the list gains exactly the string: into the range set when it has one character, into the hash table otherwise; 0 is returned |
| Regexp.MaxDepthIsMax | libregexp.c:2405-2412 | the maximum depth is at least every prefix depth and is zero or reached by one |
| Regexp.MaxDepthMonotone | libregexp.c:2405-2412 | the maximum depth so far never decreases |
| Regexp.ComputeStackSize | libregexp.c:2390-2436 | the greatest stack depth the program reaches, or -1 when it exceeds STACK_SIZE_MAX |
| Regexp.IsSimpleQuantifier | libregexp.c:1562-1608 | the number of character matches when the atom holds only character matches and assertions, -1 as soon as it holds anything else |
| Regexp.IsLineTerminator | libregexp.c:2545-2548 | true exactly for \n, \r, U+2028 and U+2029; no line terminator is a word character |
| Regexp.IsWordChar | libregexp.c:2550-2556 | true exactly for the ASCII letters and digits and '_' |
| JsCompress.SizeHeader | jscompress.c:723-726 | four bytes that read back, most significant first, as the source length |
| JsCompress.CopyBack | jscompress.c:735-748 | replaying a match keeps the output so far and adds n bytes |
| JsCompress.CopyBackRepeats | jscompress.c:735-748 | each byte a match adds repeats the byte dist + 1 places before it |
| JsCompress.DecodeToken | jscompress.c:731-750 | a token is one byte below 0x80, two bytes from 0x80, three from 0xC0, and extends the output it decodes against |
| JsCompress.Decode | jscompress.c:728-752 | decoding a token stream only extends the output |
| JsCompress.Decompress | jscompress.c:723-726 | a buffer that decompresses starts with the four-byte size header of its result |
| JsCompress.TokenPrefix | jscompress.c:731-750 | a token is read from its own bytes whatever code follows |
| JsCompress.DecodeAppend | jscompress.c:728-752 | decoding two concatenated streams is decoding the second after the first |
| JsCompress.ShortWord | jscompress.c:739 | the short match word is 0x8000 + (len - 3) * 0x400 + dist: its fields use disjoint bits |
| JsCompress.LongWord | jscompress.c:744 | the long match word is 0xC00000 + (len - 4) * 0x10000 + dist |
| JsCompress.ShortBytes | jscompress.c:739-741 | a short match is written as two bytes: the marker, the length and the top two distance bits, then the low distance byte |
| JsCompress.LongBytes | jscompress.c:744-747 | a long match is written as three bytes: the marker and length, then the distance high and low |
| JsCompress.DecodeLiteral | jscompress.c:735-736 | a literal byte below 0x80 decodes to itself |
| JsCompress.ShortToken | jscompress.c:738-742 | two bytes 10LLLLDD DDDDDDDD decode to a copy of length LLLL + 3 at distance DD DDDDDDDD |
| JsCompress.LongToken | jscompress.c:743-748 | three bytes 11LLLLLL and two distance bytes decode to a copy of length LLLLLL + 4 |
| JsCompress.DecodeShort | jscompress.c:738-742 | a short match as written decodes to the copy it stands for |
| JsCompress.DecodeLong | jscompress.c:743-748 | a long match as written decodes to the copy it stands for |
| JsCompress.CopyBackMatch | jscompress.c:666-689 | replaying a match whose bytes agree with earlier ones rebuilds the next len bytes of the source |
| JsCompress.MatchAscii | jscompress.c:732-733 | bytes covered by a match are copies of bytes already checked to be below 0x80 |
| JsCompress.Hash3 | jscompress.c:709 | the hash of three bytes is below HASH_SIZE |
| JsCompress.LastWith | jscompress.c:708-712 | the last position before i whose three bytes have hash h, or -1 when none has |
| JsCompress.PrevSame | jscompress.c:708-715 | hash_next of a position is an earlier position or -1 |
| JsCompress.ChainFrom | jscompress.c:675-686 | the positions find_longest_match visits lie between pos_min and the starting position |
| JsCompress.Fill | jscompress.c:702-707 | every element set to the value, as the -1 initialising loops do |
| JsCompress.LinkChains | jscompress.c:708-712 | after the hashing loop the table holds the last position of each hash and hash_next links each position to the previous one with its hash |
| JsCompress.HashChains | jscompress.c:700-716 | hash_next of every position is the previous position with the same three-byte hash, -1 for none and for the last two positions |
| JsCompress.MatchLength | jscompress.c:677-680 | the number of bytes from pos that agree with those from cur, stopping at the first mismatch or len_max |
| JsCompress.BestStep | jscompress.c:681-684 | a position that agrees over more bytes than the best so far becomes the best |
| JsCompress.PosMin | jscompress.c:674 | pos_min reaches at most DIST_MAX + 1 bytes back and never before 0 |
| JsCompress.LenMax | jscompress.c:671 | len_max is MATCH_LEN_MAX or what is left of the source, whichever is smaller |
| JsCompress.BestResult | jscompress.c:666-689 | the best of a chain walk agrees with cur over its length, lies in the chain within reach, no chain position agrees for longer, and no later one as long |
| JsCompress.ChainStep | jscompress.c:685 | pos = hash_next[pos] walks one link of the chain |
| JsCompress.FindLongestMatch | jscompress.c:666-689 | the longest match among the chain positions within DIST_MAX + 1 bytes back, the nearest of the longest ones, with its distance; length 0 and distance cur - 1 when there is none |
| JsCompress.PutBytes | jscompress.c:736-747 | the bytes land at q and nothing else in dst changes |
| JsCompress.TokenStep | jscompress.c:728-752 | one more token extends a stream that encodes the source so far to one that encodes the next source prefix |
| JsCompress.NextToken | jscompress.c:729-751 | one step writes one to three bytes standing for at least that many source bytes, which decode to the next source prefix |
| JsCompress.Emit | jscompress.c:728-752 | one step of the loop keeps dst holding the header and a token stream that encodes the source so far, never beyond i + 4 bytes |
| JsCompress.Finish | jscompress.c:753-756 | the header and the tokens of the whole source decompress to it |
| JsCompress.LzCompress | jscompress.c:691-757 | -1 exactly when the source holds a byte of 0x80 or more; otherwise at most src_len + 4 bytes that decompress to the source |
| JsCompress.StrChrIn | jscompress.c:550-551 | strchr of a character other than NUL finds it exactly when it is in the string |
| JsCompress.PastedCases | jscompress.c:550-553 | the punctuation pairs that would paste into one token |
| JsCompress.CompatPunct | jscompress.c:544-559 | two punctuation tokens may be printed without a space exactly when they do not paste |
| JsCompress.CompatWords | jscompress.c:546-555 | identifiers and numbers always need a space between them and a number is never joined to a dot; after either, any other punctuation needs none |
| JsCompress.HexToNum | jscompress.c:205-215 | a digit value below 16, or -1 |
| JsCompress.HexToNumInverse | jscompress.c:205-215 | both spellings of every hexadecimal digit read back as its value, and exactly every other character gives -1 |
| JsCompress.Token.constructor | jscompress.c:56-64 | an empty token on its inline buffer of 20 bytes |
| JsCompress.Token.Reset | jscompress.c:56-64 | the token is empty and back on its inline buffer |
| JsCompress.Token.AddCh | jscompress.c:66-78 | the text gains the low 8 bits of c; a full buffer doubles its capacity and moves, a buffer with room stays |
| JsCompress.Frames | jscompress.c:185-197 | the skip mask as a stack of 2-bit frames |
| JsCompress.Bit1 | jscompress.c:189 | mask & 2 tests bit 1 |
| JsCompress.Flip | jscompress.c:191 | mask ^ 1 flips bit 0 |
| JsCompress.Preprocessor.ParseDirective | jscompress.c:161-203 | #ifdef and #ifndef push a frame, #else flips and #endif pops it; an #else or #endif without an open #if and an unsupported directive are errors; #define and #undef leave the mask |
| JsCompress.IfPushes | jscompress.c:183-186 | #ifdef and #ifndef push a frame that skips unless the test holds |
| JsCompress.OpenIf | jscompress.c:188-193 | in a mask of nested frames, bit 1 is set exactly when an #if is open |
| JsCompress.EndIfPops | jscompress.c:192-195 | #endif drops the innermost frame and keeps the outer ones |
| JsCompress.ElseFlips | jscompress.c:187-191 | #else flips whether the innermost #if skips and keeps the outer frames |
| QJsc.NamesOf | qjsc.c:115-124 | exactly the names of the entries |
| QJsc.NamesOfSize | qjsc.c:115-124 | a run of entries has no more names than entries |
| QJsc.NameList.Entries | qjsc.c:45-49 | the entries in use, count of them |
| QJsc.NameList.constructor | qjsc.c:55-57 | an empty list with no array |
| QJsc.NameList.Add | qjsc.c:82-101 | the entry goes after the others; a full array grows to size + size / 2 + 4 slots, one with room stays where it is |
| QJsc.NameList.Free | qjsc.c:103-113 | every entry released and the list back to no array, count and size 0 |
| QJsc.NameList.Find | qjsc.c:115-124 | the index of the first entry with that name, -1 exactly when no entry has it |
| QJsc.LastIndex | qjsc.c:132-133 | strrchr: the last occurrence of the character, none exactly when it does not occur |
| QJsc.StemLength | qjsc.c:137-141 | the length of the base name up to its last '.', or all of it |
| QJsc.Sanitize | qjsc.c:145-152 | sanitising keeps the length |
| QJsc.SanitizeAt | qjsc.c:146-151 | letters and digits are kept and every other character becomes '_' |
| QJsc.Take | qjsc.c:142 | at most n characters of s, from its start (also lines 152-153) |
| QJsc.BaseNameEnds | qjsc.c:132-136 | the base name holds no '/' and ends the file name |
| QJsc.StemDropsExtension | qjsc.c:137-141 | the stem starts the base name and drops one extension at most, a '.' with no other after it |
| QJsc.CNameShape | qjsc.c:126-156 | the C name starts with the prefix, holds only letters, digits and '_' past it, and is as long as the buffer lets it be |
| QJsc.PStrCpy | qjsc.c:142 | pstrcpy: at most buf_size - 1 characters and a NUL, nothing after them touched |
| QJsc.TakeStep | qjsc.c:152-153 | one more character is kept exactly when there is still room |
| QJsc.PutChar | qjsc.c:152-153 | a character is stored only when it leaves room for the NUL |
| QJsc.SanitizeStep | qjsc.c:145-151 | sanitising one more character appends its replacement |
| QJsc.GetCName | qjsc.c:126-156 | the buffer holds the prefix then the sanitised stem, cut to fit, and a NUL |
| QJsc.CandidateInjective | qjsc.c:229 | different suffixes give different candidate names |
| QJsc.TriedSize | qjsc.c:228-232 | as many names were tried as suffixes |
| QJsc.TriedFit | qjsc.c:228-232 | the names tried were all taken, so there are at least as many names; the loop ends |
| QJsc.FindUniqueCName | qjsc.c:217-236 | the name cut to cname_size - 16 characters, then '_' and the smallest suffix from 1 whose name is free, cut to fit the buffer |
| QJsc.FeatureIndex | qjsc.c:67-80 | the index of a name in feature_list, none exactly when it is not there |
| QJsc.FeaturesDistinct | qjsc.c:67-80 | no feature name appears twice |
| QJsc.NoFeature | qjsc.c:651-658 | "no-" with the feature at index i names feature j exactly when j is i |
| QJsc.FeatureAccepted | qjsc.c:647-664 | an -f argument is accepted exactly when it is "lto" or "no-" followed by a feature name |
| QJsc.FeatureUpdateBits | qjsc.c:651-658 | an accepted -f argument clears the bit of the feature it names and leaves every other bit |
| QJsc.FeatureOption | qjsc.c:645-666 | the option loop's -f case gives the updated bitmap, or an error for an unsupported feature |
| QJsc.FeaturesOff | qjsc.c:645-666 | after the options a bit is set exactly when it was before and no -fno- named its feature (also line 593) |
| QJsc.FeaturesFromAll | qjsc.c:645-666 | from FE_ALL the features left on are those no -fno- named; bits above them stay set (also line 593) |

## Left out

- BtreeIndex.Btree: only scalar key types are modelled; `Valid` requires `IsScalar(keyType)`. So the paths that order chars and bytes keys with `compareStrings` are not captured: the string branches of insert, remove and find (storage/dybase/src/btree.cpp:532-548, 1132-1156, 336-365), the string overflow case of remove (228-233) and the rejection of string keys longer than the maximum key length (105-108). `BtreeKey.CompareStrings` and its order lemma are there, but no tree is built over them.
- BtreeKey.Key, BtreeIndex.Btree: a `db_real8` key is modelled by an integer-valued total order (`Num`). The source compares doubles with `<` and `==` (storage/dybase/src/btree.cpp:1245-1247), so NaN, which is ordered against nothing, the equality of -0.0 and +0.0, and fractional keys are not captured.
- BtreeIter.Iterator: only ascending iteration is modelled. The descending paths of the constructor (storage/dybase/src/btree.cpp:1536-1598) and of next/gotoNextItem (1696-1722) are not captured.
- BtreeIter.Iterator: the string-key branch of the iterator (storage/dybase/src/btree.cpp:1616-1668) is not modelled, because the tree holds scalar keys only.
- BtreeIter.Iterator: positions and stops by the true key order (`Cmp`, `PastBound`). The source's compare subtracts keys and oids in 32 bits, and that wraps (see "## Findings"; `BtreeIter.CompareAsWritten` and `BtreeIter.TillStopsAsWritten` model it).
- BtreeInsert.InsertPage, BtreeRemove.RemoveLeaf, BtreeRemove.RemoveInner: a page is the value `Page = Leaf(items) | Inner(keys, kids)`. The in-place memmove/memcpy shifts of INSERT and REMOVE become sequence slicing, so the shifting in place and the `record[]` layout counted from the end of the page are not captured. The `markPage` traversal and the byte offsets of `compactify` are not modelled either.
- HashTab.HashTable: a bucket's linked chain of `Entry` records is a sequence value, head first, and unlinking is `HashTab.Without`. The table keeps a copy of the key bytes where the source keeps the caller's key pointer, so aliasing of keys with the caller's memory is not captured.
- Codec.LoadHandle.HasNext, Codec.LoadHandle.HasNextField: their `NextFits` requires asks that the next element decode and end at or before the record's end, so malformed or truncated records, which the source would read past, are excluded.
- CUtils.GetU32, CUtils.PutU32: `get_u32`/`put_u32` go through a packed struct in host byte order, which the model fixes to little-endian.
- Codec: multi-byte values are copied in host byte order, which the model fixes to little-endian.
- Database.Database.AllocateId: the doubled index is the parameter `newIndex`. The `allocate` of its space and the `free` of the old index are not modelled, and neither is the copy of the old index into it. The bitmap is not in its modifies. The index is doubled only once, which is all that is needed, because the index holds at least one handle. The free-list head is required to name a handle inside the index, and a doubled index must stay below 2^32 bytes.
- Database.Database.Free: the copy-on-write of a bitmap page is not modelled: the `put(tie, pageId)` that allocates and clones the page (storage/dybase/src/database.cpp:407-418, 1119-1150). The bitmap is one array of 4096 pages, and the freed run must lie inside it.
- Database.Database.SetDirty: the header write and the page-pool flush go to the file and are not modelled.
- Database.Database: the `opened` checks and the `handleError` error paths of the public operations are not modelled, apart from the not-opened result of `CommitTransaction`. The rest of commit, open, close, the shadow-root swap, the garbage collector and `allocate`'s bitmap search are entangled with disk I/O and are not modelled.
- Buffer.SmallBuffer.Append, Buffer.Buffer.Append: n is a `nat`, while the source's `int n` may be negative. The 32-bit wrap of `n + used` and of `allocated * 2` is not captured.
- PagePool.Pool: `fileSize` is an unbounded `nat` (page addresses are 32-bit), so the `offs_t` wrap of `ph->offs + dbPageSize` is not captured. File reads and writes act on a map from page address to contents plus a log of writes. `file->flush` and its error results are I/O and are not modelled.
- PagePool.Pool.Open: the failure result when the page buffer cannot be allocated is not modelled.
- PagePool.Pool.Copy: it reads each word through `find` rather than keeping the two pages pinned. It requires one free or unpinned frame and 4-aligned addresses. The bytes copied are stated unless dst lies above src inside the source range, where the forward word copy reads words it has already overwritten. find(dst) marks a page dirty even when no word is copied.
- PagePool.Pool.Flush: the qsort of the dirty queue is modelled as an insertion sort by file offset (`PagePool.SortByAddress`). The LRU order after the flush is only partly stated. Each page is written before it is pinned and unpinned, which has the same effect.
- PagePool.Pool: `fix` and `unfixLIFO` are not modelled.
- Regexp.ComputeStackSize, Regexp.IsSimpleQuantifier: they run over a sequence of abstract `ReOp` instructions rather than bytecode. `RE_HEADER_LEN`, the `reopcode_info` sizes and the skipping over range lengths are therefore not captured.
- Regexp.ParseModifiers, Regexp.UpdateModifier: the modifier flags are a `set<Flag>`, not the bit mask.
- Regexp: `lre_exec`, the backtracker and the emission of code inside the term and class parsers are not modelled. They depend on Unicode range and case tables that are not part of this model.
- Regexp.REStringList: a character range is the set of its code points.
- Regexp.REStringList.Find2: the new string always goes into the bucket of its own hash. In re_string_find2 the hash stays 0 when the table holds no strings (libregexp.c:224-227), and when the table then does not grow the string goes into bucket 0 (line 269); that state is reached only after the class intersection and subtraction, which are not part of this model. The -1 results of a failed `lre_realloc` (libregexp.c:248-249, 266-267) are not modelled.
- DtoaInt.MulLog2Radix: only power-of-two radixes are modelled, over the exponent range -2048..2047. The table branch for other radixes is not modelled.
- DtoaInt: `js_dtoa`, `js_atod`, `round_to_d` and the other float64 paths are floating point and are not modelled. The reciprocal-division `udiv1norm` is not modelled either.
- CUtils: `tofp16`/`fromfp16` are floating point and are not modelled.
- JsCompress.Preprocessor.ParseDirective: the directive is given as a datatype and whether its symbol is defined is a parameter. The define table (`define_symbol`, `undefine_symbol`, `find_symbol`), the tokenizer before it and the check for extra characters are not modelled. `skip_mask` is an unbounded `nat`.
- JsCompress.LzCompress: a failed `malloc` is not modelled. The `js_compress` lexer driven by `fgetc`, `next` and `print_tok` is not modelled.
- JsCompress.Hash3: the bit-or of the three shifted bytes is written as a sum, which is the same because the bits do not overlap.
- QJsc.NameList.Add: a failed `realloc` is not modelled, and neither is the 32-bit wrap of the size. `strdup` becomes a copy of the string value.
- QJsc.GetCName: `c_ident_prefix` is a parameter, and the buffer must hold at least one byte. `pstrcpy` is specified by its usual meaning, because cutils.c is not part of this model.
- QJsc.FindUniqueCName: the 1024-byte truncation of `snprintf` and the overflow of the int suffix are not modelled. The suffix found is ghost.
- QJsc.FeatureOption: `use_lto` is set exactly when the result is `Some`. The error exit for an unknown feature is the result `None`. The feature bitmap is a `nat`.
- QJsc: `main`, `output_executable`, `exec_cmd` and `get_suffixed_size` spawn processes, write files or rely on `strtod`, and are not modelled.
- The JavaScript bindings (`quickjs-storage.c`, `quickjs-bjson.c` and the rest), file I/O, threads, mutexes and atomics are not part of this model.

## Findings

| source | as written | input that shows it | evidently intended | confidence | as-written member | corrected member |
|---|---|---|---|---|---|---|
| storage/dybase/src/hashtab.h:64-75 | remove matches an entry by hash code and by `memcmp` of keySize bytes; it never compares the stored key's length with keySize | with the 2-byte key [0, 0] stored, removing the 1-byte key [0] unlinks it: both keys hash to 0 and their first byte agrees, yet `get` of [0] finds nothing | remove unlinks only an entry whose key equals the given key, as `get` does (hashtab.h:55-59) | not executed | HashTab.RemoveIgnoresKeySize | HashTab.HashTable.Remove |
| storage/dybase/src/hashtab.h:88-97 | each's `break` leaves only the chain being walked; the outer loop goes on with the next bucket | two non-empty buckets where the callback returns true for the first entry visited: the head of the next bucket is still visited | each stops the whole walk as soon as the callback returns true (hashtab.h:6) | not executed | HashTab.EachContinuesAfterStop | HashTab.HashTable.Each |
| storage/dybase/src/btree.cpp:1235-1253 | the iterator's compare returns the 32-bit difference of int keys and of oids, which wraps | an INT tree holding -2000000000 and 5, iterated up to 2000000000 inclusive: compare(2000000000, -2000000000) is negative, so the till test stops at once and nothing is returned, while both items lie within the bound | compare gives the sign of the true order, so the iteration returns both oids | not executed | BtreeIter.TillWraps | BtreeIter.Iterator.constructor |
| storage/dybase/src/pagepool.cpp:122-138 | copy counts words as `(size + 3) >> 2` and loops with `do { … } while (--size != 0)` | size 0: the word count is 0, the first `--size` wraps to 2^32 - 1, and 2^32 words are copied instead of none | copy moves exactly ceil(size / 4) words, none for size 0 | not executed | PagePool.CopyZeroWraps | PagePool.Pool.Copy |
