# C3 and LIM: a verified model

The repository simulates two in-memory protection schemes under Simics. C3
encrypts part of every pointer, encrypts data with a keystream that depends on
the address, and keeps an integrity value (ICV) for every 8-byte granule. LIM
gives every object a power-of-two slot and keeps a tag and bounds in the middle
of it. This project models the algorithms and state machines of both and proves
what they are for.

| file | part |
|---|---|
| `Words.dfy` | fixed-width words as bit sequences, unsigned numbers with shifts and masks |
| `Wrappers.dfy`, `Buffers.dfy` | optional values; bytes, and stores into sequences and arrays of them |
| `BipBip.dfy` | the 24-bit tweakable pointer cipher, its key and tweak schedules, the object that caches a tweak |
| `BipBipKeys.dfy` | the cipher bit by bit; every round key, every key bit and the tweak matter |
| `CryptoAddress.dfy` | the layout of a cryptographic address (CA), encoding and decoding of pointers |
| `TryBox.dfy` | the choice of the slot for a region |
| `Ascon.dfy` | the Ascon permutation and the one-block keystream word |
| `AsconInjective.dfy` | the permutation loses nothing: distinct addresses and keys reach distinct states |
| `Keystream.dfy` | data encryption over byte buffers |
| `C3Access.dfy` | the address and data callbacks of C3, accesses that cross a page |
| `C3Memory.dfy` | loads and stores through CAs, and runs of them, against flat plaintext memory; the machine around the callbacks |
| `IcvMap.dfy` | the sparse paged map of integrity values |
| `Integrity.dfy` | one granule: checks, pre-initialisation, invalidation, histories |
| `IntegrityAccess.dfy` | accesses over several granules, setting and copying ICVs, the checker object |
| `ShadowRip.dfy` | GSRIP, the shadow instruction pointer: calls, jumps, returns, SMM |
| `Quarantine.dfy` | the ring buffer of freed pointers |
| `LimEncoding.dfy` | LIM slots, bounds, stored metadata |
| `LimObject.dfy` | where the bytes of a LIM object live |
| `LimRun.dfy` | accesses through LIM pointers, and runs of them, against flat memory |
| `LimMemory.dfy` | paged memory, and the fixed-up buffers of each kind of access |
| `LimModel.dfy` | the LIM callbacks on physical memory, with the processor around them |

How the source is represented. A word whose bits are permuted or mixed is a
sequence of bits, least significant first; a word used for arithmetic is a
number below 2^64, and every place where the source wraps or truncates is
written out with a remainder or a width. Buffers and memory are arrays of bytes,
and the objects whose fields the source updates are classes. Each method is
proved against a function of the old state, and the properties are proved of
those functions. Logical-to-physical translation succeeds and is fixed; a
general protection fault ends the access that raises it.

The chain for C3 is: `TryBox.RegionPointer` shows that the pointer of a boxed
region reaches every byte of it; `C3Memory.RunIsFlat` equates every run of loads
and stores through such a pointer, cut at pages or whole, with a run on flat
plaintext memory; `C3Memory.Session` states it of the callback object and an array
of bytes, and `C3Memory.RegionIsFlat` of the simulator's own cipher and keystream
from allocation on. `IntegrityAccess.RegionSetThenCheck` does the same for
integrity values.

What is stored is stated apart from its undoing. `CryptoAddress.EncodedFields` says which
bits of a pointer are encrypted under which tweak; `BipBipKeys.TweakMatters`, `KeyMatters`
and `RoundKeyMatters` that distinct tweaks and distinct keys have distinct schedules, and
that each round key changes every answer; `Keystream.TransformBits` which bits of data are
flipped; and `AsconInjective` that distinct addresses and keys reach distinct final states
of the keystream.

The chain for LIM is: `LimModel.LimModel.Perform` and `LimModel.Session`, which
move bytes through fix-up buffers in physical memory, equal `LimRun.Access` and
`LimRun.Run`; `LimRun.RunIsFlat` equates every such run with a run on a flat byte
memory, which `LimModel.Session` states of the machine itself;
`LimRun.AllocationIsDescribed` shows that what the allocator stores is an object such a
run can start from.

## Where the source does less than it promises

- `try_box` computes the end of the region in 64 bits. For a region that wraps
  around, it can return a slot that does not hold the region
  (`TryBox.PromiseFails`); `TryBox.PromiseExactly` says for which regions its
  promise holds.
- `invalidate_icv` compares the whole stored value, while a check compares only
  the address part. The owner of a granule that was ever pre-initialised passes
  checks and is refused the invalidation (`Integrity.InvalidationRefused`);
  `Integrity.InvalidationExactly` is the condition for all histories.
- After a read over several granules with read faults off, the failure flag tells
  whether some granule mismatched if and only if the last one did, or none
  (`IntegrityAccess.ReadFailureExactly`, with a failing read in
  `IntegrityAccess.ReadFailureForgotten`).
- Forward `copyICVs` into a range that begins in a source granule after the first,
  through a CA, loses invalid ICVs: it is a snapshot of every table if and only if
  that is not so (`IntegrityAccess.AlignedCopyIsSnapshot`). Byte ranges that are
  disjoint but share a granule are such a case
  (`IntegrityAccess.SharedGranuleLosesInvalid`).
- `copyICVs` of zero bytes changes no table if and only if the addresses are
  aligned to a granule (`IntegrityAccess.EmptyCopyExactly`, with a failing copy in
  `IntegrityAccess.EmptyCopyChangesTable`).
- Entering and leaving SMM does not restore a GSRIP that is set but disabled
  (`ShadowRip.SmmLosesDisabledGsrip`), and faults when the instruction pointer lies
  outside its slot; in all other cases, and only in those, both are restored
  (`ShadowRip.SmmRoundTrip`).
- `encrypt_decrypt_many_bytes` has a 32-bit counter: its loop ends if and only if
  the size is at most 2^32 - 64 (`Keystream.LoopEndsExactly`).
- `get_countermode_mask` leaves its mask unwritten when the range reaches the end of
  the address space (`Keystream.GetCountermodeMask`), so nothing is promised of the
  bytes then.

## Model

| member | source | states |
|---|---|---|
| BipBip.SboxTable | crypto/bipbip.cpp:47-60 | the inverse S-box table undoes the S-box table |
| BipBip.SboxInvTable | crypto/bipbip.cpp:47-60 | and the S-box table undoes the inverse one, so both are permutations |
| BipBip.PiTables | crypto/bipbip.cpp:24-36 | the three data-path position tables and their inverse tables undo each other |
| BipBip.StrideTables | crypto/bipbip.cpp:38-45 | the two tables of the tweak path are strides on a cycle of 53 positions: PI4 by 13, PI5 by 11 |
| BipBip.Pi4InvTable | crypto/bipbip.cpp:38-41 | every one of the 53 positions is hit, the i-th at index 49 i modulo 53 |
| BipBip.Pi5InvTable | crypto/bipbip.cpp:42-45 | the same of PI5, at index 29 i modulo 53 |
| BipBip.Sbox | crypto/bipbip.cpp:66-73 | the loop that shifts groups in from the top replaces every 6-bit group by its table entry, each group in its own place |
| BipBip.BitPermutation | crypto/bipbip.cpp:101-108 | the loop that grows the result bit by bit puts input bit PI[i] at position i |
| BipBip.ThetaSquared | crypto/bipbip.cpp:85-90 | theta_d applied twice is a rotation by 4 on every 24-bit block |
| BipBip.LML1Inverse | crypto/bipbip.cpp:85-99 | LML1_inv undoes LML1 and LML1 undoes LML1_inv |
| BipBip.CoreRoundInverse | crypto/bipbip.cpp:115-127 | RFC and RFC_inv undo each other |
| BipBip.ShellRoundInverse | crypto/bipbip.cpp:129-136 | RFS and RFS_inv undo each other |
| BipBip.DecryptAfterEncrypt | crypto/bipbip.cpp:139-196 | decryption undoes encryption for every block and every tweak schedule |
| BipBip.EncryptAfterDecrypt | crypto/bipbip.cpp:139-196 | encryption undoes decryption for every block and every tweak schedule |
| BipBip.ChiInjective | crypto/bipbip.cpp:200-205 | chi is injective on 53-bit words, because alternating differences cannot close up on an odd cycle |
| BipBip.LML3Injective | crypto/bipbip.cpp:216-220 | words with the same image under the Gray-code layer agree in every bit from any position up |
| BipBip.CancelsPower | crypto/bipbip.cpp:208-213 | a difference that theta_t cancels is also cancelled by its 2^k-th power, for every k |
| BipBip.LML2Injective | crypto/bipbip.cpp:208-213 | theta_t is injective on 53-bit words: since 2^26 is -1 modulo 53, a cancelled difference has period 6 on a cycle of 53, so it is nothing |
| BipBip.RGCInjective | crypto/bipbip.cpp:241-247 | the G round is injective on 53-bit words |
| BipBip.RGPInjective | crypto/bipbip.cpp:250-256 | the G' round is injective on 53-bit words |
| BipBip.DeinterleaveIsEvenBits | crypto/bipbip.cpp:222-230 | the mask-and-shift ladder returns exactly the even bits below 48, in order |
| BipBip.RoundKeysSplitState | crypto/bipbip.cpp:233-238 | RKE0 and RKE1 are the even and the odd bits of the low 48 bits, so together they determine them |
| BipBip.NextDataKeyPosition | crypto/bipbip.cpp:304-306 | multiplying by 3 modulo 256 at every step gives the powers of 3 modulo 256 |
| BipBip.GenDataRoundKey | crypto/bipbip.cpp:301-309 | the loop collects the key bits at positions 3, 9, 27 and so on: the powers of 3 modulo 256 |
| BipBip.GenTweakRoundKey | crypto/bipbip.cpp:311-319 | one pass of the loop collects the next 53 key bits cyclically and leaves the position after them |
| BipBip.GenKeySchedule | crypto/bipbip.cpp:301-321 | the whole schedule is the one defined by key-bit positions |
| BipBip.CipherInverse | crypto/bipbip.cpp:349-359 | for every key, tweak and 24-bit block, each direction of the cipher undoes the other and stays within 24 bits |
| BipBip.PointerCipher24b.constructor | crypto/bipbip.cpp:323 | a new cipher has no key |
| BipBip.PointerCipher24b.InitKey | crypto/bipbip.cpp:329-339 | afterwards the key schedule is that of the key and the cached tweak schedule agrees with the cached tweak |
| BipBip.PointerCipher24b.RegenerateTweakScheduleForNewTweak | crypto/bipbip.cpp:340-347 | whichever branch is taken, the cached schedule is TwkSc of the new tweak under the loaded key |
| BipBip.PointerCipher24b.Encrypt | crypto/bipbip.cpp:349-353 | the result is that of the uncached cipher, and the cache invariant is kept |
| BipBip.PointerCipher24b.Decrypt | crypto/bipbip.cpp:355-359 | the result is that of the uncached cipher, and the cache invariant is kept |
| BipBip.Session | crypto/bipbip.cpp:329-359 | in any interleaving of calls with any tweaks, every answer depends only on the key, the tweak and the block of its call |
| BipBipKeys.SboxLayerBit | crypto/bipbip.cpp:66-73 | bit j of the layer is bit j mod 6 of the table entry that the six bits around it name |
| BipBipKeys.CoreRoundBits | crypto/bipbip.cpp:115-120 | every bit of a core round is the sum of three S-box output bits: the one PI2 and PI1 lead to, and those 2 and 12 positions ahead of it between them |
| BipBipKeys.ShellRoundBits | crypto/bipbip.cpp:129-132 | every bit of a shell round is one S-box output bit |
| BipBipKeys.DecryptionIsRounds | crypto/bipbip.cpp:169-196 | the eleven rounds in order, each under its own round key, core rounds from the fourth to the eighth, and the last key on top |
| BipBipKeys.RoundKeyMatters | crypto/bipbip.cpp:139-196 | changing any one of the twelve round keys changes what every block is decrypted and encrypted to |
| BipBipKeys.RoundsDiffer | crypto/bipbip.cpp:169-196 | a change of round key r shows in the block after every later round and in none before |
| BipBipKeys.TwoStrides | crypto/bipbip.cpp:38-45 | PI5 followed by PI4 is a stride by 37 |
| BipBipKeys.GRoundBits | crypto/bipbip.cpp:241-247 | a G round, bit by bit without its tables: chi of the sums of the state bits at 37 i, 37 i + 13 and 37 i + 104 modulo 53 |
| BipBipKeys.GPrimeRoundBits | crypto/bipbip.cpp:250-256 | the same of a G' round, with the Gray code in place of the sums |
| BipBipKeys.GrayLayerBit | crypto/bipbip.cpp:216-220 | every bit is added to the one above it |
| BipBipKeys.ScheduleBits | crypto/bipbip.cpp:259-290 | round key 0 is the data key, and bit i of round key r is bit 2 i or 2 i + 1 of the state that the round key is taken from |
| BipBipKeys.StatesInjective | crypto/bipbip.cpp:259-290 | all eight states are injective in the padded tweak, under every key |
| BipBipKeys.PaddedNumber | crypto/bipbip.cpp:293-299 | the padded tweak as a number: the low 40 bits of the tweak, a one, twelve zeros |
| BipBipKeys.PaddedBit | crypto/bipbip.cpp:293-299 | bit j of the tweak is bit 13 + j of the padded tweak, and the bits below are the same for all tweaks |
| BipBipKeys.TweaksGiveStates | crypto/bipbip.cpp:259-299 | distinct 40-bit tweaks give distinct states at all eight places that round keys are taken from |
| BipBipKeys.LowBitsDecide | crypto/bipbip.cpp:241-247 | a G round spreads the top five bits of its state over the low 48: words that agree below bit 48 before and after it are the same |
| BipBipKeys.TweakMatters | crypto/bipbip.cpp:259-299 | under every key, distinct 40-bit tweaks have distinct schedules |
| BipBipKeys.KeyMatters | crypto/bipbip.cpp:301-321 | every one of the 256 key bits is in the key schedule: equal schedules come from equal keys |
| CryptoAddress.GetCaOfWord | c3lib/c3/generic/ca.h:46-82 | reading the fields of a word built from fields gives the fields back |
| CryptoAddress.WordOfGetCa | c3lib/c3/generic/ca.h:46-82 | the fields of a word rebuild the word |
| CryptoAddress.FieldsOfWord | c3lib/c3/generic/ca.h:46-73 | every field is at its bit position in the word |
| CryptoAddress.CanonicalFields | c3lib/c3/generic/ca.h:117-120 | an address is canonical exactly when its version, size and top fields repeat the sign bit |
| CryptoAddress.BipBipInvertible | crypto/cc_encoding.h:80-86 | the pointer cipher under any key schedule is an inverse pair, as the pointer lemmas require |
| CryptoAddress.CipherIsBipBip | crypto/cc_encoding.h:80-86 | the cipher of the pointer lemmas is BipBip under the key schedule |
| CryptoAddress.SlotsHaveSchedules | crypto/cc_encoding.h:98-124 | two pointers are encrypted under the same schedule if and only if they have the same size and the same fixed plaintext bits |
| CryptoAddress.EncodedFields | crypto/cc_encoding.h:98-104 | an encoded pointer, bit by bit: version and address bits 32 to 46 are the encryption of those under the tweak made of the fixed low bits and the size; all other bits are in the clear |
| CryptoAddress.DecodedFields | crypto/cc_encoding.h:115-124 | a decoded pointer, bit by bit: address bits 32 to 46 are the decryption under the same tweak, and the bits above repeat the sign bit |
| CryptoAddress.SlotBits | c3lib/c3/generic/ca.h:113-115 | two words share a slot if and only if they agree above bit 32 and their plaintext bits share it |
| CryptoAddress.DecodeShift | crypto/cc_encoding.h:115-124 | decoding commutes with every step that stays in the slot: no carry reaches encrypted or size bits |
| CryptoAddress.DecodeOfEncode | crypto/cc_encoding.h:98-198 | decoding an encoded canonical address gives the address, for every size and version |
| CryptoAddress.StaysInSlot | crypto/cc_encoding.h:45-52 | a step inside the address's slot stays inside the slot of the encoded pointer and does not wrap |
| CryptoAddress.PointerRoundTrip | crypto/cc_encoding.h:98-198 | for every canonical p, size 1 to 33, version, and positive or negative d with p + d in the slot of p, decoding encode(p) + d gives p + d |
| TryBox.HeldBySomeSlot | malloc/try_box.h:14-21 | a region fits a slot of 2^k bytes exactly when its first and last address agree above bit k |
| TryBox.DifferenceBits | malloc/try_box.h:14-21 | without wrap, the leading zeros of the difference word decide which slots hold the region |
| TryBox.TryBoxSmallest | malloc/try_box.h:27-51 | without wrap, success names the smallest slot that holds the region, and the first and last byte lie in one block of decode_size bytes; failure means that no slot of at most 4 GiB holds the region |
| TryBox.PromiseExactly | malloc/try_box.h:14-51 | success coincides with the existence of a slot if and only if the region does not wrap, or wraps and ends outside the 4 GiB block it started in |
| TryBox.PromiseFails | malloc/try_box.h:14-51 | a concrete wrapping region is boxed although no slot holds it |
| TryBox.InboundOffsetLargest | c3lib/c3/generic/ca.h:145-150 | ca_get_inbound_offset is the largest offset up to i that stays in the slot |
| TryBox.EncodedPointerReachesRegion | malloc/try_box.h:53-60 | every byte of a boxed region is reached by adding its offset to the encoded pointer, which stays a CA |
| TryBox.RegionFields | malloc/try_box.h:53-60 | the pointer of a boxed region has the chosen size and the given version, encrypted with address bits 32 to 46; a region that cannot be boxed keeps its address |
| TryBox.RegionPointer | malloc/try_box.h:53-60 | each of those pointers is a CA of its own that decodes to the canonical address of its byte |
| TryBox.RegionByte | malloc/try_box.h:53-60 | the same of one byte of the region |
| IcvMap.NonZeroUpdate | modules/common/ccsimics/icv_map.h:33-41 | an update changes the number of non-zero entries exactly as the two tests on count do |
| IcvMap.Page1.Set | modules/common/ccsimics/icv_map.h:33-41 | stores the value at its index only, and the count stays the number of non-zero entries |
| IcvMap.ICVMap.constructor | modules/common/ccsimics/icv_map.h:46 | a new map is 0 everywhere |
| IcvMap.ICVMap.Clear | modules/common/ccsimics/icv_map.h:49 | afterwards the map is 0 everywhere |
| IcvMap.ICVMap.Get | modules/common/ccsimics/icv_map.h:74-82 | returns what the total map holds |
| IcvMap.ICVMap.Set | modules/common/ccsimics/icv_map.h:51-72 | changes the total map at the index and nowhere else, through all four paths of page update, erasure, no-op and creation |
| IcvMap.ICVMap.SetInPage | modules/common/ccsimics/icv_map.h:54-62 | update of an existing page, which is erased exactly when its last non-zero entry goes |
| IcvMap.ICVMap.SetInNewPage | modules/common/ccsimics/icv_map.h:64-71 | the page is created for a non-zero value only |
| IcvMap.ICVMap.PagePresence | modules/common/ccsimics/icv_map.h:51-72 | a page is stored if and only if some index on it has a non-zero value |
| IcvMap.TableHoldsLastWritten | modules/common/ccsimics/icv_map.h:49-82 | after any prefix of a run the table gives every index the value last written to it since the last clear, or 0 |
| IcvMap.Run | modules/common/ccsimics/icv_map.h:49-82 | in every run of set, get and clear, each get answers what the total map with default 0 holds at that point |
| Integrity.FlagsCompose | c3lib/c3/generic/icv.h:31-77 | address part and the three flag bits of an ICV are independent |
| Integrity.FlagBits | c3lib/c3/generic/icv.h:31-77 | PREINIT is bit 2, uninitialised is bit 1, and the address part is the rest above bit 2 |
| Integrity.EnablePreinit | c3lib/c3/generic/icv.h:73 | sets the PREINIT bit and keeps address part and initialisation |
| Integrity.Uninitialize | c3lib/c3/generic/icv.h:47 | sets the bit for uninitialised and keeps the rest |
| Integrity.Initialize | c3lib/c3/generic/icv.h:43 | clears that bit and keeps the rest |
| Integrity.StepRecorded | modules/common/ccsimics/integrity.h:461-505 | one check or pre-initialisation keeps the link between history and stored flags |
| Integrity.HistoryRecorded | modules/common/ccsimics/integrity.h:461-746 | after any history the address part of an ICV is what it was, PREINIT is set exactly when the granule was pre-initialised, and the uninitialised bit exactly when no write check has passed since |
| Integrity.UninitializedReadExactly | modules/common/ccsimics/integrity.h:661-746 | a matching read is reported as uninitialised if and only if the granule was pre-initialised and no write check has passed since it first was |
| Integrity.InvalidMatchesNothing | modules/common/ccsimics/integrity.h:320-322 | no access matches an invalidated granule |
| Integrity.InvalidForever | modules/common/ccsimics/integrity.h:320-322 | and no history of checks and pre-initialisations changes that |
| Integrity.InvalidationIsFinal | modules/common/ccsimics/integrity.h:309-338 | after an accepted invalidation and any history, no pointer matches the granule, and with write faults on every write to it faults |
| Integrity.InvalidAfterwards | modules/common/ccsimics/integrity.h:309-338 | an invalidation leaves the granule invalid if and only if it was, or the pointer is a CA equal to the whole stored value up to its granule offset; a plain pointer never does, even where it matches |
| Integrity.InvalidationKeepsOthers | modules/common/ccsimics/integrity.h:309-338 | no other granule changes, and a refused invalidation changes nothing |
| Integrity.CheckFaultsExactly | modules/common/ccsimics/integrity.h:661-746 | a write check faults if and only if it mismatches and write faults are on; a read check if and only if read faults are on and it mismatches or finds the granule uninitialised |
| Integrity.InvalidationExactly | modules/common/ccsimics/integrity.h:309-338 | after any history, a CA that passes the check can invalidate the granule if and only if the granule was never pre-initialised |
| Integrity.InvalidationRefused | modules/common/ccsimics/integrity.h:309-338 | a concrete owner that passes the check and is refused the invalidation |
| IntegrityAccess.GranulesVisited | modules/common/ccsimics/integrity.h:518-528 | the loop, which steps by eight from the first byte, visits exactly the granules the access overlaps |
| IntegrityAccess.AccessIsHistory | modules/common/ccsimics/integrity.h:508-541 | a locked access is a history of granule checks cut at the first fault, so the theorems on histories hold of accesses |
| IntegrityAccess.ReadFailureIsLast | modules/common/ccsimics/integrity.h:673-713 | with read faults off, the failure flag after a read is the verdict on the last granule |
| IntegrityAccess.ReadFailureExactly | modules/common/ccsimics/integrity.h:673-713 | the flag tells whether some granule mismatched if and only if the last one did, or none |
| IntegrityAccess.ReadFailureForgotten | modules/common/ccsimics/integrity.h:673-713 | a concrete read of two granules whose first mismatches and whose flag ends clear |
| IntegrityAccess.CheckKeepsVerdicts | modules/common/ccsimics/integrity.h:661-746 | a check changes no verdict on any granule through any pointer, and a read changes nothing |
| IntegrityAccess.AccessFaultsExactly | modules/common/ccsimics/integrity.h:508-541 | with faults on for its direction, the loop over the granules faults if and only if some granule mismatches, or is uninitialised when read |
| IntegrityAccess.FaultsByByte | modules/common/ccsimics/integrity.h:508-541 | an access faults if and only if the lock is on, its address is not 0, and the granule of one of its bytes refuses the CA advanced to it |
| IntegrityAccess.UnlockedStoreSets | modules/common/ccsimics/integrity.h:522-540 | an unlocked store gives granule i the ICV of the pointer advanced by 8 i, for every granule it overlaps |
| IntegrityAccess.LaterSetsKeep | modules/common/ccsimics/integrity.h:522-540 | and changes no other granule |
| IntegrityAccess.RangeHoldsCa | c3lib/c3/generic/icv.h:182-194 | after cc_set_icv every granule of the range holds the CA of its own bytes, with both flags clear |
| IntegrityAccess.OtherGranulesKept | c3lib/c3/generic/icv.h:182-194 | every granule outside the range keeps its ICV |
| IntegrityAccess.SetThenCheck | c3lib/c3/generic/icv.h:182-194 | after cc_set_icv, every locked read or write through that CA anywhere in the range passes on all granules it overlaps, reports nothing and changes nothing |
| IntegrityAccess.RegionIsClaimable | c3lib/c3/generic/icv.h:182-194 | the pointer that encoding gives to a boxed region meets the conditions of these theorems |
| IntegrityAccess.RegionSetThenCheck | c3lib/c3/generic/icv.h:182-194 | from allocation on: set over a boxed region through its pointer, then every locked access through that pointer to any part of the region passes |
| IntegrityAccess.PlainAccessMismatches | modules/common/ccsimics/integrity.h:669-673 | a plain access to any byte of the range mismatches on that byte's granule |
| IntegrityAccess.PlainWriteFaults | modules/common/ccsimics/integrity.h:694-702 | with write faults on, a plain write of any length that touches one byte of the range faults |
| IntegrityAccess.CopyIsSnapshot | modules/common/ccsimics/integrity.h:443-449 | when no source granule is overwritten before it is read, the loop computes every destination granule from what its source held before the copy, and keeps every other entry |
| IntegrityAccess.IcvCountExactly | modules/common/ccsimics/integrity.h:394-403 | the computed count is the number of granules the bytes lie in, except for an empty copy at an unaligned address |
| IntegrityAccess.AlignedCopyIsSnapshot | modules/common/ccsimics/integrity.h:378-459 | a non-empty forward copy of equally aligned ranges makes each destination granule 0, invalid or its own address under the destination CA, from the source before the copy, and changes nothing else, for every table, if and only if the destination is plain, or begins at or below the first source granule or above the last |
| IntegrityAccess.SharedGranuleLosesInvalid | modules/common/ccsimics/integrity.h:445-449 | a concrete copy between disjoint byte ranges that share a granule loses an invalid ICV |
| IntegrityAccess.CopiedRangeMatches | modules/common/ccsimics/integrity.h:405-459 | after a safe copy the destination pointer matches every granule of its range but those whose source was invalid, and nothing matches those |
| IntegrityAccess.EmptyCopyExactly | modules/common/ccsimics/integrity.h:394-403 | a forward copy of no bytes between equally aligned addresses changes no table if and only if they are aligned to a granule |
| IntegrityAccess.EmptyCopyChangesTable | modules/common/ccsimics/integrity.h:394-403 | a concrete copy of no bytes that clears an ICV |
| IntegrityAccess.Checker.CheckGranule | modules/common/ccsimics/integrity.h:585-746 | verdict, failure flag and stored flags of one check; a faulting mismatch leaves map and flag as they were |
| IntegrityAccess.Checker.CheckIntegrity | modules/common/ccsimics/integrity.h:508-541 | when integrity is enabled, the loop over the granules is the specified access, stopped at a fault; when it is disabled nothing changes and nothing faults |
| IntegrityAccess.Checker.CheckAll | modules/common/ccsimics/integrity.h:522-540 | the locked loop |
| IntegrityAccess.Checker.SetAll | modules/common/ccsimics/integrity.h:522-540 | the unlocked loop |
| IntegrityAccess.Checker.CcSetIcv | c3lib/c3/generic/icv.h:182-194 | unlock, load and store every byte once, lock: the map is that of the range set, or unchanged when integrity is disabled, and the lock is on |
| IntegrityAccess.Checker.TouchByte | c3lib/c3/generic/icv.h:187-191 | the load and the store of one byte |
| IntegrityAccess.Checker.CopyIcvsForward | modules/common/ccsimics/integrity.h:443-458 | the forward branch with its extra granule, as the specified copy |
| IntegrityAccess.Checker.CopyGranule | modules/common/ccsimics/integrity.h:405-416 | one granule of the copy: 0, invalid, or its address |
| IntegrityAccess.Checker.PreInitIcv | modules/common/ccsimics/integrity.h:462-505 | sets PREINIT and uninitialised once; a second call changes nothing |
| IntegrityAccess.Checker.Invalidate | modules/common/ccsimics/integrity.h:309-338 | changes the map as the specified invalidation does, which InvalidationIsFinal and InvalidAfterwards pin, and reports whether the pointer was a CA and matched |
| Ascon.BitslicedIsTable | crypto/ascon_cipher.cpp:48-59 | the bitsliced formulas apply the 5-bit S-box to every column, with x2 complemented |
| Ascon.SpreadIsSigma | crypto/ascon_cipher.cpp:60-70 | the nested rotations give the rotation pair of each word of the reference linear layer |
| Ascon.RoundIsReference | crypto/ascon_cipher.cpp:44-72 | the optimised round is the round of section 3 of NIST SP 800-232 (constant addition, S-box by table, linear layer) for every state and constant |
| Ascon.SubstituteWords | crypto/ascon_cipher.cpp:46-59 | the assignments of the constant and S-box layer leave the bitsliced formulas of the old state |
| Ascon.DiffuseWords | crypto/ascon_cipher.cpp:60-71 | the assignments of the linear layer leave the nested rotations of those words |
| Ascon.Round | crypto/ascon_cipher.cpp:44-72 | ROUND, updating its array in place, computes the reference round |
| Ascon.P12Rounds | crypto/ascon_cipher.cpp:74-87 | the twelve rounds are the reference permutation with its constants |
| Ascon.SixRounds | crypto/ascon_cipher.cpp:74-80 | the first six rounds, with their literal constants |
| Ascon.SixMoreRounds | crypto/ascon_cipher.cpp:81-87 | the last six |
| Ascon.Ascon64bStream | crypto/ascon_cipher.cpp:93-116 | the keystream word is one absorbed block between two reference permutations |
| AsconInjective.CancelsSquare | crypto/ascon_cipher.cpp:60-70 | a difference that a rotation pair cancels is cancelled by its square |
| AsconInjective.SigmaInjective | crypto/ascon_cipher.cpp:60-70 | every rotation sum of the linear layer is injective, for any two rotations: its 64th power is the identity |
| AsconInjective.SubstitutionInjective | crypto/ascon_cipher.cpp:48-59 | the S-box layer is injective |
| AsconInjective.RoundInjective | crypto/ascon_cipher.cpp:44-72 | so is every round, for every constant |
| AsconInjective.PermutationInjective | crypto/ascon_cipher.cpp:74-87 | and any number of rounds |
| AsconInjective.StreamWordOfState | crypto/ascon_cipher.cpp:93-116 | the keystream word is the first word of the final state |
| AsconInjective.AddressMatters | crypto/ascon_cipher.cpp:93-116 | under one key, distinct 64-bit addresses reach distinct final states |
| AsconInjective.KeyMatters | crypto/ascon_cipher.cpp:93-116 | for one address, distinct 128-bit keys reach distinct final states |
| Keystream.TransformTwice | crypto/cc_encoding.h:256-270 | decryption undoes encryption at every address |
| Keystream.XorByteBits | crypto/cc_encoding.h:266 | bit k of a masked byte is set exactly when bit k of the data and bit k of the mask differ |
| Keystream.TransformBits | crypto/cc_encoding.h:256-270 | bit k of the byte at address a is flipped exactly where bit k of byte a mod 8 of the keystream word for a rounded down to 8 is set |
| Keystream.StreamBits | crypto/cc_encoding.h:245-253 | bit b of byte k of the keystream at an address is bit 8 k + b of the Ascon word of that address |
| Keystream.TransformSplit | crypto/cc_encoding.h:256-270 | any split of a range gives the same bytes |
| Keystream.TransformSlice | crypto/cc_encoding.h:256-270 | every part of the result is the transform of that part at its own address |
| Keystream.GetCountermodeMask | crypto/cc_encoding.h:242-254 | the mask holds the keystream bytes from the address rounded down on; for sizes up to 64 it stays inside 72 bytes |
| Keystream.ApplyMask | crypto/cc_encoding.h:264-269 | the downward loop XORs every byte with its mask byte, also when input and output are one buffer, and keeps the bytes around |
| Keystream.EncryptDecryptBytes | crypto/cc_encoding.h:256-270 | below the end of the address space, the byte at address a is XORed with byte a mod 8 of the keystream word of a rounded down to 8; the bytes around are kept in any case |
| Keystream.LoopEndsExactly | crypto/cc_encoding.h:278 | the 32-bit chunk counter reaches the size if and only if the size is at most 2^32 - 64 |
| Keystream.EncryptDecryptManyBytes | crypto/cc_encoding.h:273-289 | for the sizes its loop ends for, the 64-byte chunks together equal the per-byte specification below the end of the address space, and bytes past the size are kept |
| C3Access.UnsplitAccess | modules/common/ccsimics/c3_base_model.h:326-498 | a one-page access transforms exactly its bytes and leaves both crossing flags clear, whatever state a finished access left |
| C3Access.FirstChunkEffect | modules/common/ccsimics/c3_base_model.h:487-497 | after the first chunk the state waits for the second at the byte after it |
| C3Access.SecondChunkEffect | modules/common/ccsimics/c3_base_model.h:381-485 | the second chunk is transformed at that byte and both flags are cleared |
| C3Access.SplitEncodedIsWhole | modules/common/ccsimics/c3_base_model.h:326-498 | a CA access delivered as two chunks transforms the same bytes as one unsplit access and leaves both flags clear, for user and supervisor addresses |
| C3Access.SplitAccessIsWhole | modules/common/ccsimics/c3_base_model.h:326-498 | the same of every access, plain ones leaving their bytes alone |
| C3Access.LostSecondChunkFaults | modules/common/ccsimics/c3_base_model.h:381-412 | while the second chunk is due, any other plain access faults and changes no state |
| C3Access.StrayDataKept | modules/common/ccsimics/c3_base_model.h:247-268 | data at an address other than the decoded one are left alone, and the first three times the access under way is given up |
| C3Access.DisabledIsTransparent | modules/common/ccsimics/c3_base_model.h:326-498 | with C3 disabled no access changes its pointer or its data |
| C3Access.RunHasNoHistory | modules/common/ccsimics/c3_base_model.h:326-498 | in every run of accesses, split and unsplit, encrypted and plain in any combination, each access does what it would do alone |
| C3Access.C3BaseModel.AddressBeforeCb | modules/common/ccsimics/c3_base_model.h:326-413 | the callback changes the fields as the state machine does, with its fault on a lost second chunk |
| C3Access.C3BaseModel.ModifyDataCb | modules/common/ccsimics/c3_base_model.h:416-498 | the callback changes fields and buffer as the state machine does |
| C3Memory.RegionIsReached | malloc/try_box.h:53-60 | the pointer to a boxed region reaches every byte of it |
| C3Memory.StepAlone | modules/common/ccsimics/c3_base_model.h:326-498 | a load or store through the callbacks, cut or whole, amounts to the keystream of the pointer's own address, whatever state a finished access left |
| C3Memory.StoreTransformed | crypto/cc_encoding.h:256-270 | storing transformed bytes is storing the bytes themselves to the plaintext |
| C3Memory.InsideIsFlat | modules/common/ccsimics/c3_base_model.h:326-498 | a load or store through a pointer into an object is that load or store of its plaintext |
| C3Memory.OutsideKeepsObject | modules/common/ccsimics/c3_base_model.h:326-498 | an access that touches none of the object's bytes leaves its plaintext alone |
| C3Memory.RunIsFlat | modules/common/ccsimics/c3_base_model.h:326-498 | every run of loads and stores through the pointers into an object, cut or whole, mixed with accesses elsewhere, is a run of flat plaintext memory |
| C3Memory.RegionIsFlat | malloc/try_box.h:53-60 | the same under the BipBip cipher and the Ascon keystream for every key, from the allocation of a region on |
| C3Memory.Chunk | modules/common/ccsimics/c3_base_model.h:326-498 | one chunk on the callback object and an array of bytes does what the state machine says |
| C3Memory.Execute | modules/common/ccsimics/c3_base_model.h:326-498 | a load or store instruction on the callback object and an array of bytes is the specified step |
| C3Memory.Session | modules/common/ccsimics/c3_base_model.h:326-498 | every run on the machine is the specified run; for an object its CA reaches it is a run of flat plaintext memory |
| ShadowRip.ReplacedDecodes | modules/common/ccsimics/shadow_rip.h:917-961 | an address of the slot, hidden behind GSRIP's fixed bits, is a CA that decodes to itself and normalises to that GSRIP |
| ShadowRip.SlotExactly | modules/common/ccsimics/shadow_rip.h:917-961 | an address lies in the slot if and only if it comes back from being hidden behind the fixed bits |
| ShadowRip.ReplacedStaysInSlot | modules/common/ccsimics/shadow_rip.h:957-960 | whatever the address, fixed bits put in front of its offset decode into the slot |
| ShadowRip.CallEffect | modules/common/ccsimics/shadow_rip.h:683-716 | a call leaves the return address at the stack top, hidden when there is a GSRIP, so that the matching return finds both in it; through a register it goes to the decoded target and takes its fixed bits, and directly it keeps GSRIP; no register changes |
| ShadowRip.JumpEffect | modules/common/ccsimics/shadow_rip.h:856-913 | a jump through a register goes to the decoded target and takes its fixed bits, a direct jump goes to its target and keeps GSRIP; registers, memory and stack pointer are unchanged |
| ShadowRip.EscapeFaults | modules/common/ccsimics/shadow_rip.h:915-961 | a call with a GSRIP faults if and only if its return address lies outside the slot, and the fault disables GSRIP |
| ShadowRip.DisabledIsTransparent | modules/common/ccsimics/shadow_rip.h:683-748 | with GSRIP disabled, calls, jumps and returns do what the processor does alone |
| ShadowRip.ReturnEffect | modules/common/ccsimics/shadow_rip.h:720-748 | the matching return goes to the pushed address and restores the caller's normalised GSRIP |
| ShadowRip.StepKeepsFrame | modules/common/ccsimics/shadow_rip.h:683-748 | one call with everything up to its return, or one jump, keeps the frame: no fault, GSRIP enabled, same stack pointer, nothing written at or above it; after a call the instruction pointer is the pushed address and GSRIP is the caller's |
| ShadowRip.RunKeepsFrame | modules/common/ccsimics/shadow_rip.h:451-748 | the same of every well-nested run of any depth whose return addresses lie in the slot current at the call |
| ShadowRip.SmmRoundTrip | modules/common/ccsimics/shadow_rip.h:519-549 | entering and leaving SMM restores instruction pointer and GSRIP if and only if GSRIP is 0, or it is enabled and the instruction pointer lies in its slot |
| ShadowRip.SmmEntered | modules/common/ccsimics/shadow_rip.h:519-530 | after every entry that does not fault GSRIP is 0 and the instruction pointer decodes to the old one; an entry faults if and only if GSRIP is enabled and not 0 and the instruction pointer is outside the slot |
| ShadowRip.SmmLosesDisabledGsrip | modules/common/ccsimics/shadow_rip.h:519-549 | a concrete GSRIP that is set, disabled and lost |
| ShadowRip.ShadowRip.InstructionBeforeCb | modules/common/ccsimics/shadow_rip.h:142-150 | the fix-up requests of the last instruction are dropped |
| ShadowRip.ShadowRip.DecodePtrAndUpdateGsrip | modules/common/ccsimics/shadow_rip.h:888-913 | GSRIP becomes the fixed bits of a CA target or 0, and the decoded target is returned |
| ShadowRip.ShadowRip.EmulCallOrJmpCb | modules/common/ccsimics/shadow_rip.h:683-716 | fields and register change as the specified step |
| ShadowRip.ShadowRip.InstructionAfterCb | modules/common/ccsimics/shadow_rip.h:451-481 | the return address is rewritten and the register restored as specified; an escape from the slot faults and disables GSRIP |
| ShadowRip.ShadowRip.EmulRetCb | modules/common/ccsimics/shadow_rip.h:720-748 | stack word and GSRIP change as the specified step |
| ShadowRip.ShadowRip.SmmEnterBeforeCb | modules/common/ccsimics/shadow_rip.h:519-530 | the instruction pointer takes GSRIP's fixed bits and GSRIP is cleared |
| ShadowRip.ShadowRip.SmmLeaveAfterCb | modules/common/ccsimics/shadow_rip.h:533-549 | the instruction pointer is decoded and GSRIP taken from it |
| Quarantine.NextSlot | malloc/cc_malloc.c:80-89 | the two indices count the inserts: row and column of the insert count, and the number of releases that follows |
| Quarantine.Quarantine.BufferFree | malloc/cc_malloc.c:62-68 | the loop frees one buffer in order and changes nothing else |
| Quarantine.Quarantine.Insert | malloc/cc_malloc.c:74-90 | after every insert, released plus held pointers are, in order, the nulls of the start followed by all inserted pointers |
| Quarantine.Quarantine.Place | malloc/cc_malloc.c:80-83 | the store of one pointer and the step of the index |
| Quarantine.ReleaseTime | malloc/cc_malloc.c:74-90 | the k-th pointer is released exactly Delay(k) inserts after its own, which is at least DEPTH * (WIDTH - 1) and at most DEPTH * WIDTH - 1 |
| Quarantine.Run | malloc/cc_malloc.c:74-90 | over any run of inserts, what was freed is a prefix of the insertion order, each pointer once, of exactly the stated length |
| LimEncoding.PointerFields | malloc/lim_ptr_encoding.h:119-138 | address, tag and size come back from an encoded pointer, which is recognised as one |
| LimEncoding.SlotGeometry | malloc/lim_ptr_encoding.h:143-178 | the slot encloses the address, its middle halves it, and metadata occupy at most the bytes from 8 below to 7 above the middle, always including the middle |
| LimEncoding.MetadataPlace | malloc/lim_ptr_encoding.h:150-178 | 1 byte at the middle of slots up to 64 bytes, 2 bytes from one below it up to 256, 16 bytes from 8 below it above |
| LimEncoding.ChunkStraddlesMiddle | malloc/lim_ptr_encoding.h:188-203 | the slot chosen for an aligned chunk is so tight that the chunk starts 16 bytes or more below the middle and ends at or above it |
| LimEncoding.SomeAllocations | malloc/lim_ptr_encoding.h:188-224 | concrete allocations with metadata of 1, 2 and 16 bytes meet the conditions of the theorems |
| LimEncoding.BoundsOfAllocation | malloc/lim_ptr_encoding.h:248-331 | for every allocation no assertion fails, no bound is truncated by its 2-, 4- or 60-bit field, and the bounds run from the pointer to exactly the first 8-byte boundary at or after data and metadata, but not below the 8 bytes above the middle; that is inside the slot |
| LimEncoding.LittleEndianInverse | malloc/lim_ptr_encoding.h:71-95 | bytes of a number give the number back |
| LimEncoding.LittleEndianByte | malloc/lim_ptr_encoding.h:71-95 | byte i has weight 256 to the power i |
| LimEncoding.PackedLayout | malloc/lim_ptr_encoding.h:71-95 | where the fields of the three layouts begin |
| LimEncoding.UnpackInverse | malloc/lim_ptr_encoding.h:71-95 | fields that fit come back from each of the three metadata layouts, with different left and right tags where the layout has both |
| LimEncoding.DecodeOfPacked | malloc/lim_ptr_encoding.h:397-430 | decoding packed metadata gives both tags and the bounds around the middle, without wrap |
| LimEncoding.DecodedBounds | malloc/lim_ptr_encoding.h:337-430 | decoding what set_metadata stored gives the tag twice and the computed bounds set off from the middle |
| LimEncoding.MetadataRoundTrip | malloc/lim_ptr_encoding.h:337-430 | decoding what set_metadata stored gives the tag twice and 8-byte granular bounds that start at the pointer, enclose data and metadata, end at exactly that boundary and stay in the slot; the returned size is that of the bounds |
| LimEncoding.WriteMetadata | malloc/lim_ptr_encoding.h:337-389 | set_metadata writes those bytes through its pointer, leaves every other byte, and returns the size the bounds allow; nothing is written when an assertion fails |
| LimObject.PlaceOwned | modules/lim_model/model.cpp:515-660 | in both modes the byte map is injective on the object's logical addresses, stays inside the bounds and avoids the metadata |
| LimObject.OwnedPlace | modules/lim_model/model.cpp:515-660 | the inverse direction: an address that a logical byte owns is where that byte is stored |
| LimObject.DisplacedAreaIsFree | malloc/lim_ptr_encoding.h:432-446 | displaced bytes never meet the metadata or a directly stored byte of the object |
| LimObject.LoadIsFlat | modules/lim_model/model.cpp:515-660 | a load returns the corresponding bytes of the flat memory |
| LimObject.StoreIsFlat | modules/lim_model/model.cpp:515-660 | a store overwrites exactly its bytes of the flat memory |
| LimObject.StoreKeepsOthers | modules/lim_model/model.cpp:515-660 | the metadata and every byte outside the bounds keep their values |
| LimObject.StoreSplit | modules/lim_model/model.cpp:353-367 | two stores in a row are the store of both |
| LimObject.LoadSplit | modules/lim_model/model.cpp:353-367 | two loads in a row return the bytes of the whole |
| LimRun.AdmittedIsPlaced | modules/lim_model/model.cpp:262-349 | whatever bytes lie in the metadata: if the address callback lets the access pass, the decoded bounds have not wrapped and enclose the metadata inside the slot |
| LimRun.PointerFindsObject | modules/lim_model/model.cpp:210-349 | every pointer into a slot decodes the same object and is let through if and only if it has the tag and lies between the bounds |
| LimRun.PieceSplit | modules/lim_model/model.cpp:447-488 | an access cut in two faults if and only if its second piece does, and otherwise does what the whole does |
| LimRun.AccessIsFlat | modules/lim_model/model.cpp:202-692 | one access, whole or cut at a page, right or wrong tag, in or out of bounds, is the access to flat memory and keeps the metadata |
| LimRun.ElsewhereKeepsObject | modules/lim_model/model.cpp:202-692 | an access to an object with other bounds, or a plain store elsewhere, changes neither object nor metadata |
| LimRun.RunIsFlat | modules/lim_model/model.cpp:202-692 | in both modes, over every run mixed with events elsewhere, every access returns or faults as flat memory does, the object ends as flat memory ends, and the metadata still describe it |
| LimRun.AllocationIsDescribed | malloc/lim_ptr_encoding.h:337-389 | after set_metadata the encoded pointer finds an object that begins at the pointer, has room for all the bytes asked for, and ends where the bounds do |
| LimRun.DoneExactly | modules/lim_model/model.cpp:202-488 | an access to a described object is done, and not refused, if and only if it has the tag and lies within the object |
| LimRun.StoredFieldsDecide | modules/lim_model/model.cpp:210-488 | whatever tags and bounds the metadata hold: an access is done if and only if both stored tags are the pointer's, the bounds keep to the two halves of the slot, and the access keeps between them |
| LimRun.AllocationIsGuarded | modules/lim_model/model.cpp:202-488 | after set_metadata, an access through any pointer into the slot faults unless it has the tag and keeps between the returned pointer and the bounded end, which is less than 8 bytes past the data when the allocation reaches the middle of its slot |
| LimMemory.TranslateInjective | modules/lim_model/model.cpp:66-75 | distinct linear addresses have distinct physical ones |
| LimMemory.ReadIsLinear | modules/lim_model/model.cpp:76-109 | within a page, physical bytes in a row are linear bytes in a row |
| LimMemory.WriteIsLinear | modules/lim_model/model.cpp:110-145 | within a page, a physical store is the linear store and shows at no other linear address |
| LimMemory.ShiftLoadAfter | modules/lim_model/model.cpp:616-620 | after the metadata, reading meta_size further on is the object's load |
| LimMemory.ShiftLoadOver | modules/lim_model/model.cpp:644-655 | over the metadata, the two reads together are the object's load |
| LimMemory.ShiftStoreAfter | modules/lim_model/model.cpp:621-632 | the callback's shifted store followed by the processor's store of the fix-up buffer is the object's store |
| LimMemory.ShiftStoreOver | modules/lim_model/model.cpp:656-673 | the same over the metadata |
| LimMemory.DisplacedLoad | modules/lim_model/model.cpp:516-551 | patching the overlap from the displaced area is the object's load |
| LimMemory.DisplacedStore | modules/lim_model/model.cpp:516-584 | the displaced store followed by the processor's store of data and old metadata is the object's store |
| LimMemory.LoadBefore | modules/lim_model/model.cpp:595-600 | an access the callback leaves alone loads the right bytes |
| LimMemory.StoreBefore | modules/lim_model/model.cpp:595-600 | and stores the right bytes |
| LimModel.LimModel.TranslateLaToPa | modules/lim_model/model.cpp:66-75 | the physical address, which is never 0 |
| LimModel.LimModel.ReadWords | modules/lim_model/model.cpp:90-108 | the loop fills whole 8-byte words, so up to 7 zero bytes follow the data and nothing beyond them changes |
| LimModel.LimModel.ReadSamePage | modules/lim_model/model.cpp:76-109 | a read within a page puts the linear bytes into the buffer |
| LimModel.LimModel.WriteSamePage | modules/lim_model/model.cpp:110-145 | the loop of 8-byte stores changes linear memory at exactly these bytes |
| LimModel.LimModel.WriteCrossPage | modules/lim_model/model.cpp:146-161 | the same across a page boundary |
| LimModel.LimModel.ReadCrossPage | modules/lim_model/model.cpp:162-178 | the 72-byte buffer holds both reads with their overrun, and the caller's buffer changes in exactly size bytes |
| LimModel.LimModel.ReadMetadata | modules/lim_model/model.cpp:237-251 | the word reads never leave their page and return the metadata of the slot |
| LimModel.LimModel.DecodeEncoded | modules/lim_model/model.cpp:210-256 | the fields describe the object whose metadata lie in the pointer's slot |
| LimModel.LimModel.AddressBefore | modules/lim_model/model.cpp:202-375 | an encoded pointer faults if and only if tags, bounds or address fail the checks, else its object is remembered; a plain address passes and is remembered as the second part of an access |
| LimModel.LimModel.ShiftRead | modules/lim_model/model.cpp:594-655 | in shift mode the processor receives the object's load |
| LimModel.LimModel.ShiftReadAfter | modules/lim_model/model.cpp:616-620 | the case after the metadata |
| LimModel.LimModel.ShiftReadOver | modules/lim_model/model.cpp:644-655 | the case over the metadata, with the overrun of the first read overwritten by the second |
| LimModel.LimModel.ShiftWrite | modules/lim_model/model.cpp:594-673 | memory after the processor has stored the returned bytes is the object's store |
| LimModel.LimModel.ShiftWriteAfter | modules/lim_model/model.cpp:621-632 | the case after the metadata |
| LimModel.LimModel.ShiftWriteOver | modules/lim_model/model.cpp:656-673 | the case over the metadata |
| LimModel.LimModel.DisplaceRead | modules/lim_model/model.cpp:515-593 | in displacement mode the processor receives the object's load |
| LimModel.LimModel.DisplaceReadOver | modules/lim_model/model.cpp:516-551 | the case that overlaps the metadata |
| LimModel.LimModel.DisplaceWrite | modules/lim_model/model.cpp:515-593 | memory after the processor has stored the returned bytes is the object's store |
| LimModel.LimModel.DisplaceWriteOver | modules/lim_model/model.cpp:516-584 | the case that overlaps the metadata; its guard against bad metadata is dead code |
| LimModel.NoOverlap | modules/lim_model/model.cpp:557-572 | the condition of that guard is false for every access the checks let through |
| LimModel.LimModel.FixUp | modules/lim_model/model.cpp:515-674 | both modes together |
| LimModel.LimModel.ModifyDataOnMemAccess | modules/lim_model/model.cpp:376-692 | an expected access faults if and only if it runs past the bounds, else its bytes are replaced so that it acts on the object; any other access passes unchanged; the pointer flag survives a first part only |
| LimModel.LimModel.Transfer | modules/lim_model/model.cpp:376-692 | load or store by the processor with the data callback in between is one piece of the specified access |
| LimModel.LimModel.TransferTwice | modules/lim_model/model.cpp:353-367 | two parts with the second address callback in between are the whole access; if the second faults, the first has been done |
| LimModel.LimModel.Perform | modules/lim_model/model.cpp:202-692 | an instruction through an encoded pointer changes memory, returns and faults exactly as the specified access |
| LimModel.LimModel.PlainChunk | modules/lim_model/model.cpp:202-692 | a chunk of a plain store is untouched by the callbacks |
| LimModel.LimModel.PlainStore | modules/lim_model/model.cpp:202-692 | a store through a plain pointer, within a page or across one, changes exactly its own bytes |
| LimModel.Session | modules/lim_model/model.cpp:202-692 | every run of loads and stores on the machine is the specified run; when the slot's metadata describe an object, its outcomes and final bytes are those of flat memory and the metadata still describe it |

## Left out

- Simics interface, callback registration, attributes, instruction decoding, logging, statistics, breakpoints: no logic of their own. Page faults and translation failure: translation is a given injective page map, or granule map, that succeeds.
- Context save and load (x86_context.h), RISC-V register fix-up, CaStack, SWEncoder: adapters.
- Backward copyICVs: its range arithmetic does not match the forward one. The extra granule of an unaligned forward copy is modelled by CopyForward, and the snapshot theorem is about equally aligned ranges that end within the address space.
- ICV correction, tripwire suppression and the break options are off; cc_setup_icv_for_alloc and its adjustment of the range, initialize_icv and cc_set_icv_and_zero are not modelled.
- Data callbacks of C3 without data (bytes.data == NULL), data encryption disabled, and stack hardening.
- ShadowRip.RunKeepsFrame: stack pointers are plain addresses of either half and stack words are read and written whole; CA slots have size fields 1 to 33, those try_box produces; memory-operand calls, RIP-relative LEA and memory accesses, and exception frames are not modelled.
- C3Access.RunHasNoHistory: CAs that decode to 0 or to an address that is not canonical, and accesses whose second chunk would start past the end of the address space, are excluded: the source leaves their data alone, or matches them against an earlier access.
- C3Memory.RunIsFlat: integrity checks are a separate theorem; the ranges of an access, of an object and of memory end within the 64-bit address space.
- Quarantine.Run: the quarantine stays enabled; REAL_FREE and the clearing of ICVs are the recording of a released pointer.
- Keystream.EncryptDecryptManyBytes: sizes above 2^32 - 64 are excluded, since the loop of the source does not end for them, as LoopEndsExactly states.
- BipBip.BipBipEnc: a block word is kept at 24 bits, which the masks and tables of the source make it keep.
- CryptoAddress.PointerRoundTrip: the adjust bit of the special size encoding is always 0, as try_box sets it.
- LimModel.LimModel.ModifyDataOnMemAccess: meta checks enabled and tracing off; data present; the last byte of an access computed without wrap, which addresses below 2^54 exclude.
- LimModel.LimModel.Perform: an access ends at or below 2^54, the range of lim_decode_pointer; the second part of one that crosses 2^54 itself would no longer be recognised. Prefetch instructions are left out.
- LimEncoding.WriteMetadata: lim_no_encode is off. realloc, the choice of the metadata size by the allocator, and the pool behind it are not modelled.
- SIM_read_phys_memory and SIM_write_phys_memory are array reads and writes; a store reads only the bytes it needs from its 8-byte source word.
- The values of the S-box and of the data-path position tables are data; what is proved of them is that they and their inverses undo each other.
- Cryptographic strength, collision probability, conformance of the keystream with Ascon-PRF, the real allocator, scripts and tests.
