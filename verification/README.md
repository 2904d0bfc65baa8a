# Miranda NG: streaming digests, owned pointer lists and smiley layout

A Dafny model of the parts of Miranda NG that hold real algorithms with state, and proofs about them.

* **The 32-bit digest collector** (`include/crypto/md32_common.h`): `HASH_UPDATE`, `HASH_TRANSFORM` and
  `HASH_FINAL` over a context that they change in place. Block size, byte order, the widths of `HASH_LONG` and
  `size_t`, the compression function and `HASH_MAKE_STRING` are parameters (`Md32Spec.Params`).
  `Md32Spec.dfy` says what is computed, `Md32Stream.dfy` proves facts about whole runs, `Md32Collector.dfy` holds
  the class, `Md32Collision.dfy` the padding and the collision reduction. `WideRegisters.dfy` treats the comment on
  `MD32_REG_T` and the `ROTATE` macro.
* **A second streaming hash** (`src/mir_core/src/md5.cpp`), written differently, compared with the first:
  `MirMd5.dfy`.
* **Sorted pointer lists** (`src/mir_core/src/lists.cpp`, `LIST` and `OBJLIST` in `include/m_system.h`):
  `ListSpec.dfy` on sequences, `PointerList.dfy` for the array that grows and shifts in place and for the reverse
  iterator, `OwnedList.dfy` for ownership.
* **Smileys in a line of text** (`utils/mir_smileys.cpp`): `SmileyText.dfy` cuts a text into pieces,
  `SmileyLayout.dfy` measures and draws them, `SmileyRun.dfy` says which pieces the loop reaches and what it does
  there, `SmileyProperties.dfy` relates measuring and drawing, `SmileyScreen.dfy` goes from a text to what is seen.

`Arithmetic.dfy`, `ByteStream.dfy` and `Sequences.dfy` hold shared facts about remainders, about `memcpy` and
`memset`, and about sequences.
`dafny verify dfyconfig.toml` checks everything.

## Design

A context of the collector is compared as a value, `Md32Spec.Ctx`, with its buffer cut at `num` into pending bytes
and the bytes behind them. `Md32Spec.Absorb` is what one update means: whole blocks of pending bytes followed by the
message are compressed, the remainder is kept, the bits are counted. `HashCtx.Update` is proved to leave exactly that
value, stale bytes included, for every context, zeroed or not; all statements about runs are about `Absorb`.
`HASH_BLOCK_DATA_ORDER` is implemented outside the header; it is taken to chain the compression function over
consecutive blocks and to change nothing else. `HASH_MAKE_STRING` is a function of the chaining state.
HASH_LONG is unsigned. `Rem` is the remainder by repeated subtraction (`Arithmetic.RemIsMod`), which keeps proofs
about a variable block size linear.

Methods are proved equal to functions that follow the code. What those functions mean is stated apart from them: bit by
bit and as numbers for registers (`Means`), as base 256 digits for the length field (`DigitAt`), with keys and addresses
for the sorted lists (`KeyedBy`, `Comparison`), by the match that a smiley depicts (`Depicts`), and by proportions, gaps
and distances for the layout (`ProperWidth`, `Centred`, `Pictures`).

Automatic induction is switched off on every lemma: each proof is the one that is written down.

Places where the code does something other than its interface suggests are stated as exact conditions, with an
input that shows each:

* Splitting an update in two is invisible in every byte of the context unless there are no pending bytes and the
  buffer is not zeroed (`UpdatesComposeExactly`); the header asks for a zeroed buffer, and digests are equal anyway.
* `mir_md5_append` truncates the length to 32 bits before shifting it into the high count. One call agrees with
  `HASH_UPDATE` exactly for the lengths named by `MirMd5.Countable`, all lengths below 2^32 among them
  (`AppendExactly`); four gigabytes in one call are lost (`FourGigabytesLost`). A run agrees exactly if what its
  calls lose adds up to a multiple of 2^61 bytes (`RunsAgreeExactly`).
* `List_Remove` does what its index says exactly if the index is not the count. An index equal to the count takes the
  last item, and in an empty list stores a null in front of the array (`RemoveAtExactly`).
* `OBJLIST::remove(int)` inherits this: called with the count, where a cleared slot lets `delete` do nothing, it drops
  the last object without deleting it (`RemoveAtCountLeaks`). A run deletes every object it accepted exactly once if
  and only if it makes no such call (`DeletedExactlyOnce`).
* `OBJLIST::remove(T*)` deletes the object at which a search by sort key stops: nothing at all without a sort function
  (`RemovePtrDeletes`), and with one not necessarily its argument (`RemovePtrDeletesAnother`). It deletes its argument
  for every object in the list if and only if no two of them sort equal (`RemovePtrDeletesArgumentExactly`).
* `Smileys_DrawText` has the whole string parsed but draws only nCount characters of it. If the parser reports a smiley
  beyond them, text drawn from right to left loses its beginning (`ReachingBeyondLosesText`); left to right only a
  smiley that straddles the end is lost. `TextOnScreenExactly` says exactly when every character is seen.

The GDI calls of `mir_smileys.cpp` are answers supplied from outside (`SmileyLayout.Gdi`): the width of a run of
characters, the size of the whole text, the height of the letter that `DrawTextSmiley` measures. That the last two
heights are equal is an assumption, made only where smileys are resized. The width of a run of characters is taken not
to depend on the rectangle, which is so for text on a single line, and what is drawn is taken to be clipped to the
rectangle given: that is why `SmileyProperties.Span` cuts the width of a text call. That the first characters of a run
are no wider than the run (`SmileyScreen.PrefixesNoWider`) is assumed where a text may be cut. The `double` factor is an exact fraction,
cut to whole pixels.

## Model

| member | source | states |
|---|---|---|
| Md32Stream.CounterExact | include/crypto/md32_common.h:160-165 | Nl and Nh after the hand-written carry are the base 2^32 digits of the bits fed so far modulo 2^32 times the range of HASH_LONG, for every length and every width of at least 32 bits |
| Md32Stream.GuardExact | include/crypto/md32_common.h:171 | the short-circuited guard with wrapping size_t addition decides exactly whether the true sum reaches a block |
| Md32Stream.UpdatesCompose | include/crypto/md32_common.h:150-206 | updating with a then b and with a+b agree on chaining state, both counter words and the pending bytes, whatever stale bytes the buffer holds |
| Md32Stream.UpdatesComposeWhole | include/crypto/md32_common.h:150-206 | they agree on every byte of the context when the buffer is zeroed or bytes are pending: update is a monoid action |
| Md32Stream.UpdatesComposeExactly | include/crypto/md32_common.h:167-206 | the condition of the previous row holds if and only if every pair of chunks leaves the same context as one update |
| Md32Stream.AbsorbEmpty | include/crypto/md32_common.h:157-158 | the empty update is the unit of that action |
| Md32Stream.RunIsOneUpdate | include/crypto/md32_common.h:150-206 | any finite sequence of updates, empty ones included, equals one update with the concatenation |
| Md32Stream.BufferInvariant | include/crypto/md32_common.h:167-204 | between calls num is the byte count modulo the block size, the buffer starts with the unprocessed tail of the message, everything before it has been compressed, the low 64 counter bits are the bit count, and a zeroed buffer stays zero behind the tail |
| Md32Stream.StaleBytesIrrelevant | include/crypto/md32_common.h:213-239 | contexts that differ only behind the pending bytes close to the same context and digest |
| Md32Stream.StreamingRefinesOneShot | include/crypto/md32_common.h:150-248 | for all chunkings the final state is the fold of the compression function over the padded concatenation |
| Md32Collector.HashCtx.constructor | include/crypto/md32_common.h:39-40 | a new context has empty counters and a zeroed buffer |
| Md32Collector.HashCtx.Update | include/crypto/md32_common.h:150-206 | the code with memcpy, memset, moving offsets and the counter leaves exactly the context that absorbs the message, from every well-formed context; every access stays inside buffer and input |
| Md32Collector.HashCtx.BlockReached | include/crypto/md32_common.h:171 | the guard as executed is true exactly when the block is reached |
| Md32Collector.HashCtx.CountBits | include/crypto/md32_common.h:160-165 | the counter assignments leave the exact count and touch nothing else |
| Md32Collector.HashCtx.CompleteBlock | include/crypto/md32_common.h:172-184 | the pending block is completed and chained, and the buffer is zero afterwards |
| Md32Collector.HashCtx.WholeBlocks | include/crypto/md32_common.h:192-204 | whole blocks are chained from the input, the remainder is buffered, the bytes behind it stay |
| Md32Collector.HashCtx.Transform | include/crypto/md32_common.h:208-211 | one block is compressed and nothing else changes |
| Md32Collector.HashCtx.Final | include/crypto/md32_common.h:213-248 | the digest is that of the padded pending bytes; afterwards num is 0, every byte of the buffer is zero and the counter is unchanged |
| Md32Collector.HashCtx.CloseBlocks | include/crypto/md32_common.h:215-237 | the chaining state after the close, and the moving pointer is back at the start of the buffer |
| Md32Collector.CloseInBlocks | include/crypto/md32_common.h:218-237 | closing compresses exactly one or exactly two blocks, chosen by whether 9 bytes fit, and chains the same padding either way |
| Md32Collector.DigestOf | include/crypto/md32_common.h:150-248 | the code itself, from a new context over any updates to the close, returns the string of the fold over the padded concatenation |
| Md32Spec.PadZerosLeast | include/crypto/md32_common.h:218-226 | 0x80, the zeros and 8 length bytes end on a block boundary, and no smaller number of zeros does |
| Md32Spec.HostRoundTrip | include/crypto/md32_common.h:122-142 | HOST_c2l reads back the low 32 bits that HOST_l2c writes, in both byte orders |
| Md32Spec.HostRoundTripBytes | include/crypto/md32_common.h:122-142 | HOST_l2c writes back the four bytes that HOST_c2l reads |
| Md32Spec.HostL2CLow | include/crypto/md32_common.h:126-142 | bits of a HASH_LONG above the low 32 never reach the output |
| Md32Spec.HostDigits | include/crypto/md32_common.h:122-142 | HOST_l2c writes the base 256 digits of the word, most significant first in big-endian order and least significant first in little-endian order |
| Md32Spec.LengthFieldDigits | include/crypto/md32_common.h:228-235 | the length field holds the eight base 256 digits of the 64-bit count in that order |
| Md32Collision.UnpadExactly | include/crypto/md32_common.h:218-235 | a message can be read off its padded form through the length field if and only if it is shorter than 2^61 bytes |
| Md32Collision.PadInjective | include/crypto/md32_common.h:218-235 | different messages of any length have different padded forms |
| Md32Collision.PaddedCollision | include/crypto/md32_common.h:213-237 | equal folds over two padded messages that are equally long, or whose lengths differ modulo 2^61, contain two different compression inputs with equal outputs |
| Md32Collision.CollisionReduction | include/crypto/md32_common.h:150-248 | two different messages below 2^61 bytes, in any chunks, with equal digests yield a collision of the compression function inside their two block chains |
| WideRegisters.AddValue | include/crypto/md32_common.h:251-276 | register addition, carry by carry, is addition modulo two to the register width |
| WideRegisters.RotateIsRotation | include/crypto/md32_common.h:96 | in a register of any width the low 32 bits of ROTATE are the rotated low 32 bits |
| WideRegisters.UnmaskedRotation | include/crypto/md32_common.h:96 | without the mask this holds exactly when every set high bit that comes down meets a set low bit |
| WideRegisters.ValueBits | include/crypto/md32_common.h:251-276 | the value of a register is the number with its bits as binary digits |
| WideRegisters.EvalMeans | include/crypto/md32_common.h:257-267 | in registers of any width the operators are addition modulo two to the width, the boolean operations bit by bit, and a rotation of the low 32 bits that shifts the bits above |
| WideRegisters.ExecOne | include/crypto/md32_common.h:257-267 | an assignment changes its own register only, to the low 32 bits of its expression below the noise |
| WideRegisters.ExecConcat | include/crypto/md32_common.h:257-267 | assignments take effect one after another |
| WideRegisters.EvalLow | include/crypto/md32_common.h:257-267 | every expression of additions, and, or, xor, not and ROTATE has the same low 32 bits in wide registers as in 32-bit ones |
| WideRegisters.ExecLow | include/crypto/md32_common.h:257-267 | so does every sequence of assignments, with arbitrary pollution above the low 32 bits after every step |
| MirMd5.CountsAgreeExactly | src/mir_core/src/md5.cpp:298-307 | the low count is always the collector's Nl; the high count is its Nh if and only if the part of the length lost to truncation is a multiple of 2^61 |
| MirMd5.AppendExactly | src/mir_core/src/md5.cpp:293-328 | append and HASH_UPDATE agree on state, counts and pending bytes exactly under that condition |
| MirMd5.FourGigabytesLost | src/mir_core/src/md5.cpp:304 | an input of 2^32 bytes is accepted where size_t has 64 bits, and leaves another state than HASH_UPDATE |
| MirMd5.RunsAgreeExactly | src/mir_core/src/md5.cpp:293-328 | over any run both agree on everything but the high count, and on that too if and only if the multiples of 2^32 bytes lost by the chunks add up to a multiple of 2^61 bytes |
| MirMd5.ImplementationsAgree | src/mir_core/src/md5.cpp:293-350 | after any run both would append the same length field if and only if that condition holds; then both end in the digest of the padded concatenation |
| MirMd5.OffsetTracks | src/mir_core/src/md5.cpp:297 | the offset recomputed from count[0] is always the number of pending bytes |
| MirMd5.PadLengthExact | src/mir_core/src/md5.cpp:345 | the masked 32-bit expression is one more than the least number of padding zeros |
| MirMd5.FieldBytes | src/mir_core/src/md5.cpp:341-343 | the bytes picked by index and shift are the little-endian length field |
| MirMd5.CopyFitsExactly | src/mir_core/src/md5.cpp:311 | the copy that fills the block begun before stays inside it if and only if the size_t sum of offset and length does not wrap |
| MirMd5.Md5State.Append | src/mir_core/src/md5.cpp:293-328 | the code with its loop over whole blocks leaves the state that absorbs the message, for every length whose sum with the offset does not wrap |
| MirMd5.Md5State.WholeBlocks | src/mir_core/src/md5.cpp:322-327 | the block loop is the fold over the whole blocks and buffers the rest |
| MirMd5.Md5State.Finish | src/mir_core/src/md5.cpp:330-350 | appending padding and saved length as data gives the digest of a close |
| MirMd5.Hash | src/mir_core/src/md5.cpp:352-358 | the one-call digest is that of the padded message, for every countable length of a size_t |
| ListSpec.GetIndexFinds | src/mir_core/src/lists.cpp:66-154 | on a sorted list the binary search finds an equal item if and only if there is one, and otherwise the only place where the item belongs |
| ListSpec.EqualItemsSearchAlike | src/mir_core/src/lists.cpp:66-154 | the search ends alike for any two items that sort equal, in every list, sorted or not |
| ListSpec.MiddleOfEqualItems | src/mir_core/src/lists.cpp:66-154 | of items that all sort equal to it, the middle one is found |
| ListSpec.KeyedSearch | src/mir_core/src/lists.cpp:76-133 | for the built-in keys, in numbers: on a list whose keys never fall an object with the key is found if and only if there is one, and otherwise the place between the smaller and the larger keys |
| ListSpec.KeyedInsert | src/mir_core/src/lists.cpp:191-202 | insertion by a built-in key keeps the keys from falling; by address, the addresses |
| ListSpec.ComparedSearch | src/mir_core/src/lists.cpp:134-149 | the same for a comparison function, called with the item first: what is found, where a failed search ends, and that insertion keeps the sequence |
| ListSpec.UnsortedAppends | src/mir_core/src/lists.cpp:197-201 | without a sort function nothing is ever found, and insertion appends |
| ListSpec.SpecialKeysConsistent | src/mir_core/src/lists.cpp:76-133 | the three built-in sort keys are total preorders |
| ListSpec.InsertKeepsOrder | src/mir_core/src/lists.cpp:191-202 | List_InsertPtr keeps a list sorted, equal items included |
| ListSpec.RemoveKeepsOrder | src/mir_core/src/lists.cpp:204-214 | List_Remove keeps a list sorted |
| ListSpec.RemoveAtExactly | src/mir_core/src/lists.cpp:204-214 | List_Remove takes the item its index names, or refuses one that names none, if and only if the index is not the count; at the count it takes the last item, or stores in front of the array of an empty list |
| ListSpec.MarkedPartition | include/m_system.h:368-373 | chosen and surviving items together are the original items, none lost or repeated |
| ListSpec.MarkedInOrder | include/m_system.h:329-355 | survivors are read off the original list at increasing positions |
| ListSpec.PositionsExact | include/m_system.h:329-355 | those positions are exactly the ones that were not chosen |
| Sequences.ReversedAt | include/m_system.h:329-355 | the order of a reverse walk, position by position |
| PointerList.List.GetIndex | src/mir_core/src/lists.cpp:66-154 | the loop computes the search |
| PointerList.List.Find | src/mir_core/src/lists.cpp:53-60 | null exactly if the search fails, otherwise an item of the list that sorts equal |
| PointerList.List.IndexOf | src/mir_core/src/lists.cpp:156-166 | the first position of the pointer, or -1 exactly if it is not in the list |
| PointerList.List.Insert | src/mir_core/src/lists.cpp:172-189 | the item stands at the index and the others before and behind it in order, across the reallocation, which comes exactly when the array is full; refused exactly for null or an index beyond the count |
| PointerList.List.InsertPtr | src/mir_core/src/lists.cpp:191-202 | insertion where the search ends, or at the end without a sort function |
| PointerList.List.Remove | src/mir_core/src/lists.cpp:204-214 | for every index: refused, or the item is out, the array stays in place, items before the index are untouched and the slot given up is null; index 0 of an empty list is accepted, leaves a count of -1 and is reported as a store in front of the array |
| PointerList.List.RemovePtr | src/mir_core/src/lists.cpp:216-224 | the item found goes, or nothing |
| PointerList.List.RemoveItem | include/m_system.h:368-373 | the item in the slot is taken out and returned, slots before it keep their items |
| PointerList.List.WalkAndRemove | include/m_system.h:329-373 | a reverse walk that removes the current item for any chosen subset visits every original item once in reverse order and leaves the others |
| OwnedList.RunConserves | include/m_system.h:416-448 | over any run, items held, deleted and dropped together are the items accepted |
| OwnedList.NothingReachableIsDeleted | include/m_system.h:416-448 | at every moment no object has been deleted twice, none still in the list has been deleted, and none dropped is in the list or deleted |
| OwnedList.DeletedExactlyOnce | include/m_system.h:416-433 | after the two destructors every accepted object has been deleted exactly once if and only if no call gave the count as its index; none has been deleted twice in any case |
| OwnedList.RemoveAtCountLeaks | include/m_system.h:429-433 | two objects, remove(0), remove(1): the second object leaves the list and is never deleted |
| OwnedList.RunKeepsOrder | src/mir_core/src/lists.cpp:191-224 | runs of sorted insertion and of removal keep the list sorted |
| OwnedList.RemovePtrDeletes | include/m_system.h:435-443 | remove(p) changes nothing exactly if p is null, the list is unsorted or no item sorts equal; otherwise it deletes one item, and that one sorts equal to p |
| OwnedList.RemovePtrDeletesArgument | include/m_system.h:435-443 | with no other item sorting equal to p, p itself is deleted exactly if it is in the list |
| OwnedList.RemovePtrDeletesArgumentExactly | include/m_system.h:435-443 | remove(p) deletes p for every p in the list if and only if no two objects in the list sort equal |
| OwnedList.RemovePtrDeletesAnother | include/m_system.h:435-443 | with two objects of one key, remove of the second deletes the first |
| OwnedList.ObjList.Remove | include/m_system.h:429-433 | the object at the index is deleted and taken out; at the count the last one is dropped; behind it nothing happens |
| OwnedList.ObjList.RemovePtr | include/m_system.h:435-443 | the code makes the step of the state machine; it returns the number of objects deleted |
| OwnedList.ObjList.RemoveItem | include/m_system.h:445-448 | the object in the slot is deleted and taken out |
| OwnedList.ObjList.WalkAndDelete | include/m_system.h:329-355 | a reverse walk that deletes the current object for any chosen subset deletes exactly those, last first, and keeps the others in order |
| OwnedList.ObjList.Destroy | include/m_system.h:421-427 | the loop deletes every object once, front to back, and empties the list |
| OwnedList.ObjList.Destructor | include/m_system.h:416-419 | the second List_Destroy by the base destructor finds nothing to do |
| SmileyText.ReplaceSmileys | utils/mir_smileys.cpp:385-472 | null exactly in the three early cases; otherwise, for ordered matches, the maximal partition around the drawable smileys, each with the place, length, icon and bitmap size of its match, standing for text_size characters or up to the end of the last drawable match; the reported height is the largest smiley height |
| SmileyText.PartitionDepicts | utils/mir_smileys.cpp:422-447 | every match with an icon has a piece where the match starts, of its length, icon and bitmap width and height, or 16 by 16 without a bitmap, and every smiley piece comes from such a match |
| SmileyText.LastEndLast | utils/mir_smileys.cpp:405-455 | no match with an icon ends beyond the end that counts |
| SmileyText.LastEndAttained | utils/mir_smileys.cpp:405-455 | one of them ends there, if there is any |
| SmileyText.PartitionUnique | utils/mir_smileys.cpp:408-467 | that description leaves only one list of pieces |
| SmileyText.PartitionOfText | utils/mir_smileys.cpp:385-406 | the piece lengths sum to text_size if and only if no drawable match ends beyond it |
| SmileyLayout.ScaledHeightFits | utils/mir_smileys.cpp:324-331 | a smiley fits the row exactly if it is resized or was no higher |
| SmileyLayout.ScaledExactly | utils/mir_smileys.cpp:324-337 | a smiley higher than the row becomes, when resized, exactly as high as the row and as wide as the proportions allow in whole pixels; any other keeps its size |
| SmileyLayout.ProperWidthUnique | utils/mir_smileys.cpp:240-246 | that leaves only one width |
| SmileyLayout.RowHeightExactly | utils/mir_smileys.cpp:222-223 | with resizing the height of the smileys is ignored, without it the larger height counts |
| SmileyLayout.LineExactly | utils/mir_smileys.cpp:272-277 | the line drawn on has the height of the measured letter, or that of the highest smiley if it is larger and smileys are not resized |
| SmileyLayout.TotalWidthExactly | utils/mir_smileys.cpp:225-247 | the sum is that of one width for each piece: the answer of GDI for a text, the width in proportion for a smiley |
| SmileyLayout.GetTextSize | utils/mir_smileys.cpp:204-252 | the width is the sum of those widths at the row height; without pieces the size of the whole text, without a text nothing |
| SmileyRun.PiecePictured | utils/mir_smileys.cpp:289-351 | text is given the characters the budget allows and a smiley its size in proportion; both begin where the pieces before end, on the side of the reading direction, and stand in the middle of the row with an odd pixel below; a smiley too wide gives three dots at that place, and one the budget does not cover gives nothing |
| SmileyRun.RunPictured | utils/mir_smileys.cpp:287-352 | the calls of a run are exactly those pictures, for the pieces that are begun, in visiting order, each as far into the line as the widths before it say |
| SmileyRun.DrawTextSmiley | utils/mir_smileys.cpp:254-354 | the loop in either direction is the run over the pieces in visiting order and makes the calls of that picture; an empty rectangle gets three dots |
| SmileyRun.ReachedExactly | utils/mir_smileys.cpp:287-351 | a piece is reached if and only if the pieces before it leave a pixel and a character, and then their widths and lengths are what has been spent |
| SmileyRun.VisitedExactly | utils/mir_smileys.cpp:287 | the pieces visited are the longest such prefix in visiting order |
| SmileyRun.EllipsisExactly | utils/mir_smileys.cpp:312-346 | the loop draws an ellipsis if and only if some smiley is begun with room and budget left and its width goes past the rectangle |
| SmileyProperties.EllipsisDrawnExactly | utils/mir_smileys.cpp:278-346 | DrawTextSmiley draws one if and only if that happens or the rectangle has no width |
| SmileyProperties.EverythingVisitedExactly | utils/mir_smileys.cpp:287 | with enough characters to spend, all pieces are visited if and only if those before the last leave room |
| SmileyProperties.SameWidths | utils/mir_smileys.cpp:215-246 | measuring and drawing use the same widths, unless smileys are resized and the two heights differ |
| SmileyProperties.MeasureAndDrawAgree | utils/mir_smileys.cpp:287-352 | in a rectangle at least as wide as measured every piece is shown whole, text in a rectangle wide enough for it, no ellipsis is drawn and pos_x ends at the measured width, in both directions |
| SmileyProperties.RightToLeftMirrors | utils/mir_smileys.cpp:278-352 | the right-to-left run is, call by call, the mirror image of the left-to-right run over the reversed pieces, whatever the widths, the budget and the rectangle |
| SmileyProperties.IconInRowExactly | utils/mir_smileys.cpp:336-341 | an icon stays within the row exactly if it is resized or was no higher than the row |
| SmileyProperties.LayoutSafety | utils/mir_smileys.cpp:272-352 | every call stays inside the rectangle from side to side and inside the row from top to bottom, calls never overlap, and an ellipsis is drawn at most once and last, if and only if the rectangle is not inside out; the rows are high enough because of the height ReplaceSmileys reports |
| SmileyScreen.MeasureThenDraw | utils/mir_smileys.cpp:135-185 | drawing in the rectangle that a measuring call returns makes the same calls as drawing at once, but for the lower edge given to text; measuring again changes nothing |
| SmileyScreen.OnScreenExactly | utils/mir_smileys.cpp:287-351 | with room for all pieces, a character is on the screen if and only if the budget left when its piece is reached covers it, or the whole piece if that is a smiley |
| SmileyScreen.LeftToRightExactly | utils/mir_smileys.cpp:287-351 | left to right all characters in the budget appear if and only if no smiley straddles its end |
| SmileyScreen.RightToLeftExactly | utils/mir_smileys.cpp:287-351 | right to left they all appear if and only if the pieces stand for no more characters than that, or there are none to draw |
| SmileyScreen.TextOnScreenExactly | utils/mir_smileys.cpp:121-200 | for any ordered parse, drawn where the measured text fits, every character below nCount is on the screen if and only if, right to left, no drawable match ends beyond nCount (or nCount is 0), and left to right, none straddles it |
| SmileyScreen.ReachingBeyondLosesText | utils/mir_smileys.cpp:287-351 | two letters and a smiley behind the end of the text, right to left in a wide enough rectangle: only the icon is drawn |
| SmileyScreen.SmileysDrawText | utils/mir_smileys.cpp:121-200 | measuring returns the rectangle made no wider and no higher than the text, on the side of the alignment; drawing, with or without a parse handed in, draws each piece at its place and nothing outside the rectangle or over another call; where the text fits, every character is on the screen exactly under that condition, and every piece is shown if no drawable match ends beyond the text |
| SmileyScreen.WholeTextShown | utils/mir_smileys.cpp:121-200 | when no drawable match ends beyond the text and the measured text fits: every piece is shown, every character is on the screen, and the run fills the narrowed rectangle exactly |
| SmileyScreen.NothingMeasured | utils/mir_smileys.cpp:175-185 | when the measured text fits, the ellipsis of an empty rectangle is drawn if and only if the measured width is zero |

## Left out

- Compression functions, the bodies of `md5_process` and of the other digests of `mir_core`, ciphers and bignums: any function may stand for them.
- `OPENSSL_cleanse` beyond writing zeros, the assembly forms of `ROTATE`, and platform dispatch.
- Md32Collector.HashCtx.Update: the input is a sequence, so an input that overlaps the context's own buffer is not modelled; memcpy does not allow it.
- Md32Spec.HostRoundTrip: or-ing of disjoint bit ranges is written as addition.
- MirMd5.Md5State.Append: an input so long that its sum with the offset wraps is excluded, because there the copy leaves the block (`MirMd5.CopyFitsExactly`).
- PointerList.List.GetIndex: counts are unbounded integers, so overflow of `low + high` beyond 2^30 items is not modelled; sort keys do not change while an object is in a list.
- PointerList.List.Remove: nothing is said about the list after a null has been stored in front of its array.
- PointerList.List.Insert: a growth step of zero and a negative insertion index are excluded.
- `OBJLIST` derives from `LIST`; here `ObjList` has a `List` as a field. `List_Copy`, `List_ObjCopy`, `List_Create` with a non-zero limit, `put` and `getArray` are not modelled.
- OwnedList.ObjList.Remove: deletion is an entry in a log. An index whose slot was never written, or lies outside the array, makes the source delete an arbitrary pointer and is excluded; so is index 0 of an empty list, where List_Remove stores in front of the array.
- SmileyLayout.DrawTextSmiley: rounding of the double factor is not modelled; a resized smiley is exactly as high as the row. An ellipsis is a call that draws three dots; the one that GDI itself may put at the end of a cut text is not modelled.
- SmileyProperties.SmileysDrawText: clipping regions, colours, icon handles and their release, the skin engine and the search for the length of a text given without one; the parser's answer is an input.
- The settings dialog of `utils/mir_options.cpp` and the wrappers around PCRE, tinyxml2 and libsignal.
