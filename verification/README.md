# Verification model of the Android image tools

A Dafny model, with proofs, of four components of this repository: the Montgomery RSA code of
libavb, the sparse images of libsparse, the slot verification of libavb with its persistent
state, and the vbmeta writer (Kotlin) against the vbmeta verifier (C). `dafny verify
dfyconfig.toml` checks everything.

## What is modelled, and the main results

**RSA (`Words`, `Montgomery`, `Rsa`).** The carry loops run on word arrays as in the C code, and
for every key, documented or not, the word array ends up holding a number that is defined without
words: `Montgomery.Pass`, `Montgomery.Mont`, `Rsa.PowF4`. With `n0inv` as documented one pass makes
`2^32*c' = a*b + c + e*n` with `e < 2^32`; this single equation gives the bound `c < R`, the final
carry and the congruence. For keys whose `n0inv` and `rr` are as documented, exponentiation by
65537 returns the reduced power, and `avb_rsa_verify` accepts exactly the signatures of section
8.2.2 of RFC 8017 (without its range check, which the code does not make). A top bit in the
modulus is not needed when the signature is below the modulus.

**Streaming hashes (`Sha`).** One context class for SHA-256 and SHA-512, with block size and
length field as parameters and an abstract compression function: whatever the lengths of the
updates, the digest is that of the concatenation, padded as in sections 5.1.1 and 5.1.2 of
FIPS 180-2.

**Sparse images (`Blocks`, `Queue`, `Adds`, `BlockList`, `Resparse`, `SparseFile`, `SparseFormat`,
`SparseWriter`, `SparseReader`, `SparseLayout`, `Resparsed`, `RawImage`).** A list of backed blocks means a partial
map from byte offset to byte (`Blocks.At`). The linked list is mutated node by node; `queue_bb`
with any `last_used` hint refines ordered insertion; merging, splitting, moving and resparsing
change no byte; importing what the chunk writer wrote, with block size and length taken from the
file, gives the list back up to padding, also for every file of a resparsed image; and raw to
sparse to raw is the identity. Files of other writers, with longer headers, checksums or unknown
chunks, are imported as their bytes say, and refused for a wrong chunk anywhere (`SparseLayout`).
Images may be of any size.
What 32 bits bound is what can be merged: `Adds` gives, for every sequence of adds, the exact
condition under which no byte is lost. `sparse_file_resparse` is analysed for every limit, the
wrap-around of small ones included, with the exact conditions under which its loop ends and its
files are shorter than the limit.

**Slot verification (`Vbmeta`, `Descriptors`, `Persist`, `Slot`, `SlotRun`, `SlotSafety`,
`SlotVerify`, `Masked`, `Boots`).** The AvbOps callbacks are a device: immutable partitions, keys and
rollback indexes with arbitrary failures, and a store that follows avb_ops.h. `SlotRun` says, as
functions of the device, the arguments and the store, what a call of `avb_slot_verify` does, with
the exact result code of every step; the methods of `SlotVerify`, which update the slot data in
place, are proved to do that; `SlotSafety` proves what every step keeps. What these functions read
is tied to the bytes of the partitions: where a footer points, how the layout of an image and of
each descriptor is understood, and which result an image or a hash descriptor leads to, whether
errors are allowed or not. Everything in the slot data comes from the device in both modes, and an
OK result without digest lookups means that the top-level image is trusted. In strict mode every
recorded image is signed by a trusted key or by the key of its chain descriptor and is not rolled
back, at every exit of every call; an OK result means that every requested partition of every
image was loaded and has the digest of its descriptor or the stored one, unless a failed chained
image was followed by a hashtree descriptor without a digest, whose lookup overwrites the result
variable. `Boots` runs any number of calls on one store: the managed dm-verity mode that a call
returns, and the digest a device-unique partition is held to, are characterized over all boots.

**vbmeta writer against verifier (`Struct`, `DescriptorStream`, `VbmetaWriter`).** Packing and
unpacking of format strings are inverse exactly on the values that need neither filling nor
truncation; the descriptor stream is parsed back to the same values, and splitting it into typed
lists and re-encoding by sequence number restores it byte for byte; every blob of `packVbMeta`,
with anything behind it, has the fields and the metadata it was given, passes the layout checks and the hash comparison of the C code, passes
its signature check exactly if RSA accepts what the signer returned, and the C descriptor walk
visits exactly the descriptors written.

## Findings where the code does not do what one might expect

- `merge_bb` adds lengths in 32 bits. Merging two neighbours keeps all bytes if and only if the
  sum fits (`Queue.CoalesceKeepsContentIff`); two fills that together reach 2^32 bytes become an
  empty block (`Queue.OverlongRunLosesBytes`). A block added in front of the whole list is not
  merged with what follows it. A sequence of adds therefore keeps every byte if and only if no run
  of one source reaches 2^32 bytes between two such seams (`Adds.AddsKeptIff`); the two fills above
  are kept when the second one is added first (`Adds.SeamKeepsBytes`). A raw image, which is read
  in order, is imported without loss if and only if no run of one fill value and no run of other
  blocks reaches 2^32 bytes (`RawImage.RawImportIff`); 2^32 zeros are not kept
  (`RawImage.ZeroImageIsLost`).
- `sparse_count_chunks` counts the chunks that are written exactly when the image length is a
  multiple of the block size or the last block reaches beyond the length
  (`SparseWriter.CountAgreesIffWholeBlocks`). In the second case, which a raw image with a partial
  last block leads to, `assert(pad >= 0)` ends the program where assertions are compiled in.
- The raw writer advances by the length of a fill, not by whole blocks; the position stays right
  exactly when all fills are block aligned (`RawImage.PositionOnTrackIffFillsAligned`,
  `RawImage.UnalignedFillMisplacesData`). Only the fills before the last block matter for the image
  (`RawImage.AlignedFillsGiveImage`).
- sparse.h promises that a block is padded with zeros. A fill goes on with its value: it is padded
  with zeros if and only if it needs no padding, or the value is zero, or less than a word of
  padding is needed and the value's bytes there are zero (`SparseReader.FillZeroPaddedIff`; one
  byte of ones in blocks of four is a counterexample, `SparseReader.FillIsNotZeroPadded`).
- `sparse_file_resparse` need not end. With a limit from 68 to block size plus 67 the loop ends if
  and only if every block that is not empty is a fill and the limit is at least 72, or 84 for a
  fill that does not start the image. A limit below 56 counts as 2^32 more; so if that is below
  block size plus 68, the same holds for it. With every other limit the loop ends, for block sizes
  up to 2^32 - 12 (`Resparse.ResparseEndsIff`).
- sparse.h promises that each resparsed file is shorter than the limit. For all images without
  empty blocks with which resparsing ends, this holds if and only if the limit is at least 68
  (`Resparse.LimitKeptIff`): below that, one block of a fill, or of data, is moved whole and
  exceeds it (`Resparse.FillExceedsLimit`, `Resparse.DataExceedsLimit`), because from 56 to 67
  every round moves one block whole (`Resparse.LimitBelowOneChunk`) and below 56 one file takes
  everything a 32-bit length can hold (`Resparse.LimitBelowOverhead`). Image by image, the files
  keep a limit of 69 or more always, one from 56 to 68 if and only if each block, cut where 32
  bits demand it, makes a file below it, and one below 56 if and only if the whole image does
  (`Resparse.FilesFitIff`); an empty fill reaches a limit of 68
  (`Resparse.EmptyFillReachesLimit`).
- A hashtree descriptor without a root digest assigns the result variable of
  `load_and_verify_vbmeta`, so an earlier failure is lost. Loading comes to OK if and only if no
  descriptor of the top-level image ends the loop and such a lookup follows every failed one, the
  failure of the top-level image itself included (`Masked.LoadingOkIff`). So on every device where
  the image of one chain descriptor fails in a way that could be ignored, a later lookup succeeds
  and all other descriptors pass, the strict call returns OK (`Masked.MaskedBoot`). An unsigned
  image is such a failure (`Masked.UnsignedTop`); another is a chained image with a requested
  partition whose digest is wrong, and then OK comes with that partition loaded
  (`Masked.WrongPartitionBoot`). With errors allowed, it can even be hidden that the top-level
  image is not signed (`Masked.UnsignedTopHidden`). Without a descriptor that may fail before such
  a lookup an OK result can be relied on (`SlotSafety.NoLateLookupPasses`, `SlotVerify.OkFacts`).
- A digest that is looked up and not found is a verification error, and it ends the loop. With
  errors allowed the call still returns data then: the remaining descriptors are not handled and
  no rollback index is recorded (`Masked.MissingDigestCutsShort`).
- The RSA key header is read before the key length is looked at, and it may lie behind the end of
  the buffer (`VbmetaWriter.KeyHeaderOutside` is such an image, for every hash function). Of an
  image that is accepted it lies inside, and the bytes behind the buffer never decide the verdict
  (`Vbmeta.VerdictIgnoresBehind`).
- A number above 32 bits that is packed into a 32-bit item is truncated (`Struct.UnpackPack` says
  exactly which values come back).

## Model

| member | source | states |
|---|---|---|
| Montgomery.SubM | aosp/libavb/src/avb/c/avb_rsa.c:110-119 | subtracts the modulus, modulo R when it does not fit |
| Montgomery.GeM | aosp/libavb/src/avb/c/avb_rsa.c:121-134 | decides whether the number is at least the modulus, equality included |
| Montgomery.MulAddFits | aosp/libavb/src/avb/c/avb_rsa.c:141-153 | neither 64-bit accumulator can wrap, for arbitrary words |
| Montgomery.MontMulAdd | aosp/libavb/src/avb/c/avb_rsa.c:136-159 | for every key, the word array holds the pass on numbers: a multiple of the modulus is added, the low word dropped, the modulus subtracted once on overflow |
| Montgomery.PassEquation | aosp/libavb/src/avb/c/avb_rsa.c:136-159 | with n0inv as documented one pass is exact division by 2^32 of a*b + c + e*n with e below 2^32 |
| Montgomery.PassRange | aosp/libavb/src/avb/c/avb_rsa.c:136-159 | for every key c stays below R after at most one subtraction |
| Montgomery.MontMul | aosp/libavb/src/avb/c/avb_rsa.c:161-170 | for every key, the word array holds the Montgomery product on numbers |
| Montgomery.MontEquation | aosp/libavb/src/avb/c/avb_rsa.c:161-170 | with n0inv as documented c*R = a*b + q*n with q below R: congruence and bound in one equation |
| Montgomery.InverseOfLowWord | aosp/libavb/src/avb/headers/avb_crypto.h:136-146 | n0inv inverts the low word, as documented, if and only if it inverts the modulus modulo 2^32 |
| Montgomery.CancelRadix | aosp/libavb/src/avb/headers/avb_crypto.h:136-146 | R may be cancelled modulo n, because n0inv inverts the modulus modulo 2^32 |
| Montgomery.MontProduct | aosp/libavb/src/avb/c/avb_rsa.c:161-170 | Montgomery multiplication multiplies the represented residues |
| Montgomery.WordsFromBytes | aosp/libavb/src/avb/c/avb_rsa.c:186-193 | the words stand for the same number as the big-endian bytes |
| Montgomery.BytesFromWords | aosp/libavb/src/avb/c/avb_rsa.c:207-214 | the bytes stand for the same number as the words |
| Rsa.SquareTwice | aosp/libavb/src/avb/c/avb_rsa.c:196-199 | for every key, one turn of the loop squares twice |
| Rsa.SquaredHoldsPower | aosp/libavb/src/avb/c/avb_rsa.c:196-199 | repeated squaring holds the Montgomery form of a^(2^k) |
| Rsa.ModPowF4 | aosp/libavb/src/avb/c/avb_rsa.c:172-226 | in place, for every key: the power on numbers as big-endian bytes; with documented fields exactly a^65537 mod n, for every input when the modulus fills its words and for reduced inputs otherwise |
| Rsa.PowF4Correct | aosp/libavb/src/avb/c/avb_rsa.c:172-226 | the power on numbers is a^65537 mod n for documented keys |
| Rsa.BelowTwiceModulus | aosp/libavb/src/avb/c/avb_rsa.c:202-205 | one final subtraction is enough |
| Rsa.ParseKeyData | aosp/libavb/src/avb/c/avb_rsa.c:47-104 | accepts exactly keys of 2048, 4096 or 8192 bits with the length these need, and returns their numbers |
| Rsa.KeyOfBytes | aosp/libavb/src/avb/headers/avb_crypto.h:136-161 | a key laid out as documented (bits, n0inv, modulus, R^2, big-endian) is accepted and read as exactly these numbers |
| Rsa.SameBytes | aosp/libavb/src/avb/c/avb_util.c:83-101 | the constant-time comparison decides equality |
| Rsa.PaddedHashIs | aosp/libavb/src/avb/c/avb_rsa.c:273-289 | padding check and hash check together compare with padding followed by hash |
| Rsa.RsaVerify | aosp/libavb/src/avb/c/avb_rsa.c:231-299 | for every key, success if and only if all lengths agree and the power of the signature is padding followed by hash; for a documented key, if and only if sig^65537 mod n is padding followed by hash |
| Rsa.AcceptsIffSignature | aosp/libavb/src/avb/c/avb_rsa.c:231-299 | for documented keys what is accepted is exactly a signature of the padded hash |
| Sha.CompressConcat | aosp/libavb/src/avb/c/avb_sha256.c:136-333 | compressing whole blocks in parts is compressing them at once |
| Sha.Transform | aosp/libavb/src/avb/c/avb_sha512.c:155-319 | the block loop is the fold of the compression function over the blocks |
| Sha.PadZerosLeast | aosp/libavb/src/avb/c/avb_sha256.c:374-382 | the padding is the shortest that fills whole blocks |
| Sha.PadIsStandard | aosp/libavb/src/avb/c/avb_sha256.c:366-392 | the padded message is whole blocks: the message, a one bit, fewer zeros than a block, and the length in bits |
| Sha.Context.Update | aosp/libavb/src/avb/c/avb_sha256.c:335-364 | absorbing data of any length, empty included, appends it to the message and keeps the invariant between state, buffer and message |
| Sha.PaddedMessage | aosp/libavb/src/avb/c/avb_sha512.c:361-369 | the final buffer is the tail of the padded message, also when the length needs one more block |
| Sha.Context.Final | aosp/libavb/src/avb/c/avb_sha512.c:352-388 | the digest is the one-shot hash of everything absorbed |
| Sha.DigestOfParts | aosp/libavb/src/avb/c/avb_slot_verify.c:1706-1743 | hashing in parts of any sizes hashes the concatenation |
| Blocks.MergeTouches | aosp/libsparse/sparse/src/main/cpp/backed_block.cpp:192-196 | rounding the length down in the adjacency test is harmless: non-overlapping blocks that pass it touch, and their sources continue |
| Blocks.MergeContent | aosp/libsparse/sparse/src/main/cpp/backed_block.cpp:177-228 | a merge whose length fits 32 bits keeps every byte |
| Blocks.MergeOverflow | aosp/libsparse/sparse/src/main/cpp/backed_block.cpp:220-225 | a merge whose length does not fit loses the last byte |
| Blocks.SplitFacts | aosp/libsparse/sparse/src/main/cpp/backed_block.cpp:342-380 | the pieces touch, cover the block, and the first is at most the limit unless nothing is split |
| Blocks.SplitContent | aosp/libsparse/sparse/src/main/cpp/backed_block.cpp:342-380 | a split changes no byte |
| Queue.HintIrrelevant | aosp/libsparse/sparse/src/main/cpp/backed_block.cpp:244-254 | a search from the last_used hint ends where the search from the head ends |
| Queue.CoalesceKeepsContentIff | aosp/libsparse/sparse/src/main/cpp/backed_block.cpp:177-228 | merging two neighbours of a list keeps its byte map if and only if the joined length fits 32 bits |
| Queue.OverlongRunLosesBytes | aosp/libsparse/sparse/src/main/cpp/backed_block.cpp:220-225 | two equal fills of 2^32 bytes in all are merged to an empty block |
| Queue.SmallImageRuns | aosp/libsparse/sparse/src/main/cpp/backed_block.cpp:25-47 | an image below 2^32 bytes has no run that long, whatever is added |
| Queue.EnqueueKeepsOrder | aosp/libsparse/sparse/src/main/cpp/backed_block.cpp:230-270 | the list stays strictly sorted, non-overlapping and inside an image of any size, as long as no run of one source reaches 2^32 bytes |
| Queue.EnqueueContent | aosp/libsparse/sparse/src/main/cpp/backed_block.cpp:230-270 | under that condition the list gains exactly the bytes of the new block |
| Queue.RunOfAdds | aosp/libsparse/sparse/src/main/cpp/backed_block.cpp:230-270 | after any sequence of non-overlapping adds whose runs stay below 2^32 bytes the list is sorted, its byte map is the union of what was added, and every byte comes from where it came; sufficient, not necessary, see the next row |
| Adds.AddsKeptIff | aosp/libsparse/sparse/src/main/public/sparse/sparse.h:68-71 | for every sequence of non-overlapping adds: the byte map of the list is the union of what was added if and only if no run of one source reaches 2^32 bytes between two seams, and then the list is sorted |
| Adds.AllFollow | aosp/libsparse/sparse/src/main/cpp/backed_block.cpp:230-270 | what the list is at every point, next to the list with unbounded lengths: the same blocks, shorter exactly where 32 bits overflow, and merged wherever they can be except at seams |
| Adds.SeamKeepsBytes | aosp/libsparse/sparse/src/main/cpp/backed_block.cpp:236-241 | two fills of 2^32 bytes in all are kept when the second is added first, and lost otherwise |
| BlockList.List.MergeBb | aosp/libsparse/sparse/src/main/cpp/backed_block.cpp:177-228 | on the linked list: joins the second node into the first and unlinks it exactly when the specification merges |
| BlockList.List.FindPlace | aosp/libsparse/sparse/src/main/cpp/backed_block.cpp:238-254 | the node found, with or without the hint, is the last one before the new block |
| BlockList.List.QueueBb | aosp/libsparse/sparse/src/main/cpp/backed_block.cpp:230-270 | the linked list becomes the ordered insertion with both merges, and last_used stays null or a node of the list |
| BlockList.List.SplitBb | aosp/libsparse/sparse/src/main/cpp/backed_block.cpp:342-380 | the node is replaced by its pieces and everything else stays |
| BlockList.List.TakeFront | aosp/libsparse/sparse/src/main/cpp/backed_block.cpp:136-160 | the first k nodes leave the list and the hint is cleared |
| BlockList.List.PutSegment | aosp/libsparse/sparse/src/main/cpp/backed_block.cpp:162-174 | the segment is linked in before the first later node with a larger block number |
| SparseFile.BuildList | aosp/libsparse/sparse/src/main/cpp/sparse.cpp:53-70 | a run of add calls builds the list of the specification |
| SparseFile.ListMove | aosp/libsparse/sparse/src/main/cpp/backed_block.cpp:132-174 | the moved nodes are exactly the first k; both lists stay well formed and share no node |
| Resparse.RoundFitsLimit | aosp/libsparse/sparse/src/main/cpp/sparse.cpp:251-311 | from a limit of 69 on the sparse form of what any round moves is shorter than the limit, although the split charges neither the gap header nor the fill value |
| Resparse.RoundContent | aosp/libsparse/sparse/src/main/cpp/sparse.cpp:251-311 | a round neither loses nor invents a byte |
| Resparse.RoundProgress | aosp/libsparse/sparse/src/main/cpp/sparse.cpp:325-337 | remaining bytes, then remaining blocks, decrease in every round that is followed by another, empty pieces included |
| Resparse.ResparseEndsIff | aosp/libsparse/sparse/src/main/cpp/sparse.cpp:251-344 | for every limit and list the loop ends if and only if the limit has room for a block of data, or is below 68 and so wraps around, or every block that is not empty is a fill whose chunk fits |
| Resparse.NeverEnds | aosp/libsparse/sparse/src/main/cpp/sparse.cpp:325-337 | a block that does not fit such a limit is never moved, so no number of rounds is enough |
| Resparse.LimitBelowOverhead | aosp/libsparse/sparse/src/main/cpp/sparse.cpp:262-267 | below 56 the budget wraps around and one file takes everything a 32-bit length can hold |
| Resparse.LimitBelowOneChunk | aosp/libsparse/sparse/src/main/cpp/sparse.cpp:287-299 | from 56 to 67 nothing fits and a round moves the first block whole |
| Resparse.FilesContent | aosp/libsparse/sparse/src/main/cpp/sparse.cpp:313-344 | all files together hold exactly the original bytes |
| Resparse.FilesOrder | aosp/libsparse/sparse/src/main/cpp/sparse.cpp:313-344 | all files together are sorted and do not overlap |
| Resparse.FilesWellFormed | aosp/libsparse/sparse/src/main/cpp/sparse.cpp:313-344 | every file is a strictly sorted list inside the image |
| Resparse.FilesFitLimit | aosp/libsparse/sparse/src/main/cpp/output_file.cpp:319-406 | from a limit of 69 on every file written in sparse form is shorter than the limit, whenever the loop ends |
| Resparse.FilesFitIff | aosp/libsparse/sparse/src/main/public/sparse/sparse.h:305-330 | for every image and limit with which the loop ends: the files are all shorter than the limit if and only if the limit is at least 69, or is 56 to 68 and each block makes a file below it, or is less and the whole image makes one |
| Resparse.LimitKeptIff | aosp/libsparse/sparse/src/main/public/sparse/sparse.h:305-330 | for all images without empty blocks the promise holds if and only if the limit is at least 68 |
| Resparse.SinglesFitIff | aosp/libsparse/sparse/src/main/cpp/sparse.cpp:287-299 | from 56 to 68 every file holds one block, cut where 32 bits demand it |
| Resparse.SinglesWhole | aosp/libsparse/sparse/src/main/cpp/sparse.cpp:287-299 | there, blocks shorter than 2^32 - 12 rounded down to whole blocks are not cut at all |
| Resparse.WrappedTooLong | aosp/libsparse/sparse/src/main/cpp/sparse.cpp:262-267 | below 56, an image too long for the wrapped budget makes some file too long |
| Resparse.FillExceedsLimit | aosp/libsparse/sparse/src/main/cpp/sparse.cpp:287-299 | below 68, for every block size, one block of a fill makes a file of 68 bytes |
| Resparse.DataExceedsLimit | aosp/libsparse/sparse/src/main/cpp/sparse.cpp:287-299 | from 56 to 67 one block of data makes a file of 64 bytes more than the block |
| Resparse.EmptyFillReachesLimit | aosp/libsparse/sparse/src/main/cpp/sparse.cpp:287-299 | an empty fill makes a file of 68 bytes with a limit of 68 |
| Resparse.ResparseConserves | aosp/libsparse/sparse/src/main/cpp/sparse.cpp:313-344 | whatever the size of the caller's array, the files handed out and what is put back are pairwise disjoint and together the original byte map |
| SparseFile.ScanChunks | aosp/libsparse/sparse/src/main/cpp/sparse.cpp:276-302 | the counting loop stops at the first block that does not fit, with the exact length so far |
| SparseFile.SplitAtCut | aosp/libsparse/sparse/src/main/cpp/sparse.cpp:287-299 | the block at the cut is split exactly when it is the first or an eighth of the limit is left |
| Resparse.CutBelowSevenEighths | aosp/libsparse/sparse/src/main/cpp/sparse.cpp:287-299 | every file but the last ends with a whole block and uses at least seven eighths of what the limit leaves, or ends with a proper piece of a block before which less was used |
| SparseFile.MoveChunksUpToLen | aosp/libsparse/sparse/src/main/cpp/sparse.cpp:251-311 | the linked lists become what the round specifies, sharing no node |
| SparseFile.SparseFileResparse | aosp/libsparse/sparse/src/main/cpp/sparse.cpp:313-344 | returns the first files of the specification, the number of all, and leaves the blocks of the others in the input |
| SparseFormat.SparseHeaderRoundTrip | aosp/libsparse/sparse/src/main/cpp/output_file.cpp:529-549 | reading a written file header returns it |
| SparseFormat.ChunkHeaderRoundTrip | aosp/libsparse/sparse/src/main/cpp/sparse_read.cpp:385-396 | reading a written chunk header returns it, wherever it stands |
| SparseFormat.ReadOneChunk | aosp/libsparse/sparse/src/main/cpp/sparse_read.cpp:286-334 | a written chunk is read as the block it stands for and the cursor ends behind it |
| SparseFormat.ReadEncoded | aosp/libsparse/sparse/src/main/cpp/sparse_read.cpp:385-405 | a written chunk stream is read as the blocks and the block count it stands for, skips of any size included |
| SparseWriter.OutputFile.WriteSkipChunk | aosp/libsparse/sparse/src/main/cpp/output_file.cpp:319-341 | refuses exactly the lengths that are not whole blocks, otherwise appends a skip chunk |
| SparseWriter.OutputFile.WriteFillChunk | aosp/libsparse/sparse/src/main/cpp/output_file.cpp:343-371 | appends a fill chunk of the rounded-up block count; the 32-bit int that holds the rounded length moves the output counter back from 2^31 on |
| SparseWriter.OutputFile.WriteDataChunk | aosp/libsparse/sparse/src/main/cpp/output_file.cpp:373-406 | appends a raw chunk padded with zeros to whole blocks; the output counter as for fills |
| SparseWriter.FileLengthIsEmitted | aosp/libsparse/sparse/src/main/cpp/sparse.cpp:251-311 | the length resparse reckons with is the length the writer emits |
| SparseWriter.AllChunksSum | aosp/libsparse/sparse/src/main/cpp/sparse.cpp:114-137 | the block counts of the chunks add up to the image's |
| SparseWriter.CountAgreesIffWholeBlocks | aosp/libsparse/sparse/src/main/cpp/sparse.cpp:71-89 | for every length and list end, the chunk count of the header is the number of chunks emitted if and only if the length is a multiple of the block size or the last block reaches beyond it |
| SparseWriter.CountChunks | aosp/libsparse/sparse/src/main/cpp/sparse.cpp:71-89 | counts one chunk per block and per gap |
| SparseWriter.WriteAllBlocks | aosp/libsparse/sparse/src/main/cpp/sparse.cpp:114-137 | emits the chunks of the list and the closing skip if it is whole |
| SparseWriter.SparseFileWrite | aosp/libsparse/sparse/src/main/cpp/sparse.cpp:139-154 | for every length: a header whose 28 bytes give magic, version, sizes, block size, block count and a chunk count with the closing skip, and the chunks that are written |
| SparseWriter.WholeForm | aosp/libsparse/sparse/src/main/cpp/sparse.cpp:139-154 | for an image of whole blocks the header counts exactly the chunks written |
| SparseReader.SparseFileReadSparse | aosp/libsparse/sparse/src/main/cpp/sparse_read.cpp:336-411 | the reading loop is the reader of the specification, errors included |
| SparseReader.SparseFileImport | aosp/libsparse/sparse/src/main/cpp/sparse_read.cpp:482-536 | block size and length are those at bytes 12 and 16 of the header, and the blocks those of the reader with that block size; what it refuses is refused |
| SparseLayout.ImportLaid | aosp/libsparse/sparse/src/main/cpp/sparse_read.cpp:336-411 | a file of any writer, with longer file and chunk headers, checksums and unknown chunks, is imported as exactly the fills and the bytes of its raw chunks at their blocks, and refused if the block count is not that of the header |
| SparseLayout.WrongChunkRefused | aosp/libsparse/sparse/src/main/cpp/sparse_read.cpp:163-333 | a chunk whose size does not belong to its kind or whose count is negative as an int, or an end before the last chunk, refuses the whole file |
| SparseLayout.HeaderRefused | aosp/libsparse/sparse/src/main/cpp/sparse_read.cpp:362-376 | wrong magic, version or header sizes refuse the file |
| SparseReader.FillZeroPaddedIff | aosp/libsparse/sparse/src/main/cpp/output_file.cpp:343-371 | a fill is padded with zeros if and only if it needs no padding, its value is zero, or the bytes of the value in less than a word of padding are |
| SparseReader.FillIsNotZeroPadded | aosp/libsparse/sparse/src/main/public/sparse/sparse.h:90-106 | a fill of one byte in blocks of four is followed by bytes that are not zero |
| SparseReader.EmptyLastReadsBack | aosp/libsparse/sparse/src/main/cpp/sparse_read.cpp:336-411 | an empty last block, as resparsing may leave one, changes no byte on the way back |
| SparseReader.SparseRoundTrip | aosp/libsparse/sparse/src/main/cpp/sparse_read.cpp:482-536 | importing what was written, with no block size given, yields the writer's block size and length, one block per block written and the same bytes, padded to whole blocks, for images of fewer than 2^31 blocks whose chunks and fill runs fit 32 bits |
| Resparsed.ResparsedReadsBack | aosp/libsparse/sparse/src/main/cpp/sparse.cpp:313-344 | every file of a resparsed image, written and imported again, has the image's block size and length and supplies its bytes of the image, for every limit with which resparsing ends |
| RawImage.BlockIsUniform | aosp/libsparse/sparse/src/main/cpp/sparse_read.cpp:436-446 | the word comparison loop decides whether a block repeats its first word |
| RawImage.SparseFileReadNormal | aosp/libsparse/sparse/src/main/cpp/sparse_read.cpp:413-462 | one add per block, a fill exactly for uniform whole blocks |
| RawImage.FillIffRepeats | aosp/libsparse/sparse/src/main/cpp/sparse_read.cpp:432-452 | a block becomes a fill exactly if it is whole and repeats its first four bytes, which are those of the value, and otherwise refers to its bytes in the file |
| RawImage.RawImport | aosp/libsparse/sparse/src/main/cpp/sparse_read.cpp:413-462 | the list built from a raw image of any size whose runs stay below 2^32 bytes holds exactly the image |
| RawImage.RawImportIff | aosp/libsparse/sparse/src/main/cpp/sparse_read.cpp:413-462 | the list holds the image if and only if no run reaches 2^32 bytes |
| RawImage.ZeroImageIsLost | aosp/libsparse/sparse/src/main/cpp/backed_block.cpp:220-225 | an image of 2^32 zeros is not kept |
| RawImage.NormalFile.WriteDataChunk | aosp/libsparse/sparse/src/main/cpp/output_file.cpp:440-454 | writes the data and skips to the next block boundary |
| RawImage.NormalFile.WriteFillChunk | aosp/libsparse/sparse/src/main/cpp/output_file.cpp:456-477 | writes exactly the fill's length of fill bytes, in block-sized pieces |
| RawImage.WriteRawImage | aosp/libsparse/sparse/src/main/cpp/sparse.cpp:114-137 | the emitted blocks, cut or extended to the image length |
| RawImage.PositionOnTrackIffFillsAligned | aosp/libsparse/sparse/src/main/cpp/output_file.cpp:456-481 | the write position is where the next block belongs if and only if all fills cover whole blocks |
| RawImage.AlignedFillsGiveImage | aosp/libsparse/sparse/src/main/cpp/output_file.cpp:440-485 | when the fills before the last block are aligned the raw file is the image of the list |
| RawImage.UnalignedFillMisplacesData | aosp/libsparse/sparse/src/main/cpp/output_file.cpp:456-477 | an unaligned fill followed by data puts the data at the wrong offset |
| RawImage.RawSparseRaw | aosp/libsparse/sparse/src/main/cpp/sparse_read.cpp:413-462 | import with fill detection, sparse writing, sparse import, which takes block size and length from the file, and raw writing reproduce the image, for whole blocks, fewer than 2^31, whose runs fit the format |
| Vbmeta.SafeAdd | aosp/libavb/src/avb/c/avb_util.c:103-126 | the overflow test recognizes exactly the sums that do not fit |
| Vbmeta.CheckLayout | aosp/libavb/src/avb/c/avb_vbmeta_image.c:57-166 | the guard chain on 64-bit values decides the layout conditions of unbounded arithmetic |
| Vbmeta.CheckRegions | aosp/libavb/src/avb/c/avb_vbmeta_image.c:114-148 | hash, signature, key and metadata lie inside their blocks |
| Vbmeta.LayoutFromBytes | aosp/libavb/src/avb/c/avb_vbmeta_image.c:57-166 | the verdict on the layout from the bytes of the header at their offsets: magic, versions, release string, block sizes, regions, algorithm and hash size |
| Vbmeta.HashComparison | aosp/libavb/src/avb/c/avb_vbmeta_image.c:169-210 | the stored hash is compared with the hash of header and auxiliary block |
| Vbmeta.PaddingLaid | aosp/libavb/src/avb/c/avb_crypto.c:34-56 | the padding of section 9.2 of RFC 8017, with at least eight bytes of ones |
| Vbmeta.DigestInfoLaid | aosp/libavb/src/avb/c/avb_crypto.c:30-56 | the encoded DigestInfo of both hash functions |
| Vbmeta.AcceptedKeySize | aosp/libavb/src/avb/c/avb_rsa.c:61-71 | the RSA length checks tie the key size to the algorithm, so an accepted image has a non-empty key |
| Vbmeta.VbmetaImageVerify | aosp/libavb/src/avb/c/avb_vbmeta_image.c:32-240 | each result code exactly under its condition, for every key; for a documented key OK if and only if hash and signature are right; OK returns the image's non-empty key, no other result returns a key |
| Vbmeta.RsaPassesIff | aosp/libavb/src/avb/c/avb_vbmeta_image.c:212-228 | the RSA check fits the key to the algorithm and, for a documented key, is a signature check |
| Vbmeta.VerdictIgnoresBehind | aosp/libavb/src/avb/c/avb_rsa.c:47-71 | bytes behind the image never decide the verdict, and an accepted image holds its key's header |
| Descriptors.DescriptorForeach | aosp/libavb/src/avb/c/avb_descriptor.c:41-124 | pointer arithmetic modulo 2^64 visits the descriptors of the specification and succeeds exactly when the region is consumed |
| Descriptors.DescriptorGetAll | aosp/libavb/src/avb/c/avb_descriptor.c:126-167 | the counting pass and the filling pass agree |
| Descriptors.WalkOfStream | aosp/libavb/src/avb/c/avb_descriptor.c:90-118 | a concatenation of well-formed descriptors is visited descriptor by descriptor |
| Descriptors.WalkSucceedsIff | aosp/libavb/src/avb/c/avb_descriptor.c:90-118 | the walk succeeds if and only if the region is such a concatenation |
| Descriptors.ChainOfRecord | aosp/libavb/src/avb/c/avb_chain_partition_descriptor.c:28-64 | for any location, lengths and bytes, a descriptor laid out as the C struct parses to exactly location, name and key, or is refused, exactly when the location is 0, the lengths exceed it or its size is no multiple of 8 |
| Descriptors.HashOfRecord | aosp/libavb/src/avb/c/avb_hash_descriptor.c:28-62 | the same for a hash descriptor: image size, algorithm, name, salt, digest and flags |
| Descriptors.HashtreeOfRecord | aosp/libavb/src/avb/c/avb_hashtree_descriptor.c:28-67 | the same for a hashtree descriptor: algorithm, name, digest length and flags |
| Descriptors.CmdlineOfRecord | aosp/libavb/src/avb/c/avb_kernel_cmdline_descriptor.c:28-58 | the same for a kernel command line |
| Persist.Values.Read | aosp/libavb/src/avb/headers/avb_ops.h:267-297 | the read operation of a faithful store |
| Persist.Values.Write | aosp/libavb/src/avb/headers/avb_ops.h:299-314 | the write operation of a faithful store; an empty value removes the name |
| Persist.Values.ReadPersistentDigest | aosp/libavb/src/avb/c/avb_slot_verify.c:160-223 | the store changes only by initializing a missing value on a locked device; the result says what the store holds afterwards; terminates with one nested call |
| Persist.Values.InitializePersistentDigest | aosp/libavb/src/avb/c/avb_slot_verify.c:225-276 | writes the first value only while locked and reads it back |
| Persist.Values.CheckPersistentDigest | aosp/libavb/src/avb/c/avb_slot_verify.c:417-452 | OK exactly when the stored value, after a possible initialization, is the digest |
| Persist.Values.LookupPersistentDigest | aosp/libavb/src/avb/c/avb_slot_verify.c:1181-1188 | a lookup never changes the store and says what it holds |
| Persist.DigestStays | aosp/libavb/src/avb/c/avb_slot_verify.c:160-276 | over any sequence of requests, a stored digest never changes |
| Persist.WrittenAtMostOnce | aosp/libavb/src/avb/c/avb_slot_verify.c:225-276 | over any sequence of requests, the digest of a partition is written at most once, only while locked, with the digest of that request |
| Persist.CheckSucceedsIffFirst | aosp/libavb/src/avb/c/avb_slot_verify.c:417-452 | over any sequence of requests, a check succeeds if and only if the store is readable and the digest equals the first one |
| Persist.Values.ManageHashtreeErrorMode | aosp/libavb/src/avb/c/avb_slot_verify.c:1238-1331 | succeeds exactly when the operations it needs do; the mode is EIO if the store remembers a digest afterwards and RESTART otherwise |
| Persist.ModeStored | aosp/libavb/src/avb/c/avb_slot_verify.c:1238-1331 | the store remembers a digest exactly while the same operating system stays in EIO mode |
| Persist.ManagedModeIff | aosp/libavb/src/avb/c/avb_slot_verify.c:1553-1568 | over any sequence of requests, failed ones and digest checks in between included: EIO if and only if some resolved request was flagged and every one since the last flagged one has the same vbmeta digest; RESTART otherwise |
| Slot.LoadFullPartition | aosp/libavb/src/avb/c/avb_slot_verify.c:77-142 | OK only with exactly the requested bytes, preloaded or read |
| Slot.ValidateUtf8 | aosp/libavb/src/avb/c/avb_util.c:128-169 | the loop decides validity |
| Slot.FirstCharacter | aosp/libavb/src/avb/c/avb_util.c:128-169 | a string that is not empty is valid if and only if it begins with a well-formed character of one to four bytes and goes on with a valid string |
| Slot.NamePartition | aosp/libavb/src/avb/c/avb_slot_verify.c:330-360 | the name with or without suffix, refused exactly when too long or when a persistent digest meets a suffix |
| Slot.SaltedDigest | aosp/libavb/src/avb/c/avb_slot_verify.c:388-415 | the hash named in the descriptor over salt and image |
| Slot.CompareDigest | aosp/libavb/src/avb/c/avb_slot_verify.c:417-455 | the exact result and store: OK exactly for the digest of the descriptor or the persistent one; stored digests stay |
| Slot.AlgorithmNames | aosp/libavb/src/avb/c/avb_slot_verify.c:388-415 | the zero-filled names sha256 and sha512 select these hashes, any other none |
| Slot.HashRefused | aosp/libavb/src/avb/c/avb_slot_verify.c:303-455 | the result of a hash descriptor in both modes, from the bytes of its partition where reading does not fail: malformed names, a suffix with a persistent digest, names that do not fit, partitions that are missing or too short, unknown algorithms, digests of the wrong length or value |
| Slot.HashLoads | aosp/libavb/src/avb/c/avb_slot_verify.c:278-479 | what a hash descriptor does keeps images, order and bounds; in both modes a requested partition is loaded whole, or in strict mode as long as the descriptor says, and the result is OK if and only if the digest of as much of it as the descriptor says is that of the descriptor or the stored one |
| Slot.LoadAndVerifyHashPartition | aosp/libavb/src/avb/c/avb_slot_verify.c:278-479 | the exact result and slot data; OK keeps all loaded partitions verified, in both modes; OK loads the partition if and only if it is requested; at most 32 |
| SlotVerify.LocateVbmeta | aosp/libavb/src/avb/c/avb_slot_verify.c:638-674 | never more than 64 KiB; a usable footer decides offset and size, otherwise the start of the partition; an error of the read decides the result code |
| Slot.FooterDecides | aosp/libavb/src/avb/headers/avb_footer.h:53-74 | from the last 64 bytes of a partition: with a usable footer for offset o and size n the vbmeta struct is bytes o to o + n, and otherwise the first 64 KiB |
| SlotRun.ReadsVbmeta | aosp/libavb/src/avb/c/avb_slot_verify.c:591-734 | what is read is what the partition holds as its vbmeta struct, and without faults it is read exactly if the name fits, the partition is there and it holds one; the result code otherwise |
| SlotVerify.CheckImage | aosp/libavb/src/avb/c/avb_slot_verify.c:735-887 | the exact result code; in both modes an image is kept with OK if and only if it verified, has the expected or a trusted key, is not rolled back and, if chained, has no flags |
| SlotRun.CheckCodes | aosp/libavb/src/avb/c/avb_slot_verify.c:735-887 | each result code under exactly its condition on the image: with errors allowed every well-laid image is kept that is not refused for its flags and the last failure decides, otherwise the first |
| SlotRun.ResultOkIff | aosp/libavb/src/avb/c/avb_slot_verify.c:952-1206 | in both modes the loop result is OK if and only if nothing ended the loop and every failure, one from before the loop included, is followed by a digest lookup |
| SlotRun.OkMeansPassed | aosp/libavb/src/avb/c/avb_slot_verify.c:1180-1198 | with result OK, something failed if and only if a lookup follows it |
| SlotRun.LoopOkIff | aosp/libavb/src/avb/c/avb_slot_verify.c:950-1206 | the same of the loop itself, over the outcomes that device and store determine |
| Masked.LoadingOkIff | aosp/libavb/src/avb/c/avb_slot_verify.c:950-1206 | in both modes, loading a top-level image that is kept comes to OK if and only if no descriptor ends the loop, a digest lookup follows every failed one, and there is one unless the image is signed, trusted and not rolled back |
| Masked.UnsignedTopHidden | aosp/libavb/src/avb/c/avb_slot_verify.c:1180-1198 | with errors allowed, an unsigned top-level image followed by a lookup that succeeds comes to OK |
| Masked.MissingDigestCutsShort | aosp/libavb/src/avb/c/avb_slot_verify.c:1180-1188 | a digest that is not found ends the loop with a verification error, so that later descriptors are not handled and no rollback index is recorded; with errors allowed the call goes on |
| Masked.TopFound | aosp/libavb/src/avb/c/avb_slot_verify.c:694-734 | without faults, the first 64 KiB of the partition "vbmeta" are examined if there is one, and otherwise what "boot" holds, footer included; if there is neither, the result is an I/O error |
| Masked.BootLoaded | aosp/libavb/src/avb/c/avb_slot_verify.c:703-728 | a device without "vbmeta" on which "boot" holds a trusted image loads that image |
| Masked.MaskedBoot | aosp/libavb/src/avb/c/avb_slot_verify.c:1180-1198 | on every device where one chained image fails in a way that could be ignored, a later lookup succeeds and all other descriptors pass, the strict call returns OK, in the managed mode too |
| Masked.WrongPartitionBoot | aosp/libavb/src/avb/c/avb_slot_verify.c:1180-1198 | when that failure is a requested partition of the chained image, OK comes with a loaded partition whose digest is not that of its descriptor |
| Masked.WrongChainFails | aosp/libavb/src/avb/c/avb_slot_verify.c:456-479 | a chained image that is in order but for a requested partition with a wrong digest fails verification and leaves the partition loaded |
| Masked.UnsignedThenStored | aosp/libavb/src/avb/c/avb_slot_verify.c:1180-1198 | an unsigned chained image and a stored digest behind it are such a device |
| Masked.UnsignedChainFails | aosp/libavb/src/avb/c/avb_slot_verify.c:735-760 | an unsigned chained image fails verification and nothing of it is kept |
| SlotSafety.NoLateLookupPasses | aosp/libavb/src/avb/c/avb_slot_verify.c:1180-1198 | if no lookup follows a descriptor that may fail, OK means that every descriptor passed, in both modes |
| SlotVerify.LoadRequestedPartitions | aosp/libavb/src/avb/c/avb_slot_verify.c:481-555 | the exact result and slot data: what is loaded are the requested partitions in order, each whole, read or preloaded; OK means all of them; every failure is fatal |
| SlotRun.RequestedCodes | aosp/libavb/src/avb/c/avb_slot_verify.c:481-555 | a requested partition is refused if its name is too long, an I/O error if it is missing, and otherwise its bytes |
| SlotVerify.LookupRootDigest | aosp/libavb/src/avb/c/avb_slot_verify.c:1125-1199 | changes nothing in the store; the exact result for every descriptor, including the limit on substitutions |
| SlotRun.LookupCodes | aosp/libavb/src/avb/c/avb_slot_verify.c:1125-1199 | the result from the store: malformed names, a suffix, unknown algorithms, a missing digest, one of the wrong length, more than 10 substitutions |
| SlotRun.DigestLengths | aosp/libavb/src/avb/c/avb_slot_verify.c:1163-1180 | the digest lengths of the zero-filled algorithm names |
| SlotRun.DisabledBit | aosp/libavb/src/avb/c/avb_slot_verify.c:916-936 | verification is disabled by the second lowest bit of byte 123 |
| SlotSafety.TurnKeeps | aosp/libavb/src/avb/c/avb_slot_verify.c:952-1206 | one turn keeps images trusted, everything sourced from the device and, if it passes, partitions verified and the descriptor acted on |
| SlotVerify.HandleDescriptor | aosp/libavb/src/avb/c/avb_slot_verify.c:952-1206 | one turn has exactly the outcome, result code included, and the slot data that device and store determine, and keeps what every turn keeps |
| SlotVerify.ProcessDescriptors | aosp/libavb/src/avb/c/avb_slot_verify.c:950-1206 | the loop has exactly the outcomes and the slot data that device and store determine, and the result they assign; all passed means every descriptor acted on |
| SlotRun.LocationRefused | aosp/libavb/src/avb/c/avb_slot_verify.c:1208-1216 | a location beyond the 32 of the table is refused and the table stays |
| SlotSafety.TurnsKeep | aosp/libavb/src/avb/c/avb_slot_verify.c:950-1206 | over all turns: growth, trust, kinds of outcomes, the result they leave of the one before, and completeness if all are sure |
| SlotSafety.ImageRecorded | aosp/libavb/src/avb/c/avb_slot_verify.c:889-914 | a kept image extends the trusted ones and undoes nothing; what is recorded is what the device holds under its name, with its verdict and the size of its blocks |
| SlotSafety.LoadKeeps | aosp/libavb/src/avb/c/avb_slot_verify.c:557-1236 | at every exit each image is trusted (read from the partition its chain descriptor names, signed by that descriptor's key or a trusted one, not rolled back) and images are only added; at most 32 images; image 0 is "vbmeta" or "boot"; the rollback index is recorded at its location; the store is as logged |
| SlotVerify.LoadAndVerifyVbmeta | aosp/libavb/src/avb/c/avb_slot_verify.c:557-1236 | result and slot data are exactly those that device and store determine, and keep all that; at most three nested calls |
| SlotVerify.VbmetaDigest | aosp/libavb/src/avb/c/avb_slot_verify.c:1706-1743 | SHA-256 of all vbmeta structs in order |
| SlotVerify.PartsNext | aosp/libavb/src/avb/c/avb_slot_verify.c:1706-1743 | each image adds its own bytes, without what was read behind it |
| SlotVerify.Finish | aosp/libavb/src/avb/c/avb_slot_verify.c:1523-1583 | the error mode, resolved through the store with the digest of the images if it is managed, then the options; nothing if verification is disabled; the result code of each |
| SlotVerify.AvbSlotVerify | aosp/libavb/src/avb/c/avb_slot_verify.c:1362-1626 | result, data and store are those that device, arguments and store determine; strict mode: data if and only if OK, then all images are trusted and, unless verification is disabled, if all outcomes passed, every loaded partition is verified, every requested one loaded and every chain followed; the store is asked about the mode last, with the digest of the images returned, and the mode is EIO exactly if the store then remembers it |
| SlotSafety.TopTrusted | aosp/libavb/src/avb/c/avb_slot_verify.c:735-887 | in both modes the checks of the top-level image come to OK exactly if it is trusted |
| SlotVerify.OkFacts | aosp/libavb/src/avb/c/avb_slot_verify.c:1362-1626 | in both modes OK means: a trusted top-level image unless a digest is looked up; all descriptors passed unless a lookup follows one that may fail; and then, in strict mode or without chained images, every requested partition loaded and verified |
| Boots.RunBoots | aosp/libavb/src/avb/c/avb_slot_verify.c:1362-1626 | any number of calls, each with the store the one before left: the reports account for every request to the store |
| Boots.EioOverBoots | aosp/libavb/src/avb/c/avb_slot_verify.c:1553-1568 | a boot that returns data in the managed mode is in EIO mode if and only if some boot so far was flagged and every boot since the last flagged one had the same vbmeta digest, which is that of the images returned; RESTART otherwise |
| Boots.DigestOverBoots | aosp/libavb/src/avb/c/avb_slot_verify.c:160-276 | a persistent digest that one boot left is there, unchanged, after every later one |
| Boots.FirstDigestOverBoots | aosp/libavb/src/avb/c/avb_slot_verify.c:417-452 | what a strict boot that passed loaded for a device-unique partition has the digest of the first boot that could record one, or the one stored before |
| Struct.Expand | bbootimg/src/main/kotlin/cfig/io/Struct3.kt:41-81 | the format is accepted exactly if all its letters are supported, and repeated numbers become single items |
| Struct.ExpandedSize | bbootimg/src/main/kotlin/cfig/io/Struct3.kt:111-122 | calcSize is the sum of count times unit over the format string |
| Struct.Pack | bbootimg/src/main/kotlin/cfig/io/Struct3.kt:125-276 | succeeds exactly for arguments that are accepted, with every item encoded in order, too large numbers truncated |
| Struct.Unpack | bbootimg/src/main/kotlin/cfig/io/Struct3.kt:279-299 | every value is read at its offset and the cursor ends behind the record |
| Struct.UnpackPack | bbootimg/src/main/kotlin/cfig/io/Struct3.kt:125-299 | unpacking what was packed returns the values if and only if none was filled, cut at a NUL or truncated, for every format and wherever the record stands |
| DescriptorStream.Formats | bbootimg/src/main/kotlin/avb/desc/HashDescriptor.kt:121-127 | the formats of hash, property and unknown descriptors have the sizes of their constants |
| DescriptorStream.EncodeHead | bbootimg/src/main/kotlin/avb/desc/UnknownDescriptor.kt:25-27 | every encoded descriptor begins with its tag and the number of bytes that follow |
| DescriptorStream.ParseHashOfEncode | bbootimg/src/main/kotlin/avb/desc/HashDescriptor.kt:33-72 | a hash descriptor is parsed back from its encoding |
| DescriptorStream.ParsePropertyOfEncode | bbootimg/src/main/kotlin/avb/desc/PropertyDescriptor.kt:11-45 | a property descriptor is parsed back from its encoding |
| DescriptorStream.AnalyzeOfEncode | bbootimg/src/main/kotlin/avb/desc/UnknownDescriptor.kt:33-54 | the generic record of an encoded descriptor is classified as that descriptor |
| DescriptorStream.ParseDescriptors2 | bbootimg/src/main/kotlin/avb/desc/UnknownDescriptor.kt:84-107 | the loop is the parser of the specification and terminates on every stream |
| DescriptorStream.ParsedIff | bbootimg/src/main/kotlin/avb/desc/UnknownDescriptor.kt:84-107 | a stream is parsed if and only if it consists of records, each as long as its length field says, that can be analyzed and take exactly the size announced |
| DescriptorStream.ParseOfStream | bbootimg/src/main/kotlin/avb/desc/UnknownDescriptor.kt:84-107 | parsing the encoding of any non-empty list of descriptors returns it, numbered in order |
| DescriptorStream.Classify | bbootimg/src/main/kotlin/avb/Avb.kt:203-228 | the typed lists hold exactly the descriptors, each in the list of its type |
| DescriptorStream.SortFacts | bbootimg/src/main/kotlin/avb/blob/AuxBlob.kt:54-54 | sorting by sequence number sorts and permutes |
| DescriptorStream.EncodeDescriptors | bbootimg/src/main/kotlin/avb/blob/AuxBlob.kt:42-58 | the encodings of all lists, in the order of the sequence numbers |
| DescriptorStream.EncodeWellFormed | aosp/libavb/src/avb/c/avb_descriptor.c:90-118 | an encoded descriptor is well formed for the C walk |
| DescriptorStream.Reencode | bbootimg/src/main/kotlin/avb/Avb.kt:196-229 | parsing, splitting into typed lists and re-encoding restores the stream byte for byte |
| VbmetaWriter.HeaderFormat | bbootimg/src/main/kotlin/avb/blob/Header.kt:103-113 | the header format, expanded |
| VbmetaWriter.HeaderOffsets | aosp/libavb/src/avb/headers/avb_vbmeta_image.h:125-195 | the offsets of that format are those of the C struct, 256 bytes in all |
| VbmetaWriter.HeaderRoundTrip | aosp/libavb/src/avb/c/avb_vbmeta_image.c:242-276 | the C code reads every field of a header the Kotlin code wrote |
| VbmetaWriter.WrittenLayout | aosp/libavb/src/avb/c/avb_vbmeta_image.c:57-166 | every layout check passes on a written blob, whatever follows it |
| VbmetaWriter.WrittenContents | bbootimg/src/main/kotlin/avb/blob/AuxBlob.kt:60-88 | hash, signature and key are found where the header says, and the hash covers header and auxiliary block |
| VbmetaWriter.WrittenAsGiven | bbootimg/src/main/kotlin/avb/blob/Header.kt:61-113 | the C code reads rollback index, flags, algorithm, versions and the zero-filled release string that were given, and the metadata that was given |
| VbmetaWriter.WrittenDescriptors | aosp/libavb/src/avb/c/avb_descriptor.c:41-124 | the C walk visits exactly the written descriptors, in order |
| VbmetaWriter.VerifierReadsHash | aosp/libavb/src/avb/c/avb_hash_descriptor.c:28-62 | the C parser takes a written hash descriptor apart into what was put in |
| VbmetaWriter.CreateAuth | bbootimg/src/main/kotlin/avb/blob/AuthBlob.kt:16-39 | hash of header and auxiliary blob, signature of padding and hash, nothing without an algorithm |
| VbmetaWriter.PackVbMeta | bbootimg/src/main/kotlin/avb/Avb.kt:270-304 | fails exactly for an unknown algorithm or a release string that is too long; otherwise the blob of its parts, in which the C code reads the header fields and the metadata given |
| VbmetaWriter.PackThenVerify | bbootimg/src/main/kotlin/avb/Avb.kt:270-304 | the bytes packed are those of the blob, and with anything behind them: unsigned images are accepted as such; signed ones pass everything but possibly the signature, which passes if and only if RSA accepts what the signer returned, for a documented key if and only if it is a signature; all descriptors are visited |
| VbmetaWriter.VerifyWritten | aosp/libavb/src/avb/c/avb_vbmeta_image.c:32-240 | the same for memory that begins with a blob |
| VbmetaWriter.KeyHeaderOutside | aosp/libavb/src/avb/c/avb_rsa.c:47-60 | an image without a key passes layout and hash checks and its key header lies behind its end |

## Left out

- CRC mode of sparse images: writer and reader fold different data into the checksum.
- gzip, callback, file descriptor and mmap plumbing of output files; allocation failure and null pointers everywhere; printing.
- SparseFile.ListMove: only segments that start at the head of the list, which is how every caller in the repository uses backed_block_list_move.
- Blocks.SplitFacts: DIV_ROUND_UP and ALIGN are unbounded; the code computes them in 32 bits, which differs for lengths within one block of 2^32.
- SparseReader.SparseRoundTrip: for chunks and runs whose 32-bit fields do not wrap; nothing is said about images that exceed them.
- SparseReader.SparseFileImport: a header with block size 0 is not refused by the code; what follows, which may divide by it, is not modelled.
- Sha.Context.Final: messages below 2^61 bytes; the compression function and the constants of SHA-256 and SHA-512 are abstract.
- NO_VBMETA_PARTITION mode; under ALLOW_VERIFICATION_ERROR the results and the slot data are exact and come from the device, what chained images keep verified is stated for strict mode.
- SlotVerify.AvbSlotVerify: kernel command-line assembly is left out; its outcome is a parameter of the device.
- Slot.LoadAndVerifyHashPartition: buffers are below 2^60 bytes.
- Debug-build assertions on the alignment of descriptors.
- Struct.Expand: the letters x, b, s, L and Q, which are those of the formats modelled; c, B, h, H, i, I, l and q would add items of the same kinds.
- Struct.Pack: negative numbers are no values of the model; Kotlin assertions are taken as disabled.
- Struct.Unpack: a pad item of length 0 moves nothing, where getPadding reads one byte; no format of the repository has one.
- DescriptorStream.ParseDescriptors2: hash tree, command-line and chain descriptors are not parsed on the Kotlin side, where each would add one more format; Kotlin assertions are taken as disabled.
- VbmetaWriter.PackVbMeta: key encoding (Helper.encodeRSAkey) and signing are parameters; their results have the sizes of the algorithm table.
- addHashFooter, footers on the Kotlin side, boot image headers, mkbootimg, mkdtboimg, JSON configuration, launchers and integration code.
