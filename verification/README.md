# SLikeNet: binary patches, voice channels, transformation history

A verification model of three parts of SLikeNet's dependent extensions.

**Binary patches.** `CreatePatch` sorts all suffixes of the old file by prefix
doubling, searches them for matches to the new file, and writes a patch: a
header and three compressed blocks holding control triples (add, copy, seek),
byte differences and extra bytes. `ApplyPatch` replays the triples against the
old file. The main result, `RoundTrip.CreateAndApply`, is that this rebuilds
the new file, for every lossless codec, exactly when none of the 32-bit sizes
that the code keeps wraps around, which is so for every new file up to 130 million
bytes. It rests on

- the in-place suffix sort (`RangeMoves`, `SuffixGroups`, `SuffixSort`,
  `SuffixPass`, `Buckets`, `Qsufsort`). `I` and `V` are overwritten in place and
  finished groups become negative run lengths; a ghost permutation and ghost
  snapshots carry what the arrays no longer show. The invariant holds at every
  moment, inside `split` while `V` is partly renamed;
- the search (`MatchSearch`), whose result is the longest match exactly under a
  condition on the search path;
- the scan, extension and emission loops (`ScanLoop`, `Extend`, `DiffLoop`),
  proved against a description of complete runs that knows nothing of the loop
  variables (`DiffTrace`);
- the file format and the replay (`OffT`, `Compressor`, `CreatePatch`,
  `ApplyPatch`, `RoundTrip`);
- laws that need no round trip: where and what each emission is (`Emissions`), and
  what `ApplyPatch` makes of any patch, by its bytes (`ApplyLaws`).

**Voice channels.** Each channel of `RakVoice` has two ring buffers whose
indices advance in different block sizes: user blocks of `B` bytes and codec
blocks of `S` bytes. `VoiceRings` states over all runs when the indices count
their bytes correctly, as an if and only if for both rings. `VoiceSequence`
does the same for the 16-bit message numbers. `VoiceQueue` shows that with
equal block sizes the incoming ring is a queue, and joins both: what is played
is in the order of sending. `VoiceReach` says for which block sizes some run comes
to the wrong copy at the end of a ring. `VoiceBytes` and `VoiceSending` follow the
bytes: over every run what is given to the output are the bytes that arrived, and
what is sent are the bytes handed over, in their order and none twice. `VoiceMix`,
`VoiceChannels` and `RakVoice` hold the classes, whose methods are proved against
those descriptions; the class invariant of `RakVoice` says that the output is the
sum of what the channels gave since the user last took it.

**Transformation history.** A bounded queue of timed cells, written at a minimum
interval, overwritten in the past, and read by linear interpolation
(`TransformationHistory`).

## How the code differs from what it says

- `ApplyPatch` tests `*newsize<0` (line 155), but `*newsize` is unsigned: the
  test never holds. A negative size is read modulo 2^32 and rejects nothing:
  `ApplyPatch.SizeNeverRejects` and `RoundTrip.UnpackFile`.
- The size of a new file is kept in 32 bits, but not every file of such a size can
  be patched. The decompressed data have 24 bytes more for each emission, and the
  buffers are doubled or widened past what they hold; those sizes are 32 bits wide
  too. `RoundTrip.CreateAndApply` says exactly when a file is too large. A size of
  2^32-1 never succeeds: `ApplyPatch.LargestNeverPatched`.
- `OnVoiceData` means to conceal up to 100 ms of missing messages (lines
  818-819), but computes 100 divided by the samples per second, which is 0 at
  all three rates: `VoiceSequence.NeverConceals`.
- `search` compares no further than the shorter of the two strings (line 218),
  so it can miss the longest match: `MatchSearch.MissedMatch`.
- Both ring copies that wrap around start again at the first byte of the block
  or buffer (lines 412-420 and 887-888): `VoiceChannels.FrameIsOldestIff` and
  `VoiceQueue.StoredReadsBackIff` say when that does no harm. Runs reach the other
  case for most block sizes, `VoiceReach.BlocksRightIff` and
  `VoiceReach.FramesRightIff`; for equal ones with the hundredth frame,
  `VoiceReach.HundredthFrame`.
- `Overwrite` can move an older cell so late that the history then loses it before
  the time it was set up for: `TransformationHistory.OverwriteShortensHistory`, and
  exactly when, `TransformationHistory.OverwriteRetentionIff`.
- `Overwrite` can also add a cell ahead of the Writes, and unsigned subtraction then
  lets a Write put an earlier time behind it:
  `TransformationHistory.WriteBehindOverwrite`, and exactly when,
  `TransformationHistory.RunOrderIff`.
- For a write interval of 1 and a history time of 2^32-1, the limit on the number of
  cells wraps around to 0, and one cell is kept: `TransformationHistory.RetainsIff`
  and `TransformationHistory.LimitOfNoneKeepsOne`.

## Conventions

Bytes are integers below 256 and arithmetic on them is modulo 256. Where a file
is called old in the source it is `base` here, and new is `target`. Ghost
parameters and results carry the values that array contents stand for.
`DiffTrace.Steps` lists the emissions of a run; `DiffTrace.Trace` says that each
is the one the code makes next. The voice rings are described by pure functions
on their indices, which the methods are proved to compute. The output samples
are whole numbers, which the source's floats hold exactly.

## Model

| member | source | states |
|---|---|---|
| Bytes.AddUndoesSub | slikenet.mod/slikenet/DependentExtensions/Autopatcher/ApplyPatch.cpp:234-237 | adding the old byte to a diff byte, both modulo 256, gives back the new byte, for all bytes |
| Bytes.SubByteIs | slikenet.mod/slikenet/DependentExtensions/Autopatcher/CreatePatch.cpp:413-414 | the diff byte is the one that takes the old byte to the new one, past 255 if need be; 0 for equal bytes |
| Bytes.CommonPrefixExact | slikenet.mod/slikenet/DependentExtensions/Autopatcher/CreatePatch.cpp:189-197 | the place where a comparison of two strings first stops is the length of their longest common prefix |
| Bytes.SuffixLessIsLexLess | slikenet.mod/slikenet/DependentExtensions/Autopatcher/CreatePatch.cpp:150-187 | the order on positions used by the sort is the lexicographic order of the suffixes, a shorter prefix first and the empty suffix least |
| Bytes.ShareDouble | slikenet.mod/slikenet/DependentExtensions/Autopatcher/CreatePatch.cpp:169-184 | two suffixes that share h bytes, and whose tails h places on share h bytes, share 2h bytes: why h may double from pass to pass |
| RangeMoves.SelectLeast | slikenet.mod/slikenet/DependentExtensions/Autopatcher/CreatePatch.cpp:93-105 | one round of the short branch: the entries with the least key of the range end in front of it, all others behind with greater keys; nothing outside moves and the entries are rearranged only |
| RangeMoves.CountSides | slikenet.mod/slikenet/DependentExtensions/Autopatcher/CreatePatch.cpp:112-118 | after the counting loop jj and kk bound exactly as many places as there are lesser and equal keys in the range |
| RangeMoves.CountRun | slikenet.mod/slikenet/DependentExtensions/Autopatcher/CreatePatch.cpp:120-140 | the counting argument behind both swap loops: a part that still misses one of its keys is not yet full |
| RangeMoves.PlaceEqual | slikenet.mod/slikenet/DependentExtensions/Autopatcher/CreatePatch.cpp:125-126 | an equal key found among the lesser ones can be swapped to the end of the equal part: that index is still below kk, and all three parts stay what they were |
| RangeMoves.PlaceGreater | slikenet.mod/slikenet/DependentExtensions/Autopatcher/CreatePatch.cpp:127-140 | a greater key found in either sweep can be swapped to the end of the greater part: that index is still below the end of the range |
| RangeMoves.NoneLeft | slikenet.mod/slikenet/DependentExtensions/Autopatcher/CreatePatch.cpp:120-140 | after the first sweep no lesser key is left behind jj, and after the second no equal key behind kk |
| RangeMoves.SweepLesser | slikenet.mod/slikenet/DependentExtensions/Autopatcher/CreatePatch.cpp:120-131 | the first swap loop ends, stays in range, and leaves exactly the lesser keys in front of jj |
| RangeMoves.SweepEqual | slikenet.mod/slikenet/DependentExtensions/Autopatcher/CreatePatch.cpp:133-140 | the second swap loop ends, stays in range, and leaves exactly the equal keys between jj and kk |
| RangeMoves.Partition | slikenet.mod/slikenet/DependentExtensions/Autopatcher/CreatePatch.cpp:112-140 | the long branch splits the range three ways around the middle key, permutes only the range, and every part holds just the keys it should |
| SuffixGroups.Position | slikenet.mod/slikenet/DependentExtensions/Autopatcher/CreatePatch.cpp:186 | a permutation of 0..n reaches every value, so the last loop writes every entry of I |
| SuffixGroups.RearrangeReady | slikenet.mod/slikenet/DependentExtensions/Autopatcher/CreatePatch.cpp:93-140 | rearranging the front of a group keeps everything known about the groups, whatever the new order |
| SuffixGroups.Carve | slikenet.mod/slikenet/DependentExtensions/Autopatcher/CreatePatch.cpp:106-107 | giving the front of a group its own number keeps the prefix-doubling invariant: the order of the numbers is still the order of the suffixes, and equal numbers still share h bytes |
| SuffixGroups.CompareKeys | slikenet.mod/slikenet/DependentExtensions/Autopatcher/CreatePatch.cpp:97-101 | a smaller key h places on means a smaller suffix, even while V is only partly updated |
| SuffixSort.SplitThen | slikenet.mod/slikenet/DependentExtensions/Autopatcher/CreatePatch.cpp:94-108 | splitting a front part and then the rest splits the whole, through every intermediate state of I and V |
| SuffixSort.RestReady | slikenet.mod/slikenet/DependentExtensions/Autopatcher/CreatePatch.cpp:147 | after the front of a range is finished, the rest is again the front of its group with all key reads in range |
| SuffixSort.FinishGroup | slikenet.mod/slikenet/DependentExtensions/Autopatcher/CreatePatch.cpp:144-145 | setting V to the last index of the middle part, and marking it if it holds one suffix, finishes that part |
| SuffixSort.SplitShort | slikenet.mod/slikenet/DependentExtensions/Autopatcher/CreatePatch.cpp:93-110 | the selection branch finishes the whole range: subgroups in key order, V the last index of each, single suffixes marked, members of a subgroup sharing 2h bytes, nothing outside touched |
| SuffixSort.PartitionRange | slikenet.mod/slikenet/DependentExtensions/Autopatcher/CreatePatch.cpp:112-140 | partitioning keeps all that is known about the groups and leaves the three parts in suffix order |
| SuffixSort.SplitLong | slikenet.mod/slikenet/DependentExtensions/Autopatcher/CreatePatch.cpp:112-147 | the quicksort branch finishes the whole range in the same sense, through both recursive calls, and ends |
| SuffixSort.Split | slikenet.mod/slikenet/DependentExtensions/Autopatcher/CreatePatch.cpp:89-148 | split refines the front of a group in either branch: only that range is permuted, its subgroups are ordered by the key h places on and share 2h bytes, V is each subgroup's last index, single suffixes are marked, and the order of the V values stays the order of the suffixes |
| SuffixPass.SkipRun | slikenet.mod/slikenet/DependentExtensions/Autopatcher/CreatePatch.cpp:172-174 | a negative entry is the length of a run of finished suffixes, so skipping by it stays in range |
| SuffixPass.WriteRun | slikenet.mod/slikenet/DependentExtensions/Autopatcher/CreatePatch.cpp:176 | joining the finished runs in front of a group under one negative length keeps the encoding of I right |
| SuffixPass.GroupReady | slikenet.mod/slikenet/DependentExtensions/Autopatcher/CreatePatch.cpp:177-178 | a non-negative entry starts a group that split may take: it ends where V says, and every read of V h places on is in range |
| SuffixPass.AfterSplit | slikenet.mod/slikenet/DependentExtensions/Autopatcher/CreatePatch.cpp:178-180 | after split the scan has passed one more group, whose members share 2h bytes or are alone |
| SuffixPass.PassDone | slikenet.mod/slikenet/DependentExtensions/Autopatcher/CreatePatch.cpp:171-183 | at the end of a pass the groups are as required for 2h |
| SuffixPass.PassGroup | slikenet.mod/slikenet/DependentExtensions/Autopatcher/CreatePatch.cpp:176-181 | one step of the pass over an unfinished group, with its call of split, keeps the pass invariant and moves on by at least one |
| SuffixPass.Pass | slikenet.mod/slikenet/DependentExtensions/Autopatcher/CreatePatch.cpp:170-183 | one pass takes the prefix-doubling invariant from h to 2h, and shows one single run when no group was left |
| Buckets.SlotsPermutation | slikenet.mod/slikenet/DependentExtensions/Autopatcher/CreatePatch.cpp:157-163 | the counting sort puts every suffix into a slot of its own |
| Buckets.BucketsGrouped | slikenet.mod/slikenet/DependentExtensions/Autopatcher/CreatePatch.cpp:157-167 | after the counting sort the groups are contiguous and named by their last slot |
| Buckets.BucketsConsistent | slikenet.mod/slikenet/DependentExtensions/Autopatcher/CreatePatch.cpp:157-165 | their numbers order the suffixes by the first byte, the empty suffix first |
| Buckets.BucketsRefined | slikenet.mod/slikenet/DependentExtensions/Autopatcher/CreatePatch.cpp:157-165 | members of one group share their first byte: the prefix-doubling invariant for h = 1 |
| Buckets.LoneBucket | slikenet.mod/slikenet/DependentExtensions/Autopatcher/CreatePatch.cpp:166 | a bucket one larger than the one before holds exactly one suffix |
| Qsufsort.CountBuckets | slikenet.mod/slikenet/DependentExtensions/Autopatcher/CreatePatch.cpp:155-160 | buckets[c] ends as the number of bytes below c, for all 256 values |
| Qsufsort.FillSlots | slikenet.mod/slikenet/DependentExtensions/Autopatcher/CreatePatch.cpp:162-163 | every suffix is written to its slot and buckets[c] ends at the last slot of c |
| Qsufsort.NameBuckets | slikenet.mod/slikenet/DependentExtensions/Autopatcher/CreatePatch.cpp:164-165 | V is the last slot of each suffix's bucket, 0 for the empty suffix |
| Qsufsort.MarkLone | slikenet.mod/slikenet/DependentExtensions/Autopatcher/CreatePatch.cpp:166-167 | only single suffixes are marked -1, and the empty one is |
| Qsufsort.RankDrops | slikenet.mod/slikenet/DependentExtensions/Autopatcher/CreatePatch.cpp:169-184 | every pass lowers a non-negative measure, so the outer loop ends |
| Qsufsort.PassBoundKept | slikenet.mod/slikenet/DependentExtensions/Autopatcher/CreatePatch.cpp:169 | however many passes were made, some bytes of about two to that power occur twice |
| Qsufsort.OneRunSorted | slikenet.mod/slikenet/DependentExtensions/Autopatcher/CreatePatch.cpp:169 | when one run covers I, the groups are single suffixes in suffix order and V is the inverse |
| Qsufsort.Invert | slikenet.mod/slikenet/DependentExtensions/Autopatcher/CreatePatch.cpp:186 | inverting V into I restores the sorted list that the run lengths overwrote |
| Qsufsort.QSufSort | slikenet.mod/slikenet/DependentExtensions/Autopatcher/CreatePatch.cpp:150-187 | for every byte string, ends with I a permutation of 0..n listing all suffixes in strictly increasing order and V its inverse, after at most two passes, or p passes where some 2^(p-2) < n bytes occur twice |
| MatchSearch.Matchlen | slikenet.mod/slikenet/DependentExtensions/Autopatcher/CreatePatch.cpp:189-197 | the length of the longest common prefix |
| MatchSearch.ComparesLessIs | slikenet.mod/slikenet/DependentExtensions/Autopatcher/CreatePatch.cpp:218 | memcmp over the shorter length is below 0 if and only if at the first difference the first string is smaller |
| MatchSearch.Search | slikenet.mod/slikenet/DependentExtensions/Autopatcher/CreatePatch.cpp:199-223 | ends, reads in range, and finds what the recursive description Found says |
| MatchSearch.FoundEntry | slikenet.mod/slikenet/DependentExtensions/Autopatcher/CreatePatch.cpp:199-223 | on any array of positions, the length found is exactly the common prefix at the position found, which is an entry between st and en |
| MatchSearch.SearchEnds | slikenet.mod/slikenet/DependentExtensions/Autopatcher/CreatePatch.cpp:216-222 | the search comes down to two entries next to each other, the first below the query and the second not, as far as they are not the ends of the range |
| MatchSearch.FoundOfTwo | slikenet.mod/slikenet/DependentExtensions/Autopatcher/CreatePatch.cpp:203-214 | of these the first is taken if and only if its match is longer |
| MatchSearch.SearchFindsByte | slikenet.mod/slikenet/DependentExtensions/Autopatcher/CreatePatch.cpp:199-223 | on a sorted array the length found is positive if and only if the first byte of the query occurs in the old file |
| MatchSearch.SearchLongest | slikenet.mod/slikenet/DependentExtensions/Autopatcher/CreatePatch.cpp:199-223 | on a sorted array the length found is the longest match over all positions if and only if no probe on the search's path was cut off by the query in front of a longer match (line 218 compares no further than the shorter string) |
| MatchSearch.NeverMisled | slikenet.mod/slikenet/DependentExtensions/Autopatcher/CreatePatch.cpp:218 | that never happens when no suffix of the old file is a proper prefix of the query, so the match is then the longest |
| MatchSearch.MissedMatch | slikenet.mod/slikenet/DependentExtensions/Autopatcher/CreatePatch.cpp:218 | a concrete old file and query on which a shorter match than the longest is returned |
| OffT.OffTOut | slikenet.mod/slikenet/DependentExtensions/Autopatcher/CreatePatch.cpp:225-253 | the eight bytes written in place are the sign-and-magnitude encoding, everything else in the buffer unchanged |
| OffT.OffTIn | slikenet.mod/slikenet/DependentExtensions/Autopatcher/ApplyPatch.cpp:78-94 | the number read is the one the eight bytes stand for |
| OffT.DecodeIs | slikenet.mod/slikenet/DependentExtensions/Autopatcher/ApplyPatch.cpp:78-94 | that number is the sum of the bytes times powers of 256, the low byte first, with the sign in the top bit |
| OffT.DecodeEncode | slikenet.mod/slikenet/DependentExtensions/Autopatcher/CreatePatch.cpp:225-253 | offtin undoes offtout for every x with |x| < 2^63 |
| OffT.EncodeDecode | slikenet.mod/slikenet/DependentExtensions/Autopatcher/ApplyPatch.cpp:78-94 | offtout undoes offtin on an eight-byte buffer if and only if it is not the encoding of negative zero |
| Extend.ExtendForward | slikenet.mod/slikenet/DependentExtensions/Autopatcher/CreatePatch.cpp:382-387 | lenf is the smallest maximiser of 2*matches-i over the whole allowed range; all reads in range |
| Extend.ExtendBackward | slikenet.mod/slikenet/DependentExtensions/Autopatcher/CreatePatch.cpp:389-396 | lenb is the smallest maximiser of 2*matches-i over the whole allowed range; all reads in range |
| Extend.DivideOverlap | slikenet.mod/slikenet/DependentExtensions/Autopatcher/CreatePatch.cpp:398-407 | lens is the smallest point of the overlap that maximises front matches before it plus back matches behind it; all reads in range |
| ScanLoop.MatchesUsable | slikenet.mod/slikenet/DependentExtensions/Autopatcher/CreatePatch.cpp:365-366 | every match the search returns lies inside both files and is empty only where no byte of the old file can match |
| ScanLoop.WindowStep | slikenet.mod/slikenet/DependentExtensions/Autopatcher/CreatePatch.cpp:368-378 | the byte that leaves the window was counted in it, so oldscore never goes below 0, and the count stays exact for the next place |
| ScanLoop.NextMatch | slikenet.mod/slikenet/DependentExtensions/Autopatcher/CreatePatch.cpp:364-379 | at every test oldscore is exactly the number of places between scan and scsc where the previous alignment gives the new byte; all reads are in range; the loop ends at the first place that passes the test, or at the end |
| DiffTrace.ChosenTiles | slikenet.mod/slikenet/DependentExtensions/Autopatcher/CreatePatch.cpp:382-411 | after the overlap is divided, lenf and lenb are non-negative, lastscan+lenf <= scan-lenb, and both stretches lie inside the old file |
| DiffTrace.TraceJoined | slikenet.mod/slikenet/DependentExtensions/Autopatcher/CreatePatch.cpp:457-459 | every emission of a run starts where the one before it ended, in the new file and in the old |
| DiffTrace.Tiling | slikenet.mod/slikenet/DependentExtensions/Autopatcher/CreatePatch.cpp:359-461 | after any number of emissions the diff and extra bytes together are as many as the bytes of the new file covered, the old position is inside the old file, there are 24 control bytes per emission, and a finished run covers the new file |
| DiffTrace.FewEmissions | slikenet.mod/slikenet/DependentExtensions/Autopatcher/CreatePatch.cpp:364-381 | an emission before the end of the new file is made for a match of more than eight bytes, so there is at most one in nine bytes of it, and the last |
| Emissions.OldScoreIs | slikenet.mod/slikenet/DependentExtensions/Autopatcher/CreatePatch.cpp:363-377 | the old score is the number of bytes, from the place looked at to the furthest end of a match found so far, that the previous alignment gives |
| Emissions.NextEmissionIff | slikenet.mod/slikenet/DependentExtensions/Autopatcher/CreatePatch.cpp:361-381 | the next emission is at r if and only if the scan passes over nonempty matches equal to the old score, each time going on behind the match, and r is the first place behind the last of them with a match more than eight bytes longer than the old score, or the end; everywhere else the match neither beats the old score by more than eight nor equals it |
| Emissions.ForwardBest | slikenet.mod/slikenet/DependentExtensions/Autopatcher/CreatePatch.cpp:382-387 | the forward extension is the shortest that is best for twice the bytes that are the same less the bytes taken |
| Emissions.BackwardBest | slikenet.mod/slikenet/DependentExtensions/Autopatcher/CreatePatch.cpp:389-396 | so is the backward one, which is empty at the end of the new file |
| Emissions.CutBest | slikenet.mod/slikenet/DependentExtensions/Autopatcher/CreatePatch.cpp:398-411 | where they overlap, they are cut at the first place that leaves most bytes the same, with nothing between them |
| Emissions.NotCut | slikenet.mod/slikenet/DependentExtensions/Autopatcher/CreatePatch.cpp:398-411 | otherwise they stay as they are |
| Emissions.CursorIs | slikenet.mod/slikenet/DependentExtensions/Autopatcher/CreatePatch.cpp:457-459 | the scan goes on behind the match of the last emission, with its alignment |
| Emissions.EmissionOfTrace | slikenet.mod/slikenet/DependentExtensions/Autopatcher/CreatePatch.cpp:359-461 | every emission of every run is where NextEmissionIff says, at the match found there, with extensions and cut as above |
| DiffLoop.ChooseStep | slikenet.mod/slikenet/DependentExtensions/Autopatcher/CreatePatch.cpp:382-411 | the lengths computed are those of the optimal extensions and the optimal division of their overlap, and the emission tiles |
| DiffLoop.PutDiff | slikenet.mod/slikenet/DependentExtensions/Autopatcher/CreatePatch.cpp:413-414 | the differences modulo 256 are appended to db, in range |
| DiffLoop.PutExtra | slikenet.mod/slikenet/DependentExtensions/Autopatcher/CreatePatch.cpp:415-416 | the bytes between the two extensions are appended to eb, in range |
| DiffLoop.PutTriple | slikenet.mod/slikenet/DependentExtensions/Autopatcher/CreatePatch.cpp:421-455 | the three numbers are appended to the control block in their 64-bit encoding |
| DiffLoop.Emit | slikenet.mod/slikenet/DependentExtensions/Autopatcher/CreatePatch.cpp:382-455 | one emission: an optimal step, its diff and extra bytes in the buffers, its triple in the control block |
| DiffLoop.SkipsMatch | slikenet.mod/slikenet/DependentExtensions/Autopatcher/CreatePatch.cpp:381 | a stop that is passed over moves the scan on by a non-empty match without changing where the next emission will be |
| DiffLoop.AtEmission | slikenet.mod/slikenet/DependentExtensions/Autopatcher/CreatePatch.cpp:381 | a round that emits does so at the place that the independent description of the run gives |
| DiffLoop.Emitted | slikenet.mod/slikenet/DependentExtensions/Autopatcher/CreatePatch.cpp:457-459 | after an emission the loop variables again describe the run so far |
| DiffLoop.Round | slikenet.mod/slikenet/DependentExtensions/Autopatcher/CreatePatch.cpp:361-461 | one round of the main loop keeps the whole invariant and strictly advances scan+len unless it reaches the end |
| DiffLoop.EmitAll | slikenet.mod/slikenet/DependentExtensions/Autopatcher/CreatePatch.cpp:359-461 | the loop ends; the emissions form a complete run in which each step is the one the description allows, and db, eb and the control block hold exactly their data |
| Compressor.CodecsExist | slikenet.mod/slikenet/DependentExtensions/Autopatcher/MemoryCompressor.cpp:41-201 | the assumptions made about the codec can be met |
| Compressor.RoomIs | slikenet.mod/slikenet/DependentExtensions/Autopatcher/MemoryCompressor.cpp:49-112 | the first buffers have 5000 bytes or more, and full ones grow by the input, by doubling, or by four times the input |
| Compressor.MemoryCompressor.Compress | slikenet.mod/slikenet/DependentExtensions/Autopatcher/MemoryCompressor.cpp:41-114 | input accumulates until finish, which appends one compressed block to the output; the buffer grows by doubling, and whether its 32-bit size wraps around is recorded; calls that succeed only |
| Compressor.MemoryDecompressor.Decompress | slikenet.mod/slikenet/DependentExtensions/Autopatcher/MemoryCompressor.cpp:115-201 | the contents of a complete block are appended to the output and the buffer is widened in steps of four times the input, with a wrap-around of its 32-bit size recorded; a corrupt block is reported and clears the output |
| CreatePatch.StartHeader | slikenet.mod/slikenet/DependentExtensions/Autopatcher/CreatePatch.cpp:342-345 | magic, two zero lengths and the new size, in place |
| CreatePatch.SetLengths | slikenet.mod/slikenet/DependentExtensions/Autopatcher/CreatePatch.cpp:477-478 | the two lengths are overwritten in place and the rest of the header is kept |
| CreatePatch.Assemble | slikenet.mod/slikenet/DependentExtensions/Autopatcher/CreatePatch.cpp:470-548 | header and three compressed blocks, with the lengths of the first two blocks in the header, exactly when no 32-bit size wraps around |
| CreatePatch.CreatePatch | slikenet.mod/slikenet/DependentExtensions/Autopatcher/CreatePatch.cpp:258-548 | the patch is the file for the three streams of a complete run over the matches found in the sorted old file, exactly when no 32-bit size wraps around; allocation and compression succeed |
| ApplyPatch.AddDiff | slikenet.mod/slikenet/DependentExtensions/Autopatcher/ApplyPatch.cpp:231-237 | diff bytes are copied and the old bytes added in place, only where the old file has any |
| ApplyPatch.ReplayLoop | slikenet.mod/slikenet/DependentExtensions/Autopatcher/ApplyPatch.cpp:205-261 | with 32-bit offsets over data that fit in 32 bits, the loop ends, and its result is the replay function's: finished with its offsets, a failed sanity check, or an access outside the buffers |
| ApplyPatch.UnpackPatch | slikenet.mod/slikenet/DependentExtensions/Autopatcher/ApplyPatch.cpp:147-194 | magic, lengths and three blocks as the header divides them, decompressed one after the other, with each rejection the code makes of a corrupt block or a bad header; complete blocks only |
| ApplyPatch.SizeNeverRejects | slikenet.mod/slikenet/DependentExtensions/Autopatcher/ApplyPatch.cpp:154-157 | two patches that differ only in the size of the new file are unpacked alike: a negative size is never rejected |
| ApplyPatch.LargestNeverPatched | slikenet.mod/slikenet/DependentExtensions/Autopatcher/ApplyPatch.cpp:202-205 | a size of 2^32-1 allocates an empty array, so such a patch never succeeds |
| ApplyPatch.ApplyPatch | slikenet.mod/slikenet/DependentExtensions/Autopatcher/ApplyPatch.cpp:99-261 | the outcome for every old file and every patch whose blocks are complete or corrupt is that of the pure description Apply; inputs that leave the buffers or outgrow 32 bits are only named as such |
| ApplyLaws.CorruptIff | slikenet.mod/slikenet/DependentExtensions/Autopatcher/ApplyPatch.cpp:147-261 | for every old file and every patch, the call returns false if and only if the first eight bytes are not BSDIFF40, or a length is negative, or one of the blocks is corrupt, or all this is well and a triple goes past the size of the new file |
| ApplyLaws.PatchedIff | slikenet.mod/slikenet/DependentExtensions/Autopatcher/ApplyPatch.cpp:99-261 | it gives a new file if and only if all this is well and the triples, done one after the other, end at its size; and that file consists, triple by triple, of diff bytes with the old bytes added modulo 256, where there are any, and of extra bytes |
| ApplyLaws.PatchedHasNoFault | slikenet.mod/slikenet/DependentExtensions/Autopatcher/ApplyPatch.cpp:147-261 | so a new file comes only of a patch with none of these faults, and has the size in the header |
| RoundTrip.AddDiffBytes | slikenet.mod/slikenet/DependentExtensions/Autopatcher/ApplyPatch.cpp:234-237 | replaying the differences of a step over the old file gives the new file's bytes |
| RoundTrip.ReadControl | slikenet.mod/slikenet/DependentExtensions/Autopatcher/ApplyPatch.cpp:208-217 | the three numbers of a triple are read back wherever it stands in the buffer |
| RoundTrip.ReplayStep | slikenet.mod/slikenet/DependentExtensions/Autopatcher/ApplyPatch.cpp:206-261 | one round of the replay undoes one emission: it reads that emission's triple, diff and extra bytes and takes no early exit |
| RoundTrip.ReplayTo | slikenet.mod/slikenet/DependentExtensions/Autopatcher/ApplyPatch.cpp:206-261 | the replay passes through every prefix of the emissions, with its offsets and its output at the corresponding places |
| RoundTrip.ReplayAll | slikenet.mod/slikenet/DependentExtensions/Autopatcher/ApplyPatch.cpp:205-261 | the replay of a complete run rebuilds the new file, if the array for it does not wrap around to no bytes, and leaves the three offsets exactly at the ends of the control, diff and extra data |
| RoundTrip.UnpackFile | slikenet.mod/slikenet/DependentExtensions/Autopatcher/ApplyPatch.cpp:147-194 | given a lossless codec, the lengths that create writes make apply cut the body into the same three blocks, exactly when the size of the buffer for the data does not wrap around; any new size, negative ones too, is read modulo 2^32 |
| RoundTrip.FileLayout | slikenet.mod/slikenet/DependentExtensions/Autopatcher/CreatePatch.cpp:342-345 | the bytes of a patch: the signature, the lengths of two blocks and the size of the new file, and the blocks |
| RoundTrip.AppliedFile | slikenet.mod/slikenet/DependentExtensions/Autopatcher/ApplyPatch.cpp:99-261 | applying the patch of a complete run yields the new file exactly when the size of the buffer for the data does not wrap around |
| RoundTrip.FitsIs | slikenet.mod/slikenet/DependentExtensions/Autopatcher/MemoryCompressor.cpp:41-201 | what has to stay below 2^32: the buffers of both classes after each block, and the patch |
| RoundTrip.FitsOnly | slikenet.mod/slikenet/DependentExtensions/Autopatcher/ApplyPatch.cpp:115-192 | the sizes do not wrap around only if 24 bytes for each emission and the new file together are below 2^32 |
| RoundTrip.SmallFits | slikenet.mod/slikenet/DependentExtensions/Autopatcher/MemoryCompressor.cpp:41-201 | with a bounded codec they do not wrap around for any new file of n bytes with 33n+20000 < 2^32, so up to 130 million bytes |
| RoundTrip.CreateAndApply | slikenet.mod/slikenet/DependentExtensions/PatchTest/main.cpp:16-42 | creating a patch and applying it to the old file gives the new file, for every lossless codec and all files below 4 GiB, exactly when no 32-bit size wraps around on the way; with a bounded codec therefore for every new file of n bytes with 33n+20000 < 2^32 |
| VoiceRings.WrapIsMod | slikenet.mod/slikenet/DependentExtensions/RakVoice.cpp:890 | the wrap-around of an index is the remainder modulo the ring size |
| VoiceRings.IncomingPlaced | slikenet.mod/slikenet/DependentExtensions/RakVoice.cpp:866-907 | over every run both indices of the incoming ring stay inside it and the read index stays a multiple of the user block |
| VoiceRings.IncomingOccupancy | slikenet.mod/slikenet/DependentExtensions/RakVoice.cpp:513-558 | with codec blocks no larger than user blocks, over every run of packets and updates the bytes waiting are exactly enqueued - played - dropped + padded, and below the ring size |
| VoiceRings.IncomingFaithfulIff | slikenet.mod/slikenet/DependentExtensions/RakVoice.cpp:866-907 | the incoming ring counts its bytes correctly over all runs if and only if the codec block is no larger than the user block |
| VoiceRings.RestartsFull | slikenet.mod/slikenet/DependentExtensions/RakVoice.cpp:520-531 | a channel that has run dry plays nothing until more than two user blocks have arrived, however often Update runs |
| VoiceRings.PassLeaves | slikenet.mod/slikenet/DependentExtensions/RakVoice.cpp:400-459 | a send pass leaves the remainder of the waiting bytes by the codec block, so less than one block |
| VoiceRings.OutgoingOccupancy | slikenet.mod/slikenet/DependentExtensions/RakVoice.cpp:158-197 | with B <= S <= ring size, over every run of frames and passes the bytes waiting are exactly those taken, less those encoded and dropped, and below the ring size |
| VoiceRings.OutgoingFaithfulIff | slikenet.mod/slikenet/DependentExtensions/RakVoice.cpp:158-197 | the outgoing ring counts its bytes correctly over all runs if and only if B <= S <= ring size |
| VoiceSequence.NeverConceals | slikenet.mod/slikenet/DependentExtensions/RakVoice.cpp:818-826 | at the three sample rates the concealment loop never runs |
| VoiceSequence.TrueDifference | slikenet.mod/slikenet/DependentExtensions/RakVoice.cpp:804-813 | the 16-bit difference tells messages at most 32767 ahead from those at most 32768 behind, and the counters advance alike |
| VoiceSequence.FilterExact | slikenet.mod/slikenet/DependentExtensions/RakVoice.cpp:802-828 | over every run of arrivals within those distances, exactly the messages not behind the expected one are accepted, so their places among the messages sent strictly increase |
| VoiceSequence.TellsIff | slikenet.mod/slikenet/DependentExtensions/RakVoice.cpp:804-813 | arrivals up to given distances are told apart correctly if and only if the distances are at most 32767 and 32768 |
| VoiceQueue.StoredReadsBackIff | slikenet.mod/slikenet/DependentExtensions/RakVoice.cpp:881-889 | a block stored in the incoming ring is what is read back from there, for every block, if and only if it did not have to wrap around |
| VoiceQueue.StoreIs | slikenet.mod/slikenet/DependentExtensions/RakVoice.cpp:881-889 | byte by byte, what the ring holds after a block is stored; where it wraps around, both copies begin at the first byte of the block |
| VoiceQueue.StoreAppends | slikenet.mod/slikenet/DependentExtensions/RakVoice.cpp:881-890 | storing a block where the queue ends appends it and disturbs no block that is waiting |
| VoiceQueue.HoldsTests | slikenet.mod/slikenet/DependentExtensions/RakVoice.cpp:515-524 | the byte comparisons the code makes are comparisons of the number of blocks in the queue |
| VoiceQueue.ArriveHolds | slikenet.mod/slikenet/DependentExtensions/RakVoice.cpp:866-907 | with equal block sizes a write appends to the queue, and on a full ring drops its oldest block |
| VoiceQueue.PlayHolds | slikenet.mod/slikenet/DependentExtensions/RakVoice.cpp:533-558 | with equal block sizes playing gives the oldest block and removes it |
| VoiceQueue.GivesOldest | slikenet.mod/slikenet/DependentExtensions/RakVoice.cpp:513-558 | with equal block sizes a channel adds to the output at most one block between two zeroings, its oldest unplayed one, and none while it is filling up again |
| VoiceQueue.FirstInFirstOut | slikenet.mod/slikenet/DependentExtensions/RakVoice.cpp:513-558 | with equal block sizes, over every run the ring holds exactly the blocks let in and neither played nor dropped; blocks are played unchanged and in the order they came in; if none was dropped, none is skipped |
| VoiceQueue.PlayedInSendingOrder | slikenet.mod/slikenet/DependentExtensions/RakVoice.cpp:802-861 | with equal block sizes, over every run with close arrivals, the blocks played are in the order of sending and none is played twice |
| VoiceChannels.VoiceChannel.constructor | slikenet.mod/slikenet/DependentExtensions/RakVoice.cpp:626-675 | a new channel has empty rings, is buffering, and counts from 0 in both directions |
| VoiceChannels.FrameIsOldestIff | slikenet.mod/slikenet/DependentExtensions/RakVoice.cpp:412-423 | the encoder is given the oldest bytes of the ring, for every content, if and only if the frame ends before the end of the ring or starts at its start |
| VoiceChannels.ReceivedIsStep | slikenet.mod/slikenet/DependentExtensions/RakVoice.cpp:802-861 | what the class does with a message is the step of those runs for that message, at the three sample rates and equal block sizes |
| VoiceReach.BlocksRightIff | slikenet.mod/slikenet/DependentExtensions/RakVoice.cpp:866-907 | with codec blocks no larger than user blocks: over every run, every block stored in the incoming ring is what is read back from there if and only if a user block is a whole number of codec blocks |
| VoiceReach.FramesRightIff | slikenet.mod/slikenet/DependentExtensions/RakVoice.cpp:400-423 | with sizes for which the outgoing ring counts its bytes correctly: over every run, every pass begins with the oldest bytes if and only if a codec block is as large as the ring, and then nothing is ever encoded |
| VoiceReach.HundredthFrame | slikenet.mod/slikenet/DependentExtensions/RakVoice.cpp:412-423 | with equal block sizes and one pass after every frame, the first 99 frames are encoded from the right bytes and the hundredth is not |
| VoiceBytes.PlayBears | slikenet.mod/slikenet/DependentExtensions/RakVoice.cpp:533-558 | what a channel gives are the bytes that wait longest: a user block of them, or all if there are less |
| VoiceBytes.RunIsStream | slikenet.mod/slikenet/DependentExtensions/RakVoice.cpp:513-558 | where a user block is a whole number of codec blocks, over every run the incoming ring is a queue of bytes: a full one drops a user block, a channel that has run dry waits for more than two user blocks, and each turn gives the bytes that wait longest, at most once between two calls that take the output |
| VoiceBytes.GivenInOrder | slikenet.mod/slikenet/DependentExtensions/RakVoice.cpp:513-558 | the blocks given are pieces of the bytes that arrived, in their order, and none twice |
| VoiceBytes.NoneLeftOut | slikenet.mod/slikenet/DependentExtensions/RakVoice.cpp:513-558 | and if they are as many bytes as are gone, they leave none out |
| VoiceBytes.TurnIsStep | slikenet.mod/slikenet/DependentExtensions/RakVoice.cpp:513-562 | what Update does with a channel is the step of these runs |
| VoiceSending.SentAsHanded | slikenet.mod/slikenet/DependentExtensions/RakVoice.cpp:144-203 | from SendFrame to the packets of Update, over every run with sizes for which the ring counts correctly: the packets are numbered from 0 modulo 65536, and each whose codec block does not reach the end of the ring carries exactly those bytes of what was handed over; which blocks are encoded, dropped or silent is told by a log of the calls alone |
| VoiceSending.SentInOrder | slikenet.mod/slikenet/DependentExtensions/RakVoice.cpp:400-503 | they are sent in the order of handing over, and none twice |
| VoiceSending.AllHeard | slikenet.mod/slikenet/DependentExtensions/RakVoice.cpp:425-441 | without voice detection every block that is encoded is sent |
| VoiceSending.SendIsStep | slikenet.mod/slikenet/DependentExtensions/RakVoice.cpp:144-203 | what SendFrame does to its channel is the step of these runs |
| VoiceSending.UpdateIsStep | slikenet.mod/slikenet/DependentExtensions/RakVoice.cpp:358-508 | so is what Update does; within 50 ms of the last time it sends nothing |
| VoiceMix.Clamp | slikenet.mod/slikenet/DependentExtensions/RakVoice.cpp:222-227 | the nearest 16-bit sample |
| VoiceMix.SampleIs | slikenet.mod/slikenet/DependentExtensions/RakVoice.cpp:547-552 | a sample is two bytes, the low one first, with a sign |
| VoiceMix.SampleAtIs | slikenet.mod/slikenet/DependentExtensions/RakVoice.cpp:547-552 | the j-th sample of a block is at byte 2j |
| VoiceMix.SumUpdated | slikenet.mod/slikenet/DependentExtensions/RakVoice.cpp:547-552 | the output changes by exactly the block that a channel adds |
| RakVoice.RakVoice.constructor | slikenet.mod/slikenet/DependentExtensions/RakVoice.cpp:64-77 | the output starts at zero with no channel open |
| RakVoice.CopyToRing | slikenet.mod/slikenet/DependentExtensions/RakVoice.cpp:881-889 | both memcpy branches, in range |
| RakVoice.RakVoice.WriteOutputToChannel | slikenet.mod/slikenet/DependentExtensions/RakVoice.cpp:866-907 | ring, indices and forced drop for every codec block that fits in the ring |
| RakVoice.RakVoice.OnChannelData | slikenet.mod/slikenet/DependentExtensions/RakVoice.cpp:802-861 | an old packet changes nothing; any other one is stored behind the blocks that conceal missing ones, and the next number is expected |
| RakVoice.RakVoice.OnVoiceData | slikenet.mod/slikenet/DependentExtensions/RakVoice.cpp:785-865 | only the sender's channel changes |
| RakVoice.RakVoice.SendTo | slikenet.mod/slikenet/DependentExtensions/RakVoice.cpp:158-197 | the user's block is stored, the indices advance, and a full ring drops one codec block |
| RakVoice.RakVoice.SendFrame | slikenet.mod/slikenet/DependentExtensions/RakVoice.cpp:144-203 | reports whether the recipient has a channel; only that channel changes |
| RakVoice.RakVoice.SendPass | slikenet.mod/slikenet/DependentExtensions/RakVoice.cpp:358-508 | a throttled channel sends nothing; otherwise every full frame leaves the ring, those with speech become packets numbered in order of sending modulo 65536, and the sending flag says whether there were any |
| RakVoice.RakVoice.EncodeFrames | slikenet.mod/slikenet/DependentExtensions/RakVoice.cpp:407-503 | the encoding loop |
| RakVoice.RakVoice.AddSamples | slikenet.mod/slikenet/DependentExtensions/RakVoice.cpp:546-552 | each 16-bit sample of the block is added at its place in the output, reads in range |
| RakVoice.RakVoice.PlayBlock | slikenet.mod/slikenet/DependentExtensions/RakVoice.cpp:524-558 | one block, or what there is of it, is added to the output, and the indices and flags move on |
| RakVoice.RakVoice.PlayTurn | slikenet.mod/slikenet/DependentExtensions/RakVoice.cpp:513-562 | the output stays the sum of what the channels have given since it was zeroed, and a channel that has given its block gives no other |
| RakVoice.RakVoice.ZeroOutput | slikenet.mod/slikenet/DependentExtensions/RakVoice.cpp:344-351 | the output is zero, nothing counts as given, every channel may play again |
| RakVoice.RakVoice.Update | slikenet.mod/slikenet/DependentExtensions/RakVoice.cpp:325-564 | every channel has had its send pass and its turn; what each gave is its next block, or nothing, or what it had given; and the output is the sum |
| RakVoice.TurnIsStep | slikenet.mod/slikenet/DependentExtensions/RakVoice.cpp:513-562 | what Update does with a channel is the step of the queue runs, and what the channel gives is the block they play, for equal block sizes |
| RakVoice.RakVoice.ReceiveFrame | slikenet.mod/slikenet/DependentExtensions/RakVoice.cpp:215-232 | the user gets the sum of what the channels gave, clamped to 16 bits, and the next Update starts a new block |
| RakVoice.RakVoice.GetBufferedBytesToSend | slikenet.mod/slikenet/DependentExtensions/RakVoice.cpp:255-287 | the bytes waiting on one outgoing ring, or on all |
| RakVoice.RakVoice.GetBufferedBytesToReturn | slikenet.mod/slikenet/DependentExtensions/RakVoice.cpp:288-319 | the bytes waiting on one incoming ring, or on all |
| RakVoice.RakVoice.OpenChannel | slikenet.mod/slikenet/DependentExtensions/RakVoice.cpp:626-688 | a fresh channel is added and no other changes; the frame size that the sample rate decides is given |
| TransformationHistory.WriteOrderIff | slikenet.mod/slikenet/DependentExtensions/Ogre3DInterpDemo/TransformationHistory.cpp:39-55 | Write keeps the cells in strictly increasing order, and within the limit, if and only if it does not put an earlier time behind a cell that stays |
| TransformationHistory.OverwriteOrder | slikenet.mod/slikenet/DependentExtensions/Ogre3DInterpDemo/TransformationHistory.cpp:56-89 | Overwrite always keeps the order and the limit |
| TransformationHistory.WriteStores | slikenet.mod/slikenet/DependentExtensions/Ogre3DInterpDemo/TransformationHistory.cpp:39-55 | after a Write the last cell is exactly the given one if the interval has passed or there was none, and otherwise nothing changes |
| TransformationHistory.OverwriteStores | slikenet.mod/slikenet/DependentExtensions/Ogre3DInterpDemo/TransformationHistory.cpp:56-89 | after an Overwrite the latest cell not after the time is exactly the given one, or that is added last when it is an interval later; no other cell changes, and none if all are later |
| TransformationHistory.OverwriteFinds | slikenet.mod/slikenet/DependentExtensions/Ogre3DInterpDemo/TransformationHistory.cpp:56-89 | in an ordered history the cell given to Overwrite is there afterwards, and is the last if and only if none was later |
| TransformationHistory.OverwriteSpacedIff | slikenet.mod/slikenet/DependentExtensions/Ogre3DInterpDemo/TransformationHistory.cpp:65-86 | Overwrite keeps neighbours a write interval apart if and only if the cell it moves stays that far from the next |
| TransformationHistory.WriteSpacedIff | slikenet.mod/slikenet/DependentExtensions/Ogre3DInterpDemo/TransformationHistory.cpp:39-55 | Write keeps neighbours a write interval apart if and only if it meets the guard of WriteOrderIff |
| TransformationHistory.RunSpacedIff | slikenet.mod/slikenet/DependentExtensions/Ogre3DInterpDemo/TransformationHistory.cpp:32-89 | over every run, neighbours are a write interval apart throughout if and only if every Write and every Overwrite meets its guard |
| TransformationHistory.RunOrderIff | slikenet.mod/slikenet/DependentExtensions/Ogre3DInterpDemo/TransformationHistory.cpp:32-89 | over every run, the cells are in order throughout if and only if every Write meets the guard of WriteOrderIff |
| TransformationHistory.RunOrdered | slikenet.mod/slikenet/DependentExtensions/Ogre3DInterpDemo/TransformationHistory.cpp:32-89 | over every run that writes nothing before the newest cell, with overwrites anywhere, times strictly increase and the size is within the limit |
| TransformationHistory.WriteBehindOverwrite | slikenet.mod/slikenet/DependentExtensions/Ogre3DInterpDemo/TransformationHistory.cpp:48-50 | a concrete run whose Write times increase and whose cells end out of order, because Overwrite had put a cell ahead |
| TransformationHistory.EvictsIff | slikenet.mod/slikenet/DependentExtensions/Ogre3DInterpDemo/TransformationHistory.cpp:50-52 | pushing onto a full history loses exactly the oldest cell; no other operation loses one or changes a cell other than the one overwritten |
| TransformationHistory.LastingIff | slikenet.mod/slikenet/DependentExtensions/Ogre3DInterpDemo/TransformationHistory.cpp:32-89 | however a history goes on at its newest end until the clock ends, it loses only cells older than the history time if and only if each cell is early enough for its place, or cannot be lost before the clock ends |
| TransformationHistory.SpacedLasting | slikenet.mod/slikenet/DependentExtensions/Ogre3DInterpDemo/TransformationHistory.cpp:48-52 | cells a write interval apart are early enough |
| TransformationHistory.OverwriteRetentionIff | slikenet.mod/slikenet/DependentExtensions/Ogre3DInterpDemo/TransformationHistory.cpp:65-86 | after an Overwrite, whatever follows at the newest end, only cells older than the history time are lost, if and only if the time written is early enough for the place of the cell it moves: a guard the caller can check |
| TransformationHistory.GuardedRetention | slikenet.mod/slikenet/DependentExtensions/Ogre3DInterpDemo/TransformationHistory.cpp:32-89 | over every run whose overwrites of older cells meet that guard, a cell that is lost is older than the newest by more than the history time, unless the limit wraps around |
| TransformationHistory.RetainsIff | slikenet.mod/slikenet/DependentExtensions/Ogre3DInterpDemo/TransformationHistory.cpp:32-89 | that holds of every such run if and only if the limit on the number of cells does not wrap around to 0 |
| TransformationHistory.LimitOfNoneKeepsOne | slikenet.mod/slikenet/DependentExtensions/Ogre3DInterpDemo/TransformationHistory.cpp:39-89 | with the limit at 0, every run leaves at most one cell |
| TransformationHistory.LongEnoughIff | slikenet.mod/slikenet/DependentExtensions/Ogre3DInterpDemo/TransformationHistory.cpp:35 | the limit times the write interval exceeds the history time if and only if it does not wrap around, which it does only for interval 1 and history time 2^32-1 |
| TransformationHistory.Retention | slikenet.mod/slikenet/DependentExtensions/Ogre3DInterpDemo/TransformationHistory.cpp:32-89 | in particular over every run in which only the newest cell is overwritten |
| TransformationHistory.OverwriteShortensHistory | slikenet.mod/slikenet/DependentExtensions/Ogre3DInterpDemo/TransformationHistory.cpp:65-86 | a concrete run that overwrites an older cell and then loses a cell younger than the history time |
| TransformationHistory.OutcomeIff | slikenet.mod/slikenet/DependentExtensions/Ogre3DInterpDemo/TransformationHistory.cpp:90-146 | READ_OLDEST if and only if there are cells and all are later than the time asked for; VALUES_UNCHANGED if and only if there is no cell, or the newest is neither later than that time nor earlier than the present |
| TransformationHistory.ReadsPiecewiseLinear | slikenet.mod/slikenet/DependentExtensions/Ogre3DInterpDemo/TransformationHistory.cpp:103-133 | what is read is the piecewise-linear function through the stored values and the present one |
| TransformationHistory.MeanIs | slikenet.mod/slikenet/DependentExtensions/Ogre3DInterpDemo/TransformationHistory.cpp:110-128 | the weighted mean that this function is made of, without division |
| TransformationHistory.ReadsBetween | slikenet.mod/slikenet/DependentExtensions/Ogre3DInterpDemo/TransformationHistory.cpp:103-133 | for times up to the present, what is read lies between the values on both sides |
| TransformationHistory.ReadsStored | slikenet.mod/slikenet/DependentExtensions/Ogre3DInterpDemo/TransformationHistory.cpp:103-133 | at the time of a stored value that value is read; for the newest, when the present is later |
| TransformationHistory.HistoryKnots | slikenet.mod/slikenet/DependentExtensions/Ogre3DInterpDemo/TransformationHistory.cpp:100-135 | the cell that the reverse scan finds is the latest one not after the time asked for |
| TransformationHistory.ReadOfHistory | slikenet.mod/slikenet/DependentExtensions/Ogre3DInterpDemo/TransformationHistory.cpp:90-146 | for every ordered history, a position and a velocity that are wanted are, when Read interpolates, the piecewise-linear functions through the cells and the present values, and for times up to the present lie between their neighbours |
| TransformationHistory.ReadOfStored | slikenet.mod/slikenet/DependentExtensions/Ogre3DInterpDemo/TransformationHistory.cpp:103-133 | for every ordered history, at the time of a cell the values that are wanted are that cell's; for the newest, when the present is later |
| TransformationHistory.LinearThroughStored | slikenet.mod/slikenet/DependentExtensions/Ogre3DInterpDemo/TransformationHistory.cpp:103-133 | the piecewise-linear function goes through the stored values |
| TransformationHistory.OverwriteAndRead | slikenet.mod/slikenet/DependentExtensions/Ogre3DInterpDemo/TransformationHistory.cpp:56-146 | after Overwrite of an ordered history, Read at that time gives the position and velocity that were given, if something later is known and not all cells are later |
| TransformationHistory.TransformationHistory.constructor | slikenet.mod/slikenet/DependentExtensions/Ogre3DInterpDemo/TransformationHistory.cpp:32-38 | the limit that the two times give, in 32 bits |
| TransformationHistory.TransformationHistory.Write | slikenet.mod/slikenet/DependentExtensions/Ogre3DInterpDemo/TransformationHistory.cpp:39-55 | the history becomes what the pure description of Write says |
| TransformationHistory.TransformationHistory.Overwrite | slikenet.mod/slikenet/DependentExtensions/Ogre3DInterpDemo/TransformationHistory.cpp:56-89 | the reverse scan changes the history as the pure description says |
| TransformationHistory.TransformationHistory.Read | slikenet.mod/slikenet/DependentExtensions/Ogre3DInterpDemo/TransformationHistory.cpp:90-146 | for every history divisors are never 0; READ_OLDEST if and only if there are cells and all are later, with exactly the oldest values; VALUES_UNCHANGED if and only if there is no cell or nothing later is known, with the arguments; otherwise, for an ordered history, the piecewise-linear functions; a value not wanted stays so |

## Left out

- bzip2: a codec is any pair of functions on whole blocks. It is lossless, and where so stated its output is never empty and at most twice the input plus 600 bytes. It is taken to fill the buffer it is given before it asks for more.
- The file-based programs around the patch code: the same algorithm with file input and output.
- Allocation failures and their early returns; file sizes from 4 GiB on, and 64-bit offsets overflowing.
- Compressor.MemoryCompressor.Compress: never fails. What happens after a size has wrapped around is not described.
- Compressor.MemoryDecompressor.Decompress: a truncated block, which the source accepts and continues with the next one, and data behind the end of a block.
- CreatePatch.CreatePatch: the early returns on failed allocation or compression.
- ApplyPatch.Apply: patches that make the source read or write outside its buffers, or decompress data from an empty block for ever, have the outcome `Undefined`; nothing more is said about them. Nor are header lengths of 2^32 and more cut to 32 bits, or 64-bit positions wrapped.
- MatchSearch.Search: the byte comparison of the C library is modelled by a predicate on the two strings.
- Qsufsort.QSufSort: states an upper bound on the number of passes, not the exact number.
- The speech codec: encoded frames, decoded blocks and the encoder's answer to whether a frame holds speech are parameters. Encoder settings, loopback mode and packet transport are not part of this model.
- RakVoice.RakVoice.WriteOutputToChannel: requires a codec block to fit in the ring; beyond that the source copies past its end.
- RakVoice.RakVoice.Update: delivery to itself in loopback mode.
- RakVoice.RakVoice.OpenChannel: adds a channel at the end of the list and takes the codec's frame size as a parameter; the sample-rate test, the ordered list kept by user id, the open and close messages and the removal of channels are left out.
- RakVoice.RakVoice.ReceiveFrame: samples are whole numbers rather than floats.
- VoiceQueue.FirstInFirstOut: for equal block sizes only; `VoiceBytes.RunIsStream` is for all sizes for which no block is stored across the end of the ring over every run.
- VoiceSending.SentAsHanded: does not say what the packets carry whose codec blocks reach the end of the ring; `VoiceChannels.FrameIsOldestIff` says that it is not the right bytes.
- Orientations in the transformation history: they are interpolated on the sphere by a function that is not part of this model. Positions and velocities are reals, without rounding.
- TransformationHistory.LastingIff: runs that go on after the 32-bit clock has wrapped around.
- TransformationHistory.RetainsIff: the memory that the queue reserves for the limit.
- The queue class under the history is a sequence; its ring buffer is not part of this model.
- The lobby, database, autopatcher client and server code, the state machine classes and the demos: mostly dispatch to code outside these files.
