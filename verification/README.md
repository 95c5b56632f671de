# Verified models of four engine components

Dafny models of four parts of the OpenXTalk engine that keep complicated state
and do all their work in place, and proofs of what each of them is for.

- **Binary diff and patch.** `qsufsort` and `split` (a suffix array by prefix
  doubling, over two arrays that hold order, group numbers and run lengths at
  once), `search`, the scan and extension rules of `bsdiffmain`, the patch
  stream, and the replay in `bspatchmain`. Main results: the suffix array is
  the sorted one, `search` finds a longest match under an exact condition, the
  extensions are optimal, no match worth a stop is passed over, one patch only
  meets what is promised of a build, and a patch applied to old gives new.
- **Streaming blur of the alpha plane.** `MCBitmapEffectBoxBlur` (one to many
  passes over summed-area tables filled on demand, by recursion through one
  scratch row) and `MCBitmapEffectFastGaussianBlur` (a ring of intermediate
  rows). Main results: every row is the blur by its mathematical definition.
- **Capsule sections.** `MCCapsuleProcess` and its helpers, fed in pieces, with
  a buffered and a direct path, and the writer `MCDeployCapsuleGenerate`. Main
  results: any cutting into pieces delivers what reading the whole at once
  delivers, digests included, each section as soon as it can be had; and that is,
  for a written capsule, the sections that were written.
- **Pickled bitmap effects.** Writer and reader, through the 16 KB object
  streams. Main results: round trip past data added by later versions, and an
  exact account of what reading any stream takes.

One module models one source function or a small group of them; the `Suffix*`,
`MatchSearch`, `Diff*` and `Patch*` modules are the diff, `PlaneSums`, `Box*`
and `GaussianBlur` the blurs, `Capsule*` the capsule, and `ObjectStream` and
`Effect*` the effects. `Common` holds what all of them use. Methods update
arrays and fields where the source does; each is proved against a function or
predicate on values, and the lemmas are about those. In the diff, `base` is the
old file and `target` the new one.

Integers are unbounded. Widths are written out where they matter: bytes,
`int32_t` values of the patch stream, the 32-bit sums and products of the
blurs, the 16-bit size of an effects record, the 32-bit rounding of a capsule
section.

## Where the code falls short of its purpose

The model does what the code does in each of these cases, and the members
named say when that is what the code is for and when it is not.

- `search` compares no more bytes than the shorter string has
  (`engine/src/bsdiff_build.cpp:189`), so it can turn away from the longest
  match: `MatchSearch.SearchLongestIff`, `MatchSearch.SearchCanMiss`.
- The control size in a patch header is an `int32_t`; were a control block to
  reach 2 GB, the patch would be unreadable: `DiffRoundTrip.BuiltPatchAppliesIff`,
  `DiffRoundTrip.ControlTooLong`. Up to 1610612729 new bytes none does:
  `DiffRoundTrip.ControlFits`.
- A patch whose extra length does not fit is not refused
  (`engine/src/bsdiff_apply.cpp:143-153`). `DiffApply.RefusedIff` says when a
  patch is refused; `DiffApply.OverlongExtraAccepted` shows one accepted, and
  `DiffApply.OverlongTripleUnnoticed` makes one of any patch.
- The tests before the two copies add in `int32_t`. Beyond 2^31 they pass, and
  the copy leaves its arrays: `DiffApply.PassesIff`, `DiffApply.OverflowUndefined`.
- The last step of the box blur stores 256 in a byte when the enlarged average
  is exactly 256 (`engine/src/bitmapeffectblur.cpp:851-852`), a zero in the
  middle of a full mask: `BoxScale.ScaleIff`, `BoxBlur.BoxBlur.OutputHole`. An
  even alpha of 128 under a spread of 512 is such a case.
- Its limit (`engine/src/bitmapeffectblur.cpp:835`) overflows from an area of
  65536 on, and then full bytes are stored where the average is smaller:
  `BoxScale.AccurateIff`. Two passes or more never get there, one pass does from
  radius 128 on: `BoxGeometry.Geometry.LastAreaIff`, `BoxBlur.BoxBlur.OutputIff`.
- The comment at `engine/src/bitmapeffectblur.cpp:829-830` says that a spread of 0
  makes the whole mask 0xff. By the code that holds only where the sum is not
  zero: `BoxScale.ScaleNoSpread`, `BoxBlur.BoxBlur.OutputNoSpread`.
- The table of a box pass has one row more than its region
  (`engine/src/bitmapeffectblur.cpp:647-648`), so although rows are numbered
  modulo its height it never wraps over a row in use.
- A capsule section whose length cannot be rounded up in 32 bits is taken to be
  its header alone when the callback reads nothing of it: `Capsule.PaddedFitsIff`,
  `Capsule.ReadInPieces`, `Capsule.HeaderAloneAccepted`.
- A callback that asks for more than its section has may be given bytes behind
  it (`engine/src/capsule.cpp:569-580`): `Capsule.ShareIs`.
- The first row of the Gaussian blur is addressed with an unsigned product of
  stride and row (`engine/src/bitmapeffectblur.cpp:357-388`). With 64-bit pointers
  that is wrong when the product is negative: `GaussianBlur.FastGaussianBlur.constructor`,
  `GaussianBlur.AboveNotAddressed`.
- A digest section at the very start of a capsule would fail its check: it holds
  the digest of nothing, and is compared with zeros: `CapsuleWrite.DigestsAgreeIff`.
- A pickled size smaller than the fields makes the reader skip 65536 bytes too
  many: `EffectFormat.UnpickledIff`.
- `qsufsort` does not mark a lone byte 0 as placed
  (`engine/src/bsdiff_build.cpp:137`); the first pass does it, and the sort is
  right all the same: `SuffixArray.SortByFirstByte`, `SuffixArray.QSufSort`.

## Main results

- `SuffixArray.QSufSort`, `SuffixSort.Split`: the suffix sort.
- `MatchSearch.SearchLongestIff`, `MatchSearch.SearchLongest`: the match search.
- `DiffScan.NextMatch`, `DiffExtend.ExtendForward`, `DiffExtend.ExtendBackward`,
  `DiffExtend.DivideOverlap`, `DiffBuild.Build`, `DiffBuild.BuildUnique`: the scan
  and its choices, and that they leave one patch only.
- `DiffRoundTrip.BuiltPatchAppliesIff`, `DiffRoundTrip.BuildThenApply`,
  `DiffApply.RefusedIff`: build and apply, and when applying is refused.
- `BoxBlur.Blur`, `BoxBlur.BoxBlur.OutputIff`, `BoxScale.ScaleIff`: the box blur.
- `GaussianBlur.Blur`: the Gaussian blur.
- `Capsule.ReadInPieces`, `Capsule.Capsule.Process`, `Capsule.DigestOfPreceding`,
  `CapsuleWrite.WrittenReadsBack`: the capsule.
- `EffectFormat.RecordRoundTrip`, `EffectFormat.UnpickledIff`,
  `EffectPickle.PickleThenUnpickle`: the effects.

The table below goes through the parts in the same order, with what these rest on.

## Model

| member | source | states |
|---|---|---|
| SuffixArray.QSufSort | engine/src/bsdiff_build.cpp:122-158 | for every byte string `I` ends as all suffixes, the empty one included, in strictly increasing dictionary order, and `V` as its inverse; the doubling loop ends |
| SuffixArray.SuffixArrayUnique | engine/src/bsdiff_build.cpp:122-158 | dictionary order leaves one array only: two arrays that meet the specification are equal |
| SuffixArray.SortByFirstByte | engine/src/bsdiff_build.cpp:127-138 | the bucket sort sets up the doubling invariant for one byte: permutation, group intervals, group numbers, marks of lone buckets |
| SuffixArray.Pass | engine/src/bsdiff_build.cpp:141-154 | one pass over an array it rewrites as it reads: groups ordered by h bytes become groups ordered by 2h bytes; once all suffixes are placed the next pass writes -(oldsize+1) into `I[0]` |
| SuffixArray.PassEnd | engine/src/bsdiff_build.cpp:140-155 | the state after a full scan is the loop invariant for twice as many bytes |
| SuffixArray.LongStep | engine/src/bsdiff_build.cpp:140 | no two suffixes share more bytes than the text has, so a step beyond its length finds every suffix placed: the loop ends |
| SuffixArray.GroupSplittable | engine/src/bsdiff_build.cpp:146-150 | where the scan meets a non-negative entry, a whole group starts there, its last index is its group number, and `I[k]+h` stays inside `V` for all of it |
| SuffixArray.AfterSplit | engine/src/bsdiff_build.cpp:149-151 | after a group has been split the scan can go on behind it; runs and unread entries are untouched |
| SuffixArray.Sorted | engine/src/bsdiff_build.cpp:140 | when the loop exits, the order the run lengths have overwritten is the suffix array and `V` its inverse |
| SuffixArray.Invert | engine/src/bsdiff_build.cpp:157 | the last loop restores that order in `I` from `V` |
| SuffixGroups.KeyOrder | engine/src/bsdiff_build.cpp:65-89 | soundness of the keys: inside a group of h shared bytes, comparing group numbers h further on compares the suffixes, and equal numbers mean 2h shared bytes; the key is always in range |
| SuffixGroups.AssignKeepsOrdered | engine/src/bsdiff_build.cpp:78-116 | renumbering the least part of a group keeps all group numbers true of the suffixes |
| SuffixSplit.KeysDecide | engine/src/bsdiff_build.cpp:65-89 | the keys decide the order inside the group being split although some of them have been renumbered since the group was entered |
| SuffixSplit.AfterNumbering | engine/src/bsdiff_build.cpp:78-119 | when a least class has its number, what is left of the group can be split by the same step |
| SuffixSort.Split | engine/src/bsdiff_build.cpp:61-120 | `split` permutes its group only, leaves everything outside alone, and ends with groups of 2h shared bytes, marked when alone, and order-true numbers, with keys overwritten during the call |
| SuffixSort.Partition | engine/src/bsdiff_build.cpp:84-112 | the three-way partition puts smaller, equal and larger suffixes in their regions and moves nothing else |
| SuffixSort.KeysToThreeWay | engine/src/bsdiff_build.cpp:114-119 | the regions, read as keys, are true of the suffixes, which later renumbering cannot undo |
| SuffixPartition.PartitionLow | engine/src/bsdiff_build.cpp:92-103 | fills the first region by swaps; never runs past the region a key is sent to |
| SuffixPartition.PartitionMiddle | engine/src/bsdiff_build.cpp:105-112 | fills the middle region, after which the rest is above the pivot |
| SuffixSelect.SplitSmall | engine/src/bsdiff_build.cpp:65-82 | the selection sort for short groups meets the same specification as the partition |
| SuffixSelect.GatherLeast | engine/src/bsdiff_build.cpp:67-77 | gathers exactly the suffixes of least key at the front, keeping all others |
| SuffixBuckets.FillBuckets | engine/src/bsdiff_build.cpp:133-134 | counting sort puts every suffix in the slot its first byte and rank give it |
| SuffixBuckets.BucketsGrouped | engine/src/bsdiff_build.cpp:133-136 | filled and numbered buckets are a permutation in groups of one shared byte |
| MatchSearch.MatchLen | engine/src/bsdiff_build.cpp:160-168 | the length of the longest common prefix |
| MatchSearch.MatchIs | engine/src/bsdiff_build.cpp:160-168 | that length is common, and the next bytes differ |
| MatchSearch.Search | engine/src/bsdiff_build.cpp:170-194 | the position and the true match length there, as the halving over the array defines them |
| MatchSearch.Found | engine/src/bsdiff_build.cpp:170-194 | the result is a position listed between the bounds, and the length is the true match length there |
| MatchSearch.FoundHalf | engine/src/bsdiff_build.cpp:184-193 | every probe is the middle entry, the lower of two, and decides which half is searched on |
| MatchSearch.FoundTie | engine/src/bsdiff_build.cpp:174-183 | the search comes down to two neighbours, the lower before the new data and the upper not, and takes the better match: the upper one of two that are equally long |
| MatchSearch.SearchLongestIff | engine/src/bsdiff_build.cpp:170-194 | over a sorted array the result is a longest match exactly when no probed suffix is used up by the new data while old has a longer match elsewhere |
| MatchSearch.SearchLongest | engine/src/bsdiff_build.cpp:170-194 | if no non-empty suffix of old is a proper prefix of the new data, the result is a longest match over all old positions |
| MatchSearch.SearchCanMiss | engine/src/bsdiff_build.cpp:189 | the condition is needed: "aba" searched in "aba" finds one byte at 2 |
| MatchSearch.NoMatchNoByte | engine/src/bsdiff_build.cpp:331-349 | whatever the search misses, a length of zero means the next new byte is nowhere in old |
| DiffScan.NextMatch | engine/src/bsdiff_build.cpp:332-349 | the inner loop passes over a position exactly when the match there is empty or not all explained by the last offset, and is less than nine bytes longer than what is; it stops at the first other match, or at the end with the last match found. The score is the exact number of hits from the position to the furthest end of a match found so far |
| DiffScan.ReachMeans | engine/src/bsdiff_build.cpp:338-341 | that end is the greatest of the ends of the matches found, and one of them |
| DiffScan.SameStop | engine/src/bsdiff_build.cpp:332-349 | from the same start with the same offset, a scan can stop in one place only |
| DiffScan.LeavePosition | engine/src/bsdiff_build.cpp:346-348 | the score loses a point for the position left behind exactly when it had been counted, so it stays exact |
| DiffBuild.StoppedLength | engine/src/bsdiff_build.cpp:343-344 | a break means a match of at least one byte, of nine or more when it is emitted |
| DiffExtend.ExtendForward | engine/src/bsdiff_build.cpp:352-357 | the shortest of the forward extensions that maximise 2*matches-length over all allowed lengths |
| DiffExtend.ExtendBackward | engine/src/bsdiff_build.cpp:359-366 | the same backward from the new match |
| DiffExtend.DivideOverlap | engine/src/bsdiff_build.cpp:368-377 | the first division of the overlap that maximises the matches of both parts together |
| DiffBuild.SameLengths | engine/src/bsdiff_build.cpp:352-381 | extensions and division leave no choice: two that are best are the same |
| DiffBuild.ChooseLengths | engine/src/bsdiff_build.cpp:352-381 | after overlap resolution both lengths are in range, the segment does not overlap the next, and each is the best extension, cut at the best division |
| PatchFormat.EncodesAppend | engine/src/bsdiff_build.cpp:383-417 | appending a segment where the others end: totals of difference and extra bytes, and positions in old and new, telescope |
| DiffBuild.EmitSegment | engine/src/bsdiff_build.cpp:352-417 | one emission extends the encoding of new up to `lastscan`, with `dblen+eblen == lastscan` and the triple in the stream |
| DiffBuild.EmitAll | engine/src/bsdiff_build.cpp:329-419 | the loop ends with all of new described by the triples; the triples are those of a run of rounds up to the end of new, each with a stop that passes over no match worth a stop, and best extensions if it emits; `t_control_size` is twelve for each triple |
| DiffBuild.ExplainedAppend | engine/src/bsdiff_build.cpp:329-419 | the chain of rounds: each starts from where the one before it left the variables, whether it emitted or not |
| DiffBuild.OffsetOfLast | engine/src/bsdiff_build.cpp:415-417 | the offset that matches are scored against is where the next triple starts in old, less where in new |
| DiffBuild.SameTriples | engine/src/bsdiff_build.cpp:329-419 | two runs over all of new emit the same triples |
| PatchFormat.EncodesUnique | engine/src/bsdiff_build.cpp:383-390 | the triples leave no choice for the difference and the extra bytes |
| DiffBuild.BuildUnique | engine/src/bsdiff_build.cpp:214-490 | what is promised of a build leaves one patch only for every pair of files |
| DiffBuild.Build | engine/src/bsdiff_build.cpp:214-490 | the stream ends rewound, holding header, triples, difference and extra bytes of a patch that encodes all of new, with every triple explained; the first sixteen bytes are the sizes of the control block, the difference bytes, the extra bytes and new, most significant byte first |
| PatchStream.OverwriteHeader | engine/src/bsdiff_build.cpp:469-475 | rewinding and writing three words changes exactly the three zeros |
| PatchStream.DecodeEncode | engine/src/mode_installer.cpp:812-823 | four bytes read back as the int32_t that was written |
| PatchStream.EncodeValue | engine/src/mode_installer.cpp:851-854 | in network byte order: the four bytes stand for the value modulo 2^32 |
| PatchStream.DecodeValue | engine/src/mode_installer.cpp:812-823 | four bytes are read as the int32_t that differs from the number they stand for by 0 or 2^32 |
| PatchStream.LayoutBytes | engine/src/bsdiff_build.cpp:318-328 | the file byte by byte: four sizes, then the control values, the difference bytes and the extra bytes |
| PatchStream.ParseBytes | engine/src/bsdiff_apply.cpp:63-103 | which files can be read, and what is read from them, byte by byte |
| PatchStream.ParseLayout | engine/src/bsdiff_apply.cpp:63-103 | a patch within int32_t reads back from its layout |
| DiffApply.Apply | engine/src/bsdiff_apply.cpp:58-167 | for every patch on which no copy leaves its arrays: fails and writes nothing, or writes exactly the replayed data, with all positions in int32_t |
| DiffApply.ReplayLoop | engine/src/bsdiff_apply.cpp:105-154 | the in-place loop over five int32_t positions computes the replay, from zeroed memory |
| DiffApply.StepInPlace | engine/src/bsdiff_apply.cpp:114-153 | one round in place is one step of the replay, failures included |
| DiffApply.ReadPatch | engine/src/bsdiff_apply.cpp:63-103 | the patch is read exactly when the stream holds what its header declares |
| DiffApply.AddBytes | engine/src/bsdiff_apply.cpp:131-134 | old bytes are added modulo 256 where old has any at that int32_t position, nothing else changes |
| DiffApply.RefusedIff | engine/src/bsdiff_apply.cpp:58-167 | a patch is refused exactly when it cannot be read, or some number of rounds leads to one for which control values have run out or the difference test fails; so never because of an extra length |
| DiffApply.StepMeans | engine/src/bsdiff_apply.cpp:114-153 | a round in plain numbers: refused exactly if the difference does not fit; else every byte of new is a difference byte plus the old byte if old has one there, or an extra byte, or as it was, and all positions move; extra bytes that do not fit count as none, and as no move in old |
| DiffApply.NegativeControlAccepted | engine/src/bsdiff_apply.cpp:81-98 | a patch for no bytes at all is accepted with a control size from -3 to 0, and refused with a smaller one |
| DiffApply.ReplayedIff | engine/src/bsdiff_apply.cpp:112-154 | each outcome, done, refused or undefined, is the result exactly when some number of rounds leads to a state that shows it |
| DiffApply.PassesIff | engine/src/bsdiff_apply.cpp:128-146 | the int32_t test before a copy is right up to overflow: it passes exactly when the copy fits or the sum reaches 2^31 |
| DiffApply.OverlongExtraIff | engine/src/bsdiff_apply.cpp:143-153 | a triple whose extra bytes do not fit acts as one that asks for none and does not move in old exactly if a test that fails does not overflow; else its copy is undefined |
| DiffApply.OverlongTripleUnnoticed | engine/src/bsdiff_apply.cpp:143-153 | in front of any patch a triple can be put that asks for more extra bytes than there are, and the outcome is the same |
| DiffApply.OverlongExtraAccepted | engine/src/bsdiff_apply.cpp:143-153 | a patch with such a triple that is accepted |
| DiffApply.OverflowUndefined | engine/src/bsdiff_apply.cpp:144-145 | a patch with non-negative lengths whose test overflows |
| DiffApply.ModerateDefined | engine/src/bsdiff_apply.cpp:112-154 | non-negative lengths that no size makes overflow are enough for every copy to be defined |
| DiffRoundTrip.StepReplays | engine/src/bsdiff_apply.cpp:114-153 | one round replays one segment: output, and positions in new, old, difference and extra bytes |
| DiffRoundTrip.ReplayFrom | engine/src/bsdiff_apply.cpp:112-154 | replaying an encoding patch from any segment on ends with new |
| DiffRoundTrip.EncodingReplays | engine/src/bsdiff_apply.cpp:112-154 | a patch that encodes new reproduces new |
| DiffRoundTrip.BuiltPatchAppliesIff | engine/src/bsdiff_apply.cpp:58-167 | for files within int32_t, applying the built bytes gives new if the control block is under 2 GB, and is refused if it is not |
| DiffRoundTrip.ControlTooLong | engine/src/bsdiff_build.cpp:412-413 | from 2 GB on, the control size reads back negative and the patch is refused |
| DiffRoundTrip.ControlFits | engine/src/bsdiff_build.cpp:343-417 | up to 1610612729 new bytes the control block always fits |
| DiffRoundTrip.BuildThenApply | engine/src/bsdiff_build.cpp:214-490 | through the streams: the bytes built are the layout of a patch that encodes new with every triple explained, the result is what applying those bytes to old gives, and it is new exactly when the control values take less than 2 GB |
| BoxBlur.Blur | engine/src/bitmapeffectblur.cpp:574-892 | every row of a whole run, for every image, rectangles, radius up to 255 and pass count, is the final scaling of the naive window sum over the naive averages of the earlier passes; with two passes or more, or a radius up to 127, every byte is that average enlarged by the spread and cut off at 255 exactly but where it would be 256, and in the middle of stored pixels of one alpha c it is c times the spread over 256; with radius 0 every byte is the top byte of the stored pixel |
| BoxBlur.BoxBlur.OutputEven | engine/src/bitmapeffectblur.cpp:781-892 | inside an even alpha c the mask is c*spread/256 cut off at 255, or 0 where c*spread is 65536; with spread 0 it is full unless c is 0 |
| BoxBlur.BoxBlur.OutputPlain | engine/src/bitmapeffectblur.cpp:866-892 | with radius 0 the mask is the stored alpha inside the input rectangle, 0 outside |
| BoxBlur.BoxBlur.OutputIff | engine/src/bitmapeffectblur.cpp:781-892 | for every byte of the mask: it is the enlarged average exactly under the condition of `ScaleIff` on its window sum, and for two passes or more, or radius up to 127, exactly unless sum*spread == 65536*area |
| BoxBlur.BoxBlur.OutputScaled | engine/src/bitmapeffectblur.cpp:612-620 | wherever the radius is positive the mask is scaled from the window sum, also where all passes have been dropped |
| BoxBlur.BoxBlur.OutputNoSpread | engine/src/bitmapeffectblur.cpp:829-837 | with spread 0 the mask is 255 exactly where the window sum is positive |
| BoxBlur.BoxBlur.constructor | engine/src/bitmapeffectblur.cpp:574-676 | the passes as laid out, tables zeroed, `pixels` at the first row of pass 0 |
| BoxBlur.BoxBlur.LayOut | engine/src/bitmapeffectblur.cpp:624-666 | each pass gets its share of the radius and the clipped region the definition gives; the region assert holds |
| BoxBlur.BoxBlur.Process | engine/src/bitmapeffectblur.cpp:781-892 | one call writes the next row of the mask by its definition and keeps the state between calls |
| BoxBlur.BoxBlur.ProcessBlurred | engine/src/bitmapeffectblur.cpp:783-864 | the same, inside the last pass's reach and outside it |
| BoxBlur.BoxBlur.CalculateRows | engine/src/bitmapeffectblur.cpp:678-779 | fills a pass's table up to the needed row with true sums, recursing into earlier passes through one scratch row; every earlier pass and `pixels` stay in step |
| BoxBlur.BoxBlur.AveragePrevious | engine/src/bitmapeffectblur.cpp:737-747 | the scratch row then holds this row of the level, although the recursion has used the scratch row too |
| BoxBlur.BoxBlur.ClippedIsWindow | engine/src/bitmapeffectblur.cpp:741-746 | cutting a wanted window to the table loses nothing |
| BoxPass.PassInfo.AddRow | engine/src/bitmapeffectblur.cpp:760-776 | the next table row holds the sums over all rows of the region so far, modulo 2^32; rows before stay true, column 0 stays zero |
| BoxPass.PassInfo.CornersExact | engine/src/bitmapeffectblur.cpp:841-850 | the four corners give the exact window sum, below 2^31, whatever has been lost to wrapping, for windows up to 511 |
| BoxPass.PassInfo.Average | engine/src/bitmapeffectblur.cpp:737-747 | the averages over clipped windows |
| PlaneSums.FourCorners | engine/src/bitmapeffectblur.cpp:741-746 | a rectangle sum from four corners of a summed-area table |
| PlaneSums.ClipSum | engine/src/bitmapeffectblur.cpp:741-746 | what lies outside a region holding all non-zero values can be cut off |
| BoxGeometry.Geometry.RadiiSum | engine/src/bitmapeffectblur.cpp:630-631 | the pass radii sum to the radius |
| BoxGeometry.Geometry.RegionNonEmpty | engine/src/bitmapeffectblur.cpp:639 | every pass's region is non-empty |
| BoxGeometry.Geometry.LevelSupport | engine/src/bitmapeffectblur.cpp:657-665 | no level reaches further than the radii before it |
| BoxGeometry.Geometry.LevelBounded | engine/src/bitmapeffectblur.cpp:746 | every level holds values from 0 to 255 |
| BoxGeometry.Geometry.ClippedWindow | engine/src/bitmapeffectblur.cpp:634-665 | for every pixel the next pass reads, the clipped region holds all non-zero values of its window |
| BoxGeometry.Geometry.MissedWindow | engine/src/bitmapeffectblur.cpp:839-857 | a wanted pixel whose window misses the region has a zero sum |
| BoxGeometry.Geometry.NextRegionWanted | engine/src/bitmapeffectblur.cpp:657-665 | every pixel of a pass's region has a window that meets the region of the pass before |
| BoxGeometry.Geometry.InactiveWindow | engine/src/bitmapeffectblur.cpp:612-620 | where the overlap test drops all passes although the radius is not zero, the blur and the bare alpha are both zero |
| BoxGeometry.Geometry.RemainingShare | engine/src/bitmapeffectblur.cpp:630-631 | each pass leaves at most their share of the radius to the later ones |
| BoxGeometry.Geometry.Shares | engine/src/bitmapeffectblur.cpp:630-631 | every pass gets radius/passes, and the first radius%passes of them a pixel more |
| BoxGeometry.Geometry.LevelMeans | engine/src/bitmapeffectblur.cpp:735-747 | a value of a level is the greatest that, all over its window, adds up to no more than the window does |
| BoxGeometry.Geometry.LastAreaIff | engine/src/bitmapeffectblur.cpp:630-633 | for radii up to 255, the last window has at most 65535 pixels exactly if there are two passes or more, or the radius is at most 127 |
| BoxScale.ScaleIff | engine/src/bitmapeffectblur.cpp:834-854 | for every sum, area and spread from 2 on: the stored byte is the average enlarged by spread/256 and cut off at 255 exactly if, with w for 65536*area modulo 2^32, either sum*spread is at most w and not 65536*area, or it is above w and at least 65280*area; else it is 0 in the first case and 255 in the second |
| BoxScale.MaxValueMeans | engine/src/bitmapeffectblur.cpp:833-837 | the comparison decides whether sum*spread exceeds what 32 bits leave of 65536*area |
| BoxScale.HoleAt | engine/src/bitmapeffectblur.cpp:851-852 | an average that the spread enlarges to exactly 256 is stored as 0 |
| BoxBlur.BoxBlur.OutputHole | engine/src/bitmapeffectblur.cpp:851-852 | for every image: in the middle of an even alpha c with c*spread == 65536 the mask is 0 where 255 is meant |
| BoxScale.AccurateIff | engine/src/bitmapeffectblur.cpp:835 | an area for which only an enlarged average of exactly 256 goes wrong is one up to 65535; for every larger one a reachable sum is stored as 255 at the normal spread of 256 although its average is smaller |
| BoxScale.ScaleNoSpread | engine/src/bitmapeffectblur.cpp:834-854 | with spread 0 the byte is 255 exactly where the sum is positive |
| BoxScale.ScaleZero | engine/src/bitmapeffectblur.cpp:834-854 | a zero sum gives a zero byte, as it should |
| BoxScale.ScaleEven | engine/src/bitmapeffectblur.cpp:834-854 | the byte for a window of one alpha, in plain numbers |
| GaussianBlur.Blur | engine/src/bitmapeffectblur.cpp:323-500 | every row of a whole run, whenever the first row is addressed right: each byte is the greatest up to 255 whose 2^16-fold is not over the two-stage saturating sum by its definition, without ring or clipping, and with radius 0 the top byte of the stored pixel; in the middle of stored pixels of one alpha it is that alpha if the kernel adds up to 2^16, and else the alpha weighted twice by what it adds up to |
| GaussianBlur.Definition.LitVertical | engine/src/bitmapeffectblur.cpp:414-474 | a single lit pixel spreads by the kernel weights for its column and its row, in 32 bits, the first product shortened to its upper half |
| GaussianBlur.Definition.EvenMask | engine/src/bitmapeffectblur.cpp:414-479 | inside an even alpha c the mask is that of K*(K*c/2^16), K being what the kernel adds up to |
| GaussianBlur.Definition.MaskIs | engine/src/bitmapeffectblur.cpp:476-479 | the mask byte is the whole part of the sum over 2^16, cut off at 255 |
| GaussianBlur.AboveNotAddressed | engine/src/bitmapeffectblur.cpp:383-388 | it is not when the input starts above the output and the stride is positive |
| GaussianBlur.FastGaussianBlur.Process | engine/src/bitmapeffectblur.cpp:394-500 | one call writes the next row by its definition; the ring then still holds the last 2r+1 true rows |
| GaussianBlur.FastGaussianBlur.FillRow | engine/src/bitmapeffectblur.cpp:408-441 | puts an intermediate row in the ring over the one row no window can need any more |
| GaussianBlur.FastGaussianBlur.WindowInRing | engine/src/bitmapeffectblur.cpp:400-443 | every row the window reads is among the last 2r+1 filled: never stale, never overwritten |
| GaussianBlur.FastGaussianBlur.RowPixel | engine/src/bitmapeffectblur.cpp:412-437 | one saturating horizontal sum, right to left |
| GaussianBlur.FastGaussianBlur.ColumnPixel | engine/src/bitmapeffectblur.cpp:451-474 | one saturating vertical sum down the ring, across its end |
| GaussianBlur.FastGaussianBlur.constructor | engine/src/bitmapeffectblur.cpp:357-391 | the state is the one before the first row exactly if the unsigned product of stride and first row is the one meant |
| GaussianBlur.FastGaussianBlur.SlotIs | engine/src/bitmapeffectblur.cpp:410 | unsigned row arithmetic puts every row a window can reach at its number modulo the height, negative ones included |
| GaussianBlur.Definition.HorizontalClipped | engine/src/bitmapeffectblur.cpp:414-416 | leaving out what is outside the input rectangle changes no sum |
| GaussianBlur.Definition.VerticalClipped | engine/src/bitmapeffectblur.cpp:402-407 | nor vertically |
| Capsule.ReadInPieces | engine/src/capsule.cpp:697-852 | any cutting of any capsule into fills, with process calls between any of them: accepted exactly when it is whole sections to the end, and then the callback gets the one-shot list of digest, type, length and payload; a section that cannot be padded counts as its header alone if nothing of it is read, and is refused otherwise |
| Capsule.HeaderAloneAccepted | engine/src/capsule.cpp:822-830 | a capsule that is the header of a section of 4 GB less a byte is accepted |
| Capsule.Capsule.Process | engine/src/capsule.cpp:697-852 | keeps the parser state, in which never more than a short section and its header is buffered; while data is missing it blocks exactly at a header over 1048576 bytes and then stands still, and if it does not block it has delivered every section that is whole in what can be decompressed by now; with all data there it succeeds exactly when whole sections remain, and leaves nothing |
| Capsule.Capsule.Deliver | engine/src/capsule.cpp:750-843 | one section: delivered as the one-shot parse delivers it, or left for later, or blocking exactly if its length is over 1 MB while data is missing |
| Capsule.Capsule.DeliverBuffered | engine/src/capsule.cpp:781-786 | the buffered path delivers that section |
| Capsule.Capsule.DeliverDirect | engine/src/capsule.cpp:787-843 | the direct path delivers the same section, exactly when it is there with its padding, or counts as its header alone |
| Capsule.Capsule.FetchHeader | engine/src/capsule.cpp:708-748 | finds the header if it is there, and buffers no byte beyond it |
| Capsule.Capsule.BufferSection | engine/src/capsule.cpp:753-772 | finds the section exactly if it has been read to the end of its padding, and never reads further |
| Capsule.Capsule.Ensure | engine/src/capsule.cpp:507-535 | more bytes in the buffer at most up to the request, all of it if all data is there, none lost |
| Capsule.Capsule.StreamRead | engine/src/capsule.cpp:539-596 | reads the next bytes, first from the buffer and then from the buckets, as one run of the input; how many is said for reads past the end of the section too |
| Capsule.ShareIs | engine/src/capsule.cpp:551-584 | inside the section a read is cut short only by the end of the data; one that asks for all and more gets as many bytes too many as linger in the buffer |
| Capsule.Capsule.SeekSet | engine/src/capsule.cpp:607-672 | moves forward only, inside the stream and the data; what is skipped is digested |
| Capsule.Capsule.SkipPadding | engine/src/capsule.cpp:822-830 | moves to the end of the padding exactly if the data reaches so far; with a length above 0xFFFFFFFC it succeeds exactly if the callback read nothing |
| Capsule.PaddedFitsIff | engine/src/capsule.cpp:827 | rounding up in 32 bits is right exactly for lengths up to 0xFFFFFFFC |
| Capsule.Capsule.Fill | engine/src/capsule.cpp:232-257 | new data changes nothing about what has been parsed |
| Capsule.BufferedGrows | engine/src/capsule.cpp:711-767 | asking for a word, a header or a section never reads into the section after it |
| Capsule.EndsFromStart | engine/src/capsule.cpp:697-852 | at every boundary, the rest is whole sections exactly when the capsule is |
| Capsule.DigestOfPreceding | engine/src/capsule.cpp:492-500 | section k is passed the digest of exactly the bytes, padding and headers included, of the k sections before it |
| CapsuleFormat.Client.SectionsThenRest | engine/src/capsule.cpp:697-852 | delivering section by section is reading at once |
| CapsuleFormat.HeaderMeans | engine/src/capsule.cpp:708-748 | the header on its bytes: a type of seven bits and a length of three bytes, and with the top bit set three more bytes of type and one of length |
| CapsuleWrite.Generate | engine/src/deploy_capsule.cpp:495-587 | writes every section as header, data and zeros up to a whole word, with the 32-bit count of bytes in step; a digest section gets the digest of what has been written |
| CapsuleWrite.HeaderReadsBack | engine/src/deploy_capsule.cpp:541-564 | a header written for any type below 2^31 and any length below 2^32 reads back as that type and length, wherever it stands |
| CapsuleWrite.WrittenReadsBack | engine/src/capsule.h:122-134 | writer and reader: a written capsule is accepted, and the callback gets every section with its type, its length and its data, and the digest of everything before it |
| CapsuleWrite.GenerateThenRead | engine/src/deploy_capsule.cpp:495-587 | end to end: a generated capsule, cut in two anywhere and read in pieces, gives those sections |
| CapsuleWrite.DigestsAgreeIff | engine/src/mode_standalone.cpp:501-513 | the check of a digest section succeeds exactly if the section is not the first one, or the digest of nothing is all zeros |
| EffectPickle.PickleThenUnpickle | engine/src/bitmapeffect.cpp:325-513 | what is pickled is read back: mask and every present effect; reading stops where writing did |
| EffectFormat.RecordRoundTrip | engine/src/bitmapeffect.cpp:436-513 | a record followed by any extra data its size declares, and by anything else: mask and present effects come back, the extra data is skipped exactly |
| EffectFormat.Record | engine/src/bitmapeffect.cpp:264-291 | `MCBitmapEffectsWeigh` is the number of bytes written |
| EffectFormat.UnpickledIff | engine/src/bitmapeffect.cpp:449-506 | for every stream: reading succeeds exactly when the stream holds the declared size, or 65536 more when the size is less than the fields weigh, and takes exactly that |
| EffectFormat.FieldsTaken | engine/src/bitmapeffect.cpp:467-503 | the fields, read in the order they were written, fill the effects the mask names and no others |
| EffectFormat.ShadowRoundTrip | engine/src/bitmapeffect.cpp:303-313 | packing a shadow into a word and a half-word loses nothing |
| EffectFormat.ShadowUnpacked | engine/src/bitmapeffect.cpp:393-406 | nor does unpacking |
| EffectFormat.ShadowLayout | engine/src/bitmapeffect.cpp:303-313 | a shadow on its bytes: colour, then blend mode, filter, size, spread and angle at their place values, then distance and knockout, most significant byte first |
| EffectFormat.GlowLayout | engine/src/bitmapeffect.cpp:315-323 | the same for a glow |
| EffectFormat.LayerLayout | engine/src/bitmapeffect.cpp:293-301 | the same for a color overlay |
| EffectFormat.RecordLayout | engine/src/bitmapeffect.cpp:325-359 | a record on its bytes: its length, the low 16 bits of the mask, and the fields whose bits are set, in the order drop shadow, outer glow, inner shadow, inner glow, color overlay |
| EffectPickle.Pickle | engine/src/bitmapeffect.cpp:325-359 | appends the record to the stream |
| EffectPickle.Unpickle | engine/src/bitmapeffect.cpp:436-513 | reads as specified, or fails, keeps the old effects and has used up the stream |
| EffectPickle.UnpickleShadow | engine/src/bitmapeffect.cpp:381-409 | one shadow off the stream |
| ObjectStream.ObjectInputStream.Read | engine/src/objectstream.cpp:354-380 | the next bytes across any number of refills of the 16 KB buffer, or failure at the end |
| ObjectStream.ObjectInputStream.Fill | engine/src/objectstream.cpp:382-418 | refilling keeps what is still to be read; fails only at the end |
| ObjectStream.ObjectOutputStream.Write | engine/src/objectstream.cpp:540-563 | appends across any number of flushes |
| ObjectStream.U32Order | engine/src/objectstream.cpp:163-170 | words are written and read most significant byte first |

## Left out

- The streams of the diff are values in memory; failing writes and failing allocations are not modelled. An allocation of 2^31 or more elements, which is what a negative number of them in a patch header asks for, is taken to fail; a control size from -1 to -3 asks for none.
- Reading old and new from their streams at the start of `bsdiffmain`: the model starts from their bytes.
- DiffApply.Apply: requires a patch on which no copy has a negative length or leaves its arrays; what such a copy does in the source is not defined. Sums of positions that overflow without a copy are taken to wrap.
- `offtout`, which nothing calls.
- DiffRoundTrip.BuiltPatchAppliesIff: old and new are shorter than 2^31 bytes, as their sizes are stored in an int32_t. No pair of files is given whose build reaches 2 GB of control values; whether there is one is left open.
- The floating-point kernel of the Gaussian blur and the spread of the box blur: both are arbitrary integers here. The spread is not 1, which 256 divided by a kernel value of at most 1 cannot give.
- BoxBlur.Blur: the radius is at most 255, the largest a pickled size of eight bits can hold; beyond it the window sums outgrow what the proof of exactness uses.
- GaussianBlur.Blur: the unsigned product of stride and first row is required to be the one meant (`engine/src/bitmapeffectblur.cpp:383`); row numbers and twice the radius stay within an int32_t.
- The tables and the ring are two-dimensional arrays rather than flat memory with a pointer, and the image is an immutable sequence with an origin and a stride.
- The naive `MCBitmapEffectGaussianBlur`, which is not used, and all `Finalize` methods.
- Capsule.Capsule.Read: the buckets hold decompressed bytes; how many of them can be had by now is given with each fill, all of them once all data is there, and a read gives as many of these as it is asked for; zlib, the list of buckets, unmasking, and the test for buckets left over behind the compressed data are not modelled.
- Capsule.Capsule.Fill: once all data is there and a section that cannot be padded has been delivered, nothing more is filled in.
- CapsuleWrite.Generate: compressing, masking and the file written to are not modelled; section data from a file is given as bytes. Lengths are at most 0xFFFFFFFC, as longer ones do not read back.
- Capsule.Capsule.StreamRead: a read that starts behind the end of its section, where the amount left wraps.
- Capsule.Capsule.Callback: the callback reads what it wants of a section front to back and succeeds; one that fails, reads past its section, seeks, or pushes a byte back (`engine/src/capsule.cpp:674-695`) is not modelled.
- The digest is an arbitrary function of the bytes; MD5 is not part of this model.
- `MCCapsuleFillNoCopy` and `MCCapsuleFillFromFile`, which differ from `MCCapsuleFill` in who owns the data.
- EffectPickle.Unpickle: the fields of effects that are not present are whatever the new record held, given as `init`.
- Failing writes of the object streams, and their marks and tags.
- The clipping, bounds and properties of bitmap effects, and everything else in the engine.
