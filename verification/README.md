# Verified models of OpenUSD's `arch` kernels, boxes, dual quaternions and Doxygen reader

This project models, in Dafny, the self-contained algorithms of `pxr/base/arch`, two pieces of
`pxr/base/gf`, and the tree builder of the Doxygen converter, and proves what their comments and
interfaces promise. Each algorithm has the form it has in the repository: loops stay loops, buffers
stay arrays that are written in place, objects stay classes, and each method is proved against a
specification that is simpler than the code.

| file | what it models |
|---|---|
| `Spooky.dfy`, `SpookyStream.dfy` | SpookyHash: the short hash with its fall-through tail switch, the one-shot hash, and the incremental hasher |
| `SpookyLaws.dfy` | both hashes as folds over the message, with every size and constant written out |
| `NormPath.dfy`, `PathMeaning.dfy` | path normalization in place, against a stack of components, and the directory that a path leads to |
| `PositionalIO.dfy` | positional reads and writes that retry, over a kernel that may interrupt, shorten or fail any call |
| `OnceCells.dfy` | the three nested once-cells of the timing code, under every interleaving |
| `GetOrCreate.dfy` | creation of a singleton by compare-and-exchange, under every interleaving |
| `GfLinear.dfy`, `BBox.dfy` | matrices and oriented bounding boxes over exact reals |
| `DualQuat.dfy` | quaternions and dual quaternions over exact reals |
| `Strings.dfy`, `FunctionName.dfy`, `TemplateList.dfy` | the searches of `std::string`, and the parser and the printer of function names and template lists |
| `Options.dfy`, `Sequences.dfy` | a value that may be missing; regrouping concatenations |
| `GlobRegex.dfy` | the translation of globs to regular expressions |
| `Prefetch.dfy` | the two enumerations of cache lines |
| `CStrings.dfy`, `LogInfo.dfy` | log text that goes to a bounded buffer or to a file descriptor |
| `Decimals.dfy`, `StackTraceName.dfy` | decimal printing without the C library, and the choice of a log file name |
| `Utf8.dfy` | truncation of UTF-8 at a character boundary |
| `XmlEvents.dfy`, `XmlParser.dfy` | SAX events to a tree of nodes |

`dafny verify dfyconfig.toml` checks everything.

## Reading the results

* **Hashing.** The four mixing kernels are a parameter, so each result holds for all kernels and in
  particular for the rotations of the source. `SpookyHash.Valid` is the invariant of the stash: while
  fewer than 192 bytes have arrived nothing is mixed and all of them are in the stash. `Run` is the
  promise at the declaration of `Final`: any interleaving of `Update` and `Final` reports, each time,
  the one-shot hash of the fragments so far. `SpookyLaws` says, without any function of the two hashes,
  which little-endian word of the message reaches which kernel in which place.
* **Paths.** `NormPath` equals `PathSpec.Norm` for every string. `PathMeaning.NormIsMeaning` is what that
  function is for: two paths have the same normal form exactly if they keep the same leading slashes and
  lead to the same directory from every directory. The invariant between two tokens says
  that as long as the write head and the read head are level and a token is left, the buffer is still
  the input; this is what makes skipping the copy correct. Normalizing a front first is not always
  harmless. `NormFrontExactly` says when it is, in terms of the front and the rest: for every relative
  front, for every front that leaves components, for `/` and `//`, and for other fronts with the root
  `/` if the rest begins with a slash. Among the fronts for which it is not are the empty one, `///`
  and `/.`.
* **Once-cells.** A state is the three cells and a call stack for each of any number of threads; a move
  is one atomic operation of one thread. Each thread keeps a record of what every call returned to it,
  the calls of compute functions included. In every run each compute function starts at most once, all
  callers of a cell get the same value, which is one that the compute function of its claimant returned;
  a cell is filled only after the cells it is computed from; some thread always has a step that is not a spin, and the
  number of such steps is bounded. Computed values are non-negative, as the encoding of the two
  special states requires.
* **Boxes.** `Combine` contains every point of both boxes in every empty and degenerate case, and no
  smaller range in the space of the merge would. For boxes that can both be inverted it is the first merge
  unless the volume of that is larger than the other's by more than 1e-10 and by more than a millionth.
  What the volume is follows from the laws about it: 1 for the unit cube, additive when a box is cut, and
  multiplied by its determinant by every transformation.
* **Dual quaternions.** `SandwichTransforms` says what `Transform` computes: the sandwich of the point by
  the dual quaternion and its conjugate.
* **Function names.** A name that ends in ` [with` is the only one that is not given back together with
  its template map: `_Split` finds the pattern one space too early. The map is given back even then.
  `_GetTemplateList` need not end: with a key at the start of the list, as in `A=B`, or no key, as in
  ` = A B`, a search without success wraps to the end of the string and the same '=' is found again.
  It ends if every '=' has a key after a space and a value, and, if at all, within as many turns as
  there are characters.
* **Positional I/O.** `ArchPWrite` does not retry after an interruption, although `ArchPRead` does; it
  returns -1, and the file then holds a first part of the data. It fails exactly for a negative
  offset, for lack of room, and if a failure, which may be an interruption, stands among the outcomes
  of its calls before the transfers ahead of it have covered the data.
* **Prefetch.** The constant form visits one line too many, line zero, when a range may straddle, ends
  before the end of the address space, and its least number of lines reaches that end: the pointer that
  it compares with has then wrapped to zero. `ConstantFormIsExact` is the exact condition, for
  every aligned object.
* **Log buffer.** The comment on `TryToFillLogInfoBuffer` says that it always null-terminates. With an
  empty map it does not write at all; the model follows the code.
* **SAX text.** Several reports of one text are merged, but each is stripped first. `SplitTextReadsTheSame`
  says exactly where a reader may split a text without changing the tree: next to blank text, or
  between two characters that are not blank. `x ` and `y` make `xy`, not `x y`.
* **UTF-8.** Both definitions of RFC 3629, the encoding of section 3 and the grammar of section 4, are
  written down and shown to agree.

## Model

| member | source | states |
|---|---|---|
| `SpookyWords.ShiftKeepsLowByte` | pxr/base/arch/hash.cpp:368 | shifting the length by 56 bits puts its low byte, and nothing else, in the top byte of the word |
| `SpookyShort.AddTail` | pxr/base/arch/hash.cpp:369-409 | for 0-15 last bytes, the fall-through switch adds the two little-endian words of these bytes padded with zeros to 16, or the constant to both words if there are none |
| `SpookyShort.MixGroups` | pxr/base/arch/hash.cpp:344-354 | the loop mixes all whole 32-byte groups in order and stops at the first byte it did not use |
| `SpookyShort.Short` | pxr/base/arch/hash.cpp:313-413 | the short hash of every message, reading only its bytes |
| `SpookyLaws.WordIsLE` | pxr/base/arch/hash.cpp:348-352 | each 64-bit word that is read is the little-endian value of its eight bytes |
| `SpookyLaws.GroupsAreSlices` | pxr/base/arch/hash.cpp:344-354 | of each 32 bytes, the first two words go into c and d before the mixing, and the other two into a and b after it |
| `SpookyLaws.ShortHashIsFold` | pxr/base/arch/hash.cpp:313-413 | the short hash is the fold of all its words, of the half group, and of the padded last bytes and the low byte of the length |
| `SpookyStream.AbsorbConcat` | pxr/base/arch/hash.cpp:443-459 | mixing the blocks of a concatenation is mixing those of its parts in turn |
| `SpookyStream.AbsorbPast` | pxr/base/arch/hash.cpp:533-568 | blocks that straddle two fragments are mixed as in the concatenated message |
| `SpookyStream.TwoBlocks` | pxr/base/arch/hash.cpp:533-543 | a full stash is the two blocks of the message after those that are mixed |
| `SpookyStream.LongHashIsHashOf` | pxr/base/arch/hash.cpp:416-475 | wherever the mixed blocks end, if less than a block is left the result is the one-shot hash |
| `SpookyStream.MixBlocks` | pxr/base/arch/hash.cpp:443-459 | the block loop mixes exactly the blocks between two positions |
| `SpookyStream.Hash128` | pxr/base/arch/hash.cpp:416-475 | the one-shot hash of a message of any length |
| `SpookyLaws.StartIs` | pxr/base/arch/hash.cpp:437-439 | which seed, or the constant, stands in each of the twelve words |
| `SpookyLaws.HashOfIsFold` | pxr/base/arch/hash.cpp:416-475 | below 192 bytes the short hash; from there on the 96-byte blocks in order, and a last block of the rest, zeros and its length |
| `SpookyStream.SpookyHash.Init` | pxr/base/arch/hash.cpp:478-484 | afterwards the message so far is empty, with these seeds |
| `SpookyStream.SpookyHash.Stash` | pxr/base/arch/hash.cpp:500-507 | a fragment that leaves the stash less than full is only appended |
| `SpookyStream.SpookyHash.LoadState` | pxr/base/arch/hash.cpp:509-530 | the words to mix into hold everything mixed so far, or fresh ones if nothing is |
| `SpookyStream.SpookyHash.MixStash` | pxr/base/arch/hash.cpp:533-547 | the stash is filled from the fragment, and both of its blocks are mixed as blocks of the message |
| `SpookyStream.SpookyHash.Update` | pxr/base/arch/hash.cpp:487-587 | the message so far grows by the fragment, and the invariant of the stash is kept |
| `SpookyStream.SpookyHash.Store` | pxr/base/arch/hash.cpp:570-586 | what is left after the last whole block is stuffed away with the words |
| `SpookyStream.SpookyHash.Final` | pxr/base/arch/hash.cpp:590-635 | the one-shot hash of the message so far; the used part of the stash is unchanged |
| `SpookyStream.SpookyHash.EndBlock` | pxr/base/arch/hash.cpp:617-631 | the last block is the rest, zeros, and the number of bytes; the bytes of the message stay |
| `SpookyStream.Run` | pxr/base/arch/hash.cpp:107-114 | every split of a message, with `Final` called at any points, reports the one-shot hash of the concatenation each time |
| `PathSpec.TokenLengthIs` | pxr/base/arch/fileSystem.cpp:332-342 | a token is the longest run without a slash, in both directions |
| `PathSpec.StepKeepsCanonical` | pxr/base/arch/fileSystem.cpp:419-464 | one component keeps the stack free of '.', and '..' only leading and relative |
| `PathSpec.StackIsCanonical` | pxr/base/arch/fileSystem.cpp:356-482 | so is the stack of every path |
| `PathSpec.JoinReadsBack` | pxr/base/arch/fileSystem.cpp:418-433 | splitting at slashes undoes joining |
| `PathSpec.ShowReadsBack` | pxr/base/arch/fileSystem.cpp:407-410 | root and stack can be read back from the result |
| `PathSpec.NormIsCanonical` | pxr/base/arch/fileSystem.cpp:356-482 | the result has no empty or '.' component, and '..' only as a leading run of a relative path |
| `PathSpec.NormIsIdempotent` | pxr/base/arch/fileSystem.cpp:356-482 | normalizing twice is normalizing once |
| `PathSpec.NormDetermines` | pxr/base/arch/fileSystem.cpp:356-482 | two paths have the same normal form exactly if they have the same root and the same stack |
| `PathMeaning.NormLeadsThere` | pxr/base/arch/fileSystem.cpp:356-482 | from every directory the normal form leads where the path leads |
| `PathMeaning.NormIsMeaning` | pxr/base/arch/fileSystem.cpp:356-482 | two paths have the same normal form exactly if they keep the same slashes and lead to the same directory from every directory |
| `PathMeaning.RootIs` | pxr/base/arch/fileSystem.cpp:407-410 | exactly two leading slashes stay two, any other number but none is one |
| `PathMeaning.NormIsDot` | pxr/base/arch/fileSystem.cpp:477-479 | no normal form is empty, and it is '.' exactly for relative paths that lead nowhere else from everywhere |
| `PathSpec.NormFrontFirst` | pxr/base/arch/fileSystem.cpp:407-410 | normalizing a front first changes nothing exactly if the root of the whole path stays |
| `PathSpec.NormFrontExactly` | pxr/base/arch/fileSystem.cpp:356-482 | for which fronts and rests it changes nothing, both ways |
| `PathSpec.NormFrontKeepsRoot` | pxr/base/arch/fileSystem.cpp:356-482 | it changes nothing for every non-empty front whose normal form is more than slashes |
| `PathSpec.NormFrontMayChangeRoot` | pxr/base/arch/fileSystem.cpp:407-410 | a front of three slashes, for which it does |
| `PathSpec.NormFrontMayLoseComponents` | pxr/base/arch/fileSystem.cpp:404-410 | a front that loses its components, for which it does |
| `NormPath.NextToken` | pxr/base/arch/fileSystem.cpp:332-342 | the next token and the slashes before it, forwards |
| `NormPath.NextTokenBack` | pxr/base/arch/fileSystem.cpp:442-447 | the same backwards, as far as the first written position |
| `NormPath.BackTokenIsTop` | pxr/base/arch/fileSystem.cpp:445-461 | backwards from the write head the next token is the top of the stack, or there is none |
| `NormPath.WriteElem` | pxr/base/arch/fileSystem.cpp:420-435 | copying or skipping a component pushes it, and keeps the invariant of the two heads |
| `NormPath.WriteDotDot` | pxr/base/arch/fileSystem.cpp:453-456 | a '..' that is kept is pushed |
| `NormPath.DotDotCase` | pxr/base/arch/fileSystem.cpp:439-463 | '..' does to the written components what it does to the stack |
| `NormPath.OneToken` | pxr/base/arch/fileSystem.cpp:419-464 | every token does |
| `NormPath.Finish` | pxr/base/arch/fileSystem.cpp:467-481 | the trailing slash goes, and the empty path is '.' |
| `NormPath.NormPath` | pxr/base/arch/fileSystem.cpp:356-482 | for every input the result is the normal form of the specification; all writes are in bounds |
| `PositionalIO.OverwrittenExtends` | pxr/base/arch/fileSystem.cpp:1152-1163 | a write and one that goes on where it ended are one write |
| `PositionalIO.OverwrittenAt` | pxr/base/arch/fileSystem.cpp:1112-1168 | a written file holds the data in its range and what it held elsewhere |
| `PositionalIO.ReadRest` | pxr/base/arch/fileSystem.cpp:1086-1102 | the retry loop extends what was read until everything is, or the file ends, or an error other than an interruption |
| `PositionalIO.ArchPRead` | pxr/base/arch/fileSystem.cpp:1054-1108 | a count n means that the first n bytes are those of the file at the offset, and n is less than asked for only at the end of the file; interruptions alone never fail it; no request exceeds INT_MAX |
| `PositionalIO.WriteOn` | pxr/base/arch/fileSystem.cpp:1143-1162 | one more write extends the part that is in the file |
| `PositionalIO.WriteRest` | pxr/base/arch/fileSystem.cpp:1151-1164 | the retry loop extends what was written until everything is, or one of its calls fails |
| `PositionalIO.FailsInTime` | pxr/base/arch/fileSystem.cpp:1143-1167 | the calls fail exactly if a failure comes first, or where the transfers ahead of it, capped at INT_MAX, have left something |
| `PositionalIO.InterruptionFails` | pxr/base/arch/fileSystem.cpp:1151-1167 | an interruption of the first call, or of a later one while something is left, is such a failure |
| `PositionalIO.ArchPWrite` | pxr/base/arch/fileSystem.cpp:1112-1168 | a count is the whole count, and the file holds exactly the data there; it fails exactly for a negative offset, lack of room or a failing call, and then the file holds a first part; no request exceeds INT_MAX |
| `OnceCells.NextKeepsInv` | pxr/base/arch/timing.cpp:37-64 | every atomic step keeps: a claimed cell has exactly one owner, which is inside its compute function, and what was read or stored is the cell's value |
| `OnceCells.RecordsReturns` | pxr/base/arch/timing.cpp:43-63 | every call that ends, nested or not, adds its cell and the value now in that cell to the thread's record |
| `OnceCells.ReturnedIsCell` | pxr/base/arch/timing.cpp:37-64 | what any call returned is what the cell holds |
| `OnceCells.ComputedOnceAndShared` | pxr/base/arch/timing.cpp:37-64 | in every interleaving each compute function starts at most once, and all calls for a cell, those that compute functions make included, return the same value |
| `OnceCells.CellsAreComputed` | pxr/base/arch/timing.cpp:49-56 | in every run a cell holds what the compute function of the thread that claimed it returned |
| `OnceCells.ComputedInOrder` | pxr/base/arch/timing.cpp:95-169 | the timer overhead is there only after the tick quantum, and the nanoseconds for a tick only after both |
| `OnceCells.RunKeepsRequested` | pxr/base/arch/timing.cpp:95-116 | each thread's calls return in order, each for the cell it was made for |
| `OnceCells.StackDescends` | pxr/base/arch/timing.cpp:140-169 | nested calls go to lower cells |
| `OnceCells.BehindSpinner` | pxr/base/arch/timing.cpp:58-62 | behind every spinning thread there is one that does not spin |
| `OnceCells.NoDeadlock` | pxr/base/arch/timing.cpp:37-64 | until all threads are finished some thread can do more than spin |
| `OnceCells.WorkIsBounded` | pxr/base/arch/timing.cpp:37-64 | in every run all but a bounded number of steps are spins |
| `OnceCells.CanFinish` | pxr/base/arch/timing.cpp:37-64 | from every reachable state all threads can be finished |
| `GetOrCreate.StepKeepsInv` | pxr/base/arch/stackTrace.cpp:293-311 | the objects that exist are the published one and one for each thread that has not settled yet |
| `GetOrCreate.OneObject` | pxr/base/arch/stackTrace.cpp:293-311 | in every interleaving all callers get the same object, which exists, and when all have returned no other object does |
| `GetOrCreate.NoneIsCreatedAfter` | pxr/base/arch/stackTrace.cpp:293-311 | a published object stays, and once nobody is about to create another, nobody does |
| `GetOrCreate.NobodyWaits` | pxr/base/arch/stackTrace.cpp:293-311 | no run of n threads has more than 4n steps |
| `GfLinear.ApplyMul` | pxr/base/gf/matrix.template.cpp:177-193 | a product of affine matrices is affine and applies the first, then the second |
| `BBox.ApplyIs` | pxr/base/gf/matrix4.template.h:351-356 | where a point goes: the last row is the translation |
| `GfLinear.AdjugateTimes` | pxr/base/gf/matrix4.template.cpp:80-192 | the shared 2x2 determinants make the transposed cofactors |
| `GfLinear.InverseTimes` | pxr/base/gf/matrix4.template.cpp:80-192 | unless the determinant is within eps of zero, the inverse times the matrix is the identity |
| `GfLinear.InverseOfAffine` | pxr/base/gf/matrix4.template.cpp:80-192 | the inverse of an affine matrix is affine |
| `GfLinear.DeterminantOfAffine` | pxr/base/gf/matrix4.template.cpp:195-213 | for an affine matrix the determinant of the upper left 3x3 matrix is the determinant |
| `GfLinear.DeterminantTimes` | pxr/base/gf/matrix4.template.cpp:195-213 | the determinant of a product is the product of the determinants |
| `BBox.VolumeOfCube` | pxr/base/gf/bbox3d.cpp:40-50 | the unit cube has the volume 1, and a box turned around in any coordinate none |
| `BBox.VolumeCutX` | pxr/base/gf/bbox3d.cpp:40-50 | cutting a box at a plane adds up the volumes |
| `BBox.VolumeCutY` | pxr/base/gf/bbox3d.cpp:40-50 | in the second coordinate too |
| `BBox.VolumeCutZ` | pxr/base/gf/bbox3d.cpp:40-50 | and in the third |
| `BBox.VolumeTransforms` | pxr/base/gf/bbox3d.cpp:45-49 | a transformation multiplies every volume by its determinant |
| `BBox.AlignedContains` | pxr/base/gf/bbox3d.cpp:53-84 | the aligned range contains every transformed point of the box |
| `BBox.AlignedIsTight` | pxr/base/gf/bbox3d.cpp:53-84 | each of its six bounds is attained at a corner of the box |
| `BBox.MergedCovers` | pxr/base/gf/bbox3d.cpp:141-156 | the union in the space of the first box covers both |
| `BBox.MergedIsLeast` | pxr/base/gf/bbox3d.cpp:141-156 | every range in that space that holds both boxes holds the union |
| `BBox.AlignedCovers` | pxr/base/gf/bbox3d.cpp:102-104 | the union of the aligned ranges covers both |
| `BBox.InverseMatched` | pxr/base/gf/bbox3d.cpp:23-37 | the stored inverse undoes a matrix that is not degenerate |
| `BBox.GfBBox3d.SetMatrices` | pxr/base/gf/bbox3d.cpp:23-37 | the box is degenerate exactly if the determinant is within 1e-13 of zero; the stored inverse is then the identity, and otherwise undoes the matrix |
| `BBox.GfBBox3d.Transform` | pxr/base/gf/bbox3d.h:152-157 | the transformed box contains every transformed point |
| `BBox.GfBBox3d.ComputeAlignedRange` | pxr/base/gf/bbox3d.cpp:53-84 | the loops compute the aligned range that the two lemmas above are about |
| `BBox.GfBBox3d.CombineInOrder` | pxr/base/gf/bbox3d.cpp:141-156 | the merge in the space of the first box, which contains both |
| `BBox.GfBBox3d.CombineSmaller` | pxr/base/gf/bbox3d.cpp:118-130 | of the two merges the first, unless its volume is larger by more than 1e-10 and by more than a millionth |
| `BBox.GfBBox3d.Combine` | pxr/base/gf/bbox3d.cpp:87-138 | in every empty and degenerate case: contains all points of both boxes, in which space it is, and the flag of zero-area primitives |
| `Quaternions.TimesAssociates` | pxr/base/gf/quat.template.cpp:129-147 | the product of quaternions is associative |
| `Quaternions.UnitsTimes` | pxr/base/gf/quat.template.cpp:129-147 | the products of the three imaginary units |
| `Quaternions.LengthTimes` | pxr/base/gf/quat.template.cpp:129-147 | and multiplies lengths |
| `Quaternions.SandwichTimes` | pxr/base/gf/quat.template.cpp:119-127 | rotating by a product is rotating twice |
| `DualQuat.TransformTimes` | pxr/base/gf/dualQuat.template.cpp:122-139 | for unit dual quaternions, transforming by a product is transforming by the second and then by the first |
| `DualQuat.SandwichTransforms` | pxr/base/gf/dualQuat.template.cpp:134-139 | transforming by a unit dual quaternion is its sandwich of the point |
| `DualQuat.TransformOrigin` | pxr/base/gf/dualQuat.template.cpp:134-139 | the origin goes where the translation says, for every real part but zero |
| `DualQuat.TimesInverse` | pxr/base/gf/dualQuat.template.cpp:78-94 | a dual quaternion with a real part other than zero, times its inverse, is the identity |
| `DualQuat.TranslationReadsBack` | pxr/base/gf/dualQuat.template.cpp:96-120 | with a unit real part the translation that was stored is returned |
| `DualQuat.SandwichRotates` | pxr/base/gf/quat.template.cpp:119-127 | the optimized rotation is the product of three quaternions |
| `DualQuat.SandwichScales` | pxr/base/gf/quat.template.cpp:119-127 | for every quaternion but zero, it is that product up to the square of the length |
| `DualQuat.Normalized` | pxr/base/gf/dualQuat.template.cpp:53-70 | the result has a unit real part and a perpendicular dual part, and times the returned length it is what was there |
| `DualQuat.GfDualQuat.Multiply` | pxr/base/gf/dualQuat.template.cpp:122-132 | the product, even when multiplied by itself |
| `DualQuat.GfDualQuat.SetTranslation` | pxr/base/gf/dualQuat.template.cpp:96-101 | a unit dual quaternion then has this translation |
| `DualQuat.GfDualQuat.GetLength` | pxr/base/gf/dualQuat.template.cpp:33-42 | the length of the real part and the share of the dual part along it |
| `DualQuat.GfDualQuat.Normalize` | pxr/base/gf/dualQuat.template.cpp:53-70 | unit and perpendicular in every case; identity below eps; otherwise nothing but the returned length is taken away |
| `FunctionName.GetStartOfName` | pxr/base/arch/function.cpp:24-44 | terminates on every string, with the result of the backward scan |
| `FunctionName.ScanLeavesString` | pxr/base/arch/function.cpp:31-41 | the scan only leaves the string if that begins with '>' |
| `FunctionName.StartOfQualifiedName` | pxr/base/arch/function.cpp:24-44 | after a return type and a space, the start of the whole qualified name is found, however deeply its brackets nest |
| `FunctionName.GetFunctionName` | pxr/base/arch/function.cpp:60-81 | a function that is not first found as a member is returned as it is; a member is returned with what comes before it, back to a space or the start |
| `FunctionName.QualifiedNameIsFound` | pxr/base/arch/function.cpp:60-81 | a member function is found with its class and the template arguments of that |
| `TemplateList.Split` | pxr/base/arch/function.cpp:90-101 | the head ends where the pattern first occurs, and the list is what stands between "[with" and the last character; without the pattern, everything is head |
| `TemplateList.PatternIsFound` | pxr/base/arch/function.cpp:92-97 | where the pattern is found after a name that does not contain it |
| `TemplateList.ParsesEntry` | pxr/base/arch/function.cpp:117-123 | a turn at the '=' of an entry reads its key and its value, and goes on before its key |
| `TemplateList.TurnReads` | pxr/base/arch/function.cpp:117-124 | at every '=' with a key and a value: where both lie, and which characters are skipped around them and before the key |
| `TemplateList.GetTemplateList` | pxr/base/arch/function.cpp:110-127 | the map read from the last entry to the first, whether a search leaves the string or a position is past the end, or that the loop has not ended in as many turns as there are characters |
| `TemplateList.RunsForEver` | pxr/base/arch/function.cpp:116-124 | in which case it never ends |
| `TemplateList.KeyedListsEnd` | pxr/base/arch/function.cpp:116-124 | the loop ends with a map if every '=' has a key after a space, and a value |
| `TemplateList.KeyAtStartRunsForEver` | pxr/base/arch/function.cpp:119-123 | for A=B it never ends |
| `TemplateList.NoKeyRunsForEver` | pxr/base/arch/function.cpp:118-123 | nor where an '=' has no key |
| `TemplateList.FormatTemplateList` | pxr/base/arch/function.cpp:130-148 | the text of the map |
| `TemplateList.ParsesList` | pxr/base/arch/function.cpp:110-127 | reading a list, with commas and semicolons between its entries in any mixture, assigns these, whatever stands before it |
| `TemplateList.CompilerListReads` | pxr/base/arch/function.cpp:89-127 | the same after splitting it from the name, which comes back exactly if it does not end in the start of the pattern |
| `TemplateList.SemicolonsAreSeparators` | pxr/base/arch/function.cpp:110-127 | a list of three entries with semicolons |
| `TemplateList.FormatReadsBack` | pxr/base/arch/function.cpp:89-148 | splitting and reading undo formatting: the map always comes back, the name exactly if it does not end in the start of the pattern |
| `TemplateList.NameMayNotComeBack` | pxr/base/arch/function.cpp:90-101 | a name that does not come back |
| `GlobRegex.Replace` | pxr/base/arch/regex.cpp:22-31 | all occurrences from the left, without overlap, are replaced |
| `GlobRegex.PassesTranslate` | pxr/base/arch/regex.cpp:34-40 | the three passes equal one translation character by character, for every pattern |
| `GlobRegex.GlobToRegex` | pxr/base/arch/regex.cpp:34-40 | that translation |
| `GlobRegex.TranslationParses` | pxr/base/arch/regex.cpp:34-40 | read as a regular expression it has one item for each character of the glob |
| `GlobRegex.TranslationFindsTheSame` | pxr/base/arch/regex.cpp:34-40 | for globs whose only special characters are '.', '*' and '?', over text without newlines, the regular expression is found exactly where the glob is |
| `Prefetch.OccupiedAreMet` | pxr/base/arch/prefetch.h:92-130 | the occupied lines are exactly those that share a byte with the range, each once, in increasing order |
| `Prefetch.ForEachRuntimeLine` | pxr/base/arch/prefetch.h:138-168 | visits the occupied lines of every range that does not wrap, up to the last line of the address space |
| `Prefetch.ForEachConstantLine` | pxr/base/arch/prefetch.h:92-130 | visits the least number of lines and perhaps one more |
| `Prefetch.AtMostOneMore` | pxr/base/arch/prefetch.h:105-113 | at most one line more than the least is occupied, and none unless it might straddle |
| `Prefetch.StraddleHappens` | pxr/base/arch/prefetch.h:105-113 | if it might straddle, some aligned address does |
| `Prefetch.ConstantFormIsExact` | pxr/base/arch/prefetch.h:92-130 | the constant form visits exactly the occupied lines unless it might straddle, the range ends before the address space does, and its least lines end with it |
| `Prefetch.FormsAgree` | pxr/base/arch/prefetch.h:92-168 | a line away from the end of the address space the two forms visit the same lines |
| `Prefetch.ConstantFormWraps` | pxr/base/arch/prefetch.h:125-129 | two bytes for which line zero is visited too |
| `CStrings.AsStrLen` | pxr/base/arch/stackTrace.cpp:523-532 | the length up to the first NUL |
| `LogInfo.ASWrite` | pxr/base/arch/stackTrace.cpp:652-669 | a first part of the message is written, all of it if no call fails with more than an interruption; errno stays |
| `LogInfo.ValuesAreFirstLines` | pxr/base/arch/stackTrace.cpp:380-398 | at most the given number of value lines is emitted: the first ones, in order |
| `LogInfo.LimitCuts` | pxr/base/arch/stackTrace.cpp:388-391 | a limited walk is the unlimited one, or that up to some value line and then the marker |
| `LogInfo.TextIsFull` | pxr/base/arch/stackTrace.cpp:380-398 | without a limit: each key between a newline and a colon with a newline, and its lines as they are |
| `LogInfo.TextIsCut` | pxr/base/arch/stackTrace.cpp:387-391 | under a limit that leaves lines out: the text before the first of them, and the marker |
| `LogInfo.TextHasNoNul` | pxr/base/arch/stackTrace.cpp:457-463 | the text has no NUL inside, so the buffer shows all of it that it holds |
| `LogInfo.FillFrom` | pxr/base/arch/stackTrace.cpp:457-463 | the buffer takes what it has room for, ends it with a NUL, and asks for more while there is room |
| `LogInfo.EmitLines` | pxr/base/arch/stackTrace.cpp:387-395 | the lines of one key, up to the first refusal or the limit |
| `LogInfo.ForEachLine` | pxr/base/arch/stackTrace.cpp:378-398 | the emitter takes of the text of the map what it has room for; the answer is whether nothing was refused or cut |
| `LogInfo.LogInfo.ASEmitAnyExtraLogInfo` | pxr/base/arch/stackTrace.cpp:429-443 | the descriptor gets exactly the text of the map if no write fails for good; otherwise parts of the text are lost, but nothing is added and the order is kept; nothing is written if the lock is taken |
| `LogInfo.LogInfo.TryToFillLogInfoBuffer` | pxr/base/arch/stackTrace.cpp:446-465 | the buffer holds the first bufSize - 1 characters of the same text and a NUL; true exactly if the text is shorter than bufSize - 1 and not cut by the limit; nothing past bufSize is written |
| `Decimals.ParsesBack` | pxr/base/arch/stackTrace.cpp:619-649 | reading a printed number gives it back |
| `Decimals.FitsNumericBuffer` | pxr/base/arch/stackTrace.cpp:594-600 | every printed long fits the fixed buffer with its NUL |
| `Decimals.AsNumDigits` | pxr/base/arch/stackTrace.cpp:603-615 | the length of the printed number |
| `Decimals.WriteDigits` | pxr/base/arch/stackTrace.cpp:642-647 | the loop writes the digits backwards, and nothing else |
| `Decimals.AsItoa` | pxr/base/arch/stackTrace.cpp:619-649 | the printed number and a NUL, nothing else, and the place of the NUL |
| `StackTraceName.NamesDiffer` | pxr/base/arch/stackTrace.cpp:760-776 | no two tried names are the same |
| `StackTraceName.NameIs` | pxr/base/arch/stackTrace.cpp:740-772 | the tried names in full |
| `StackTraceName.ManyNames` | pxr/base/arch/stackTrace.cpp:760-776 | finitely many files cannot have all the names |
| `StackTraceName.AsStrCpy` | pxr/base/arch/stackTrace.cpp:540-546 | copies up to and with the NUL, nothing else, and returns the place of the NUL |
| `StackTraceName.FillBase` | pxr/base/arch/stackTrace.cpp:740-748 | the default name from its seven parts |
| `StackTraceName.Search` | pxr/base/arch/stackTrace.cpp:750-782 | the loop over suffixes ends, at the first name that is free, too long or faulty |
| `StackTraceName.GetStackTraceName` | pxr/base/arch/stackTrace.cpp:716-782 | makes a file under the first free name and leaves the name in the buffer, or fails for lack of room or with the kernel's error; never writes from len on |
| `Utf8.OctetsAreEncoded` | pxr/base/arch/threads.cpp:78-84 | every string of the grammar of RFC 3629 encodes code points |
| `Utf8.CutIsLongest` | pxr/base/arch/threads.cpp:85-102 | for every encoded string the cut leaves the most whole characters that fit, at most three bytes below the limit |
| `Utf8.CutIsLongestValid` | pxr/base/arch/threads.cpp:85-102 | for every valid string it leaves the longest valid beginning that fits |
| `Utf8.TruncateUtf8` | pxr/base/arch/threads.cpp:85-102 | the name itself if it fits, or the part before the cut with a NUL in the buffer |
| `XmlEvents.TraceIsClean` | docs/python/doxygenlib/cdParser.py:115-148 | the preorder trace of what well-nested events build is the events with adjacent stripped text merged and empty text dropped; nothing stays open |
| `XmlEvents.CleanIsMerged` | docs/python/doxygenlib/cdParser.py:142-148 | no text in it is empty, and no two are adjacent |
| `XmlEvents.StripLeavesNothing` | docs/python/doxygenlib/cdParser.py:146 | nothing is left of exactly the texts of spaces, vertical tabs, carriage returns, tabs and newlines |
| `XmlEvents.StripTakesEnds` | docs/python/doxygenlib/cdParser.py:146 | only these are taken, and only from the ends, up to others |
| `XmlEvents.BlankTextChangesNothing` | docs/python/doxygenlib/cdParser.py:142-148 | a text of only these changes nothing, wherever it is reported |
| `XmlEvents.StripConcat` | docs/python/doxygenlib/cdParser.py:146 | stripping two parts of a text is stripping the text exactly if one is blank, or no blank is at the joint |
| `XmlEvents.SplitTextReadsTheSame` | docs/python/doxygenlib/cdParser.py:142-148 | what is built does not depend on how the reader splits a text exactly then |
| `XmlEvents.SplitTextMayLoseBlanks` | docs/python/doxygenlib/cdParser.py:142-148 | a split that loses a blank |
| `XmlEvents.RootsAreDocuments` | docs/python/doxygenlib/cdParser.py:105-113 | one root more for each element that closes outside all others; earlier roots stay |
| `XmlParser.XMLParser.StartNode` | docs/python/doxygenlib/cdParser.py:105-108 | a new node below the current one, or a new root |
| `XmlParser.XMLParser.EndNode` | docs/python/doxygenlib/cdParser.py:110-113 | the node becomes the last child of its parent, which is current again |
| `XmlParser.XMLParser.FlushText` | docs/python/doxygenlib/cdParser.py:116-119 | the text at hand becomes a child of the innermost open node |
| `XmlParser.XMLParser.StartElement` | docs/python/doxygenlib/cdParser.py:115-127 | the nodes follow the specification, and depth, text stack and current node stay in step |
| `XmlParser.XMLParser.EndElement` | docs/python/doxygenlib/cdParser.py:129-140 | the same |
| `XmlParser.XMLParser.Characters` | docs/python/doxygenlib/cdParser.py:142-148 | the same |
| `XmlParser.Parse` | docs/python/doxygenlib/cdParser.py:94-151 | after a well-nested document there is no current node, the depth is -1, the text stack is empty, and the new root nodes show the trees whose trace is the cleaned events |

## Left out

- The wrappers `Hash64`, `Hash32`, `ArchHash` and `ArchHash64`, which pass one seed twice and drop a word.
- The arithmetic of the four mixing kernels, which no result depends on, and all claims about the quality of the hash.
- SpookyHash.Update: a message of 2^64 bytes or more, for which the length counter wraps, is excluded.
- The raw memory layout of the stash (unaligned access, casts between bytes and words); words are little-endian.
- Windows branches, drive letters and `ArchAbsPath`.
- PositionalIO.ArchPRead: a count above 2^63 - 1, which the code converts to a negative number, is excluded.
- PositionalIO.ArchPWrite: the same; a kernel is disturbed finitely often, after which calls transfer all they can.
- OnceCells.ComputedOnceAndShared: computed values are assumed non-negative; a negative one would make callers spin. Weak memory is not modelled, nor are the measurements themselves.
- GetOrCreate.OneObject: interleavings are sequentially consistent, and allocation does not fail.
- Floating-point rounding in `gf`; reals are exact, and matrices are affine, as the box code assumes.
- DualQuat.GfDualQuat.Normalize: the square root is a parameter; a length of zero with eps at most zero, for which the code divides by zero, is excluded.
- FunctionName.GetStartOfName: for a string that begins with '>' the code's scan leaves the string; the model returns None there.
- TemplateList.GetTemplateList: a call that never ends returns in the model, with the answer that it is still running; an exception is an answer too.
- `_FilterTemplateList`, `_GetNextIdentifier` and the demangler.
- GlobRegex.TranslationFindsTheSame: patterns with the other special characters of extended regular expressions, ignoring case, and text with newlines are excluded.
- Prefetch.FormsAgree: excludes ranges that end in the last line of the address space; `Prefetch.ConstantFormIsExact` covers them.
- LogInfo.LogInfo.ASEmitAnyExtraLogInfo: after a write that fails for good, which parts of the text are lost is not stated; each is the end of a piece.
- LogInfo.LogInfo.TryToFillLogInfoBuffer: a size of zero, for which the code writes before the buffer, is excluded.
- `SetExtraLogInfoForErrors`, `EmitAnyExtraLogInfo` through stdio, and the pointers to lines that the map does not own.
- Decimals.AsItoa: the least long, whose negation overflows, is excluded.
- StackTraceName.GetStackTraceName: fewer than 2^31 - 1 files exist, so that the suffix does not overflow; other processes do not create files meanwhile.
- Utf8.TruncateUtf8: the aliasing of the returned pointer is a flag that says whether the name is in the buffer.
- XmlParser.XMLParser.EndElement: events that are not well nested raise exceptions in the source and are excluded, as is text outside all elements.
- The rest of the document converter, `GfCamera`, `GfColor`, memory mapping, symbols, debugger and malloc hooks.
