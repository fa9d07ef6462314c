# nftables: a verified model of its algorithms

This project models the parts of nftables that turn firewall rules and interval sets into what the
kernel is given, and proves what they promise. To verify it with Dafny 4.11:
`dafny verify dfyconfig.toml`.

Five parts are modelled.

* **Interval sets** (`src/intervals.c`, `src/mergesort.c`, `include/list.h`). `CircularList` and
  `MergeSort` are the circular doubly linked lists and the list sort, in place, with the order of
  ties. `Automerge`, `SetDelete` (one removal) and `DeleteCommands` say what merging and deleting compute
  on lists of ranges, and why the purge and add lists take the kernel's set to the new one; `CommandRuns` is
  any run of both.
  `IntervalLists` is the code that does it to element objects with shared bound objects.
  `Segments` is the translation to segment endpoints, `Overlap` the check without auto-merge.
* **Big numbers** (`src/mini-gmp.c`). `Bits` is the reference: bits of integers in infinite two's
  complement. `Limbs`, `Mpn` and `MpnShift` are the vectors of 64-bit limbs; `Reciprocal`, `DivLimb`,
  `Invert` and `MpnDiv` are division with reciprocals up to `mpn_div_qr`; `Mpz` and `MpzDiv` are
  signed numbers and their rounded division; `Gcdext` is the extended binary gcd; `BitLogic` the
  logical operations on sign-magnitude numbers; `Digits`, `StrOther`, `StrBits`, `StrSize` and
  `StrConv` the conversion to text and back. `Numbers` has the arithmetic that all of them use.
* **Expressions** (`src/evaluate.c`). `Payload` is loading and writing fields that do not start or
  end on a byte; `BinopTransfer` is moving an operation to the other side of a comparison, with the proof
  for right shifts; `TransferExact` says exactly when exclusive ors and left shifts may be moved.
* **Cache and errors** (`src/cache.c`, `src/mnl.c`, `src/libnftables.c`). `CacheUpdate` is the refresh
  against a kernel whose ruleset may change between any two requests, `CacheIndex` the hash index,
  `ErrorCursor` the search for the command an error belongs to.
* **Durations** (`src/datatype.c`). `TimeText` is printing and parsing them.

Code that changes things in place is modelled by classes and methods with loops, proved against
functions; what the source promises is proved about those functions, for all inputs and for any run.
A vector of limbs is an array with a position, which stands for the pointer; a method's `ghost`
parameters name what the objects it is given hold, and are not part of the code. `Wrappers` is a stock
datatype.

## Where the code does less than one would expect

* Auto-merge computes a right delta for every batch exactly when no two elements of the kernel touch
  (`Automerge.AddsExactIff`).
* A set that is declared with elements has them in the cache without the KERNEL flag until the batch is over
  (src/evaluate.c:4195-4196, 4093). A removal in the same batch that exactly matches such an element succeeds
  and leaves it in the set. A delete command that succeeds removes exactly the points it was asked to remove iff
  none of its merged removals is such a match (`DeleteCommands.SetDeleteExactIff`); a concrete one is
  `DeleteCommands.DeclaredElementStays`.
* The upper bound of a prefix after conversion to a range is the one the scans compute exactly when
  the prefix base has no bit under the mask (`IntervalLists.ToRange`).
* Moving an exclusive or with a nonzero operand changes the answer of every ordered comparison
  (`TransferExact.XorOrderIff`). It keeps that of a range iff the bounds are equal or the operand has no bit at
  or below the highest bit in which they differ (`TransferExact.XorRangeIff`).
* Moving a left shift is right for all constants and comparisons iff the expression has room for the field and
  the shift (`TransferExact.LeftShiftIff`). expr_evaluate_shift gives it the width of the field
  (src/evaluate.c:1213), so that every shift by one or more fails for some constant
  (`TransferExact.EvaluatedShiftFails`).
* The refresh keeps the cache consistent, whatever is dumped between two generations, iff the id of the first is
  not 0 and the ids are equal only if the generations are (`CacheUpdate.PassesSafeIff`);
  `CacheUpdate.ZeroGenidDuplicates` and `CacheUpdate.WrapMixes` are inputs for the two ways to fail.
* A printed duration of 10^8 days or more cannot be parsed (`TimeText.ParseUndoesPrint`).
* The comment in `mpz_gcdext` promises |s| < |u| / 2g for the two numbers as it has ordered them. That holds if
  the first is no smaller than the second (`Gcdext.CommentHolds`), and fails for 1 and 2 and for 5 and 7
  (`Gcdext.CommentFails`). What the code does establish determines both cofactors (`Gcdext.AnswerUnique`), and
  they satisfy |s| < |v| / 2g and |t| < |u| / 2g except when one number is twice the gcd or the magnitudes are
  equal (`Gcdext.BothSmallIff`).

## Model

| member | source | states |
|---|---|---|
| CircularList.AddBetween | include/list.h:53-61 | on any circular list, linking a node in between two neighbours gives the list with the node at that place, and no node outside the list changes |
| CircularList.Add | include/list.h:71-74 | the node becomes the first of the list, whose other nodes keep their order |
| CircularList.AddTail | include/list.h:85-88 | the node becomes the last of the list |
| CircularList.DelBetween | include/list.h:97-101 | linking two nodes past the one between them gives the list without it |
| CircularList.Del | include/list.h:109-114 | the list without the node; the node is out of every list |
| CircularList.Move | include/list.h:154-158 | the node leaves one list and becomes the first of another (or of the same) list |
| CircularList.MoveTail | include/list.h:165-170 | the node leaves one list and becomes the last of another |
| CircularList.Empty | include/list.h:187-190 | true iff the list has no element |
| CircularList.IsSingular | include/list.h:215-218 | true iff the list has exactly one element |
| CircularList.CutPosition | include/list.h:220-230 | two well-formed lists whose elements, one after the other, are those of the list that is cut |
| CircularList.Splice | include/list.h:260-284 | the elements of one list stand in front of those of the other, each in its old order |
| MergeSort.SpliceSorted | src/mergesort.c:73-89 | the nodes of both lists end up in one well-formed list, in the order that Merge gives; the cursor loop terminates |
| MergeSort.SpliceStep | src/mergesort.c:73-89 | one round moves exactly one cursor and keeps both lists well formed with the part merged so far |
| MergeSort.CutMiddle | src/mergesort.c:91-104 | two well-formed lists, the first with the larger half, which has (n + 1) / 2 elements |
| MergeSort.ListExprSort | src/mergesort.c:106-122 | sorting a well-formed circular list terminates and leaves a well-formed list whose elements are Sort of the old ones |
| MergeSort.MergePermutes | src/mergesort.c:73-89 | merging loses and invents nothing |
| MergeSort.MergeSorted | src/mergesort.c:73-89 | two sorted lists merge into a sorted one |
| MergeSort.MergeTies | src/mergesort.c:73-89 | among equal keys, those of the second half come first |
| MergeSort.SortPermutes | src/mergesort.c:106-122 | the result is a permutation of the input |
| MergeSort.SortSorts | src/mergesort.c:106-122 | the result is sorted by key |
| MergeSort.SortReversesTies | src/mergesort.c:106-122 | elements with equal keys come out in exactly the reverse of their input order |
| MergeSort.SortedUnique | src/mergesort.c:106-122 | sortedness and the order of ties determine the result: no other list has both |
| MergeSort.SortPlacesHeadAfterTie | src/intervals.c:456-465 | an element put at the head before the sort comes right after every element with the same or a smaller key |
| Automerge.MergeFromCovers | src/intervals.c:141-195 | auto-merge of a list sorted by low bound keeps its points exactly |
| Automerge.MergeFromSeparates | src/intervals.c:141-195 | consecutive ranges of the result are disjoint, with automerge at least one missing value apart, and in order |
| Automerge.MergeFromAccounts | src/intervals.c:68-119 | for every range, the KERNEL elements left with unchanged bounds plus the purge list are the KERNEL elements of the input |
| Automerge.MergeListExact | src/intervals.c:141-195 | the three statements above for a whole list, with auto-merge and without |
| Automerge.MergedApart | src/intervals.c:141-195 | the ranges of the result are disjoint, and with auto-merge no two of them are adjacent |
| Automerge.TouchingKept | src/intervals.c:172-188 | without auto-merge ranges that only touch are left as they are |
| Automerge.AddCommandExact | src/intervals.c:226-276 | one add to a set whose elements have any flags: the purge list is part of what the kernel has, deleting it and adding the new elements gives exactly the merged set, whose points are the old and the new ones, and existing_set->init again satisfies the precondition |
| Automerge.RunExact | src/intervals.c:226-276 | after any run of adds the kernel has exactly what the tool holds, and that covers exactly what was there or has been asked for |
| Automerge.AddsExactIff | src/intervals.c:68-119 | the delta is right for every batch iff no two elements of the kernel touch; touching ones are merged without being purged correctly |
| Automerge.EmptyAddLoses | src/intervals.c:68-119 | a concrete way it goes wrong when they do touch |
| SetDelete.RemovePlace | src/intervals.c:456-465 | the REMOVE element stands right after the last element that starts no later |
| SetDelete.DeleteOneExact | src/intervals.c:375-439 | a removal in an auto-merged set that is no exact match of an unflagged element is found iff it lies inside one element; then exactly its points go, the set stays disjoint, and an element of the kernel is purged iff it is no longer there unchanged |
| SetDelete.DeleteOneKeepsUnflagged | src/intervals.c:410-418 | an exact match of an element that is not flagged KERNEL (one that the set was declared with in the same batch) removes nothing, and succeeds |
| SetDelete.DeleteOneExactIff | src/intervals.c:410-418 | a removal that succeeds takes off exactly its points iff it is no such match |
| SetDelete.DeleteOneEffect | src/intervals.c:375-439 | what one removal does whatever the flags are: when it is found, which points go, and that kernel elements in the set and in the purge list are together those there were |
| SetDelete.DeleteOneOthers | src/intervals.c:352-373 | a removal makes no difference to whether another one, at least one value away, is found and removes anything |
| SetDelete.DeleteOnePlain | src/intervals.c:410-428 | without auto-merge a removal is found iff it is exactly an element, and then does the same |
| SetDelete.DeleteOneMatches | src/intervals.c:410-428 | after it the same removals match as before, except for that of the removed element |
| DeleteCommands.RemovalsMerged | src/intervals.c:441-454 | automerge_delete makes the removals disjoint and non-adjacent and keeps their points |
| DeleteCommands.DeleteAllExact | src/intervals.c:490-496 | any sequence of disjoint non-adjacent removals, in any order and with any flags in the set: all are found iff each lies inside an element; then exactly the points of those go that are no exact match of an unflagged element |
| DeleteCommands.DeleteAllExactIff | src/intervals.c:490-496 | so exactly the points asked for go iff there is no such match |
| DeleteCommands.SetDeleteInside | src/intervals.c:467-530 | one delete command with auto-merge on a set whose elements may touch and have any flags succeeds iff every merged removal lies inside a single element; kernel - purge + remainder is the new set, which covers what is not removed |
| DeleteCommands.SetDeleteExact | src/intervals.c:467-530 | on a set whose elements do not touch it succeeds iff every point to remove is in the set, and leaves it fit for the next command |
| DeleteCommands.SetDeleteExactIff | src/intervals.c:467-530 | a command that succeeds removes exactly the points asked for iff none of the merged removals is an exact match of an element not flagged KERNEL |
| DeleteCommands.DeclaredElementStays | src/intervals.c:410-418 | the element 1-5 that a set was declared with, deleted in the same batch: no error, and it stays |
| DeleteCommands.RunDeletesExact | src/intervals.c:467-530 | after any run of deletes the kernel has exactly what the tool holds, and that covers what was there and was not deleted by a command all of whose points were in the set |
| CommandRuns.RunCommandsExact | src/intervals.c:226-530 | after any run of adds and deletes, with the set read again and sorted before each, kernel and tool have the same elements, and their points are what the commands mean as set operations |
| DeleteCommands.DeleteAllPlain | src/intervals.c:490-496 | any sequence of removals without auto-merge: all are found iff each is exactly an element and no element of the kernel is removed twice; what then remains |
| DeleteCommands.SetDeletePlain | src/intervals.c:467-530 | one delete command without auto-merge: when it succeeds, which points go, and kernel - purge + remainder is the new set |
| IntervalLists.ToRange | src/intervals.c:14-59 | a plain value becomes the range from it to itself; a prefix becomes the range of exactly the values that agree with its base in the leading bits, iff the base has no bit under the mask; no other object changes |
| IntervalLists.AutomergeCtx.PurgeElem | src/intervals.c:68-76 | the element moves to the end of the purge list; both lists hold what they should |
| IntervalLists.AutomergeCtx.RemoveOverlappingRange | src/intervals.c:78-88 | a covered element is purged if the kernel has it, else freed, with init->size |
| IntervalLists.AutomergeCtx.MergeRanges | src/intervals.c:95-119 | two elements become one with the joint range; which of the two objects survives, what is purged, and init->size |
| IntervalLists.AutomergeCtx.Round | src/intervals.c:152-192 | one round on element objects whose bound objects may be shared does what one round on ranges does, and keeps prev and its cached bounds |
| IntervalLists.AutomergeCtx.SetelemAutomerge | src/intervals.c:141-195 | the list and the purge list come out as MergeList gives them, and init->size drops by the number of elements freed |
| IntervalLists.RoundMerges | src/intervals.c:152-192 | one round of the loop is one step of the specification |
| IntervalLists.IntervalSet.RemoveElem | src/intervals.c:278-286 | a copy of the element goes to the purge list iff it is KERNEL; the element and its bounds are not shared with it |
| IntervalLists.IntervalSet.AdjustElemLeft | src/intervals.c:288-305 | the low part is cut off, with the removed element's bound object taken over and increased in place; no other element changes its bounds |
| IntervalLists.IntervalSet.AdjustElemRight | src/intervals.c:307-324 | the high part is cut off, likewise |
| IntervalLists.IntervalSet.SplitRange | src/intervals.c:326-350 | both pieces of a split, from the two bound objects of the removed element |
| IntervalLists.IntervalSet.SetelemAdjust | src/intervals.c:352-373 | which of the three cases applies, or -1 unless the removal is properly inside; the pieces, where they stand, and the purged copy |
| IntervalLists.IntervalSet.SetelemDelete | src/intervals.c:375-439 | the scan with prev finds the REMOVE element and does what DeleteAt gives; it fails iff DeleteAt does |
| Segments.Scan0AllOnes | src/intervals.c:702-720 | the test with mpz_scan0 holds for the largest key only |
| Segments.SetExpr.SetToIntervals | src/intervals.c:652-747 | the loop with the waiting end element produces Intervals, and counts the new elements |
| Segments.FirstEntry | src/intervals.c:628-688 | the entries start with an INTERVAL_END at 0 iff the command adds, the lowest range starts above 0, the set has no root, and it is anonymous, empty, not yet there, or created with these elements; otherwise with the low bound of the first range |
| Segments.EntriesExact | src/intervals.c:652-747 | which keys have a start and which an end: the low bounds, and the ends of the ranges plus one, unless that is past the largest key or, in an anonymous set, the next range starts there |
| Segments.MembershipPreserved | src/intervals.c:652-747 | for named and anonymous sets, with or without a first segment: x is in some range iff the last entry at or below x exists and is not INTERVAL_END |
| Segments.RangesReadBack | src/intervals.c:652-747 | the ranges can be read back from the entries, adjacent ranges as separate ones |
| Segments.IntervalsAscend | src/intervals.c:689-700 | keys increase strictly for an anonymous set; a named set has at most an end and a start with the same key |
| Overlap.SetelemOverlap | src/intervals.c:532-602 | an error iff two elements overlap without being the same range, put on the first two neighbours that do, with the element chosen by the KERNEL flags |
| Overlap.SetOverlap | src/intervals.c:605-626 | a command is accepted iff no value is in two elements with different bounds; what is added is exactly what is not flagged KERNEL, and the existing set, still sorted, has all of it flagged |
| Overlap.RunAccepted | src/intervals.c:605-626 | a run of adds is accepted iff no two elements of all of them clash, in whatever commands they come |
| Bits.BitwiseBit | src/mini-gmp.c:3630-3842 | the reference operation on infinite two's complement works on each bit |
| Bits.SameBits | src/mini-gmp.c:3630-3842 | a number is determined by its bits, so that reference is the only one |
| Limbs.Umul | src/mini-gmp.c:114-137 | gmp_umul_ppmm: the two limbs are exactly the product |
| Limbs.AddTwo | src/mini-gmp.c:98-104 | gmp_add_ssaaaa: addition modulo B^2 |
| Limbs.SubTwo | src/mini-gmp.c:106-112 | gmp_sub_ddmmss: subtraction modulo B^2 |
| Mpn.AddN | src/mini-gmp.c:415-432 | sum with carry of two vectors, also in place; no other limb changes |
| Mpn.Add1 | src/mini-gmp.c:396-413 | sum of a vector and a limb |
| Mpn.AddLong | src/mini-gmp.c:434-445 | sum of vectors of different length |
| Mpn.SubN | src/mini-gmp.c:468-484 | difference with borrow |
| Mpn.Sub1 | src/mini-gmp.c:447-466 | difference of a vector and a limb |
| Mpn.SubLong | src/mini-gmp.c:486-497 | difference of vectors of different length |
| Mpn.Mul1 | src/mini-gmp.c:499-520 | product with a limb |
| Mpn.AddMul1 | src/mini-gmp.c:522-546 | multiply and add in place |
| Mpn.SubMul1 | src/mini-gmp.c:548-572 | multiply and subtract in place |
| Mpn.MulVectors | src/mini-gmp.c:574-595 | the product of two vectors |
| Mpn.Cmp | src/mini-gmp.c:355-364 | compares the numbers |
| Mpn.NormalizedSize | src/mini-gmp.c:375-381 | the size without leading zero limbs |
| Mpn.NormalizedUnique | src/mini-gmp.c:375-381 | a number has only one normalized vector |
| Mpn.CopyI | src/mini-gmp.c:340-346 | copies the limbs |
| MpnShift.CountLeadingZeros | src/mini-gmp.c:79-89 | gmp_clz: the shift that brings the highest one bit to the top |
| MpnShift.CountTrailingZeros | src/mini-gmp.c:91-96 | gmp_ctz: the number of zeros below the lowest one bit |
| MpnShift.LShift | src/mini-gmp.c:609-637 | a left shift of a vector multiplies it, with the limb shifted out |
| MpnShift.RShift | src/mini-gmp.c:639-664 | a right shift of a vector divides it, with the bits shifted out |
| MpnShift.PowerOfTwo | src/mini-gmp.c:953-954 | the test d & (d - 1) holds for powers of two only |
| Reciprocal.Candidate2 | src/mini-gmp.c:139-156 | the candidate quotient is at most one off, and its remainder modulo B tells which way |
| Reciprocal.Candidate3 | src/mini-gmp.c:158-183 | the same for three limbs by two |
| Reciprocal.Candidate3Fits | src/mini-gmp.c:158-162 | the product and sum that the candidate comes from do not overflow two limbs |
| Reciprocal.Inverse2Is | src/mini-gmp.c:812-813 | the reciprocal is floor((B^2-1)/d) - B |
| Reciprocal.Inverse3Is | src/mini-gmp.c:731-734 | the reciprocal is floor((B^3-1)/d) - B |
| DivLimb.UdivQrnndPreinv | src/mini-gmp.c:139-156 | exact quotient and remainder for every normalized divisor and every dividend that fits |
| DivLimb.UdivQr3by2 | src/mini-gmp.c:158-183 | exact quotient and remainder of three limbs by two |
| Invert.InvertHigh | src/mini-gmp.c:743-783 | the high half of the reciprocal with its remainder, after at most two adjustments |
| Invert.InvertLow | src/mini-gmp.c:785-810 | the low half: the reciprocal of a single limb |
| Invert.InvertSecond | src/mini-gmp.c:812-836 | the corrections for the second limb |
| Invert.NeverExact | src/mini-gmp.c:829-835 | the case tl == u0 that the last comparison leaves out cannot occur |
| Invert.Invert3by2 | src/mini-gmp.c:735-839 | mpn_invert_3by2 is floor((B^3-1)/(B u1 + u0)) - B for every normalized u1 and every u0 |
| Invert.InvertLimb | src/mini-gmp.c:735-839 | with u0 = 0 it is floor((B^2-1)/u1) - B |
| MpnDiv.Div1Invert | src/mini-gmp.c:851-861 | normalization shift and reciprocal of a limb |
| MpnDiv.DivQr1Preinv | src/mini-gmp.c:915-946 | exact quotient and remainder of any vector by any limb, also in place and without a quotient |
| MpnDiv.DivQr1 | src/mini-gmp.c:948-976 | the same, with the case of a power of two |
| MpnDiv.DivQr2Preinv | src/mini-gmp.c:978-1027 | exact quotient and remainder by two limbs; the asserted low bits of the remainder are zero |
| MpnDiv.LargestQuotient | src/mini-gmp.c:1072-1077 | where the two high limbs agree the quotient limb is B - 1 |
| MpnDiv.NearQuotient | src/mini-gmp.c:1078-1095 | otherwise the quotient limb from three limbs is at most one too large |
| MpnDiv.MaxRound | src/mini-gmp.c:1072-1077 | a round with q = B - 1 leaves the right remainder |
| MpnDiv.NearRound | src/mini-gmp.c:1078-1095 | a round with the add-back step leaves the right remainder |
| MpnDiv.DivQrPi1 | src/mini-gmp.c:1042-1103 | N = Q D + R with 0 <= R < D, for three limbs and more |
| MpnDiv.ShiftedHigh | src/mini-gmp.c:892-910 | the two high limbs of the shifted divisor, computed from three limbs |
| MpnDiv.DivQrInvert | src/mini-gmp.c:882-911 | shift and reciprocal for any divisor |
| MpnDiv.DivQrPreinv | src/mini-gmp.c:1105-1137 | the three cases, with normalization and the remainder shifted back without loss |
| MpnDiv.DivQr | src/mini-gmp.c:1139-1158 | for every N and nonzero D with nn >= dn: N = Q D + R and 0 <= R < D |
| Mpz.Set | src/mini-gmp.c:1500-1515 | copies a number, also onto itself |
| Mpz.AbsAdd | src/mini-gmp.c:1942-1962 | the sum of the magnitudes, normalized, also in place |
| Mpz.AbsSub | src/mini-gmp.c:1964-1987 | the difference of the magnitudes, with its sign |
| Mpz.AddNumbers | src/mini-gmp.c:1989-2000 | mpz_add on all signs and aliasings |
| Mpz.SubNumbers | src/mini-gmp.c:2002-2013 | mpz_sub on all signs and aliasings |
| Mpz.AddUi | src/mini-gmp.c:1915-1922 | mpz_add_ui |
| Mpz.SubUi | src/mini-gmp.c:1924-1931 | mpz_sub_ui |
| MpzDiv.RoundedUnique | src/mini-gmp.c:2171-2281 | floor, ceil or trunc rounding determines the quotient |
| MpzDiv.FromMagnitudes | src/mini-gmp.c:2249-2267 | which adjustment of the truncated quotient each rounding needs |
| MpzDiv.QuotientSize | src/mini-gmp.c:2233-2250 | the quotient has at most one leading zero limb |
| MpzDiv.DivSmall | src/mini-gmp.c:2196-2223 | a divisor with more limbs: quotient 0, 1 or -1 |
| MpzDiv.DivideNumbers | src/mini-gmp.c:2171-2281 | mpz_div_qr: the rounding is right for all signs, whichever results are wanted and whichever operands they overwrite; returns 1 iff the remainder is nonzero |
| Gcdext.CofactorsSolve | src/mini-gmp.c:2877-2887 | the invariant in the form 2^p tu = s1 u - t1 v, 2^p tv = -s0 u + t0 v |
| Gcdext.StartCofactors | src/mini-gmp.c:2889-2913 | it holds after the initial division |
| Gcdext.Round | src/mini-gmp.c:2915-2948 | each round of the binary loop keeps it, keeps both numbers odd and makes them smaller |
| Gcdext.OddGcd | src/mini-gmp.c:2907-2952 | the loop ends with the odd part of the gcd, of which both numbers are multiples |
| Gcdext.BothEven | src/mini-gmp.c:2967-2974 | the step before a halving leaves both cofactors even |
| Gcdext.Eliminate | src/mini-gmp.c:2957-2975 | all powers of two are eliminated and the first cofactor stays within its bounds |
| Gcdext.Choose | src/mini-gmp.c:2977-2983 | the smaller of the two first cofactors |
| Gcdext.SwappedIff | src/mini-gmp.c:2868-2875 | the two numbers are swapped iff the first has fewer limbs, as for mpz_gcdext with the larger one in front |
| Gcdext.Gcdext | src/mini-gmp.c:2821-3001 | g = gcd(u, v) = s u + t v for all signed u and v, and -abs(v) <= 2 s g < abs(v) for the sign-adjusted cofactor of the number that it puts in front |
| Gcdext.AnswerUnique | src/mini-gmp.c:2821-3001 | no other result satisfies that |
| Gcdext.BothSmallIff | src/mini-gmp.c:2977-2983 | both cofactors are less than half of the other number divided by g, iff neither number is 2g and the magnitudes differ |
| Gcdext.CommentHolds | src/mini-gmp.c:2977-2983 | the bound in the comment holds if the number in front is no smaller than the other |
| Gcdext.CommentFails | src/mini-gmp.c:2977-2983 | it fails for (1, 2) and (5, 7), with the results computed there |
| BitLogic.NextLimb | src/mini-gmp.c:3672-3676 | one limb of the two's complement of a sign-magnitude number |
| BitLogic.UnderwayNext | src/mini-gmp.c:3669-3693 | what has been stored and what is left of the operation make up the result, limb after limb |
| BitLogic.LogicLimbs | src/mini-gmp.c:3630-3700 | the loops, the case of a short second operand, and the final carry limb |
| BitLogic.Logic | src/mini-gmp.c:3630-3842 | mpz_and, mpz_ior and mpz_xor equal the operation on infinite two's complement for all signed operands of any lengths, normalized |
| StrOther.GetBaseInfo | src/mini-gmp.c:1187-1200 | the largest power of the base that fits in a limb |
| StrOther.LimbGetStr | src/mini-gmp.c:1243-1262 | the digits of a limb without leading zeros |
| StrOther.GetStrOther | src/mini-gmp.c:1264-1306 | the digits of any number, most significant first, without leading zeros |
| StrOther.SetStrOther | src/mini-gmp.c:1361-1397 | the limbs of any digits; a leading zero limb only for zero; never more limbs than allocated |
| StrBits.NextDigit | src/mini-gmp.c:1226-1239 | the next digit in a power-of-two base, also across two limbs |
| StrBits.GetStrBits | src/mini-gmp.c:1212-1239 | all digits, and exactly as many as there are |
| StrBits.SetStrBits | src/mini-gmp.c:1328-1357 | the normalized limbs of any digits |
| StrSize.SizeInBase | src/mini-gmp.c:4005-4056 | mpz_sizeinbase is exactly the number of digits, in every base |
| StrSize.SizeUnique | src/mini-gmp.c:4005-4056 | a number has only one number of digits |
| StrConv.GetStr | src/mini-gmp.c:4058-4121 | mpz_get_str writes the text of the number and a NUL within a buffer of mpz_sizeinbase + 2 characters, its own or the one it is given; NULL iff the base is above 36 |
| StrConv.SetStr | src/mini-gmp.c:4123-4225 | mpz_set_str reads blanks, sign, prefix and digits as Parse says, or fails and leaves zero |
| StrConv.ReadBack | src/mini-gmp.c:4058-4225 | the text of a number is parsed to the number in every base 2..36 |
| StrConv.WriteAndRead | src/mini-gmp.c:4058-4225 | mpz_set_str(mpz_get_str(u, b), b) = u for every signed u, every base 2..36 and both cases |
| StrConv.ReadBackDecimal | src/datatype.c:379 | a decimal text is read back with base 0 too |
| StrConv.ReadHexadecimal | src/mini-gmp.c:4141-4157 | with base 0 the text of a number in base 16 after 0x or 0X is read as the number, with either sign |
| StrConv.ReadBinary | src/mini-gmp.c:4141-4157 | the same for base 2 after 0b or 0B |
| StrConv.ReadOctal | src/mini-gmp.c:4141-4157 | the same for base 8 after a single 0 |
| StrConv.BlanksSkipped | src/mini-gmp.c:4135-4136 | white space in front makes no difference, whatever the base |
| StrConv.BlankAnywhere | src/mini-gmp.c:4169-4192 | with a given base, white space makes no difference anywhere in the text |
| StrConv.ParsedIff | src/mini-gmp.c:4138-4199 | after white space in front and a sign, a text is accepted iff it has a digit and nothing but digits of the base, in either case, and white space |
| Payload.OffsetShift | src/evaluate.c:473-487 | the shift and the extra length place the end of the field in the bytes that are loaded |
| Payload.EvaluateBits | src/evaluate.c:489-543 | for every packet ((load & mask) >> shift) is the value of the field |
| Payload.LoadBit | src/evaluate.c:489-543 | a load is the big endian number of the packet's bits |
| Payload.StmtEvaluatePayload | src/evaluate.c:2672-2784 | for every packet exactly the field's bits are set to the value; with a checksum the window has an even byte count, and a widened one starts on an even byte |
| Payload.FoldExact | src/evaluate.c:1139-1192 | the shifted constant is not truncated by the width of the window |
| BinopTransfer.EvalCtx.FoldConstants | src/evaluate.c:1139-1192 | constant folding: when the range checks of expr_evaluate_integer and expr_evaluate_shift refuse it, and what it computes otherwise |
| BinopTransfer.EvalCtx.CanTransfer | src/evaluate.c:1949-1985 | when a transfer is possible, and the widened context length |
| BinopTransfer.EvalCtx.TransferOne | src/evaluate.c:1987-2026 | the inverse operation on every value of a constant |
| BinopTransfer.FoldsIff | src/evaluate.c:1139-1219 | exactly when the inverse operation can be evaluated on a constant of the width of the packet side: a right shift always, a left shift if it is below the width, an exclusive or if the operand fits |
| BinopTransfer.ShiftFolds | src/evaluate.c:1949-1985 | in the context that a right shift has widened, no constant is truncated |
| BinopTransfer.HandleLhs | src/evaluate.c:2028-2053 | the value of the new packet side is the old value shifted back (right shift), or what the operation was applied to (exclusive or, left shift), for every packet |
| BinopTransfer.MaskedShift | src/evaluate.c:2028-2053 | the mask keeps exactly what the shift would have kept |
| BinopTransfer.TransferBinop | src/evaluate.c:2055-2118 | an and or a right shift is never refused for a value, a range or an anonymous set; an exclusive or iff its operand does not fit the context; a left shift iff it is not below the width, or some value has a bit among those shifted out. Then both sides are those of the inverse operation; the masks are in place for right shifts |
| BinopTransfer.ShiftTransferPreserves | src/evaluate.c:1949-2118 | every comparison (equal, ordered, ranges, sets) has the same answer after the shift has been moved |
| BinopTransfer.FieldComparison | src/evaluate.c:489-543 | so a comparison of a bit field has the field's answer for every packet |
| TransferExact.XorTransferPreserves | src/evaluate.c:1949-2118 | == and != against values, ranges that survive, and sets of these have the same answer after the transfer of an exclusive or |
| TransferExact.XorRangeIff | src/evaluate.c:1987-2026 | a range survives the transfer iff its bounds are equal or the operand has no bit at or below the highest bit in which they differ |
| TransferExact.AlignedBits | src/evaluate.c:1987-2026 | that condition, bit by bit |
| TransferExact.XorRangesIff | src/evaluate.c:1987-2026 | all ranges survive iff the operand is 0 |
| TransferExact.XorOrderIff | src/evaluate.c:1987-2026 | an ordered comparison survives, whatever the value, iff the operand is 0 |
| TransferExact.XorRangeFails | src/evaluate.c:1987-2026 | a range and an ordered comparison of a two-bit key that do not |
| TransferExact.LeftShiftIff | src/evaluate.c:1987-2026 | all comparisons with constants that are accepted have the same answer after the transfer of a left shift iff the width of the field and the shift together fit the expression |
| TransferExact.EvaluatedShiftFails | src/evaluate.c:1194-1219 | expr_evaluate_shift makes the expression as wide as the field: comparison with 0 fails |
| CacheUpdate.NftCache.Attempt | src/cache.c:1159-1201 | one pass, with the check of every message of the dumps against the id (check_genid), does what OnePass gives |
| CacheUpdate.NftCache.UpdateFrom | src/cache.c:1147-1202 | the replay loop does pass by pass what Call gives, whatever the kernel answers |
| CacheUpdate.PassExact | src/cache.c:1147-1202 | one pass: on return 0 all dumps are from the one generation stored in genid and flags is the requested set, or the cache was up to date, or it is empty before a flush; on -1 it is empty with genid 0 |
| CacheUpdate.ReturnsComplete | src/cache.c:1127-1202 | whatever is asked for, a pass that returns 0 leaves a cache with at least that, with the id of the kernel's generation |
| CacheUpdate.ReusedIff | src/cache.c:1127-1165 | unless a flush is asked for, a cache is returned as it is, whatever the kernel answers, iff it need not be refreshed, has all that is asked for, and has the nonzero id of the kernel's generation |
| CacheUpdate.PassOutcome | src/cache.c:1159-1202 | otherwise the first dump that is not accepted decides between an error and starting again; if all are accepted the cache has what is asked for iff the id has not changed |
| CacheUpdate.FlushedOutcome | src/cache.c:1170-1176 | before a flush nothing is dumped, and the cache says no more than that it may be updated |
| CacheUpdate.EmptyOutcome | src/cache.c:1159-1202 | a request for nothing ends well iff the id has not changed |
| CacheUpdate.PassesSafeIff | src/cache.c:1147-1202 | whatever is asked for and dumped between two generations, a pass that returns leaves a consistent cache iff the first id is not 0 and equal ids mean equal generations |
| CacheUpdate.CallExact | src/cache.c:1147-1202 | the same for a whole call, however often it starts again |
| CacheUpdate.CallsConsistent | src/cache.c:1147-1202 | after any run of calls the cache never mixes generations |
| CacheUpdate.FewGenerations | src/mnl.c:158-172 | fewer than 2^16 generations in a pass are enough for that |
| CacheUpdate.ZeroGenidDuplicates | src/cache.c:1167-1168 | a generation with id 0, with which the cache is filled twice |
| CacheUpdate.WrapMixes | src/mnl.c:158-172 | two generations with the same 16-bit id, which are mixed |
| CacheUpdate.NftCache.Release | src/cache.c:1214-1219 | the cache is empty |
| CacheIndex.Cache.Add | src/cache.c:1237-1241 | adds to the list and to the bucket of the name's hash; the index still agrees with the list |
| CacheIndex.Cache.Del | src/cache.c:1243-1247 | takes off both; the index still agrees with the list |
| CacheIndex.Cache.Find | src/cache.c:446-463 | finds the first match in the list of all items |
| CacheIndex.Cache.IndexExact | src/cache.c:433-463 | an item is in the bucket of its name's hash iff it is on the list, and in no other |
| CacheIndex.BucketSuffices | src/cache.c:568-580 | the first match in the bucket is the first match in the list |
| TimeText.TimePrint | src/datatype.c:914-945 | the printed text: days, hours, minutes, seconds and milliseconds, or whole seconds |
| TimeText.PrintedUnits | src/datatype.c:923-945 | no unit with the number 0 is printed, and nothing at all for 0 |
| TimeText.TimeParse | src/datatype.c:963-1046 | the loop reads what Parsed says, with its errors |
| TimeText.ParseUndoesPrint | src/datatype.c:914-1046 | the printed text parses to exactly ms iff the day count has at most 8 digits; otherwise it is refused |
| TimeText.ParseUndoesSeconds | src/datatype.c:918-921 | the text in seconds parses to ms iff ms is whole seconds with at most 8 digits |
| TimeText.ScanMinute | src/datatype.c:963-1046 | the m of minutes is never taken for the m of ms |
| TimeText.TokensParsed | src/datatype.c:963-1046 | numbers of at most 8 digits with units other than ms, in any order and no unit twice, add up; digits after the last of them are ignored |
| TimeText.MillisParsed | src/datatype.c:995-1006 | milliseconds may follow at the end |
| TimeText.PlainParsed | src/datatype.c:1035-1037 | a number of at most 8 digits without a unit means seconds |
| TimeText.TwiceRefused | src/datatype.c:976-1024 | after any such numbers, a unit that has been used is an error, whatever follows |
| TimeText.LongRefused | src/datatype.c:1029-1030 | so is a number of more than 8 digits |
| TimeText.OthersRefused | src/datatype.c:1025-1027 | so is a character that is neither a digit nor one of the units |
| ErrorCursor.AssignSeqnums | src/libnftables.c:39-50 | sequence numbers increase strictly, above that of the batch |
| ErrorCursor.MatchError | src/libnftables.c:67-91 | one error, from the cursor on: the reports are those of a scan from the first command, and errno is that of the error iff it is reported |
| ErrorCursor.MatchErrors | src/libnftables.c:67-91 | for any sequence of errors the reports are those of a full scan per error, and errno is that of the last one reported |
| ErrorCursor.FullScanExact | src/libnftables.c:67-91 | every command error is reported exactly once, on its command; every batch error once on every command |

## Left out

- IntervalLists.IntervalSet.SetelemDelete: a successful setelem_adjust is not followed by the test of the REMOVE flag of the element it has just freed (src/intervals.c:419-428); the branch is taken only without auto-merge.
- IntervalLists.AutomergeCtx.SetelemAutomerge: the list is a sequence of element objects; that the list operations keep circular lists well formed is proved in CircularList.
- DeleteCommands.SetDeleteExact: the outer loop of set_delete and the command lists are functions on lists of ranges; the loop inside is IntervalLists.
- Automerge.AddCommandExact: the outer loop of set_automerge is a function on lists of ranges; adds after a delete in the same batch are not covered, because the list is no longer sorted then. What the kernel has is counted by the KERNEL flags; that it also has the elements a set was declared with in the same batch, and gets them a second time, is not modelled.
- Segments.SetExpr.SetToIntervals: catch-all elements, map data and host endian keys; `init->size` counts what the source adds to it, which is not the length of the list.
- Overlap.SetOverlap: the elements are ranges; the error texts are not modelled.
- MpnDiv.DivQr: temporary vectors are not freed; division by the functions of libgmp, when nftables is built with it, is not part of this model.
- Mpz.AbsAdd: only the operations that division, logic and text conversion need; multiplication of signed numbers, shifts and roots are left out.
- Gcdext.Gcdext: works on the values of its numbers, as mpz_add, mpz_sub, mpz_tdiv_qr and mpz_mul_2exp compute them; exactness of the divisions is proved, the limbs are not modelled.
- StrConv.GetStr: the digits are a sequence, as many as characters are written to the buffer, until they are replaced by their characters; the source keeps them in the buffer itself.
- StrConv.SetStr: a text has no NUL character; isspace() is that of the C locale.
- Payload.StmtEvaluatePayload: constant values of big endian fields; protocol dependencies, which field needs a checksum, and the limit of 128 bits for a register are left to the caller.
- BinopTransfer.TransferBinop: keys are big endian integers; conversions of byte order, data types and error texts are left out. mpz_get_uint8 reads the shift count modulo 256, which is the count itself for all registers.
- CacheUpdate.NftCache.UpdateFrom: the kernel is a sequence of answers; a request for the generation id that fails, and leaves the last id standing, is not modelled.
- CacheIndex.Cache.Find: one find for tables, chains, sets, objects and flowtables, which differ in what has to match besides the name; the lists are sequences, as proved in CircularList.
- TimeText.TimeParse: numbers are unbounded; with at most 8 digits per unit none of the source's can overflow.
- ErrorCursor.MatchErrors: do_command, the batch and freeing the errors; there are fewer than 2^32 - 1 commands.
- Netlink sockets, libmnl and libnftnl, JSON, the parser, name resolution, reference counts beyond shared bounds, memory allocation, floating point and primality in mini-gmp.
- mpz_export and mpz_import: bytes are written and read as big endian numbers; word order and byte swapping are left out.
- string_distance in src/misspell.c: its table is indexed with a stride that makes rows overlap, so there is no edit distance to state.
