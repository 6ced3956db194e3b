# Sagittarius Scheme runtime: verified core algorithms

This project models the parts of the Sagittarius Scheme runtime (written in C) in which a small slip changes
answers: structural equality of cyclic data, the compiled-code cache, bignum number theory and printing, the
peephole code builder, class linearization, the library lock, and the hash table, character set and buffered
port that everything else stands on.  The models keep the C code's branches, constants and order of steps;
what changes in place there changes in place here.

| files | source | main results |
|---|---|---|
| `Objects`, `Walk`, `UnionFind`, `EqualRuns`, `Equal`, `EqualSlow`, `EqualBeyond`, `EqualPositive` | `src/compare.c` | `equal?` terminates on cyclic heaps and answers "same unfolding", as long as there are at most forty vectors; how far its precheck goes, and which difference it meets first; beyond them it answers right when no random budget is zero, and ends when there is no cycle |
| `CacheFormat`, `CacheGraph`, `CacheSpec`, `CacheRoundTrip`, `Cache` | `src/cache.c` | reading back what the writer emitted consumes exactly those bytes and rebuilds the graph with its sharing; an object is marked as shared exactly when two paths lead to it |
| `Window`, `Montgomery`, `OddExpt`, `ModExpt` | `src/bignum.c` | modular exponentiation for odd and even moduli, for any window width |
| `Sqrt`, `Gcd`, `LogIor`, `Radix` | `src/bignum.c`, `src/number.c` | integer square root, binary gcd, two's complement OR, printing and reading in a radix |
| `Flonum`, `FlonumGrid`, `FlonumReader`, `FlonumPower`, `FlonumText` | `src/number.c` | printed flonums are the shortest and closest decimals of their interval, and nearest to the flonum for all flonums but one; the reader ends at the nearest flonum, except where one operation with 1.0e23 stands in for it, and exactly which numbers that misses; flonums from 2^-948 to 2^952 come back from their text otherwise |
| `Code`, `CodeBuilder` | `src/code.c` | finished code runs like the instructions that were put, from the start and from each label; which of them are combined is determined |
| `Clos` | `src/clos.c` | the merge succeeds exactly when a linear order exists, and gives the one that prefers the earlier lists; every defined class keeps its ancestors' orders |
| `LibraryLock`, `LibraryProgress` | `src/library.c` | mutual exclusion in every interleaving of any number of threads; a free lock is taken, and every lock comes free exactly while no terminated thread holds MUTEX |
| `Hashtable`, `Port` | `src/hashtable.c`, `src/port.c` | a finite map through growth; exact byte streams |
| `RedBlack`, `RedBlackDeletion`, `Ranges`, `RangeTree`, `RangeLookup`, `Charset` | `src/rbtree.c`, `src/charset.c` | balanced trees as ordered maps, and exactly when they stay balanced; exactly when adding to and complementing a character set does what it should |

`Arith`, `Modular`, `Bits` and `Words` hold the arithmetic the number modules share.

What the runtime takes from outside becomes a parameter that is quantified over: the floating-point scale
estimate of `double_print`, rounded flonum arithmetic, the split estimate of the divide-and-conquer printer, the pattern of short reads and
partial writes, the instruction set and its combination table, hash functions, and the interleaving of threads.

Nine places where the code and its purpose part are stated as results, each with an input and with the condition
under which the code is right.

- `Sg_CharSetAddRange` and `Sg_CharSetComplement` look at a tree entry after they deleted it.  Deleting an entry
  with two children moves its successor into it, so that a wrong range is read and the successor stays inside of the
  grown range, where it hides what lies behind it from the lookup.  Adding a range can put characters into the set
  that do not belong there, and can take members out.  Exact conditions say when the lookup finds the union, when it
  loses nothing, when the ranges stay normal, and when the complement is right (`RangeLookup.AddToFinds`,
  `RangeTree.AddToMeans`, `RangeTree.FlipsMeans`; `RangeTree.AddingAddsTooMuch`, `RangeLookup.AddingLoses`,
  `RangeLookup.AddingTakesOut`, `RangeTree.ComplementingLeavesIn`).
- `fix_after_deletion` does not colour the sibling of a short left child red, nor the node it stops at black, so that a
  deletion can unbalance the tree (`RedBlackDeletion.DeleteIsRedBlack`, `RedBlackDeletion.DeletingUnbalances`).
- A thread that terminates while it holds MUTEX shuts all others out of the library lock for ever
  (`LibraryProgress.NoDeadlock`, `LibraryProgress.NeverEnters`).
- `slow_p` does not test that the object opposite a string is a string.  The call goes wrong exactly where the budget of
  the precheck is used up and the first difference of the walk behind it is a string opposite something else
  (`Equal.EqualP`, `EqualSlow.FirstDifferenceDecides`; `Equal.StringIsMisread`).
- Beyond forty vectors `equal?` may answer that unequal objects are equal, or never answer.  A wrong answer needs a
  random budget of zero, and a call that never ends needs a cycle; what is answered in the negative is always right
  (`EqualPositive.PositiveIsRight`, `EqualPositive.AcyclicEnds`, `Equal.NegativeIsRight`; `EqualBeyond.WrongAnswer`,
  `EqualBeyond.NoAnswer`).
- `Sg_BignumModExpt` answers 1 for a zero base with a positive exponent, which is right only for modulus 1
  (`ModExpt.BignumModExpt`, `ModExpt.ZeroBaseIsWrong`).
- `double_print` tests for the exponent -1023 although decoding gives -1074 for the smallest flonums, so that the
  interval of exactly one flonum holds decimals that are nearest to another one (`FlonumGrid.IntervalIsNear`).
- `read_real` trusts one operation with a power of ten up to the 23rd, but 10^23 is no flonum: 25455 * 10^-23, for
  one, is read as the wrong flonum.  The right bound is 22, and at the 23rd power a number is read right exactly when
  the remainder of its significand leaves room for the error of 1.0e23 (`FlonumReader.GuardIsExact`,
  `FlonumReader.RoomIsExact`; `FlonumReader.OneOperationIsWrong`).
- The cache reader interns literal strings, so that two equal strings that were distinct come back as one object
  (`CacheRoundTrip.SharingIsExact`, `Cache.EqualStringsBecomeOne`).

## Model

| member | source | states |
|---|---|---|
| `Objects.SameUnfoldingIsBisimilarity` | src/compare.c:948-983 | two objects of a finite heap, cyclic or not, unfold alike exactly when some bisimulation relates them |
| `Equal.PreIsRight` | src/compare.c:513-617 | a negative precheck means different unfoldings; a positive one with budget left means equal unfoldings: nothing was cut off |
| `Equal.PreFollows` | src/compare.c:513-617 | the precheck answers what the lock-step walk finds, left to right, that its budget pays for: each pair entered and each element visited costs one, and what cannot be paid for is only looked at |
| `Equal.WalkExists` | src/compare.c:513-617 | there is such a walk for every heap, cyclic too, and every budget |
| `Equal.CutOffIsUsedUp` | src/compare.c:962-973 | the precheck is cut off exactly when the walk uses up all its visits and meets no difference that far |
| `Equal.ShortIsDecided` | src/compare.c:962-973 | a walk that ends with fewer visits, or meets a difference with as many, is decided by the precheck |
| `Partitions.MergeAllIsClosure` | src/compare.c:794-835 | after any run of merges two objects have the same label exactly when the equivalence closure of the merged pairs relates them |
| `Partitions.MergeDropsOneClass` | src/compare.c:794-835 | joining two different classes leaves exactly one class fewer, the measure of termination |
| `BoxForest.UnionFind.Find` | src/compare.c:773-792 | path splitting ends at the root of the box, keeps the forest acyclic, and changes no box's root and no weight |
| `BoxForest.UnionFind.Attach` | src/compare.c:820-832 | linking one root below another moves exactly the boxes of the first tree to the second root |
| `BoxForest.UnionFind.Join` | src/compare.c:794-835 | the forest and the table represent the merged partition; true exactly when the first was known and the two were already together |
| `BoxForest.UnionFind.Union` | src/compare.c:837-844 | every call keeps the forest, merges the two classes and nothing else, and reports whether they were one class before |
| `BoxForest.UnionFind.TogetherInTable` | src/compare.c:794-835 | two different objects share a class only if the table knows both |
| `Equal.ExploredIsBisimulation` | src/compare.c:846-946 | when every merged pair was explored, all related objects unfold alike |
| `Equal.MergedAreMatched` | src/compare.c:846-946 | being matched child by child extends from the merged pairs to whole classes |
| `Equal.MergePays` | src/compare.c:846-946 | a merge of two containers lowers the number of classes and pays for the budget a vector costs |
| `Equal.Assume` | src/compare.c:837-865 | assuming two containers equal either finds them already assumed or records one more pair |
| `Equal.EP` | src/compare.c:628-642 | a negative verdict comes from a difference of its kind; otherwise the objects are related and everything assumed on the way was explored; the run is the one that `EqualRuns.EP` describes |
| `Equal.SlowP` | src/compare.c:846-946 | the same for the forest-recording comparison, with the string branch that takes any object for a string |
| `Equal.SlowPair` | src/compare.c:853-865 | the same for two pairs, car before cdr |
| `Equal.SlowVector` | src/compare.c:866-890 | the same for two vectors of equal length |
| `Equal.Interleave` | src/compare.c:948-955 | started on an empty forest, a budget means "same unfolding", and a negative verdict a difference of its kind |
| `Equal.EqualP` | src/compare.c:962-983 | with at most forty vectors `equal?` terminates and is true exactly when the two objects unfold alike; it reads something as a string that is none only where a string meets something else and the walk uses up the visits of the precheck, and always when nothing else is different |
| `EqualSlow.SlowIsUnique` | src/compare.c:837-946 | the left-to-right walk that enters no pair of objects already taken for equal is determined by the heap |
| `EqualSlow.RunFollows` | src/compare.c:837-946 | with at most forty vectors, every comparison that ends has followed that walk |
| `EqualSlow.FirstDifferenceDecides` | src/compare.c:962-983 | behind a used-up precheck the call ends with the first difference of that walk, and misreads exactly when it is a string opposite something else |
| `Objects.DifferentUnfoldings` | src/compare.c:846-946 | unfoldings differ exactly when they meet a string opposite something else, or another difference |
| `Equal.StringIsMisread` | src/compare.c:894-903 | lists that differ only in a string against a number, behind elements that use up the precheck, end in a misread |
| `EqualRuns.FalseIsRight` | src/compare.c:628-946 | on every heap, for every stream of random budgets and however many vectors, a negative verdict comes from a difference of its kind |
| `EqualRuns.LongerEP` | src/compare.c:628-946 | a run that ended within some depth of calls ends the same way within any greater one |
| `Equal.NegativeIsRight` | src/compare.c:962-983 | on every heap a negative answer of `equal?` is right, and a misread comes from a string opposite something else behind a used-up precheck |
| `EqualBeyond.TowersRun` | src/compare.c:866-890 | forty nested vectors pay the whole budget: what they hold is compared with the budget that leaves the forest |
| `EqualBeyond.TopsSkipped` | src/compare.c:694-719 | drawn at zero, that budget makes the fast comparison take two vectors of one size for equal |
| `EqualBeyond.WrongAnswer` | src/compare.c:628-642 | lists of forty-one nested vectors that differ in the innermost are answered to be equal when the first budget drawn is zero |
| `EqualBeyond.CyclesHang` | src/compare.c:680-693 | a positive budget is never lowered, and the fast comparison follows a cycle for ever |
| `EqualBeyond.NoAnswer` | src/compare.c:628-642 | two equal towers of forty vectors around cyclic lists are never answered when the first budget drawn is positive |
| `EqualPositive.FastIsAlike` | src/compare.c:680-770 | with a positive budget the fast comparison keeps the budget, merges nothing, and finds only objects alike that unfold alike |
| `EqualPositive.RunTakes` | src/compare.c:628-946 | when no budget drawn is zero, a run that ends has looked into every pair it merged |
| `EqualPositive.MergedToDepth` | src/compare.c:794-946 | when all merged pairs were looked into, objects of one class agree to every depth |
| `EqualPositive.PositiveIsRight` | src/compare.c:962-983 | when no budget drawn is zero, every answer is right, on every heap |
| `EqualPositive.AcyclicEnds` | src/compare.c:962-983 | on a heap without cycles every call ends, whatever is drawn |
| `CacheFormat.PutWord` | src/cache.c:294-311 | a word is its tag and its little-endian bytes |
| `CacheFormat.ReadWordLoop` | src/cache.c:1201-1217 | the loop returns the little-endian value of the bytes |
| `CacheFormat.LittleEndianRoundTrip` | src/cache.c:294-306 | reading the bytes of a word gives the word modulo the width |
| `CacheGraph.TwoReferencesAreShared` | src/cache.c:491-556 | a tracked object with two incoming references is marked as shared by the scan |
| `CacheGraph.ScanIsExact` | src/cache.c:491-556 | on every graph, cyclic too, an object is marked exactly when a path leads to it from the root, and marked as shared exactly when two different paths do |
| `CacheGraph.ExactIsUnique` | src/cache.c:491-556 | the marks are determined by the graph |
| `Cache.CacheWriter.Scan` | src/cache.c:491-556 | the scan terminates on every graph, cyclic too, marks the reference it came by, goes along each edge as often as the object is expanded, goes no path twice, and expands each object at most twice |
| `Cache.CacheWriter.ScanChildren` | src/cache.c:510-556 | all references of the object are scanned |
| `Cache.CacheWriter.WriteObject` | src/cache.c:830-890 | the writer's output, marks and ids are those of the functional writer |
| `Cache.CacheWriter.WriteList` | src/cache.c:738-797 | the same for a chain of pairs, cut at shared tails |
| `Cache.CacheWriter.Collect` | src/cache.c:738-760 | the chain ends at the first tail that is no pair or is shared |
| `Cache.CacheReader.ReadObject` | src/cache.c:1742-1803 | the reader's input, table and cells are those of the functional reader, failures included |
| `Cache.CacheReader.ReadTagged` | src/cache.c:1742-1803 | the same behind the tag word |
| `Cache.CacheReader.ReadVector` | src/cache.c:1444-1462 | the same for a vector filled in place |
| `Cache.CacheReader.ReadElements` | src/cache.c:1464-1530 | the same for the elements of a proper or dotted list |
| `CacheRoundTrip.WordRoundTrip` | src/cache.c:1201-1217 | a tagged word reads back and leaves the rest |
| `CacheRoundTrip.TextRoundTrip` | src/cache.c:1304-1359 | strings and symbols read back; interned ones by contents, uninterned ones as new objects |
| `CacheRoundTrip.ObjectRoundTrip` | src/cache.c:830-890 | what is written for one object, in any state writer and reader can reach together, reads back to its image |
| `CacheRoundTrip.SharedRoundTrip` | src/cache.c:1584-1601 | a shared object is defined once under its id and can be referred to afterwards |
| `CacheRoundTrip.VectorRoundTrip` | src/cache.c:1444-1462 | a vector reads back as a new vector of its elements' images |
| `CacheRoundTrip.ListRoundTrip` | src/cache.c:738-797 | a chain of pairs, with or without a dotted or shared tail, reads back as new pairs |
| `CacheRoundTrip.RoundTrip` | src/cache.c:830-890 | for every acyclic graph the scanned marks describe, reading the written bytes consumes exactly them and embeds the graph |
| `CacheRoundTrip.SharingIsExact` | src/string.c:144-178 | two objects come back as one exactly when they were one, or both are identified by equal contents |
| `Cache.EqualStringsBecomeOne` | src/cache.c:1304-1325 | saved and loaded, a pair of two distinct strings with one text becomes a pair whose car and cdr are one literal |
| `Cache.Save` | src/cache.c:830-890 | scanning and writing produce the functional writer's bytes for the exact marks |
| `Cache.SavedIsUnique` | src/cache.c:830-890 | there is one way to write a graph |
| `Cache.SaveAndLoad` | src/cache.c:1742-1803 | saving and loading succeeds, stops right behind the record, needs no link pass and rebuilds the graph |
| `Montgomery.NewtonDoubles` | src/bignum.c:2216-2230 | one Newton step doubles the number of correct bits of the inverse |
| `Montgomery.InverseModLong` | src/bignum.c:2216-2230 | the result is an inverse modulo 2^WORD_BITS |
| `Montgomery.ReduceWord` | src/bignum.inc:1216-1235 | one word of reduction divides the total by the base after adding a multiple of the modulus |
| `Montgomery.MontReduce` | src/bignum.inc:1216-1235 | Montgomery reduction of t < m*R gives r < m with r*R congruent to t |
| `OddExpt.MontMul` | src/bignum.c:2312-2345 | multiplying Montgomery forms of x^i and x^j gives that of x^(i+j) |
| `OddExpt.MakeTable` | src/bignum.c:2346-2368 | the table holds the odd powers of the base |
| `OddExpt.FirstWindow` | src/bignum.c:2369-2385 | the buffer starts with the leading window of the exponent |
| `Window.StepReads` | src/bignum.c:2386-2445 | reading one exponent bit keeps the account of bits read, window, pending multiplier and power |
| `Window.Finished` | src/bignum.c:2386-2445 | when the account is settled the accumulated power is the exponent |
| `OddExpt.OddModExptRec` | src/bignum.c:2312-2445 | the sliding-window loop computes x^e in Montgomery form for every window width |
| `OddExpt.WindowBits` | src/bignum.c:2307-2310 | the window chosen from the table is narrower than the exponent |
| `OddExpt.ReductionWord` | src/bignum.c:2447-2481 | the word passed to the reduction is the negated inverse of the modulus |
| `OddExpt.OddModExpt` | src/bignum.c:2447-2481 | x^e mod m for every odd m, base below m and positive exponent |
| `ModExpt.ModInverse` | src/bignum.c:2260-2305 | extended Euclid returns r in 0..m with x*r congruent to the gcd |
| `ModExpt.OddPowerIsOne` | src/bignum.c:2499-2520 | x^(2^k) is 1 modulo 2^(k+1) for odd x |
| `ModExpt.ExponentCut` | src/bignum.c:2499-2520 | modulo 2^p the exponent of an odd base may be cut to p-1 bits |
| `ModExpt.ModExpt2` | src/bignum.c:2484-2520 | the masked square-and-multiply loop gives x^e modulo 2^p |
| `ModExpt.ChineseRemainder` | src/bignum.c:2522-2587 | the weighted sum of the two residues is the residue modulo the product |
| `ModExpt.PartInverses` | src/bignum.c:2522-2587 | the two inverses used as weights are inverses |
| `ModExpt.EvenModExpt` | src/bignum.c:2522-2587 | x^e mod m for every even m, from the odd part and the power of two |
| `ModExpt.PositiveModExpt` | src/bignum.c:2522-2587 | x^e mod m for every positive modulus and exponent |
| `ModExpt.BignumModExpt` | src/bignum.c:2589-2601 | for e >= 0 the answer is x^e mod m if and only if the base is nonzero, the exponent zero or the modulus one; for e < 0 it lies in 0..m, times the power it is the gcd of power and modulus, and when the base has an inverse and m > 1 it is the inverse of the power below m |
| `ModExpt.InverseIsUnique` | src/bignum.c:2260-2305 | there is one inverse below the modulus |
| `ModExpt.ZeroBaseIsWrong` | src/bignum.c:2589-2601 | for a zero base, every positive exponent and every modulus above one, the answer is not the power, which is zero |
| `ModExpt.ZeroBaseExample` | src/number.c:3675-3681 | 0^1 mod 2^64, whose modulus is too large for the branch of small numbers, is answered wrongly |
| `Sqrt.StartIsAbove` | src/bignum.c:1636-1650 | the shifted start value is at or above the root |
| `Sqrt.NewtonStaysAbove` | src/bignum.c:1650-1676 | every Newton step stays at or above the root |
| `Sqrt.NewtonStops` | src/bignum.c:1650-1676 | when a step does not decrease, the value is at most the root |
| `Sqrt.BnSqrt` | src/bignum.c:1636-1676 | the loop terminates with the floor of the square root |
| `Sqrt.LowWordFilter` | src/bignum.c:1678-1709 | the low word of a square is the low word of the squared low word, so the filter hides no square |
| `Sqrt.BignumSqrt` | src/bignum.c:1678-1709 | the exact branch is taken if and only if the number is a square, with a real root for positive numbers only |
| `Gcd.DivisorsOfGcd` | src/bignum.c:2105-2131 | the divisors of the gcd are exactly the common divisors |
| `Gcd.GcdIsUnique` | src/bignum.c:2105-2131 | the gcd is determined by its definition |
| `Gcd.GcdFixfix` | src/bignum.c:2123-2131 | Euclid on words |
| `Gcd.TakeOutTwos` | src/bignum.c:2134-2160 | the common power of two is taken out and one of the rests is odd |
| `Gcd.ReducesShift` | src/bignum.c:2160-2196 | dropping factors of two next to an odd number keeps the common divisors |
| `Gcd.ReducesDifference` | src/bignum.c:2160-2196 | replacing the larger number by the difference keeps the common divisors |
| `Gcd.BinaryGcd` | src/bignum.c:2134-2196 | Algorithm B, with the switch to word-size Euclid, terminates with gcd of the magnitudes for all nonzero arguments |
| `LogIor.OrBit` | src/bignum.c:853-867 | OR of n bits is the OR of each bit |
| `LogIor.BitsDetermine` | src/bignum.c:920-977 | an integer is determined by its infinite two's complement bits |
| `LogIor.OrWithNegative` | src/bignum.c:920-977 | when one operand is negative and fits N bits, N bits hold the result |
| `LogIor.OrOfPositives` | src/bignum.c:920-977 | for nonnegative operands N bits hold the result |
| `LogIor.WordsOr` | src/bignum.c:853-867 | word-wise OR with sign extension is OR of the represented integers |
| `LogIor.TwosComplement` | src/bignum.inc:53-61 | in place, the words become 2^(w*n) minus their value |
| `LogIor.IorWords` | src/bignum.c:853-867 | every result word is the OR of the extended operand words |
| `LogIor.BignumLogIor` | src/bignum.c:920-977 | infinite two's complement OR for all sign combinations and sizes, in the word counts the source allocates |
| `Radix.DigitsRoundTrip` | src/bignum.c:1898-1931 | the digits of a number have its value |
| `Radix.DigitsSplit` | src/bignum.c:2018-2072 | the digits of q*r^e+rem are those of q followed by those of rem padded to e places |
| `Radix.PaddedSplit` | src/bignum.c:2018-2072 | the same under left padding to a given width |
| `Radix.ShortDiv` | src/bignum.c:1469-1501 | in-place division by a word: quotient in the array, remainder returned |
| `Radix.CalcStringSize` | src/bignum.c:1759-1769 | the computed size is the number of digits |
| `Radix.SmallToDigits` | src/bignum.c:1898-1931 | repeated short division yields the digits |
| `Radix.Schonehage` | src/bignum.c:2018-2072 | divide and conquer down to short division appends exactly the padded digits, for every split estimate that does not exceed the number |
| `Radix.WordsOfValue` | src/bignum.c:1898-1931 | every number has words that hold it |
| `Radix.ToDigits` | src/bignum.c:2074-2102 | both printers yield the same digits |
| `Radix.InitLimits` | src/number.c:4096-4107 | the per-radix limits leave room for one more digit in an unsigned word, for every floating-point quotient that is right to one part in 1024 |
| `Radix.NoOverflow` | src/number.c:379-457 | under the limits the accumulator of the reader never overflows a word |
| `Radix.AddDigit` | src/number.c:379-457 | one digit multiplies the total by the radix and adds itself, in the word or spilled into the bignum |
| `Radix.ReadDigits` | src/number.c:379-457 | the loop consumes exactly the digit prefix and accumulates its value |
| `Radix.DigitValueIs` | src/number.c:415-430 | 0-9 stand for 0..9 and a-z and A-Z for 10..35, each if the radix has the digit |
| `Radix.NoValueIs` | src/number.c:415-430 | every other character has no value |
| `Radix.ScanIsNumeral` | src/number.c:412-437 | what is taken from a text is a run of digit characters in either case and then a run of `#`, each as far as it goes; no `#` before the first digit, no digit after a `#` |
| `Radix.NumeralIsUnique` | src/number.c:412-437 | a text is such a numeral in one way |
| `Radix.ReadFront` | src/number.c:379-457 | the value and length read are those of the digits at the front, read onto the initial value |
| `Radix.ReadUint` | src/number.c:379-457 | the value of the numeral at the front, each `#` counting as a zero, read onto an initial value; all of the numeral is consumed and nothing else |
| `Radix.ReadsBackPrinted` | src/number.c:379-457 | reading the printed characters of a number consumes all of them and returns the number |
| `Radix.ReadBack` | src/number.c:379-457 | under the limits a platform computes, the reader gives back every number the printer writes, and consumes all of its text, which is in lower case |
| `Flonum.StartIsFlonum` | src/number.c:3877-3907 | r/s is the flonum, and the margins are half a unit above and half or a quarter of a unit below |
| `Flonum.MarginBelow` | src/number.c:3894-3906 | the lower margin stays within half the distance to the next flonum below if and only if the flonum is not 2^52 * 2^-1023 |
| `Flonum.Fixup` | src/number.c:3912-3933 | from an estimate at most one too low, the scaled interval lies below one and is the original divided by 10^k |
| `Flonum.NineIsNotRounded` | src/number.c:3949-3996 | a digit that is rounded up is at most eight |
| `Flonum.NoneSoShort` | src/number.c:3960-3973 | while both tests fail, no decimal with so few digits lies in the interval |
| `Flonum.StopsInside` | src/number.c:3960-3996 | stopping on either test leaves a decimal inside the interval |
| `Flonum.NextDigit` | src/number.c:3949-3996 | one round either continues with a digit 0-9 or stops with a shortest decimal |
| `Flonum.StopsClosest` | src/number.c:3977-3996 | of the decimals of its length that lie in the interval, the last digit leaves the closest to the flonum; of two as close, the lower one for an even significand and the higher one for an odd one |
| `Flonum.Generate` | src/number.c:3949-3996 | the loop terminates; its digits are decimal, lie in the interval, none shorter does, none as short is closer, and the first is nonzero when the interval reaches a tenth |
| `Flonum.SplitValue` | src/number.c:3936-4001 | placing the decimal point adds trailing zeros at most |
| `Flonum.Render` | src/number.c:3943-4001 | the characters are the digits with leading or trailing zeros and the point |
| `Flonum.DoublePrint` | src/number.c:3849-4011 | what is printed, with its exponent, lies in the rounding interval; no decimal ending at a larger place does, and none ending at the same place that lies in the interval is closer to the flonum, or as close and to be preferred; positional notation is used for -3 < k < 10; with an estimate that is not too high, at most 17 digits and 21 characters are written |
| `Flonum.AtMostSeventeen` | src/number.c:3953-4000 | at most 17 digits are generated once the scaled interval reaches a tenth |
| `FlonumGrid.Neighbours` | src/number.c:266-282 | another flonum is at least a unit above, a unit below, or half a unit below at the start of a binade |
| `FlonumGrid.InsideOnGrid` | src/number.c:3873-3910 | the interval of a flonum reaches half a unit up and half or a quarter of a unit down |
| `FlonumGrid.InsideIsNearest` | src/number.c:3849-4011 | the flonum is the nearest one to every number in its interval, or as near and its significand is even |
| `FlonumGrid.IntervalIsNear` | src/number.c:3892-3892 | it is so for all decimals in the interval exactly when the flonum is not 2^52 * 2^-1023 |
| `FlonumReader.Round` | src/number.c:302-335 | the test on big integers compares the distance with half a unit and with a quarter |
| `FlonumReader.AlgorithmR` | src/number.c:290-356 | from every positive flonum on, the algorithm terminates at the nearest one, the even one of two, at zero or at infinity |
| `FlonumReader.RightIsUnique` | src/number.c:290-356 | there is one right flonum for every number |
| `FlonumReader.PowersAreFlonums` | src/number.c:135-156 | the powers of ten up to the 22nd are flonums |
| `FlonumReader.Ten23IsNearest` | src/number.c:135-156 | the next one is not; 1.0e23 is the even one of the two nearest |
| `FlonumReader.OneOperationIsRight` | src/number.c:600-615 | one rounded operation reads a number of up to 52 bits and an exponent of up to 22 right |
| `FlonumReader.OneOperationIsWrong` | src/number.c:600-615 | 25455 * 10^-23 is nearest to one flonum, and one division by 1.0e23 gives the next one |
| `FlonumReader.GuardIsExact` | src/number.c:91-93 | one operation is right for all numbers within the guard exactly when the guard is at most 22 |
| `FlonumReader.NormalCell` | src/number.c:290-356 | a normal flonum is the nearest one exactly when the number lies half way to its neighbours or closer, ties going to the even significand |
| `FlonumReader.RoomIsExact` | src/number.c:600-615 | at the 23rd power, for a number of up to 52 bits, one operation is right exactly when the remainder of rounding the significand leaves room for one part in 5^23 |
| `FlonumReader.ReadReal` | src/number.c:600-615 | right when `algorithmR` is given a positive flonum; when one operation is made, right exactly up to the 22nd power and where the 23rd leaves room; otherwise the start is returned as it is |
| `FlonumPower.RoundingReaches` | src/number.c:135-156 | a rounded number is not less than a power of two that the number reaches |
| `FlonumPower.RoundingStays` | src/number.c:135-156 | a rounded number does not exceed a power of two that the number stays within, nor overflow |
| `FlonumPower.Ten24IsNearest` | src/number.c:144-144 | 1.0e24 is the flonum nearest to 10^24 |
| `FlonumPower.UpIsBetween` | src/number.c:142-147 | multiplying in rounded steps moves a lower and an upper power of two by 79 to 80 binary places for each 24 powers of ten, and by 3 to 4 for each other one, as long as that stays in range |
| `FlonumPower.DownIsBetween` | src/number.c:148-154 | the same for dividing |
| `FlonumPower.Pow10n` | src/number.c:135-156 | the loops end, and take the rounded steps of `FlonumPower.ScaledBy` |
| `FlonumPower.ScaledIsOnce` | src/number.c:135-156 | up to the 23rd power these are one rounded operation on the number |
| `FlonumPower.SameNumber` | src/number.c:135-156 | equal fractions have the same right flonum |
| `FlonumPower.OrdinaryIsPositive` | src/number.c:600-602 | numbers from 2^-1030 to 2^980 with a power of ten from -330 to 330 and digits below 2^1000 are scaled to a positive flonum, never to zero or infinity |
| `FlonumPower.ReadFlonum` | src/number.c:600-615 | conversion, scaling and `algorithmR` together: such a number is read right if `algorithmR` is called, and otherwise exactly up to the 22nd power and where the 23rd leaves room |
| `FlonumText.ReadText` | src/number.c:530-545 | the digits before the point, then those behind it onto the first, give the digits of both |
| `FlonumText.RightIsBetween` | src/number.c:290-356 | a number whose nearest flonum is a normal one lies above half the start of its binade and below the end of it |
| `FlonumText.PrintAndRead` | src/number.c:458-615 | a flonum, other than that one, that is printed and whose text is read comes back exactly when its text is readable in the sense of `ReadReal`; for all flonums from 2^-948 to 2^952, with an estimate that is not too high, that is unless one operation with 1.0e23 has no room |
| `Peephole.CombinedRuns` | src/code.c:139-199 | instructions that each stand for a label-free run of others execute alike, from every place, for any number of jumps |
| `Peephole.DefinitionsMatch` | src/code.c:287-291 | every label is found at the matching place, the latest definition winning |
| `Peephole.CodeRuns` | src/code.c:295-348 | laid-out code with resolved operands executes like the items, jump for jump |
| `CodeBuilding.CodeBuilder.Push` | src/code.c:77-92 | the word is appended, across a doubling of the array |
| `CodeBuilding.CodeBuilder.Flush` | src/code.c:94-119 | the pending packet is laid out, its label noted, the program it stands for is unchanged, and nothing was laid out that could have been combined |
| `CodeBuilding.CodeBuilder.Put` | src/code.c:139-199 | for every sound combination table, the builder stands for one more instruction, combined with the pending one exactly when a rule applies to the two |
| `CodeBuilding.CodeBuilder.Combined` | src/code.c:174-194 | applying a sound rule keeps what the pending packet stands for |
| `CodeBuilding.CodeBuilder.LabelSet` | src/code.c:287-291 | the pending packet is laid out first, so nothing is combined across a label |
| `CodeBuilding.CodeBuilder.Resolve` | src/code.c:306-322 | fails if and only if a referenced label is undefined; otherwise operand o satisfies o + code[o] = the label's position |
| `CodeBuilding.CodeBuilder.Copy` | src/code.c:323-340 | the instruction-wise copy is the whole code |
| `CodeBuilding.CodeBuilder.FinishBuilder` | src/code.c:350-362 | the finished code is the resolved layout of items that stand for everything put, each combined by the first rules that apply, and none that could be combined with the next |
| `CodeBuilding.LayoutIsUnique` | src/code.c:139-199 | such a layout is determined by the program |
| `CodeBuilding.FinishedRuns` | src/code.c:295-362 | finished code executes like the uncombined program from the start and from every label, for any number of jumps |
| `Clos.AllBlocked` | src/clos.c:540-555 | when every head occurs behind another head, no linear order extends the lists |
| `Clos.FindNext` | src/clos.c:540-553 | the next class is the first head that is not blocked |
| `Clos.RemoveNext` | src/clos.c:557-562 | the chosen class is removed from exactly the lists it heads |
| `Clos.TakenIsEarliest` | src/clos.c:540-553 | of the classes whose predecessors in all lists are out, the one taken occurs in the earliest list |
| `Clos.MergeLists` | src/clos.c:522-566 | terminates with a duplicate-free list of exactly the given elements that has every list as a subsequence and at each place the class of the earliest list that could stand there, or with failure exactly when no linear order extends them |
| `Linearization.MergeIsUnique` | src/clos.c:522-566 | there is one such list |
| `Clos.Deletel` | src/clos.c:568-576 | the list without the target |
| `Clos.ComputeCpl` | src/clos.c:578-605 | the class followed by that merge of the lists of its superclasses, the list of <object> and the local order, in this order; failure exactly when no linear order extends them |
| `Clos.FirstSuperFirst` | src/clos.c:578-605 | the list of the first superclass comes first, before the second superclass, as far as nothing in the other lists holds it back |
| `Clos.DefinitionKeepsHierarchy` | src/clos.c:578-605 | every definition keeps the invariant that a class's list has the list of each of its ancestors, and its local order, as subsequences |
| `Clos.MergedEndsInTop` | src/clos.c:581-584 | when the superclasses' lists end in <object> <top>, so does the new one |
| `LibraryLock.EventKeepsInvariant` | src/library.c:252-276 | every step of every thread keeps the invariant |
| `LibraryLock.InvariantHolds` | src/library.c:252-276 | every interleaving reaches only states of the invariant |
| `LibraryLock.MutualExclusion` | src/library.c:252-276 | at most one live thread is inside, and it is the owner |
| `LibraryLock.CountIsDepth` | src/library.c:252-276 | between its operations COUNT is the owner's nesting depth, and nobody else holds anything |
| `LibraryLock.OnlyOwnersChange` | src/library.c:258-275 | only the owner changes COUNT; OWNER is taken only under MUTEX from nobody or a terminated thread, and given up only at count zero |
| `LibraryProgress.WaitingEnters` | src/library.c:252-268 | a waiting thread enters in seven steps exactly when MUTEX is free and the owner is nobody or terminated; otherwise it comes back to where it was |
| `LibraryProgress.LockTakes` | src/library.c:252-272 | a thread outside takes a free lock |
| `LibraryProgress.LockNests` | src/library.c:269-271 | a nested lock goes one deeper |
| `LibraryProgress.UnlockLeaves` | src/library.c:273-276 | an unlock goes one out, and the last one frees the lock |
| `LibraryProgress.MatchingUnlocksFree` | src/library.c:252-276 | in every reachable state with a free lock, any number of locks nests, and as many unlocks free it again |
| `LibraryProgress.NoDeadlock` | src/library.c:252-276 | in every reachable state a live thread can still get in, by steps of live threads alone, exactly when no terminated thread holds MUTEX, unless it has the lock already |
| `LibraryProgress.NeverEnters` | src/library.c:252-276 | while a terminated thread holds MUTEX, no continuation lets another thread in |
| `Hashtable.FlatIsAll` | src/hashtable.c:652-665 | the order of iteration holds every entry exactly once |
| `Hashtable.Hash2Index` | src/hashtable.c:86-87 | the index lies inside the bucket array |
| `Hashtable.Round2Up` | src/hashtable.c:1048-1056 | the least power of two that is not below the value |
| `Hashtable.HashCore.constructor` | src/hashtable.c:341-369 | an empty table with at least the requested number of buckets |
| `Hashtable.HashCore.Search` | src/hashtable.c:465-481 | walking one bucket finds the entry of the key and its predecessor, or shows there is none |
| `Hashtable.HashCore.Link` | src/hashtable.c:262-278 | a new entry at the head of its bucket adds one binding |
| `Hashtable.HashCore.Unlink` | src/hashtable.c:306-316 | the entry leaves its chain and exactly its binding goes |
| `Hashtable.HashCore.Relink` | src/hashtable.c:289-295 | relinking entries while iterating over the old buckets moves each of them exactly once |
| `Hashtable.HashCore.Extend` | src/hashtable.c:279-302 | four times the buckets, the same bindings, every entry in the bucket of its stored hash |
| `Hashtable.HashCore.Insert` | src/hashtable.c:262-304 | one more binding, and at most three entries to a bucket |
| `Hashtable.HashCore.Access` | src/hashtable.c:318-336 | lookup, creation and deletion act like a finite map; `entryCount` is the number of keys |
| `Hashtable.HashCore.All` | src/hashtable.c:861-883 | iterating yields every entry exactly once, `entryCount` of them |
| `Hashtable.HashIter.Next` | src/hashtable.c:861-883 | yields the next entry of the order, even if the yielded entry is relinked afterwards |
| `Ranges.NormalIsUnique` | src/charset.c:204-245 | sorted, disjoint, non-adjacent ranges are determined by the characters they cover |
| `RedBlack.RotationEntries` | src/rbtree.c:135-163 | a rotation keeps the entries |
| `RedBlack.SetEntries` | src/rbtree.c:288-322 | insertion with its recolouring and rotations keeps the order and adds one entry |
| `RedBlack.SetIsRedBlack` | src/rbtree.c:165-204 | insertion keeps the tree red-black |
| `RedBlack.BalancedIsShallow` | src/rbtree.c:165-204 | a red-black tree is at most twice as high as its black nodes force, and has at least as many nodes as they force |
| `RedBlack.DropEntries` | src/rbtree.c:381-422 | deletion with its repairs keeps the order and removes one entry, whatever the colours |
| `RedBlackDeletion.DeleteIsRedBlack` | src/rbtree.c:324-414 | deletion keeps the tree red-black exactly when none of the colours that the source leaves out is called for on the way up |
| `RedBlackDeletion.DeletingUnbalances` | src/rbtree.c:336-339 | three black nodes: deleting the least leaves a tree that is not balanced |
| `RedBlack.HeldIs` | src/rbtree.c:385-390 | after a deletion a pointer to the entry shows that entry, or its successor when it had two children |
| `RedBlack.HigherIsNext` | src/rbtree.c:229-256 | the search finds the least key above |
| `RedBlack.LowerIsPrevious` | src/rbtree.c:258-285 | the search finds the greatest key below |
| `RangeTree.StartIsTight` | src/charset.c:217-227 | the entry that takes up a range is the only one that touches its lower bound |
| `RangeTree.SwallowTakes` | src/charset.c:231-243 | when no deleted entry has two children, the loop swallows the entries that touch the range and no others |
| `RangeTree.SwallowLoses` | src/charset.c:231-243 | in a tree of any shape the loop loses only entries inside the grown one, which ends in the set exactly under the second condition |
| `RangeTree.SwallowOverlaps` | src/charset.c:237-241 | a deleted entry with two children leaves its successor inside the grown entry |
| `RangeTree.GrownIsLarge` | src/charset.c:228-244 | the grown entry keeps its distance to the remaining ones |
| `RangeTree.AddToMeans` | src/charset.c:217-244 | the ranges stay normal exactly when no deleted entry has two children; together they always cover the union, and cover no more exactly when the entry that is read each time touches the range |
| `RangeTree.NoneHasTwoIsEnough` | src/charset.c:231-243 | the first condition implies the second |
| `RangeTree.AddingAddsTooMuch` | src/charset.c:231-243 | adding 250..305 to 200..210, 300..310 and 400..410 also adds 311..399 |
| `RangeTree.ThreeRangesAdded` | src/charset.c:217-244 | the tree of any three ranges that do not touch, as adding them in order to an empty set builds it |
| `RangeLookup.NestedFinds` | src/charset.c:343-358 | what the lookup finds where a range stays inside of another one |
| `RangeLookup.LoopFinds` | src/charset.c:231-243 | the loop, once it deletes an entry with two children: what is found, what is lost and what is found too much |
| `RangeLookup.AddToFinds` | src/charset.c:204-245 | the lookup loses no character of the union exactly when the successor of a deleted entry with two children reaches the end of the range; it loses no former member exactly when it does, or nothing behind it touches the range; it finds the union exactly when the successor also touches the range |
| `RangeLookup.AddingLoses` | src/charset.c:231-243 | after adding 250..350 to 200..210, 300..310 and 320..330, the ranges cover the union, but 331..350 are not found |
| `RangeLookup.AddingTakesOut` | src/charset.c:231-243 | with 335..345 in the set as well, a former member is no longer found |
| `RangeTree.FlipStep` | src/charset.c:285-291 | a step whose entry has not two children exchanges covered and uncovered characters up to the next range |
| `RangeTree.FlipsMeans` | src/charset.c:279-296 | the tree becomes the complement, and stays normal, exactly when no deleted entry has two children |
| `RangeTree.FlipsWrong` | src/charset.c:285-291 | otherwise a range of the set stays in it |
| `RangeTree.FlipsTwice` | src/charset.c:279-296 | complementing twice restores the ranges exactly when no deleted entry has two children either time |
| `RangeTree.ComplementingLeavesIn` | src/charset.c:279-296 | complementing these three ranges leaves 300..310 and 400..410 in |
| `Charset.CharSet.AddRange` | src/charset.c:204-245 | the set becomes what `RangeTree.AddTo` says; for a normal set, four exact conditions: it stays normal, it holds at least the union, it holds all former members, it is the union |
| `Charset.CharSet.AddLarge` | src/charset.c:217-244 | the loop on the tree computes `RangeTree.AddTo`, for trees of any shape |
| `Charset.CharSet.Add` | src/charset.c:255-268 | adds the ranges of the argument one by one, which is the union with what they cover when each is added cleanly |
| `Charset.CharSet.Complement` | src/charset.c:279-296 | the set becomes what `RangeTree.Flips` says; for a normal set, exactly the characters of 0..SG_CHAR_MAX that were not in it if and only if no deleted entry has two children |
| `Charset.CharSet.ComplementLarge` | src/charset.c:284-294 | the loop on the tree computes `RangeTree.Flips`, for trees of any shape |
| `Charset.CharSet.ComplementTwice` | src/charset.c:279-296 | the set is restored exactly when no deleted entry has two children either time |
| `Ranges.FoundIsCovered` | src/charset.c:343-358 | on normal ranges the lookup finds the covered characters; on others it finds no more than those |
| `Charset.CharSet.Contains` | src/charset.c:343-358 | membership, for every set: the last range that starts at the character or below reaches it |
| `Charset.CharSet.GetRanges` | src/charset.c:360-386 | the listed ranges ascend and hold what the ranges of the set cover, which are its members when it is normal |
| `Charset.CharSet.Rebuild` | src/charset.c:102-111 | adding the listed ranges to an empty set deletes nothing and rebuilds a normal set |
| `Port.InputPort.FillBuffer` | src/port.c:408-437 | refilling loses no byte, and an empty buffer means the end |
| `Port.InputPort.Readb` | src/port.c:439-482 | returns exactly the next bytes of the stream, fewer than asked only at its end, for every pattern of short reads |
| `Port.OutputPort.Flush` | src/port.c:382-406 | everything buffered is delivered, for every pattern of partial writes |
| `Port.OutputPort.WriteBlock` | src/port.c:509-536 | delivered bytes followed by buffered bytes are everything written |
| `Port.OutputPort.WriteLine` | src/port.c:538-572 | the same, and no newline stays in the buffer |

## Left out

- Equal.EqualP: at most forty vectors, because beyond them the source may answer wrongly or not at all (`EqualBeyond.WrongAnswer`, `EqualBeyond.NoAnswer`); the order in which it meets differences is stated by `EqualSlow.FirstDifferenceDecides`. Records, hash tables, bytevectors and user-defined comparison are abstract leaves.
- EqualPositive.PositiveIsRight: one direction only; a budget of zero need not lead to a wrong answer.
- CacheRoundTrip.RoundTrip: acyclic graphs only, because a shared tail under construction is in a state the source does not recognise; code builders, macros, identifiers, source information of pairs and literal flags are not written.
- Clos.MergedEndsInTop: one direction only; the lists of some built-in classes end in <top> alone, and where <object> goes then depends on the order of the superclasses.
- CodeBuilding.FinishedRuns: instruction words are records; packing values into the bits of a word, and finishing code builders nested in operands, are not modelled.
- ModExpt.BignumModExpt: negative bases are not modelled.
- FlonumReader.ReadReal: where `pow10n` gives zero or infinity, that is the result. The sign, the text of the exponent, exact numbers, rationals and the other branches of `read_real` are not modelled.
- FlonumPower.OrdinaryIsPositive: one direction only; outside of these bounds the result depends on the roundings. The conversion of a bignum to a flonum is taken to stay between powers of two, without saying how it rounds.
- FlonumText.ReadText: texts with a decimal point and without a sign, as `double_print` writes them.
- Flonum.DoublePrint: that the estimate is not too high is assumed where digits are counted; zero, infinities, NaN and the sign are printed by separate branches that are not modelled; the exponent is returned as a number instead of text.
- Hashtable.HashCore.Access: the array index is the index function of the table; 32-bit overflow of the bucket count is not modelled, and keys are compared through their equivalence class.
- Charset.CharSet.AddRange: negative characters and characters above SG_CHAR_MAX are excluded; the balanced tree is a value, so that its nodes are known by their keys.
- Charset.CharSet.Add: one direction only; a range that is added wrongly can be put right by a later one.
- ModExpt.Mod2: when the power of two is a multiple of the word width, the source shifts a word by its full width, which C leaves undefined; the model takes the mask as it is meant.
- Port.OutputPort.WriteLine: the extra byte after a newline on UTF-16 consoles is not modelled; neither are input/output ports, seeking and whole-stream reads.
- LibraryLock.MutualExclusion: the other two lock variants (semaphore and plain mutex) are not modelled; memory is sequentially consistent.
- `Sg_BignumLogAnd` of two negatives and `Sg_BignumLogXor` of mixed signs are not modelled.
- `Sg_HashCoreCopy`, character set comparison and parsing of character sets are not modelled.
- The bytecode interpreter, garbage collection, dynamic loading, files, the reader and the printer of other data are not modelled.
