# Proofs about the base library AK

This project models the self-contained algorithmic cores of the base library (the directory `AK`) in Dafny and proves
what they compute. Each module follows one source file. Code that changes state step by step is a class or a method
with loops, proved against functions on values; what the source promises is proved about these functions.

- **Big integers** (`Words`, `WordShifts`, `StorageOperations`, `Multiplication`, `QuotientDigit`, `Division`,
  `Comparison`). Storages are stretches of arrays of words of any width w; `Value` and `Number` are the unsigned and
  the two's complement number of a sequence of words of base b = 2^w. Division is Knuth's Algorithm D in place.
- **Hash table** (`RobinHood`, `BucketLinks`, `OrderedEntries`, `HashTable`). The ordered table with its bucket array,
  one-byte probe lengths, displacement, backward shift and the doubly linked list through the buckets. Buckets are
  referred to by index, and one bucket more stands for the local variable that holds a displaced entry. The abstract
  value is the association list `Contents()`, in iteration order.
- **Red-black tree** (`TreeShapes`, `TreeOrder`, `TreeRelinking`, `TreeBalance`, `TreeRemoval`, `TreeExchange`,
  `RedBlackTree`) and the line index of the lexer on top of it (`LineIndex`). Nodes are heap objects with child and
  parent pointers; the proofs follow a subtree in focus and the context around it.
- **Ring buffer with seekback** (`CircularBuffer`): a log of all bytes written, of which a suffix is unread and a
  longer one can still be sought back to. **Byte queue** (`MemoryStream`): chunks of fixed size. Runs of operations on
  either are told by the same log (`ByteLogs`).
- **Substring search** (`MemMem`): Knuth-Morris-Pratt over chunks, the bit-parallel matcher, and their dispatcher.
- **Bits** (`Bits`, `BitSequences`, `BitCounts`, `BitStream`, `BigEndianBitStream`, `BitmapView`, `LEB128`): forms that
  work on words and bytes equal those that go bit by bit.
- **Sorting** (`SortedRanges`, `QuickSort`), **heap** (`BinaryHeap`).
- **Command lines** (`OptionParser`): `WrittenOptions` writes them in all spellings and proves that they are read back.
- **Paths** (`LexicalPath`): what a path means is where its parts lead, followed one by one.
- **Reference counting** (`AtomicRefCounted`): the atomic operations of all threads as steps of one state machine,
  and what the calls of any run amount to.

`Basics`, `Powers` hold what several modules share.

Where the code keeps a promise only under a condition, the condition is proved to be exact, with an input that misses it:

- `LineIndex` agrees with a plain scan inside the input. At the end of the input it agrees if and only if the input is
  empty or ends with a newline, as long as nobody has asked for a place behind the end before
  (`LineTrackingLexer.PositionFor`); the input `ab` misses it (`AbAtItsEnd`). Questions for places behind the end list
  the end once more each, and then the end is answered with one of these line starts: for an input without a final
  newline the answer does not agree then either.
- The refill loop of the little-endian input stream asks for whole bytes that fit in its buffer. It ends if and only if
  these bytes reach the count asked for or the stream ends before (`BitStreams.StuckUnlessCanRefill`); counts up to 57
  always do, 60 bits with one in the buffer do not (`StuckAtSixty`). The round trip of written values is stated for all
  counts whose reads end (`WriteAndReadBack`, `Readable`).
- The same stream drops bits by a shift of its 64-bit buffer, which does so if and only if they are fewer than 64
  (`BitStreams.DropsIffBelowWidth`). A read of 64 bits gives the right number, but on a machine that takes shift amounts
  modulo 64 the old bits come back (`OldBitsComeBack`).
- `copy_from_seekback` fails the check on its span if and only if the distance, doubled as far as the capacity allows and
  once more, is needed while there is still room (`CircularBuffers.Overshoots`); five bytes from two bytes back into
  three bytes of room do that (`FiveOvershootThree`), what fits never does (`FittingIsSafe`).
- After the construction of a heap all nodes know their indices, in every order, if and only if they all had been told
  their indices before: then they do (`BinaryHeaps.IntrusiveBinaryHeap.constructor`), and for nodes of which one had not
  been told, the order in which they stand moves none of them (`UntoldStays`). A single node never moves
  (`OneNodeUntold`). The account of one run is the set `moved`: the nodes in it have been told, the others have not.
- `baseline_mul` multiplies two single words as words without signs. The result is the product of signed numbers exactly
  in the cases of `Multiplication.OneWordRight`; minus one times one in three words misses it (`MinusOneTimesOne`). All
  other lengths and signs are right.
- `find_next_range_of_unset_bits` goes back to the start of an unset bucket, and of the bits behind the last bucket; it
  leaves out what lies before the place it is given if and only if nothing is unset in between
  (`BitmapViews.SearchesFromThere`). `find_longest_range_of_unset_bits` cuts runs at the end of the whole buckets and
  finds the longest one if and only if `FindsLongest` holds; always for a multiple of 64 bits
  (`WholeBucketsFindLongest`), not for 70 unset bits (`SeventyUnset`).
- A long option whose value is the end mark -1 ends the parsing for the caller: all options are reported if and only if
  none of them is such a one (`OptionParsers.OptionParser.ParseAll`, `EndAsValue`).
- The bit-parallel matcher is meant for needles of 1 to 31 bytes, which is how the dispatcher uses it; the contract of
  `MemMem.BitapBitwise` also says what it does with an empty needle.

`dafny verify dfyconfig.toml` checks the whole project.

## Model

| member | source | states |
|---|---|---|
| Division.DivModInternal | AK/BigIntBase.h:599-667 | Division in place, with normalising and un-normalising: for every dividend and every divisor of at least two significant words the quotient storage holds dividend / divisor, and the remainder storage dividend mod divisor when it is asked for and its old words otherwise; both checks in the loop are passed |
| Division.DivideDigits | AK/BigIntBase.h:618-659 | The digit loop on normalised operands: dividend = quotient * divisor + what is left in the dividend storage, and that is less than the divisor |
| Division.DivideWindow | AK/BigIntBase.h:619-658 | One iteration: the digit stored and the window left behind divide the old window by the divisor, one add-back at most |
| Division.EstimateWithinOne | AK/BigIntBase.h:622-640 | When multiply-subtract starts the estimate is the true digit or one more, also in the branch that takes the largest word without correction |
| Division.TopWordFits | AK/BigIntBase.h:621 | The first check cannot fail: a window below b times the divisor has a top word not above the top word of the divisor |
| Division.AddBack | AK/BigIntBase.h:653-656 | The second check cannot fail: after a borrow, adding the divisor back overflows exactly once, and the digit is the estimate less one |
| Division.NoBorrow | AK/BigIntBase.h:642-651 | Without a borrow the estimate was the true digit and the window the remainder |
| Division.MultiplySubtract | AK/BigIntBase.h:642-651 | Estimate times divisor is taken from the window word by word: old window + borrow * b^(n+1) = new window + estimate * divisor |
| Division.AddDivisor | AK/BigIntBase.h:653-656 | Adds the divisor to the window; what does not fit is reported as overflow |
| Division.SubtractedWord | AK/BigIntBase.h:645-650 | One word of multiply-subtract keeps the equation between product, carry, borrow and words written |
| Division.StepEquation | AK/BigIntBase.h:658 | A digit takes over from the dividend exactly what it is worth at its place |
| Division.NormalizedDivisor | AK/BigIntBase.h:607-616 | Shifting the divisor left by its leading zeros loses no bit, keeps its length and sets its top bit |
| Division.NormalizedDividend | AK/BigIntBase.h:607-616 | The dividend shifted alike needs one word more at most, and that word is below the divisor |
| Division.Unnormalized | AK/BigIntBase.h:664-666 | Shifting the remainder back undoes the common factor |
| Division.RestoreRemainder | AK/BigIntBase.h:664-666 | The low words of the dividend storage, shifted right, are what the remainder storage holds |
| Division.CountLeadingZeroes | AK/BigIntBase.h:612 | The shift is the largest one that keeps the word within its width |
| QuotientDigit.EstimateDigit | AK/BigIntBase.h:619-639 | The two-step correction yields the exact quotient of the three leading words by the two leading words of the divisor, or the largest word when the top words are equal |
| QuotientDigit.TestMeaning | AK/BigIntBase.h:629-631 | The correction test on words decides whether the estimate is too large for the three leading words |
| QuotientDigit.LargeRemainder | AK/BigIntBase.h:633-637 | When the partial remainder leaves the word range, no second correction is needed |
| QuotientDigit.EstimateNotBelow | AK/BigIntBase.h:619-639 | The estimate is never below the true digit |
| QuotientDigit.EstimateNotFarAbove | AK/BigIntBase.h:619-639 | With the top bit of the divisor set the estimate is at most one above the true digit |
| QuotientDigit.EstimateAtTop | AK/BigIntBase.h:622-623 | With equal top words the largest word is at most one above the true digit |
| StorageOperations.Add | AK/BigIntBase.h:474-494 | operand1 plus or minus operand2 and the carry equals the result as a two's complement number plus the reported overflow times b^size, for signed and unsigned operands of any sizes, also in place |
| StorageOperations.AddAllWords | AK/BigIntBase.h:474-490 | The word loop adds the operands continued with their sign words to the width of the result, with one carry at the end |
| StorageOperations.AddWords | AK/BigIntBase.h:189-272 | Word addition and subtraction with carry: sum and carry out together are the exact result |
| StorageOperations.WideMultiply | AK/BigIntBase.h:275-284 | A product of two words plus a word fits in two words |
| StorageOperations.ShiftLeft | AK/BigIntBase.h:426-443 | Multiplies by 2^shift modulo the size of the storage, also in place |
| StorageOperations.ShiftRight | AK/BigIntBase.h:445-462 | Divides by 2^shift, rounding down, also in place |
| StorageOperations.NegativeSign | AK/BigIntBase.h:98-101 | The sign is the top bit of a signed storage |
| WordShifts.LeftShiftedValue | AK/BigIntBase.h:426-443 | Moving words and bits up is multiplication by a power of two, modulo the size |
| WordShifts.RightShiftedValue | AK/BigIntBase.h:445-462 | Moving words and bits down is division by a power of two |
| Words.ValueExtended | AK/BigIntBase.h:182-185 | Continuing a storage with its sign word keeps the number it denotes |
| Words.SignedRange | AK/BigIntBase.h:98-101 | The number of a signed storage is the one that its words stand for modulo b^size and that lies between -b^size/2 and b^size/2 |
| Words.ValueInjective | AK/BigIntBase.h:85-101 | Equal numbers in storages of equal length are equal words |
| Multiplication.BaselineMul | AK/BigIntBase.h:532-596 | The result storage holds the product modulo its size, for signed and unsigned storages in either order of their lengths; of two single words, which take a path of their own, if and only if the result has one word, or none is negative, or the other one is zero and the result has two words, or both are the least number, unless the product of two signed words overflows |
| Multiplication.MultiplyWithSigns | AK/BigIntBase.h:558-595 | Signs taken off before and put back after the schoolbook loop, and left alone when the result is no wider than the operands: both give the signed product modulo the size |
| Multiplication.Magnitude | AK/BigIntBase.h:562-573 | A negative operand is replaced by its magnitude in a new storage |
| Multiplication.AccumulateColumn | AK/BigIntBase.h:563-590 | One column: word and carry are the column sum, and the carry never outgrows its double word |
| Multiplication.MultiplyColumns | AK/BigIntBase.h:556-596 | Column by column the result is the product modulo its size |
| Multiplication.MultiplySingleWords | AK/BigIntBase.h:534-552 | The path for one word times one word multiplies them as words without signs and fills the words above the second with the sign of the product; a product of signed words that does not fit is left open, as the language leaves it |
| Multiplication.OneWordExactly | AK/BigIntBase.h:537-552 | For all words, signs and sizes: these words denote the product of the numbers exactly in those cases |
| Multiplication.MinusOneTimesOne | AK/BigIntBase.h:537-552 | Minus one times one in three words of any width comes out with a middle word of zero, where the product has its sign |
| Multiplication.SingleWordProduct | AK/BigIntBase.h:541-549 | What the words written denote: the product without signs, less the square of the base when the signs differ |
| Multiplication.ColumnsAreProduct | AK/BigIntBase.h:532-596 | The weighted sum of all columns is the product of the two numbers |
| Multiplication.CarryBound | AK/BigIntBase.h:563-590 | The bound on the carry between columns is kept from column to column |
| Comparison.Compare | AK/BigIntBase.h:322-366 | The order of the two numbers for every mix of signs and lengths; with the hint, whether they are equal |
| Comparison.CompareLowWords | AK/BigIntBase.h:346-366 | Once signs and high words agree, the highest differing word decides |
| Comparison.HighBitsDecide | AK/BigIntBase.h:334-354 | A word of the longer operand that is not the sign word makes it the larger one, or the smaller one if negative |
| Comparison.Increment | AK/BigIntBase.h:498-515 | Adds or subtracts one: old number plus or minus one = new number + overflow * b^size |
| Comparison.Negate | AK/BigIntBase.h:521-528 | Stores the two's complement negative, and tells whether the operand was not zero |
| HashTable.OrderedHashTable.Set | AK/HashTable.h:384-395 | An absent key is appended to the iteration order, a present one keeps its place and is overwritten or kept; the result says which; the capacity stays while the load factor is not reached and otherwise becomes the least power of two that is not below twice itself and the minimum; the load is below the factor afterwards |
| HashTable.OrderedHashTable.WriteValue | AK/HashTable.h:843-861 | The same without growing, given a free bucket |
| HashTable.OrderedHashTable.LookupForWriting | AK/HashTable.h:708-822 | Finds the bucket of a present key and changes nothing, or reserves a free bucket at the right place with every entry and the order kept |
| HashTable.OrderedHashTable.ProbeForWriting | AK/HashTable.h:745-785 | The probe ends at the key, at a free bucket or at a bucket closer to its home, and in the last two cases the key is absent |
| HashTable.OrderedHashTable.Displace | AK/HashTable.h:775-822 | Displacement moves the poorer entries on, bucket swaps with list neighbours included, and ends with the stolen bucket reserved |
| HashTable.OrderedHashTable.CommitInsertedBucket | AK/HashTable.h:826-840 | The reserved bucket becomes a used one at the end of the order |
| HashTable.OrderedHashTable.DeleteBucket | AK/HashTable.h:863-925 | Backward shift: exactly this entry leaves, the others keep their order, and the table stays well-formed |
| HashTable.OrderedHashTable.Lookup | AK/HashTable.h:659-673 | Finds the bucket of the key if and only if the key is in the table |
| HashTable.OrderedHashTable.Find | AK/HashTable.h:435-452 | Returns the entry with this key if and only if there is one |
| HashTable.OrderedHashTable.Remove | AK/HashTable.h:488-496 | Removes the entry with this key, if any, and reports whether there was one |
| HashTable.OrderedHashTable.RemoveAllMatching | AK/HashTable.h:518-534 | Terminates, and leaves exactly the entries that do not match, in their order, although deletions move buckets |
| HashTable.OrderedHashTable.TryRehash | AK/HashTable.h:623-651 | New buckets, a least power of two, same entries in the same order |
| HashTable.OrderedHashTable.Values | AK/HashTable.h:573-580 | Following the list from its head gives all entries in the order of insertion |
| HashTable.OrderedHashTable.ValuesInReverse | AK/HashTable.h:94-118 | Following it from its tail gives them reversed |
| HashTable.OrderedHashTable.UpdateCollectionForSwappedBuckets | AK/HashTable.h:716-742 | The list fix-ups after two buckets were swapped are the two composed link functions whose effect BucketLinks.SwappedLinked states |
| HashTable.OrderedHashTable.SwapBuckets | AK/HashTable.h:597-609 | Two used buckets trade entries, and the iteration order does not notice |
| HashTable.OrderedHashTable.MoveBucket | AK/HashTable.h:586-595 | An entry moves to a free bucket, and the iteration order does not notice |
| HashTable.OrderedHashTable.ShiftBucket | AK/HashTable.h:888-912 | An entry moves into the hole before it, its neighbours found through its own links |
| HashTable.OrderedHashTable.UnlinkBucket | AK/HashTable.h:866-880 | Exactly this entry leaves the list |
| HashTable.OrderedHashTable.LinkBucket | AK/HashTable.h:830-838 | The entry comes last in the list |
| HashTable.OrderedHashTable.constructor | AK/HashTable.h:178-178 | An empty table |
| HashTable.CapacityFor | AK/HashTable.h:625-626 | The new capacity is a power of two that suffices, while half of it would not |
| HashTable.ProbeLengthRoundTrip | AK/HashTable.h:675-698 | The one-byte state, saturated or not, gives back the true probe length |
| HashTable.PresenceByProbe | AK/HashTable.h:745-785 | Ending a write probe at a richer or free bucket proves the key absent |
| HashTable.LookupVerdict | AK/HashTable.h:659-673 | Ending a lookup at a free bucket proves the key absent |
| HashTable.StillNoneMatch | AK/HashTable.h:518-534 | A deletion brings no unexamined entry to a bucket already passed, even around the end of the array |
| HashTable.Committed | AK/HashTable.h:826-840 | Filling the reserved bucket makes a well-formed table |
| RobinHood.WalkedAbsent | AK/HashTable.h:745-785 | The early exit of the probe is sound |
| RobinHood.WalkEnds | AK/HashTable.h:745-785 | A free bucket ends every probe |
| RobinHood.TakeCell | AK/HashTable.h:760-822 | Taking the bucket at which the probe stopped keeps every probe length at most one above that of the bucket before |
| RobinHood.CarryOn | AK/HashTable.h:786-822 | Each displaced entry may take the next bucket or goes past it, and the arrangement is kept |
| RobinHood.ShiftBack | AK/HashTable.h:888-912 | Moving an entry back shortens its probe by one and moves the hole |
| RobinHood.HoleSettles | AK/HashTable.h:888-912 | The shift may stop before a free bucket or an entry at home |
| RobinHood.ProbeBelowCapacity | AK/HashTable.h:675-691 | With a free bucket no probe length reaches the capacity |
| HashTable.OrderedHashTable.Run | AK/HashTable.h:384-535 | Any run of sets, removals by key or by predicate and rehashes on an empty table: it ends with the keys and values of a plain map put through the same run, in the order in which the keys were inserted |
| HashTable.OrderedHashTable.Execute | AK/HashTable.h:384-535 | Each operation of a run has its effect on the entries |
| OrderedEntries.RunKeepsInsertionOrder | AK/HashTable.h:384-535 | Any sequence of contents linked by such effects shows the plain map |
| OrderedEntries.StepShows | AK/HashTable.h:384-535 | One effect keeps entries and map in step |
| OrderedEntries.FreeCellExists | AK/HashTable.h:583 | Fewer entries than buckets leave a bucket free |
| BucketLinks.SwappedLinked | AK/HashTable.h:716-742 | The fix-ups give one doubly linked list with the two buckets exchanged, also when they are neighbours in it |
| BucketLinks.SwappedAt | AK/HashTable.h:716-742 | What the two fix-ups leave in every bucket: both renamed to each other everywhere |
| BucketLinks.RelocatedLinked | AK/HashTable.h:888-912 | A moved bucket takes its place in the list once its neighbours point to it |
| BucketLinks.RemovedLinked | AK/HashTable.h:866-880 | Unlinking a bucket leaves one list of the others |
| BucketLinks.AppendedLinked | AK/HashTable.h:830-838 | Linking a bucket at the tail gives one list with it at the end |
| RedBlackTrees.RedBlackTree.Insert | AK/RedBlackTree.h:151-182 | Keeps the red-black rules, search order, parent links, size and cached minimum, and puts the node behind all nodes whose keys are not larger |
| RedBlackTrees.RedBlackTree.InsertFixups | AK/RedBlackTree.h:184-224 | Restores the red-black rules above a red node without changing the order of the nodes |
| RedBlackTrees.RedBlackTree.Remove | AK/RedBlackTree.h:226-304 | Exactly this node leaves the order, and everything is kept |
| RedBlackTrees.RedBlackTree.RemoveFixups | AK/RedBlackTree.h:307-362 | Restores equal black heights when one place lacks a black node, without changing the order |
| RedBlackTrees.RedBlackTree.RotateLeft | AK/RedBlackTree.h:52-77 | Pointer by pointer, a rotation to the left of this subtree and nothing else |
| RedBlackTrees.RedBlackTree.RotateRight | AK/RedBlackTree.h:79-104 | The mirror image |
| RedBlackTrees.RedBlackTree.Exchange | AK/RedBlackTree.h:240-286 | Relinking makes a node and its successor trade places everywhere, also when they are parent and child |
| RedBlackTrees.RedBlackTree.Splice | AK/RedBlackTree.h:288-304 | Taking out a node with at most one child and repairing leaves a red-black tree of the others |
| RedBlackTrees.RedBlackTree.Find | AK/RedBlackTree.h:106-116 | A node with this key, or null exactly when there is none |
| RedBlackTrees.RedBlackTree.FindLargestNotAbove | AK/RedBlackTree.h:118-132 | A node with the largest key that is not above this one, or null exactly when there is none |
| RedBlackTrees.RedBlackTree.FindSmallestNotBelow | AK/RedBlackTree.h:134-149 | A node with the smallest key that is not below this one, or null exactly when there is none |
| RedBlackTrees.RedBlackTree.Successor | AK/RedBlackTree.h:364-379 | The next node in order, or null behind the last |
| RedBlackTrees.RedBlackTree.Predecessor | AK/RedBlackTree.h:381-396 | The node before in order, or null before the first |
| RedBlackTrees.RedBlackTree.constructor | AK/RedBlackTree.h:398-401 | An empty tree |
| RedBlackTrees.RedBlackTree.Run | AK/RedBlackTree.h:478-594 | Any run of insertions and removals by key is a run of steps on the order, and leaves the keys that the same run leaves in a multiset, in order |
| RedBlackTrees.RedBlackTree.InsertKeyValue | AK/RedBlackTree.h:488-500 | A new node with this key and value is inserted |
| RedBlackTrees.RedBlackTree.RemoveKeyIfAny | AK/RedBlackTree.h:581-594 | Removes one node with this key, and reports whether there was one |
| TreeOrder.RunIsSortedMultiset | AK/RedBlackTree.h:151-304 | Any run of such steps keeps the order sorted and does to the nodes what it does to a multiset |
| TreeOrder.InsertedSorted | AK/RedBlackTree.h:151-182 | Insertion keeps the order sorted and adds exactly one node |
| TreeOrder.WithoutSorted | AK/RedBlackTree.h:226-304 | Removal keeps the order sorted and drops exactly one node |
| TreeOrder.RotatedLeftOrder | AK/RedBlackTree.h:52-77 | A rotation to the left keeps the order |
| TreeOrder.RotatedRightOrder | AK/RedBlackTree.h:79-104 | So does one to the right |
| TreeBalance.PushedUpRedAt | AK/RedBlackTree.h:192-199 | Recolouring with a red uncle moves the only possible violation up |
| TreeBalance.TurnedOutRedAt | AK/RedBlackTree.h:200-204 | Turning an inner grandchild out keeps black heights and order |
| TreeBalance.TurnedUpRedAt | AK/RedBlackTree.h:205-208 | The last rotation removes the violation |
| TreeBalance.RedAtSettled | AK/RedBlackTree.h:223-224 | Painting the root black leaves a red-black tree |
| TreeBalance.MinimumAfterInsertion | AK/RedBlackTree.h:176-181 | The test on the old minimum finds out whether the new node is the new minimum |
| TreeBalance.InsertedHere | AK/RedBlackTree.h:153-175 | Where the descent ends the node belongs |
| TreeBalance.NotFoundHere | AK/RedBlackTree.h:106-149 | A search that runs into a leaf has seen the neighbours of the missing key |
| TreeRemoval.SiblingTurnedShort | AK/RedBlackTree.h:313-319 | A red sibling makes way for a black one |
| TreeRemoval.SiblingPaintedShort | AK/RedBlackTree.h:320-323 | Painting the sibling red moves the deficit up |
| TreeRemoval.NephewTurnedShort | AK/RedBlackTree.h:325-331 | A red near nephew becomes a sibling with a red far nephew |
| TreeRemoval.FinishedRedBlack | AK/RedBlackTree.h:332-337 | With a red far nephew one rotation ends the repair |
| TreeRemoval.ShortSettled | AK/RedBlackTree.h:361-362 | A red node or the root ends the repair by turning black |
| TreeRemoval.BlackSpliced | AK/RedBlackTree.h:288-304 | Without a black node its place lacks exactly one black node |
| TreeRemoval.MinimumWithout | AK/RedBlackTree.h:230-234 | Removing the minimum makes its successor the minimum |
| TreeExchange.ExchangedTrades | AK/RedBlackTree.h:240-286 | The pointers written by the exchange rename the two nodes in the cell of every node |
| TreeRelinking.TradeFocused | AK/RedBlackTree.h:240-286 | So renamed, the cells form the same tree with the two nodes traded |
| LineIndex.LineTrackingLexer.PositionFor | AK/GenericLexer.cpp:11-39 | Inside the input line and column are those of a plain scan. At its end, as long as no place behind it has been asked for while it was listed, they are those of the scan if and only if the input is empty or ends with a newline, and otherwise column 0 of one more line; without a final newline they are never those of the scan, whatever has been asked before. Behind the end they are those of the last line start listed there, one more for every such question, and later answers for the end are one of these |
| LineIndex.LineTrackingLexer.Extend | AK/GenericLexer.cpp:15-26 | The index is extended to the place asked for, and no line start is listed twice unless the place lies behind the end |
| LineIndex.EndCounts | AK/GenericLexer.cpp:15-26 | How many line starts are listed once the end is: one more than the newlines, and one more again without a final newline |
| LineIndex.EndAnswer | AK/GenericLexer.cpp:28-38 | The answer for the end is the last line start |
| LineIndex.BehindAnswer | AK/GenericLexer.cpp:28-38 | Behind the end the last of all line starts answers, also when the end is listed several times |
| LineIndex.PlainAb | AK/GenericLexer.cpp:11-39 | By a plain scan the end of the input ab is two columns behind the start, on the first line |
| LineIndex.AbAtItsEnd | AK/GenericLexer.cpp:11-39 | A new index answers column 0 of the next line there |
| LineIndex.FirstLinePosition | AK/GenericLexer.cpp:28-38 | Without a newline before it, an index is as many columns behind the start position |
| LineIndex.NextLinePosition | AK/GenericLexer.cpp:28-38 | Behind a newline, an index is one line further on than the newline, and the columns count from there |
| LineIndex.LineTrackingLexer.constructor | AK/GenericLexer.h:501-509 | The index starts with the first line start, and the second or the end of the input |
| LineIndex.LineTrackingLexer.AddLineStart | AK/GenericLexer.cpp:15-26 | The index stays a list of all line starts up to the largest known one |
| LineIndex.AnswerAgrees | AK/GenericLexer.cpp:28-38 | The line start found for an index inside the input is that of the plain scan |
| CircularBuffers.CircularBuffer.CreateEmpty | AK/CircularBuffer.cpp:19-26 | An empty log |
| CircularBuffers.CircularBuffer.Write | AK/CircularBuffer.cpp:144-165 | Appends as many bytes as there is space for, also when the source is an earlier stretch of the same ring |
| CircularBuffers.CircularBuffer.Read | AK/CircularBuffer.cpp:167-188 | Takes the oldest unread bytes first |
| CircularBuffers.CircularBuffer.Discard | AK/CircularBuffer.cpp:211-219 | Drops the oldest unread bytes, or fails and changes nothing |
| CircularBuffers.CircularBuffer.ReadWithSeekback | AK/CircularBuffer.cpp:190-209 | Gives the bytes of the log that start this distance before the write head; fails exactly beyond the seekback limit |
| CircularBuffers.CircularBuffer.CopyFromSeekback | AK/CircularBuffer.cpp:254-278 | Appends, as far as there is room, what copying byte by byte from this distance back would append; is refused exactly beyond the seekback limit; and fails the check of the span exactly when the doubled distance overshoots |
| CircularBuffers.CircularBuffer.CopyPiece | AK/CircularBuffer.cpp:261-275 | One piece of such a copy keeps the period, and tells whether the distance still doubles |
| CircularBuffers.FittingIsSafe | AK/CircularBuffer.cpp:254-278 | A length that fits into the empty space never overshoots |
| CircularBuffers.FiveOvershootThree | AK/CircularBuffer.cpp:254-278 | Five bytes from two bytes back into three bytes of room overshoot, four do not |
| CircularBuffers.CircularBuffer.FiveOvershootThreeHere | AK/CircularBuffer.cpp:254-278 | Such a call, on a ring that has been filled and read, fails the check |
| CircularBuffers.PieceWhileGrowing | AK/CircularBuffer.cpp:261-275 | While the distance doubles the bytes written are one distance less than it, but for one piece cut short at the end of the ring |
| CircularBuffers.PhaseEnds | AK/CircularBuffer.cpp:261-275 | A copy that ends has not overshot |
| CircularBuffers.PhaseStops | AK/CircularBuffer.cpp:122-131 | A distance that fails the check has overshot |
| CircularBuffers.CircularBuffer.NextWriteSpan | AK/CircularBuffer.cpp:99-104 | The longest free stretch at the write head |
| CircularBuffers.CircularBuffer.NextReadSpan | AK/CircularBuffer.cpp:106-120 | The longest stretch of unread bytes from an offset on |
| CircularBuffers.CircularBuffer.NextSeekbackSpan | AK/CircularBuffer.cpp:122-131 | The longest stretch of the log from a distance before the write head on |
| CircularBuffers.CircularBuffer.NextSearchSpan | AK/CircularBuffer.cpp:133-142 | The longest stretch of the log from a distance before the read head on |
| CircularBuffers.CircularBuffer.FindCopyInSeekback | AK/CircularBuffer.cpp:469-514 | The first of the longest matches among the distances given, or nothing exactly when none of them has a match of the minimum length |
| CircularBuffers.CircularBuffer.FindMatchLength | AK/CircularBuffer.cpp:489-503 | Piece by piece around the end of the ring: the length of the common stretch, not past the read head |
| CircularBuffers.AppendHolds | AK/CircularBuffer.cpp:144-165 | Writing overwrites only bytes that fall out of the seekback window |
| CircularBuffers.RepeatedUnique | AK/CircularBuffer.cpp:254-278 | The equation out[i] = out[i - distance] determines the bytes copied |
| CircularBuffers.RepeatedIsPeriodic | AK/CircularBuffer.cpp:254-278 | The bytes copied one by one fulfil that equation, and keep what was there before |
| CircularBuffers.CircularBuffer.Run | AK/CircularBuffer.cpp:99-278 | Any run of writes, reads, discards, seekback reads and seekback copies on an empty ring is a run on a log of bytes: each operation is answered by what there is room for, what is unread and how far the ring reaches back, and nothing but a copy that overshoots ends it early |
| CircularBuffers.CircularBuffer.Execute | AK/CircularBuffer.cpp:99-278 | Each operation of such a run is one step on the log |
| ByteLogs.FirstInFirstOut | AK/CircularBuffer.cpp:144-278 | Over every such run: what an operation has written stands in the log behind all that was written before it, what it has read is what follows all bytes read or discarded before it, what it has read again or copied lies the distance back; and no more bytes leave than were written |
| ByteLogs.Counted | AK/CircularBuffer.cpp:144-278 | At any point of a run the answers so far tell how long the log is and how many bytes have left the queue |
| ByteLogs.Grows | AK/CircularBuffer.cpp:144-278 | The log only grows, and no byte comes back |
| CircularBuffers.CopyKeepsPeriod | AK/CircularBuffer.cpp:254-278 | Copying from a multiple of the distance, as the doubling does, continues the same period |
| CircularBuffers.ViewIntact | AK/CircularBuffer.cpp:144-165 | An overlapping write does not touch the bytes still to be copied |
| CircularBuffers.MatchCopies | AK/CircularBuffer.cpp:469-514 | A match copied back from its distance gives the next unread bytes |
| CircularBuffers.MatchMeans | AK/CircularBuffer.cpp:489-503 | A match is of equal bytes, and ends at the limit, at the read head, or before two bytes that differ |
| CircularBuffers.BestMeans | AK/CircularBuffer.cpp:469-514 | What the search finds is a stretch of equal bytes at one of the distances; no distance has a longer one of the lengths allowed, and none before it one as long; and if any has one, something is found |
| MemMem.Memmem | AK/MemMem.h:48-103 | The least offset at which a non-empty needle occurs in the concatenated chunks, or nothing exactly when it does not occur |
| MemMem.BitapBitwise | AK/MemMem.h:19-43 | The bit-parallel matcher gives the same for needles of 1 to 31 bytes |
| MemMem.MemmemOptional | AK/MemMem.h:106-130 | The dispatcher gives the first occurrence for every needle, the empty one included |
| MemMem.PreparePartialTable | AK/MemMem.h:52-78 | Each table entry is the longest border whose next byte differs, or -1 |
| MemMem.FallBack | AK/MemMem.h:60-72 | Falling back through the table finds the longest border that can be continued |
| MemMem.NeedleMasks | AK/MemMem.h:25-32 | The masks have a clear bit exactly where the needle has the byte |
| MemMem.MismatchSkips | AK/MemMem.h:86-99 | After a wrong byte the fallback skips no occurrence |
| MemMem.FallbackPasses | AK/MemMem.h:60-72 | Falling back passes over wrong next bytes only |
| MemMem.FallbackShared | AK/MemMem.h:60-66 | Where the next bytes agree the entry may be shared |
| MemMem.FirstUnique | AK/MemMem.h:106-130 | The first occurrence is unique, so that all matchers agree |
| BitStreams.WriteAndReadBack | AK/BitStream.h:380-457 | Any values with up to 64 bits each, written, aligned, flushed and read with the same counts, come back whenever each of these reads can be met by refilling the buffer and none of 64 bits comes before another |
| BitStreams.ReachDecides | AK/BitStream.h:249-272 | Whether a read can be met depends on its count and on the number of bits not yet read alone, however the stream has handed out its bytes |
| BitStreams.SmallCountsReadable | AK/BitStream.h:249-272 | Reads of up to 57 bits each can always be met |
| BitStreams.SevenThenSixty | AK/BitStream.h:249-272 | Seven bits, then sixty, then five: the second read cannot be met |
| BitStreams.WriteFields | AK/BitStream.h:380-457 | The bytes are the values packed lowest bit first, and less than a byte of clear bits |
| BitStreams.ReadFields | AK/BitStream.h:206-272 | Reading such bytes with the same counts gives the values, under the same condition on the counts |
| BitStreams.LittleEndianOutputBitStream.WriteBits | AK/BitStream.h:380-402 | Appends the bits of the value; the buffer never holds bits above its count |
| BitStreams.LittleEndianOutputBitStream.FlushBufferToStream | AK/BitStream.h:404-421 | Whole bytes go to the stream, the rest stays, no bit is lost |
| BitStreams.LittleEndianOutputBitStream.AlignToByteBoundary | AK/BitStream.h:441-447 | Pads with clear bits to a byte boundary |
| BitStreams.LittleEndianOutputBitStream.Finish | AK/BitStream.h:404-447 | Aligned and flushed, the bytes of the stream are the bits written and up to seven clear ones |
| BitStreams.LittleEndianInputBitStream.PeekBits | AK/BitStream.h:215-221 | The next bits as a number, left unread; fails exactly when they are missing and may not be made up |
| BitStreams.LittleEndianInputBitStream.ReadBits | AK/BitStream.h:206-212 | The next bits as a number, the first the lowest; past the end clear bits or an error; they are taken out of the buffer when they are fewer than 64 |
| BitStreams.LittleEndianInputBitStream.DiscardPreviouslyPeekedBits | AK/BitStream.h:223-232 | Drops bits from the buffer, at most those in it, when they are fewer than 64; otherwise any word may be left |
| BitStreams.DropsIffBelowWidth | AK/BitStream.h:223-232 | Whatever a machine does with too large shift amounts, the shift drops the bits if and only if they are fewer than the width of the word |
| BitStreams.OldBitsComeBack | AK/BitStream.h:223-232 | On a machine that takes the amount modulo 64, a byte that has been read is read again after a read of 64 bits |
| BitStreams.LittleEndianInputBitStream.RefillBufferFromStream | AK/BitStream.h:249-272 | Under that guard the loop ends, and collects whole bytes without losing or reordering bits, however few the stream gives at a time |
| BitStreams.LittleEndianInputBitStream.CollectBytes | AK/BitStream.h:262-268 | One round of the loop: the bytes read stand above the bits in the buffer |
| BitStreams.StuckUnlessCanRefill | AK/BitStream.h:249-272 | For every fill level, count and number of bytes left: no run of rounds of the refill loop leads to a state where it asks for no byte and goes on for ever, if and only if the whole bytes that fit reach the count or the stream ends before |
| BitStreams.StuckStays | AK/BitStream.h:249-272 | In such a state nothing changes any more |
| BitStreams.StuckAtSixty | AK/BitStream.h:249-272 | For instance 60 bits with one bit in the buffer and eight bytes to come |
| BitStreams.SmallCountsCanBeRefilled | AK/BitStream.h:249-272 | Counts up to 57 can always be collected |
| BigEndianBitStreams.WriteAndReadBack | AK/BitStream.h:298-348 | The same round trip for the big-endian pair |
| BigEndianBitStreams.WriteFields | AK/BitStream.h:298-348 | The bytes are the values packed highest bit first, and less than a byte of clear bits |
| BigEndianBitStreams.ReadFields | AK/BitStream.h:54-100 | Reading such bytes with the same counts gives the values |
| BigEndianBitStreams.BigEndianOutputBitStream.WriteBits | AK/BitStream.h:298-320 | Appends the bits of the value, the highest first, for counts that the type of the value can be shifted by |
| BigEndianBitStreams.BigEndianOutputBitStream.AlignToByteBoundary | AK/BitStream.h:339-347 | Pads with clear bits to a byte boundary |
| BigEndianBitStreams.BigEndianInputBitStream.ReadBits | AK/BitStream.h:54-100 | Takes the next bits as a number, the first the highest, whole bytes at once where possible; fails exactly when there are too few |
| BigEndianBitStreams.HighFirstAppend | AK/BitStream.h:54-100 | Shifting in a byte appends its eight bits |
| BitSequences.MaskedBits | AK/BitStream.h:133-139 | The mask keeps exactly the low bits |
| BitSequences.OrBits | AK/BitStream.h:380-402 | Combining the shifted value with the buffer appends its bits |
| BitmapViews.BitmapView.FindFirstFit | AK/BitmapView.h:314-322 | The least place with so many unset bits in a row, or nothing exactly when there is none |
| BitmapViews.BitmapView.FindNextRangeOfUnsetBits | AK/BitmapView.h:192-286 | From any bit, by whole buckets, trailing zeros and ones, and the tail: the first run of the minimum length, or nothing exactly when there is none, where the search goes back to the start of an unset bucket and of the bits behind the last bucket; the length reported is that of the run within the whole buckets, cut at the maximum, or the minimum when the run has to reach behind them |
| BitmapViews.SearchesFromThere | AK/BitmapView.h:202-224 | For every bitmap and place: the search leaves out all runs before the place it is asked to start at if and only if no bit there is unset |
| BitmapViews.FiveIntoABucket | AK/BitmapView.h:219-231 | From the sixth of 64 unset bits on it finds the first one |
| BitmapViews.BitmapView.FindLongestRangeOfUnsetBits | AK/BitmapView.h:288-312 | A run of unset bits of the length reported; that is the length of the longest run, cut at the maximum, if and only if the condition FindsLongest holds, which says how long the run across the end of the whole buckets may be |
| BitmapViews.StageEnds | AK/BitmapView.h:294-306 | The exact condition, for every state in which the search ends |
| BitmapViews.NextStage | AK/BitmapView.h:294-306 | What the searches have found so far, from one of them to the next |
| BitmapViews.LongestParts | AK/BitmapView.h:288-312 | The longest run lies on one side of a place, or across it |
| BitmapViews.WholeBucketsFindLongest | AK/BitmapView.h:288-312 | With a size that is a multiple of 64 the longest run is found |
| BitmapViews.SeventyUnset | AK/BitmapView.h:288-312 | Of 70 unset bits a run of 64 is reported |
| BitmapViews.BitmapView.ScanBucket | AK/BitmapView.h:229-265 | A mixed bucket: runs that cross its ends are carried over |
| BitmapViews.BitmapView.ScanTail | AK/BitmapView.h:267-286 | The bits behind the last bucket |
| BitmapViews.BitmapView.Get | AK/BitmapView.h:32-36 | The bit at this index |
| BitmapViews.BitmapView.CountInRange | AK/BitmapView.h:43-87 | The number of bits of a stretch with this value, whatever its ends and the alignment of the bytes |
| BitmapViews.BitmapView.CountBytes | AK/BitmapView.h:66-82 | Bytes, aligned words and bytes again count each bit once |
| BitmapViews.BitmapView.FindOneAnywhere | AK/BitmapView.h:94-160 | A bit with this value, the first from the start of the word of the hint on or else the first before it; nothing exactly when no bit has it |
| BitmapViews.BitmapView.FindInRange | AK/BitmapView.h:97-153 | The first bit with this value in a stretch, whatever its ends and the alignment |
| BitmapViews.BitmapView.FindInWord | AK/BitmapView.h:134-140 | A word with matching bits has a byte with one: the unreachable place is unreachable |
| BitmapViews.BitmapView.FindFirst | AK/BitmapView.h:173-178 | The first bit with this value, or nothing exactly when there is none |
| BitmapViews.TrailingOnes | AK/BitmapView.h:258-262 | The ones at the bottom of a word are the trailing zeros of its inverse |
| BitCounts.MaskedTwice | AK/BitmapView.h:49-56 | Counting under the two masks counts the bits between them |
| BitCounts.FirstMask | AK/BitmapView.h:17 | The table of first-byte masks |
| BitCounts.LastMask | AK/BitmapView.h:18 | The table of last-byte masks |
| QuickSort.DualPivotQuickSort | AK/QuickSort.h:29-105 | For any strict weak order: the range is a sorted permutation of itself, and all else is untouched. Calls are never nested more than `depth` deep, for any depth with fewer than 2^depth elements in the range: every recursive call gives up one level |
| QuickSort.OneLevelLess | AK/QuickSort.h:82-103 | A part of at most half of the range can be sorted with one level less |
| QuickSort.Levels | AK/QuickSort.h:29-105 | One and the logarithm of the size are levels enough, and no fewer levels have room for the size |
| QuickSort.SinglePivotQuickSort | AK/QuickSort.h:108-139 | The same, with the same bound on nested calls, for the single-pivot sort |
| QuickSort.Sort | AK/QuickSort.h:154-157 | The whole collection, with calls nested no deeper than one and the logarithm of its size |
| QuickSort.InsertionSort | AK/InsertionSort.h:16-23 | Sorts a range in place |
| QuickSort.Partition | AK/QuickSort.h:48-79 | Two pivots in place, with the lesser elements before, the greater ones behind and the others between them |
| QuickSort.Round | AK/QuickSort.h:37-103 | One round sorts the two smaller parts by calls with one level less, and leaves the largest one, which has none left, to the loop |
| QuickSort.PivotsPlaced | AK/QuickSort.h:76-80 | After the two last exchanges only the three parts are left to sort |
| SortedRanges.PermutingPart | AK/QuickSort.h:82-103 | Rearranging one part leaves everything else in order |
| OptionParsers.OptionParser.ParseAll | AK/OptionParser.cpp:20-78 | Calling getopt to the end: it succeeds exactly when every option is well-formed; the options reported, with their arguments, are those of a left-to-right reading; the arguments become options with their values and a double dash, then all others, or stay as they are after a leading plus sign, where the first plain argument ends the options. If a long option has the value that stands for the end, the reports are those before the first such one |
| OptionParsers.NoValueLooksLikeEnd | AK/OptionParser.cpp:20-78 | That never happens when no long option has this value |
| OptionParsers.EndAsValue | AK/OptionParser.cpp:20-78 | With such an option nothing is reported |
| WrittenOptions.WriteAndParse | AK/OptionParser.cpp:20-288 | Any options, in all their spellings, and any plain arguments, written in any order and parsed: every option is reported with its value, options with their values come first, plain arguments last, and both keep their order. What is an option, and whether it has a value, is read off the text of the short options and the list of long ones |
| WrittenOptions.WriteAndFail | AK/OptionParser.cpp:20-288 | An unknown letter or word, a missing value or one too many ends the parsing with an error, after everything before it has been reported |
| WrittenOptions.WrittenIsRead | AK/OptionParser.cpp:20-288 | The same for the reports and the partition of such a command line with anything behind it |
| WrittenOptions.FaultFails | AK/OptionParser.cpp:103-234 | Each of these faults, behind any letters that are fine |
| WrittenOptions.EndsWell | AK/OptionParser.cpp:265-288 | Nothing behind a double dash is an option, nor behind a plain argument after a leading plus sign |
| WrittenOptions.OneColon | AK/OptionParser.cpp:80-154 | A letter with one colon in the text of the short options takes the next argument as its value, or what stands behind it |
| WrittenOptions.TwoColons | AK/OptionParser.cpp:80-154 | With two colons only what stands behind it |
| WrittenOptions.NoColon | AK/OptionParser.cpp:80-154 | With none it has no value |
| WrittenOptions.OfferedLetter | AK/OptionParser.cpp:80-101 | What the colons behind a letter stand for |
| WrittenOptions.LettersRead | AK/OptionParser.cpp:103-154 | Letters behind one dash are reported one by one, the last one with its value |
| WrittenOptions.WordFound | AK/OptionParser.cpp:156-182 | A word, alone or with an equals sign and a value, is the first long option of its name |
| OptionParsers.OptionParser.GetOpt | AK/OptionParser.cpp:20-78 | One call reports the next option of that reading, moves it and its value in front of what was skipped and keeps the order of both |
| OptionParsers.OptionParser.HandleShortOption | AK/OptionParser.cpp:103-154 | One letter of a cluster: what it reports and how many arguments the cluster takes |
| OptionParsers.OptionParser.HandleLongOption | AK/OptionParser.cpp:184-237 | A long option: its value from behind the equals sign or from the next argument, or an error |
| OptionParsers.OptionParser.FindLongOption | AK/OptionParser.cpp:156-182 | The first option of the list that the argument names |
| OptionParsers.OptionParser.ShiftArgv | AK/OptionParser.cpp:239-263 | The arguments consumed change places with those skipped |
| OptionParsers.OptionParser.FindNextOption | AK/OptionParser.cpp:265-288 | Stops at the next option, a double dash or the end |
| OptionParsers.PartitionIsStable | AK/OptionParser.cpp:20-288 | Both groups are subsequences of the arguments, chosen by one set of marks |
| OptionParsers.ProgressTake | AK/OptionParser.cpp:67-70 | Moving an option forward is one step towards the stable partition |
| OptionParsers.ReportsTake | AK/OptionParser.cpp:72-77 | One report is taken off the front of what is still to come |
| LexicalPaths.CanonicalizedPath | AK/LexicalPath.cpp:101-145 | The loop and the early exit both give the canonical form |
| LexicalPaths.CanonicalIdempotent | AK/LexicalPath.cpp:101-145 | Canonicalizing twice is canonicalizing once |
| LexicalPaths.EarlyExitAgrees | AK/LexicalPath.cpp:106-109 | Where the early exit is taken the path is canonical already |
| LexicalPaths.AbsolutePath | AK/LexicalPath.cpp:147-153 | An absolute target in canonical form, or the target resolved at the directory: it stands for the place to which the parts of the directory and then of the target lead |
| LexicalPaths.CanonicalWalks | AK/LexicalPath.cpp:101-145 | Followed part by part, a path and its canonical form lead to the same place: a relative one from every place, an absolute one from the root |
| LexicalPaths.OnlyCanonical | AK/LexicalPath.cpp:101-145 | It is the only form that does so without single dots and with double dots only at the start of a relative path |
| LexicalPaths.OneNormalForm | AK/LexicalPath.cpp:101-145 | Two such lists of parts that lead to the same places from everywhere are the same |
| LexicalPaths.PartAndDotsCancel | AK/LexicalPath.cpp:118-139 | A part and the double dot behind it, a single dot and an empty part can be left out anywhere, in relative paths too |
| LexicalPaths.ResolvedIsWalked | AK/LexicalPath.cpp:101-145 | An absolute path stands for the place to which its parts lead from the root |
| LexicalPaths.RelativePath | AK/LexicalPath.cpp:155-198 | A text that leads from the prefix to the path with no more steps up, and no more parts, than any other way; it is canonical, but for a slash behind steps up alone; a single dot for equal paths; nothing exactly when a path is not absolute |
| LexicalPaths.NoShorterWay | AK/LexicalPath.cpp:179-195 | Any way from p to a goes up at least as often as p has parts that a does not start with, and has as many parts as are left of a |
| LexicalPaths.ShortestIsShortest | AK/LexicalPath.cpp:155-198 | The text has just as many |
| LexicalPaths.ShortestIsCanonical | AK/LexicalPath.cpp:187-198 | When the text is in canonical form |
| LexicalPaths.RelativeThenAbsolute | AK/LexicalPath.cpp:147-198 | Going from p to a by the relative path gives a in canonical form |
| LexicalPaths.LeadsBack | AK/LexicalPath.cpp:147-198 | Any text that leads from p to a, resolved at p, is a in canonical form |
| LexicalPaths.DirectChild | AK/LexicalPath.cpp:174-177 | The special case for a path below the prefix gives the same text as the general one |
| LexicalPaths.RenderedResolves | AK/LexicalPath.cpp:141-145 | Canonical parts, joined and split again, are the same parts |
| LEB128.UnsignedRoundTrip | AK/LEB128.h:27-127 | For every width: decoding an encoded value with anything behind it gives the value and consumes the encoding, at most ceil(width / 7) bytes |
| LEB128.SignedRoundTrip | AK/LEB128.h:63-142 | The same for signed values |
| LEB128.ReadUnsigned | AK/LEB128.h:27-61 | Accepts exactly the terminated group sequences whose value fits, and gives that value |
| LEB128.ReadSigned | AK/LEB128.h:63-96 | Accepts exactly the terminated group sequences whose signed value fits, and gives that value |
| LEB128.WriteUnsigned | AK/LEB128.h:116-126 | Writes the encoding |
| LEB128.WriteSigned | AK/LEB128.h:129-141 | Writes the encoding |
| LEB128.EncodedUnsignedMeans | AK/LEB128.h:116-126 | The encoding has the value as its payload, ends with its only unmarked byte and has no more groups than the bits need |
| LEB128.GroupFits | AK/LEB128.h:42-52 | A group that passes the check is added without losing bits |
| LEB128.LastGroup | AK/LEB128.h:78-86 | The check of the last signed group passes exactly when the value fits |
| LEB128.SignExtended | AK/LEB128.h:88-94 | Sign extension gives the two's complement pattern of the value |
| BinaryHeaps.IntrusiveBinaryHeap.constructor | AK/BinaryHeap.h:22-27 | Heapifying from the middle down makes any nodes a heap. All nodes know their indices afterwards if they all did before; in one run they do exactly when those that have not moved did, and none moves exactly when every node is greater than its parent |
| BinaryHeaps.IntrusiveBinaryHeap.Insert | AK/BinaryHeap.h:32-37 | Adds exactly this node, keeps the heap and the recorded indices |
| BinaryHeaps.IntrusiveBinaryHeap.Pop | AK/BinaryHeap.h:46-56 | Removes exactly the node at this index, keeps the heap and the recorded indices |
| BinaryHeaps.IntrusiveBinaryHeap.PopMin | AK/BinaryHeap.h:58-61 | Removes a node that no other is less than |
| BinaryHeaps.IntrusiveBinaryHeap.HeapifyUp | AK/BinaryHeap.h:91-100 | Sifting up repairs a heap broken at one place |
| BinaryHeaps.IntrusiveBinaryHeap.HeapifyDown | AK/BinaryHeap.h:102-114 | Sifting down repairs a heap broken at one place |
| BinaryHeaps.RootIsLeast | AK/BinaryHeap.h:58-61 | No node of a heap is less than the root |
| BinaryHeaps.RecordedExactly | AK/BinaryHeap.h:79-84 | After any moves all nodes know their indices exactly when those that have not moved knew before |
| BinaryHeaps.UntoldStays | AK/BinaryHeap.h:22-27 | No weaker condition than that all nodes knew their indices before is enough for every order: if one did not, the heap built with the order in which the nodes stand moves none of them and does not record all indices |
| BinaryHeaps.OneNodeUntold | AK/BinaryHeap.h:22-27 | The only node of a new heap has not been told its index |
| MemoryStreams.AllocatingMemoryStream.WriteSome | AK/MemoryStream.cpp:220-237 | Appends all bytes to the queue, through as many chunks as it takes |
| MemoryStreams.AllocatingMemoryStream.ReadSome | AK/MemoryStream.cpp:200-218 | Takes the oldest bytes first, until the target is full or none are left |
| MemoryStreams.AllocatingMemoryStream.PeekSome | AK/MemoryStream.cpp:179-198 | Copies the same bytes and leaves them in the queue |
| MemoryStreams.AllocatingMemoryStream.Discard | AK/MemoryStream.cpp:239-260 | Drops the oldest bytes, or fails and changes nothing |
| MemoryStreams.AllocatingMemoryStream.OffsetOf | AK/MemoryStream.cpp:262-280 | The first place of a non-empty needle among the unread bytes, across chunks |
| MemoryStreams.AllocatingMemoryStream.AppendNewChunk | AK/MemoryStream.cpp:141-156 | A new chunk adds nothing to the queue |
| MemoryStreams.AllocatingMemoryStream.PopHeadChunk | AK/MemoryStream.cpp:158-169 | Dropping a chunk that has been read changes nothing in the queue |
| MemoryStreams.AllocatingMemoryStream.Run | AK/MemoryStream.cpp:171-260 | Any run of writes, reads, peeks and discards on an empty stream is such a run on a log of bytes, in which every write takes all bytes: first in, first out |
| MemoryStreams.AllocatingMemoryStream.Execute | AK/MemoryStream.cpp:171-260 | Each operation of such a run is one step on the log |
| AtomicRefCounted.StepKeepsSafe | AK/AtomicRefCounted.h:26-82 | Every step of every thread, handing a reference on included, keeps the invariant, unless it finds the counter full; then the process ends, or ends when that thread goes on |
| AtomicRefCounted.RunIsSafe | AK/AtomicRefCounted.h:26-82 | So does every run, with the steps of the threads in any order, as long as no thread has incremented a full counter |
| AtomicRefCounted.DoomedStays | AK/AtomicRefCounted.h:26-31 | No other step saves the process then |
| AtomicRefCounted.DoomedByFullCounter | AK/AtomicRefCounted.h:26-31 | That takes as many references as the counter can count |
| AtomicRefCounted.OwnedIsAlive | AK/AtomicRefCounted.h:26-82 | While a thread owns a reference the object exists and nobody is about to destroy it |
| AtomicRefCounted.DeadStaysDead | AK/AtomicRefCounted.h:33-62 | Once the counter is zero it stays zero, and the object is destroyed at most once |
| AtomicRefCounted.TryRefIsRight | AK/AtomicRefCounted.h:33-43 | A try_ref that succeeds got its reference to a living object; one that gives up found it dead |
| AtomicRefCounted.DestroyedExactlyOnce | AK/AtomicRefCounted.h:56-82 | When nobody owns a reference or is about to destroy the object, it has been destroyed exactly once |
| AtomicRefCounted.OwnedIsReferences | AK/AtomicRefCounted.h:26-82 | At any point of a run every thread owns what its calls have taken and been handed, less what they have dropped and handed on |
| AtomicRefCounted.CounterIsBalance | AK/AtomicRefCounted.h:26-62 | The counter is one, and the references taken by ref and by successful try_refs, less the unrefs so far |
| AtomicRefCounted.LastUnrefDestroys | AK/AtomicRefCounted.h:57-82 | An unref makes its thread the one that is about to destroy the object, and the only one, if and only if that balance is zero after it |
| AtomicRefCounted.DestroyerDestroys | AK/AtomicRefCounted.h:51-55 | When that thread goes on, the object has been destroyed, for the first time, and the check of the destructor holds |
| AtomicRefCounted.BalancedIsDestroyed | AK/AtomicRefCounted.h:26-82 | With no call under way, the object has been destroyed once if the calls balance, and not at all otherwise |
| AtomicRefCounted.ExchangeSucceeds | AK/AtomicRefCounted.h:33-43 | The exchange of a try_ref gets its reference if and only if the counter is what the thread expects; it fails only when another thread has changed the counter since this one last looked |
| AtomicRefCounted.ExpectedWasSeen | AK/AtomicRefCounted.h:33-43 | What a thread in try_ref expects is what the counter was when the thread last looked |
| AtomicRefCounted.NobodyIsStuck | AK/AtomicRefCounted.h:26-82 | A thread inside a call can always go on, and an owner can drop its reference |
| AtomicRefCounted.CallsMayStart | AK/AtomicRefCounted.h:26-82 | Between calls any thread may start a try_ref, and an owner any other call |
| AtomicRefCounted.CallsEnd | AK/AtomicRefCounted.h:26-82 | Which actions end a call, and that no action touches the call of another thread |

## Left out

- Allocation failure, placement new, moves and destructors: allocation succeeds and values are copied.
- Compiler intrinsics and inline assembly: word addition with carry, population counts and zero counts are specified by their arithmetic meaning; the host is little-endian.
- Big integers: bitwise operations, `copy` and `set`, and division by one word, which another file handles.
- Multiplication.MultiplySingleWords: what a product of two signed words gives that does not fit in the signed double word, which the language does not define.
- `HashTable`: the unordered iteration, copying and moving tables, `ensure` and its callbacks, `take_first`, `take_last` and `take_all_matching`; hash codes are a function of the key without a fixed width.
- RedBlackTrees.RedBlackTree.Insert: keys and values are integers, and nodes are never freed.
- `CircularBuffer`: `create_initialized`, which does not set the seekback limit, `offset_of`, the transfers from and to other streams, and the hash chains of the searchable buffer.
- MemMem.Memmem: an empty needle, which the table of the chunked search has no entry for.
- `BitmapView`: the best-fit search.
- BitStreams.LittleEndianInputBitStream.ReadBits: what is left in the buffer after a read of 64 bits, which the language does not define; `is_eof`, reads that bypass the bit buffer and errors of the underlying stream are not modelled.
- OptionParsers.OptionParser.ParseAll: the order of the arguments when the parsing ends at an option whose value is the end mark; a letter that occurs twice among the short options, for which the code stops, is reported as an error.
- `OptionParser`: the index and the flag that a long option writes through pointers, and error messages.
- `LexicalPath`: base names, directory names, titles and extensions, and Windows paths.
- MemoryStreams.AllocatingMemoryStream.OffsetOf: an empty needle.
- `MemoryStream`: streams over fixed memory.
- LineIndex.LineTrackingLexer.PositionFor: which one of several line starts at the end answers, once a place behind the end has been asked for, depends on the shape of the tree and is not determined.
- `AtomicRefCounted`: memory orders; the atomic operations are steps of one total order.
- Floating-point code, JSON, Base64, formatting and other wrappers over code elsewhere.
