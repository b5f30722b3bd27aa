# The integer kernel, the arrays, the class hierarchy and the branch compiler of Ruby, in Dafny

This project models the parts of Ruby's C core whose correctness is hardest to see, and proves
what they are for.

* **Big integers** (`bignum.c`, the build without GMP, 32-bit digits).  Digit buffers are spans
  of one array, so that the aliasing the code relies on (results written over operands, the
  remainder area reused as workspace, products laid over the points they are computed from) is
  part of the model.  Variables of digit, double-digit and signed double-digit type have subset
  types: every assignment carries a proof that nothing is cut off, and where the code relies on
  wrap-around it is written out.  Every contract is stated in terms of the integers the buffers
  stand for, and says that no other span changes.  On top of addition, subtraction, complement and
  shifts stand schoolbook and fast squaring multiplication, Karatsuba, Toom-3, slicing, the
  dispatcher that mixes them, long division, printing and reading in a radix by divide and
  conquer, bit operations on signed numbers, and packing into and unpacking from words of bytes.
* **Arrays** (`array.c`).  An array is embedded, owns its buffer, shares the buffer of a counted
  root, or is a frozen root itself.  The heap is a class; its invariant says what the share counts
  mean.  Operations that write into a shared buffer do so in the model too.  The main theorem is
  about whole runs: a program's arrays behave like independent sequences.  The enumerators of
  permutations and combinations and the explicit-stack flatten are modelled with their loops.
* **Metaclasses** (`class.c`).  `make_metaclass` changes class pointers in the middle of a
  recursion through superclasses and metaclasses.  Proved: it ends, and after any operations,
  singleton classes of ordinary objects and their metaclasses included, the superclass of the
  metaclass is the metaclass of the superclass.
* **Branches** (`compile.c`).  Conditions compiled to labelled branches, the encoding of labels as
  relative offsets, and the threading of branches, against a small-step machine that records which
  conditions were evaluated; and the three together.

Files follow the program: `Bits`, `Digits`, `AddSub`, `Shift`, `MulKernel`, `Division`,
`KaratsubaSteps`, `MulPrecheck`, `Toom3Steps`, `Multiply` are the multiplication and division kernel;
`Bitwise`, the files starting with `Radix`, and those starting with `Pack` and `Unpack` stand on it;
`ArrayState`, `ArrayHeap`, `ArrayOps`, `ArrayRuns` are the arrays; `Tuples`, `Counting`,
`Enumerate`, `Flatten` the enumerators and flatten; `Metaclass`, `ClassHeap` the classes;
`Branches`, `Sequence`, `Threading` the compiler.  `dafny verify dfyconfig.toml` checks everything.

Four things the code does not do as one would expect are stated as results:

* `ary_ensure_room_for_unshift` takes a shared buffer with room in front without looking whether
  the array is frozen.  `ArrayOps.Unshift` says exactly when a frozen array is changed (`Unchecked`,
  a condition on the storage before the call), and `ArrayOps.PrependToFrozen` is a run in which it is.
* `ary_double_capa` gives no room beyond the smallest allowed size when that size is the largest
  there is or one less: `ArrayState.NewCapaRoom` states it as an equivalence.
* That is why storing an element at the last index allowed finds no room, unless the array has the
  capacity already: `ArrayOps.Store` says exactly when (`NoRoom`).
* Unpacking no words in two's complement, with the sign to be taken from the highest bit, looks for
  that bit outside the buffer on the shortcuts, although no words mean 0 (`UnpackFast.NoWordsMeanZero`).
  `UnpackFast.BaryUnpack` says exactly when (`LooksOutside`, a condition on the flags and the number of
  words), and `UnpackFast.NoHighestBit` is an input for which it does.

## Model

| member | source | states |
|---|---|---|
| `AddSub.Addc` | bignum.c:1376-1419 | sum of two buffers and a carry, with the carry out, also written over an operand |
| `AddSub.Add` | bignum.c:1422-1425 | the same without a carry in |
| `AddSub.Subb` | bignum.c:1313-1361 | difference with borrow in and out, for operands of any lengths |
| `AddSub.Sub` | bignum.c:1364-1367 | the same without a borrow in |
| `AddSub.SubOne` | bignum.c:1370-1373 | one less, the borrow told |
| `AddSub.AddOne` | bignum.c:1428-1437 | one more, the carry told |
| `AddSub.TwoComp` | bignum.c:449-467 | b^n minus the number, and whether it was zero |
| `Shift.SmallLshift` | bignum.c:399-411 | times a power of two, with what is shifted out |
| `Shift.SmallRshift` | bignum.c:414-428 | divided by a power of two, digits shifted in from above, no bit lost between digits |
| `MulKernel.MulAdd` | bignum.c:1452-1484 | adds a digit times a buffer, with the digit carried out |
| `MulKernel.MulNormal` | bignum.c:1527-1537 | schoolbook product, all higher digits zero |
| `MulKernel.SqRowLoop` | bignum.c:1555-1606 | the inner loop of squaring: the running carry never exceeds 2b - 2, so the double digit does not overflow |
| `MulKernel.SqDoneBound` | bignum.c:1555-1606 | what is accumulated stays so small that the unchecked digit increments cannot wrap |
| `MulKernel.SqFast` | bignum.c:1555-1606 | fast squaring is x * x |
| `MulPrecheck.MulSingle` | bignum.c:1440-1449 | product of two digits |
| `MulPrecheck.ShortMul` | bignum.c:2299-2310 | product of short operands |
| `MulPrecheck.MulByPow2` | bignum.c:2399-2403 | a digit that is a power of two: a shift, the same product |
| `MulPrecheck.Precheck` | bignum.c:2326-2421 | either the product is done, or x * y is the product of two shorter operands without outer zeros, shifted by the zeros already written |
| `KaratsubaSteps.SubAbs` | bignum.c:1748-1763 | the absolute difference, and its sign |
| `KaratsubaSteps.AddLowProduct` | bignum.c:1786-1795 | x0*y0 added in two places at once, with the two carries it leaves |
| `KaratsubaSteps.AddHighProduct` | bignum.c:1803-1807 | x1*y1 added one half lower, reading digits it overwrites, with the carry |
| `KaratsubaSteps.FinishCarries` | bignum.c:1811-1823 | the leftover half and the combined carry1 + carry3 - borrow, exact up to multiples of b^zn |
| `Multiply.KaratsubaIdentity` | bignum.c:1724-1733 | the three products give x * y |
| `Multiply.CrossTerm` | bignum.c:1744-1778 | the middle product with its sign, modulo b^2n, and the borrow |
| `Multiply.KaratsubaEven` | bignum.c:1735-1823 | x * y for even length: the ignored carries are zero because the result is exact modulo b^zn and below it |
| `Multiply.Karatsuba` | bignum.c:1680-1846 | x * y for every xn <= yn < 2*xn, odd, both odd and squares of one buffer included |
| `Multiply.Balance` | bignum.c:1620-1665 | x * y by slices of the operand that is not shorter, partial products beside or over the sum |
| `Toom3Steps.Evaluate` | bignum.c:2011-2043 | the values at 1, -1 and -2 as magnitude and sign, each within n + 1 digits |
| `Toom3Steps.ProductAtPoints` | bignum.c:1992-2000 | the values of the product polynomial are the products of the values |
| `Toom3Steps.InterpolateFirst` | bignum.c:2114-2159 | the first differences; the division by 3 and the halvings leave no remainder |
| `Toom3Steps.InterpolateSecond` | bignum.c:2161-2214 | the coefficients come out, each with its sign and within 2n + 1 digits |
| `Toom3Steps.Recombine` | bignum.c:2220-2235 | signed sums over the 6n + 1 digits give the polynomial at b^n |
| `Toom3Steps.ProductEvaluated` | bignum.c:1977-2005 | and that is the product of the operands |
| `Multiply.CarveProducts` | bignum.c:1908-1948 | the work area is cut into pieces that do not overlap where the points are multiplied |
| `Multiply.CarveInterpolation` | bignum.c:1908-1951 | the 6n + 1 digits of the result, laid over the first pieces, touch no piece still in use |
| `Multiply.Products` | bignum.c:2084-2108 | the five products, with the asserted top digits zero |
| `Multiply.Toom3` | bignum.c:1862-2243 | x * y, with the higher digits zero |
| `Multiply.KaratsubaBranch` | bignum.c:2424-2451 | x * y whichever way is taken, also for any outcome of the random test for sparse operands |
| `Multiply.Toom3Branch` | bignum.c:2463-2476 | x * y whichever way is taken |
| `Multiply.Start` | bignum.c:2454-2485 | x * y after the precheck; the mutual recursion ends |
| `Multiply.Mul` | bignum.c:2488-2516 | x * y for all operands, higher digits zeroed, nothing else changed |
| `Division.MulSub` | bignum.c:1487-1510 | z - x*y in the low digits with a signed rest, the top digit left alone |
| `Division.TrialDigitBounds` | bignum.c:2539-2540 | the trial digit is a digit, never below the true one and at most 2 above it |
| `Division.AddBack` | bignum.c:2545-2551 | adding back until the sign is right ends at the true digit and remainder; overwriting the sign word is accumulating it |
| `Division.DivStep` | bignum.c:2539-2554 | one quotient digit, at most two additions back, the digit stored over the top digit |
| `Division.DivRem1` | bignum.c:2525-2557 | quotient and remainder side by side in the dividend's buffer |
| `Division.DivSingle` | bignum.c:2567-2589 | division by one digit, also over the dividend and for powers of two |
| `Division.Restoring` | bignum.c:2598-2634 | division by any normalised divisor, low zero digits and a single nonzero digit included |
| `Division.DivModNormal` | bignum.c:2637-2695 | quotient and remainder exactly, whichever of the two result buffers are given and used as workspace |
| `Bitwise.BitMeaning` | bignum.c:6608-6650 | bit k of an integer is bit 0 of it shifted down, in infinite two's complement |
| `Bitwise.SameBits` | bignum.c:6608-6650 | an integer is determined by its bits |
| `Bitwise.Abs2TwoComp` | bignum.c:3039-3057 | digits and sign bits standing for the same integer |
| `Bitwise.TwoComp2Abs` | bignum.c:3060-3066 | and back, also for -b^n, which needs a digit more |
| `Bitwise.CombinedBits` | bignum.c:6319-6331 | operating on digits, the shorter operand extended by its sign, operates on every bit |
| `Bitwise.BigOp` | bignum.c:6287-6335 | every bit of the and of two numbers (with 6406-6454 and 6500-6545: or, exclusive or) is the operation on their bits |
| `Bitwise.Aref` | bignum.c:6608-6650 | the bit read is the bit of the integer, for every position and sign |
| `Bitwise.ShiftLeft` | bignum.c:4511-4523 | times a power of two, or the error for too large a count |
| `Bitwise.ShiftRight` | bignum.c:4525-4545 | floor division by a power of two for every sign, results of exactly -b^n included |
| `RadixText.ReadRep` | bignum.c:4720-4840 | the canonical text reads as its number and has no leading zero |
| `RadixText.RepUnique` | bignum.c:4720-4840 | and no other text has both properties |
| `RadixText.RepSplit` | bignum.c:4822-4838 | quotient text, then the remainder padded with zeros, is the text of the whole |
| `RadixText.PaddedSplit` | bignum.c:4822-4838 | the same for inner parts |
| `RadixTable.Entries` | bignum.c:254-278 | every entry of the 64-bit table is the power of its base it should be, and the next power does not fit |
| `RadixWrite.MaxPow` | bignum.c:325-357 | the entry of the table, which is the largest power of the base in a double digit |
| `RadixWrite.Less` | bignum.c:381-396 | comparison by length, then from the top |
| `RadixWrite.GetPower` | bignum.c:4617-4658 | the power at a level, without leading zeros, computed anew |
| `RadixWrite.PowerCache.Get` | bignum.c:4617-4658 | the same from the table of powers, which keeps what it computes and never changes an entry |
| `RadixWrite.DivideInPlace` | bignum.c:4803-4832 | remainder and quotient in the dividend's place, after scaling and unscaling |
| `RadixWrite.Write2` | bignum.c:4681-4717 | a double digit: as first digits without leading zeros, later with exactly nd places |
| `RadixWrite.FindLevel` | bignum.c:4765-4783 | the level found is the highest whose power the number reaches |
| `RadixWrite.Write` | bignum.c:4720-4840 | an inner call emits exactly nd * 2^level characters; the first digits start the text |
| `RadixWrite.StartLevel` | bignum.c:4903-4924 | the level chosen has a power above x, the workspace suffices, and no level beyond the table is asked for |
| `RadixWrite.ToText` | bignum.c:4880-4954 | sign and canonical digits for every magnitude and radix; exactly when the two errors occur, and that the third cannot |
| `RadixWrite.RepFits` | bignum.c:4671-4673 | a number that passes the size test has a text that fits, so the error for its length cannot occur |
| `RadixRead.ReadNormal` | bignum.c:3807-3848 | digit by digit: the number the text stands for |
| `RadixRead.ReadChunks` | bignum.c:3879-3902 | double digits from the last character on, the last chunk cut short |
| `RadixRead.CombineBlock` | bignum.c:3906-3916 | two neighbouring blocks joined, a short or missing partner included, without a carry lost |
| `RadixRead.CombineLevel` | bignum.c:3904-3917 | all blocks of a level joined to those of the next |
| `RadixRead.ReadKaratsuba` | bignum.c:3851-3931 | divide and conquer reads the same number |
| `RadixRead.ReadText` | bignum.c:4180-4198 | whichever reader is chosen, the number the digits stand for |
| `RadixRead.WriteThenRead` | bignum.c:4880-4954 | what is written reads back as the same number |
| `PackFormat.PackedBound` | bignum.c:3505-3527 | n words hold numbers below 2 to the number of their bits |
| `Pack.LoopSetup` | bignum.c:523-585 | start, step and end of the walk over words and bytes in either order |
| `Pack.BitSource.Fill` | bignum.c:588-598 | refilling keeps the number not yet taken, and gives at least 32 bits |
| `Pack.BitSource.TakeLowbits` | bignum.c:601-608 | the low bits are taken and the rest is the quotient |
| `Pack.PackWord` | bignum.c:851-869 | one word takes its bits; its nails are zero and no other byte changes |
| `Pack.PackWords` | bignum.c:839-875 | all words: the buffer and what is left over make up the number |
| `Pack.PowerTest` | bignum.c:887-894 | one digit other than zero, a power of two: exactly the number 2^N |
| `Pack.OverflowTest` | bignum.c:876-897 | the code for sign and overflow, from what is left over |
| `Pack.ComplementWords` | bignum.c:900-950 | the words become their two's complement, nails kept zero |
| `Pack.GenericPack` | bignum.c:805-955 | the code documented at 3505-3527 for every value and format, and the buffer holds the number modulo 2^N |
| `PackBytes.PackedUnique` | bignum.c:627-955 | only one buffer stands for a number in a format |
| `PackFast.BytesComp` | bignum.c:612-623 | two's complement of bytes, and whether they were zero |
| `PackFast.PackSingle` | bignum.c:655-724 | one machine word: same buffer and code as the general way |
| `PackFast.PackCopy` | bignum.c:726-755 | a copy of the memory: same buffer and code |
| `PackFast.Arrange` | bignum.c:780-797 | byte swaps and reversals put every digit where the format wants it |
| `PackFast.PackDigits` | bignum.c:757-802 | words of whole digits: same buffer and code |
| `PackFast.BaryPack` | bignum.c:627-955 | whichever way is taken, buffer and code are those of the general way |
| `PackFast.ResultUnique` | bignum.c:627-955 | those leave nothing open: two runs agree byte by byte |
| `PackSize.NumBdigitsSmall` | bignum.c:958-965 | the digits needed, with wrap-around written out |
| `PackSize.SmallBits` | bignum.c:958-965 | the first product can wrap only for no words at all, where it does no harm |
| `PackSize.NumBdigitsGeneric` | bignum.c:968-1025 | the same number, no step exceeding 64 bits |
| `PackSize.Ceiling` | bignum.c:960-962 | that number is the bits divided by 32 and rounded up |
| `PackSize.NumBdigits` | bignum.c:1028-1047 | whichever formula is taken |
| `Unpack.BitSink.PushBits` | bignum.c:1050-1059 | bits are added above those there are, full digits handed out |
| `Unpack.UnpackWord` | bignum.c:1221-1232 | one word adds its bits, nails ignored |
| `Unpack.UnpackWords` | bignum.c:1211-1243 | the digits hold the number in the words |
| `Unpack.SignOf` | bignum.c:1250-1271 | the sign in two's complement, with the unused bits set where needed |
| `Unpack.GenericUnpack` | bignum.c:1194-1278 | the integer the words mean for every combination of the two sign flags; -2 stands for a digit 1 above |
| `UnpackFast.SingleBdigit` | bignum.c:1062-1078 | one digit: same sign and digit |
| `UnpackFast.UnpackCopy` | bignum.c:1119-1147 | a copy of the memory: same sign and digits, unless there is no highest bit to look at |
| `UnpackFast.UnpackDigits` | bignum.c:1149-1191 | words of whole digits: same sign and digits, unless there is no highest bit to look at |
| `UnpackFast.BaryUnpack` | bignum.c:1081-1278 | whichever way is taken, sign and digits are those of the general way, or a byte outside the buffer is looked at, exactly when `LooksOutside` |
| `UnpackFast.NoHighestBit` | bignum.c:1119-1147 | no words of one byte in two's complement: an input for which the shortcut looks outside |
| `UnpackFast.NoWordsMeanZero` | bignum.c:3612-3613 | the general way gives 0 for no words, as documented |
| `Unpack.ResultUnique` | bignum.c:1081-1278 | those leave nothing open |
| `PackRoundTrip.MatchingFlags` | bignum.c:3505-3527 | with the flags that fit the sign, a number comes back if and only if the code is no overflow, -2^N in two's complement included |
| `PackRoundTrip.SignExtension` | bignum.c:3605-3610 | without the flag for negative numbers, exactly those from -2^(N-1) to 2^(N-1) - 1 come back |
| `PackRoundTrip.PackThenUnpack` | bignum.c:3617-3686 | packing and unpacking, each any way, gives the number back if and only if the code is no overflow |
| `ArrayState.Occupied` | array.c:292-299 | a count of one means that no other array can see the buffer |
| `ArrayState.SoleUser` | array.c:201-232 | nor can one see the buffer of an array that owns it |
| `ArrayState.NewCapaRoom` | array.c:246-258 | the new capacity leaves room for one more if and only if the size is below the maximum minus one |
| `ArrayState.Recycled` | array.c:261-273 | freeing the root and its buffer with the last reference leaves no dangling pointer |
| `ArrayState.Stolen` | array.c:330-340 | taking the buffer over from the root keeps every count right |
| `ArrayHeap.Heap.DecrementShare` | array.c:261-273 | counts stay right and no array's contents change, whether or not the root is freed |
| `ArrayHeap.Heap.IncrementShare` | array.c:292-299 | one more reference that is still to be stored |
| `ArrayHeap.Heap.Modify` | array.c:316-351 | afterwards the array has its storage for itself; nothing visible changes |
| `ArrayHeap.Heap.ResizeCapa` | array.c:201-232 | the capacity asked for, the same contents |
| `ArrayHeap.Heap.DoubleCapa` | array.c:246-258 | at least the capacity asked for, and one more if and only if that is below the maximum minus one |
| `ArrayHeap.Heap.MakeShared` | array.c:574-604 | a root for the array's buffer; nothing visible changes |
| `ArrayOps.EnsureRoomForPush` | array.c:354-390 | room behind the contents, possibly in a shared buffer nobody else sees; the two errors in order |
| `ArrayOps.Cat` | array.c:917-924 | the values are appended and no other array changes; with push, 905-914 |
| `ArrayOps.Partial` | array.c:829-854 | a new array with a part of the contents, sharing or copying |
| `ArrayOps.Subseq` | array.c:1212-1227 | the slice asked for, or nil exactly for starts and lengths out of range |
| `ArrayOps.Pop` | array.c:949-964 | the last element, or nil; frozen arrays refuse |
| `ArrayOps.PopMany` | array.c:985-997 | the last n elements as a new array; the two errors |
| `ArrayOps.Shift` | array.c:1000-1028 | the first element, the rest by moving or by a window on a shared buffer |
| `ArrayOps.ShiftMany` | array.c:1054-1087 | the first n elements as a new array |
| `ArrayOps.Store` | array.c:799-826 | one element set, nils in between, negative indices from the end; the errors, and exactly when the element has no room |
| `ArrayOps.EnsureRoomForUnshift` | array.c:1090-1146 | room in front of the contents; exactly when a frozen array is refused |
| `ArrayOps.Unshift` | array.c:1161-1175 | the values are prepended and no other array changes; exactly when a frozen array is changed |
| `ArrayOps.PrependToFrozen` | array.c:1090-1175 | a program (new array, two shifts, freeze, unshift) in which a frozen array is changed |
| `ArrayOps.Replace` | array.c:3436-3473 | the contents of another array, shared or copied, also of the same array |
| `ArrayOps.Clear` | array.c:3486-3500 | no contents |
| `ArrayRuns.Execute` | array.c:353-1175 | every operation has its effect on plain sequences and no other, with the element or error it returns |
| `ArrayRuns.Run` | array.c:200-1175 | any run of operations from an empty heap is a run on plain sequences, what the operations return included |
| `ArrayRuns.Counts` | array.c:260-307 | in every heap reached, a root's count is the number of arrays pointing at it, plus one for a frozen array; every buffer in use is allocated and every allocated one is owned |
| `Tuples.AllExact` | array.c:4989-5354 | the list holds exactly the injective, increasing, arbitrary or nondecreasing tuples |
| `Tuples.AllSorted` | array.c:4989-5354 | in lexicographic order, each once |
| `Enumerate.Permute0` | array.c:4990-5022 | yields exactly that list of permutations, then ends |
| `Enumerate.Permutation` | array.c:5092-5127 | for every length, negative, 0, 1 and too long included |
| `Enumerate.Combinate0` | array.c:5130-5148 | yields exactly that list of combinations |
| `Enumerate.Combination` | array.c:5185-5214 | for every length |
| `Enumerate.Repeat0` | array.c:5229-5249 | yields exactly the list of repeated permutations, or, with 5323-5343, of repeated combinations |
| `Enumerate.RepeatedPermutation` | array.c:5290-5320 | for every length |
| `Enumerate.RepeatedCombination` | array.c:5384-5416 | for every length |
| `Counting.DescendingFactorial` | array.c:5029-5037 | the falling factorial, 0 for negative counts |
| `Counting.FallingChoose` | array.c:5040-5052 | the division in the binomial is exact |
| `Counting.BinomialCoefficient` | array.c:5040-5052 | the entry of Pascal's triangle, 0 outside |
| `Counting.PermutationSize` | array.c:5055-5061 | the number of tuples yielded |
| `Counting.CombinationSize` | array.c:5151-5157 | the number of tuples yielded |
| `Counting.RepeatedPermutationSize` | array.c:5252-5264 | the number of tuples yielded |
| `Counting.RepeatedCombinationSize` | array.c:5346-5354 | the number of tuples yielded |
| `Flatten.Flat` | array.c:4544-4599 | the explicit stack gives the recursive definition on every finite graph, cycles included, and the flag tells whether anything was nested |
| `Flatten.LevelUnfolds` | array.c:4544-4599 | with a level, a result is the contents with that many layers of nesting removed |
| `Flatten.FullyUnfolds` | array.c:4544-4599 | without one, all layers are removed |
| `Flatten.FailsIff` | array.c:4572-4578 | recursion is reported if and only if some path of nesting within the level comes back to an array on it |
| `Metaclass.Square` | class.c:485-511 | in every heap with the invariant, the square of metaclasses and superclasses commutes |
| `Metaclass.Shared` | class.c:436-463 | a class without a metaclass of its own has the one of Class at its level, or, if it comes from an ordinary object, the one of its superclass |
| `ClassHeap.World.constructor` | class.c:546-563 | the four classes at boot, and that the invariant holds of them |
| `ClassHeap.World.EnsureEigenclass` | class.c:472-473 | the class ends up with a metaclass of its own; unfinished ones around it are left alone |
| `ClassHeap.World.MakeMetaclass` | class.c:486-511 | the recursion ends and keeps the invariant, although pointers change in the middle of it |
| `ClassHeap.World.ClassBoot` | class.c:201-210 | a new class below its superclass |
| `ClassHeap.World.MakeSingletonClass` | class.c:519-532 | the singleton class of an object, with the class of the object's class for its class, keeps the invariant |
| `ClassHeap.World.DefineClass` | class.c:599-608 | a class with metaclass below its superclass; a TypeError exactly for singleton classes and Class (220-233) |
| `ClassHeap.World.SingletonClass` | class.c:1683-1691 | the class handed out is the metaclass, the old one if there was one, and has a metaclass too; for singleton classes of ordinary objects as well |
| `ClassHeap.World.IncludeAfter` | class.c:905-906 | an include class put in keeps the invariant and every real superclass |
| `ClassHeap.CommutingSquare` | class.c:485-511 | super(meta(k)) = meta(super(k)), include classes skipped, or Class where there is no superclass |
| `ClassHeap.SquareExists` | class.c:504-506 | both sides of it exist |
| `ClassHeap.Execute` | class.c:519-1691 | every operation keeps the invariant and has its effect: an include class is linked in behind the class or include class asked for and nothing else changes |
| `ClassHeap.Run` | class.c:546-1691 | from boot, any operations in any order end with the invariant |
| `Branches.Iseq.CompileBranchCondition` | compile.c:3203-3274 | appends the code of a condition and takes new labels |
| `Branches.CompileLabels` | compile.c:3203-3274 | its labels are new and occur once |
| `Branches.CompileCorrect` | compile.c:3203-3274 | running the code gets to the then label exactly when the condition is true, else to the else label, evaluating what short-circuit evaluation evaluates, in order |
| `Sequence.FixLabels` | compile.c:1749-1781 | every label's position in the encoded words, and the size |
| `Sequence.SetSequence` | compile.c:1783-1839 | the words encode the list, branches as relative offsets; exactly when it is refused |
| `Sequence.RunEncoded` | compile.c:1826-1839 | running the words is running the list |
| `Sequence.BranchCorrect` | compile.c:3203-3274 | compiled and encoded, a condition gets to the position of the right label |
| `Threading.Destination` | compile.c:2122-2136 | the first instruction behind the label, if any: no instruction stands between |
| `Threading.Peephole.Thread` | compile.c:2478-2502 | follows the chain of skippable destinations exactly to the first that cannot be skipped or was visited, and ends on cycles |
| `Threading.ThreadSound` | compile.c:2478-2502 | whatever the threaded code reaches, the old code reaches in the same state |
| `Threading.ThreadComplete` | compile.c:2478-2502 | where the old code stops, the threaded code stops in the same state, not later |
| `Threading.Peephole.ThreadAll` | compile.c:2736-2762 | every branch of the list threaded, in order, each from the list the one before left |
| `Threading.HistorySound` | compile.c:2736-2762 | after any number of threadings, whatever the code reaches the first code reaches |
| `Threading.HistoryComplete` | compile.c:2736-2762 | and where the first code stops it stops in the same state, not later |
| `Threading.OptimizedCorrect` | compile.c:1783-1839 | the words encoded from the list after any number of threadings: if the code of a condition and what follows it comes to an end, it has passed the right label with the right conditions evaluated, and the words come to the same end |

## Left out

- GMP: the variants that call it are not part of this model.
- Floating point: conversion of big integers to and from floats and comparison with them.
- Thread interruption: division and multiplication are never stopped and retried.
- Garbage collection, write barriers, tainting and object identity beyond what the heaps above hold.
- Fixnum operands: the special cases for small operands of bit operations and of pack are not modelled; numbers are given by sign and digits.
- `rb_cstr_parse_inum`: prefixes, signs and misplaced underscores; the readers get digit values, with -1 for a character that is skipped, and a digit counted beforehand.
- Powers of two as radix: the readers and writers modelled are the general ones, which also accept these.
- RadixWrite.GetPower: the writers and the reader compute powers anew; the table has the same contract, `RadixWrite.PowerCache.Get`.
- Characters: digits are numbers, not letters; the sign is a flag.
- MulKernel.MulAdd: returns the digit carried out, where the source returns whether it is nonzero.
- Bitwise.BigOp: models the three operations as one method with the operation as a parameter.
- Bitwise.ShiftLeft: the count is given as digits and bits.
- Enumerate.Repeat0: models two functions that differ in one starting index; the block given to the enumerators is a list that grows, and changes the block makes to the array are not modelled.
- Enumerate.Combinate0: the unused first entry of the stack is left out.
- ArrayOps.Store: where there is no room for the element, the model stops with `NoRoom`; what the code writes then is not modelled.
- ArrayOps.Cat: the values come from a buffer of their own, as for all operations that take values.
- ArrayRuns.Execute: storing at the last index allowed is not an operation of a run; `rb_ary_splice`, sorting, hashing and joining are not either.
- Pack.ComplementWord: the exclusive or with a mask of ones is written as a subtraction.
- PackFast.BaryPack: one word without a word order is treated like the least significant word first; flag validation is the predicate Valid.
- UnpackFast.BaryUnpack: what is found outside the buffer, where it looks there, is not modelled.
- ClassHeap.World.IncludeAfter: the insertion of one module, not the search for modules already included; prepending, refinements and method tables.
- ClassHeap.World.MakeSingletonClass: the objects themselves, their clones, and numbers and symbols, which have no singleton class.
- Branches.Iseq.CompileBranchCondition: and, or, literals and conditions compiled elsewhere; flip-flops, defined? and values that are kept are left out.
- Sequence.SetSequence: operands other than offsets are copied as they are; line numbers, inline caches and the stack depth.
- Threading.Peephole.ThreadAll: labels are not removed when their last reference goes; the other rewritings of the peephole optimiser.
