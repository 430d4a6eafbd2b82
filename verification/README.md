# Classic McEliece: the algorithms of classic-mceliece-rust, verified

This project models the computational core of a Rust implementation of Classic McEliece, a code-based
key encapsulation mechanism, and proves that it does what the scheme needs it to do. It covers the
whole path of a message: key generation (minimal polynomial, sorted permutation, parity-check matrix,
elimination with or without column moves, control bits), encryption (fixed-weight vector, packed matrix-vector
product), and decryption (support from control bits, syndrome, Berlekamp-Massey, roots, re-encoding check).

The end-to-end law is `RoundTrip.GenerateEncryptDecrypt`: in each of the ten variants, for exactly the random
values that lead to keys and to an error vector, decryption of the vector's syndrome returns success
and that vector. It rests on `RoundTrip.EncryptDecrypt`, which says so for every key pair whose Goppa polynomial is
squarefree and has no root in the support, and on `RoundTrip.GeneratedKeys`: every generated key meets
that condition, because each of the fixed polynomials F(y) is squarefree and has no root in the base field.

## How the parts fit together

- **Permutation networks.** `MergeExchange` defines the merge-exchange network with all comparators of a round
  at once and proves that it sorts. `Sorting` and `SortMethods` show that both index-by-index loops have
  the same effect, the one that carries its index across rounds and the one that restarts it.
  `KeyedSort` turns a sort into an inverse or a composition of permutations. `Cycles` is the theory of
  the permutation pibar (no cycle contains both x and x ^ 1, no cycle is longer than half the points);
  `CycleMinima` runs the doubling loop in both packings. `Benes` defines strided layers, `ControlBits` proves that the
  bits read off the cycle minima route any permutation, `FlipNetworks`, `CbRecursion` and
  `FromPermutation` run the recursion in place and its self-check. `Transpose` and `ApplyBenes`
  replay the stored bits on bit-sliced data; `SupportGen` derives the support, `BitReversal` is bitrev on words.
- **Field.** `Field` defines GF(2^12) and GF(2^13) on 16-bit words and proves the ring laws, `Frobenius`
  squaring, a^(2^m) = a, and inverses. `CarryLess` reads 64-bit words as polynomials;
  `FieldMethods` and `FusedSquares` (with `FusedWords`) are the multiplications and power chains as the source computes them.
- **Decoder.** `Polynomials`, `Recurrences` (Massey's theorem), `BerlekampMassey`, `Decoding`, `Decrypt`.
- **Goppa codes.** `Products`, `GoppaCode`, `SquareTrick`, `PolynomialRing` and `Squarefree` prove that for a squarefree g
  the t checks with weights 1/g and the 2t checks with weights 1/g^2 define the same binary code.
- **Key generation.** `BinaryMatrices`, `RowRank`, `Elimination`, `CheckMatrix`, `PublicKey`, `SupportPoints`, `PkGen`, `KeyBytes`; for
  the variants whose names end in f, `ColumnMoves`, `Echelons`, `PivotSearch`, `MoveColumns` and
  `SemiSystematic`. `ExtensionField`, `FieldMatrices`, `SkGen` and `MinimalPolynomial` are the secret polynomial.
  `RootFree` (with `RootWords`) and `SquarefreeModulus` show of the polynomials F(y) of the variants that they have no root and no
  repeated factor; `KeyPolynomials` shows that then no minimal polynomial of degree t modulo F has any.
- **Encryption.** `ErrorVectors` and `Encrypt`.

All ten variants are instances of one set of parameters (`Params.Build`): the field, n, t, the folds of F(y),
and whether columns are moved. The algorithms are proved for any values that satisfy `Params.IsBuild`, which those of the ten
variants do (`Params.VariantsAreBuilds`); what needs the coefficients of F(y), up to the end-to-end law, is proved
for the ten variants (`Params.IsVariant`). The layout of the public key that is shifted by PK_NROWS % 8
bits is one case of the general packing.

Where the source's comments and its code differ, the code is followed: the comment at
src/controlbits.rs:55 says that `step` starts at 0, the call passes 1; src/root.rs:20-21 calls the values
of a polynomial its roots; src/bm.rs:16 speaks of a minimal polynomial, and `out` is the
connection polynomial reversed, padded to degree t.

## Model

| member | source | states |
|---|---|---|
| `MergeExchange.MergeOrder` | src/int32_sort.rs:31-62 | merging for p turns sequences whose classes modulo 2p ascend into ones whose classes modulo p ascend |
| `MergeExchange.NetworkSorts` | src/int32_sort.rs:19-63 | the network of all comparators, round by round, leaves every sequence in ascending order |
| `MergeExchange.NetworkRearranges` | src/int32_sort.rs:19-63 | the network loses and duplicates nothing |
| `Sorting.ChainStep` | src/int32_sort.rs:46-57 | one step of the index-by-index walk keeps the description of which rounds have reached which position |
| `Sorting.WalkEnds` | src/int32_sort.rs:42-60 | a finished walk has the effect of all rounds of the merge, although it ran them in another order |
| `Sorting.RepeatedChain` | src/uint64_sort.rs:45-60 | walking again through an index that was dealt with before changes nothing, so restarting i in every round is harmless |
| `SortMethods.BorrowCompares` | src/uint64_sort.rs:14-15 | the highest bit of the borrow formula compares any two unsigned words, and two signed words of the same sign |
| `SortMethods.Int32MinMax` | src/int32_sort.rs:5-15 | the branch-free exchange yields minimum and maximum of any two i32 values |
| `SortMethods.Uint64MinMax` | src/uint64_sort.rs:13-22 | the branch-free exchange yields minimum and maximum of any two u64 values |
| `SortMethods.MergeCarrying` | src/int32_sort.rs:33-61 | one merge, with i carried from one q to the next, equals the merge of the network |
| `SortMethods.MergeRestarting` | src/uint64_sort.rs:37-62 | one merge, with i starting at 0 for every q, equals the merge of the network |
| `SortMethods.Int32Sort` | src/int32_sort.rs:19-63 | the slice ends up ascending and is a rearrangement of what it was; nothing outside it changes |
| `SortMethods.Uint64Sort` | src/uint64_sort.rs:26-64 | the array ends up ascending and is a rearrangement of what it was, for every length |
| `Permutations.RearrangesMultiset` | src/int32_sort.rs:19-63 | a rearrangement in the sense used here keeps the multiset of elements |
| `KeyedSort.SortedByKey` | src/controlbits.rs:106-127 | sorting words key, value whose keys are a permutation p puts the value of p^-1(y) at y, whatever the field width |
| `KeyedSort.SortKeyed` | src/controlbits.rs:106-127 | the same for the in-place sort, provided the words fit into an i32 |
| `Cycles.PiBarReverses` | src/controlbits.rs:92-106 | pibar maps x ^ 1 against the direction of x: pibar(pibar(x) ^ 1) = x ^ 1 |
| `Cycles.NeverFlipped` | src/controlbits.rs:92-106 | x and x ^ 1 never lie on a common cycle of pibar |
| `Cycles.HalfPeriod` | src/controlbits.rs:130-200 | no cycle of pibar is longer than half the number of points |
| `Cycles.LeastOfDouble` | src/controlbits.rs:147-154 | the least of k + j iterates is the smaller of the least of the first k and the least of the next j |
| `Cycles.LeastOfIsLeast` | src/controlbits.rs:108-117 | what the rounds compute is attained by an iterate and is below all of them |
| `Cycles.CycleMinAll` | src/controlbits.rs:108-200 | the least of the first n/2 iterates is below every iterate, so it is the least element of the whole cycle |
| `Cycles.CycleMinFlip` | src/controlbits.rs:216-227 | the least elements of the cycles of x and x ^ 1 are neighbours, so one bit of them tells the two apart |
| `CycleMinima.DoubleNarrow` | src/controlbits.rs:134-155 | one doubling round with 10-bit fields squares the permutation and doubles the iterates covered |
| `CycleMinima.DoubleWide` | src/controlbits.rs:163-196 | the same with 16-bit fields; the last round skips the square |
| `CycleMinima.FindMinima` | src/controlbits.rs:108-200 | B ends as the least element of x's cycle among its first n/2 iterates, in both packings, and temp from 2n on is untouched |
| `Benes.LayerWeave` | src/controlbits.rs:28-47 | a layer at distance 2^(s+1) is the layer at distance 2^s on the even and on the odd positions |
| `Benes.RunWeave` | src/controlbits.rs:267-277 | interleaving the bits of two networks runs them on the even and on the odd positions |
| `ControlBits.NeighboursPart` | src/controlbits.rs:216-248 | the first layer sends the images of two neighbours to points of different parity |
| `ControlBits.MiddleKeepsParity` | src/controlbits.rs:216-265 | the middle permutation keeps the parity of every index |
| `ControlBits.Half` | src/controlbits.rs:252-265 | the even and the odd half of the middle permutation, halved, are permutations of n/2 points |
| `ControlBits.OuterUndone` | src/controlbits.rs:216-248 | first layer, middle permutation and last layer compose to pi |
| `ControlBits.NetworkPermutes` | src/controlbits.rs:67-278 | for every w and every permutation of 2^w points, the network of its control bits moves every sequence as the permutation prescribes |
| `ControlBits.FirstBitLeast` | src/controlbits.rs:216-219 | bit j of the first layer is the low bit of the least point of the cycle of 2 j under pibar |
| `FlipNetworks.FlipNetwork` | src/controlbits.rs:202-277 | bits of interleaved networks between two outer layers lie at positions pos, pos + step, .. of the recursion, the two calls on alternate ones |
| `FlipNetworks.FlipLayersOnly` | src/controlbits.rs:202-246 | at any step, layers of bits flip each of their positions exactly once, by its own bit, and leave all other bits |
| `FlipNetworks.HalvesApart` | src/controlbits.rs:267-277 | positions pos + 2k step and pos + step + 2j step never coincide |
| `CbRecursion.PiBarByKeys` | src/controlbits.rs:92-106 | the first sort computes pibar from pi without inverting pi first |
| `CbRecursion.MiddleByKeys` | src/controlbits.rs:228-248 | the last two sorts compute the middle permutation |
| `CbRecursion.BitsRead` | src/controlbits.rs:216-246 | the bits that the loops take from c and from F(pi) are the control bits of the outer layers |
| `CbRecursion.HalfOfMiddle` | src/controlbits.rs:248-265 | position j of the half b that is packed for a recursive call holds half of the middle permutation's value at 2 j + b |
| `CbRecursion.FirstLayer` | src/controlbits.rs:216-228 | the first n/2 bits flip at their positions, and B becomes the keyed words of the next sort |
| `CbRecursion.LastLayer` | src/controlbits.rs:234-246 | the last n/2 bits flip at their positions, and A becomes the keyed words of the next sort |
| `CbRecursion.PackHalves` | src/controlbits.rs:252-265 | both halves of the middle permutation are packed two values a word where the calls look for them, without disturbing each other |
| `CbRecursion.CbRecursion` | src/controlbits.rs:67-278 | for any step, the bit at pos + k step changes exactly if control bit k of pi is set, for k below (2w-1) 2^(w-1); no other bit of out changes, and nothing of temp from 2n on |
| `CbRecursion.CallHalves` | src/controlbits.rs:267-277 | no position of the one call is a position of the other; each flips its own bits at every second position and no others; the first leaves the permutation of the second intact |
| `FromPermutation.LayerInPlace` | src/controlbits.rs:28-47 | layer moves the elements in place exactly as the specification of a layer does |
| `FromPermutation.StoredBits` | src/controlbits.rs:306-323 | the bytes that the recursion leaves, cut into layers of n/16 bytes, are the control bits of pi |
| `FromPermutation.Replay` | src/controlbits.rs:309-323 | the check runs the stored layers at distances 2^0, .., 2^(w-1), .., 2^0 on the identity |
| `FromPermutation.ControlBitsFromPermutation` | src/controlbits.rs:288-333 | for every permutation the stored network turns the identity into it; the first check finds no difference, so no second pass starts |
| `Transpose.TransposeInPlace` | src/transpose.rs:41-68 | the six levels of block swaps exchange rows and columns of a 64 by 64 bit matrix |
| `Transpose.TransposeTo` | src/transpose.rs:5-30 | the same for the copying form |
| `Transpose.OriginStep` | src/transpose.rs:17-29 | each level exchanges one bit between row and column index and keeps the others for the levels to come |
| `BitSlices.LayerWords` | src/benes.rs:25-43 | layer swaps, bit by bit, words 2^lgs apart where the control word is set |
| `ApplyBenes.RowsLayer` | src/benes.rs:161-172 | swapping words is a layer at 64 times the distance on the packed bits |
| `ApplyBenes.ColsLayer` | src/benes.rs:150-157 | swapping words of the transpose, with transposed control bits, is a layer at a distance below 64 |
| `ApplyBenes.LayerEx` | src/benes.rs:91-131 | each block of 64 words uses its half of the control words; at the greatest distance the blocks swap with each other |
| `ApplyBenes.LayerIn` | src/benes.rs:47-73 | the two blocks use the control words alternately |
| `ApplyBenes.ApplyBenes12` | src/benes.rs:139-188 | without rev, the 4096 packed bits move as the strided layers of the network say |
| `ApplyBenes.ApplyBenes13` | src/benes.rs:256-345 | the 8192 packed bits move as the strided layers say, forwards, or with rev from the last layer back |
| `ApplyBenes.RevUndoes` | src/benes.rs:256-345 | with 13 bits, rev undoes the application without rev and the other way round, for every array and all control bits |
| `SupportGen.RunPermutes` | src/benes.rs:347-377 | any control bits at all carry out some permutation |
| `SupportGen.RealizesOne` | src/benes.rs:347-377 | and only one |
| `SupportGen.SameLayers` | src/benes.rs:352-368 | apply_benes reads the same layers from the key that controlbitsfrompermutation stored |
| `SupportGen.SupportGen` | src/benes.rs:347-377 | the support is, at every i, the bit-reversed pi(i) of the permutation that the control bits carry out, as in pk_gen |
| `SupportGen.SupportOfDistinct` | src/benes.rs:347-377 | whatever the control bits, no support point occurs twice |
| `SupportPoints.PointInjective` | src/util.rs:19-33 | different indices have different bit-reversed field elements |
| `BitReversal.TurnedSpells` | src/util.rs:19-24 | the four mask-and-shift steps reverse all 16 bits of a word |
| `BitReversal.BitrevPoint` | src/util.rs:19-33 | with the final shift, the word of an index becomes the word of its support point, in both builds |
| `Field.MulComm` | src/gf.rs:49-69 | multiplication modulo z^12 + z^3 + 1 or z^13 + z^4 + z^3 + z + 1 is commutative |
| `Field.MulAssoc` | src/gf.rs:49-69 | it is associative |
| `Field.MulAddLeft` | src/gf.rs:49-69 | it distributes over addition |
| `Field.TimesZWord` | src/gf.rs:34-66 | multiplication by z shifts the word and reduces by z^12 + z^3 + 1 or z^13 + z^4 + z^3 + z + 1 |
| `Frobenius.FrobFixes` | src/gf.rs:225-247 | m squarings give an element back |
| `Frobenius.Idempotent` | src/gf.rs:225-247 | only 0 and 1 are their own squares |
| `Frobenius.InvMul` | src/gf.rs:225-253 | a^(2^m - 2) is the inverse of every nonzero a, and 0 for 0 |
| `Frobenius.NoZeroDivisors` | src/gf.rs:49-69 | a product is zero only if a factor is |
| `CarryLess.FoldStep12` | src/gf.rs:34-41 | a reduction step with 12 bits does not change the field element that a word stands for, provided its mask covers the top |
| `CarryLess.FoldStep13` | src/gf.rs:60-66 | the same with 13 bits |
| `FieldMethods.GfMul` | src/gf.rs:22-69 | the masked integer products and shifts compute the product of two field elements, in both builds |
| `FieldMethods.GfSq` | src/gf.rs:72-91 | spreading and reducing computes the square (12 bits) |
| `FusedSquares.GfSq2` | src/gf.rs:95-124 | spreading four apart and four reduction steps compute a^4 (13 bits) |
| `FusedSquares.GfSqmul` | src/gf.rs:129-158 | the six twofold partial products and three reduction steps compute a^2 m (13 bits) |
| `FusedSquares.GfSq2mul` | src/gf.rs:163-198 | the six twofold partial products and six reduction steps compute a^4 m (13 bits) |
| `FusedSquares.PairedIs` | src/gf.rs:138-150 | the terms, in the order in which the source adds them, sum up to a^2 m or a^4 m |
| `FieldMethods.GfInv12` | src/gf.rs:225-247 | the power chain computes the inverse (12 bits) |
| `FieldMethods.GfFrac13` | src/gf.rs:208-221 | the chain of fused squarings computes num / den (13 bits) |
| `FieldMethods.GfFrac` | src/gf.rs:202-221 | num / den in both builds, and 0 when den is 0 |
| `FieldMethods.GfInv` | src/gf.rs:225-253 | the inverse in both builds |
| `ExtensionField.GfMulInplace` | src/gf.rs:257-300 | the product modulo F(y), for any folds below t |
| `Recurrences.Massey` | src/bm.rs:31-68 | when a recurrence of length l generates n terms and fails on the next, every one that generates n + 1 terms has length at least n + 1 - l |
| `BerlekampMassey.RegistersStep` | src/bm.rs:31-68 | one step keeps l at most n, base nonzero, and both registers within degree t where they matter |
| `BerlekampMassey.SoundStep` | src/bm.rs:31-68 | for a sequence of linear complexity at most t, one step keeps c generating what was read, with the least length |
| `BerlekampMassey.Bm` | src/bm.rs:17-73 | for every sequence with a recurrence of length t or less, the reversed output generates all 2t terms and its length is least |
| `Polynomials.RootBound` | src/root.rs:10-26 | a nonzero polynomial has no more distinct roots than its degree |
| `Polynomials.RootPolyRoots` | src/decrypt.rs:51-62 | the product of x - a over chosen points is monic and vanishes exactly at them |
| `Decoding.ErrorsGenerate` | src/bm.rs:17-72 | the syndrome of a vector of weight t has linear complexity at most t |
| `Decoding.LocatorRoots` | src/decrypt.rs:47-62 | the reversed recurrence vanishes at a support point exactly when its position is in error |
| `Decrypt.Eval` | src/root.rs:10-18 | the Horner loop yields the value of the polynomial |
| `Decrypt.Root` | src/root.rs:22-26 | the values at all support points |
| `Decrypt.Synd` | src/synd.rs:9-27 | the 2t sums of a^j / g(a)^2 over the set positions |
| `Decrypt.MarkZeros` | src/decrypt.rs:53-60 | e is set exactly at the zeros, and w is its weight |
| `Decrypt.Compare` | src/decrypt.rs:64-75 | the result is 0 exactly when the weight is t and both syndromes agree |
| `Decrypt.LocatorDecodes` | src/decrypt.rs:47-62 | the zeros of the locator of a decodable syndrome spell out the error vector |
| `Decrypt.OnlyDecoding` | src/decrypt.rs:47-62 | every vector that decodes is the one marked by the locator, so there is at most one |
| `Decrypt.Decrypt` | src/decrypt.rs:18-75 | returns 0 exactly when e has weight t and the syndrome of the padded ciphertext; without roots of g in the support, exactly when some vector has, and e is then the only one |
| `KeyBytes.LoadStored` | src/util.rs:7-15 | load_gf undoes store_gf |
| `KeyBytes.GoppaBit` | src/decrypt.rs:40-42 | bit j of coefficient i of the polynomial that decryption reads is bit 16 i + j of the key, and the leading coefficient is 1 |
| `KeyBytes.KeyLayerBit` | src/benes.rs:256-345 | bit j of layer k of the network that decryption runs is bit k 2^(m-1) + j behind the polynomial |
| `KeyBytes.HeldDigit` | src/operations.rs:264-266 | bit j of coefficient i that key generation stores is bit 16 i + j of the key; the bits from m to 15 are 0 |
| `KeyBytes.HeldControl` | src/operations.rs:305-310 | bit j of layer k of the control bits of pi is bit k 2^(m-1) + j behind the polynomial |
| `KeyBytes.KeyBytesUnique` | src/operations.rs:264-310 | polynomial and permutation determine every byte of the secret key |
| `GoppaCode.Expansion` | src/pk_gen.rs:245-276 | g times the numerator of a word is the derivative of its locator plus a tail times the locator |
| `GoppaCode.ChecksDivide` | src/pk_gen.rs:245-276 | a word that passes the checks with 1/g has a numerator divisible by g modulo its locator |
| `GoppaCode.DivideChecks` | src/pk_gen.rs:245-276 | and the other way round |
| `SquareTrick.DerivativeTerm` | src/synd.rs:17-26 | in characteristic two the derivative of the locator keeps every other coefficient: it is a square |
| `SquareTrick.SameChecks` | src/synd.rs:17-26 | for radical g the t checks with 1/g and the 2t checks with 1/g^2 accept the same binary words |
| `Squarefree.SquarefreeRadical` | src/sk_gen.rs:8-56 | a squarefree polynomial divides whatever has a square that it divides |
| `Squarefree.SameBinaryCode` | src/synd.rs:17-26 | the same for every squarefree g: the public key and the decoder use one code |
| `BinaryMatrices.AddRowKernel` | src/pk_gen.rs:310-342 | adding a row to another does not change the code |
| `BinaryMatrices.MissingPivot` | src/pk_gen.rs:321-328 | without a pivot the column depends on those before it |
| `BinaryMatrices.SystematicUnique` | src/pk_gen.rs:330-342 | a code has only one matrix [I, T] |
| `RowRank.AddRowFull` | src/pk_gen.rs:310-342 | adding a row to another does not change whether the first n columns have full row rank |
| `Elimination.FindPivot` | src/pk_gen.rs:310-319 | the row gets the pivot unless no row from it on has one |
| `Elimination.ClearColumn` | src/pk_gen.rs:330-342 | the column becomes a unit column, and the code stays the same |
| `Elimination.Eliminate` | src/pk_gen.rs:277-344 | returns 0 exactly when the left square block is regular, and then leaves [I, T] for the same code |
| `ColumnMoves.FromChosen` | src/pk_gen.rs:137-144 | after the exchanges, column j of the window holds what was in the j-th pivot column |
| `ColumnMoves.MovedNext` | src/pk_gen.rs:122-130 | step j exchanges column j of the window with the j-th pivot column |
| `ColumnMoves.MovedPerm` | src/pk_gen.rs:122-130 | pi is still a permutation |
| `ColumnMoves.SameKernelMoved` | src/pk_gen.rs:132-177 | moving the columns of two matrices of one code leaves two matrices of one code |
| `PivotSearch.Ctz` | src/pk_gen.rs:20-30 | the position of the lowest bit that is set |
| `PivotSearch.FindPivots` | src/pk_gen.rs:90-120 | succeeds exactly when the 32 words are independent; the list then holds the pivot columns, strictly increasing, and pivots marks them |
| `Echelons.WindowFull` | src/pk_gen.rs:65-102 | the window has full rank exactly when the first PK_NROWS + 32 columns have |
| `Echelons.PivotsIndependent` | src/pk_gen.rs:94-120 | the pivot columns are independent in the words before the search |
| `Echelons.PivotsAreNew` | src/pk_gen.rs:90-120 | the pivots of an echelon form are exactly the columns that are not combinations of those before them |
| `Echelons.WindowNew` | src/pk_gen.rs:65-120 | a column of the window depends on earlier ones there exactly when it does in the whole matrix |
| `Echelons.MovedRegular` | src/pk_gen.rs:132-177 | with the pivot columns moved to the front, the left square block is regular |
| `MoveColumns.LoadWindow` | src/pk_gen.rs:73-88 | the 64 columns of a row, from a window that need not start at a byte |
| `MoveColumns.StoreWindow` | src/pk_gen.rs:146-176 | writing 64 columns back changes no other bit of the row |
| `MoveColumns.MovePerm` | src/pk_gen.rs:122-130 | pi undergoes the exchanges |
| `MoveColumns.MovColumns` | src/pk_gen.rs:57-180 | succeeds exactly when the window has full rank; pi and every row then undergo the same exchanges, and nothing changes otherwise |
| `SemiSystematic.EliminateMoving` | src/pk_gen.rs:277-344 | returns 0 exactly when the first PK_NROWS - 32 columns are independent and the first PK_NROWS + 32 have full row rank, so that none of the last 32 rows fails; the columns that are moved, and marked, are those of the window that do not depend on earlier columns; leaves [I, T] for the code with moved columns |
| `SemiSystematic.PivotChoiceUnique` | src/pk_gen.rs:90-120 | the matrix leaves no other choice of columns to move |
| `CheckMatrix.ChecksKernel` | src/pk_gen.rs:251-276 | the bit rows annihilate a word exactly when its t sums over the field vanish |
| `CheckMatrix.CheckEntry` | src/pk_gen.rs:251-276 | row i GFBITS + k of the specified matrix has bit k of h a^i in the column of a |
| `CheckMatrix.BuildChecks` | src/pk_gen.rs:251-276 | row i GFBITS + k of the packed matrix holds bit k of a^i / g(a) for every support point |
| `PkGen.SortIndices` | src/pk_gen.rs:223-239 | refuses exactly the lists with repetitions, and otherwise orders the indices by their values |
| `PkGen.OrderUnique` | src/pk_gen.rs:223-239 | there is only one such order |
| `PkGen.ChecksFollow` | src/pk_gen.rs:122-177 | the matrix of the moved support is the matrix with moved columns |
| `PkGen.PkGen` | src/pk_gen.rs:188-373 | returns 0 exactly when the values differ and the matrix of the sorted support is eligible; pi is then the sorted order, with column moves the 32 columns of the window that do not depend on earlier ones moved to its front, and pivots marks those; pk is T of a matrix [I, T] for the code of g and pi |
| `PkGen.ArrangedUnique` | src/pk_gen.rs:122-177 | order and matrix determine pi and pivots |
| `PkGen.KeyUnique` | src/pk_gen.rs:346-364 | g and pi determine the public key |
| `PublicKey.PackRows` | src/pk_gen.rs:346-364 | bit 8 i PK_ROW_BYTES + p of the key is the entry of the matrix in row i and column PK_NROWS + p, in the aligned and in the shifted layout, and 0 beyond the last column |
| `PublicKey.UnpackingUndoes` | src/encrypt.rs:151-162 | the rows that encryption reads from the key are the rows of the matrix that was packed |
| `PublicKey.HeldBit` | src/pk_gen.rs:352-364 | the same for every key for a matrix |
| `PublicKey.KeyRowBit` | src/encrypt.rs:191-216 | which bit of the key encryption takes for row i and column PK_NROWS + p |
| `ErrorVectors.GenE` | src/encrypt.rs:25-85 | one pass accepts exactly the numbers of which at least t are below n, the first t of these without repetition, and sets exactly these positions, in terms of indices into the list |
| `ErrorVectors.Skipped` | src/encrypt.rs:41-49 | a number that is not below n has no effect, wherever it stands |
| `ErrorVectors.CandidatesAre` | src/encrypt.rs:41-49 | the number at an index counts as often as numbers below n stand before it say, and nothing else counts |
| `ErrorVectors.ErrorWeight` | src/encrypt.rs:25-85 | every accepted vector has weight t |
| `ErrorVectors.EveryError` | src/encrypt.rs:91-132 | and every vector of weight t comes from some accepted numbers |
| `Encrypt.FoldedParity` | src/encrypt.rs:169-172 | the halving shifts leave the parity of a byte |
| `Encrypt.ShiftRow` | src/encrypt.rs:158-160 | the in-place loop from the end shifts a row of the key by PK_NROWS % 8 bits |
| `Encrypt.RowTimes` | src/encrypt.rs:164-172 | the byte loop is the inner product of the bit vectors |
| `Encrypt.Syndrome` | src/encrypt.rs:139-218 | bit i is e_i plus the product of the bits of e from PK_NROWS on with bytes i PK_ROW_BYTES, .. of the key, which is the product of e with row i of [I, T], in both layouts; the filling bits are 0 |
| `Encrypt.KeyRowProduct` | src/encrypt.rs:191-216 | the product with a row of the key, in terms of its bytes |
| `Encrypt.Encrypt` | src/encrypt.rs:222-231 | an accepted pass yields a vector of weight t and its syndrome |
| `SkGen.GenpolyGen` | src/sk_gen.rs:8-56 | returns 0 exactly when 1, f, .., f^(t-1) are independent, and then f^t is the combination of them that out lists |
| `MinimalPolynomial.MinimalPolynomialOf` | src/sk_gen.rs:8-56 | returns 0 with the monic polynomial of least degree, t, that vanishes at f modulo F, and -1 only if there is none of that degree |
| `MinimalPolynomial.PolyAtTimes` | src/sk_gen.rs:21-24 | evaluation at f modulo F respects products |
| `MinimalPolynomial.RelationVanishes` | src/sk_gen.rs:26-53 | a relation among the columns is a polynomial that vanishes at f |
| `MinimalPolynomial.MinimalUnique` | src/sk_gen.rs:8-56 | f has no other minimal polynomial of degree t |
| `RootFree.WordProduct` | src/gf.rs:49-69 | the straight-line product on words, three coefficients at a time, is the field product |
| `RootFree.ValueModulus` | src/gf.rs:257-300 | the value of F at a is a^t plus the values of the terms that gf_mul_inplace folds to |
| `RootFree.NoRoot64` | src/gf.rs:267-272 | a^64 + a^3 + a is z for no a of GF(2^12) |
| `RootFree.NoRoot96` | src/gf.rs:273-279 | (a^3)^32 + (a^3)^2 + a^8 (a^2 + a) is 1 for no nonzero a of GF(2^13) |
| `RootFree.NoRoot119` | src/gf.rs:280-284 | (a^16 + a^8) a is a^128 for no nonzero a of GF(2^13) |
| `RootFree.NoRoot128` | src/gf.rs:285-296 | a^129 + a^8 + a^3 + a^2 + a is 0 for no nonzero a of GF(2^13) |
| `RootFree.ModulusNoRoot` | src/gf.rs:257-300 | in all ten variants F(y) has no root in the base field |
| `SquarefreeModulus.DerMultiple` | src/gf.rs:257-300 | the derivative of h^2 q is h^2 times the derivative of q |
| `SquarefreeModulus.Period` | src/gf.rs:257-300 | what divides y^m + 1 divides y^(i + m j) + y^i |
| `SquarefreeModulus.ModulusSquarefree` | src/gf.rs:257-300 | in all ten variants F(y) has no repeated factor |
| `FieldMatrices.RelationExists` | src/sk_gen.rs:26-53 | more columns than rows always have a relation |
| `KeyPolynomials.VariableOf` | src/sk_gen.rs:8-56 | if 1, f, .., f^(t-1) are independent modulo F, then y is a polynomial in f |
| `KeyPolynomials.MinimalSquarefree` | src/sk_gen.rs:8-56 | when F is squarefree, so is the polynomial that key generation returns |
| `KeyPolynomials.MinimalNoRoot` | src/sk_gen.rs:8-56 | when F has no root in the field, neither has the polynomial that key generation returns |
| `RoundTrip.StoreControl` | src/operations.rs:305-310 | the layers in the key are the control bits of pi, and carry out pi |
| `RoundTrip.GenerateKeys` | src/operations.rs:237-310 | one pass returns 0 exactly when f has a minimal polynomial of degree t, the random values differ, and the matrix of that polynomial and the sorted support is eligible, and -1 otherwise; on 0 it leaves the public key, the secret key and the pivots that f and perm determine, and both keys are for one code |
| `RoundTrip.KeysMean` | src/operations.rs:237-310 | in the keys from f and perm stand the minimal polynomial of f, and the control bits of the order of perm after the column moves, for which the public key was made |
| `RoundTrip.KeysUnique` | src/operations.rs:237-310 | f and perm determine both keys and the pivots to the last bit |
| `RoundTrip.SyndromesAgree` | src/decrypt.rs:36-49 | the zero-padded ciphertext and e have the same 2t-term syndrome |
| `RoundTrip.EncryptDecrypt` | src/decrypt.rs:18-75 | for every key pair with squarefree g without roots in the support and every e of weight t, decryption returns 0 and e |
| `RoundTrip.GeneratedKeys` | src/operations.rs:253-266 | in every variant, each generated key has a squarefree polynomial without roots in the support |
| `RoundTrip.GenerateEncryptDecrypt` | src/operations.rs:205-338 | in every variant, for exactly the random inputs that lead to keys and to an error vector, what was encrypted under the generated key decrypts to itself |
| `Params.VariantsAreBuilds` | src/params.rs:3-44 | the parameters of all ten variants satisfy the conditions under which the algorithms are proved |

## Left out

- RoundTrip.GenerateKeys: models one pass of the loop for given random input; which random values succeed is stated exactly, but not that there are any. Seed, pivots and s in the secret key play no part in decryption; pivots are returned, not stored.
- ErrorVectors.GenE: models one pass of the rejection loop for given random numbers, any number of them, which covers both forms of gen_e.
- Decrypt.Compare: the initial `w ^ SYS_T` is modelled as a flag, the rest of the comparison word by word.
- BerlekampMassey.Bm: `l` is a natural number; it stays below 2t + 1, so nothing wraps. The mask `mle` is computed from the truncated 16-bit difference as in the source.
- FromPermutation.ControlBitsFromPermutation: w is between 4 and 14, because the check slices whole bytes; `CbRecursion.CbRecursion` holds from w = 1 on. The conditional XOR swap of `layer` is modelled as a conditional exchange.
- SortMethods.Int32MinMax: words are integers in the range of their type; wrap-around is explicit, the mask is represented by its sign bit, and the two XORs by it as an exchange.
- SortMethods.Uint64MinMax: as for Int32MinMax.
- CycleMinima.FindMinima: i32 words are integers, left shifts are truncated explicitly, and `|` of words without common bits is a sum.
- Transpose.TransposeInPlace: u64 words are sequences of 64 bits here and in `ApplyBenes` and `PivotSearch`; masks of block swaps are represented by the bits that they select.
- ApplyBenes.ApplyBenes12: the branch with rev is not modelled; it calls `layer` inside the loop that loads the control words (src/benes.rs:218-227), and no caller uses it.
- ApplyBenes.LayerEx: the steps on the two blocks, which alternate in the source, are run one block after the other.
- SupportGen.SupportGen: the planes are filled and permuted one by one instead of in two passes over all of them; the indices appear by their binary digits, and `BitReversal.BitrevPoint` ties these to the words of bitrev.
- MoveColumns.MovePerm: the masked XOR exchange is a conditional exchange, and same_mask a comparison.
- Elimination.Eliminate: the number of columns is a whole number of bytes, as in every variant.
- Decrypt.Decrypt: does not model the zero-filled buffers that the source allocates and overwrites.
- Memory: shared borrows are passed as values, exclusive ones as arrays; zeroize, heap or stack placement and constant-time behaviour are not modelled.
- src/operations.rs, src/api.rs, src/lib.rs: hashing, implicit rejection, padding checks and the kem interface are not part of this model.
- src/crypto_hash.rs, src/nist_aes_rng.rs: SHAKE256 and the test random number generator; random values are parameters.
