# Verified model of the chat server's cryptographic core

The chat server carries its own secp256k1, AES-256-CBC, BLAKE2b and SHA-256 and a small message framing. This project models that code in Dafny and proves what it is for. `dafny verify dfyconfig.toml` checks everything. Source paths are relative to the repository's root.

## How the model is laid out

**Scalar multiplication.** `Recoding` holds the three signed digit recoders as in-place loops over their digit arrays. `Groups` has the laws of an abelian group of exponent n and the linear combinations in it, by which `Strauss` says what digits and tables add up to. `Curve` says what the curve group is (chord and tangent addition), `Jacobian` proves each coordinate formula against it, and `Tables`, `OddTables` and `Abscissa` the algorithms around inversions and the comparison without one. On coordinates, as the code performs them, run `StraussJacobian` (all tables over one denominator, an accumulator on the scaled copy of the curve, affine generator entries added with a known inverse, one multiplication of z at the end), `Pippenger`, `EcmultConst`, `EcmultGen` (the blinded generator table as a class) and `Multi` (the batching front end, over the frame stack of `Scratch`).

**Arithmetic.** Integers in Dafny are unbounded, so machine words are explicit: `Words.W32` and `Words.W64` reduce, and where the code relies on a sum fitting, that is proved. `Field10x26`, `FieldNormalize` and `FieldPower` are the ten-limb field (on the curve a field element is its residue, `Curve.Reduce`); `Scalar8x32`, `ScalarReduce`, `ScalarBits` and `ScalarInverse` the eight-word scalars. `Limbs`, `Arith` and `Powers` hold the number facts they share.

**Signatures.** `Ecdsa` signs, verifies and recovers; `Der` is the strict parser and the printer against a declarative definition of the encoding.

**Byte machines.** `AesColumns`, `AesRounds` and `Aes` are the block cipher, `AesField`, `AesStandard` and `AesKeys` its identity with FIPS 197, S-box and key expansion included, and `Cbc` the chaining, padding and the two wrappers. `Blake2b` is the streaming state over any core, `Blake2bCore` the core. `Sha256` is the streaming state down to the bytes of the digest, `Sha256Rounds` the unrolled transform, `Sha256Standard` the functions and constants of FIPS 180-4 (`Roots` says where the constants come from), `Hmac` and `Rfc6979` what is built on it. `Framing` is the frame codec and the connection with its two buffers.

## What is taken for granted

These appear as `requires` of the theorems that need them, never as axioms: the curve points form a group of exponent n under chord and tangent addition (`IsCurveGroup`), and Fermat's little theorem for p (`Fermat`) and n (`FermatN`). That the group laws can be met is proved for the residues modulo n (`Groups.ResiduesHaveExponent`). The generator context also asks that no entry of its table is the point at infinity (`EcmultGen.FiniteUnlessKnown` says when). The byte arithmetic of AES and the word operations of SHA-256 and BLAKE2b are proved to meet what is asked of them.

## Where the code and its promises differ

- A frame of size zero is granted even when its alignment overhead exceeds the limit, and a request within 15 bytes of 2^64 is rounded up to nothing (`Scratch.EmptyRequestOverruns`, `Scratch.HugeRequestWraps`). The contracts of `AllocateFrame` and `Alloc` say exactly when the limit and the separation of pieces hold.
- `secp256k1_ge_set_all_gej_var` returns early when every point is infinite and then leaves the flags of its output as they were; the contract of `Tables.SetAllGejVar` gives the exact condition.
- A single zero makes every output of `secp256k1_fe_inv_all_var` zero (`Tables.InvAll`).
- `secp256k1_ecdsa_sig_sign` can succeed with r = 0; such a signature is neither accepted nor recovered (`Ecdsa.SignedVerifies`, `Ecdsa.SignedRecovers`).
- `AesEncode` reports failure for the empty text, and `AesDecode` reports success for every ciphertext, well-formed or not.

## Model

| member | source | states |
|---|---|---|
| `Recoding.EcmultWnaf` | cipher/secp256k1/ecmult_impl.h:375-424 | over 256 bits the final carry is 0 and the digits weigh to the scalar mod n; every digit is zero or odd and below 2^(w-1) in size, nonzero digits are at least w apart; nothing at or above the returned count, and the digit just below it is nonzero; over fewer bits the exact deficit is the carry |
| `Recoding.SetDigit` | cipher/secp256k1/ecmult_impl.h:402-415 | one window: the digit taken and the carry left keep digits, carry and unread bits adding up to the signed scalar |
| `Recoding.FinalCarry` | cipher/secp256k1/ecmult_impl.h:417-422 | no carry is left as soon as the top bit is clear, and never over 256 bits |
| `Recoding.ZeroTopWindows` | cipher/secp256k1/ecmult_impl.h:709-716 | only windows above the highest nonzero one are skipped; their digits become 0 |
| `Recoding.PlaceWindow` | cipher/secp256k1/ecmult_impl.h:720-739 | one window with its borrow from the digit below and the removal of an isolated unit, as a function of the digits so far; nothing else is touched |
| `Recoding.PlaceWindows` | cipher/secp256k1/ecmult_impl.h:717-741 | the digits so far weigh to the low bits of s plus skew through every borrow and removal, zero or odd below 2^w |
| `Recoding.WnafFixed` | cipher/secp256k1/ecmult_impl.h:684-744 | the digits weigh to s + skew for every scalar (0 included) and every w up to 31; each is zero or odd and strictly between -2^w and 2^w; the rest of the buffer is kept |
| `Recoding.ConstSetup` | cipher/secp256k1/ecmult_const_impl.h:74-95 | what is recoded is odd and below n, and with its sign it is s plus a skew of 1 or 2, less n when s is high |
| `Recoding.WnafConst` | cipher/secp256k1/ecmult_const_impl.h:51-118 | the digits are odd, nonzero and in range and weigh to s + skew (less n when s is high), for every scalar including 0 and n-1 |
| `Strauss.TableGetIsMultiple` | cipher/secp256k1/ecmult_impl.h:273-283 | the table lookup for any odd digit, positive or negative, is that multiple of the point |
| `Strauss.RecodePoints` | cipher/secp256k1/ecmult_impl.h:469-497 | skipping zero scalars and infinite points leaves the linear combination unchanged; no digit lies at or above the common bit count |
| `Strauss.RecodeNext` | cipher/secp256k1/ecmult_impl.h:470-496 | one point more: skipped, or recoded behind those kept before |
| `Strauss.RecodeGenerator` | cipher/secp256k1/ecmult_impl.h:549-554 | digits of the generator scalar, all zero if it is absent |
| `Pippenger.SumBuckets` | cipher/secp256k1/ecmult_impl.h:819-835 | on coordinates: the running sum yields 2r + bucket[0] + 3*bucket[1] + 5*bucket[2] + ... |
| `Pippenger.DropDigit` | cipher/secp256k1/ecmult_impl.h:801-812 | n times the point goes into the bucket of |n|, mirrored for a negative digit |
| `Pippenger.DropPoint` | cipher/secp256k1/ecmult_impl.h:791-812 | on coordinates: dropping a point adds exactly digit*point to the weighed buckets, and takes the skew out in the last window; indices in range |
| `Pippenger.RecodeFixed` | cipher/secp256k1/ecmult_impl.h:770-777 | skipping zero scalars and infinite points leaves the sum unchanged, each kept scalar recoded in its own block |
| `Pippenger.FillBuckets` | cipher/secp256k1/ecmult_impl.h:787-813 | the weighed buckets equal the combination of the points by their i-th effective digits |
| `Pippenger.OneWindow` | cipher/secp256k1/ecmult_impl.h:815-835 | r becomes 2^(window+1)*r plus the weighed buckets, the deferred doubling included |
| `Pippenger.Windows` | cipher/secp256k1/ecmult_impl.h:784-836 | all windows from the top give the sum over the kept points |
| `Pippenger.PippengerWnaf` | cipher/secp256k1/ecmult_impl.h:763-838 | on coordinates: the result represents sum sc[i]*pt[i] for all inputs and every bucket window |
| `Multi.BucketWindowsAgree` | cipher/secp256k1/ecmult_impl.h:844-932 | the two tables are inverse: window b serves exactly the numbers of points above inv(b-1) and up to inv(b) |
| `Multi.StraussPiecesFit` | cipher/secp256k1/ecmult_impl.h:620-653 | the pieces a batch allocates add up to exactly its frame request |
| `Multi.PippengerPiecesFit` | cipher/secp256k1/ecmult_impl.h:956-999 | they add up to the request less one digit per entry, which is never used |
| `Multi.StraussPiecesHold` | cipher/secp256k1/ecmult_impl.h:620-653 | by size of its entries every piece holds exactly n points, n scalars, n tables of 2^(w-2) entries in each of three forms, and n states |
| `Multi.PippengerPiecesHold` | cipher/secp256k1/ecmult_impl.h:956-999 | every piece holds exactly n + 1 points, scalars and states, all their digits, and 2^window buckets |
| `Multi.StraussMaxPoints` | cipher/secp256k1/ecmult_impl.h:673-675 | exactly the largest number of points whose request fits in the free space |
| `Multi.PippengerMaxPoints` | cipher/secp256k1/ecmult_impl.h:1051-1085 | every number of points up to the result fits with the window chosen for it; 0 only if not even one point fits |
| `Multi.TakePieces` | cipher/secp256k1/ecmult_impl.h:991-999 | in a frame of the requested size every allocation succeeds, in bounds and disjoint |
| `Multi.EnterFrame` | cipher/secp256k1/ecmult_impl.h:640-653 | a batch gets its frame and all its pieces exactly when the request fits and malloc grants it, otherwise nothing has changed |
| `Multi.StraussBatch` | cipher/secp256k1/ecmult_impl.h:629-666 | succeeds exactly when the frame is granted and every callback succeeds (or nothing is asked), and then the result is the sum over the range plus ng*G; the scratch space is as before |
| `Multi.StraussOver` | cipher/secp256k1/ecmult_impl.h:643-664 | in arrays of as many entries as the bytes of each piece amount to, the multiplication never runs past one |
| `Multi.WithGenerator` | cipher/secp256k1/ecmult_impl.h:1001-1023 | putting the generator in front of the points that the callback yields gives their sum plus ng*G |
| `Multi.PippengerBatch` | cipher/secp256k1/ecmult_impl.h:966-1039 | the same contract as the Strauss batch |
| `Multi.PippengerOver` | cipher/secp256k1/ecmult_impl.h:991-1023 | likewise for digits, states and buckets |
| `Multi.MultiSimple` | cipher/secp256k1/ecmult_impl.h:1089-1112 | on coordinates: succeeds exactly when every callback does, with the full sum |
| `Multi.BatchSizeHelper` | cipher/secp256k1/ecmult_impl.h:1116-1132 | batches are nonempty, within the limit and cover the n points, all but the last full; fails exactly for a limit of 0 |
| `Multi.BatchesAreTight` | cipher/secp256k1/ecmult_impl.h:1128-1130 | the second rounding up keeps the number of batches and the limit |
| `Multi.AddBatch` | cipher/secp256k1/ecmult_impl.h:1169-1175 | one batch, of either kind, joined to what the batches before it gave |
| `Multi.RunBatches` | cipher/secp256k1/ecmult_impl.h:1168-1177 | the batches cover each index once and in order, G is counted once; the scratch space is as before |
| `Multi.EcmultMulti` | cipher/secp256k1/ecmult_impl.h:1135-1179 | on coordinates: whenever it reports success the result represents ng*G plus the sum over all n points, whichever path ran; the scratch space is as before. With a malloc that grants, success needs the callbacks to succeed and, in bytes of the C types, room for one point of either algorithm plus 96; that is enough, and below 160 points all of it is needed |
| `StraussJacobian.RescaledIsSame` | cipher/secp256k1/group_impl.h:647-656 | rescaling stands for the same point, with z multiplied |
| `StraussJacobian.ExtendChain` | cipher/secp256k1/ecmult_impl.h:513-519 | rescaling the next point by the last denominator makes its table continue the chain of z ratios |
| `StraussJacobian.ScaledTables` | cipher/secp256k1/ecmult_impl.h:509-525 | all tables of all points over one nonzero denominator, written one after the other into the arrays of the state |
| `StraussJacobian.PrepareTables` | cipher/secp256k1/ecmult_impl.h:469-527 | digits and tables of the points that matter: their combination is that of all points |
| `StraussJacobian.TableGetGeIsMultiple` | cipher/secp256k1/ecmult_impl.h:273-283 | the lookup gives the digit times the point over the same denominator, mirrored for a negative digit |
| `StraussJacobian.TableGetStorageIsMultiple` | cipher/secp256k1/ecmult_impl.h:285-295 | the same from the stored affine table |
| `StraussJacobian.AddPointDigits` | cipher/secp256k1/ecmult_impl.h:582-587 | the digits of all points at one position enter the accumulator on the scaled curve |
| `StraussJacobian.AddBit` | cipher/secp256k1/ecmult_impl.h:559-593 | one bit: from the sum by the suffixes above it to the sum by those including it, still over the denominator |
| `StraussJacobian.Interleave` | cipher/secp256k1/ecmult_impl.h:557-593 | the accumulator ends as the sum by the full digit values over the denominator |
| `StraussJacobian.StraussWnaf` | cipher/secp256k1/ecmult_impl.h:450-598 | on coordinates: the result represents sum na[i]*a[i] plus ng*G on the curve itself, for every number of points, infinite ones, zero scalars and ng absent |
| `StraussJacobian.EcmultContext.constructor` | cipher/secp256k1/ecmult_impl.h:297-302 | a context without table satisfies the invariant |
| `StraussJacobian.EcmultContext.Build` | cipher/secp256k1/ecmult_impl.h:304-334 | afterwards the table holds the affine odd multiples of the generator; a built context is left alone |
| `StraussJacobian.EcmultContext.CloneFrom` | cipher/secp256k1/ecmult_impl.h:336-354 | the copy has its own table with the same entries |
| `StraussJacobian.Ecmult` | cipher/secp256k1/ecmult_impl.h:600-618 | on coordinates: na*A + ng*G |
| `EcmultConst.SelectOdd` | cipher/secp256k1/ecmult_const_impl.h:15-35 | scanning every entry keeps the wanted one, mirrored for a negative digit |
| `EcmultConst.WindowTable` | cipher/secp256k1/ecmult_const_impl.h:161-165 | the eight odd multiples over one nonzero denominator |
| `EcmultConst.NextWindowPoint` | cipher/secp256k1/ecmult_const_impl.h:190-209 | four doublings and one addition turn the multiple by the upper digits into the one with the next digit |
| `EcmultConst.Windows` | cipher/secp256k1/ecmult_const_impl.h:177-209 | the digits from the top give their value times the point, over the denominator |
| `EcmultConst.Correct` | cipher/secp256k1/ecmult_const_impl.h:213-245 | taking off a or 2a undoes the skew |
| `EcmultConst.EcmultConst` | cipher/secp256k1/ecmult_const_impl.h:120-255 | on coordinates: q*A for every q in [0,n) at size 256, and for a smaller size whenever it holds the recoded number |
| `EcmultGen.MasksCancel` | cipher/secp256k1/ecmult_gen_impl.h:63-81 | the masks of the 64 rows add up to zero |
| `EcmultGen.FillRow` | cipher/secp256k1/ecmult_gen_impl.h:65-68 | on coordinates: row j gets U_j + i*16^j*G at each i, the rows before are kept |
| `EcmultGen.NextMask` | cipher/secp256k1/ecmult_gen_impl.h:73-79 | each mask is twice the last, and the final one cancels all others |
| `EcmultGen.FillTable` | cipher/secp256k1/ecmult_gen_impl.h:57-81 | on coordinates: all 64 rows hold U_j + i*16^j*G |
| `EcmultGen.AffineTable` | cipher/secp256k1/ecmult_gen_impl.h:82-82 | one batch normalization gives the affine coordinates of every entry, all of them finite |
| `EcmultGen.StoreTable` | cipher/secp256k1/ecmult_gen_impl.h:84-88 | the entry for row j and column i goes to its place in storage |
| `EcmultGen.FiniteUnlessKnown` | cipher/secp256k1/ecmult_gen_impl.h:57-88 | if the masking point is k times the generator, the table is finite exactly if k is none of 1024 known residues |
| `EcmultGen.Context.constructor` | cipher/secp256k1/ecmult_gen_impl.h:17-19 | a context without table satisfies the invariant |
| `EcmultGen.Context.Build` | cipher/secp256k1/ecmult_gen_impl.h:21-92 | afterwards the table is right and initial + blind*G = 0; a built context is left alone |
| `EcmultGen.Context.Lookup` | cipher/secp256k1/ecmult_gen_impl.h:139-151 | the scan of row j returns its entry for the four bits |
| `EcmultGen.Context.Gen` | cipher/secp256k1/ecmult_gen_impl.h:124-156 | on coordinates: represents gn*G in every reachable state, whatever the blinding, for a table of finite entries |
| `EcmultGen.Context.AddRow` | cipher/secp256k1/ecmult_gen_impl.h:138-155 | the masked entry for four bits is added by the unified formula |
| `EcmultGen.Context.Blind` | cipher/secp256k1/ecmult_gen_impl.h:159-208 | the projection is rescaled and a fresh blinding chosen, the invariant and the table are kept |
| `EcmultGen.Context.CloneFrom` | cipher/secp256k1/ecmult_gen_impl.h:98-113 | the copy has its own table and satisfies the invariant |
| `EcmultGen.Context.Clear` | cipher/secp256k1/ecmult_gen_impl.h:115-122 | back to a context without table |
| `Scratch.Room` | cipher/secp256k1/scratch_impl.h:35-45 | what a frame may take: the limit less the bytes in frames and 16 per object, or 0; modulo 2^64 if the limit is exceeded already |
| `Scratch.ScratchSpace.constructor` | cipher/secp256k1/scratch_impl.h:18-26 | an empty stack within the limit |
| `Scratch.ScratchSpace.MaxAllocation` | cipher/secp256k1/scratch_impl.h:35-45 | max_size less the live total and 16 bytes per object, 0 if there is nothing left |
| `Scratch.ScratchSpace.AllocateFrame` | cipher/secp256k1/scratch_impl.h:47-63 | within the limit a nonempty frame is granted exactly when the live total, the request and 16 bytes per object stay within max_size and malloc grants them; else nothing changes; the new total, and exactly when it keeps the limit |
| `Scratch.ScratchSpace.DeallocateFrame` | cipher/secp256k1/scratch_impl.h:65-69 | the topmost frame is gone, the others are untouched |
| `Scratch.ScratchSpace.Alloc` | cipher/secp256k1/scratch_impl.h:71-84 | where the piece starts and when it is refused; it lies in the frame and clear of all others if and only if neither the rounding nor the sum wraps |
| `Scratch.EmptyRequestOverruns` | cipher/secp256k1/scratch_impl.h:41-53 | a concrete empty request is granted although its overhead does not fit |
| `Scratch.HugeRequestWraps` | cipher/secp256k1/scratch_impl.h:74-81 | a concrete request near 2^64 is rounded to nothing |
| `Scratch.ServeKeepsTidy` | cipher/secp256k1/scratch_impl.h:74-81 | a piece taken without wrapping lies in the frame and off the others |
| `Scratch.ServeBreaksTidy` | cipher/secp256k1/scratch_impl.h:74-81 | a piece taken with wrapping never does |
| `Field10x26.Step` | cipher/secp256k1/field_10x26_impl.h:460-788 | one step of the reduction keeps the residue of columns, limbs and accumulators, every intermediate within 64 bits |
| `Field10x26.Fold` | cipher/secp256k1/field_10x26_impl.h:460-788 | the last folds leave ten limbs of magnitude 1 with the residue of all columns |
| `Field10x26.ReduceColumns` | cipher/secp256k1/field_10x26_impl.h:460-788 | nineteen columns become ten limbs of magnitude 1 congruent to their value mod p |
| `Field10x26.MulInner` | cipher/secp256k1/field_10x26_impl.h:460-788 | for limbs up to the stated bounds the result has magnitude 1 and is the product mod p, nothing wraps |
| `Field10x26.SqrInner` | cipher/secp256k1/field_10x26_impl.h:790-1062 | with doubled cross products, the same for the square |
| `Field10x26.FeMul` | cipher/secp256k1/field_10x26_impl.h:1065-1080 | in place, also when the result is an operand: operands of magnitude 8 give magnitude 1 and the product mod p |
| `Field10x26.FeSqr` | cipher/secp256k1/field_10x26_impl.h:1082-1093 | the same for the square |
| `FieldNormalize.OverflowsIsAtLeastP` | cipher/secp256k1/field_10x26_impl.h:66-68 | the limb test is exactly value >= p |
| `FieldNormalize.Normalize` | cipher/secp256k1/field_10x26_impl.h:42-95 | for magnitude up to 31, the representative in [0,p) |
| `FieldNormalize.NormalizeWeak` | cipher/secp256k1/field_10x26_impl.h:97-126 | magnitude 1, residue kept |
| `FieldNormalize.NormalizeVar` | cipher/secp256k1/field_10x26_impl.h:128-182 | the same representative as the constant time form |
| `FieldNormalize.OnlyZeroAndP` | cipher/secp256k1/field_10x26_impl.h:188-208 | the two folded words say exactly whether the value is a multiple of p |
| `FieldNormalize.NormalizesToZero` | cipher/secp256k1/field_10x26_impl.h:184-211 | true exactly for multiples of p |
| `FieldNormalize.NormalizedIsUnique` | cipher/secp256k1/field_10x26_impl.h:23-36 | two normalized forms of one residue have equal limbs |
| `FieldNormalize.CompareVar` | cipher/secp256k1/field_10x26_impl.h:303-320 | the sign of the difference of the numbers |
| `FieldNormalize.Negate` | cipher/secp256k1/field_10x26_impl.h:385-405 | the negative mod p with magnitude one more, no limb below zero |
| `FieldNormalize.Add` | cipher/secp256k1/field_10x26_impl.h:425-445 | the exact sum, magnitudes added, no limb wrapping |
| `FieldNormalize.Equal` | cipher/secp256k1/field_impl.h:25-30 | true exactly for congruent operands |
| `FieldPower.Sqrt` | cipher/secp256k1/field_impl.h:39-137 | the chain computes exactly a^((p+1)/4), and reports whether its square is a |
| `FieldPower.SqrtOfSquare` | cipher/secp256k1/field_impl.h:39-49 | whenever a is a square that power is a root of it |
| `FieldPower.Inverse` | cipher/secp256k1/field_impl.h:139-227 | the chain computes exactly a^(p-2) |
| `FieldPower.PowerIsInverse` | cipher/secp256k1/field_impl.h:139-227 | by Fermat that power is the inverse |
| `Scalar8x32.MulAdd` | cipher/secp256k1/scalar_8x32_impl.h:266-278 | the three words hold the sum exactly, c2 not overflowing |
| `Scalar8x32.MulAddFast` | cipher/secp256k1/scalar_8x32_impl.h:281-292 | the same within two words |
| `Scalar8x32.MulAdd2` | cipher/secp256k1/scalar_8x32_impl.h:295-314 | twice the product, with both carries of the doubling |
| `Scalar8x32.SumAdd` | cipher/secp256k1/scalar_8x32_impl.h:317-323 | exact addition of a word |
| `Scalar8x32.SumAddFast` | cipher/secp256k1/scalar_8x32_impl.h:326-331 | the same within two words |
| `Scalar8x32.Extract` | cipher/secp256k1/scalar_8x32_impl.h:334-339 | the low word leaves, the rest is the quotient |
| `Scalar8x32.ExtractFast` | cipher/secp256k1/scalar_8x32_impl.h:342-347 | the same within two words |
| `Scalar8x32.Mul512` | cipher/secp256k1/scalar_8x32_impl.h:491-577 | sixteen words that are exactly the product; no column overflows the accumulator |
| `Scalar8x32.Sqr512` | cipher/secp256k1/scalar_8x32_impl.h:579-637 | sixteen words that are exactly the square |
| `ScalarReduce.CheckOverflowIsAtLeastN` | cipher/secp256k1/scalar_8x32_impl.h:75-91 | the word test is exactly value >= n |
| `ScalarReduce.ReduceOnce` | cipher/secp256k1/scalar_8x32_impl.h:93-113 | adds 2^256 - n modulo 2^256 when told to |
| `ScalarReduce.ScalarAdd` | cipher/secp256k1/scalar_8x32_impl.h:115-137 | in place: the sum mod n and the quotient as overflow |
| `ScalarReduce.FoldTo385` | cipher/secp256k1/scalar_8x32_impl.h:358-421 | low half plus high half times 2^256 - n exactly, top word at most 1 |
| `ScalarReduce.FoldTo258` | cipher/secp256k1/scalar_8x32_impl.h:423-466 | the same fold again exactly, what is above 256 bits at most 2 |
| `ScalarReduce.FoldTo256` | cipher/secp256k1/scalar_8x32_impl.h:468-488 | the last fold with its final reduction is fully reduced mod n |
| `ScalarReduce.Reduce512` | cipher/secp256k1/scalar_8x32_impl.h:349-489 | every 512-bit number is reduced to its residue in [0,n) |
| `ScalarReduce.ScalarMul` | cipher/secp256k1/scalar_8x32_impl.h:647-651 | in place: a*b mod n for all inputs |
| `ScalarReduce.ScalarSqr` | cipher/secp256k1/scalar_8x32_impl.h:669-673 | in place: a*a mod n for all inputs |
| `ScalarBits.ScalarNegate` | cipher/secp256k1/scalar_8x32_impl.h:196-214 | n - a, zero staying zero |
| `ScalarBits.IsHighWordsIsHigh` | cipher/secp256k1/scalar_8x32_impl.h:220-236 | the word test is exactly 2a > n |
| `ScalarBits.CondNegate` | cipher/secp256k1/scalar_8x32_impl.h:238-263 | negated mod n or unchanged, with the sign reported |
| `ScalarBits.MaskedWords` | cipher/secp256k1/scalar_8x32_impl.h:240-258 | the two masks make the sum the negation or an addition of nothing, word by word |
| `ScalarBits.CaddBit` | cipher/secp256k1/scalar_8x32_impl.h:139-163 | 2^bit is added exactly or not at all |
| `ScalarBits.ShrInt` | cipher/secp256k1/scalar_8x32_impl.h:653-667 | quotient kept and remainder returned for the power of two |
| `ScalarBits.GetBitsIsBits` | cipher/secp256k1/scalar_8x32_impl.h:59-62 | reads exactly the window of the number |
| `ScalarBits.GetBitsVarIsBits` | cipher/secp256k1/scalar_8x32_impl.h:64-73 | the same across a word boundary |
| `Arith.BitsAreDivMod` | cipher/secp256k1/scalar_8x32_impl.h:59-73 | the window of a number is its quotient by a power of two modulo another |
| `ScalarInverse.Inverse` | cipher/secp256k1/scalar_impl.h:55-218 | the addition chain computes exactly x^(n-2) |
| `ScalarInverse.PowerIsInverse` | cipher/secp256k1/scalar_impl.h:55-218 | by Fermat that power is the inverse mod n |
| `Curve.GeneratorOnCurve` | cipher/secp256k1/group_impl.h:64-71 | the generator lies on the curve y^2 = x^3 + 7 modulo p |
| `Jacobian.ScaledUnique` | cipher/secp256k1/group_impl.h:74-82 | Jacobian coordinates determine the point |
| `Jacobian.GejDouble` | cipher/secp256k1/group_impl.h:306-359 | represents p + p; the ratio reported is that of the z coordinates |
| `Jacobian.GejAddVar` | cipher/secp256k1/group_impl.h:366-417 | represents p + q for all pairs: infinite, equal, opposite; z ratio right |
| `Jacobian.GejAddGeVar` | cipher/secp256k1/group_impl.h:419-466 | the same with an affine second operand, on any scaled copy of the curve |
| `Jacobian.GejAddGe` | cipher/secp256k1/group_impl.h:525-645 | the unified formula with its alternate slope represents p + q for all pairs with q finite |
| `Jacobian.GejAddZinvVar` | cipher/secp256k1/group_impl.h:468-523 | an affine point of the curve itself added to one of the scaled copy, for all pairs |
| `Tables.GeSetGejVar` | cipher/secp256k1/group_impl.h:100-127 | the affine coordinates of the same point, infinity kept; the Jacobian ones are replaced by them |
| `Tables.SetGejZinvScales` | cipher/secp256k1/group_impl.h:74-82 | multiplying by zi^2 and zi^3 multiplies the scale by zi |
| `Tables.FiniteInverses` | cipher/secp256k1/group_impl.h:150-162 | going down, each finite entry receives the inverse of its own z and infinite ones are skipped |
| `Tables.SetAllGejVar` | cipher/secp256k1/group_impl.h:129-168 | every entry becomes the affine form of its point, if and only if one point is finite or all entries were already marked infinite |
| `Tables.InvAll` | cipher/secp256k1/field_impl.h:266-291 | every index holds the inverse of its element from one inversion; a zero among them makes all results zero |
| `OddTables.ToScaledCurve` | cipher/secp256k1/ecmult_impl.h:84-99 | the start over the scale of d, and d the double of the point |
| `OddTables.NextOdd` | cipher/secp256k1/ecmult_impl.h:100-110 | the next odd multiple, and the z ratio it reports, also as difference of abscissas |
| `OddTables.OddMultiplesTable` | cipher/secp256k1/ecmult_impl.h:80-117 | entry i stands for (2i+1)*p over its scale, and zr[i] is the ratio of neighbouring scales |
| `OddTables.GlobalzSetTable` | cipher/secp256k1/group_impl.h:170-193 | all entries over the one denominator returned |
| `OddTables.GlobalzWindowA` | cipher/secp256k1/ecmult_impl.h:130-138 | the eight odd multiples over one denominator |
| `OddTables.DraftTable` | cipher/secp256k1/ecmult_impl.h:170-176 | on the way up entry i holds the ordinate and ratio that its final form needs |
| `OddTables.SettleLast` | cipher/secp256k1/ecmult_impl.h:178-193 | the last entry in affine coordinates, the inverse of its scale and the abscissa of 2p from one inversion |
| `OddTables.Settle` | cipher/secp256k1/ecmult_impl.h:195-252 | one entry on the way down: affine coordinates and its own inverse scale |
| `OddTables.OddMultiplesTableStorage` | cipher/secp256k1/ecmult_impl.h:140-269 | entry i holds the affine coordinates of (2i+1)*p for every i and every table size |
| `Abscissa.GejEqXVarCompares` | cipher/secp256k1/group_impl.h:251-257 | without division, true exactly when x is the affine abscissa |
| `Abscissa.GeSetXoVar` | cipher/secp256k1/group_impl.h:221-242 | succeeds exactly when the curve has a point at x, and gives the one of the wanted parity |
| `Ecdsa.SigVerify` | cipher/secp256k1/ecdsa_impl.h:201-269 | on coordinates: accepts exactly when r and s are nonzero, the recomputed point is finite and its x mod n is r |
| `Ecdsa.SigSign` | cipher/secp256k1/ecdsa_impl.h:271-311 | on coordinates: r, s, recid and success as the nonce point, the signing equation and the low form of s define them |
| `Ecdsa.SignedVerifies` | cipher/secp256k1/ecdsa_impl.h:201-311 | a signature produced is accepted for the signer if and only if its r is nonzero |
| `Ecdsa.FindCandidate` | cipher/secp256k1/secp256k1_recovery.c:100-112 | the point at r or r + n with the parity asked for, exactly when there is one |
| `Ecdsa.SigRecover` | cipher/secp256k1/secp256k1_recovery.c:87-121 | on coordinates: returns the key defined by recid in affine form, and fails exactly when there is none |
| `Ecdsa.SignedRecovers` | cipher/secp256k1/secp256k1_recovery.c:87-121 | recovery with the recid produced returns the signer if and only if r is nonzero, low form included |
| `Ecdsa.RecoveredKeysAreThoseThatVerify` | cipher/secp256k1/secp256k1_recovery.c:87-121 | some recid recovers q exactly when q verifies the signature |
| `Der.ReadLen` | cipher/secp256k1/ecdsa_impl.h:49-97 | succeeds exactly for the shortest definite form of a length that the rest of the input can hold |
| `Der.ParseInteger` | cipher/secp256k1/ecdsa_impl.h:99-143 | succeeds exactly for a minimal nonnegative INTEGER, overlong or at least n reading as 0 |
| `Der.SigParse` | cipher/secp256k1/ecdsa_impl.h:145-175 | accepts exactly a SEQUENCE of two such INTEGERs with nothing left over |
| `Der.SigSerialize` | cipher/secp256k1/ecdsa_impl.h:177-199 | writes the encoding if there is room, always reports its length, and leaves the rest of the buffer |
| `Der.EncodingIsUnique` | cipher/secp256k1/ecdsa_impl.h:145-199 | an accepted signature of nonzero scalars is the encoding of them |
| `Der.ParsingUndoesWriting` | cipher/secp256k1/ecdsa_impl.h:145-199 | parsing what was written gives (r,s) for all scalars, and writing what was parsed as nonzero reproduces the bytes |
| `Der.EncodingBytes` | cipher/secp256k1/ecdsa_impl.h:177-199 | the bytes written: 30, the length of the rest, and for each scalar 02, its length and the shortest nonnegative two's complement form, most significant byte first |
| `Framing.DecodeEncoded` | net/msg.cpp:42-89 | a frame in front of anything is decoded and exactly it is removed |
| `Framing.DecodeIncomplete` | net/msg.cpp:64-75 | an incomplete frame is neither decoded nor removed |
| `Framing.FrameBytes` | net/msg.cpp:41-61 | byte i of a frame is byte i of the 32-bit length, then of the type, least significant first, and then comes the content |
| `Framing.BufferBytes` | net/msg.cpp:63-89 | any buffer is read by those bytes: refused when incomplete, otherwise cut by the length and parsed by the type |
| `Framing.ClientItem.constructor` | net/client_item.cpp:29-35 | a fresh connection satisfies both invariants |
| `Framing.ClientItem.Write` | net/client_item.cpp:45-52 | sent bytes plus unsent bytes equal the frames of all messages written; bytes are handed over only if none were waiting |
| `Framing.ClientItem.OnWrite` | net/client_item.cpp:93-103 | the same after any short write, the rest handed over again |
| `Framing.DecodeAll` | net/client_item.cpp:84-86 | the loop takes off exactly the frames that have fully arrived |
| `Framing.ClientItem.OnRead` | net/client_item.cpp:73-91 | after any chunk exactly the messages whose frames have fully arrived are delivered, in order |
| `Framing.EndToEnd` | net/client_item.cpp:45-103 | sender and receiver together: a delivered prefix of what was written, never a frame behind, and all of it once every byte is through |
| `Aes.SubBitsUndone` | cipher/aes/ctaes.c:64-256 | the inverse S-box circuit undoes the forward one for every byte |
| `Aes.InvSubBitsUndone` | cipher/aes/ctaes.c:64-256 | and the forward one the inverse |
| `AesField.TimesInverse` | cipher/aes/ctaes.c:64-256 | the gates before the affine map give an inverse in the field of 256 elements, for every byte but zero |
| `AesField.OnlyInverse` | cipher/aes/ctaes.c:64-256 | and that inverse is the only one |
| `AesField.SubBitsIsSbox` | cipher/aes/ctaes.c:64-256 | the circuit has the affine map of t as its value exactly if t is the inverse of its argument: it is the S-box of FIPS 197, section 5.1.1 |
| `AesField.Elements` | cipher/aes/ctaes.c:64-256 | the elements {01}, {02}, {03} of the field and the constant {63} of the affine map |
| `Aes.ShiftRowsUndone` | cipher/aes/ctaes.c:263-285 | the two row shifts are inverse |
| `AesColumns.MixColumnsUndone` | cipher/aes/ctaes.c:289-352 | the shared routine with and without its inverse step is mutually inverse |
| `Aes.LoadSave` | cipher/aes/ctaes.c:25-58 | saving a loaded block gives its bytes |
| `Aes.SaveLoad` | cipher/aes/ctaes.c:25-58 | loading a saved state gives the state |
| `Aes.BitWeights` | cipher/aes/ctaes.c:25-58 | bit i of a cell counts 2^i in its byte |
| `Aes.AesLayersUndone` | cipher/aes/ctaes.c:64-360 | every layer with its inverse satisfies what the round structure needs |
| `AesStandard.ShiftIsStd` | cipher/aes/ctaes.c:263-273 | row r is shifted by r places, as section 5.1.2 has it |
| `AesStandard.MixIsStd` | cipher/aes/ctaes.c:289-352 | mixing multiplies every column by the matrix of {02}, {03}, {01}, {01} of section 5.1.3 |
| `AesRounds.Layers.RoundTrips` | cipher/aes/ctaes.c:449-495 | for any such layers and any round keys the two ciphers are mutually inverse |
| `AesRounds.EncryptState` | cipher/aes/ctaes.c:449-468 | the loop of encryption is the cipher defined by recursion |
| `AesRounds.DecryptState` | cipher/aes/ctaes.c:470-495 | the loop of decryption is the inverse cipher |
| `Aes.Encrypt` | cipher/aes/ctaes.c:449-468 | the block computed is the encryption function |
| `Aes.Decrypt` | cipher/aes/ctaes.c:470-495 | the block computed is the decryption function |
| `Aes.BlockRoundTrips` | cipher/aes/ctaes.c:449-495 | each undoes the other for every round key array and every block |
| `AesStandard.EncryptIsStandard` | cipher/aes/ctaes.c:449-468 | whatever states follow each other by SubBytes, ShiftRows, MixColumns and AddRoundKey as section 5.1 has it, the cipher block is the last round of the last of them, byte for byte |
| `AesStandard.RunExists` | cipher/aes/ctaes.c:449-468 | there are such states for every array of round keys |
| `AesKeys.TransformColumn` | cipher/aes/ctaes.c:434-440 | the running position and round constant do to the column what the word index asks for |
| `AesKeys.NextWord` | cipher/aes/ctaes.c:432-446 | one word: the invariant of the running column, position and round constant is kept |
| `AesKeys.Setup` | cipher/aes/ctaes.c:407-447 | every word of the round keys is the word of the recursively expanded key, for every key length and number of rounds |
| `AesStandard.RoundKeysAreStandard` | cipher/aes/ctaes.c:407-447 | row by row these are the round keys of section 5.2: the key bytes, then sums with the word before, rotated, substituted and given {02}^(j-1) where the standard says so |
| `AesStandard.ScheduleIsUnique` | cipher/aes/ctaes.c:407-447 | and no other round keys are |
| `AesStandard.RoundConstant` | cipher/aes/ctaes.c:412-440 | the round constants are 01 02 04 08 10 20 40 80 1B 36 |
| `AesStandard.KeySetup` | cipher/aes/ctaes.c:407-447 | the contexts hold these round keys |
| `Cbc.CbcEncrypt` | cipher/aes/aes.cpp:46-79 | the output is the chained encryption of the padded text, its length reported, the rest of the buffer kept; 0 exactly for sizes it refuses |
| `Cbc.EncryptWhole` | cipher/aes/aes.cpp:60-67 | all whole blocks of the data are chained, in place |
| `Cbc.ChainedBlock` | cipher/aes/aes.cpp:46-79 | every cipher block is the encryption of its text block combined with the cipher block before it, the iv for the first |
| `Cbc.Pad` | cipher/aes/aes.cpp:46-79 | the text, then as many bytes as fill the block, at least one, each being their number |
| `Cbc.CheckPadding` | cipher/aes/aes.cpp:104-118 | fails exactly when the end of the text is not a well-formed padding |
| `Cbc.CbcDecrypt` | cipher/aes/aes.cpp:82-120 | the output is the unchained text up to its padding, with the length reported |
| `Cbc.UnchainedBlock` | cipher/aes/aes.cpp:82-120 | every text block is the decryption of its cipher block combined with the cipher block before it |
| `Cbc.DecryptUndoesEncrypt` | cipher/aes/aes.cpp:46-120 | padded decryption returns every text that was encrypted |
| `Cbc.EncryptUndoesDecrypt` | cipher/aes/aes.cpp:46-120 | whenever decryption returns some bytes, encrypting them gives back the ciphertext |
| `Cbc.FitKey` | cipher/key_tool.cpp:190-192 | byte i of the key used is byte i of the key given, or 0 behind its end |
| `Cbc.AesEncode` | cipher/key_tool.cpp:184-197 | succeeds exactly for a 16-byte iv and a nonempty text, with the padded AES-256 encryption under the fitted key |
| `Cbc.AesDecode` | cipher/key_tool.cpp:199-214 | succeeds for every ciphertext with a 16-byte iv, well-formed or not; empty output for the malformed |
| `Cbc.WrappersRoundTrip` | cipher/key_tool.cpp:184-214 | decoding an encoded text gives it back, and encoding a decoded nonempty one gives the ciphertext |
| `Blake2b.State.constructor` | cipher/blake2/blake2b.cc:107-133 | a state that has absorbed nothing and starts from the initial value of the core, or a finished one if the parameters are refused |
| `Blake2b.State.IncrementCounter` | cipher/blake2/blake2b.cc:72-76 | the two words count exactly, carry included |
| `Blake2b.State.AbsorbBlocks` | cipher/blake2/blake2b.cc:251-271 | whole blocks are compressed as long as something follows, counter exact, the last block held back |
| `Blake2b.State.Update` | cipher/blake2/blake2b.cc:242-280 | the state depends only on the concatenation of the chunks; a finished state refuses bytes and is left alone |
| `Blake2b.State.Final` | cipher/blake2/blake2b.cc:283-311 | the digest of everything absorbed; a second call or a short buffer is refused without effect |
| `Blake2b.KeyBlock` | cipher/blake2/blake2b.cc:136-181 | no bytes without a key, otherwise 128: those of the key and zeros |
| `Blake2b.InitKey` | cipher/blake2/blake2b.cc:136-181 | the zero-padded key is the first block |
| `Blake2b.OneShot` | cipher/blake2/blake2b.cc:314-350 | the one-shot digest equals the streaming definition, parameters checked |
| `Blake2b.Long` | cipher/blake2/blake2b.cc:353-409 | any length from 1 to 2^32-1: the chained half digests and the last one |
| `Blake2b.LongHashParts` | cipher/blake2/blake2b.cc:353-409 | bytes 32k to 32k+31 are the first half of V_(k+1), each V the hash of the one before, and the rest is the hash of the last |
| `Blake2bCore.DoRound` | cipher/blake2/blake2b.cc:205-226 | in place, the macros do the round of RFC 7693, section 3.2 |
| `Blake2bCore.SigmaRepeats` | cipher/blake2/blake2b.cc:31-44 | the twelve rows of the code are the ten of the standard, starting over, each a permutation |
| `Blake2bCore.RowsApart` | cipher/blake2/blake2b.cc:31-44 | no two of the ten put a word in the same place |
| `Blake2bCore.IvIsRoots` | cipher/blake2/blake2b.cc:25-29 | the initialization vector is the first 64 bits of the fractional parts of the square roots of the first eight primes |
| `Blake2bCore.Rotations` | cipher/blake2/blake2-impl.h:150-152 | the shifts amount to rotations by 32, 24, 16 and 63 bits |
| `Blake2bCore.LittleEndian` | cipher/blake2/blake2-impl.h:63-80 | byte i of the memory is bits 8i to 8i+7 of the word |
| `Blake2bCore.LoadStore` | cipher/blake2/blake2-impl.h:63-118 | loading a stored word gives it back |
| `Blake2bCore.ChainBytesAt` | cipher/blake2/blake2b.cc:301-303 | bytes 8i to 8i+7 of the output are word i |
| `Blake2bCore.Compress` | cipher/blake2/blake2b.cc:183-239 | the compression function of section 3.2, counter and last-block flag included |
| `Blake2bCore.InitIsStandard` | cipher/blake2/blake2b.cc:88-103 | the parameter block changes the first word as section 3.3 says, and no other |
| `Blake2bCore.CoreIsCore` | cipher/blake2/blake2b.cc:183-239 | these functions meet what the streaming state asks of its core |
| `Sha256.State.constructor` | cipher/secp256k1/hash_impl.h:36-46 | a state that has absorbed nothing, with the initial hash value of FIPS 180-4 |
| `Sha256.State.Write` | cipher/secp256k1/hash_impl.h:131-147 | the state depends only on the concatenation of the chunks |
| `Sha256.Filler` | cipher/secp256k1/hash_impl.h:150-156 | a byte 80, then zeros, up to eight bytes below a whole block |
| `Sha256.FillerIsShortest` | cipher/secp256k1/hash_impl.h:156-156 | the padding is the shortest that fills a block with the length |
| `Sha256.SizeWords` | cipher/secp256k1/hash_impl.h:154-155 | the two length words are the length in bits, big-endian |
| `Sha256.State.Finalize` | cipher/secp256k1/hash_impl.h:149-163 | the 32 bytes are the SHA-256 digest of everything written (FIPS 180-4, section 6.2), and the state is cleared |
| `Sha256.TransformBuffer` | cipher/secp256k1/hash_impl.h:49-129 | the unrolled transform on the buffer, each word swapped as it is read, processes one block of the standard |
| `Sha256.SwappedWord` | cipher/secp256k1/hash_impl.h:30-34 | swapping a word read from memory gives the word of its bytes in the order of the standard |
| `Sha256.SwappedBytes` | cipher/secp256k1/hash_impl.h:157-162 | swapping a word before it is written puts its bytes in the order of the standard |
| `Sha256.BigEndian` | cipher/secp256k1/hash_impl.h:30-34 | the first byte of four is the most significant one of the word |
| `Sha256.WordOfBytes` | cipher/secp256k1/hash_impl.h:157-162 | and the bytes of a word give it back |
| `Sha256.AllBytesAt` | cipher/secp256k1/hash_impl.h:157-162 | bytes 4i to 4i+3 of the digest are word i |
| `Sha256Standard.ConstantsAreRoots` | cipher/secp256k1/hash_impl.h:53-119 | constant t is the first 32 bits of the fractional part of the cube root of the t-th prime (section 4.2.2) |
| `Sha256Standard.InitialIsRoots` | cipher/secp256k1/hash_impl.h:36-46 | the initial words are those of the square roots of the first eight (section 5.3.3) |
| `Roots.FirstPrimes` | cipher/secp256k1/hash_impl.h:53-119 | the numbers taken for the first 64 primes are all primes up to 311, in order |
| `Sha256Standard.ChIsStd` | cipher/secp256k1/hash_impl.h:16-16 | the macro is the choice function of section 4.1.2 |
| `Sha256Standard.MajIsStd` | cipher/secp256k1/hash_impl.h:17-17 | the macro is the majority function |
| `Sha256Standard.BigSigmaIsStd` | cipher/secp256k1/hash_impl.h:18-19 | the macros are sums of three rotations |
| `Sha256Standard.SigmaIsStd` | cipher/secp256k1/hash_impl.h:20-21 | the macros are sums of two rotations and a shift |
| `Sha256Standard.SameCompress` | cipher/secp256k1/hash_impl.h:49-129 | so what the macros compress to is what the standard does |
| `Hmac.BlockKey` | cipher/secp256k1/hash_impl.h:166-176 | the key, or the digest of one longer than 64 bytes, with zeros behind it |
| `Hmac.PaddedAt` | cipher/secp256k1/hash_impl.h:180-189 | every byte of it is combined with 36 for the inner hash and 5C for the outer one |
| `Hmac.Hmac.constructor` | cipher/secp256k1/hash_impl.h:165-191 | both hashes have taken in the padded key |
| `Hmac.Hmac.Write` | cipher/secp256k1/hash_impl.h:193-195 | the state depends only on the concatenation of the chunks |
| `Hmac.Hmac.Finalize` | cipher/secp256k1/hash_impl.h:197-204 | the code of RFC 2104 for the key and everything written |
| `Hmac.PadsAreXored` | cipher/secp256k1/hash_impl.h:180-189 | the second pad over the first is the inner pad |
| `Rfc6979.Rng.constructor` | cipher/secp256k1/hash_impl.h:206-234 | the state after steps b to g of RFC 6979, section 3.2 |
| `Rfc6979.StartedBySteps` | cipher/secp256k1/hash_impl.h:206-234 | steps b to g written out: two updates from 32 ones and 32 zeros |
| `Rfc6979.CandidatesBySteps` | cipher/secp256k1/hash_impl.h:236-265 | the first candidate, and how every further one follows from the state before |
| `Rfc6979.Rng.Generate` | cipher/secp256k1/hash_impl.h:236-265 | any number of bytes: as many blocks as are needed, after an update unless this is the first request |
| `Rfc6979.Rng.Request` | cipher/secp256k1/hash_impl.h:236-265 | over any run of requests for 32 bytes the n-th yields the n-th candidate of step h |
| `Sha256Rounds.RoundIsStep` | cipher/secp256k1/hash_impl.h:23-28 | a round with rotated argument names is one step of section 6.2.2 |
| `Sha256Rounds.RollIsSchedule` | cipher/secp256k1/hash_impl.h:70-119 | the rolling sixteen words are the message schedule |
| `Sha256Rounds.LoadRounds` | cipher/secp256k1/hash_impl.h:53-68 | the first sixteen rounds |
| `Sha256Rounds.ExtendRounds` | cipher/secp256k1/hash_impl.h:70-119 | the other forty-eight rounds |
| `Sha256Rounds.Transform` | cipher/secp256k1/hash_impl.h:49-129 | the unrolled transform equals the 64-round definition of section 6.2.2 |
| `Sha256Rounds.Sha256Commutes` | cipher/secp256k1/hash_impl.h:15-28 | the 32-bit operations of SHA-256 meet what that theorem asks |

## Left out

- Multi.TakePieces: the scratch space tracks sizes, offsets and which bytes are served; what lives in those bytes is in arrays of their own, of as many entries as the bytes hold. `malloc` and the callback are parameters.
- Recoding.EcmultWnaf: the digit arithmetic is on unbounded integers; for w = 31 the shift of the carry in the code exceeds a 32-bit int.
- Recoding.WnafFixed: the digits are unbounded integers as well; for w = 31 the digits and the windows they borrow from go up to 2^31, beyond a 32-bit int.
- Scalar8x32.Mul512: the columns written out one by one in the code are loops and functions over the same steps in the same order, and limb structures inside a chain are values; likewise `ScalarReduce.Reduce512`, `Field10x26.MulInner` and the rounds of SHA-256.
- FieldNormalize.Normalize: promised for magnitudes up to 31, beyond which the first pass is not covered.
- Abscissa.GeSetXoVar: field elements are residues here, the limb forms being proved separately.
- Aes.Encrypt: the state is sixteen cells of eight bits, not eight slices of sixteen bits; the circuits and the row and column moves are those of the code.
- AesKeys.Setup: the columns of the round keys are kept as a row of words and the working column as one word; what the code leaves in the other three columns of its working state is not modelled.
- Blake2b.State.Update: the class runs over any core, of which `Blake2bCore.CORE` is the one of the code.
- Cbc.AesDecode: null pointers are not modelled.
- Framing.ClientItem.OnWrite: bytes handed to the socket are a snapshot; transport errors, threads and their locks are not modelled.
- Framing.EndToEnd: the payload's serialization is a parameter whose round trip is assumed; messages of unknown type are outside.
- Ecdsa.SigSign: the nonce is a parameter; `Rfc6979.Rng.Request` says what the generator of nonces yields, the loop around the two is not modelled.
- Ecdsa.SigRecover: parsing and storing of recoverable signatures and the retry loop around signing are not modelled.
- The conversions of scalars and field elements from and to bytes and storage.
- The 5x52 field and 4x64 scalars, which are the same algorithms with fewer limbs and not compiled here; `fe_normalizes_to_zero_var`, `fe_mul_int`, `scalar_mul_shift_var`, validity tests of points.
- The endomorphism, GMP numbers, assembly and code compiled only for verification builds.
- Constant time, wiping of memory, quality of randomness.
- Sockets, logging, configuration, hexadecimal helpers, message name tables and the login.
