# liberasurecode in Dafny

A model of liberasurecode, with proofs that what its codecs store can be read back. It covers the codecs that the
repository writes out itself, the pipeline from object to fragments and back, and the two side computations in which
a fast loop stands for a simple definition.

- **Reed-Solomon over GF(2^16)** (`Fields` to `RsCodec`): the log tables, the Vandermonde matrix made systematic in
  place, Gauss-Jordan inversion in place, the region loops, encode, decode and single-fragment reconstruct. The matrix
  part is proved for any field of characteristic 2 and then used with the field of the tables.
- **Flat XOR codes** (`Bitmaps` to `XorHdTables`): encode, the decoder that recovers one fragment at a time, the
  reconstruction of one fragment, the list of fragments to read, and the tables that ship.
- **Local reconstruction codes over ISA-L** (`LocalGroups` to `LrcPrecheck`, `IsalCommon`): matrix generation, row
  selection with the sum of the local parities as one more row, composed inverse rows, local repair. The three
  functions that live in the ISA-L library are a contract (`IsaL.Contract`): multiplication in a field of 256 elements
  in which 2 has order 255, inverse or failure, linear combination of buffers. The field
  modulo 0x11d with inversion of its matrices meets the contract (`IsaLInstance.Gf256MeetsContract`).
- **The fragment pipeline** (`Preprocessing`, `ErasureCode`, `Reconstruction`, `IntWidths`), end to end with the
  Reed-Solomon codec.
- **MD5 streaming** (`Md5`) over an abstract compression function, and **algebraic signatures** (`Horner`, `AlgSig`,
  `AlgSigWords`, `ParitySignatures`) over any multiplication that is linear over exclusive or.

`RoundTrips` composes each codec into one statement: encode, overwrite the lost buffers with anything, decode, and all
fragments are as encoded.

Buffers are arrays that the methods change in place; `modifies` clauses name just the buffers of the lost fragments.
What was stored appears as a ghost argument (`orig`, `frags`) that no code path looks at.

## What the proofs show about the code

- Too few different fragments are not an error for the Reed-Solomon backend: both wrappers drop the return code. With k
  fragments of fewer than k different indices decoding returns 0 with the missing blocks zeroed, so that it is right
  exactly if nothing but zeros is gone (`ErasureCode.DecodedExactly`), and right for every object of a length exactly if
  all data fragments that hold some of it were given (`ErasureCode.DecodesEvery`). Reconstruction returns 0 with a zero
  payload under a good header, which is right for every object exactly for data fragments past its end
  (`Reconstruction.RebuildsExactly`). `RepeatedLosesData` and `RepeatedLosesFragment` are inputs at which they fail.
- The storage format of the Reed-Solomon code is fixed by the shape: the pivot search always stays in its row
  (`ColumnForm.PivotInPlace`), and the parity entry in row r and column j is the product of (r - l) / (k - l) over the
  other data rows l (`Systematic.StandardEntry`, with exclusive or as subtraction).
- XOR encoding and rebuilding of parities add into the buffer: the result is right exactly if the buffer was zero on
  entry (`XorCode.EncodedIsXorCodeword`, `XorHdCode.ParityRestored`).
- The list of fragments to read for a single lost data fragment can contain an excluded one. It does exactly if the
  first parity with at most one excluded data fragment has one (`XorFragmentsNeeded.AnswerAvoids`), which happens with
  a shipped table (`ExcludedReached`). With nothing to rebuild the call returns -1.
- For three lost data fragments that no parity sees alone, that list is computed with a shift by a negative number
  (src/builtin/xor_codes/xor_hd_code.c:172-173). Shipped tables get there (`XorFragmentsNeeded.SumReached`).
- The local part of the LRC pre-check keeps only the low 32 bits of a 64-bit mask. It overlooks a loss exactly if the
  index of the fragment modulo 64 is 32 or more (`LrcPrecheck.LocalTest`), and then accepts losses that reconstruction
  cannot solve (`LrcPrecheck.AcceptsUnsolvable`).
- The LRC code survives any r + 1 losses, r being the number of global parities, exactly if k + r + 1 <= 255
  (`LrcTolerance.BuiltTolerance`). The shapes that start-up accepts beyond that are those with 256 fragments and one local
  parity (`LrcTolerance.AcceptedTolerance`): the row of that parity repeats the one of data fragment 0, so that data
  fragment 1 cannot be restored once the global parities are gone (`LrcTolerance.LargestStripe`).
- The LRC pre-check turns away no request that can be served (`LrcPrecheck.PassedUnserved`), and lets requests pass for
  which the rows found are dependent (`LrcPrecheck.DependentPasses`).
- The rule for the signature of a concatenation holds for 8-bit symbols always, and for 16-bit symbols exactly if the
  first buffer has even length (`AlgSigWords.AppendExactly`). The 32-bit signature of an empty buffer clears eight bytes.
- An object of 2^31 bytes or more is cut short, since its length is narrowed to a 32-bit integer before the block size
  is computed (`IntWidths.BlocksHold`).

## Model

| member | source | states |
|---|---|---|
| GaloisField.Gf16IsField | src/builtin/rs_vand/rs_galois.c:90-117 | carry-less multiplication modulo 0x1100b, exclusive or and the 65534th power as inverse satisfy every field law on all 16-bit values |
| GaloisField.PowersDistinct | src/builtin/rs_vand/rs_galois.c:58-69 | the first 65535 powers of two are different: no short cycle in the doubling loop |
| GaloisField.EveryNonzeroIsPower | src/builtin/rs_vand/rs_galois.c:58-69 | the doubling loop reaches every nonzero 16-bit value |
| GaloisTables.Tables.BuildTables | src/builtin/rs_vand/rs_galois.c:49-71 | after the loop the log table inverts the powers and the tripled antilog table holds three periods of them |
| GaloisTables.Tables.InitTables | src/builtin/rs_vand/rs_galois.c:49-71 | tables stay valid however often they are initialised; every call is counted |
| GaloisTables.Tables.DeinitTables | src/builtin/rs_vand/rs_galois.c:73-88 | the counter never falls below zero and the tables go only with the last user |
| GaloisTables.Tables.Mult | src/builtin/rs_vand/rs_galois.c:90-100 | the table lookup is the field product, zero operands included, and stays inside the table |
| GaloisTables.Tables.Div | src/builtin/rs_vand/rs_galois.c:102-115 | the lookup of the difference of logs is the field quotient; division by zero gives -1 |
| GaloisTables.Tables.Inverse | src/builtin/rs_vand/rs_galois.c:117 | the quotient of one by x: the field inverse, -1 for zero |
| Polynomials.VandermondeIndependent | src/builtin/rs_vand/liberasurecode_rs_vand.c:139-165 | any k rows of a matrix of powers of distinct points have only the trivial kernel, since a nonzero polynomial has fewer roots than coefficients |
| Systematic.CreateNonSystematicVandMatrix | src/builtin/rs_vand/liberasurecode_rs_vand.c:139-165 | row i holds the powers of the i-th element, for any field |
| MatrixOps.SwapMatrixRows | src/builtin/rs_vand/liberasurecode_rs_vand.c:168-178 | two rows change places in place, all others stay |
| MatrixOps.ColMult | src/builtin/rs_vand/liberasurecode_rs_vand.c:180-188 | one column of a range of rows is scaled, nothing else changes |
| MatrixOps.RowMult | src/builtin/rs_vand/liberasurecode_rs_vand.c:190-198 | one row is scaled, nothing else changes |
| MatrixOps.ColMultAndAdd | src/builtin/rs_vand/liberasurecode_rs_vand.c:200-210 | a multiple of one column is added to another in every row |
| MatrixOps.RowMultAndAdd | src/builtin/rs_vand/liberasurecode_rs_vand.c:212-223 | a multiple of one row is added to another |
| MatrixOps.GetNonZeroDiagonal | src/builtin/rs_vand/liberasurecode_rs_vand.c:225-238 | the first row from the diagonal on with a nonzero entry in the column, or -1 exactly if there is none |
| Systematic.MakeSystematicMatrix | src/builtin/rs_vand/liberasurecode_rs_vand.c:240-289 | no zero is inverted and no two rows are ever swapped; the result is the matrix of the format: the powers of the elements divided by their first k rows, parity columns scaled to an all-ones first parity row; any k of its rows are independent |
| Systematic.StandardUnique | src/builtin/rs_vand/liberasurecode_rs_vand.c:240-289 | there is only one matrix of that form |
| Systematic.StandardEntry | src/builtin/rs_vand/liberasurecode_rs_vand.c:240-289 | every parity entry in closed form: a quotient of two products of differences of elements |
| ColumnForm.PivotInPlace | src/builtin/rs_vand/liberasurecode_rs_vand.c:255-262 | with i rows done the diagonal entry of row i is not zero, so that the pivot search stays in its row |
| GaussJordan.GaussjInversion | src/builtin/rs_vand/liberasurecode_rs_vand.c:293-334 | for every square matrix the pivot search fails at some column exactly if the kernel is not trivial; if it never fails, the matrix ends as the identity and the other one inverts the original |
| GaussJordan.InvertsProduct | src/builtin/rs_vand/liberasurecode_rs_vand.c:293-334 | undoing the matrix on every vector is the same as having the identity as product, both ways |
| Regions.RegionXor | src/builtin/rs_vand/liberasurecode_rs_vand.c:336-352 | every byte is added, whether by the four-byte loop or by the tail loop |
| Regions.RegionMultiply | src/builtin/rs_vand/liberasurecode_rs_vand.c:354-381 | every little-endian word becomes, or has added, the product with the factor; the last byte of an odd region is multiplied on its own |
| Regions.RegionDotProduct | src/builtin/rs_vand/liberasurecode_rs_vand.c:383-397 | every word of the target is the dot product of the matrix row with the words of the sources; the sources stay |
| Erasures.IsMissing | src/builtin/rs_vand/liberasurecode_rs_vand.c:108-118 | whether an index is in the -1 terminated list |
| Erasures.MarkMissing | src/builtin/rs_vand/liberasurecode_rs_vand.c:426-443 | one flag per fragment, set exactly for the listed ones, and their number |
| Erasures.GetFirstKAvailable | src/builtin/rs_vand/liberasurecode_rs_vand.c:412-424 | the buffers of the first k fragments that are not missing, in index order |
| Decoding.CreateDecodingMatrix | src/builtin/rs_vand/liberasurecode_rs_vand.c:120-133 | the generator rows of the first k available fragments, the same fragments that the buffer selection picks |
| Decoding.InvertAvailable | src/builtin/rs_vand/liberasurecode_rs_vand.c:449-454 | these rows are always invertible, so the inversion succeeds with at most m losses |
| RsCodec.RsEncode | src/builtin/rs_vand/liberasurecode_rs_vand.c:399-410 | data stay, and data and parity together are a code word: each fragment is its generator row applied to the data words |
| RsCodec.RsDecode | src/builtin/rs_vand/liberasurecode_rs_vand.c:426-481 | with at most m losses every lost data buffer gets its stored bytes back whatever it held, and with the rebuild flag every lost parity too; with more, -1 and nothing changed |
| RsCodec.RsReconstruct | src/builtin/rs_vand/liberasurecode_rs_vand.c:483-558 | writes only the wanted fragment, data or parity, and writes what was stored; -1 and nothing changed beyond m losses |
| Decoding.CopyAvailable | src/builtin/rs_vand/liberasurecode_rs_vand.c:522-533 | the generator row without its lost data, as a form over the available fragments |
| Decoding.SubstituteMissing | src/builtin/rs_vand/liberasurecode_rs_vand.c:535-546 | adding the inverse rows of the lost data gives the same linear form as the generator row |
| RoundTrips.RsRoundTrip | test/builtin/rs_vand/liberasurecode_rs_vand_test.c:130-210 | for all k, m, data, junk and losses: build the matrix of the format, encode, overwrite the lost buffers with junk, decode; up to m losses all k+m buffers are as encoded, beyond that decoding refuses and they stay overwritten |
| Preprocessing.BlocksizeFits | src/erasurecode_helpers.c:186-208 | k blocks hold all the data, a block is a whole number of words, and one word less would not do |
| Preprocessing.PrepareFragmentsForEncode | src/erasurecode_preprocessing.c:36-108 | new buffers: data fragment i holds the i-th block, padded with zeros, parities are empty and no two share storage |
| Preprocessing.JoinAllBlocks | src/erasurecode_preprocessing.c:350-358 | joining the k padded blocks and cutting at the length gives the object back |
| Preprocessing.BlocksArePadded | src/erasurecode_preprocessing.c:56-76 | the k blocks one after the other are the object with zeros behind it |
| Preprocessing.GetFragmentPartition | src/erasurecode_preprocessing.c:219-267 | fragments go to the places of their indices, the last of several with the same one, and the list names exactly the empty places; an index out of range is an error |
| Preprocessing.FragmentsToString | src/erasurecode_preprocessing.c:269-370 | which of the four outcomes occurs, and in the good one the first fragment of each index joined in index order and cut at the recorded length |
| Preprocessing.AllocateMissing | src/erasurecode_preprocessing.c:117-217 | given fragments stay in place, every gap becomes a zeroed buffer of its own |
| ErasureCode.FinalizeFragments | src/erasurecode_postprocessing.c:71-93 | every header carries its index, block size and object length |
| ErasureCode.Instance.Create | src/backends/rs_vand/liberasurecode_rs_vand.c:147-249 | refused exactly if k+m exceeds the field size; otherwise the matrix of the format, row i belonging to the number i, systematic and any k of its rows independent |
| ErasureCode.SameFragments | src/backends/rs_vand/liberasurecode_rs_vand.c:147-249 | any two instances of the same shape store the same fragments of an object |
| ErasureCode.SmallFormat | src/builtin/rs_vand/liberasurecode_rs_vand.c:240-289 | two data and three parity fragments: the second column of the last two parity rows is 0x8804 and 2 |
| ErasureCode.Encode | src/erasurecode.c:383-477 | the k+m fragments are the blocks of the object and their parities, with headers saying so |
| ErasureCode.TryShortcut | src/erasurecode.c:597-608 | decoding without the backend works exactly if all k data fragments are among those given, duplicates and order aside |
| ErasureCode.RunDecode | src/backends/rs_vand/liberasurecode_rs_vand.c:93-104 | the wrapper drops the return code: too few different fragments leave the gaps zero |
| ErasureCode.FillMissingHeaders | src/erasurecode.c:685-701 | rebuilt data fragments get the headers the join needs |
| ErasureCode.Decode | src/erasurecode.c:523-734 | fewer than k fragments is an error; otherwise the result is 0, and the object if k indices differ, or the object with every block that was not given zeroed if not |
| ErasureCode.DecodedExactly | src/erasurecode.c:523-734 | what decoding delivers is the object exactly if k indices differ or all bytes of the blocks not given are zero |
| ErasureCode.DecodesEvery | src/erasurecode.c:523-734 | for a given length decoding is right for every object exactly if k indices differ or every data fragment that holds some of the bytes was given |
| ErasureCode.RepeatedLosesData | src/erasurecode.c:523-734 | three bytes in two data fragments, the first fragment given twice: the last byte reads as zero |
| ErasureCode.EncodeLoseDecode | src/erasurecode.c:383-734 | end to end: encode any byte string, keep any fragments in any order with any repetition, decode with another instance of the shape; with k of them decoding returns 0, and exactly the string if and only if k indices differ or only zero bytes are gone |
| Reconstruction.RunReconstruct | src/backends/rs_vand/liberasurecode_rs_vand.c:106-117 | the reconstruct wrapper drops the return code too: the payload of the wanted fragment is right with k different fragments and zero with fewer |
| Reconstruction.ReconstructFragment | src/erasurecode.c:748-949 | a given fragment is copied; otherwise fewer than k fragments is an error that leaves the output alone, and with k of them the output has the right header, and the right payload if k indices differ or zeros if not |
| Reconstruction.EncodeLoseReconstruct | src/erasurecode.c:383-949 | end to end: encode any byte string, keep any fragments, reconstruct with another instance of the shape; which calls succeed, and that the fragment equals the encoded one, header and payload, if and only if the wanted one is kept, k indices differ or its payload is all zeros |
| Reconstruction.RebuildsExactly | src/erasurecode.c:748-949 | for a given length a fragment is delivered rightly for every object exactly if it was given, k indices differ, or it is a data fragment past the end |
| Reconstruction.RepeatedLosesFragment | src/erasurecode.c:748-949 | three bytes in two data fragments, the first given twice: the second is delivered with a zero payload |
| IntWidths.BlocksHold | src/erasurecode_preprocessing.c:48 | the length is narrowed to 32 bits: the aligned size covers the object exactly if the length fits, and then it is the intended size |
| IntWidths.FitsExactly | src/erasurecode_helpers.c:186-208 | no int on the way overflows exactly if length plus one alignment unit, and block size plus header, stay below 2^31 |
| IntWidths.HeaderFits | src/erasurecode_helpers.c:124-138 | with at least two data fragments the first of these two bounds implies the second |
| XorCode.XorBufsAndStore | src/builtin/xor_codes/xor_code.c:141-178 | every byte is added once, by the wide loop or the tail loop, for every length |
| XorCode.XorCodeEncode | src/builtin/xor_codes/xor_code.c:180-191 | each parity buffer has the data that its bitmap names added to what it held |
| XorCode.EncodedIsXorCodeword | src/builtin/xor_codes/xor_code.c:180-191 | what encoding leaves is a code word exactly if every parity buffer was zero on entry |
| XorBuffers.SelectiveEncode | src/builtin/xor_codes/xor_code.c:193-207 | only the listed parities change, each by the data it names |
| XorLists.GetFailurePattern | src/builtin/xor_codes/xor_code.c:74-128 | the state machine ends in the pattern of the numbers of lost data and parities, and in GE_HD from hd losses on |
| XorLists.GetMissingParity | src/builtin/xor_codes/xor_code.c:209-225 | the lost parities in list order, terminated by -1 |
| XorLists.GetMissingData | src/builtin/xor_codes/xor_code.c:227-243 | the lost data in list order, terminated by -1 |
| XorLists.NumMissingDataInParity | src/builtin/xor_codes/xor_code.c:316-335 | how many of the lost data fragments a parity sees |
| XorLists.IndexOfConnectedParity | src/builtin/xor_codes/xor_code.c:337-371 | the first present parity that holds the fragment and sees at most one lost one, or -1 exactly if there is none |
| XorLists.RemoveFromMissingList | src/builtin/xor_codes/xor_code.c:373-395 | the element is taken out in place, the order of the rest kept |
| XorRepair.NextRepairUsable | src/builtin/xor_codes/xor_hd_code.c:418-572 | below hd losses a next repair exists and reads nothing that is lost, by a parity that sees one loss or by the sum of one that sees two and one that sees three |
| XorHdCode.DecodeOneData | src/builtin/xor_codes/xor_hd_code.c:418-436 | one lost data fragment is restored |
| XorHdCode.DecodeTwoData | src/builtin/xor_codes/xor_hd_code.c:438-473 | two lost data fragments are restored, in the order the code finds |
| XorHdCode.DecodeThreeData | src/builtin/xor_codes/xor_hd_code.c:475-572 | three lost data fragments are restored, by the sum of two parities if no parity sees just one |
| XorHdCode.XorHdDecode | src/builtin/xor_codes/xor_hd_code.c:574-662 | for every code with distinct columns of weight hd-1: below hd losses all lost data come back and lost parities have their value added; only needed fragments are read and only lost ones written; from hd losses on -1 and nothing changed |
| XorHdCode.ParityRestored | src/builtin/xor_codes/xor_hd_code.c:574-662 | a rebuilt parity is right exactly if its buffer was zero on entry |
| XorHdCode.NeededPresent | src/builtin/xor_codes/xor_hd_code.c:574-662 | what the decoder reads is never one of the lost fragments |
| XorReconstruct.XorReconstructOne | src/builtin/xor_codes/xor_code.c:248-314 | the wanted fragment is restored by one parity or its own data whatever else is lost, otherwise below hd losses by decoding; the cheap ways write nothing else, -1 changes nothing |
| XorFragmentsNeeded.FragmentsNeededOneData | src/builtin/xor_codes/xor_hd_code.c:34-53 | adds exactly what the decoder reads for one lost data fragment |
| XorFragmentsNeeded.FragmentsNeededTwoData | src/builtin/xor_codes/xor_hd_code.c:58-91 | adds exactly what the decoder reads for two lost data fragments |
| XorFragmentsNeeded.FragmentsNeededThreeData | src/builtin/xor_codes/xor_hd_code.c:96-183 | adds exactly what the decoder reads for three lost data fragments, one of which some parity sees alone |
| XorFragmentsNeeded.FragmentsNeededOneDataLocal | src/builtin/xor_codes/xor_hd_code.c:185-207 | the first parity that holds the fragment and sees at most one excluded one, with all its data |
| XorFragmentsNeeded.XorHdFragmentsNeeded | src/builtin/xor_codes/xor_hd_code.c:209-412 | which calls succeed, and the answer as an increasing list of what the decoder, or for one fragment the first usable parity, reads; a call with nothing to rebuild fails |
| XorFragmentsNeeded.AnswerIsNeeded | src/builtin/xor_codes/xor_hd_code.c:209-412 | with nothing excluded the answer is what the decoder reads, all of it present |
| XorMinimal.AnswerMinimal | src/builtin/xor_codes/xor_hd_code.c:209-412 | no listed fragment can be dropped: for each there are two code words that agree on the rest of the list and differ in a fragment to be rebuilt or excluded |
| XorMinimal.NeededMinimal | src/builtin/xor_codes/xor_hd_code.c:34-183 | the same for what undoing any losses below hd reads, as long as one parity at a time is enough |
| XorFragmentsNeeded.AnswerAvoids | src/builtin/xor_codes/xor_hd_code.c:185-207 | excluded fragments stay out of the answer exactly if the local parity taken, if one is, sees none of them |
| XorFragmentsNeeded.ExcludedReached | src/builtin/xor_codes/xor_hd_code.c:185-207 | with a shipped table an excluded fragment is in the answer although another parity would have avoided it |
| XorFragmentsNeeded.SumReached | src/builtin/xor_codes/xor_hd_code.c:160-183 | with a shipped table three losses reach the sum-of-parities branch |
| XorHdTables.TableValid | include/xor_codes/xor_hd_code_defs.h:1-176 | every shipped table has transposed bitmaps and distinct columns of weight hd-1 |
| XorHdTables.Hd3M3Columns | include/xor_codes/xor_hd_code_defs.h:35-36 | the parities of each data fragment, spelled out |
| XorHdTables.Hd3M5Columns | include/xor_codes/xor_hd_code_defs.h:32-33 | the parities of each data fragment, spelled out, for every k with a table (the shorter tables are its prefixes) |
| XorHdTables.Hd3M6ColumnsFirst | include/xor_codes/xor_hd_code_defs.h:39-61 | the same for the first seven data fragments |
| XorHdTables.Hd3M6ColumnsRest | include/xor_codes/xor_hd_code_defs.h:39-61 | the same for the other data fragments |
| XorHdTables.Hd4M5Columns | include/xor_codes/xor_hd_code_defs.h:114-125 | the parities of each data fragment, spelled out, for every k with a table |
| XorHdTables.Hd4M6ColumnsFirst | include/xor_codes/xor_hd_code_defs.h:63-101 | the same for the first ten data fragments |
| XorHdTables.Hd4M6ColumnsRest | include/xor_codes/xor_hd_code_defs.h:63-101 | the same for the other data fragments |
| XorHdTables.Hd4M6K12ColumnsFirst | include/xor_codes/xor_hd_code_defs.h:29-30 | the same for the hand-made code with twelve data fragments, the first six |
| XorHdTables.Hd4M6K12ColumnsRest | include/xor_codes/xor_hd_code_defs.h:29-30 | the same for its other six |
| XorHdTables.InitValid | src/builtin/xor_codes/xor_hd_code.c:664-708 | which k, m, hd have a code, and that each one is valid |
| RoundTrips.XorRoundTrip | test/builtin/xor_codes/test_xor_hd_code.c:62-231 | for every shipped code and fewer than hd losses: encode into zeroed parities, lose, decode; all fragments are as encoded |
| LocalGroups.GroupsTile | include/isa_l/isa_l_common.h:98-139 | for 1 <= l <= k the groups tile the data: a fragment is in exactly the group computed for it, and sizes match bounds |
| LocalGroups.GroupEnds | include/isa_l/isa_l_common.h:108-122 | the first group starts at 0 and the last ends at k |
| LocalGroups.GroupSizes | include/isa_l/isa_l_common.h:98-106 | no two group sizes differ by more than one, and the larger groups come first |
| LocalGroups.GroupSizesUnique | include/isa_l/isa_l_common.h:98-106 | only one list of l sizes with sum k is like that |
| LocalGroups.LowerIsTotal | include/isa_l/isa_l_common.h:108-122 | a group starts where the groups before it, with those sizes, end |
| InverseRows.MultAndXorRow | include/isa_l/isa_l_common.h:88-96 | a multiple of one row is added to another in place |
| LrcMatrix.GenEncodingMatrix | src/backends/isa-l/isa_l_rs_lrc.c:48-123 | fails exactly beyond 255 data fragments; otherwise the matrix is the quotient of the points by their first k rows with each local parity confined to its group, and the sum of the local parities is in one independent family with data and globals exactly if k+r+1 <= 255 |
| LrcTolerance.TolerantIffGenerator | src/backends/isa-l/isa_l_rs_lrc.c:445-581 | for every systematic matrix with confined local rows: all sets of at most r+1 losses can be decoded exactly if data, global parities and the sum of the local ones are an independent family |
| LrcTolerance.BuiltTolerance | src/backends/isa-l/isa_l_rs_lrc.c:48-123 | the matrix that is built lets all sets of at most r+1 losses be decoded exactly if k+r+1 <= 255 |
| LrcTolerance.AcceptedTolerance | src/backends/isa-l/isa_l_rs_lrc.c:137-150 | of the shapes with at most 256 fragments that start-up accepts, exactly those with 256 fragments and one local parity break the promise |
| LrcTolerance.RepeatedUnsolvable | src/backends/isa-l/isa_l_rs_lrc.c:48-123 | without room for the points: at most r+1 losses that leave k rows, one of which repeats another, and cannot be decoded |
| LrcTolerance.LargestStripe | src/backends/isa-l/isa_l_rs_lrc.c:48-123 | 128 data fragments, 127 global parities, one local: data fragment 1 and the global parities are r+1 losses that cannot be decoded |
| LrcPrecheck.CheckReconstructFragments | src/backends/isa-l/isa_l_rs_lrc.c:225-282 | which requests pass: those whose group is complete as far as the low halves of the 64-bit masks show, and those with enough useful fragments |
| LrcPrecheck.PassedUnserved | src/backends/isa-l/isa_l_rs_lrc.c:225-282 | no request that reconstruction can serve is turned away, and exactly when one that passes is then refused |
| LrcPrecheck.DependentPasses | src/backends/isa-l/isa_l_rs_lrc.c:225-282 | a request in the largest stripe that passes with k rows found, although they are dependent |
| LrcPrecheck.NoneRebuilt | src/backends/isa-l/isa_l_rs_lrc.c:679-843 | in the largest stripe none of these r+1 lost fragments can be reconstructed, not even the data fragment whose group is complete |
| LrcPrecheck.LocalTest | src/backends/isa-l/isa_l_rs_lrc.c:231-253 | the local test is right about every set of losses exactly if no fragment the group needs has an index of 32 or more modulo 64 |
| LrcPrecheck.AcceptsUnsolvable | src/backends/isa-l/isa_l_rs_lrc.c:231-253 | two losses among 34 data fragments pass the local test although the group is not complete and no k rows can be found |
| LrcPrecheck.ManyLosses | src/backends/isa-l/isa_l_rs_lrc.c:368-443 | with more losses than parities the selection never finds k rows |
| LrcSelection.CountUsefulFragments | src/backends/isa-l/isa_l_rs_lrc.c:255-281 | the pre-check counts right: an error exactly if the decoder cannot find k rows |
| LrcSelection.UsefulIffSelected | src/backends/isa-l/isa_l_rs_lrc.c:255-443 | at least k useful fragments exactly if the row selection with its combined parity finds k rows |
| LrcSelection.SelectedExactly | src/backends/isa-l/isa_l_rs_lrc.c:368-443 | the selection finds k rows exactly if the data and global parities left, and one more for each group that lost data and has its local parity, are at least k |
| LrcSelection.FewLossesSelected | src/backends/isa-l/isa_l_rs_lrc.c:368-443 | up to r+1 losses the selection finds k rows, all of them in the independent family |
| InverseRows.GetLrcInverseRows | src/backends/isa-l/isa_l_rs_lrc.c:293-366 | one row per lost fragment in increasing order: the inverse row, or the parity row with inverse rows put in for the lost data |
| InverseRows.FormRowPlain | src/backends/isa-l/isa_l_rs_lrc.c:293-366 | if nothing in the window is lost the composed row is the parity row itself |
| LrcDecodeMatrix.GetDecodeMatrix | src/backends/isa-l/isa_l_rs_lrc.c:368-443 | succeeds exactly if the selection has k rows, and then holds these rows, the sum of the local parities in place where it is used |
| Lrc.LrcDecode | src/backends/isa-l/isa_l_rs_lrc.c:445-581 | for every systematic matrix with confined local rows: returns 0 exactly if the selection has k rows with trivial kernel, in particular for every r+1 losses of a generator; then every data, global and local fragment is as encoded; otherwise nothing is written |
| Lrc.FewLossesSolvable | src/backends/isa-l/isa_l_rs_lrc.c:445-581 | with an independent family every set of at most r+1 losses is solvable |
| LrcReconstruct.Plan | src/backends/isa-l/isa_l_rs_lrc.c:583-677 | a plan for the fragment exists exactly if its group is complete and its local parity depends on it, or the group is not complete and the losses are solvable |
| LrcReconstruct.GeneratorPlan | src/backends/isa-l/isa_l_rs_lrc.c:583-677 | with an independent family the plan exists exactly if the group is complete or the losses are solvable |
| LrcReconstruct.GroupInvertible | src/backends/isa-l/isa_l_rs_lrc.c:591-632 | the small matrix of a group with one data fragment replaced by the local parity is invertible exactly if the parity has a coefficient for that fragment |
| LrcReconstruct.LrcReconstructOne | src/backends/isa-l/isa_l_rs_lrc.c:679-843 | returns 0 exactly if there is such a plan; then the one fragment is as encoded and no other buffer was written, otherwise nothing is written |
| RoundTrips.LrcRoundTrip | src/backends/isa-l/isa_l_rs_lrc.c:48-581 | for all k, m, l that can be built and all losses: build the matrix, encode, overwrite, decode; all fragments are as encoded exactly if the losses are solvable, which r+1 losses are if there is room for the points |
| IsalCommon.IsalEncode | src/backends/isa-l/isa_l_common.c:39-52 | data stay, and data and parity are a code word of the matrix |
| IsalCommon.IsalGetDecodeMatrix | src/backends/isa-l/isa_l_common.c:54-78 | the rows of the first k present fragments; fails exactly if there are fewer |
| IsalCommon.IsalDecode | src/backends/isa-l/isa_l_common.c:149-253 | 0 exactly if those rows exist and are invertible, in particular up to m losses of an MDS matrix; then everything is restored, otherwise nothing written |
| IsalCommon.IsalReconstruct | src/backends/isa-l/isa_l_common.c:255-367 | the same condition for one fragment, and no other buffer written |
| Md5.Context.Body | src/utils/chksum/md5.c:86-191 | the chaining value after a run of blocks is the fold of the compression function over them |
| Md5.Context.Update | src/utils/chksum/md5.c:204-236 | the context after absorbing more bytes stands for the message so far with them appended, however they cut the 64-byte blocks |
| Md5.Context.Final | src/utils/chksum/md5.c:238-287 | the digest of the message padded and length-suffixed as sections 3.1 and 3.2 of RFC 1321 say, and the context wiped |
| Md5.HashParts | src/utils/chksum/md5.c:193-287 | for every split of a message into updates the digest is that of the message in one piece |
| Md5.StartingValue | src/utils/chksum/md5.c:193-202 | with a compression function that changes nothing the digest of every message is the sixteen bytes 01 23 ... 32 10 of section 3.3 of RFC 1321 |
| Md5.OneBlock | src/utils/chksum/md5.c:86-191 | one block takes the chaining value to its compression with that block, so that with concatenation the fold is fixed |
| Md5.PaddingUnique | src/utils/chksum/md5.c:238-266 | the padded message is the only one made of the message, the byte 0x80, fewer than 64 zero bytes and the bit length, in whole blocks |
| Md5.CountsMean | src/utils/chksum/md5.c:211-215 | the two counter words track the byte count modulo 2^61 |
| Md5.CountStep | src/utils/chksum/md5.c:211-215 | the carry test on the masked low word is right for every size of update |
| Md5.LengthSuffix | src/utils/chksum/md5.c:238-266 | the padded message is whole blocks and ends with the bit length modulo 2^64, low word first |
| AlgSig.AlgSig8.constructor | src/utils/chksum/alg_sig.c:93-154 | the split tables hold the products of both nibbles with the points 2, 4 and 8 |
| AlgSig.AlgSig8.Compute32 | src/utils/chksum/alg_sig.c:303-335 | the four bytes are the values of the buffer polynomial at 1, 2, 4 and 8, for every length |
| AlgSigWords.AlgSig16.constructor | src/utils/chksum/alg_sig.c:156-241 | the split tables hold the products of both bytes with the points a signature of this length needs |
| AlgSigWords.AlgSig16.Compute64 | src/utils/chksum/alg_sig.c:337-395 | the four words are the values of the word polynomial at 1, 2, 4 and 8, whatever byte lies beyond an odd buffer |
| AlgSigWords.AlgSig16.Compute32 | src/utils/chksum/alg_sig.c:397-443 | the two words are the values at 1 and 2; an empty buffer clears eight bytes, not four |
| AlgSigWords.OddIsPadded | src/utils/chksum/alg_sig.c:337-443 | a buffer of odd length is read as if a zero byte came after it |
| AlgSigWords.WordValue | src/utils/chksum/alg_sig.c:337-443 | as a number, a full word is its first byte plus 256 times its second |
| Horner.EvalIsSum | src/utils/chksum/alg_sig.c:303-335 | the backward loop is the sum of the symbols times the powers of the point |
| AlgSigWords.AppendBytes | src/utils/chksum/alg_sig.c:303-335 | the signature of a concatenation is the first one plus the second times the point to the first length |
| AlgSigWords.AppendWords | src/utils/chksum/alg_sig.c:337-443 | the same for words, if the first buffer is whole words |
| AlgSigWords.AppendExactly | src/utils/chksum/alg_sig.c:337-443 | the rule for 16-bit symbols holds for every second buffer exactly if the first has even length |
| ParitySignatures.XorSignature8 | src/utils/chksum/alg_sig.c:303-335 | the signature of the exclusive or of two buffers is the exclusive or of their signatures |
| ParitySignatures.XorSignature16 | src/utils/chksum/alg_sig.c:337-443 | the same for 16-bit symbols, odd lengths included |
| ParitySignatures.CodewordSignatures8 | src/utils/chksum/alg_sig.c:303-335 | in a flat XOR code word the signature of a parity is what its bitmap makes of the data signatures |
| ParitySignatures.CodewordSignatures16 | src/utils/chksum/alg_sig.c:337-443 | the same for 16-bit symbols |

## Left out

- XorFragmentsNeeded.XorHdFragmentsNeeded: does not model the sum-of-parities case of three lost data fragments, whose shift by a negative number has no defined result; `NeedsSum` names these calls.
- XorFragmentsNeeded.FragmentsNeededThreeData: the same case, excluded by its precondition on `FirstRepairable`.
- ErasureCode.EncodeLoseDecode: is stated for byte strings of every length; the code does what it says for lengths that satisfy `IntWidths.IntsFit`, which `IntWidths.FitsExactly` reduces to two comparisons.
- GaussJordan.GaussjInversion: stops where the pivot search returns -1, which is proved to happen exactly for a singular matrix; the code goes on and swaps with row -1. No caller passes a singular matrix (`Decoding.InvertAvailable`).
- Matrices are two-dimensional arrays, not flat ones indexed by row * cols + column.
- Regions.RegionMultiply: an odd trailing byte of 128 or more is not modelled, since it is read as a signed character (src/builtin/rs_vand/liberasurecode_rs_vand.c:367-379), for which the log table has no entry where that is negative. Block sizes of the pipeline are whole words.
- Buffer alignment and the wide-word and SSE2 variants of the loops; failing allocations.
- Fragment header magic, versions and checksums, `force_metadata_checks`, and CRC-32.
- Lists with repeated indices given directly to a codec; the pipeline never produces one.
- The LRC backend's symbol lookup on start-up; gf_mul, gf_invert_matrix, ec_init_tables and ec_encode_data themselves.
- AlgSig.AlgSig8.constructor: the library's multiplication is any function that is linear over exclusive or at the points used.
- Md5.Context.Body: the 64 rounds on one block are a parameter, so that the digests are those of MD5 up to that function.
- Concurrent use of the counter of the log tables.
- The instance registry, locks, dynamic loading, logging, and the backends that only wrap other libraries.
- Fragment counts that the flat XOR backend reports for its heuristics (src/backends/xor/flat_xor_hd.c:92-148).
