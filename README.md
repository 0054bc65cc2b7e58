# CROWN core, modelled in Dafny

CROWN is a concolic tester for C programs. An instrumented program calls the
recording library (`libcrown`) at every load, store, operator, call, return,
branch and input. The library keeps a symbolic stack machine alongside the
concrete run. It also keeps a byte-slot symbolic memory and an object tracker
for memory regions whose address depends on an input. As the run goes on it
records the path: the branch ids taken and the constraints met at symbolic
branches. At exit it serialises the inputs, the path and the memory to files.
The search driver (`run_crown`) reads these files back. It keeps the branch
coverage of every run, picks a branch to negate, asks a solver for new inputs
and starts the program again. The CFG heuristic search ranks the branches to
negate by their distance in the control-flow graph to branches not yet
covered. The replay library (`crown_replay`) reads a saved input file back
into the program.

The model has one Dafny module per source component:

- `BasicTypes`, `BasicFunctions`, `Bytes`, `Arith` and `BitFields`: the type
  table, the value ranges and casts, byte encodings, and bit-field packing.
- `Exprs`, `ExprCodec`, `WriterFactory`, `SearchFactory`: symbolic expression
  trees, their binary serialisation, and the two factories that build them.
- `SymbolicObject`, `MemoryWriter`, `SearchMemory`, `ObjectTracker`: symbolic
  objects, the writer's 32-byte block memory, its reader on the search side,
  and the tracker of symbolic-address regions.
- `Interpreter`: the `SymbolicInterpreter` class, the stack machine the
  instrumentation drives.
- `PathWriter` and `SymbolicPath`: the path as recorded and as parsed back.
- `Search`: branch tables, coverage, solving at a branch, the reversed CFG,
  distances, the path walks of the CFG heuristic, and the ranking of branches.
- `Replay`: reading saved input values back.

Objects that the source updates in place are classes with `modifies` clauses.
Examples are the interpreter, the path writer, the path reader, the search
state and the CFG heuristic search. Each class method is proved against a
function on values, and the properties are proved as lemmas about those
functions.

## Model

| member | source | states |
|---|---|---|
| BasicTypes.SizeOfTypeTable | src/base/basic_types.cc:132-153 | `kSizeOfType` has 19 entries, STRUCT is the only type of size 0, no type is wider than 16 bytes, and the four bit-field tags have the sizes of `unsigned char`, `unsigned short`, `unsigned int` and `unsigned long long` |
| BasicTypes.MinMaxRange | src/base/basic_types.cc:85-126 | `kMinValue[t] <= kMaxValue[t]` holds exactly for the types other than `unsigned long`, `unsigned long long`, pointer and the 64-bit union bit-field, whose maximum converts to -1 |
| BasicTypes.NegateCompareOp | src/base/basic_types.cc:18-20 | the negated operator differs from the original and stays in the same pair of codes |
| BasicTypes.NegateCompareOpMeaning | src/base/basic_types.cc:18-20 | on any two `w`-bit operands the negated comparison holds exactly when the original does not, and negating twice gives the original operator |
| BasicTypes.NegateCompareOpPairs | src/base/basic_types.cc:18-20 | the pairs are ==/!=, >/<=, </>= and their signed forms |
| BasicFunctions.BinStringAt | src/base/basic_functions.cc:26-43 | character `k` of the bit string is bit `w-1-k` of the value: most significant bit first |
| BasicFunctions.ToBinString | src/base/basic_functions.cc:29-31 | the loop appends bits `w-1` down to 0 and yields `BinString(v, w)` |
| BasicFunctions.FromBinString | src/base/basic_functions.cc:47-50 | the shift-and-add loop over the first `w` characters yields `ParseBinString` of them |
| BasicFunctions.FloatToBinString | src/base/basic_functions.cc:26-33 | the result has 32 characters, all '0' or '1', and decodes back to the float's bits |
| BasicFunctions.DoubleToBinString | src/base/basic_functions.cc:35-43 | the result has 64 characters, all '0' or '1', and decodes back to the double's bits |
| BasicFunctions.BinStringToFloat | src/base/basic_functions.cc:45-53 | when the first 32 characters are all '0'/'1', the decoded bits encode back to exactly those characters |
| BasicFunctions.BinStringToDouble | src/base/basic_functions.cc:60-69 | when the first 64 characters are all '0'/'1', the decoded bits encode back to exactly those characters |
| BasicFunctions.BinStringRoundTrip | src/base/basic_functions.cc:26-69 | decoding an encoded `w`-bit pattern returns the same pattern |
| BasicFunctions.BinStringRoundTripWide | src/base/basic_functions.cc:26-69 | decoding an encoded pattern with a wider accumulator returns the pattern's `w` low bits |
| BasicFunctions.ParseBinStringRoundTrip | src/base/basic_functions.cc:26-69 | encoding a decoded string of '0'/'1' characters returns the same string |
| BasicFunctions.SetFloatByInts | src/base/basic_functions.cc:75-91 | exponent and significand both zero give the zero pattern whatever the sign; only past that early return must the sign be one bit, as the source's `assert` is |
| BasicFunctions.SetFloatByIntsFields | src/base/basic_functions.cc:84-88 | whenever the biased exponent (exp + 127, negative exp included) fits 8 bits and the significand 23 bits, the sign, the exponent plus 127 and the significand read back from bits 31, 30-23 and 22-0 |
| BasicFunctions.SetDoubleByInts | src/base/basic_functions.cc:93-111 | exponent and significand both zero give the zero pattern whatever the sign; only past that early return must the sign be one bit, as the source's `assert` is |
| BasicFunctions.SetDoubleByIntsFields | src/base/basic_functions.cc:104-108 | whenever the biased exponent (exp + 1023, negative exp included) fits 11 bits and the significand 52 bits, the sign, the exponent plus 1023 and the significand read back from bits 63, 62-52 and 51-0 |
| Replay.IsNumber | src/replay/crown_replay.c:48-63 | true exactly when the buffer is non-empty and every character before the first newline is a digit, so a '-' sign is rejected |
| Replay.IsBinary | src/replay/crown_replay.c:66-81 | true exactly when the buffer is non-empty and every character before the first newline is '0' or '1' |
| Replay.FirstLineIs | src/replay/crown_replay.c:54-58 | the scan's stopping point is the only newline-free prefix that ends at a newline or at the end |
| Replay.LeadingDigitsIs | src/replay/crown_replay.c:134 | the digits `strtoull` reads are the longest all-digit prefix |
| Replay.NumberLineDigits | src/replay/crown_replay.c:134 | on a line `isnumber` accepted, the digits `strtoull` reads are the whole first line |
| Replay.StrToULL | src/replay/crown_replay.c:134 | the value is the number the leading digits denote whenever it fits 64 bits |
| Replay.ByteRangeIsPow2 | src/replay/crown_replay.c:108-142 | the bounds the checks shift out are `2^(8*size)` and `2^(8*size-1)` |
| Replay.OverflowOccursUnsigned | src/replay/crown_replay.c:118-127 | never true for a size of 8 bytes or more |
| Replay.OverflowOccursString | src/replay/crown_replay.c:132-142 | on a line `isnumber` accepted it is true exactly when the size is below 8 and the line's number is at least `2^(8*size)`; it is never true for 8 bytes |
| Replay.OverflowMatchesSignedTables | src/replay/crown_replay.c:108-113 | the signed check accepts exactly the range from `kMinValue[t]` to `kMaxValue[t]` of each signed integer type |
| Replay.OverflowMatchesUnsignedTables | src/replay/crown_replay.c:118-127 | the unsigned check accepts exactly the values up to `kMaxValue[t]` for the narrow unsigned types and every value for the 64-bit ones |
| Replay.CheckLine | src/replay/crown_replay.c:318-336 | a value is read only from a line `isnumber` accepts, and for sizes below 8 it is below `2^(8*size)` |
| Replay.WrapSigned | src/replay/crown_replay.c:337-338 | the cast lands in the type's signed range and leaves a value already in range unchanged |
| Replay.ReadSigned | src/replay/crown_replay.c:309-339 | a read value lies in the signed range of the type |
| Replay.ReadUnsigned | src/replay/crown_replay.c:144-175 | a read value lies below `2^(8*size)` |
| Replay.DecimalRoundTrip | src/run_crown/concolic_search.cc:243 | the decimal form `%lld` prints for a non-negative value denotes that value |
| Replay.DecimalLine | src/run_crown/concolic_search.cc:243 | the line written for a non-negative value passes `isnumber`, and its first line and leading digits are the decimal form |
| Replay.DecimalLineReads | src/replay/crown_replay.c:132-142 | on that line `strtoull` gives the value, saturated at the 64-bit maximum, and the string check fails exactly when the value needs more than `size` bytes |
| Replay.ReadUnsignedOfDecimal | src/replay/crown_replay.c:144-307 | an unsigned read of the written line returns the value when it fits the type, fails on overflow otherwise, and saturates for 64-bit types |
| Replay.ReadSignedRejectsNegative | src/replay/crown_replay.c:324-329 | every negative input the search writes makes a signed read stop with a non-number error |
| Replay.ReadSignedWrapsChar | src/replay/crown_replay.c:330-338 | a `char` read of a magnitude from 128 to 255 passes the check and wraps to that value minus 256 |
| Replay.ReadSignedFixed | src/replay/crown_replay.c:108-113 | the corrected signed read returns only values in the type's signed range |
| Replay.ReadSignedFixedDigits | src/replay/crown_replay.c:108-113 | on an optional '-' and the decimal digits of `m`, the corrected read returns the signed magnitude when it is in range and fails on overflow otherwise |
| Replay.ReadSignedFixedRoundTrip | src/replay/crown_replay.c:108-113 | every value of a signed type reads back from the line the search writes for it |
| Replay.ReadBitFieldUnion | src/replay/crown_replay.c:620-645 | the read succeeds or fails exactly as the `char` check of the line does, and a read value is bits `l` to `h-1` of the line's number |
| Replay.ReadBitFieldStruct | src/replay/crown_replay.c:646-684 | the read succeeds exactly when every piece's line passes, fails with the first failing line's error, and otherwise returns each piece's bits OR-ed in at the bits already placed, below `2^64` |
| Replay.HeaderNumbers | src/run_crown/concolic_search.cc:229-233 | the header of an input holds only its type exactly when its `h` is 0, and otherwise type, h, l and index count |
| Replay.HeaderBitsAsWritten | src/replay/crown_replay.c:676-682 | the struct loop obtains `hBit` and `lBit` exactly when the header has at least three numbers, and then they are the second and third |
| Replay.MiddleHeaderUnreadable | src/replay/crown_replay.c:676-682 | for every struct bit-field spanning three bytes or more, the header of the second piece gives the struct loop no `hBit` |
| Replay.ThreeByteFieldUnreadable | src/replay/crown_replay.c:676-682 | a 24-bit field at bit 0 spans three bytes and its second header cannot be read |
| Replay.HeaderBits | src/replay/crown_replay.c:676-682 | the corrected reading takes the second and third numbers, and reads a header of a type alone as the whole byte, bits 0 to 7 |
| Replay.HeadersRecoverField | src/replay/crown_replay.c:646-684 | with the corrected reading, every piece's header gives a range within a byte that carries exactly that piece's bits of the field |
| BitFields.LayoutOf | src/libcrown/crown.cc:1152-1156 | `lowestBit` is bit `l` of byte `lowestIndex`, `highestBit` is `8*highestIndex + h` with `1 <= h <= 8`, and `indexSize` is the number of bytes spanned |
| BitFields.Pieces | src/libcrown/crown.cc:1166-1187 | a struct bit-field becomes one input per byte it spans; every byte strictly between the first and the last is a plain `U_CHAR` input with the defaults h = l = 0 and index count 0 |
| BitFields.LayoutCoversField | src/libcrown/crown.cc:1152-1187 | each piece is either a `BITFIELD_CHAR` byte whose range l..h-1 is non-empty within the byte or a plain middle byte with h = l = 0, and the bits they carry add up to the field's width |
| BitFields.MergeWordAsWritten | src/libcrown/symbolic_interpreter.cc:518 | line 518 on 64-bit values, for every bit-field tag: when `l < h`, bit `l` of the result is bit `l` of the previous input |
| BitFields.MergeWordAsWrittenOnByte | src/libcrown/symbolic_interpreter.cc:518 | for a field inside a byte over a byte-sized old value, the 64-bit line is the byte-level `MergeInputAsWritten` with the higher bytes 0 |
| BitFields.PackAppend | src/replay/crown_replay.c:669-670 | adding a chunk places its bits at the current `bfsize` and grows `bfsize` by the chunk's width |
| BitFields.PackTop | src/replay/crown_replay.c:669-670 | the packed value lies below `2^bfsize` |
| BitFields.PackWithin64 | src/replay/crown_replay.c:669-670 | a field of at most 64 bits packs into an `unsigned long long` |
| BitFields.PackReadback | src/replay/crown_replay.c:669-670 | every chunk's bits read back from the packed value at the chunk's offset |
| BitFields.MergeInputAsWritten | src/libcrown/symbolic_interpreter.cc:518 | the merge as written keeps the byte's bits at and above `h` |
| BitFields.MergeInputAsWrittenKeepsLow | src/libcrown/symbolic_interpreter.cc:518 | the merge as written keeps the byte's bits below `l` |
| BitFields.MergeInputDropsBits | src/libcrown/symbolic_interpreter.cc:518 | input 6 merged into bits 0 to 7 of a zero byte gives 0, not 6 |
| BitFields.MergeInput | src/libcrown/symbolic_interpreter.cc:518 | the corrected merge takes all of bits `l` to `h-1` from the input |
| BitFields.MergeInputKeepsRest | src/libcrown/symbolic_interpreter.cc:518 | the corrected merge keeps the byte's bits below `l` and at and above `h` |
| Exprs.Tag | src/run_crown/symbolic_expression.h:82-89 | every node is written with one of the six tags 0..5, and the tag is `kConstNodeTag` exactly for a concrete node |
| Exprs.WrapIsMod | src/libcrown/symbolic_expression_writer.h:87 | the `size_t` id counter holds the number of nodes built so far modulo 2^64 |
| Exprs.Clone | src/libcrown/bin_expression_writer.cc:28-30 | a deep copy has as many nodes as the original, keeps the root's value and size, and advances the id counter by exactly the number of nodes |
| Exprs.CloneStrip | src/libcrown/symbolic_expression_writer.cc:39-41 | a clone differs from its original only in its ids: every value, size, operator, input number and object index is kept |
| Exprs.CloneNumbered | src/libcrown/deref_expression_writer.cc:33-45 | every node of a clone takes the next id from the counter, operands before the node that holds them and a deref node before its address |
| Exprs.NumberedIdsDistinct | src/libcrown/symbolic_expression_writer.h:68 | until the counter wraps, a tree numbered from `next` has as many distinct ids as nodes, all in `(next, next + Count]`, so none repeats an earlier id |
| Exprs.CloneIdsFresh | src/libcrown/symbolic_expression_writer.h:68 | a clone taken before the counter wraps has pairwise distinct ids, all newer than every id handed out before it |
| Exprs.IdCounter.constructor | src/libcrown/symbolic_expression_writer.cc:35 | the counter starts at zero |
| Exprs.IdCounter.Take | src/libcrown/symbolic_expression_writer.h:68 | a new node takes the pre-incremented counter, reduced modulo 2^64, and the counter grows by one |
| Exprs.IdCounter.CloneOf | src/libcrown/symbolic_expression_writer.cc:39-41 | cloning through the shared counter yields `Clone`'s copy and leaves the counter where `Clone` says |
| Exprs.EqualsReflexive | src/run_crown/deref_expression.cc:172-177 | a tree equals itself exactly when it contains no deref node, because object comparison always answers false |
| Exprs.EqualsSymmetric | src/run_crown/symbolic_expression.cc:70-74 | `Equals` answers the same in both directions |
| Exprs.EqualsTransitive | src/run_crown/bin_expression.cc:240-246 | two trees equal to a common third are equal to each other |
| Exprs.EqualsIgnoresIds | src/run_crown/pred_expression.cc:230-236 | `Equals` never looks at ids: its answer is unchanged when every id is erased |
| ExprCodec.ValueRoundTrip | src/libcrown/symbolic_expression_writer.cc:64 | the 24 raw bytes of a `Value_t` read back as the same integral, floating and type fields, whatever its four padding bytes hold |
| ExprCodec.HeaderBytes | src/libcrown/symbolic_expression_writer.cc:63-69 | every node starts with 40 bytes of value, size and id followed by its tag byte |
| ExprCodec.Serialize | src/libcrown/pred_expression_writer.cc:53-58 | a written tree is longer than a header and carries its root's tag at byte 40 |
| ExprCodec.ReadHeader | src/run_crown/symbolic_expression.cc:105-112 | a stream shorter than 40 bytes fails, one of exactly 40 bytes has no tag, and otherwise the tag is byte 40 and the body what follows it |
| ExprCodec.ReadHeaderOf | src/run_crown/symbolic_expression.cc:105-112 | a written header reads back as the node's value, size, id and tag, leaving the following bytes |
| ExprCodec.Parse | src/run_crown/symbolic_expression.cc:88-198 | a parsed tree consumes at least one byte and is stored in the read table under its id; a short header fails; a missing or unknown tag aborts |
| ExprCodec.ParsePair | src/run_crown/symbolic_expression.cc:126-150 | a comparison or binary node consumes its body's operator byte and both operands, and is recorded under its id |
| ExprCodec.ParseUnary | src/run_crown/symbolic_expression.cc:152-160 | a unary node consumes its operator byte and child, and is recorded under its id |
| ExprCodec.ParseDeref | src/run_crown/symbolic_expression.cc:162-184 | a deref node consumes both object indices and its address, and is recorded under its id |
| ExprCodec.Record | src/run_crown/symbolic_expression.cc:122 | after a tree is parsed, the read table maps the root's id to the root |
| ExprCodec.ParseSerialize | src/libcrown/deref_expression_writer.cc:51-71 | parsing what the recording library wrote gives back the same tree with its ids, stops exactly where the tree ends, and records every node operands first |
| ExprCodec.ParseSequence | src/libcrown/symbolic_execution_writer.cc:64-70 | the format is self-delimiting: two trees written back to back read back in order |
| WriterFactory.TypeSize | src/libcrown/symbolic_expression_factory.cc:22 | a typed node's size is `kSizeOfType` of its type: at most 16 bytes, and 0 exactly for a struct |
| WriterFactory.ConcatValue | src/libcrown/symbolic_expression_factory.cc:59 | when nothing overflows, a concatenation's value is the high part times 2^(8·low size) plus the low part |
| WriterFactory.ExtractValue | src/libcrown/symbolic_expression_factory.cc:84 | an extract of fewer than 8 bytes yields a non-negative number that fits in those bytes |
| WriterFactory.ExtractValueAsWritten | src/libcrown/symbolic_expression_factory.cc:84 | the mask `(1 << (8*n)) - 1` computed in a 32-bit `int` never keeps more than 3 bytes |
| WriterFactory.ExtractMaskDropsBytes | src/libcrown/symbolic_expression_factory.cc:84 | a four-byte extract of the value 1 yields 0 with the 32-bit mask, and 1 with a mask as wide as the bytes kept |
| WriterFactory.ConcatExtract | src/libcrown/symbolic_memory_writer.cc:80-90 | concatenating `m` extracted bytes above `k` extracted bytes gives the `k + m` bytes at the same offset, so the pieces of a memory read add up to the bytes it covers |
| WriterFactory.ExtractWhole | src/libcrown/symbolic_expression_factory.cc:84 | the eight bytes at offset 0 are the whole value |
| WriterFactory.NewConcreteExpr | src/libcrown/symbolic_expression_factory.cc:17-23 | a constant of the value's type size that takes the next id |
| WriterFactory.NewConcreteExprSized | src/libcrown/symbolic_expression_factory.cc:25-30 | a constant of the given size that takes the next id |
| WriterFactory.NewUnaryExprWriter | src/libcrown/symbolic_expression_factory.cc:32-35 | a unary node over `e` of the value's type size that takes the next id |
| WriterFactory.NewBinExprWriter | src/libcrown/symbolic_expression_factory.cc:37-41 | a binary node with `e1` left and `e2` right, of the value's type size, that takes the next id |
| WriterFactory.NewBinExprWriterConst | src/libcrown/symbolic_expression_factory.cc:43-47 | the constant right operand is built first and takes the next id, the node the one after |
| WriterFactory.NewPredExprWriter | src/libcrown/symbolic_expression_factory.cc:50-54 | a comparison node with `e1` left and `e2` right that takes the next id |
| WriterFactory.Concatenate | src/libcrown/symbolic_expression_factory.cc:56-64 | a CONCAT node that stores the low part on the left, whose size is the sum of both sizes and whose value is `ConcatValue`, typed `unsigned long` |
| WriterFactory.NewDerefExprWriter | src/libcrown/symbolic_expression_factory.cc:66-69 | a deref node over `addr` carrying the object's manager and snapshot indices |
| WriterFactory.NewConstDerefExprWriter | src/libcrown/symbolic_expression_factory.cc:71-76 | the concrete address becomes an 8-byte `unsigned long` constant, built first, whose unsigned reading is the address |
| WriterFactory.ExtractBytesOfValue | src/libcrown/symbolic_expression_factory.cc:80-86 | an `n`-byte constant holding bytes `i .. i+n-1` of the value |
| WriterFactory.ExtractBytes | src/libcrown/symbolic_expression_factory.cc:89-102 | an EXTRACT node over `e` whose right operand, built first, is the offset `i` and whose value is the extracted bytes |
| WriterFactory.ExtractBytesOffset | src/run_crown/bin_expression.cc:169-174 | the EXTRACT lowering finds the recording side's offset in the right operand |
| SearchFactory.NewConcreteExpr | src/run_crown/symbolic_expression_factory.cc:17-23 | a constant of the value's type size |
| SearchFactory.NewConcreteExprSized | src/run_crown/symbolic_expression_factory.cc:25-30 | a constant of the given size |
| SearchFactory.NewUnaryExpr | src/run_crown/symbolic_expression_factory.cc:32-35 | a unary node over `e` of the value's type size |
| SearchFactory.NewBinExpr | src/run_crown/symbolic_expression_factory.cc:37-41 | a binary node with `e1` left and `e2` right, of the value's type size |
| SearchFactory.NewBinExprConst | src/run_crown/symbolic_expression_factory.cc:43-47 | the right operand is the constant of `v2` |
| SearchFactory.NewPredExpr | src/run_crown/symbolic_expression_factory.cc:50-54 | a comparison node with `e1` left and `e2` right |
| SearchFactory.Concatenate | src/run_crown/symbolic_expression_factory.cc:56-64 | a CONCAT node with the low part on the left whose size is the sum of both sizes |
| SearchFactory.ConcatenateMatchesWriter | src/run_crown/symbolic_expression_factory.cc:56-64 | the search's concatenation is the recording side's, ids apart |
| SearchFactory.ConcatenateStrip | src/run_crown/symbolic_expression_factory.cc:56-64 | erasing the ids of a concatenation erases those of its operands and nothing else |
| SearchFactory.ExtractBytesOfValue | src/run_crown/symbolic_expression_factory.cc:67-73 | an `n`-byte constant holding bytes `i .. i+n-1` of the value |
| SearchFactory.ExtractBytesAsWritten | src/run_crown/symbolic_expression_factory.cc:76-85 | as written, the right operand of the search's EXTRACT node holds the extracted value itself, masked with the 32-bit `1 << (8*n)` |
| SearchFactory.ExtractBytesLosesOffset | src/run_crown/bin_expression.cc:169-174 | for the 2-byte value 0x1234 read at byte 1, the lowering finds offset 0x12 in the as-written node and 1 in the corrected one |
| SearchFactory.ExtractBytes | src/run_crown/symbolic_expression_factory.cc:76-85 | the corrected EXTRACT node carries the offset `i` where the lowering reads it |
| SearchFactory.ExtractBytesMatchesWriter | src/libcrown/symbolic_expression_factory.cc:89-102 | the corrected search-side EXTRACT node is the recording side's, ids apart |
| SymbolicObject.NewObj | src/libcrown/symbolic_object_writer.cc:20-22 | a new object is version 0 of its region, covers `start .. start+size`, and has no memory and no writes |
| SymbolicObject.Copy | src/libcrown/symbolic_object_writer.cc:24-36 | the next version keeps the region and its memory, drops the writes, and its `size_t` version number moves on by one modulo 2^64 |
| SymbolicObject.Read | src/libcrown/symbolic_object_writer.cc:48-56 | without writes a read is the memory's read; after a write it is a deref of this version through the address as an `unsigned long` constant |
| SymbolicObject.WriteAddr | src/libcrown/symbolic_object_writer.cc:71-73 | a write's address expression is the symbolic one when given, else a new `unsigned long` constant of the address |
| SymbolicObject.Write | src/libcrown/symbolic_object_writer.cc:59-84 | a write appends exactly one (address, value) pair and changes nothing else about the object |
| SymbolicObject.NewObjReadsConcrete | src/libcrown/symbolic_object_writer.cc:48-51 | a new object holds no symbolic bytes: every read of it is concrete and builds nothing |
| SymbolicObject.ReadAfterWrite | src/libcrown/symbolic_object_writer.cc:52-55 | once written, a version answers every read with a deref of itself at the address read, with the value read |
| SymbolicObject.CopyReadsMemory | src/libcrown/symbolic_object_writer.cc:27 | the next version forgets the previous one's writes and reads its memory again |
| SymbolicObject.ObjBytesLayout | src/libcrown/symbolic_object_writer.cc:101-123 | a serialized object gives back its start, size, manager index and version from its first 32 bytes, its write count right after its memory, and its writes after that |
| MemoryWriter.EmptyBlock | src/libcrown/symbolic_memory_writer.cc:29-33 | a new block has 32 slots, all empty |
| MemoryWriter.Base | src/libcrown/symbolic_memory_writer.cc:211 | `addr & kAddrMask` is the multiple of 32 at or below the address, less than 32 below it |
| MemoryWriter.Offset | src/libcrown/symbolic_memory_writer.cc:62 | `addr & kOffsetMask` is below 32 and adds to the block's base to give the address |
| MemoryWriter.ClearLowestBit | src/libcrown/symbolic_memory_writer.cc:67 | `j & (j - 1)` never grows and shrinks every non-zero offset |
| MemoryWriter.CoverFrom | src/libcrown/symbolic_memory_writer.cc:64-68 | the covering search stops at or below its start, on an occupied slot or at offset 0, and stays put on an occupied slot |
| MemoryWriter.CoverFromSkips | src/libcrown/symbolic_memory_writer.cc:64-68 | from an empty offset 13 the search visits 12, 8 and 0, so an occupied slot 9, 10 or 11 is never found |
| MemoryWriter.RunEnd | src/libcrown/symbolic_memory_writer.cc:91 | the run of empty slots ends at the read's width or at an occupied slot |
| MemoryWriter.RunEndEmpty | src/libcrown/symbolic_memory_writer.cc:91 | the run reaches the read's width exactly when every slot after its start is empty |
| MemoryWriter.Step | src/libcrown/symbolic_memory_writer.cc:81-122 | a round of the forward scan grows the expression past byte `j`, yields nothing exactly when nothing is built and the rest of the window is empty, and stays within the read when the window's occupied slots end inside it |
| MemoryWriter.Scan | src/libcrown/symbolic_memory_writer.cc:80-123 | the forward scan only ever advances the id counter |
| MemoryWriter.ScanResult | src/libcrown/symbolic_memory_writer.cc:80-125 | the scan yields nothing exactly when the whole read is concrete, and otherwise an expression at least as wide as the read, exactly as wide when no slot sticks out past its end |
| MemoryWriter.ReadBlock | src/libcrown/symbolic_memory_writer.cc:58-127 | a larger expression overlapping the read gives an EXTRACT of its copy at offset `i - j` of the read's width; otherwise the read is empty exactly when all its bytes are concrete, and is at least (exactly, when nothing sticks out) the read's width |
| MemoryWriter.SplitTargetsAsWritten | src/libcrown/symbolic_memory_writer.cc:145-147 | as written, the split stores pieces at `j + k` for every `k` below the expression's size, with no bound at the block's end |
| MemoryWriter.SplitPastBlock | src/libcrown/symbolic_memory_writer.cc:145-147 | an 8-byte expression at offset 28 cut for a 4-byte write stores its second piece at slot 32, past the 32-slot array |
| MemoryWriter.Piece | src/libcrown/symbolic_memory_writer.cc:146 | the piece for byte `k` is an `n`-byte EXTRACT at `k` of a copy of the cut expression |
| MemoryWriter.SplitFrom | src/libcrown/symbolic_memory_writer.cc:145-147 | the corrected split keeps a 32-slot block and only advances the id counter |
| MemoryWriter.SplitFromAt | src/libcrown/symbolic_memory_writer.cc:145-147 | after the split from `k`, each slot the loop reaches inside the block holds its piece and every other slot is unchanged |
| MemoryWriter.Cleared | src/libcrown/symbolic_memory_writer.cc:150-154 | the written slots inside the block are emptied and every other slot is kept |
| MemoryWriter.SplitCover | src/libcrown/symbolic_memory_writer.cc:133-148 | the split keeps a 32-slot block and only advances the id counter |
| MemoryWriter.SplitCoverAt | src/libcrown/symbolic_memory_writer.cc:133-148 | when a larger expression overlaps the write, each split position holds its piece of it; every other slot is unchanged |
| MemoryWriter.WriteBlock | src/libcrown/symbolic_memory_writer.cc:130-157 | after a block write, slot `i` holds the new expression and the rest of the written range is empty |
| MemoryWriter.WriteBlockAt | src/libcrown/symbolic_memory_writer.cc:130-157 | outside the written range, a slot holds its piece of the expression the write cut up, or is unchanged |
| MemoryWriter.InnerProbesAsWritten | src/libcrown/symbolic_memory_writer.cc:91 | the in-block inner scan probes offsets up to `i + n - 1` of the block's own array |
| MemoryWriter.InnerProbesPastBlock | src/libcrown/symbolic_memory_writer.cc:91 | a 4-byte read at offset 30 of an empty tail probes slots 31, 32 and 33 of a 32-slot array |
| MemoryWriter.Align | src/libcrown/symbolic_memory_writer.cc:251 | the corrected chunk size is a power of two up to 32 that divides the address and stays inside its block |
| MemoryWriter.AlignAsWritten | src/libcrown/symbolic_memory_writer.cc:251 | `min(addr & -addr, 32)` is 0 at address 0 and the aligned size elsewhere |
| MemoryWriter.Shrink | src/libcrown/symbolic_memory_writer.cc:252-254 | halving never grows the size, ends at or below the limit, and keeps a positive size positive |
| MemoryWriter.ShrinkAligned | src/libcrown/symbolic_memory_writer.cc:252-254 | halving keeps a power-of-two chunk aligned to the address |
| MemoryWriter.NextRound | src/libcrown/symbolic_memory_writer.cc:244-260 | a round clears a chunk exactly when the address's block is present; an absent block is skipped to its end and its bytes counted off |
| MemoryWriter.ChunksAsWritten | src/libcrown/symbolic_memory_writer.cc:243-261 | as written, `concretize` clears at most one chunk per round |
| MemoryWriter.ConcretizeStuckAtZero | src/libcrown/symbolic_memory_writer.cc:251-259 | at address 0 in a present block a round clears a chunk of size 0 and leaves the address and the byte count as they were, so the loop never ends |
| MemoryWriter.ConcretizeOvershoots | src/libcrown/symbolic_memory_writer.cc:252-254 | `concretize(4, 8)` clears bytes 8 to 15 after bytes 4 to 7, past the 8 bytes asked for, where shrinking against the 4 bytes left gives 4 |
| MemoryWriter.ChunksWithin | src/libcrown/symbolic_memory_writer.cc:239-262 | the corrected chunks are aligned powers of two inside present blocks, lie inside `[addr, addr + n)` and do not overlap |
| MemoryWriter.ChunksCover | src/libcrown/symbolic_memory_writer.cc:239-262 | every byte of `[addr, addr + n)` in a present block lies in one of the chunks |
| MemoryWriter.NextBlock | src/libcrown/symbolic_memory_writer.cc:215-221 | the block after the address's, or an empty block when it is absent |
| MemoryWriter.MemRead | src/libcrown/symbolic_memory_writer.cc:207-225 | a struct value or an absent block reads as nothing, and otherwise the read is the block read of the type's size with the next block beside it |
| MemoryWriter.MemWrite | src/libcrown/symbolic_memory_writer.cc:228-236 | a write creates the address's block when absent, leaves every other block as it was, stores the expression at its offset and empties the rest of its bytes in that block |
| MemoryWriter.WriteThenRead | src/libcrown/symbolic_memory_writer.cc:207-236 | reading a value as wide as the expression just written at the same address gives back a copy of that expression |
| MemoryWriter.Bitmap | src/libcrown/symbolic_memory_writer.cc:164-167 | the bitmap of the first `k` slots fits in `k` bits |
| MemoryWriter.BitmapBitAt | src/libcrown/symbolic_memory_writer.cc:164-167 | of the first `m` slots, slot `k` sits at bit `m - 1 - k` |
| MemoryWriter.BitmapBit | src/libcrown/symbolic_memory_writer.cc:164-167 | in a block's 32-bit bitmap, bit `31 - k` is set exactly when slot `k` holds an expression |
| MemoryWriter.BlockBytes | src/libcrown/symbolic_memory_writer.cc:159-175 | a serialized block is at least its 4-byte bitmap |
| MemoryWriter.BlockBytesParts | src/libcrown/symbolic_memory_writer.cc:159-175 | the bitmap fits its 32-bit word, which comes first, followed by the present slots in order |
| MemoryWriter.MemBytes | src/libcrown/symbolic_memory_writer.cc:265-276 | a serialized memory starts with its block count as a 64-bit word |
| MemoryWriter.FindCover | src/libcrown/symbolic_memory_writer.cc:64-68 | the covering search loop stops where `CoverFrom` says |
| MemoryWriter.SkipEmpty | src/libcrown/symbolic_memory_writer.cc:91 | the inner empty-run loop stops where `RunEnd` says |
| MemoryWriter.ScanStep | src/libcrown/symbolic_memory_writer.cc:81-122 | one round of the forward scan builds what `Step` describes, through the shared id counter |
| MemoryWriter.ScanWindow | src/libcrown/symbolic_memory_writer.cc:80-123 | the forward scan loop builds what `Scan` describes |
| MemoryWriter.ReadElem | src/libcrown/symbolic_memory_writer.cc:58-127 | `MemElem::read` builds what `ReadBlock` describes |
| MemoryWriter.SplitLoop | src/libcrown/symbolic_memory_writer.cc:145-147 | the corrected split loop builds what `SplitFrom` describes |
| MemoryWriter.ClearLoop | src/libcrown/symbolic_memory_writer.cc:150-154 | the clearing loop leaves the block `Cleared` describes |
| MemoryWriter.WriteElem | src/libcrown/symbolic_memory_writer.cc:130-157 | `MemElem::write` leaves the block `WriteBlock` describes |
| MemoryWriter.BlockBitmap | src/libcrown/symbolic_memory_writer.cc:164-167 | the bitmap loop on a 32-bit unsigned word computes `Bitmap` |
| MemoryWriter.SerializeElem | src/libcrown/symbolic_memory_writer.cc:159-175 | `MemElem::Serialize` writes `BlockBytes` |
| MemoryWriter.ShrinkLoop | src/libcrown/symbolic_memory_writer.cc:252-254 | the halving loop computes `Shrink` |
| MemoryWriter.RoundSpec | src/libcrown/symbolic_memory_writer.cc:243-260 | a corrected round of `concretize` keeps the set of blocks, strictly lowers the bytes left while keeping address plus bytes left fixed, and leaves every byte it passed over concrete (the cleared chunk, or the rest of an absent block) |
| MemoryWriter.AbsentBlockCleared | src/libcrown/symbolic_memory_writer.cc:245-249 | the bytes a round skips to the end of an absent block lie in no present block |
| MemoryWriter.ChunkCleared | src/libcrown/symbolic_memory_writer.cc:257 | the block write of `sz` empty bytes at `addr` leaves `[addr, addr + sz)` concrete |
| MemoryWriter.RoundsFollowChunks | src/libcrown/symbolic_memory_writer.cc:243-261 | the rounds clear exactly the chunks `Chunks` lists, in order, so `ChunksWithin` and `ChunksCover` are facts about `concretize` itself |
| MemoryWriter.WriteKeepsBelow | src/libcrown/symbolic_memory_writer.cc:130-157 | a write at offset `i` whose block is empty in `[lo, i)` and has nothing below `lo` reaching `lo` finds no covering expression below `i` and leaves every slot below `i` unchanged |
| MemoryWriter.BlockBelow | src/libcrown/symbolic_memory_writer.cc:243-260 | between rounds, the slots of the current block from the range start (or from the block start) up to the address are empty and the ones below do not reach it |
| MemoryWriter.RoundClears | src/libcrown/symbolic_memory_writer.cc:243-260 | a round keeps the bytes from the range start to the current address concrete, without refilling any byte an earlier round cleared |
| MemoryWriter.ConcretizeFromClears | src/libcrown/symbolic_memory_writer.cc:243-261 | from a state whose passed bytes are concrete, the remaining rounds leave all of `[addr, addr + n)` in present blocks concrete |
| MemoryWriter.ConcretizeFrom | src/libcrown/symbolic_memory_writer.cc:243-261 | the rounds until no bytes are left keep the set of blocks |
| MemoryWriter.ConcretizeSpec | src/libcrown/symbolic_memory_writer.cc:239-262 | `concretize` never adds or removes a block, and, when no expression starts below `addr` in its block and reaches `addr`, every byte of `[addr, addr + n)` in a present block is concrete afterwards |
| MemoryWriter.ConcretizeRound | src/libcrown/symbolic_memory_writer.cc:243-260 | one round of the loop does what `RoundSpec` describes |
| MemoryWriter.SymbolicMemoryWriter.constructor | src/libcrown/symbolic_memory_writer.cc:191 | a new memory has no blocks |
| MemoryWriter.SymbolicMemoryWriter.Read | src/libcrown/symbolic_memory_writer.cc:207-225 | `read` returns what `MemRead` describes and changes no block |
| MemoryWriter.SymbolicMemoryWriter.Write | src/libcrown/symbolic_memory_writer.cc:228-236 | `write` leaves the memory `MemWrite` describes |
| MemoryWriter.SymbolicMemoryWriter.Concretize | src/libcrown/symbolic_memory_writer.cc:239-262 | `concretize` leaves the memory `ConcretizeSpec` describes: the same blocks, with `[addr, addr + n)` concrete whenever nothing reaches `addr` from below |
| MemoryWriter.SymbolicMemoryWriter.Serialize | src/libcrown/symbolic_memory_writer.cc:265-276 | `Serialize` writes `MemBytes` in the hash map's order |
| SearchMemory.CoverBelow | src/run_crown/symbolic_memory.cc:64-68 | the search's covering search stops at or below its start, on an occupied slot or at offset 0, with every slot it passed empty: the nearest occupied slot below |
| SearchMemory.CoverSearchesDiffer | src/run_crown/symbolic_memory.cc:64-68 | from an empty offset 13 with slots 9 to 11 occupied, the search's covering search stops at 11 where the recording side's stops at 0 |
| SearchMemory.Step | src/run_crown/symbolic_memory.cc:81-122 | a round of the search's forward scan grows the expression past byte `j` |
| SearchMemory.StepAgrees | src/run_crown/symbolic_memory.cc:81-122 | a round of the search's scan builds, ids apart, what the same round of the recording side's scan builds |
| SearchMemory.SlotStepAgrees | src/run_crown/symbolic_memory.cc:83-88 | on an occupied slot both sides append a copy of it |
| SearchMemory.RunStepAgrees | src/run_crown/symbolic_memory.cc:90-99 | on a run of empty slots both sides append the same constant cut from the value read |
| SearchMemory.ScanAgrees | src/run_crown/symbolic_memory.cc:80-123 | the search's forward scan rebuilds the recording side's, ids apart: the same nodes with the same values and sizes in the same order |
| SearchMemory.ReadBlock | src/run_crown/symbolic_memory.cc:58-128 | a larger expression overlapping the read gives an EXTRACT of it; otherwise the read is empty exactly when all its bytes are concrete, and is at least (exactly, when nothing sticks out) the read's width |
| SearchMemory.ExtractAgrees | src/run_crown/symbolic_memory.cc:74 | the EXTRACT both sides build over a covering expression agrees, ids apart |
| SearchMemory.ReadsAgree | src/run_crown/symbolic_memory.cc:58-128 | when both covering searches stop at the same slot, the search's block read is the recording side's, ids apart |
| SearchMemory.MemRead | src/run_crown/symbolic_memory.cc:181-199 | a struct value or an absent block reads as nothing, and otherwise the read is the block read of the type's size with the next block beside it |
| SearchMemory.MemReadsAgree | src/run_crown/symbolic_memory.cc:181-199 | on the same memory the search reads what the recording side reads, ids apart, whenever the two covering searches agree on that block |
| SearchMemory.Occupancy | src/run_crown/symbolic_memory.cc:133-139 | the corrected occupancy has 32 entries |
| SearchMemory.OccupancyBit | src/run_crown/symbolic_memory.cc:139 | in the corrected reading, slot `k` is present exactly when bit `31 - k` is set, as the recording side lays the bitmap out |
| SearchMemory.OccupancyAsWritten | src/run_crown/symbolic_memory.cc:139 | as written, slot `i` is read when bit `i` of the bitmap is set |
| SearchMemory.ParseSlots | src/run_crown/symbolic_memory.cc:135-147 | the slot loop keeps a 32-slot block; a slot whose expression has an unknown tag stops the program (`aborted`), which is never a success |
| SearchMemory.ParseBlockUnknownTag | src/run_crown/symbolic_memory.cc:141-142 | a block whose first present slot holds an unknown tag ends with the program stopped, not with an ordinary failure |
| SearchMemory.ParseSlotsFrame | src/run_crown/symbolic_memory.cc:135-147 | the slot loop changes only present slots from `k` on, and on success every one of them holds an expression |
| SearchMemory.ParseBlock | src/run_crown/symbolic_memory.cc:130-148 | a block parse keeps 32 slots, and a stream too short for the bitmap fails and leaves the block as it was |
| SearchMemory.ParseBlockAsWritten | src/run_crown/symbolic_memory.cc:130-148 | the as-written block parse keeps 32 slots, and a stream too short for the bitmap fails and leaves the block as it was |
| SearchMemory.OccupancyOfBitmap | src/run_crown/symbolic_memory.cc:139 | the recording side's bitmap, read back with the corrected bit order, marks exactly the occupied slots |
| SearchMemory.ParseSlotsSerialized | src/run_crown/symbolic_memory.cc:135-147 | parsing the present slots the recording side wrote from slot `k` on stores each of them, ids included |
| SearchMemory.ParseBlockSerialized | src/run_crown/symbolic_memory.cc:130-148 | a block the recording side wrote parses back: every occupied slot is restored with its expression and the rest keep their contents, so an empty block comes back as the block written |
| SearchMemory.BitmapMirrored | src/run_crown/symbolic_memory.cc:139 | as written, a block whose only expression is in slot 0 comes back with that expression in slot 31 and slot 0 empty; the corrected parse gives back the block |
| SearchMemory.ParseRecord | src/run_crown/symbolic_memory.cc:211-217 | a record parse keeps every block 32 slots wide and passes a stopped program on as never a success |
| SearchMemory.ParseBlocks | src/run_crown/symbolic_memory.cc:211-218 | the record loop keeps every block 32 slots wide and passes a stopped program on as never a success |
| SearchMemory.ParseMem | src/run_crown/symbolic_memory.cc:202-221 | a stream too short for the block count fails without stopping the program and leaves the memory as it was; a stopped program is never a success |
| SearchMemory.ParseBlocksSerialized | src/run_crown/symbolic_memory.cc:211-218 | parsing the records the recording side wrote adds their blocks, unchanged, to those already present |
| SearchMemory.ParseRecordSerialized | src/run_crown/symbolic_memory.cc:212-217 | a record written for a new address adds its block unchanged |
| SearchMemory.ParseMemSerialized | src/run_crown/symbolic_memory.cc:202-221 | the search reads back the memory the recording side wrote, in any block order that lists each block once: the parse succeeds, stops after it and gives back every block with every expression, ids included |
| SearchMemory.FindCover | src/run_crown/symbolic_memory.cc:64-68 | the covering search loop stops where `CoverBelow` says |
| SearchMemory.ScanStep | src/run_crown/symbolic_memory.cc:81-122 | one round of the forward scan builds what `Step` describes |
| SearchMemory.ScanWindow | src/run_crown/symbolic_memory.cc:80-123 | the forward scan loop builds what `Scan` describes |
| SearchMemory.ReadElem | src/run_crown/symbolic_memory.cc:58-128 | `MemElem::read` builds what `ReadBlock` describes |
| SearchMemory.ParseElemSlots | src/run_crown/symbolic_memory.cc:135-147 | the slot loop, testing bit `31 - k` for slot `k`, does what `ParseSlots` describes |
| SearchMemory.ParseElem | src/run_crown/symbolic_memory.cc:130-148 | `MemElem::Parse` does what `ParseBlock` describes |
| SearchMemory.ParseOne | src/run_crown/symbolic_memory.cc:212-217 | one record parse does what `ParseRecord` describes |
| SearchMemory.NextRecord | src/run_crown/symbolic_memory.cc:211-218 | one turn of the record loop either fails with the loop's result or leaves the remaining records to parse |
| SearchMemory.ParseRecords | src/run_crown/symbolic_memory.cc:211-218 | the record loop does what `ParseBlocks` describes |
| SearchMemory.SymbolicMemory.constructor | src/run_crown/symbolic_memory.cc:165 | a new memory has no blocks |
| SearchMemory.SymbolicMemory.Read | src/run_crown/symbolic_memory.cc:181-199 | `read` returns what `MemRead` describes |
| SearchMemory.SymbolicMemory.Parse | src/run_crown/symbolic_memory.cc:202-221 | `Parse` leaves the memory `ParseMem` describes and reports whether an unknown tag stopped the program |
| ObjectTracker.LeastAboveExists | src/libcrown/object_tracker_writer.cc:127 | whenever some key lies above the address, a least such key exists |
| ObjectTracker.UpperBound | src/libcrown/object_tracker_writer.cc:127 | `upper_bound` gives the least key above the address, and nothing exactly when no key lies above it |
| ObjectTracker.UpperBoundIs | src/libcrown/object_tracker_writer.cc:127 | the least key above the address is what `upper_bound` returns |
| ObjectTracker.FindUpperBound | src/libcrown/object_tracker_writer.cc:127 | the lookup over the ordered keys returns `UpperBound` |
| ObjectTracker.Add | src/libcrown/object_tracker_writer.cc:34-44 | `addRegion` keeps the tracker well formed and does nothing once the barrier is up |
| ObjectTracker.Untrack | src/libcrown/object_tracker_writer.cc:104-114 | `removeTrackingObj` only drops live regions and touches neither the flags nor the history |
| ObjectTracker.MarkDeref | src/libcrown/object_tracker_writer.cc:91-101 | `updateDereferredStateOfRegion` changes only the flags |
| ObjectTracker.DerefState | src/libcrown/object_tracker_writer.cc:116-123 | with no flag above the address the answer is false |
| ObjectTracker.Archive | src/libcrown/object_tracker_writer.cc:88 | archiving a version changes only the history |
| ObjectTracker.Store | src/libcrown/object_tracker_writer.cc:78-89 | `storeObj` changes only the history |
| ObjectTracker.Snapshot | src/libcrown/object_tracker_writer.cc:46-62 | `storeAndGetNewObj` returns the next version of the object and keeps the tracker well formed |
| ObjectTracker.StoreAllFrom | src/libcrown/object_tracker_writer.cc:67-75 | the loop of `storeAllObjAndRemove` opens no manager and keeps the barrier |
| ObjectTracker.StoreOne | src/libcrown/object_tracker_writer.cc:68-74 | one turn of that loop opens no manager and keeps the barrier |
| ObjectTracker.StoreAll | src/libcrown/object_tracker_writer.cc:64-76 | `storeAllObjAndRemove` raises the barrier and opens no manager |
| ObjectTracker.FreeAsWritten | src/libcrown/symbolic_interpreter.cc:468-473 | as written, `Free` leaves every flag as it was |
| ObjectTracker.Release | src/libcrown/symbolic_interpreter.cc:468-473 | the corrected `Free` archives and untracks exactly as written, and also drops the freed region's flag |
| ObjectTracker.Put | src/libcrown/symbolic_interpreter.cc:168-180 | a write through the pointer to a live version replaces the object filed under its end and changes nothing else |
| ObjectTracker.LookupSound | src/libcrown/object_tracker_writer.cc:126-136 | `find` only returns a live object that contains the address: the one filed under the least end above it |
| ObjectTracker.SnapshotShape | src/libcrown/object_tracker_writer.cc:46-62 | a snapshot archives the object, files its next version under the same end, and changes the flags only through `updateDereferredStateOfRegion` |
| ObjectTracker.ReleaseShape | src/libcrown/symbolic_interpreter.cc:468-473 | `Free` of a region starting at the address archives it and drops it and its flag; otherwise it changes nothing |
| ObjectTracker.SnapshotsAppend | src/libcrown/object_tracker_writer.cc:145-147 | archiving one more version adds exactly that version's bytes to the end of its manager's section |
| ObjectTracker.SerializeSnapshots | src/libcrown/object_tracker_writer.cc:142-147 | the inner loop of `Serialize` writes the count and the versions of one manager in order |
| ObjectTracker.SerializeHistory | src/libcrown/object_tracker_writer.cc:138-150 | `Serialize` writes the manager count, then each manager's versions in order |
| ObjectTracker.LiveReplace | src/libcrown/object_tracker_writer.cc:51-57 | replacing a live version by the next one, with the old one archived, keeps every live version one past its manager's last archived version |
| ObjectTracker.LiveRemove | src/libcrown/object_tracker_writer.cc:73-74 | archiving a live version and dropping it keeps the remaining live versions current |
| ObjectTracker.LiveAdd | src/libcrown/object_tracker_writer.cc:38-42 | a new manager with version 0 live keeps the live versions current |
| ObjectTracker.ArchiveInOrder | src/libcrown/object_tracker_writer.cc:51 | archiving the version that comes next keeps position `j` of each manager's list at version `j`, and the history only grows |
| ObjectTracker.AddVersioned | src/libcrown/object_tracker_writer.cc:34-44 | `addRegion` opens a new manager with an empty list and version 0 of the region live under its end |
| ObjectTracker.SnapshotVersioned | src/libcrown/object_tracker_writer.cc:46-62 | `storeAndGetNewObj` archives the live version as the next entry of its manager's list and makes the following version live in its place |
| ObjectTracker.PutWellFormed | src/libcrown/symbolic_interpreter.cc:176-180 | recording a write in a live version keeps the tracker well formed |
| ObjectTracker.ReleaseWellFormed | src/libcrown/symbolic_interpreter.cc:468-473 | `Free` keeps the tracker well formed |
| ObjectTracker.StoreAllFromWellFormed | src/libcrown/object_tracker_writer.cc:67-75 | each turn of the loop of `storeAllObjAndRemove` keeps the tracker well formed |
| ObjectTracker.StoreAllWellFormed | src/libcrown/object_tracker_writer.cc:64-76 | `storeAllObjAndRemove` keeps the tracker well formed |
| ObjectTracker.PutVersioned | src/libcrown/symbolic_interpreter.cc:176-180 | recording a write in a live version keeps every live version current |
| ObjectTracker.PutLookup | src/libcrown/object_tracker_writer.cc:126-136 | where `find` returned the version a write replaced, it now returns the written one |
| ObjectTracker.FreeVersioned | src/libcrown/symbolic_interpreter.cc:468-473 | `Free` keeps the history in order and only lets it grow |
| ObjectTracker.FreeArchives | src/libcrown/symbolic_interpreter.cc:468-473 | the freed region's live version ends its manager's list, and the region is no longer tracked |
| ObjectTracker.StoreOneInOrder | src/libcrown/object_tracker_writer.cc:68-74 | one turn archives the object in order and touches no other manager's list |
| ObjectTracker.StoreAllFromVersioned | src/libcrown/object_tracker_writer.cc:67-75 | the loop archives each visited object behind its manager's versions when there are some, in order, and touches no other manager |
| ObjectTracker.StoreAllVersioned | src/libcrown/object_tracker_writer.cc:64-76 | `storeAllObjAndRemove` raises the barrier and archives the live version of every region whose manager already has versions, once each, keeping the history in order |
| ObjectTracker.LookupComplete | src/libcrown/object_tracker_writer.cc:126-136 | among regions that do not overlap, `find` returns the one that contains the address |
| ObjectTracker.FlagOfFound | src/libcrown/object_tracker_writer.cc:116-123 | with the flags in step with the regions, the flag consulted at an address is the flag of the region `find` returns there |
| ObjectTracker.MarkDerefSynced | src/libcrown/object_tracker_writer.cc:91-101 | marking the region found at an address keeps the flags in step, and every later query inside that region answers the mark |
| ObjectTracker.SnapshotSynced | src/libcrown/object_tracker_writer.cc:46-62 | a snapshot keeps the flags in step; the new version is what `find` returns anywhere in the region, and it is not flagged as read |
| ObjectTracker.DisjointReplace | src/libcrown/object_tracker_writer.cc:57 | replacing a region by one with the same bounds keeps the regions apart |
| ObjectTracker.SnapshotFlags | src/libcrown/object_tracker_writer.cc:59 | with the flags in step, a snapshot clears exactly the flag of the region it replaces |
| ObjectTracker.AddSynced | src/libcrown/object_tracker_writer.cc:34-44 | adding a region that overlaps no live one keeps the flags in step; its version 0 is found anywhere inside it and is flagged as read |
| ObjectTracker.DisjointAdd | src/libcrown/object_tracker_writer.cc:42 | a region that overlaps no live one can join them without overlap |
| ObjectTracker.ReleaseSynced | src/libcrown/symbolic_interpreter.cc:468-473 | the corrected `Free` keeps the flags in step with the regions |
| ObjectTracker.FreedRegionTrace | src/libcrown/symbolic_interpreter.cc:461-473 | allocating [100, 108), storing into it and freeing it leaves no region, a stale flag `false` under 108, and both versions archived |
| ObjectTracker.StaleFlagAsWritten | src/libcrown/object_tracker_writer.cc:116-123 | as written, a region [96, 128) allocated after that trace is flagged as read, yet a query at 100 gets the stale flag `false` |
| ObjectTracker.StoreAllErasesCurrentEntry | src/libcrown/object_tracker_writer.cc:72-74 | as written, the loop of `storeAllObjAndRemove` erases the very map entry it stands on |
| ObjectTracker.ObjectTrackerWriter.constructor | src/libcrown/object_tracker_writer.h:28-30 | a new tracker has no regions, no flags, no managers and no barrier |
| ObjectTracker.ObjectTrackerWriter.AddRegion | src/libcrown/object_tracker_writer.cc:34-44 | `addRegion` leaves the state `Add` describes |
| ObjectTracker.ObjectTrackerWriter.Find | src/libcrown/object_tracker_writer.cc:126-136 | `find` returns `Lookup` of the state |
| ObjectTracker.ObjectTrackerWriter.RemoveTrackingObj | src/libcrown/object_tracker_writer.cc:104-114 | `removeTrackingObj` leaves the state `Untrack` describes |
| ObjectTracker.ObjectTrackerWriter.UpdateDereferredState | src/libcrown/object_tracker_writer.cc:91-101 | `updateDereferredStateOfRegion` leaves the state `MarkDeref` describes |
| ObjectTracker.ObjectTrackerWriter.GetDereferredState | src/libcrown/object_tracker_writer.cc:116-123 | `getDereferredStateOfRegion` returns `DerefState` of the state |
| ObjectTracker.ObjectTrackerWriter.StoreObj | src/libcrown/object_tracker_writer.cc:78-89 | `storeObj` leaves the state `Store` describes |
| ObjectTracker.ObjectTrackerWriter.StoreAndGetNewObj | src/libcrown/object_tracker_writer.cc:46-62 | `storeAndGetNewObj` leaves the state and returns the version `Snapshot` describes |
| ObjectTracker.ObjectTrackerWriter.Update | src/libcrown/symbolic_interpreter.cc:176-180 | a write through the pointer leaves the state `Put` describes |
| ObjectTracker.ObjectTrackerWriter.StoreAllObjAndRemove | src/libcrown/object_tracker_writer.cc:64-76 | `storeAllObjAndRemove` leaves the state `StoreAll` describes |
| ObjectTracker.ObjectTrackerWriter.Free | src/libcrown/symbolic_interpreter.cc:468-473 | the corrected `Free` leaves the state `Release` describes |
| ObjectTracker.ObjectTrackerWriter.Serialize | src/libcrown/object_tracker_writer.cc:138-150 | `Serialize` writes `TrackerBytes` of the history |
| Interpreter.Elem | src/libcrown/symbolic_interpreter.cc:643-652 | a pushed element carries exactly the given value, type and expression |
| Interpreter.Operand | src/libcrown/symbolic_interpreter.cc:265-272 | an operand stands for itself when it has a tree, and otherwise becomes a new constant node of its concrete value taking one id |
| Interpreter.BinaryResult | src/libcrown/symbolic_interpreter.cc:258-285 | the result holds the given value; it is symbolic iff either operand was and the operation is not `CONCRETE`; its tree is a binary node of that operation over the two operands (each its tree or a constant of its value); the ids used are one per node built |
| Interpreter.CompareResult | src/libcrown/symbolic_interpreter.cc:368-390 | the result holds the given value and is symbolic iff either operand was, with a comparison node of that operator over the two operands |
| Interpreter.UnaryResult | src/libcrown/symbolic_interpreter.cc:243-255 | the element takes the given value; a symbolic one is wrapped in one unary node of the operation, a concrete one stays concrete and takes no id |
| Interpreter.LongType | src/libcrown/symbolic_interpreter.cc:296 | pointer arithmetic computes in an 8-byte type |
| Interpreter.ScaleUp | src/libcrown/symbolic_interpreter.cc:291-313 | the concrete value is multiplied by `size` with 64-bit wrap and typed `long`/`unsigned long`; a symbolic element becomes a multiplication by the constant `size`, cast first to 8 bytes (signed or unsigned as asked) exactly when it was narrower |
| Interpreter.OddPartTimesPow2 | src/libcrown/symbolic_interpreter.cc:343-347 | the shift loop's count and what it leaves of `size` recompose `size`, and what it leaves is odd |
| Interpreter.Log2OfPowerOfTwo | src/libcrown/symbolic_interpreter.cc:342-348 | when the loop leaves 1, as the assert demands, 2 to the count is the size |
| Interpreter.TrailingZerosBelow64 | src/libcrown/symbolic_interpreter.cc:343-347 | the loop on a nonzero 64-bit size counts fewer than 64 halvings |
| Interpreter.Log2Of | src/libcrown/symbolic_interpreter.cc:342-348 | the exponent of a 64-bit power of two lies in 0..63 and 2 to it is the size |
| Interpreter.Log2 | src/libcrown/symbolic_interpreter.cc:343-348 | the halving loop returns the base-2 logarithm of the size |
| Interpreter.PtrResult | src/libcrown/symbolic_interpreter.cc:315-365 | the result has the given value, floating part 0 and type `long` for pointer difference, `unsigned long` otherwise; it is symbolic iff either operand was; a symbolic pointer difference with element size above 1 is the difference shifted right by a constant whose power of two is the size; a pointer-integer operation adds (for `ADD_PI`/`S_ADD_PI`) or subtracts, with the integer scaled by a multiplication when the size exceeds 1 |
| Interpreter.BranchCondition | src/libcrown/symbolic_interpreter.cc:425-453 | a concrete condition records nothing; a comparison is recorded as is on the taken side and under a logical not on the other; any other tree is compared with a zero of its own size, `!=` when taken and `==` when not |
| Interpreter.BranchPath | src/libcrown/symbolic_interpreter.cc:455 | a branch appends its id to the path, keeps the path valid, and adds a constraint indexed at the new branch exactly when the condition was symbolic |
| Interpreter.ValueSize | src/libcrown/symbolic_interpreter.cc:655-666 | the size of a non-struct type is its table size (1 to 16 bytes); a struct's size is its concrete value, or 4 when that is 0 |
| Interpreter.LoadSpec | src/libcrown/symbolic_interpreter.cc:70-81 | a load changes no region or version history and keeps the tracker well formed; outside every tracked region it reads main memory and leaves the tracker as it was |
| Interpreter.DerefSpec | src/libcrown/symbolic_interpreter.cc:94-124 | a dereference through a concrete pointer, or of an untracked address, is an ordinary load |
| Interpreter.DerefSymbolic | src/libcrown/symbolic_interpreter.cc:100-107 | a symbolic pointer into a tracked region yields a deref node through the pointer's tree carrying the loaded value and naming the live version of the region that contains the address |
| Interpreter.StoredValue | src/libcrown/symbolic_interpreter.cc:174-181 | a tracked store records the element's tree when it is symbolic, and otherwise a new constant node of its value |
| Interpreter.StoreSpec | src/libcrown/symbolic_interpreter.cc:137-187 | a store keeps memory and tracker well formed, touches main memory only for an untracked address and the tracker only for a tracked one |
| Interpreter.UntrackedStore | src/libcrown/symbolic_interpreter.cc:154-163 | an untracked store leaves valid slot memory |
| Interpreter.TrackedStore | src/libcrown/symbolic_interpreter.cc:164-182 | a tracked store leaves a well-formed tracker |
| Interpreter.StoreVersioned | src/libcrown/symbolic_interpreter.cc:164-182 | a store keeps every live version current and only extends each region's history; when the region had been read, the version live before the store is appended to its history |
| Interpreter.LoadAfterStore | src/libcrown/symbolic_interpreter.cc:154-158 | storing a symbolic tree to an untracked address and loading the same width back yields that tree, up to node ids |
| Interpreter.LoadAfterTrackedStore | src/libcrown/symbolic_interpreter.cc:164-182 | after a store into a tracked region the address still lies in a region of the same manager, whose version advances by one exactly when the region had been read; a load there reads a deref node of that version through the constant address |
| Interpreter.SetOrPush | src/libcrown/symbolic_interpreter.cc:501-511 | entry `n` is overwritten when it exists and appended otherwise; every other entry is kept |
| Interpreter.InputValue | src/libcrown/symbolic_interpreter.cc:513-526 | a replayed non-bit-field input keeps its previous value; a replayed bit-field takes its type and a zero `floating`, and its integral is the corrected byte merge when the field lies inside one byte and line 518 as written on 64 bits otherwise (the union tags); a new input takes `oldValue` |
| Interpreter.NewAtomic | src/libcrown/symbolic_interpreter.cc:542 | the input node of input `n` has the input's value and size and takes one fresh id |
| Interpreter.Recorded | src/libcrown/symbolic_interpreter.cc:489-548 | recording sets input `n`'s value and first tree, appends the name and location, and maps `n` to its type unless it already had one |
| Interpreter.InputValueTyped | src/libcrown/symbolic_interpreter.cc:513-526 | the chosen input value carries a valid type tag |
| Interpreter.RecordedTyped | src/libcrown/symbolic_interpreter.cc:519-525 | recording keeps every stored input value well typed |
| Interpreter.NextInput | src/libcrown/symbolic_interpreter.cc:558 | the input count increments as an unsigned 32-bit number |
| Interpreter.InputSpec | src/libcrown/symbolic_interpreter.cc:532-556 | declaring an input keeps memory and tracker well formed and leaves the tracker's regions and history alone |
| Interpreter.InputRead | src/libcrown/symbolic_interpreter.cc:532-548 | the read half of declaring an input leaves main memory and the regions alone |
| Interpreter.InputInMemory | src/libcrown/symbolic_interpreter.cc:532-556 | after an input is declared, a read of its width at its address gives input `n`'s node, up to ids; where nothing symbolic was there before, the recorded tree is that node too |
| Interpreter.SymbolicInterpreter.constructor | src/libcrown/symbolic_interpreter.cc:45-55 | a new interpreter has an empty stack, no inputs declared, the replayed inputs, and empty memory, tracker and path |
| Interpreter.SymbolicInterpreter.ClearStack | src/libcrown/symbolic_interpreter.cc:58-67 | the stack is emptied and no return value is pending |
| Interpreter.SymbolicInterpreter.PushSymbolic | src/libcrown/symbolic_interpreter.cc:643-652 | one element of the given tree and value is pushed, nothing else changes |
| Interpreter.SymbolicInterpreter.PushConcrete | src/libcrown/symbolic_interpreter.cc:638-640 | one concrete element of the given value is pushed, nothing else changes |
| Interpreter.SymbolicInterpreter.ReadAt | src/libcrown/symbolic_interpreter.cc:73-81 | the shared read returns and leaves what `LoadSpec` describes |
| Interpreter.SymbolicInterpreter.Load | src/libcrown/symbolic_interpreter.cc:70-92 | `Load` pushes the value with the tree `LoadSpec` reads and leaves its tracker |
| Interpreter.SymbolicInterpreter.Deref | src/libcrown/symbolic_interpreter.cc:94-134 | `Deref` replaces the top element by the value with the tree `DerefSpec` gives |
| Interpreter.SymbolicInterpreter.WriteAt | src/libcrown/symbolic_interpreter.cc:152-182 | the shared write leaves memory, tracker and id counter as `StoreSpec` describes |
| Interpreter.SymbolicInterpreter.WriteMemory | src/libcrown/symbolic_interpreter.cc:154-163 | an untracked write leaves main memory as `UntrackedStore` describes |
| Interpreter.SymbolicInterpreter.WriteRegion | src/libcrown/symbolic_interpreter.cc:164-182 | a tracked write leaves the tracker as `TrackedStore` describes |
| Interpreter.SymbolicInterpreter.Store | src/libcrown/symbolic_interpreter.cc:137-187 | `Store` applies `StoreSpec` to the top element and pops it |
| Interpreter.SymbolicInterpreter.Write | src/libcrown/symbolic_interpreter.cc:189-240 | `Write` applies `StoreSpec` to the top element with the destination's tree and pops both |
| Interpreter.SymbolicInterpreter.ApplyUnaryOp | src/libcrown/symbolic_interpreter.cc:243-255 | the top element becomes `UnaryResult` |
| Interpreter.SymbolicInterpreter.ApplyBinaryOp | src/libcrown/symbolic_interpreter.cc:258-285 | the two top elements become `BinaryResult` |
| Interpreter.SymbolicInterpreter.ApplyCompareOp | src/libcrown/symbolic_interpreter.cc:368-390 | the two top elements become `CompareResult` |
| Interpreter.SymbolicInterpreter.ScaleUpBy | src/libcrown/symbolic_interpreter.cc:291-313 | the top element becomes `ScaleUp` |
| Interpreter.SymbolicInterpreter.ApplyBinPtrOp | src/libcrown/symbolic_interpreter.cc:315-365 | the two top elements become `PtrResult` |
| Interpreter.SymbolicInterpreter.PointerDifference | src/libcrown/symbolic_interpreter.cc:333-354 | a symbolic pointer difference leaves the element `PtrDifference` gives |
| Interpreter.SymbolicInterpreter.PointerOffset | src/libcrown/symbolic_interpreter.cc:324-338 | a symbolic pointer-integer operation leaves the element `PtrOffset` gives |
| Interpreter.SymbolicInterpreter.Call | src/libcrown/symbolic_interpreter.cc:393-395 | a call appends the call marker to the path |
| Interpreter.SymbolicInterpreter.Return | src/libcrown/symbolic_interpreter.cc:398-406 | a return appends the return marker and notes a return value iff one element is on the stack |
| Interpreter.SymbolicInterpreter.HandleReturn | src/libcrown/symbolic_interpreter.cc:409-422 | afterwards exactly one element is on the stack: the callee's own when it returned one, else a concrete element of the returned value |
| Interpreter.SymbolicInterpreter.Branch | src/libcrown/symbolic_interpreter.cc:425-459 | the branch and its `BranchCondition` are pushed on the path and the stack is emptied |
| Interpreter.SymbolicInterpreter.Alloc | src/libcrown/symbolic_interpreter.cc:461-466 | the tracker starts tracking the region as `Add` describes |
| Interpreter.SymbolicInterpreter.Free | src/libcrown/symbolic_interpreter.cc:468-473 | the tracker archives and drops the region as the corrected `Release` describes |
| Interpreter.SymbolicInterpreter.Exit | src/libcrown/symbolic_interpreter.cc:475-479 | every live region is archived as `StoreAll` describes |
| Interpreter.SymbolicInterpreter.ReadInput | src/libcrown/symbolic_interpreter.cc:532-548 | the input read returns the tree `InputRead` records |
| Interpreter.SymbolicInterpreter.DeclareInput | src/libcrown/symbolic_interpreter.cc:489-559 | the execution records the input as `Recorded` does, memory and tracker change as `InputSpec` describes, and the input count increments |
| Interpreter.SymbolicInterpreter.NewInput | src/libcrown/symbolic_interpreter.cc:487-560 | `NewInput` returns `InputValue` for the input and declares it |
| Interpreter.SymbolicInterpreter.NewInput2 | src/libcrown/symbolic_interpreter.cc:563-635 | as `NewInput`, except that a new input takes the given initial value |
| PathWriter.LineNumber | src/libcrown/symbolic_path_writer.cc:69 | the line number stored as an `int` is the `unsigned int` given, modulo 2^32 |
| PathWriter.PushBranchValid | src/libcrown/symbolic_path_writer.cc:48-50 | `Push(bid)` appends exactly the branch, keeps the path valid and leaves constraints, indices and locations alone |
| PathWriter.PushConstraintValid | src/libcrown/symbolic_path_writer.cc:58-76 | with a condition, exactly one constraint is appended, with its location, and its index names the branch pushed with it; without one only the branch is appended; the path stays valid |
| PathWriter.RecordTracksSteps | src/libcrown/symbolic_path_writer.cc:48-82 | after any sequence of pushes the path has one branch per push in order, is valid, and every constraint's index names the push that recorded that condition |
| PathWriter.SwapValid | src/libcrown/symbolic_path_writer.cc:42-46 | swapping twice restores both paths; since locations are not exchanged, the swapped paths are valid exactly when both held the same number of constraints |
| PathWriter.BranchesFrom | src/libcrown/symbolic_path_writer.cc:91 | the branch ids take 4 bytes each |
| PathWriter.IndicesFrom | src/libcrown/symbolic_path_writer.cc:96 | the constraint indices take 8 bytes each |
| PathWriter.ValidWritable | src/libcrown/symbolic_path_writer.cc:94-111 | a valid path has an index and a location for every constraint `Serialize` writes |
| PathWriter.SerializeBranches | src/libcrown/symbolic_path_writer.cc:89-91 | the branch loop writes `BranchesFrom` of the branch ids |
| PathWriter.SerializeIndices | src/libcrown/symbolic_path_writer.cc:94-96 | the index loop writes `IndicesFrom` of the indices |
| PathWriter.SerializeConstraints | src/libcrown/symbolic_path_writer.cc:103-111 | the constraint loop writes each constraint after its line, file-name length and file name |
| PathWriter.SymbolicPathWriter.constructor | src/libcrown/symbolic_path_writer.cc:17-26 | a new path is empty |
| PathWriter.SymbolicPathWriter.Push | src/libcrown/symbolic_path_writer.cc:48-50 | the state becomes `PushBranch` of the old one |
| PathWriter.SymbolicPathWriter.PushWith | src/libcrown/symbolic_path_writer.cc:58-82 | the state becomes `PushConstraint` of the old one |
| PathWriter.SymbolicPathWriter.Swap | src/libcrown/symbolic_path_writer.cc:42-46 | the two paths exchange branches, indices and constraints and keep their locations |
| PathWriter.SymbolicPathWriter.Serialize | src/libcrown/symbolic_path_writer.cc:85-112 | the bytes written are the branch count, the branch ids, the constraint count, one index per constraint, and the constraints with their locations |
| SymbolicPath.ReadBranches | src/run_crown/symbolic_path.cc:74-75 | reading `n` branch ids gives `n` ids |
| SymbolicPath.ReadIndices | src/run_crown/symbolic_path.cc:89-92 | reading `n` indices gives `n` indices |
| SymbolicPath.ReadBranchesWritten | src/run_crown/symbolic_path.cc:74-75 | reading the branch array the recorder wrote gives back its ids |
| SymbolicPath.ReadIndicesWritten | src/run_crown/symbolic_path.cc:89-92 | reading the index array the recorder wrote gives back its indices |
| SymbolicPath.UpToNul | src/run_crown/symbolic_path.cc:103-104 | the string made from the name buffer is the longest NUL-free prefix of it, the whole name when it holds no NUL |
| SymbolicPath.ParseEntry | src/run_crown/symbolic_path.cc:100-109 | a record that parses consumes input; only the fixed buffer can overflow |
| SymbolicPath.ParseEntries | src/run_crown/symbolic_path.cc:99-111 | when every record parses, exactly `n` more constraints and locations are read; only the fixed buffer can overflow |
| SymbolicPath.ParseWith | src/run_crown/symbolic_path.cc:63-115 | input shorter than a count fails; a successful parse has as many branches as the first count says and one index and one location per constraint |
| SymbolicPath.ParsePathAsWritten | src/run_crown/symbolic_path.cc:63-115 | `Parse` as written fails on input shorter than a count |
| SymbolicPath.ParsePath | src/run_crown/symbolic_path.cc:63-115 | the corrected `Parse` never overflows, fails on input shorter than a count, and yields one index and one location per constraint |
| SymbolicPath.EntryHeader | src/run_crown/symbolic_path.cc:100-102 | a written record starts with its line and name length, followed by the name |
| SymbolicPath.ParseEntryWritten | src/run_crown/symbolic_path.cc:100-109 | a record the recorder wrote reads back as written, through the fixed buffer too when its name is a C string shorter than 256 bytes |
| SymbolicPath.ParseEntriesWritten | src/run_crown/symbolic_path.cc:99-111 | the records the recorder wrote read back in order, leaving the rest of the stream |
| SymbolicPath.WithArrays | src/run_crown/symbolic_path.cc:74-111 | a parse succeeds exactly when its records do, and then carries the branch and index arrays read |
| SymbolicPath.ParseWithLayout | src/run_crown/symbolic_path.cc:70-92 | after two counts and the arrays they announce, the parse has read both arrays back and goes on with the records |
| SymbolicPath.ParseWithWritten | src/run_crown/symbolic_path.cc:63-115 | reading back what the recorder wrote gives the same branches, indices, constraints and locations and stops right after it |
| SymbolicPath.ParsePathWritten | src/run_crown/symbolic_path.cc:63-115 | the corrected `Parse` reads back every path the recorder writes |
| SymbolicPath.ParsePathAsWrittenShortNames | src/run_crown/symbolic_path.cc:63-115 | `Parse` as written reads back every path whose file names are C strings shorter than 256 bytes |
| SymbolicPath.ParseEntryLong | src/run_crown/symbolic_path.cc:97-103 | a record whose file name has 256 bytes or more overruns the buffer |
| SymbolicPath.LongNameOverflows | src/run_crown/symbolic_path.cc:97-103 | for a path whose first constraint comes from a file name of 256 bytes or more, `Parse` as written overruns the buffer while the corrected parse reads the path back |
| SymbolicPath.LongNameAsWritten | src/run_crown/symbolic_path.cc:97-103 | `Parse` as written overruns the buffer on such a path |
| SymbolicPath.EntriesOverflow | src/run_crown/symbolic_path.cc:99-111 | a record that overruns the buffer ends the whole parse |
| SymbolicPath.AssignValid | src/run_crown/symbolic_path.cc:36-50 | self-assignment changes nothing; assignment takes the source's branches and constraints, and the result is valid exactly when both held the same number of constraints, since locations are not copied |
| SymbolicPath.SymbolicPath.constructor | src/run_crown/symbolic_path.cc:17-26 | a new path is empty |
| SymbolicPath.SymbolicPath.Assign | src/run_crown/symbolic_path.cc:36-50 | the state becomes `AssignPath` of the two old states |
| SymbolicPath.SymbolicPath.Swap | src/run_crown/symbolic_path.cc:57-61 | branches, indices and constraints change places; locations stay |
| SymbolicPath.SymbolicPath.Parse | src/run_crown/symbolic_path.cc:63-115 | `Parse` succeeds exactly when `ParsePath` does, and then holds that path and returns the rest of the stream |
| SymbolicPath.ReadBranchArray | src/run_crown/symbolic_path.cc:74-75 | the loop reads `ReadBranches` of the stream |
| SymbolicPath.ReadIndexArray | src/run_crown/symbolic_path.cc:89-92 | the loop reads `ReadIndices` of the stream |
| SymbolicPath.ReadEntries | src/run_crown/symbolic_path.cc:99-111 | the record loop returns `ParseEntries` from an empty read table |
| Search.Pairs | src/run_crown/concolic_search.cc:103-106 | a function's pairs give twice as many ids, each pair's two ids in turn |
| Search.Flatten | src/run_crown/concolic_search.cc:100-109 | the ids of the branch table come in pairs |
| Search.ReadTable | src/run_crown/concolic_search.cc:81-113 | reading the table yields every function's ids in file order, a leading 0 and then twice each function's pair count in `branch_count_`, and `max_branch_` one above the largest id (1 when there is none) |
| Search.ReadFunction | src/run_crown/concolic_search.cc:100-108 | reading one function's entry keeps the table-reading invariant for the next function |
| Search.ReadPairs | src/run_crown/concolic_search.cc:103-108 | the pair loop appends the pairs' ids and keeps the largest id seen, which occurs among them |
| Search.Paired | src/run_crown/concolic_search.cc:116-121 | the pairing map has one entry per id below `max_branch_`, each 0 or an id of the table |
| Search.PairBranches | src/run_crown/concolic_search.cc:116-121 | the pairing loop builds `Paired` of the ids |
| Search.PairedSymmetric | src/run_crown/concolic_search.cc:116-121 | when no id occurs twice in the table, each id of a pair is paired with the other |
| Search.PairedUnpaired | src/run_crown/concolic_search.cc:117 | an id in no pair is paired with 0 |
| Search.Owners | src/run_crown/concolic_search.cc:125-131 | every position of `branches_` belongs to a function of `branch_count_` |
| Search.Functions | src/run_crown/concolic_search.cc:123-131 | the branch-to-function map has one entry per id, each 0 or a function that lists ids |
| Search.MapFunctions | src/run_crown/concolic_search.cc:123-131 | the nested loop builds `Functions` of the ids and their owners |
| Search.OwnersAt | src/run_crown/concolic_search.cc:126-129 | the `k`-th position written for function `j` is owned by `j` |
| Search.FunctionsOfDistinct | src/run_crown/concolic_search.cc:123-131 | when no id occurs twice, every id maps to the function that lists it |
| Search.InsertId | src/run_crown/concolic_search.cc:165 | insertion adds exactly the one id |
| Search.InsertIdSorted | src/run_crown/concolic_search.cc:165 | insertion keeps a sorted sequence sorted |
| Search.SortIds | src/run_crown/concolic_search.cc:164-165 | `sort` yields the same ids, as often as before, in increasing order |
| Search.CountTrue | src/run_crown/concolic_search.cc:135-138 | the count of set entries is at most the length and 0 exactly when none is set |
| Search.CountTrueSet | src/run_crown/concolic_search.cc:391-393 | covering an uncovered id adds one to the count |
| Search.Unset | src/run_crown/concolic_search.cc:137-139 | a fresh coverage vector has the given length and nothing set |
| Search.Weighted | src/run_crown/concolic_search.cc:397-401 | no function reached means no reachable branches |
| Search.WeightedSet | src/run_crown/concolic_search.cc:397-401 | reaching a function for the first time adds its branch count |
| Search.ReadMaps | src/run_crown/concolic_search.cc:75-165 | the constructor's maps are `SortIds`, `Paired` and `Functions` of the table's ids, with every id below `max_branch_` |
| Search.Search.constructor | src/run_crown/concolic_search.cc:75-166 | a new search holds the maps read from the table, with no branch covered and no function reached |
| Search.Search.Visit | src/run_crown/concolic_search.cc:390-407 | one path id marks a positive id covered in this run and overall and reaches its function, and reports whether it was new, counting it once |
| Search.Search.MarkCovered | src/run_crown/concolic_search.cc:391-402 | covering a positive id sets it and reaches its function, counting it only when new |
| Search.Search.ReachFunction | src/run_crown/concolic_search.cc:397-401 | reaching a function sets it and keeps the reachable counts in step |
| Search.Search.MarkTotal | src/run_crown/concolic_search.cc:403-406 | a positive id is covered overall and the overall count kept in step |
| Search.Search.UpdateCoverage | src/run_crown/concolic_search.cc:383-458 | coverage becomes `Cover` of the path in this run and overall, reached functions `Reach`, the new ids exactly `NewIds`, counted once each, and the result is true iff some id was new |
| Search.Search.Advance | src/run_crown/concolic_search.cc:390-407 | one step of the loop keeps the coverage invariant |
| Search.Cover | src/run_crown/concolic_search.cc:390-406 | coverage keeps its length |
| Search.Reach | src/run_crown/concolic_search.cc:397-401 | the reached vector keeps its length |
| Search.PrefixStep | src/run_crown/concolic_search.cc:390-402 | one more path id sets that id when positive, and adds it to the new ids when it was not covered |
| Search.ReachStep | src/run_crown/concolic_search.cc:397-401 | one more positive path id reaches its function |
| Search.CoverSpec | src/run_crown/concolic_search.cc:390-406 | an id is covered after the path iff it was before or is a positive id of the path |
| Search.NewIdsSpec | src/run_crown/concolic_search.cc:391-396 | the new ids are exactly the positive ids of the path that were not covered |
| Search.CoverNew | src/run_crown/concolic_search.cc:390-396 | covered after the path means covered before or newly covered |
| Search.ReachSpec | src/run_crown/concolic_search.cc:397-401 | a function is reached after the path iff it was before or owns a positive id of the path |
| Search.CheckPrediction | src/run_crown/concolic_search.cc:606-622 | true iff both paths are longer than `idx`, agree before `idx`, and differ at `idx` |
| Search.Negated | src/run_crown/concolic_search.cc:534-536 | the negation is a `LOGICAL_NOT` node over the constraint, as wide as its type, with the opposite truth value |
| Search.NegatedPrefix | src/run_crown/concolic_search.cc:530-536 | the constraints handed to the solver are those before `idx` followed by the negated one |
| Search.MergeSolution | src/run_crown/concolic_search.cc:560-569 | the next input is the run's input with each solved variable replaced by the solver's value |
| Search.SolveAtBranch | src/run_crown/concolic_search.cc:515-574 | succeeds iff the solver finds a solution for the negated prefix, and then returns the run's inputs overlaid with it; otherwise the input is unchanged |
| Search.CfgOf | src/run_crown/concolic_search.cc:1054-1067 | the CFG has one successor list per id, each listing ids below `max_branch_` |
| Search.CfgOfLastRecord | src/run_crown/concolic_search.cc:1060-1067 | a branch's successors are those of the last record naming it, and a branch no record names has none |
| Search.ReadCfg | src/run_crown/concolic_search.cc:1054-1068 | the record loop builds `CfgOf` the records |
| Search.AddPredecessor | src/run_crown/concolic_search.cc:1072-1074 | adding predecessors keeps one list per id |
| Search.Reversed | src/run_crown/concolic_search.cc:1070-1075 | the reversed CFG keeps one list per id |
| Search.AddPredecessorSpec | src/run_crown/concolic_search.cc:1072-1074 | `x` precedes `j` afterwards iff it did before or `x` is the branch added and `j` one of its successors |
| Search.ReversedSpec | src/run_crown/concolic_search.cc:1070-1075 | `x` is listed as a predecessor of `j` iff `x` is a branch and `j` one of its successors |
| Search.ReverseCfg | src/run_crown/concolic_search.cc:1070-1075 | the outer loop builds `Reversed` |
| Search.AppendPredecessor | src/run_crown/concolic_search.cc:1072-1074 | the inner loop builds `AddPredecessor` |
| Search.SumLower | src/run_crown/concolic_search.cc:1149-1151 | lowering a distance lowers the sum of distances, which bounds the BFS loop |
| Search.DistanceBound | src/run_crown/concolic_search.cc:1131-1155 | after the BFS, a chain of CFG edges of length `k` from a branch to an uncovered branch bounds that branch's distance by `k` |
| Search.Skip | src/run_crown/concolic_search.cc:1482-1493 | `SkipUntilReturn` only moves forward, stays within the path, and stops at a return or the end |
| Search.Collect | src/run_crown/concolic_search.cc:1495-1525 | `CollectNextBranches` only moves forward within the path and collects positions it passed that hold branch ids (not calls or returns) |
| Search.SkipUntilReturn | src/run_crown/concolic_search.cc:1482-1493 | the loop reaches the position `Skip` gives |
| Search.CollectNextBranches | src/run_crown/concolic_search.cc:1495-1525 | the loop reaches the position and appends the indices `Collect` gives |
| Search.CollectCall | src/run_crown/concolic_search.cc:1500-1508 | one call of the loop advances the position and collects as `Collect` does for it |
| Search.FindAlongCfg | src/run_crown/concolic_search.cc:1343-1376 | a branch of `bs` at `i` is found; nothing is found past the path's end |
| Search.FindMonotone | src/run_crown/concolic_search.cc:1343-1376 | a larger step budget finds whatever a smaller one does |
| Search.CflWalk | src/run_crown/concolic_search.cc:1313-1340 | the walk never returns more than the best distance so far, and never 0 when every distance in play is at least 1 |
| Search.MinCfl | src/run_crown/concolic_search.cc:1302-1311 | `SIZE_MAX` past the path's end; 0 exactly when the branch at `i` is one of `bs` |
| Search.WalkDefined | src/run_crown/concolic_search.cc:1324-1336 | on a path of branch, call and return ids only, the walk never reaches the bad-id exit |
| Search.NextBranchAtOne | src/run_crown/concolic_search.cc:1315-1321 | a branch of `bs` right after branch `i` is at distance 1 |
| Search.MinCflDistance | src/run_crown/concolic_search.cc:1302-1341 | the walk returns `MinCfl` |
| Search.Occurrences | src/run_crown/concolic_search.cc:1184-1191 | a target occurs at most as often as the list is long |
| Search.Targets | src/run_crown/concolic_search.cc:1186-1188 | each scored constraint's target is the paired branch of the branch it was recorded at |
| Search.WithScore | src/run_crown/concolic_search.cc:1203 | the projection on one score keeps only entries of that score |
| Search.InsertScored | src/run_crown/concolic_search.cc:1203 | insertion adds exactly the one entry |
| Search.InsertScoredSorted | src/run_crown/concolic_search.cc:1203 | insertion keeps the entries sorted by score |
| Search.SortByScore | src/run_crown/concolic_search.cc:1203 | `stable_sort` yields a permutation sorted by score |
| Search.WithScoreAppend | src/run_crown/concolic_search.cc:1203 | projection on a score distributes over concatenation |
| Search.InsertScoredStable | src/run_crown/concolic_search.cc:1203 | insertion appends the new entry last among those of its score |
| Search.SortByScoreStable | src/run_crown/concolic_search.cc:1203 | entries of equal score keep their relative order |
| Search.CfgHeuristicSearch.constructor | src/run_crown/concolic_search.cc:1049-1076 | the CFG is read from the records, one per branch, and reversed; every distance starts at 0 |
| Search.CfgHeuristicSearch.StartRound | src/run_crown/concolic_search.cc:1087-1088 | each round forgets this run's coverage |
| Search.CfgHeuristicSearch.UpdateBranchDistances | src/run_crown/concolic_search.cc:1131-1155 | after the backward BFS every uncovered branch is at distance 0, no branch lies beyond `kInfiniteDistance`, and every branch is within one step of each successor's distance |
| Search.CfgHeuristicSearch.SeedDistances | src/run_crown/concolic_search.cc:1134-1141 | uncovered branches start at 0 and queued, covered ones at `kInfiniteDistance` |
| Search.CfgHeuristicSearch.Relax | src/run_crown/concolic_search.cc:1143-1153 | one BFS step keeps the distances bounded and every branch queued or settled, and lowers the sum of distances unless nothing changed |
| Search.SeededSettled | src/run_crown/concolic_search.cc:1134-1141 | after seeding every branch is queued or settled |
| Search.LowerKeepsSettled | src/run_crown/concolic_search.cc:1149-1151 | lowering one distance and queueing it keeps every other branch queued or settled |
| Search.ScoreBranches | src/run_crown/concolic_search.cc:1182-1202 | each constraint in the shuffled order scores its target's distance plus how often that target was scored before it, which is `Scores` |
| Search.RankBranches | src/run_crown/concolic_search.cc:1158-1203 | nothing is ranked at or past the last constraint or with no depth left; otherwise the ranking is the stable sort by score of `Scores` over the shuffled order, sorted, and its indices are exactly the constraints from `pos` on, each once |
| Search.Scores | src/run_crown/concolic_search.cc:1182-1202 | each constraint of the order keeps its index, in the order's sequence |
| Search.IndicesPermuted | src/run_crown/concolic_search.cc:1203 | `stable_sort` only reorders: the sorted entries hold the same constraint indices, with the same multiplicities |
| Search.PermutedRange | src/run_crown/concolic_search.cc:1177-1183 | a shuffle of the positions from `pos` holds each of them once |
| Search.SortedKeepsIndices | src/run_crown/concolic_search.cc:1203 | sorting keeps the constraint indices in range |
| Search.Range | src/run_crown/concolic_search.cc:1177-1180 | the positions `pos` up to the last constraint, in order |

## Left out

- File and console I/O, `getenv`, `system`, the clock and process exit are left out. The bytes written or read are parameters and results.
- The constraint solver is a parameter of `Search.SolveAtBranch`. Solver keys that name no input are dropped.
- Floating-point values are carried as raw bits. No floating-point arithmetic is modelled.
- Addresses are unbounded `nat`s. The search counters (runs, iterations, coverage totals) are unbounded, where the source uses fixed-width integers that do not overflow in practice.
- Every stored slot expression has a size between 1 and 2^63 (`MemoryWriter.SlotOk`). A slot of size 0 would make the scan and the split loop forever.
- The source checks the interpreter's stack depth and operand kinds with `assert`. Here they are `requires` clauses of the `SymbolicInterpreter` methods.
- `return_value_` is uninitialised in the source's constructor. The model starts it at `false`.
- Interpreter.InputValue: requires `BitFieldOk`: for a replayed bit-field, `h < 64` and `l < 31`. Beyond those, the shifts `oldValue >> h` and the `int` shift `1 << l` of line 518 are undefined in C++. `__CrownBitField` passes only `h <= 8` and `l <= 7`.
- Interpreter.InputValue: the corrected byte merge (`BitFields.MergeInput`) replaces line 518 only for a `BITFIELD_CHAR` field inside one byte over a byte-sized old value. The union tags keep line 518 as written, because their `h` and `l` are positions within a byte applied to a 16-, 32- or 64-bit value, and no intended reading is evident.
- Interpreter.SymbolicInterpreter.NewInput and Interpreter.SymbolicInterpreter.NewInput2: require `BitFieldOk`, for the same reason as `Interpreter.InputValue`.
- BitFields.MergeWordAsWritten: its contract does not state that the old value's bits below `l`, and from `h` up when `l < h`, are kept. For a field inside one byte both follow from `BitFields.MergeWordAsWrittenOnByte` with `BitFields.MergeInputAsWritten` and `BitFields.MergeInputAsWrittenKeepsLow`; on 64 bits with variable shifts they are beyond the solver's budget.
- Replay.ReadBitFieldUnion: requires `l <= h`. For a union field whose bits cross a byte boundary the header carries `l > h`, and the source shifts `1ULL` by the negative `hBit - lBit`, which C leaves undefined.
- Replay.HeaderNumbers: the header line is modelled as its list of numbers. The decimal printing and the `strtok` splitting are not modelled.
- The `exp` text argument of `Branch` and the predicted value are not stored. Only the branch id and the constraint are recorded.
- `SymbolicObject`'s and the tracker's objects carry an empty byte memory (`ObjectTracker.WellFormed`). Their contents live in the symbolic memory.
- `ObjectTracker.MAX_MANAGERS` bounds the number of archived managers, because manager indices pass through a C `int`.
- The tracker's `upper_bound` is a search over the key set, not a balanced tree.
- The memory hash map's iteration order is a parameter of serialisation, a permutation of its keys.
- `SymbolicPath.SymbolicPath.Parse`: on a failed parse the object's fields are left as the model's parse returns them, not as a partial read would leave them.
- `SymbolicPath.SymbolicPath.Parse`: short reads from a stream are not modelled; the input is a complete byte string.
- `SymbolicPath.SymbolicPath.Swap` and `PathWriter.SymbolicPathWriter.Swap` exchange branches, indices and constraints. Variable names and locations stay with their owner.
- On the search side, fresh expression ids and `Clone` keep no counter. Parsed nodes keep the id read from the stream; nodes the search-side factory builds get id 0, and a search-side copy is the node with its ids set to 0 (`Exprs.Strip`). Ids do not take part in equality.
- C++ leaves the evaluation order of the two `Clone` calls in a binary node unspecified. The model clones left before right.
- `Parse` of the symbolic execution, object tracker and symbolic object on the search side is modelled through the path and memory readers and the codec. The per-class wrappers are not separate members.
- `strtoull` in the replay reader: leading whitespace and a sign are not accepted. The reader sees only the digits written by the recorder.
- `Search`'s `DoSearch` solve loop, `RunProgram`, `SolveAlongCfg` and the random restarts are left out. They call the solver and the program under test.
- `random_shuffle` is left out. Its order is a parameter, a permutation of the branch indices.
- The `isCreateAST` reset between runs is left out.
- `CfgHeuristicSearch` holds a `Search` by composition instead of inheriting from it.
- `Search.CfgHeuristicSearch.UpdateBranchDistances`: the distances are proved to be an upper bound (`Search.DistanceBound`) and settled along every edge, but not to be the exact shortest distances.
- `Search.MinCfl`: its agreement with `Search.FindAlongCfg` is not proved.
- The source checks the branch count of the CFG file with `assert`. Here it is a `requires` of `Search.ReadCfg`.
- `stable_sort` is modelled as a stable insertion sort (`Search.SortByScore`), which has the same result.
- `kInfiniteDistance` is not defined in the sources modelled here. It is the parameter `inf`.
- MemoryWriter.SymbolicMemoryWriter.Concretize: requires `n < 2^31`. The source converts `n` to an `int` with `static_cast`; a larger `n` gives a negative or wrapped byte count, which the model does not follow.
- MemoryWriter.ConcretizeSpec: that every byte of `[addr, addr + n)` in a present block ends up concrete is proved only when no expression starts below `addr` in its block and reaches `addr` (`NoStraddle`). Such an expression is missed by the covering search of some rounds and found by later ones, whose split pieces can then refill bytes an earlier round cleared; the model does not say which bytes stay symbolic then.
- Search.ScoresOf: a score is `dist_[bid] + seen[bid]` over unbounded integers. The source stores it in the `int` of a `ScoredBranch`, so a distance near `kInfiniteDistance` plus the count seen could wrap; the model does not follow that wrap.
- SearchMemory.SymbolicMemory.Read: requires the blocks to be block-aligned with slot sizes from 1 to below 2^63 (`MemoryWriter.ValidMem`). `SearchMemory.ParseMem` does not ensure this of arbitrary bytes; `SearchMemory.ParseMemSerialized` gives it for the memory the recording side wrote, and other input is not covered.
- Search.Negated: the negated constraint keeps the original's `floating` bits. The source stores `1 - floating`, computed in `double`, and floating-point arithmetic is not modelled.

## Findings

| source | as written | input that shows it | evidently intended | confidence | as-written member | corrected member |
|---|---|---|---|---|---|---|
| src/libcrown/symbolic_memory_writer.cc:145-147 | splitting an old symbolic value walks its pieces without bounding the slot index by the block | an 8-byte symbolic write at offset 28, then a 4-byte write at 28: the second piece lands in slot 32, outside the block | the piece loop stops at the block's end, as the guard at line 150 does | not executed | MemoryWriter.SplitPastBlock | MemoryWriter.SplitFromAt |
| src/libcrown/symbolic_memory_writer.cc:91 | the inner scan of a read is not bounded by the block | a 4-byte read at offset 30 with an empty tail probes slots 31, 32 and 33 | the scan reads the window of the block and the next one | not executed | MemoryWriter.InnerProbesPastBlock | MemoryWriter.ReadBlock |
| src/run_crown/symbolic_memory.cc:91 | the search side's read repeats the same unbounded inner scan | a 4-byte read at offset 30 with an empty tail probes slots 31, 32 and 33 | the scan reads the window of the block and the next one | not executed | MemoryWriter.InnerProbesPastBlock | SearchMemory.ReadBlock |
| src/libcrown/symbolic_memory_writer.cc:251-259 | `concretize` steps by the alignment of the address, which is 0 at address 0 | concretize at address 0 with its block present: the step is 0 and the loop never ends | address 0 is aligned to a whole block | not executed | MemoryWriter.ConcretizeStuckAtZero | MemoryWriter.ConcretizeSpec |
| src/libcrown/symbolic_memory_writer.cc:252-254 | the chunk size shrinks against the whole length `n`, not the bytes left | concretize(4, 8) clears bytes 8 to 15 as well as 4 to 11 | only the bytes [addr, addr+n) are cleared: the corrected chunks lie inside the range (`ChunksWithin`) and are the ones the rounds clear (`RoundsFollowChunks`) | not executed | MemoryWriter.ConcretizeOvershoots | MemoryWriter.ChunksWithin |
| src/run_crown/symbolic_expression_factory.cc:76-85 | the search side builds `ExtractBytes` without its byte offset: the right operand holds the extracted value | 0x1234 read at byte 1: the right operand holds 0x12, so the lowering (bin_expression.cc:172) extracts from bit 8 * 0x12 = 144, past the 2-byte value | the offset written by the recorder is kept | not executed | SearchFactory.ExtractBytesLosesOffset | SearchFactory.ExtractBytesMatchesWriter |
| src/libcrown/symbolic_expression_factory.cc:84 | the mask `1 << (8*n)` is an `int` shift; the same mask is at line 99 of this file and at lines 71 and 82 of src/run_crown/symbolic_expression_factory.cc (the as-written search node, `SearchFactory.ExtractBytesAsWritten`, uses it too) | a 4-byte extract of the value 1 gives 0 | a 64-bit shift, keeping all n bytes | not executed | WriterFactory.ExtractMaskDropsBytes | WriterFactory.ConcatExtract |
| src/replay/crown_replay.c:324-338 | signed values are read with an `isnumber` that rejects `-`, and narrowed without a range check | any negative input ends the replay; a `char` value of 200 wraps to -56 | a leading sign is accepted and the value is read back as written | not executed | Replay.ReadSignedRejectsNegative | Replay.ReadSignedFixedRoundTrip |
| src/libcrown/symbolic_interpreter.cc:518 | the bit-field merge masks with `& 1`, keeping only bit l | 6 merged into bits 0 to 7 of a zero byte gives 0 | the whole field of h-l bits, `l` to `h-1`, is taken from the input | not executed | BitFields.MergeInputDropsBits | BitFields.MergeInputKeepsRest |
| src/replay/crown_replay.c:676-682 | the struct loop reads every following header with `strtok` and `atoi`, but the middle bytes of a struct bit-field are plain `U_CHAR` inputs with h = 0 (src/libcrown/crown.cc:1178-1182), whose header holds only the type (src/run_crown/concolic_search.cc:229-230) | a 24-bit struct bit-field at bit 0: the second header is one number, `strtok` returns NULL and `atoi(NULL)` is called | a header with the type alone is read as a whole byte | not executed | Replay.MiddleHeaderUnreadable | Replay.HeadersRecoverField |
| src/run_crown/symbolic_memory.cc:139 | the reader takes slot i from bit i of the occupancy word, the writer puts slot k at bit 31-k (symbolic_memory_writer.cc:164-167) | a block with only slot 0 filled comes back with slot 31 filled | the reader uses the writer's bit order | not executed | SearchMemory.BitmapMirrored | SearchMemory.ParseMemSerialized |
| src/run_crown/symbolic_path.cc:97-103 | a constraint's file name is copied into a 256-byte buffer with no length check | a path whose first constraint has a file name of 256 bytes or more writes past the buffer | the name is read whatever its length | not executed | SymbolicPath.LongNameOverflows | SymbolicPath.ParsePathWritten |
| src/libcrown/object_tracker_writer.cc:104-123 | `removeTrackingObj` erases the region but not its read flag (reached from `Free`, symbolic_interpreter.cc:468-473) | region [96, 128) allocated after a freed region: a store at 100 is told the region was not read | the flag is dropped with the region | not executed | ObjectTracker.StaleFlagAsWritten | ObjectTracker.ReleaseSynced |
| src/libcrown/object_tracker_writer.cc:72-74 | `storeAllObjAndRemove` erases the map entry its loop stands on | a tracker with one live region whose manager already has an archived version (after a store through a dereferenced region archived an earlier version; line 71 skips managers with an empty list): line 73 erases the entry the iterator stands on, and `i++` then uses the erased iterator | the loop runs over the keys captured first | not executed | ObjectTracker.StoreAllErasesCurrentEntry | ObjectTracker.StoreAllVersioned |
