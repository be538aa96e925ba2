# ducknng: a verified model

ducknng is a DuckDB extension that serves SQL over NNG sockets. This project models its hard core in Dafny and proves what that core is for. It covers the wire formats on both ends, the arithmetic they rest on, the sessions a service keeps for its clients, and the generators of its documentation.

`dafny verify dfyconfig.toml` checks everything.

| module | what it models |
|---|---|
| `WideMultiply`, `CheckedArithmetic` | the 128-bit multiply of the WebAssembly build, overflow-checked arithmetic, and the fused form that joins the two |
| `Leb128`, `Buffers`, `ByteKernel` | the variable-length integers, the measuring and fixed writers, and the reader with a sticky error |
| `QuackTypes`, `QuackTypeReader` | logical types as tagged field lists: the codec on values, and the reading loops proved against it |
| `QuackVectors`, `QuackExpansion`, `QuackSlices` | column vectors: encoder, decoder (flat, constant, dictionary, sequence) and skipper, when the decoder accepts what the skipper accepts, and when slices of columns are decoded right |
| `QuackRows`, `QuackRefusals` | what vectors mean row by row, the compressed forms from their bytes, and which vectors and types are refused |
| `QuackSpelling`, `PayloadSpelling` | types, vectors and payloads with every number of the wire format written out |
| `QuackChunks`, `QuackPayload`, `QuackChecked` | chunks and whole payloads: which pass the check, and the table scan that restarts on every call |
| `QuackAppend`, `QuackTransfer` | appending an uploaded payload chunk by chunk, and what becomes of a payload another server encoded |
| `WireFrame`, `FrameSpelling` | the 22-byte frame envelope of the server, with its in-place encoders, and its bytes written out |
| `RClient` | the R reference client, and what client and server make of each other's frames |
| `Sessions`, `SessionRuns`, `SessionAccess` | query and upload sessions as a state machine over all thread interleavings, what holds over whole runs, and who may use, end and commit a session |
| `UploadRuns`, `UploadReports`, `Outcomes` | reported and durable rows of uploads over whole runs, from payload to commit |
| `SessionTable`, `RateWindow` | the session array, the token comparison and the per-identity open-rate window, in place |
| `Splice` | the generated region of docs/wasm.md |
| `Metadata`, `MetadataLines`, `Manifest`, `MarkdownTable`, `YamlScalar`, `Catalog`, `CatalogText`, `Strings` | the function catalog generator and the text of its documents |
| `Options`, `Widths` | a value that may be absent, and the limits of machine integers |

Encoders are written as "the bytes put in front of `rest`", and readers return the value with the unread rest. A round trip therefore also says that a reader stops exactly where the writer stopped.

Round trips alone would hold of any numbering that writer and reader share. The spelling modules therefore fix every number of the format, and the refusal and check modules say which bytes are turned down.

Where the source loops over state, the model is a method or a class, proved against a function on values. The theorems are then about that function.

## What turned out false, and exactly when it holds

- The R client cannot announce every length. `as.integer` turns values past 2^31 - 1 into NA, stored as the pattern of 2^31. A 32-bit value is read back if and only if it is at most 2^31, a 64-bit one if and only if both halves are (`U32Carried`, `U64Carried`, `U64NotAlwaysCarried`).
- The R client misreads an empty method name: the index range `23:22` counts down and yields the first byte of what follows. `CallRoundTrip` and `ClientReadsReply` give the condition both ways, and `EmptyNameMisread` gives an instance.
- A refused append is not undone. A batch is decoded and appended chunk by chunk and counted only at the end, so a batch refused on the way leaves its earlier chunks in the appender, uncounted, and a later commit saves them. `HalfAppended` gives such a payload and `UnreportedRow` a run that reports no row and saves one. Over every run a commit reports what it saves if and only if no batch sent to the upload was refused after its first chunk with rows had decoded and been taken (`ReportIsRightIff`).
- The vector decoder on its own does not always cut a column right, because a flat array is always filled from its first row (`ArraySliceIgnoresOffset`, `ArraySliceCounterexample`). For all data it does if and only if the slice starts at row 0 or the type reaches no fixed-size array through structs and unions (`SliceLawIff`). This is latent: the chunk decoder refuses to start inside a chunk of a schema with a nested column, so every slice it does deliver is right (`ChunkSliceExact`), and repeated scans deliver every row once (`ReadTable`).
- A payload that passes the check need not decode. The check steps over vectors and ignores how far they expand and whether sequences stay in the range of their type. `DecodesIff` gives the exact difference.
- The open-rate limit relies on a clock that is not set back, and the source reads the system clock. `ClockSetBack` is a run with three opens within half a second under a limit of two. The code compares the true number of current opens with the limit at every call if and only if no open that expired counts again later (`CountsRightIff`).
- A chain of checked multiplications depends on the order of its factors when one of them is zero (`MulAllExact`, `MulAllOrderMatters`). Additions do not.
- A spliced table stays replaceable if and only if it does not contain the closing marker (`LastRunWins`, `SecondRunIsCurrent`; `RerunCounterexample` is an instance).
- The generated documents are read back from their text if and only if no category, and for the description no signature or description of a function, holds a line break (`MarkdownReadsBack`, `DescriptionReadsBack`). Otherwise different catalogs give the same text (`LookalikeText`).
- A quoted scalar is read back by a YAML scanner if and only if it has no line break or control character (`QuoteScans`; `LineBreakNotScanned` is an instance).

The message of generate_wasm_matrix.py says that markers were not found when the closing one precedes the opening one. Markers that are really missing raise an error earlier, in `index`. The model follows the code.

## Model

| member | source | states |
|---|---|---|
| WideMultiply.Mulddi3 | src/ducknng_wasm_builtins.c:35-53 | the two limbs hold the exact 128-bit product, and none of the twelve values stored on the way wraps |
| WideMultiply.AccumulateAt32 | src/ducknng_wasm_builtins.c:41-50 | an accumulation round adds its partial product at bit 32 exactly, without wrapping any store |
| WideMultiply.Multi3 | src/ducknng_wasm_builtins.c:55-65 | the product modulo 2^128, although the cross terms wrap |
| WideMultiply.SignedProduct | src/ducknng_wasm_builtins.c:24-33 | read as signed, the result is the exact product if and only if that product fits 128 signed bits |
| WideMultiply.ChainIsProduct | src/ducknng_wasm_builtins.c:55-65 | any bracketing of multiplications gives the true product modulo 2^128 |
| WideMultiply.ChainOrderIrrelevant | src/ducknng_wasm_builtins.c:55-65 | two chains over the same operands agree in any order and bracketing, although intermediate products overflow |
| CheckedArithmetic.CheckedAdd | src/ducknng_checked.c:4-8 | succeeds exactly when the sum fits, and leaves the output cell alone on failure |
| CheckedArithmetic.CheckedMul | src/ducknng_checked.c:22-26 | succeeds exactly when the product fits, and leaves the output cell alone on failure |
| CheckedArithmetic.DivisionGuard | src/ducknng_checked.c:10-14 | comparing with the truncated quotient decides exactly whether the product fits |
| CheckedArithmetic.AddAllExact | src/ducknng_checked.c:16-20 | a fold of checked additions succeeds if and only if the true total fits, and gives that total |
| CheckedArithmetic.AddAllPermutes | src/ducknng_checked.c:16-20 | failure and result of such a fold do not depend on the order |
| CheckedArithmetic.MulAllExact | src/ducknng_checked.c:22-26 | a fold of checked multiplications succeeds if and only if the factors before the first zero fit, and then gives the true product |
| CheckedArithmetic.MulAllOrderMatters | src/ducknng_checked.c:22-26 | the same factors fail in one order and succeed in another |
| CheckedArithmetic.FusedMul | src/ducknng_wasm_builtins.c:6-11 | deciding overflow by the high limb of the wide multiply delivers what the division guard delivers |
| CheckedArithmetic.GrowCapacity | src/ducknng_util.c:205-218 | the smallest doubling that covers the need, or the need itself where doubling would wrap |
| Leb128.FloorStep | src/ducknng_quack_core.c:81-96 | the truncating division with its correction is the floor |
| Leb128.UlebRoundTrip | src/ducknng_quack_core.c:169-186 | reading what was written recovers every 64-bit value and leaves what follows |
| Leb128.UlebCut | src/ducknng_quack_core.c:169-186 | an encoding cut anywhere is reported as truncated |
| Leb128.UlebAccepted | src/ducknng_quack_core.c:169-186 | whatever is accepted is a 64-bit value in at most ten bytes, and those are the writer's own bytes if and only if they do not end in a superfluous zero group |
| Leb128.SlebRoundTrip | src/ducknng_quack_core.c:188-210 | reading what was written recovers every signed 64-bit value |
| Leb128.SlebCut | src/ducknng_quack_core.c:188-210 | a signed encoding cut anywhere is reported as truncated |
| Leb128.SlebAccepted | src/ducknng_quack_core.c:188-210 | whatever is accepted is a signed 64-bit value in at most ten bytes, and those are the writer's own bytes if and only if their last group does more than repeat a sign |
| ByteKernel.MeasureExact | src/ducknng_quack_core.c:36-54 | a measuring writer ends at the exact output size, or reports overflow if no size can hold it |
| ByteKernel.FixedExact | src/ducknng_quack_core.c:36-54 | a fixed writer with room lays the chunks down in order and leaves the rest of its buffer alone |
| ByteKernel.FixedShort | src/ducknng_quack_core.c:36-54 | without room it fails for that reason, has written a prefix of the output and touched nothing past it |
| ByteKernel.TwoPass | src/ducknng_quack.c:1491-1524 | measure, allocate exactly that, encode again: the second pass cannot fail and fills the buffer with the whole output |
| ByteKernel.U16RoundTrip | src/ducknng_quack_core.c:163-167 | a 16-bit field id is read back |
| ByteKernel.CountedRoundTrip | src/ducknng_quack_core.c:212-227 | counted bytes are read back, and what follows is left |
| ByteKernel.Writer.InitMeasure | src/ducknng_quack_core.c:11-15 | a measuring writer starts empty and good |
| ByteKernel.Writer.InitFixed | src/ducknng_quack_core.c:17-25 | a fixed writer starts on its buffer; a missing buffer of non-zero size is invalid |
| ByteKernel.Writer.WriteBytes | src/ducknng_quack_core.c:36-54 | all of the chunk or none of it, and nothing once the writer has failed; a missing source of non-zero length is invalid |
| ByteKernel.Writer.WriteU8 | src/ducknng_quack_core.c:56-58 | writes one byte under the same rule |
| ByteKernel.Writer.WriteUleb128 | src/ducknng_quack_core.c:71-79 | the loop writes exactly the value's encoding, byte by byte, as far as it fits |
| ByteKernel.Writer.WriteSleb128 | src/ducknng_quack_core.c:81-96 | the loop writes exactly the signed value's encoding |
| ByteKernel.Writer.WriteCounted | src/ducknng_quack_core.c:98-102 | writes the length and then the bytes |
| ByteKernel.Reader.constructor | src/ducknng_quack_core.c:110-117 | a reader starts at the front, with no error unless its data are missing and not empty |
| ByteKernel.Reader.Need | src/ducknng_quack_core.c:129-136 | succeeds exactly when that much is unread and no error is pending, and otherwise records the first error |
| ByteKernel.Reader.NextU8 | src/ducknng_quack_core.c:138-143 | delivers the next byte and advances, or leaves an error that sticks |
| ByteKernel.Reader.NextBoolean | src/ducknng_quack_core.c:145-152 | accepts zero and one only |
| ByteKernel.Reader.NextU16le | src/ducknng_quack_core.c:163-167 | reads two bytes, low one first |
| ByteKernel.Reader.NextUleb128 | src/ducknng_quack_core.c:169-186 | the loop delivers the value, rest and error of the reader on values |
| ByteKernel.Reader.NextSleb128 | src/ducknng_quack_core.c:188-210 | the same for signed values |
| ByteKernel.Reader.NextCounted | src/ducknng_quack_core.c:212-227 | delivers a view of the counted bytes, or an error that sticks |
| QuackTypes.AcceptedTypeIsCanonical | src/ducknng_quack.c:1168-1254 | whatever bytes arrive, an accepted type has a legal shape at every level and within the nesting limit |
| QuackTypes.TypeRoundTrip | src/ducknng_quack.c:823-900 | a canonical type can be written, and reading gives the same tree and leaves what follows |
| QuackTypes.SurvivesIffCanonical | src/ducknng_quack.c:804-900 | a type survives the wire if and only if it is canonical |
| QuackTypes.RewritingNormalises | src/ducknng_quack.c:935-1166 | rewriting an accepted type, whatever field order or padding a peer used, gives bytes with the same meaning |
| QuackTypes.EncodingsPrefixFree | src/ducknng_quack.c:823-900 | equal bytes come from equal types with equal continuations |
| QuackSpelling.TypeSpelled | src/ducknng_quack.c:823-900 | the writer's bytes for every canonical type, with type ids, field ids and kinds of type information as numbers |
| QuackSpelling.SpelledRead | src/ducknng_quack.c:1168-1254 | the reader takes exactly those bytes for that type |
| QuackSpelling.CanonicalMeans | src/ducknng_quack_core.c:369-420 | which types survive, by id, parameters and limits as numbers |
| QuackSpelling.PlainRead | src/ducknng_quack.c:1168-1254 | the types without parameters, by id |
| QuackSpelling.DecimalRead | src/ducknng_quack.c:1007-1031 | decimals: information of kind 2, width in field 200 and scale in field 201 |
| QuackSpelling.EnumRead | src/ducknng_quack.c:1119-1152 | enums: kind 6, size in field 200 and labels in field 201 |
| QuackSpelling.ListRead | src/ducknng_quack.c:1032-1073 | lists: kind 4, element type in field 200 |
| QuackSpelling.MapRead | src/ducknng_quack.c:1032-1073 | maps: kind 4, a struct of two in field 200 |
| QuackSpelling.ArrayRead | src/ducknng_quack.c:1090-1118 | arrays: kind 9, element type in field 200 and size in field 201 |
| QuackSpelling.StructRead | src/ducknng_quack.c:1032-1073 | structs: kind 5, counted members in field 200 |
| QuackSpelling.UnionRead | src/ducknng_quack.c:1032-1073 | unions: kind 5, counted members of which the first is the tag |
| QuackRefusals.WrongKind | src/ducknng_quack.c:935-1006 | type information of another kind than the type's is refused, whatever follows |
| QuackRefusals.IdFirst | src/ducknng_quack.c:1168-1254 | a type that does not start with its id is refused |
| QuackRefusals.IdTwice | src/ducknng_quack.c:1168-1254 | a type that gives its id twice is refused |
| QuackRefusals.AliasPassed | src/ducknng_quack.c:935-1006 | an alias in a type's information is passed over |
| QuackRefusals.MarkPassed | src/ducknng_quack.c:935-1006 | an unset extension mark is passed over, and a type an extension defines is refused |
| QuackRefusals.MemberOrders | src/ducknng_quack.c:902-933 | a member may give its type before its name, or no name, which is the empty one |
| QuackRefusals.NameWithZero | src/ducknng_quack.c:276-304 | a name that holds a zero byte is refused |
| QuackTypeReader.ReadIdentifierInto | src/ducknng_quack.c:276-304 | the copying reader delivers the identifier of the codec on values |
| QuackTypeReader.ReadTypeNode | src/ducknng_quack.c:1168-1254 | the field loop of a type agrees with the codec on values, down to the kind of a reader error |
| QuackTypeReader.ReadTypeInfo | src/ducknng_quack.c:935-1166 | the field loop of a type's parameters agrees with it |
| QuackTypeReader.ReadField200Into | src/ducknng_quack.c:1007-1089 | the first parameter field: decimal width, child, members or enum size |
| QuackTypeReader.ReadField201Into | src/ducknng_quack.c:1090-1159 | the second parameter field: decimal scale, array size or enum labels |
| QuackTypeReader.ReadLabelsInto | src/ducknng_quack.c:1119-1152 | the label loop delivers all declared labels or fails |
| QuackTypeReader.ReadMembersInto | src/ducknng_quack.c:1032-1073 | the member loop delivers all declared members or fails |
| QuackTypeReader.ReadChildPair | src/ducknng_quack.c:902-933 | a named child is read whatever the order of its two fields |
| QuackVectors.DecodeSkip | src/ducknng_quack.c:1660-1803 | whatever bytes arrive, where the decoder succeeds on any slice the skipper succeeds too and both stop at the same byte |
| QuackVectors.DecodeSlice | src/ducknng_quack.c:2026-2230 | decoding a slice gives that slice of the whole vector, the same budget and the same end, compressed or not |
| QuackVectors.CopySlice | src/ducknng_quack.c:1906-1958 | picking a slice of a selection picks that slice of the picked rows |
| QuackVectors.SequenceSlice | src/ducknng_quack.c:1960-2020 | a slice of a sequence vector is that slice of its values |
| QuackVectors.ArraySliceIgnoresOffset | src/ducknng_quack.c:2178-2203 | a flat array without nulls decodes its leading rows whatever the offset |
| QuackVectors.VectorRoundTrip | src/ducknng_quack.c:1269-1378 | decoding an encoded vector gives exactly its row values if and only if the values it materialises fit the budget |
| QuackVectors.EncoderTotal | src/ducknng_quack.c:1269-1378 | a type that survives the wire has vectors that can be encoded |
| QuackVectors.ColumnRoundTrip | src/ducknng_quack.c:2026-2230 | type and data written together are read back together, and the skipper stops at their end |
| QuackSpelling.VectorSpelled | src/ducknng_quack.c:1269-1378 | the encoder's bytes for every flat vector, with field ids as numbers and null rows emptied |
| QuackRows.MaskDigit | src/ducknng_quack.c:76-80 | read as a number, a validity mask has the validity of row i at binary digit i |
| QuackRows.StringRow | src/ducknng_quack.c:1269-1378 | row i of a string vector is string i, or null where the mask says so |
| QuackRows.RawRow | src/ducknng_quack.c:1269-1378 | row i of a fixed-width vector is the i-th stretch of its data |
| QuackRows.RecordRow | src/ducknng_quack.c:1269-1378 | row i of a struct vector has row i of every child, in order |
| QuackRows.ListedRow | src/ducknng_quack.c:1269-1378 | row i of a list vector is the stretch of the child its entry names |
| QuackRows.ArrayRow | src/ducknng_quack.c:1269-1378 | row i of an array vector is the i-th stretch of the child |
| QuackRows.RawWidth | src/ducknng_quack_core.c:272-310 | the byte width of every fixed-width type, as a number |
| QuackRows.DictionaryDecodes | src/ducknng_quack.c:1613-1658 | row i of a dictionary vector is row picks[i] of its source; it is refused if and only if a pick does not exist, the source is larger than the selection, the budget is exceeded or the type cannot be built |
| QuackRows.ConstantDecodes | src/ducknng_quack.c:1906-1958 | every row of a constant vector is row 0 of its source, under the same conditions |
| QuackRows.SequenceDecodes | src/ducknng_quack.c:1960-2020 | row i of a sequence vector has the digits of start + increment * i; it is refused if and only if a value leaves the range of the type or the budget is exceeded |
| QuackRows.SequenceRefused | src/ducknng_quack.c:1960-1970 | a sequence vector of any other type is refused |
| QuackRows.BuildableIff | src/ducknng_quack.c:702-797 | a type that survives the wire can be built at a depth if and only if it would survive there |
| QuackRefusals.RefusedByBoth | src/ducknng_quack.c:1660-1803 | what the skipper refuses the decoder refuses on every slice |
| QuackRefusals.FormRefused | src/ducknng_quack.c:1576-1592 | the form of FSST strings and unknown forms are refused |
| QuackRefusals.FlagRefused | src/ducknng_quack.c:1593-1611 | the flag for a mask is 0 or 1, or the vector is refused |
| QuackRefusals.MaskLength | src/ducknng_quack.c:1593-1611 | a mask has whole 64-bit words for the rows, or is refused |
| QuackRefusals.RawLength | src/ducknng_quack.c:1660-1803 | data of another size than width times rows are refused |
| QuackRefusals.StringCount | src/ducknng_quack.c:1660-1803 | another number of strings than rows is refused |
| QuackRefusals.ColumnCount | src/ducknng_quack.c:1660-1803 | another number of columns than members is refused |
| QuackRefusals.EntryCount | src/ducknng_quack.c:1660-1803 | another number of list entries than rows is refused |
| QuackRefusals.EntryRange | src/ducknng_quack.c:1660-1803 | a list entry that reaches past the child is refused |
| QuackRefusals.ArrayCount | src/ducknng_quack.c:1660-1803 | another element count than the type's is refused |
| QuackExpansion.DecodesIff | src/ducknng_quack.c:1660-1803 | the decoder accepts if and only if the skipper does, the values fit the budget, sequences stay in range and compressed types can be built; it then uses exactly that budget and stops where the skipper stops |
| QuackExpansion.ColumnsIff | src/ducknng_quack.c:1848-1900 | the same for the columns of a chunk, under one budget |
| QuackSlices.SliceLawIff | src/ducknng_quack.c:2026-2230 | for the vector decoder alone and for all data, a non-empty slice is decoded right if and only if it starts at row 0 or the type reaches no array through structs and unions |
| QuackSlices.OddFails | src/ducknng_quack.c:2178-2203 | for every other type and slice there is a column the vector decoder would cut wrong, were it called there |
| QuackSlices.ArraySliceCounterexample | src/ducknng_quack.c:2178-2203 | called directly, it decodes row 1 of the column [[7], [9]] to [7] |
| QuackChunks.ChunkSliceExact | src/ducknng_quack.c:2912-2970 | for every schema, offset and data, a slice past the rows is stepped over, one from inside a nested schema is refused, and every other one is exactly the rows from there on of every column |
| QuackChunks.ScanServes | src/ducknng_quack.c:3046-3105 | a scan at any offset steps over whole chunks and delivers the rest of the one it lands in, refuses to resume inside a nested one, and at the end finds the end or the chunk that does not decode |
| QuackChecked.SchemaIff | src/ducknng_quack.c:2481-2532 | a schema is read if and only if it is laid out with these fields, equal counts and at most 65536 columns |
| QuackChecked.OptionalTypesIff | src/ducknng_quack.c:1805-1834 | a chunk's type list is passed if and only if it is absent or is exactly the schema's types, and reading goes on after it |
| QuackChecked.ElementIff | src/ducknng_quack.c:1836-1874 | a list element passes if and only if it has these markers, counts, types and columns; only the last needs both end markers |
| QuackChecked.ListIff | src/ducknng_quack.c:2553-2600 | a list passes if and only if all elements do, none has more rows than the limit and the rows can be counted in 64 bits |
| QuackChecked.CheckedTypesMatch | src/ducknng_quack.c:2553-2600 | in a payload that passes, every chunk with a type list lists the schema's types |
| QuackChecked.NestedMeans | src/ducknng_quack.c:2234-2241 | which columns make a chunk one that cannot be resumed inside, by type id |
| PayloadSpelling.PayloadSpelled | src/ducknng_quack.c:1435-1489 | the encoder's bytes for every payload, with field ids as numbers |
| PayloadSpelling.CheckedToTheEnd | src/ducknng_quack.c:2553-2600 | a results section passes if and only if it ends in the end marker and nothing else |
| QuackPayload.SchemaSkipped | src/ducknng_quack.c:549-571 | stepping over a schema ends where reading it ends |
| QuackPayload.CheckResults | src/ducknng_quack.c:2553-2600 | the checking loop gives the row count of a payload that is well formed to its last byte |
| QuackPayload.ValidatedTotals | src/ducknng_quack.c:2553-2600 | that count is the rows of the chunks if all decode, and more than the rows in front of the first that does not |
| QuackPayload.PayloadScan | src/ducknng_quack.c:3046-3105 | one call of the scan, restarting from the front |
| QuackPayload.NothingToScan | src/ducknng_quack.c:3046-3105 | a payload without results has nothing to scan, at any offset |
| QuackPayload.OneScan | src/ducknng_quack.c:3046-3105 | between two chunks a call delivers the next one with rows, whole, or finds the end |
| QuackPayload.ReadTable | src/ducknng_sql_body.c:2149-2160 | repeated calls deliver every chunk with rows once, whole and in order, and succeed if and only if every chunk decodes |
| QuackPayload.NonEmptyHasAllRows | src/ducknng_quack.c:3046-3105 | leaving out the chunks without rows leaves out no row |
| QuackAppend.AppendToAppender | src/ducknng_quack.c:2746-2857 | the append loop: what the appender holds of the batch, and what is counted, which is nothing when it is refused |
| QuackAppend.AppendExact | src/ducknng_quack.c:2746-2857 | a batch that passes the checks is appended, with the checked row count, if and only if every chunk decodes and is taken; otherwise exactly the chunks in front stay behind |
| QuackAppend.RefusalLeaves | src/ducknng_quack.c:2824-2836 | a refused batch leaves rows if and only if it passed the checks and its first chunk with rows decodes and was taken |
| QuackAppend.ChunkDecodesIff | src/ducknng_quack.c:2912-2970 | a chunk decodes if and only if it can be stepped over, has at most 2048 rows, and has none or fits the budget and is faithful |
| QuackAppend.PreflightIff | src/ducknng_quack.c:2771-2823 | a batch passes the checks if and only if it has exactly the target's columns, at least one, and results of at most 2048 rows a chunk |
| QuackAppend.SchemaCanonical | src/ducknng_quack.c:2481-2532 | the types of a schema that was read survive the wire and can be built |
| QuackTransfer.EncodedSkips | src/ducknng_quack.c:1269-1378 | an encoded vector can be stepped over, however far it expands |
| QuackTransfer.BatchRead | src/ducknng_quack.c:1380-1433 | an encoded chunk can be stepped over, and decodes to its values if and only if it has no rows or fits the budget |
| QuackTransfer.PayloadArrives | src/ducknng_quack.c:1435-1489 | an encoded payload gives its schema and row count back, and exactly the chunks up to the first one past the budget |
| QuackTransfer.UploadArrives | src/ducknng_quack.c:2746-2857 | appended to a table of the same columns, it arrives whole if and only if every chunk fits the budget and is taken; otherwise the chunks in front stay |
| QuackTransfer.HalfAppended | src/ducknng_quack.c:2824-2836 | a payload of two rows that passes the check and is refused with one of them in the appender |
| QuackVectors.MaskCoversRows | src/ducknng_quack_core.c:241-249 | a mask of that size has a bit for every row |
| WireFrame.Sendable | src/ducknng_wire_core.c:47-74 | the readable form of what frame validation accepts |
| FrameSpelling.SentIff | src/ducknng_wire_core.c:47-74 | kinds 0, 1, 2 and 4 are sent if and only if without status and error text, kind 3 if and only if with a status of 1 to 10 and a text, and no other kind |
| FrameSpelling.MessageSpelled | src/ducknng_wire_core.c:84-106 | the bytes of a message: version, kind, flags, status, three lengths and three texts at their places |
| FrameSpelling.SpelledDecodes | src/ducknng_wire_core.c:137-180 | what any such bytes mean to the decoder, refusals included |
| FrameSpelling.OtherVersions | src/ducknng_wire_core.c:137-145 | another version, or less than a header, means nothing |
| WireFrame.FrameRoundTrip | src/ducknng_wire_core.c:137-180 | a frame the encoder accepts decodes to its own content |
| WireFrame.AcceptedBytes | src/ducknng_wire_core.c:137-180 | accepted bytes are the one message with that content, apart from a zero status byte on an error frame |
| WireFrame.DecodeInjective | src/ducknng_wire_core.c:137-180 | distinct messages never mean the same frame |
| WireFrame.PrefixFree | src/ducknng_wire_core.c:137-180 | no proper prefix or extension of an accepted message is accepted |
| WireFrame.Write32OfRead | src/ducknng_wire_core.c:25-40 | writing what was read gives the same four bytes |
| WireFrame.Read32AtWrite | src/ducknng_wire_core.c:25-40 | reading what was written gives the same number, wherever it stands |
| WireFrame.PrefixThenPayload | src/ducknng_wire_core.c:84-120 | encoding the prefix and sending the payload after it is encoding the whole frame |
| WireFrame.WritePrefix | src/ducknng_wire_core.c:84-106 | writes header, name and error in place and nothing past them |
| WireFrame.EncodeFramePrefix | src/ducknng_wire_core.c:108-120 | reports the exact size, writes only when it fits, and touches nothing on failure |
| WireFrame.EncodeFrameBytes | src/ducknng_wire_core.c:122-135 | the same for the whole frame; an invalid one reports size zero |
| RClient.U32Carried | README.Rmd:1390-1397 | a 32-bit value is read back if and only if it is at most 2^31 |
| RClient.U64Carried | README.Rmd:1391-1398 | a 64-bit value is read back if and only if both its halves are at most 2^31 |
| RClient.U64NotAlwaysCarried | README.Rmd:1391-1398 | a length of three gibibytes is announced as two |
| RClient.SlicesCover | README.Rmd:1421-1432 | in a buffer whose lengths match, error and payload are the stretches after the name; the name is its own stretch, and the three cover everything after the header, if and only if it is not empty |
| RClient.DecodeLaidOut | README.Rmd:1418-1432 | a laid-out buffer is decoded faithfully if and only if its name is not empty or is followed by nothing or a NUL |
| RClient.ZerosInReply | README.Rmd:1418-1432 | a reply with a name cannot be read if and only if name or error text has a zero byte with something after it; at their ends they are cut off |
| RClient.CallRoundTrip | README.Rmd:1407-1432 | the client reads its own call back if and only if its lengths are carried and its name is readable |
| RClient.EmptyNameMisread | README.Rmd:1418-1432 | an empty name is read back as the first payload byte |
| RClient.CallsPrefixFree | README.Rmd:1407-1412 | streams with equal bytes start with the same call and continue alike |
| RClient.PrefixFreeCalls | README.Rmd:1407-1412 | a call frame that is a prefix of another is that other one |
| RClient.StreamSplits | README.Rmd:1407-1412 | any concatenation of call frames splits in one way only |
| RClient.ServerReadsCall | README.Rmd:1407-1412 | the server accepts a client's call, with the fields it meant, if and only if name, flags and payload length are within limits |
| RClient.ClientReadsReply | README.Rmd:1418-1432 | the client recovers any reply the server can send without NULs in name and error if and only if its name is readable |
| Sessions.StepKeeps | src/ducknng_session.c:304-536 | every critical section of every thread keeps the invariant: each live session in exactly one place, counts exact, connections unshared, uploads decided at most once |
| Sessions.AddKeeps | src/ducknng_session.c:544-693 | adding a session with its connection and open transaction keeps it |
| Sessions.AcquireKeeps | src/ducknng_session.c:435-455 | taking a reference keeps it |
| Sessions.ReleaseKeeps | src/ducknng_session.c:304-312 | giving a reference back keeps it |
| Sessions.DetachKeeps | src/ducknng_session.c:86-97 | detaching one session keeps it |
| Sessions.DetachAllKeeps | src/ducknng_session.c:479-508 | detaching all sessions keeps it |
| Sessions.DestroyKeeps | src/ducknng_session.c:223-302 | destroying a session without users keeps it |
| Sessions.CommitKeeps | src/ducknng_methods.c:1840-1912 | an upload commit, failed or not, keeps it |
| Sessions.AppendKeeps | src/ducknng_methods.c:1769-1789 | an append keeps it: accepted, refused for a closed appender, or refused halfway with rows left in the open one |
| Sessions.RunKeeps | src/ducknng_session.c:304-536 | every state of every run has the invariant |
| SessionAccess.AcquireIff | src/ducknng_session.c:435-455 | a thread gets hold of a session if and only if it is in the table and the request shows its token and, if it has an owner, comes from that owner; otherwise nothing changes |
| SessionAccess.RemoveIff | src/ducknng_session.c:457-477 | the same for ending it, which alone gives the right to commit |
| SessionAccess.PruneIff | src/ducknng_session.c:510-536 | the pruner takes a session if and only if no thread uses it |
| SessionAccess.AddIff | src/ducknng_session.c:569-691 | a session is let in if and only if the service is not stopping and no limit is reached, with the credentials of the request |
| SessionAccess.CommitMeans | src/ducknng_methods.c:1840-1912 | an open upload is committed if and only if it was flushed and COMMIT succeeded, rolled back at once if and only if COMMIT failed, and otherwise left to the destroy |
| SessionAccess.UserWasEntitled | src/ducknng_session.c:73-84 | in every run, a thread that uses a session acquired it with the token it was opened with and, if it was opened for an owner, as that owner |
| SessionAccess.CommitWasEntitled | src/ducknng_session.c:73-84 | in every run, a committed upload was removed by such a request |
| SessionRuns.UsedIsLive | src/ducknng_session.c:223-232 | a session some thread uses has not been freed and counts that thread |
| SessionRuns.OwnedIsDetached | src/ducknng_session.c:86-97 | a session to be destroyed is live, closing and out of the table, and exactly one thread is to destroy it |
| SessionRuns.ConnectionsNotShared | src/ducknng_service.c:141-191 | no two sessions or opening threads share a pool connection, and none is busy for nobody |
| SessionRuns.FreedForGood | src/ducknng_session.c:685-686 | a freed id is never live again |
| SessionRuns.UploadOutcomeIsFinal | src/ducknng_session.c:246-266 | a freed upload was committed or rolled back, not both, and stays so |
| SessionRuns.OnlyCommitCommits | src/ducknng_methods.c:1840-1912 | only a flushed and successful commit by the thread that removed the session makes rows durable, all that the appender holds, and it reports those counted |
| SessionRuns.RunWithin | src/ducknng_session.c:569-591 | with limits that are not changed no run exceeds them, in all or for one identity |
| SessionRuns.SetLimitsHold | src/ducknng_session.c:569-591 | limits that are set and then left alone are kept, if they were not exceeded when set |
| SessionRuns.StepWithin | src/ducknng_session.c:569-591 | no step other than a change of the limits exceeds them |
| SessionRuns.DetachedOnlyDrainsRun | src/ducknng_session.c:17-27 | nobody gets hold of a detached session again, and its users only get fewer |
| SessionRuns.PruneNeverWaits | src/ducknng_session.c:510-536 | the pruner never waits to destroy what it detached |
| SessionRuns.StopAdmitsNobody | src/ducknng_service.c:3844-3901 | once a stop has begun no session is let in, however long the threads go on |
| SessionRuns.StoppedStaysEmpty | src/ducknng_service.c:3844-3901 | after a stop has emptied the table nothing enters it again |
| SessionRuns.Drains | src/ducknng_session.c:223-232 | no deadlock: users releasing and owners destroying bring every detached session to its end |
| SessionRuns.StopFreesEverything | src/ducknng_service.c:3844-3901 | a stop can always finish, with every session freed, every upload decided and every connection returned |
| UploadRuns.DurableIsReportedIff | src/ducknng_methods.c:1776-1786 | over every run, a commit saves more rows than it reports by exactly what refused batches left in the open appender, so the report is right if and only if none left any |
| UploadRuns.RunUncounted | src/ducknng_methods.c:1776-1786 | the same from any state with the invariant |
| UploadReports.ReportIsRightIff | src/ducknng_methods.c:1776-1786 | in terms of the payloads: the report is right if and only if no batch sent to the upload was refused after its first chunk with rows had decoded and been taken |
| UploadReports.UnreportedRow | src/ducknng_methods.c:1776-1786 | a run whose append is refused and whose commit reports no row and saves one |
| SessionTable.TokenEqual | src/ducknng_session.c:57-71 | the accumulating comparison answers equality of C strings, although it keeps only the low byte of the length difference |
| SessionTable.Table.constructor | src/ducknng_session.c:602-604 | a table starts empty |
| SessionTable.Table.Find | src/ducknng_session.c:441-450 | the first slot with the id, or the count |
| SessionTable.Table.Detach | src/ducknng_session.c:86-97 | the in-place shift removes exactly that session and clears the last slot |
| SessionTable.Table.Append | src/ducknng_session.c:602-687 | adds at the end and grows by doubling from four, keeping all sessions |
| SessionTable.Table.Grow | src/ducknng_session.c:602-617 | the larger array holds the same sessions |
| SessionTable.Table.Remove | src/ducknng_session.c:457-477 | finding and shifting is the removal the state machine makes |
| SessionTable.Table.CountOwned | src/ducknng_session.c:579-586 | the counting loop is the count the state machine checks |
| RateWindow.Opens.constructor | src/ducknng_service.c:3630-3642 | a record starts empty |
| RateWindow.Opens.Expire | src/ducknng_service.c:3643-3652 | compaction in place keeps, in order, exactly the opens that still count |
| RateWindow.Opens.CheckAndRecord | src/ducknng_service.c:3630-3672 | refuses at the limit, otherwise remembers the open, growing the record when full |
| RateWindow.RecordIsKept | src/ducknng_service.c:3643-3652 | on any clock, the record is the accepted opens that every later call found counting |
| RateWindow.AcceptedIff | src/ducknng_service.c:3643-3657 | on any clock, an open is accepted if and only if fewer than the limit count at it and counted at every call since they were made |
| RateWindow.CountsRightIff | src/ducknng_service.c:3643-3657 | the true number of current opens is compared with the limit, at every call and under every limit, if and only if no expired open counts again later |
| RateWindow.RightWithoutRelapse | src/ducknng_service.c:3643-3657 | so it is on runs where none does |
| RateWindow.ClockSetBack | src/ducknng_util.c:82-91 | a run on a clock that is set back accepts three opens within half a second under a limit of two |
| RateWindow.ExactlyASecond | src/ducknng_service.c:3643-3657 | under a limit of one the next open is refused up to 999 milliseconds later and accepted from 1000 on |
| RateWindow.OrderedNeverRelapses | src/ducknng_util.c:82-91 | on a clock that does not go back no expired open counts again |
| RateWindow.NeverOverLimit | src/ducknng_service.c:3630-3672 | over every run on such a clock, limit + 1 consecutive opens span at least a second |
| Splice.MarkersApart | scripts/generate_wasm_matrix.py:19-20 | occurrences of the two markers never overlap |
| Splice.MatrixDistinctive | scripts/generate_wasm_matrix.py:19-20 | the script's markers have what the splice theorems need |
| Splice.SplicedMarkers | scripts/generate_wasm_matrix.py:64-70 | where the first markers of a spliced text stand |
| Splice.RegionReplaced | scripts/generate_wasm_matrix.py:70 | text outside the region is kept, and the region reads back as the table if and only if the table has no closing marker |
| Splice.LastRunWins | scripts/generate_wasm_matrix.py:62-76 | a later run erases an earlier one if and only if the earlier table had no closing marker |
| Splice.SecondRunIsCurrent | scripts/generate_wasm_matrix.py:71-75 | a second identical run changes nothing under the same condition |
| Splice.RenderTable | scripts/generate_wasm_matrix.py:45-59 | the loop renders header and rows in order |
| Splice.TableHasNoMarker | scripts/generate_wasm_matrix.py:50-59 | rows whose cells hold no '<' make a table without the closing marker |
| Splice.Run | scripts/generate_wasm_matrix.py:62-76 | what one run reports and writes, the error cases included |
| Splice.RerunIsCurrent | scripts/generate_wasm_matrix.py:62-76 | running the script on its own output reports it as current, with exactly the table between the markers |
| Splice.CellBreaksRerun | scripts/generate_wasm_matrix.py:62-76 | on any text, a table with the closing marker in a cell is not found current by a rerun |
| Splice.RerunCounterexample | scripts/generate_wasm_matrix.py:62-76 | the smallest document and one row show it |
| Metadata.LoadRootDescription | function_catalog/generate_function_catalog.py:31-79 | the loop over mutable lists gives what the parser on values gives, no two keys share a list, and failures agree |
| Metadata.AppendLine | function_catalog/generate_function_catalog.py:44-51 | an indented line appends to the open list and changes that entry only |
| Metadata.PairLine | function_catalog/generate_function_catalog.py:53-70 | a key line replaces one entry and opens the very list it stored |
| Metadata.NoiseIgnored | function_catalog/generate_function_catalog.py:39-42 | files with the same significant lines give the same metadata or fail alike |
| Metadata.InsertNoise | function_catalog/generate_function_catalog.py:39-42 | blank lines and comments inserted anywhere, inside lists too, change nothing |
| MetadataLines.NoiseMeans | function_catalog/generate_function_catalog.py:39-42 | the lines passed over are the blank ones and those whose first other character is a number sign |
| MetadataLines.AcceptedIff | function_catalog/generate_function_catalog.py:39-79 | a file is accepted if and only if every unindented line has a key and a colon, every indented one is an item of an open list, and the last version and description lines have values |
| Metadata.AcceptedIsGood | function_catalog/generate_function_catalog.py:53-79 | accepted metadata has trimmed colon-free keys, trimmed non-empty values and both required fields |
| Metadata.ParseUndoesPrint | function_catalog/generate_function_catalog.py:31-79 | good metadata printed in any key order parses back to itself, colons in values included |
| Metadata.RewritingKeepsMetadata | function_catalog/generate_function_catalog.py:31-79 | a file rewritten from its own metadata keeps every field |
| Manifest.CheckFunctions | function_catalog/generate_function_catalog.py:127-150 | no complaint if and only if entries are complete and names distinct; a complaint explains the first entry that breaks this |
| MarkdownTable.EscapeMdIsEscapeCell | function_catalog/generate_function_catalog.py:27-28 | the two replacements act on each character on its own |
| MarkdownTable.UnescapeRecovers | function_catalog/generate_function_catalog.py:27-28 | escaping loses nothing but line breaks |
| MarkdownTable.ArgumentsBetween | function_catalog/generate_function_catalog.py:153-158 | the arguments are what stands between the first opening and the last closing parenthesis |
| MarkdownTable.ArgumentsFrom | function_catalog/generate_function_catalog.py:153-158 | arguments that are not empty come from such a signature |
| MarkdownTable.RowReadsBack | function_catalog/generate_function_catalog.py:176-187 | every row has six unescaped pipes and no line break, and splitting at them gives its five cells |
| YamlScalar.TwoReplacesAreOne | function_catalog/generate_function_catalog.py:213-215 | the two replacements equal one escape per character |
| YamlScalar.QuoteScans | function_catalog/generate_function_catalog.py:213-215 | a double-quoted scalar scanner stops at the final quote with the value if and only if the value is printable |
| YamlScalar.QuotesPrefixFree | function_catalog/generate_function_catalog.py:213-215 | quoting is injective, also in front of other text |
| YamlScalar.LineBreakNotScanned | function_catalog/generate_function_catalog.py:213-215 | a name with a line break is not read back |
| Catalog.GroupByCategory | function_catalog/generate_function_catalog.py:162-164 | the loop over an ordered dictionary is the stable partition by category, in first-occurrence order |
| Catalog.GroupingKeepsEntries | function_catalog/generate_function_catalog.py:162-164 | no entry is lost or duplicated |
| Catalog.GroupingUndoesFlatten | function_catalog/generate_function_catalog.py:162-164 | grouping is the inverse of flattening on well-formed groups |
| Catalog.Regrouping | function_catalog/generate_function_catalog.py:162-164 | grouping a catalog in group order changes nothing |
| Catalog.RenderMarkdown | function_catalog/generate_function_catalog.py:161-189 | the text: one section per group and one row per entry, in group order, joined by line breaks |
| Catalog.AppendSection | function_catalog/generate_function_catalog.py:171-188 | one section with all its rows |
| Catalog.BuildExtendedDescription | function_catalog/generate_function_catalog.py:218-242 | the same groups in the same order as the Markdown |
| CatalogText.MarkdownReadsBack | function_catalog/generate_function_catalog.py:161-189 | a reader of the text finds the categories in first-occurrence order, each with one row per function in order, if and only if no category holds a line break |
| CatalogText.DescriptionReadsBack | function_catalog/generate_function_catalog.py:218-270 | a reader of the indented description finds the same categories with one line per function if and only if no category, signature or description holds a line break |
| CatalogText.LookalikeText | function_catalog/generate_function_catalog.py:218-270 | one function whose description holds line breaks gives the same text as two functions in two categories |
| Strings.SplitUndoesJoin | function_catalog/generate_function_catalog.py:189 | splitting the joined lines gives them back if and only if none holds the separator |
| Catalog.AppendListing | function_catalog/generate_function_catalog.py:232-236 | one category with all its functions |

## Left out

- QuackSlices.SliceLawIff: is about direct calls of the vector decoder, which no caller makes from inside an array column, and is stated for types whose plainest columns fit the materialisation budget; past it there may be no decodable data to disagree on.
- QuackSlices.OddFails: does not claim that a caller gets a wrong slice; the guard of the chunk decoder refuses these slices first.
- QuackSlices.ArraySliceCounterexample: is such a direct call too.
- QuackAppend.AppendToAppender: the appender is a number of chunks it takes before it reports an error, and column types are compared as type trees.
- WireFrame.AcceptedBytes: an error frame with a zero status byte decodes to a status no encoder writes, so it is the one message that is not re-encodable.
- RateWindow.NeverOverLimit: does not promise anything on a clock that is set back; it is stated for a clock in order and below the 64-bit wrap, and for a limit that stays the same.
- SessionRuns.RunWithin: a limit lowered below the current number of sessions evicts nobody, so steps that change limits are excluded.
- The vector codec, the chunk and schema readers and the writers above the byte kernel are modelled on values (output bytes, unread bytes) and not as reader and writer calls; the byte kernel, the type reader and the loops over chunks are imperative.
- `duckdb_vector_size()` is taken to be 2048, its value in DuckDB's default build.
- `ducknng_quack_payload_read_row_count`, which only tests call; the check of the bind and append paths is modelled.
- `Destroy` is one step once its wait is over, and taking a connection does not model the pool's growth, its time-out or the connection reset.
- `ducknng_service_add_session`, which nothing calls; the registrar for streaming and upload sessions is the one modelled.
- Session ids and upload row counts are unbounded numbers; the source counts in 64 bits.
- Out-of-memory paths, and the choice among several simultaneous format errors of one vector.
- 32-bit `size_t`: `SIZE_MAX` is taken to be the 64-bit one.
- Doubles past 2^53 in the R client, and the Arrow payloads it carries.
- The query side of sessions (pending results, batches, fetch, cancel), idle times and tokens' randomness.
- HTTP routes, TLS, pipe monitors, asynchronous handles, authorisation callbacks and conversions to and from DuckDB vectors: they call into libraries that are not part of this model, or would only add easy members.
- Hexadecimal escapes in the YAML scanner, which quoting never produces, and the descriptor template.
- `str.splitlines`: the metadata parser and the paragraphs of the extended description start from lines.
- The TSV file, git lookups, file access, scripts/check_news.py and the capability query behind the transport matrix.
