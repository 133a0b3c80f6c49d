# GiNaC core: archives, expression handles, matrices, nested-sum parameters

A Dafny model of four sequential parts of the GiNaC computer-algebra
library, with proofs of what each part promises.

- **Archives** (`ginac/archive.cpp`). The model covers:
  - the varint integer codec `write_unsigned` / `read_unsigned` (modules `Varint`; the scheme is that of unsigned LEB128, section 7.6 of the DWARF version 4 standard);
  - the binary layout that `operator<<` writes and `operator>>` reads (module `ArchiveFormat`): signature `GARC`, version, atom table, named roots, and node properties whose tag and name share one word;
  - the archive container (module `Archives`, class `Archive`): the atom table of `atomize` / `unatomize`, the node table of `add_node`, which shares nodes that hold one expression, the named roots of `archive_ex` / `unarchive_ex`, the property lookups `add_*` / `find_*` of a node, and the cache of unarchived expressions that `unarchive` fills and `forget` clears.
- **Expression handles** (`ginac/ex.h`, module `ExHandles`). The handle `ex` holds a node of an arena. The arena maps each live node to its reference count. Construction, copy, destruction and assignment adjust the counts, and a node leaves the arena when its count reaches zero. The invariant kept is that every count equals the number of handles on its node. `compare` / `is_equal` / `is_zero` take the node order as a parameter.
- **Matrices** (`ginac/matrix.cpp`, modules `MatrixSpec`, `Matrices`, `Permutations`). The model covers:
  - the row-major matrix class with bounds-checked access and update, transpose, and shape-checked add, sub and mul;
  - the trace, and the square check of `determinant` / `charpoly` / `inverse`;
  - the comparison `compare_same_type` and in-place partial pivoting;
  - `permutation_sign`, the exchange sort that computes the sign of a permutation.

  Entries are integers.
- **Nested-sum parameters** (`ginac/inifcns_nstdsums.cpp`, modules `NestedSums`, `HarmonicParams`, `Convolutions`). The model covers:
  - the expansion and compaction of harmonic-polylogarithm (`H`) parameters into multiple-polylogarithm (`Li`) indices and signs, and the way back;
  - the parameter lists of the shuffle with a one-element `H`;
  - the parameter rewrite of the derivative of `H`;
  - the empty-list case of `H_eval`;
  - the truncated Cauchy product `halfcyclic_convolute`.

Methods that change state (the archive and matrix classes, the handle
constructors and assignment, the loops of the parameter conversions) are
proved against specification functions on sequences. Lemmas then prove
what the source promises about those functions: round trips, idempotence,
invariants, uniqueness and the error cases.

## Model

| member | source | states |
|---|---|---|
| Varint.WriteUnsigned | ginac/archive.cpp:170-177 | the loop appends exactly `Encode(val)` to the stream |
| Varint.Encode | ginac/archive.cpp:170-177 | the encoding of every value has at least one byte |
| Varint.ReadUnsigned | ginac/archive.cpp:180-193 | the do-while loop computes `Decode(s, pos)`, the value and the position after the last byte |
| Varint.DecodeAt | ginac/archive.cpp:180-193 | a successful read ends just after a byte without the continuation bit, inside the input; the only failure is the end of the input |
| Varint.Decode | ginac/archive.cpp:180-193 | a successful read consumes at least one byte and stays inside the input |
| Varint.RoundTrip | ginac/archive.cpp:170-193 | reading what `write_unsigned` wrote gives back the value and stops right after its bytes, whatever surrounds them |
| Varint.DecodeEncodeAt | ginac/archive.cpp:180-193 | reading an encoding after `acc` has been accumulated below bit `shift` adds the value shifted by `shift` |
| Varint.DecodeEncodeLong | ginac/archive.cpp:180-193 | the same for a value of more than one 7-bit group |
| Varint.FirstGroup | ginac/archive.cpp:172-175 | the first byte of a multi-group encoding adds the low group, and the encoding of `val >> 7` follows it |
| Varint.EncodeContinuationBits | ginac/archive.cpp:170-177 | every byte but the last has bit 0x80 set and the last has it clear; a value below 0x80 is the single byte equal to itself |
| Varint.EncodeLength | ginac/archive.cpp:170-177 | a value below 128^k takes at most k bytes |
| Varint.EncodeAtMostFiveBytes | ginac/archive.cpp:170-177 | a 32-bit value takes at most five bytes |
| Varint.FormatExamples | ginac/archive.cpp:152-166 | the worked examples of the format description: 0x7f is `7f`, 0x80 is `80 01`, 0x3fff is `ff 7f`, 0x4000 is `80 80 01`, and the others listed |
| Varint.DecodeExamples | ginac/archive.cpp:152-166 | reading the examples' byte strings gives back their values |
| ArchiveFormat.U32 | ginac/archive.cpp:219-234 | a size stored in `unsigned int` is the size itself whenever it is below 2^32, and never more |
| ArchiveFormat.PackWord | ginac/archive.cpp:202 | the word `type \| (name << 3)` has the tag in its low three bits and the name, cut to its low 29 bits by the 32-bit shift, above them |
| ArchiveFormat.UnpackName | ginac/archive.cpp:249 | `w >> 3` is below 2^29 and is the word with its low three bits dropped |
| ArchiveFormat.UnpackType | ginac/archive.cpp:248 | `w & 7` together with `w >> 3` recomposes the word |
| ArchiveFormat.EncodeProps | ginac/archive.cpp:201-204 | each property takes at least two bytes, its word and its value |
| ArchiveFormat.EncodeNode | ginac/archive.cpp:196-206 | a node is its property count, then at least two bytes for each of the counted properties |
| ArchiveFormat.EncodeBody | ginac/archive.cpp:218-236 | the three tables each start with a count, so the body has at least three bytes |
| ArchiveFormat.EncodeArchive | ginac/archive.cpp:209-238 | the archive starts with the signature `GARC`, followed by at least the version and the three counts |
| ArchiveFormat.VersionSupported | ginac/archive.cpp:264 | the current version is always read, a newer one never, and with age 0 only the current one |
| ArchiveFormat.DecodeHeader | ginac/archive.cpp:259-265 | input without the signature is a runtime error; a header read ends past the signature and inside the input |
| ArchiveFormat.DecodeBody | ginac/archive.cpp:267-286 | input with fewer than three bytes left for the three counts is an error |
| ArchiveFormat.DecodeArchive | ginac/archive.cpp:256-288 | input without the signature is a runtime error; an archive read starts with the signature and has at least a version and three counts |
| ArchiveFormat.PropertyWordRoundTrip | ginac/archive.cpp:247-249 | unpacking the word `type \| (name << 3)` as `w & 7` and `w >> 3` gives back the tag, and the name reduced modulo 2^29, which is the name exactly when it is below 2^29 |
| ArchiveFormat.DecodeProps | ginac/archive.cpp:244-251 | reading `count` properties yields exactly `count` of them and moves forward inside the input |
| ArchiveFormat.DecodeNode | ginac/archive.cpp:241-253 | reading a node consumes at least its property count |
| ArchiveFormat.DecodeNodes | ginac/archive.cpp:283-286 | reading `count` nodes yields `count` property lists |
| ArchiveFormat.DecodeString | ginac/archive.cpp:271 | `getline(is, atom, '\0')` yields a string without zero bytes and consumes the terminator |
| ArchiveFormat.DecodeAtoms | ginac/archive.cpp:268-271 | reading `count` atoms yields exactly `count` strings |
| ArchiveFormat.DecodeExprs | ginac/archive.cpp:274-280 | reading `count` roots yields exactly `count` (name, root) pairs |
| ArchiveFormat.PropsOf | ginac/archive.cpp:283-286 | the properties of each node, in order |
| ArchiveFormat.DecodeStringRoundTrip | ginac/archive.cpp:221-222 | an atom written with its terminating zero reads back and the read stops after the terminator |
| ArchiveFormat.Cut | ginac/archive.cpp:209-238 | the pieces the writer emits one after the other lie at consecutive positions |
| ArchiveFormat.ReadOne | ginac/archive.cpp:170-193 | one number written at a position reads back there |
| ArchiveFormat.ReadTwo | ginac/archive.cpp:227-230 | two numbers written in turn read back in turn |
| ArchiveFormat.DecodeAtomsRoundTrip | ginac/archive.cpp:219-222 | the atom table written reads back exactly, ending where it was written to end |
| ArchiveFormat.AtomsHead | ginac/archive.cpp:221-222 | the first atom of a nonempty table reads back, and the rest of the table follows it |
| ArchiveFormat.DecodeAtomsStep | ginac/archive.cpp:270-271 | reading one atom and then the rest reads the longer table |
| ArchiveFormat.DecodeExprsStep | ginac/archive.cpp:276-280 | reading one root and then the rest reads the longer list |
| ArchiveFormat.DecodeExprsRoundTrip | ginac/archive.cpp:225-230 | the named roots written read back exactly |
| ArchiveFormat.ExprsHead | ginac/archive.cpp:228-229 | the first root's name and node id read back, and the rest of the list follows |
| ArchiveFormat.DecodePropsStep | ginac/archive.cpp:246-250 | reading one property and then the rest reads the longer list |
| ArchiveFormat.DecodePropsRoundTrip | ginac/archive.cpp:196-206 | properties with names below 2^29 read back exactly |
| ArchiveFormat.PropsHead | ginac/archive.cpp:202-203 | the first property's word and value read back, and the rest follows |
| ArchiveFormat.DecodeNodeRoundTrip | ginac/archive.cpp:196-206 | a written node reads back with all its properties |
| ArchiveFormat.DecodeNodesRoundTrip | ginac/archive.cpp:233-236 | the written node table reads back as the properties of every node |
| ArchiveFormat.BodyLayout | ginac/archive.cpp:219-236 | where the counts and tables of the written archive lie |
| ArchiveFormat.CutSix | ginac/archive.cpp:219-236 | six consecutive pieces lie at consecutive positions |
| ArchiveFormat.DecodeBodyRoundTrip | ginac/archive.cpp:267-286 | the three table sections read back as written |
| ArchiveFormat.HeaderLayout | ginac/archive.cpp:212-216 | the signature comes first and the version right after it |
| ArchiveFormat.ArchiveRoundTrip | ginac/archive.cpp:209-288 | reading what the writer wrote, with a version the reader supports, gives back the atoms, the named roots and every node's properties |
| ArchiveFormat.HeaderRejects | ginac/archive.cpp:263-265 | an unsupported version is a runtime error before any atom is read, whatever follows |
| ArchiveFormat.SignatureRequired | ginac/archive.cpp:259-262 | input that does not start with `GARC` is a runtime error |
| Archives.IndexOf | ginac/archive.cpp:295-301 | the linear search finds the first occurrence, or the length exactly when the string is absent |
| Archives.Intern | ginac/archive.cpp:293-307 | the id points at `s` and at its first occurrence; the table is unchanged when `s` was present, and `s` is appended at the old size otherwise |
| Archives.Unatom | ginac/archive.cpp:310-316 | the atom is returned exactly when the id is inside the table; otherwise a range error |
| Archives.InternIdempotent | ginac/archive.cpp:293-307 | atomizing the same string twice gives the same id and table as atomizing it once |
| Archives.UnatomizeAtomize | ginac/archive.cpp:293-316 | `unatomize(atomize(s)) == s` while the table has fewer than 2^32 - 1 atoms |
| Archives.SameEx | ginac/archive.cpp:350-355 | two nodes share an expression only when both hold one and it is the same; a node without one shares with none |
| Archives.FirstSame | ginac/archive.cpp:350-355 | the first node that holds the same expression, or the length; every node before it does not |
| Archives.AddedNode | ginac/archive.cpp:50-64 | a shared node returns its id and leaves the table unchanged; otherwise the node is appended at the old length; no earlier node holds the expression |
| Archives.AddNodeShares | ginac/archive.cpp:50-64 | adding a node that holds an expression a second time returns the same id and changes nothing |
| Archives.AddNodeWithoutExpression | ginac/archive.cpp:350-355 | a node without an expression is never shared and is always appended |
| Archives.Nth | ginac/archive.cpp:423-441 | the `index`-th match can exist only when the node has more than `index` properties |
| Archives.NthFound | ginac/archive.cpp:423-441 | a value found belongs to a property of the requested name and type |
| Archives.NthStep | ginac/archive.cpp:428-435 | one step of the search loop: the property at the cursor matches, or the search goes on from the next one |
| Archives.Values | ginac/archive.cpp:381-457 | the values of the properties of one name and type, in order |
| Archives.NthIsValue | ginac/archive.cpp:423-441 | the lookup yields the `index`-th matching property's value, and nothing when fewer match |
| Archives.ValuesAppend | ginac/archive.cpp:358-378 | an added property becomes the last match of its name and type |
| Archives.FirstRoot | ginac/archive.cpp:81-88 | the first named root with that name, or the length; no root before it has the name |
| Archives.Unarchived | ginac/archive.cpp:486-502 | in the model, where the class's constructor does not call back into the archive, unarchiving a node interns "class" and changes at most the cached expression of that node |
| Archives.UnarchiveCaches | ginac/archive.cpp:486-502 | a successful unarchive caches the expression, and unarchiving again returns it and changes nothing |
| Archives.UnarchiveBuildsOnce | ginac/archive.cpp:488-501 | a cached node is returned without building; an uncached one is built by the registered constructor of some class name |
| Archives.Forgotten | ginac/archive.cpp:537-551 | `forget` keeps every node's properties and drops every cached expression |
| Archives.ForgetRebuilds | ginac/archive.cpp:537-551 | after `forget` the result of unarchiving depends only on the properties, not on what was cached |
| Archives.ReadNodesAsWritten | ginac/archive.cpp:283-286 | the node table `operator>>` leaves, one node per properties read |
| Archives.FreshNodes | ginac/archive.cpp:283-286 | the node table a read should leave: the properties read and nothing cached |
| Archives.StaleCacheAfterRead | ginac/archive.cpp:283-286 | reading into a used archive leaves an old cached expression that unarchive then returns (see Findings) |
| Archives.WriteThenRead | ginac/archive.cpp:209-288 | reading what was written gives the atoms and roots back and nodes that are the written ones with their caches dropped |
| Archives.Archive.Atomize | ginac/archive.cpp:293-307 | the atom table becomes `Intern(old, s)` and the id is its position as `unsigned int`; nothing else changes |
| Archives.Archive.Unatomize | ginac/archive.cpp:310-316 | the result of `Unatom` on the current table |
| Archives.Archive.AddNode | ginac/archive.cpp:50-64 | the node table becomes `AddedNode(old, n)` and the id its position |
| Archives.Archive.GetNode | ginac/archive.cpp:68-74 | the node exactly when the id is in range; a range error otherwise |
| Archives.Archive.ArchiveEx | ginac/archive.cpp:35-44 | the root node is added, the name interned, and one named root appended |
| Archives.Archive.NumExpressions | ginac/archive.cpp:116-119 | the number of named roots |
| Archives.Archive.GetTopNode | ginac/archive.cpp:121-127 | the root node of the `index`-th named expression; a range error past the end |
| Archives.Archive.FindNth | ginac/archive.cpp:381-393 | the search loop of the `find_*` lookups returns the `index`-th match, and something exactly when there are that many |
| Archives.Archive.AddBool | ginac/archive.cpp:358-361 | the name is interned and a boolean property 0/1 appended |
| Archives.Archive.AddUnsigned | ginac/archive.cpp:363-366 | the name is interned and an unsigned property appended |
| Archives.Archive.AddString | ginac/archive.cpp:368-371 | name and value are interned and a string property holding the value atom appended |
| Archives.Archive.AddEx | ginac/archive.cpp:373-378 | the child node is added, the name interned, and a node property holding the child's id appended |
| Archives.Archive.FindBool | ginac/archive.cpp:381-393 | the first boolean property of that name, as a truth value, or nothing |
| Archives.Archive.FindUnsigned | ginac/archive.cpp:395-407 | the first unsigned property of that name, or nothing |
| Archives.Archive.FindString | ginac/archive.cpp:409-421 | the string of the first string property of that name, or nothing |
| Archives.Archive.UnarchiveNode | ginac/archive.cpp:486-502 | performs `Unarchived` on the tables in place |
| Archives.Archive.FindEx | ginac/archive.cpp:423-441 | nothing when there are fewer node properties of that name than `index + 1`; otherwise the unarchived expression of the node referred to |
| Archives.Archive.FindExNode | ginac/archive.cpp:443-457 | the node referred to by the `index`-th node property; a runtime error when there are fewer |
| Archives.Archive.UnarchiveExByName | ginac/archive.cpp:77-93 | the name is interned even when unknown, and an unknown name is a runtime error; otherwise the root is unarchived |
| Archives.Archive.UnarchiveExByIndex | ginac/archive.cpp:95-102 | a range error for an index past the roots; otherwise the root is unarchived |
| Archives.Archive.UnarchiveExWithName | ginac/archive.cpp:104-114 | as by index, also giving the root's name |
| Archives.Archive.Forget | ginac/archive.cpp:537-551 | the node table becomes `Forgotten(old)` |
| Archives.Archive.Clear | ginac/archive.cpp:528-533 | all three tables become empty |
| Archives.Archive.Written | ginac/archive.cpp:209-238 | the written bytes start with the signature |
| Archives.Archive.Read | ginac/archive.cpp:256-288 | on success the tables are those read with fresh nodes; on failure the error of the reader and the archive unchanged |
| ExHandles.Inc | ginac/ex.h:69 | incrementing keeps the live nodes |
| ExHandles.Dec | ginac/ex.h:81-83 | decrementing removes at most the node itself |
| ExHandles.CountsMatchIsCountsOf | ginac/ex.h:61-117 | the counts match the handles exactly when they are the counts `CountsOf` induces from the multiset of the handles' targets |
| ExHandles.CountsOf | ginac/ex.h:61-117 | the live nodes are exactly those some handle points to |
| ExHandles.IncCounts | ginac/ex.h:89-97 | a new handle on a node is one more count on it |
| ExHandles.DecCounts | ginac/ex.h:75-84 | a handle gone is one count less, and the node is deleted exactly when it was the last handle |
| ExHandles.AssignedCounts | ginac/ex.h:102-117 | assignment moves one handle from the old to the new node, self-assignment included |
| ExHandles.SelfAssignment | ginac/ex.h:110-114 | self-assignment changes no count and frees nothing, although decrementing first would delete a node with one handle |
| ExHandles.AssignedTouchesTwo | ginac/ex.h:110-116 | assignment changes only the two nodes involved and deletes the old one exactly when it differs from the new one and had one handle |
| ExHandles.AddHandle | ginac/ex.h:89-97 | a new handle keeps every count equal to the number of handles on its node |
| ExHandles.HoldersAfterAdd | ginac/ex.h:89-97 | a new handle adds one to the handles of its node and none elsewhere |
| ExHandles.RemoveHandle | ginac/ex.h:75-84 | destroying a handle keeps the counts matching the handles |
| ExHandles.MoveHandle | ginac/ex.h:102-117 | assignment keeps the counts matching the handles |
| ExHandles.Arena.constructor | ginac/ex.h:61-73 | an arena with the zero node held once, by the static zero handle |
| ExHandles.Ex.Default | ginac/ex.h:61-73 | the handle points at the zero node, whose count goes up by one; the invariant holds |
| ExHandles.Ex.Copy | ginac/ex.h:89-100 | the handle shares the other's node, whose count goes up by one |
| ExHandles.Ex.Destroy | ginac/ex.h:75-87 | the count goes down by one and the node is deleted exactly when it was 1 |
| ExHandles.Ex.Assign | ginac/ex.h:102-120 | afterwards the handle points at the other's node, and the counts are incremented then decremented |
| ExHandles.Ex.Compare | ginac/ex.h:187-199 | 0 for two handles on one node without consulting the node; the node order otherwise |
| ExHandles.Ex.IsEqual | ginac/ex.h:201-213 | true for two handles on one node; the node equality otherwise |
| ExHandles.Ex.IsZero | ginac/ex.h:215 | holds exactly when the comparison with the zero handle is 0 |
| ExHandles.ShortcutAgrees | ginac/ex.h:187-213 | for a reflexive node order the shortcut gives what the node order gives |
| MatrixSpec.FlatBound | ginac/matrix.cpp:308-315 | an entry's flat index `r*col+c` lies inside the vector |
| MatrixSpec.FlatInjective | ginac/matrix.cpp:320-329 | distinct positions have distinct flat indices |
| MatrixSpec.FlatCover | ginac/matrix.cpp:333-343 | every flat index is that of a grid position |
| MatrixSpec.GridExt | ginac/matrix.cpp:333-343 | two matrices of one shape with equal entries are equal |
| MatrixSpec.UpdateEntry | ginac/matrix.cpp:320-329 | writing one entry changes that entry and no other |
| MatrixSpec.TabulateEntry | ginac/matrix.cpp:333-343 | a matrix built from a formula has the formula's entries |
| MatrixSpec.TransposeEntry | ginac/matrix.cpp:333-343 | entry `(r, c)` of the transpose is entry `(c, r)` |
| MatrixSpec.TransposeInvolution | ginac/matrix.cpp:333-343 | transposing twice gives back the matrix |
| MatrixSpec.AddOf | ginac/matrix.cpp:246-261 | entry `i` of the sum is the sum of the entries `i` |
| MatrixSpec.SubOf | ginac/matrix.cpp:266-281 | entry `i` of the difference is the difference of the entries `i` |
| MatrixSpec.SubUndoesAdd | ginac/matrix.cpp:246-281 | subtracting what was added gives back the matrix |
| MatrixSpec.AddCommutes | ginac/matrix.cpp:246-261 | addition does not depend on the order of the operands |
| MatrixSpec.MulEntry | ginac/matrix.cpp:286-301 | entry `(i, j)` of the product is `Σ_l a(i, l) b(l, j)` |
| MatrixSpec.DotTranspose | ginac/matrix.cpp:286-301 | a row-by-column sum equals the matching sum of the transposes |
| MatrixSpec.MulTranspose | ginac/matrix.cpp:286-343 | `(a b)^T == b^T a^T` |
| MatrixSpec.TraceAdd | ginac/matrix.cpp:522-533 | the trace of a sum is the sum of the traces |
| MatrixSpec.TraceTranspose | ginac/matrix.cpp:522-533 | a matrix and its transpose have the same trace |
| MatrixSpec.CompareFrom | ginac/matrix.cpp:226-232 | the entry comparison is 0 exactly when the remaining entries are equal |
| MatrixSpec.CompareZeroIffEqual | ginac/matrix.cpp:210-235 | two matrices compare 0 exactly when rows, columns and entries are equal |
| MatrixSpec.CompareFromAntisymmetric | ginac/matrix.cpp:226-232 | exchanging the operands negates the entry comparison |
| MatrixSpec.CompareAntisymmetric | ginac/matrix.cpp:210-235 | exchanging the operands negates the comparison |
| MatrixSpec.PivotRow | ginac/matrix.cpp:846-851 | the row found lies between the start and the row count |
| MatrixSpec.PivotRowFirst | ginac/matrix.cpp:846-851 | the row found has a nonzero entry in the column and every row passed over has zero there |
| MatrixSpec.SwapRowsEntry | ginac/matrix.cpp:855-860 | exchanging rows `i` and `k` moves each of their entries to the other and leaves the other rows alone |
| MatrixSpec.SwapRowsTwice | ginac/matrix.cpp:855-860 | exchanging two rows twice gives back the matrix |
| MatrixSpec.PartialSwapEntry | ginac/matrix.cpp:856-858 | after exchanging the first columns, those columns have rows `i` and `k` exchanged and the rest are untouched |
| MatrixSpec.PartialSwapAll | ginac/matrix.cpp:856-858 | exchanging every column exchanges the rows |
| MatrixSpec.PivotNonzero | ginac/matrix.cpp:842-862 | after the exchange the pivot entry is nonzero |
| Matrices.Matrix.Default | ginac/matrix.cpp:35-40 | the 1 by 1 zero matrix |
| Matrices.Matrix.Zero | ginac/matrix.cpp:88-93 | `r * c` entries, all zero |
| Matrices.Matrix.FromEntries | ginac/matrix.cpp:98-102 | the matrix of the given entries |
| Matrices.Matrix.Copy | ginac/matrix.cpp:47-51 | the same shape and entries as the original |
| Matrices.Matrix.Assign | ginac/matrix.cpp:53-61 | the shape and entries of the other matrix, self-assignment included |
| Matrices.Matrix.Nops | ginac/matrix.cpp:117-120 | the number of entries |
| Matrices.Matrix.At | ginac/matrix.cpp:308-315 | the entry `(ro, co)` exactly when inside the matrix, a range error otherwise |
| Matrices.Matrix.Set | ginac/matrix.cpp:320-329 | inside the matrix the entry becomes `v` and no other changes; outside a range error and nothing changes |
| Matrices.Matrix.Transpose | ginac/matrix.cpp:333-343 | a fresh `col` by `row` matrix with the entries of `TransposeOf` |
| Matrices.Matrix.Add | ginac/matrix.cpp:246-261 | a logic error exactly when the shapes differ; otherwise the entry-wise sum |
| Matrices.Matrix.Sub | ginac/matrix.cpp:266-281 | a logic error exactly when the shapes differ; otherwise the entry-wise difference |
| Matrices.Matrix.Mul | ginac/matrix.cpp:286-301 | a logic error exactly when `col != other.row`; otherwise the `row` by `other.col` product |
| Matrices.Matrix.CheckSquare | ginac/matrix.cpp:500-502 | a logic error exactly when the matrix is not square (also at 524-526, 545-547 and 563-565) |
| Matrices.Matrix.Trace | ginac/matrix.cpp:522-533 | a logic error exactly when not square; otherwise the sum of the diagonal |
| Matrices.Matrix.CompareSameType | ginac/matrix.cpp:210-235 | the comparison of `CompareOf`: rows, then columns, then the first differing entry |
| Matrices.Matrix.ExchangeRows | ginac/matrix.cpp:855-860 | the column-by-column loop leaves the matrix with rows `i` and `k` exchanged |
| Matrices.Matrix.Pivot | ginac/matrix.cpp:842-862 | -1 and nothing changed when the column is zero from row `ro` down; 0 and nothing changed when entry `(ro, ro)` is nonzero; otherwise the first row below with a nonzero entry, exchanged with row `ro` |
| Matrices.Matrix.FirstNonzero | ginac/matrix.cpp:846-851 | the search loop finds the first row at or below `ro` with a nonzero entry in column `ro`, or stops at `ro` when there is none |
| Permutations.TwoPositions | ginac/matrix.cpp:383-384 | a value at two positions occurs at least twice |
| Permutations.IncreasingCountsOnce | ginac/matrix.cpp:381-390 | a strictly increasing sequence holds each value at most once |
| Permutations.TwiceIsRepeat | ginac/matrix.cpp:383-384 | a value occurring twice is at two positions |
| Permutations.NoRepeatInPermutationOfIncreasing | ginac/matrix.cpp:381-390 | a rearrangement of a strictly increasing sequence has no repeated value |
| Permutations.RepeatInPermutation | ginac/matrix.cpp:381-390 | a repeated value survives any rearrangement |
| Permutations.Parity | ginac/matrix.cpp:387 | the sign is 1 or -1 |
| Permutations.Swap | ginac/matrix.cpp:386 | `iter_swap` keeps the elements |
| Permutations.BelowSplit | ginac/matrix.cpp:381-390 | counts over adjoining ranges add |
| Permutations.BelowSame | ginac/matrix.cpp:381-390 | the count depends only on the range's elements |
| Permutations.BelowNone | ginac/matrix.cpp:381-390 | nothing counts when `v` is below the whole range |
| Permutations.BelowSwapBoth | ginac/matrix.cpp:385-388 | an exchange inside a range keeps its count |
| Permutations.BelowAround | ginac/matrix.cpp:385-388 | a count splits around the two exchanged positions |
| Permutations.BelowOne | ginac/matrix.cpp:385 | the count of one position is whether `v` is above it |
| Permutations.BelowSwapSecond | ginac/matrix.cpp:385-388 | an exchange whose first position lies outside a range keeps its count when `v` is above both values |
| Permutations.SwapTerms | ginac/matrix.cpp:385-388 | an exchange changes only the terms of the two positions, which lose one inversion together |
| Permutations.TermElsewhere | ginac/matrix.cpp:385-388 | the terms of other positions are unchanged |
| Permutations.TermAtFirst | ginac/matrix.cpp:385-388 | the smaller element moved to `i` takes the old term of `j` |
| Permutations.TermAtSecond | ginac/matrix.cpp:385-388 | the larger element moved to `j` loses exactly one inversion |
| Permutations.SwapInversionsFrom | ginac/matrix.cpp:385-388 | the inversions from each start point before and after an exchange |
| Permutations.SwapInversions | ginac/matrix.cpp:385-388 | each exchange the sort makes removes exactly one inversion |
| Permutations.IncreasingNoInversions | ginac/matrix.cpp:381-391 | a sorted sequence has no inversions |
| Permutations.SwapKeepsOrder | ginac/matrix.cpp:381-390 | an exchange keeps the sorted prefix and makes position `i` the least so far |
| Permutations.ParityStep | ginac/matrix.cpp:387 | flipping `sigma` once per exchange tracks the parity |
| Permutations.SwapStep | ginac/matrix.cpp:385-388 | one exchange keeps every loop invariant with one more exchange counted |
| Permutations.PermutationSign | ginac/matrix.cpp:376-392 | 0 for fewer than two elements or a repeated value; otherwise +1 or -1 as the number of inversions is even or odd |
| NestedSums.Zeros | ginac/inifcns_nstdsums.cpp:1099-1101 | `n` zeros |
| NestedSums.ProductConcat | ginac/inifcns_nstdsums.cpp:1129 | the product of a concatenation is the product of the products |
| NestedSums.ExpandEntry | ginac/inifcns_nstdsums.cpp:1098-1110 | every entry expands to at least one letter |
| NestedSums.EntryShape | ginac/inifcns_nstdsums.cpp:1098-1110 | an entry expands to `max(1, \|e\|) - 1` zeros followed by its sign |
| NestedSums.FlatToCons | ginac/inifcns_nstdsums.cpp:1097-1111 | a concatenation over a list is the first piece followed by the concatenation over the rest |
| NestedSums.ExpandIsFlat | ginac/inifcns_nstdsums.cpp:1097-1111 | the expansion is the concatenation of the expanded entries |
| NestedSums.ExpandLetters | ginac/inifcns_nstdsums.cpp:1097-1111 | the expansion holds only -1, 0 and 1 and its length is the weight `Σ max(1, \|e\|)` |
| NestedSums.ExpandLettersUnchanged | ginac/inifcns_nstdsums.cpp:1108-1110 | a list of letters expands to itself |
| NestedSums.ExpandParameters | ginac/inifcns_nstdsums.cpp:1097-1111 | the loop builds `Expand(l)` (the same loop is at 1857-1872) |
| NestedSums.Magnitudes | ginac/inifcns_nstdsums.cpp:1136-1138 | the entries made nonnegative |
| NestedSums.SignsOf | ginac/inifcns_nstdsums.cpp:1136-1141 | -1 at negative entries and 1 elsewhere |
| NestedSums.CompactStep | ginac/inifcns_nstdsums.cpp:1117-1133 | a zero lengthens the run; a nonzero `d` appends `d` extended by the run, times the previous nonzero, and multiplies `pf` by `d` |
| NestedSums.ConvertParameterHToLi | ginac/inifcns_nstdsums.cpp:1093-1146 | `pf` is the product of the nonzero letters, the result is whether some prefix product is negative, and then `m` holds the magnitudes and `s` the signs of the compacted indices; otherwise `m` is the compaction and `s` stays empty |
| NestedSums.CompactedLength | ginac/inifcns_nstdsums.cpp:1113-1133 | one index per nonzero letter |
| NestedSums.NonNegativeIffPositive | ginac/inifcns_nstdsums.cpp:1113-1133 | no prefix product is negative exactly when every compacted index is positive |
| NestedSums.LiIndices | ginac/inifcns_nstdsums.cpp:1113-1133 | one index per entry of a zero-free list |
| NestedSums.Signs | ginac/inifcns_nstdsums.cpp:1128-1129 | one sign per entry |
| NestedSums.ExpandPrefix | ginac/inifcns_nstdsums.cpp:1097-1111 | expanding fewer entries gives a prefix of expanding more |
| NestedSums.EntryAt | ginac/inifcns_nstdsums.cpp:1097-1111 | entry `k` is spelled out at its place in the expansion |
| NestedSums.ZeroRun | ginac/inifcns_nstdsums.cpp:1118-1121 | a run of zeros only lengthens the trailing run |
| NestedSums.CompactRun | ginac/inifcns_nstdsums.cpp:1118-1128 | a run of zeros ended by `d` appends one index: `d` extended by the run, times the previous sign |
| NestedSums.IndicesSnoc | ginac/inifcns_nstdsums.cpp:1113-1133 | the indices and signs of a longer prefix extend those of a shorter one |
| NestedSums.ExpandSpelled | ginac/inifcns_nstdsums.cpp:1097-1111 | the expansion spells out every entry and has the weight as length |
| NestedSums.CompactSpelled | ginac/inifcns_nstdsums.cpp:1113-1133 | compacting a spelled-out list recovers its entries, each negated after a negative one, and the letters seen are their signs |
| NestedSums.CompactExpand | ginac/inifcns_nstdsums.cpp:1097-1133 | for a zero-free list compaction undoes expansion up to the sign bookkeeping |
| NestedSums.LiToH | ginac/inifcns_nstdsums.cpp:1306-1323 | `res[0] == m[0]` and `res[i] == m[i] * Π_{k=1..i} x[k]` |
| NestedSums.ConvertParameterLiToH | ginac/inifcns_nstdsums.cpp:1306-1323 | the loop builds `LiToH(m, x)` and `pf` is the product of the running signs |
| NestedSums.SignedMagnitude | ginac/inifcns_nstdsums.cpp:1136-1141 | the magnitude times the sign is the entry |
| NestedSums.RunningSignTelescopes | ginac/inifcns_nstdsums.cpp:1315-1318 | the running sign of the extracted signs is the sign of the current entry times that of the first |
| NestedSums.HToLiToH | ginac/inifcns_nstdsums.cpp:1093-1323 | converting a zero-free `H` list to `Li` indices and signs and back gives the list again, up to the sign of its first entry |
| HarmonicParams.Params | ginac/inifcns_nstdsums.cpp:2077-2082 | a single number is the list holding it |
| HarmonicParams.Insert | ginac/inifcns_nstdsums.cpp:1348-1355 | one entry longer |
| HarmonicParams.Delete | ginac/inifcns_nstdsums.cpp:1348-1355 | one entry shorter |
| HarmonicParams.DeleteInsert | ginac/inifcns_nstdsums.cpp:1348-1355 | the inserted value sits at its place and deleting it gives back the list |
| HarmonicParams.ShortAndLongSplit | ginac/inifcns_nstdsums.cpp:1335-1345 | when one `H` is one-dimensional, the short and long parameters are exactly those of both |
| HarmonicParams.TrafoHMultParams | ginac/inifcns_nstdsums.cpp:1328-1359 | exactly `\|hlong\| + 1` lists, the `i`-th being `hlong` with `hshort` inserted at `i` |
| HarmonicParams.TrafoHMultShuffles | ginac/inifcns_nstdsums.cpp:1346-1357 | every list holds the parameters of both `H`, and deleting the inserted place gives `hlong` back |
| HarmonicParams.HDeriv | ginac/inifcns_nstdsums.cpp:2071-2100 | zero exactly for the parameter derivative; a leading entry of magnitude above 1 keeps the length with `1/x`; any other is dropped |
| HarmonicParams.ExpandCons | ginac/inifcns_nstdsums.cpp:1857-1872 | the expansion of a list is that of its first entry followed by that of the rest |
| HarmonicParams.EntryPeel | ginac/inifcns_nstdsums.cpp:2084-2091 | moving an entry of magnitude above 1 towards 0 drops one leading zero of its expansion |
| HarmonicParams.HDerivDropsFirstLetter | ginac/inifcns_nstdsums.cpp:2083-2099 | in the expanded notation the derivative drops the first letter, which picks the multiplier (0: `1/x`, 1: `1/(1-x)`, -1: `1/(1+x)`), and the weight goes down by one |
| HarmonicParams.DropHead | ginac/inifcns_nstdsums.cpp:2092 | removing the first entry of a concatenation |
| HarmonicParams.HEvalEmpty | ginac/inifcns_nstdsums.cpp:1948-1958 | the empty parameter list gives 1 |
| HarmonicParams.HEvalEmptyIffWeightZero | ginac/inifcns_nstdsums.cpp:1948-1958 | `H` is settled to 1 exactly for the parameters of weight 0 |
| Convolutions.HalfcyclicConvolute | ginac/inifcns_nstdsums.cpp:2170-2179 | `c[n]` becomes `Σ_{m<=n} a[m] b[n-m]` for every `n` below the length of `a`, and the rest of `c` is unchanged |
| Convolutions.ConvToReversed | ginac/inifcns_nstdsums.cpp:2174-2177 | the sum from the top equals the sum of the exchanged series from the low end |
| Convolutions.ConvFromTo | ginac/inifcns_nstdsums.cpp:2174-2177 | the partial sums from both ends meet in the coefficient |
| Convolutions.ConvolutionCommutes | ginac/inifcns_nstdsums.cpp:2170-2179 | each coefficient is the same with the factors exchanged |
| Convolutions.ConvolutionUnit | ginac/inifcns_nstdsums.cpp:2170-2179 | the series 1 is the unit of the product |
| Convolutions.ConvToUnit | ginac/inifcns_nstdsums.cpp:2174-2177 | every partial sum with the series 1 is the coefficient of the other series |

## Left out

- I/O: streams are byte sequences. A read past the end of the input (`is.get` failing, which the C++ does not check) is `EndOfStream` in the model.
- Varint.DecodeAt: a group at bit offset 32 or more, which C++ leaves undefined, contributes nothing.
- ARCHIVE_VERSION, ARCHIVE_AGE and the PTYPE_* values live in archive.h, which is not part of this model. The reader takes the current version and age as parameters, and the tags are taken in declaration order 0..3.
- Archives.Archive.Read: requires `age <= current`, which the constants of archive.h satisfy. It models the intended fresh node table; the C++ behaviour is `Archives.ReadNodesAsWritten` (see Findings).
- The class registry `find_unarch_func` and each class's unarchiving constructor are foreign calls. They are a `Builder` parameter that maps a node and its class name to an expression. Likewise `archive_ex` takes the root node that the foreign `archive_node(ar, e)` constructor builds.
- Archives.Unarchived: the class's unarchiving constructor is a pure `Builder`, so its callbacks into the archive are not modelled: in the C++ it unarchives and caches child nodes through `find_ex` (archive.cpp:439) and interns property names through `atomize` (archive.cpp:425), all during the call at archive.cpp:499. That unarchiving touches only node `id` and the atom "class" is a property of the model; in the C++ the constructor may change other nodes' caches and the atom table.
- `get_properties`, `printraw`, `dummy_ar_creator`, the copy constructor and assignment of `archive_node`, and the constructors of `archive` (in archive.h) are not modelled. An `Archive` starts empty.
- Archives.Archive.GetTopNode: the C++ indexes `nodes` with a root id read from a stream without checking it. The model returns a range error for an id past the node table.
- Archives.Archive.UnarchiveExByName: the C++ indexes `nodes` with a root id read from a stream without checking it. The model returns a range error for an id past the node table.
- Archives.Archive.UnarchiveExByIndex: the C++ indexes `nodes` with a root id read from a stream without checking it. The model returns a range error for an id past the node table.
- Archives.Archive.UnarchiveExWithName: the C++ indexes `nodes` with a root id read from a stream without checking it. The model returns a range error for an id past the node table.
- Archives.Archive.AddString: the C++ leaves the order of the two `atomize` calls unspecified. The model interns the name first.
- ExHandles: `basic::compare` and `basic::is_equal` between distinct nodes are parameters. `exZERO()` is the arena's zero handle, which is never destroyed or assigned to. `debugmsg`, `ASSERT`, the `dynallocated` flag and the non-inline variant are not modelled. Node deletion is leaving the arena, so there is no memory to free.
- Matrices: entries are integers, so the symbolic `ex` arithmetic of `add`, `sub`, `mul` and `trace` becomes integer arithmetic and `ex::compare` becomes integer order. Dimensions are `nat` (they are `int` in the C++). `ensure_if_modifiable` is not modelled.
- Matrices.Matrix.Pivot: requires `ro < row` and `ro < col`. Its callers `determinant_numeric` (matrix.cpp:355), `inverse` (matrix.cpp:575) and `solve` (matrix.cpp:806) pass a row below the row count of a matrix with at least as many columns as rows.
- Matrices.Matrix.CheckSquare: `determinant`, `charpoly` and `inverse` are modelled only by their square check. Their bodies need symbolic arithmetic (as do `solve` and `fraction_free_elim`).
- Permutations.PermutationSign: works on a `seq<int>` value, which is the by-value copy the template receives.
- NestedSums.ConvertParameterHToLi: `m` and `s` start empty. The C++ appends to lists the caller passes in, which are empty at its call sites.
- NestedSums.ConvertParameterLiToH: requires `1 <= |x| <= |m|` and builds `|x|` entries. That is the length the C++ loop runs over, and its callers pass equal lengths.
- HarmonicParams.TrafoHMultParams: the C++ assumes one of the two `H` is one-dimensional. The shuffle lemmas take that as a precondition. The `H` sums and their values are not modelled.
- HarmonicParams.HDeriv: requires a nonempty list for the derivative with respect to `x`, since the C++ reads `*m.begin()`. The result is the multiplier and the new parameter list, not the symbolic expression.
- HarmonicParams.HEvalEmpty: `None` stands for the general evaluation, which returns a series of `H` and is not modelled.
- Convolutions.HalfcyclicConvolute: requires `c` distinct from `a` and `b`; the aliasing case is not modelled. The `cl_N` values are integers.
- The numerical routines of inifcns_nstdsums.cpp (the `Li`, `S` and `H` series, Crandall's method, the lookup tables), the `map_trafo_*` rewriters and the `eval` / `evalf` / `series` registrations are not modelled. They need floating point and the symbolic engine.

## Findings

| source | as written | input that shows it | evidently intended | confidence | as-written member | corrected member |
|---|---|---|---|---|---|---|
| ginac/archive.cpp:283-286 | `ar.nodes.resize(num_nodes, ar)` keeps the nodes an archive already has, and `operator>>` on a node only replaces its properties, so their cached expressions (used by `unarchive`, lines 488-490) survive the read | read a stream with one node without properties into an archive whose node 0 has cached expression 7: unarchiving node 0 returns 7 instead of failing for the missing class name | the nodes read hold no cached expression, so that unarchiving rebuilds them from the stream | not executed | Archives.ReadNodesAsWritten, Archives.StaleCacheAfterRead | Archives.FreshNodes, Archives.Archive.Read, Archives.WriteThenRead |
