# root_digger experiment and checkpoint core, in Dafny

This project models three self-contained parts of root_digger, a tool that
places the root on an unrooted phylogenetic tree.

- **Substitution-model parameters** (`exp/make_exp.py`, `subst_params` and
  `freq_params`). These build the random 4×4 rate matrix and the base
  frequencies for a simulated experiment, and print them in two state orders:
  one for the alignment simulator (`indel_repr`) and one for root_digger
  (`rd_repr`). The random draws are inputs and the entries are exact reals.
  `numpy.inner(A, B)` is A·Bᵀ, so `rd_repr` computes Pᵀ·Mᵀ·Pᵀ. Entry (i, j)
  of that matrix is M[σ(j)][σ⁻¹(i)], where σ = (0→3, 1→1, 2→0, 3→2) is read
  off P.
- **Mapping an inferred root onto the true tree** (`exp/make_exp.py`).
  - Trees are immutable `Node(name, children)` values. A node is addressed by
    its path of child indices from the root.
  - The two root clades are the sorted non-empty names under the root's first
    and second child.
  - A clade is resolved to a node of the true tree. A one-entry clade gives
    the named node. A clade of several distinct names gives their common
    ancestor. A clade that repeats one name gives the root: ete3 keeps each
    distinct name once and pairs a lone node with the root.
  - The mapped node follows `get_mapped_node`'s five-way precedence.
  - The topological root distance compares the anchor leaf's hop count to the
    root in both trees.
  - `base26_encode` names experiments with lower-case base-26 digits.
- **The checkpoint file** (`src/checkpoint.cpp`). Its bytes are `seq<Byte>`
  with a read cursor, and a device with a given amount of room stands in for
  the file being written.
  - A `std::string` is stored as an 8-byte little-endian `size_t` length
    followed by its characters. Reading one back goes through a zero-filled C
    buffer, so the string ends at its first NUL, and a zero length leaves the
    destination untouched.
  - The options record is its 23 persisted fields in a fixed order. `states`
    is skipped in both directions.
  - The checkpoint object covers `current_progress`, `completed_indicies`,
    `save_options`, `load_options`, `write` and `clean`.
  - The record region after the options header is given as what each
    successive checksummed read returns.

Modules: `Results`, `Arith`, `Linalg`, `StateOrder`, `SubstParams`,
`FreqParams`, `Sorting`, `Trees`, `RootMapping` (with the worked examples in
`RootMappingExamples`), `Base26`, `ByteStream`, `StringCodec`, `OptionsCodec`
and `Checkpoint`, one file each.

Points where the code is easy to misread:

- `rd_repr` is not the conjugation Pᵀ·M·P. `numpy.inner` computes Pᵀ·Mᵀ·Pᵀ,
  and σ is a 3-cycle rather than an involution. Applying that map twice still
  gives back M (`SubstParams.RdMatrixInvolution`). Its columns sum to zero
  (`SubstParams.RdMatrixColumnsSumToZero`). Its rows in general do not
  (`SubstParams.RdMatrixRowsNeedNotSumToZero`).
- `current_progress` ends its scan at a checksum failure as the code does. It
  also ends at the end of the file, which the loop condition checks before
  every read.

## Model

| member | source | states |
|---|---|---|
| SubstParams.FromDraw | exp/make_exp.py:70-74 | every off-diagonal rate is its draw plus 0.01, every row sums to zero, and non-negative draws give a rate matrix with positive off-diagonal entries |
| SubstParams.RowSumsVanish | exp/make_exp.py:72-74 | subtracting the diagonal matrix of the row sums from a matrix with a cleared diagonal makes every row sum zero |
| SubstParams.OffDiagonalListing | exp/make_exp.py:77-82 | the 12 output positions correspond one to one with the off-diagonal cells, each way round |
| SubstParams.OffDiagonalRowMajor | exp/make_exp.py:77-82 | the listing visits the off-diagonal cells in row-major order |
| SubstParams.OffDiagonal | exp/make_exp.py:77-82 | the double loop emits exactly 12 values, position k holding the cell listed at k |
| SubstParams.IndelRepr | exp/make_exp.py:76-83 | the simulator's order lists every off-diagonal entry M[i][j] at its row-major index |
| SubstParams.RdMatrixEntries | exp/make_exp.py:86-88 | the doubly applied numpy.inner with P puts M[σ(j)][σ⁻¹(i)] at (i, j) |
| SubstParams.RdRepr | exp/make_exp.py:85-95 | root_digger's order lists, at position k, the entry of M that the permuted matrix holds at the k-th off-diagonal cell |
| SubstParams.RdMatrixInvolution | exp/make_exp.py:86-88 | applying the permutation step twice gives back the original matrix |
| SubstParams.RdMatrixColumnsSumToZero | exp/make_exp.py:86-88 | each column of the permuted matrix of a rate matrix sums to zero |
| SubstParams.RdMatrixRowsNeedNotSumToZero | exp/make_exp.py:86-88 | some rate matrix has a permuted matrix whose first row does not sum to zero, so the permuted matrix is not a generator |
| StateOrder.SigmaValues | exp/make_exp.py:86-87 | the state permutation read off P is 0→3, 1→1, 2→0, 3→2, and its inverse undoes it |
| StateOrder.PermutationRows | exp/make_exp.py:86-87 | row r of P is the unit vector at σ(r), and row i of Pᵀ the unit vector at σ⁻¹(i) |
| FreqParams.FromDraw | exp/make_exp.py:99-102 | from non-negative draws every frequency is positive, they sum to 1, the order of the draws is kept, and a Dirichlet draw maps to (p + 0.001)/1.004 |
| FreqParams.NormalisedProof | exp/make_exp.py:100-102 | the L1 norm of the floored vector is the draw's sum plus 0.004 and dividing by it gives a vector summing to 1 |
| FreqParams.RdRepr | exp/make_exp.py:107-111 | numpy.inner of the frequencies with P reorders them as (p3, p1, p0, p2) |
| FreqParams.RdReprIsDistribution | exp/make_exp.py:107-111 | the reordered frequencies are the same multiset with the same sum |
| Sorting.Sort | exp/make_exp.py:625-628 | `sorted` returns an ordered permutation of its input |
| Trees.NamesExact | exp/make_exp.py:626-627 | the traversal lists a name exactly when some node of the subtree carries it |
| Trees.FindCorrect | exp/make_exp.py:646 | looking a name up finds a node with that name, and finds one whenever such a node exists |
| Trees.FindUnique | exp/make_exp.py:646 | with unique names the lookup returns the very node that carries the name |
| Trees.AmbiguousIffTwoNodes | exp/make_exp.py:647 | a name counts as ambiguous exactly when two different nodes of the tree carry it |
| Trees.CommonAncestorLowest | exp/make_exp.py:647 | every node above all the clade's nodes is above their computed common ancestor |
| RootMapping.NonEmpty | exp/make_exp.py:626-628 | the filter keeps every non-empty name as often as it occurs and drops every empty one |
| RootMapping.Clade | exp/make_exp.py:624-636 | a root clade exists exactly when the root has that child, is sorted, and holds every non-empty name below that child exactly as often as it occurs there |
| RootMapping.RootClades | exp/make_exp.py:638-641 | the root clades exist exactly when the root has two children and are the first and second child's clades |
| RootMapping.FirstAmbiguous | exp/make_exp.py:647 | a clade has an ambiguous name exactly when some name in it is carried by two nodes, and the one reported is such a name |
| RootMapping.ExtractNodeWithClade | exp/make_exp.py:644-647 | a one-entry clade resolves to a node with that name and fails only when there is none; any other clade resolves exactly when it is non-empty and each of its names is carried by exactly one node, to a node above all of them, and to the root when it repeats a single name; a name carried twice is reported as ambiguous |
| RootMapping.ResolvesToCommonAncestor | exp/make_exp.py:646-647 | a clade of at least two distinct unambiguous names that are all found resolves to the common ancestor of their nodes |
| RootMapping.RepeatedNameResolvesToRoot | exp/make_exp.py:646-647 | a clade of two or more entries that all repeat one name, carried by exactly one node, resolves to the root wherever that node lies |
| RootMapping.ExtractNodeIsLowest | exp/make_exp.py:647 | the node a clade of at least two distinct names resolves to is the lowest node above all its names |
| RootMapping.MapPair | exp/make_exp.py:656-670 | the precedence: a node equal to or below the other wins, then a leaf on the left, then a leaf on the right, otherwise the true root; the result is always left, right or the root |
| RootMapping.MapPairSymmetric | exp/make_exp.py:656-670 | swapping left and right changes nothing except when both are leaves on different branches |
| RootMapping.MappedNode | exp/make_exp.py:650-670 | the mapping succeeds exactly when both clades resolve, and then yields the precedence applied to the left and right nodes in the true tree, a repeated-name clade's node being the root |
| RootMapping.SelfCladeResolvesToChild | exp/make_exp.py:644-647 | in a tree with unique names, a root child with named nodes under two of its children resolves back to that child |
| RootMapping.MappedNodeSelf | exp/make_exp.py:650-670 | a tree with unique names whose two root children each have named nodes under their first two children maps onto itself at its root |
| RootMapping.TopologicalRootDistance | exp/make_exp.py:683-692 | the distance exists exactly when the anchor's name occurs in the inferred tree, and for non-root anchors it is the difference of the two depths |
| RootMapping.RootDistanceSelf | exp/make_exp.py:683-692 | a tree compared with itself has root distance 0 |
| RootMappingExamples.LeafSplitMapsToLeaf | exp/make_exp.py:665-666 | for true tree ((A,B),(C,D)) and inferred (A,(B,(C,D))) the root maps onto the leaf A |
| RootMappingExamples.LeafSplitOntoItself | exp/make_exp.py:650-666 | without the precondition of `MappedNodeSelf` the mapping of a tree onto itself need not give the root: (A,(B,(C,D))) maps onto its leaf A |
| RootMappingExamples.BalancedRepeatedName | exp/make_exp.py:644-647 | in ((A,B),(C,D)) the clade [C] resolves to the leaf C but the clade [C, C] resolves to the root |
| RootMappingExamples.RepeatedSplitMapsToChild | exp/make_exp.py:650-660 | an inferred tree ((A,B),(C,C)) maps onto the first root child of ((A,B),(C,D)), since its right clade [C, C] resolves to the root above it |
| RootMappingExamples.CrossingSplitMapsToRoot | exp/make_exp.py:670 | for true tree ((A,B),(C,D)) and inferred ((A,C),(B,D)) the root maps onto the true root |
| Base26.CeilLog26 | exp/make_exp.py:772 | the digit count is the least exponent whose power of 26 reaches the maximum |
| Base26.Digits | exp/make_exp.py:773-777 | position k of the name is the letter of base-26 digit n-1-k of the index, most significant first |
| Base26.Encode | exp/make_exp.py:769-778 | index 0 is "a"; a non-positive maximum with another index is a math domain error; otherwise the name has the digit count of the maximum, all lower-case letters |
| Base26.DecodeDigits | exp/make_exp.py:773-777 | reading the n digits back gives the index modulo 26^n |
| Base26.EncodeDecode | exp/make_exp.py:769-778 | a nonzero index below the maximum decodes back from its name |
| Base26.EncodeInjective | exp/make_exp.py:769-778 | distinct indices below the maximum receive distinct names |
| ByteStream.LittleEndianRoundTrip | src/checkpoint.cpp:11-13 | the in-memory image of a size_t decodes back to the same number |
| ByteStream.AddSizeTWraps | src/checkpoint.cpp:18-21 | adding to a size_t total is addition modulo 2^64 |
| StringCodec.Encoded | src/checkpoint.cpp:10-24 | a stored string is an 8-byte length prefix followed by exactly its characters |
| StringCodec.EncodedLength | src/checkpoint.cpp:11-13 | the prefix of a stored string is the size_t image of its length and decodes back to that length |
| StringCodec.WriteString | src/checkpoint.cpp:10-24 | the write fails exactly when the device cannot take the whole length prefix, and then the device holds the part of the prefix that fit; otherwise it only appends |
| StringCodec.WriteStringFills | src/checkpoint.cpp:10-24 | whether or not the write fails, the device ends up with as much of the string's encoding as it had room for |
| StringCodec.WriteStringAppends | src/checkpoint.cpp:13-21 | a successful write appends the prefix and as many characters as fit |
| StringCodec.WriteStringWithRoom | src/checkpoint.cpp:10-24 | with room for it the whole encoding is appended and its length is returned |
| StringCodec.WriteStringFullAfterPrefix | src/checkpoint.cpp:20-21 | when the device fills right after the prefix, the failed character write wraps the returned total to 7 |
| StringCodec.UpToNul | src/checkpoint.cpp:42 | the C-string copy keeps a prefix free of NULs that stops at the first NUL |
| StringCodec.ReadString | src/checkpoint.cpp:26-48 | a read only advances the cursor, by no more than what is left, and leaves the destination alone or replaces it with a NUL-free string |
| StringCodec.ReadStringCount | src/checkpoint.cpp:30-46 | the count returned is the number of bytes consumed modulo 2^64 |
| StringCodec.ReadWrittenString | src/checkpoint.cpp:26-48 | a written string reads back as its part before the first NUL, a zero length keeps the destination, and exactly the encoding is consumed |
| StringCodec.ReadWrittenStringWithoutNul | src/checkpoint.cpp:26-48 | a non-empty string without NULs reads back unchanged |
| StringCodec.ReadWrittenStringWithNul | src/checkpoint.cpp:37-43 | a string with an embedded NUL reads back shorter, as a prefix of its part before that NUL |
| OptionsCodec.PersistedFieldsExact | src/checkpoint.cpp:50-109 | every field except `states` is written and read |
| OptionsCodec.WriteField | src/checkpoint.cpp:51-75 | a field write with room appends exactly the field's encoding, and only a string field can fail |
| OptionsCodec.WriteFieldCount | src/checkpoint.cpp:51-75 | with room, a field write counts exactly the length of the field's encoding |
| OptionsCodec.WriteFieldsWithRoom | src/checkpoint.cpp:50-79 | with room for the record, every write succeeds and the fields' encodings are appended in order |
| OptionsCodec.WriteFieldsCount | src/checkpoint.cpp:50-79 | with room for the record, the running total grows by exactly the length of the fields' encoding |
| OptionsCodec.WriteFieldsFills | src/checkpoint.cpp:50-79 | the field writes leave the device holding as much of the fields' encoding as fit, and fail only when it does not all fit |
| OptionsCodec.WriteOptionsFills | src/checkpoint.cpp:50-79 | an options write leaves the device holding as much of the record's encoding as fit, and fails only when it does not all fit |
| OptionsCodec.WriteOptionsWithRoom | src/checkpoint.cpp:50-79 | writing a record to a device with room appends exactly its encoding and returns its length |
| OptionsCodec.ReadField | src/checkpoint.cpp:82-105 | a field read keeps the record well-formed and only advances the cursor |
| OptionsCodec.ReadFieldCount | src/checkpoint.cpp:82-105 | a field read counts the bytes it consumed |
| OptionsCodec.ReadFieldsCount | src/checkpoint.cpp:81-109 | the running total grows by exactly the bytes consumed |
| OptionsCodec.ReadOptionsCount | src/checkpoint.cpp:81-109 | an options read returns the number of bytes it consumed |
| OptionsCodec.DecodeIntoValues | src/checkpoint.cpp:81-109 | decoding a list of fields gives each its decoded value and leaves every other field alone |
| OptionsCodec.ReadWrittenField | src/checkpoint.cpp:82-105 | a written field reads back as its decoded value and consumes exactly its encoding |
| OptionsCodec.ReadWrittenFields | src/checkpoint.cpp:81-109 | the fields read back in the order they were written, each decoded in turn, consuming exactly their encoding |
| OptionsCodec.ReadWrittenOptions | src/checkpoint.cpp:50-109 | reading a written record decodes it and consumes exactly its encoding |
| OptionsCodec.DecodeOptionsValues | src/checkpoint.cpp:50-109 | after the round trip every persisted field is as written (strings up to their first NUL, an empty string keeping the reader's value) and `states` keeps the reader's value |
| OptionsCodec.StatesNotPersisted | src/checkpoint.cpp:70 | changing `states` does not change the stored record |
| Checkpoint.Progress | src/checkpoint.cpp:184-203 | the scan keeps no more results than there are reads, each kept result comes from a full read at the same position in file order, and the only error is an unexpected read size |
| Checkpoint.FullRun | src/checkpoint.cpp:184-203 | the run of full reads at the start of the region is maximal |
| Checkpoint.ProgressIsFullRun | src/checkpoint.cpp:184-203 | the scan fails exactly when the first non-full read reported another nonzero size, and otherwise returns the full run's results in file order |
| Checkpoint.CurrentProgress | src/checkpoint.cpp:168-207 | the loop returns exactly the scan of the record region, whatever the header |
| Checkpoint.CompletedIndices | src/checkpoint.cpp:209-216 | the indices fail exactly when the scan does, have its length, and element i is the root id of result i |
| Checkpoint.SaveOptions | src/checkpoint.cpp:153-157 | an existing checkpoint is left unchanged; a new one only has bytes appended to its header, and a failed save reports the header it left behind |
| Checkpoint.SaveOptionsLeavesPrefix | src/checkpoint.cpp:153-157 | on a new checkpoint the header gains as much of the options' encoding as fits, and the save fails exactly when it does not all fit, reporting that partly written header |
| Checkpoint.SaveOptionsWithRoom | src/checkpoint.cpp:153-157 | a new checkpoint with room gets exactly the options' encoding appended |
| Checkpoint.LoadOptions | src/checkpoint.cpp:159-166 | without an existing checkpoint the options are left alone |
| Checkpoint.SaveThenLoad | src/checkpoint.cpp:153-166 | options saved to a new checkpoint load back, when it is reopened, as the decoder gives them |
| Checkpoint.Rewritten | src/checkpoint.cpp:136-139 | the rewritten region holds one full read per result, in order |
| Checkpoint.ProgressOfRewritten | src/checkpoint.cpp:136-139 | scanning the rewritten region returns the results it was written from |
| Checkpoint.Clean | src/checkpoint.cpp:121-144 | nothing happens without an existing checkpoint, an existing backup file is an error, a clean checkpoint still exists, and a failed scan is an error that leaves a backup holding only the options read from the header |
| Checkpoint.CleanAfterFailedScan | src/checkpoint.cpp:121-144 | a clean leaves its backup behind exactly when the scan of an existing checkpoint fails, and after that every clean of an existing checkpoint is refused because the backup exists |
| Checkpoint.CleanKeepsProgress | src/checkpoint.cpp:121-144 | a clean succeeds exactly when the scan does and leaves the scan's results unchanged |
| Checkpoint.CleanRewritesHeader | src/checkpoint.cpp:121-144 | when the old header holds options `o`, the cleaned header holds the encoding of `o` after one read-back round trip |
| Checkpoint.CleanThenLoad | src/checkpoint.cpp:121-166 | loading the cleaned checkpoint gives what loading the old one gave, read back once more |
| Checkpoint.AppendResult | src/checkpoint.cpp:146-151 | a written result adds exactly one record, the full read of that result, after the existing records, leaving the header alone |
| Checkpoint.AppendResultExtendsProgress | src/checkpoint.cpp:146-151 | after only full reads, the result written to the checkpoint is the next result the scan returns |
| Checkpoint.AppendExtendsProgress | src/checkpoint.cpp:146-151 | after only full reads, an appended result is the next result the scan returns |

## Left out

- Randomness: `numpy.random.rand` and `numpy.random.dirichlet` draws are parameters.
- Floating point: entries are exact reals, so IEEE rounding is not modelled. The printed text of the reprs (`str(f)` joined by spaces or commas) is not modelled either; they are sequences of reals.
- `freq_params.indel_repr` is only the text of the frequencies in their own order, so it has no model beyond `FreqParams.FromDraw`.
- `math.log` rounding in `base26_encode`: the digit count is the exact ceiling of the base-26 logarithm. The floating-point logarithm can be off by one at exact powers of 26.
- ete3 itself:
  - Newick parsing and writing are not modelled.
  - `tree & name` searches level order; the model takes the first match in preorder. The two agree whenever names are unique, as leaf labels are in these experiments.
  - `get_common_ancestor` raises "Ambiguous node name" when a clade name is carried by several nodes, and lists every missing name when names are not found. The model reports the first ambiguous name in clade order and the first missing name, and checks ambiguity before absence.
  - The anchor leaf chosen by `get_closest_leaf` depends on float branch lengths, so it is a parameter of `RootMapping.TopologicalRootDistance`.
  - `get_root_distance_metric` sums float branch lengths and is not modelled.
- RootMapping.TopologicalRootDistance: states the depth difference only for anchors that are not a root. ete3's topological distance of a node to itself is not pinned down here.
- Subprocesses, experiment directories, marker files, the process pool, the summary statistics and `map_root_onto_main` are I/O and are not modelled.
- Checkpoint plumbing is not modelled: POSIX file descriptors and `open` flags, the `fcntl` write lock, `F_DUPFD`, `lseek`, `rename`, `close`, `__MPI_RANK__`, and `get_inode`/`reload`. `clean` is modelled as run by rank 0.
- `cli_options_t`'s field types live in a header that is not part of this model:
  - The seven filename, prefix and model fields are taken as `std::string`.
  - Every other field is an opaque byte image: 4 bytes for the two enumerations, 1 for the five flags, and 8 for the rest.
- `sizeof(size_t)` is taken as 8 with a little-endian image, as on the 64-bit targets.
- ByteStream.ReadFixed: the generic `read(fd, T&)` template called at `src/checkpoint.cpp` lines 30 and 89-106 lives in a header that is not part of this model. It is taken to be one `read(2)` of the value's in-memory image into the object, a short read keeping the bytes it did not reach, with the count cast to `size_t` and no exception.
- ByteStream.WriteFixed: the generic `write(fd, const T&)` template called at `src/checkpoint.cpp` lines 58-75 is in the same header. It is taken to be one `write(2)` of the value's image with the result cast to `size_t` and no exception. That is why only a string field's write can fail in `OptionsCodec.WriteField`.
- `read_with_checksum`, `write_with_checksum` and `expected_read_size` are defined in headers that are not part of this model:
  - The record region is given as the sequence of what successive checksummed reads return.
  - A record written with its checksum is taken to read back as a full-size read of the same result.
  - The expected size is a parameter.
- `read_with_success` and `write_with_success` are also in those headers:
  - Reading the options is modelled as the plain options read, without a check of its count.
  - Checkpoint.SaveOptions: only a failed string prefix write is an error. A short count is not checked, so a character write cut short by the device still saves.
- Checkpoint.SaveOptions: the model appends the options to the header, before any results. The descriptor it writes to (`src/checkpoint.cpp` line 155) was opened with `O_APPEND` (line 115), so the options really go to the end of the file, after any results already written. The model matches the file only while no result has been written before the save.
- Checkpoint.Clean: the backup file's option writes are taken always to fit, so only the scan can make a clean fail after the backup is created.
- Checkpoint.Clean: after the `rename` the object's descriptor still refers to the replaced file until `reload`, so a later `write` goes to that old file. The model returns the cleaned file as the checkpoint.
- The options are read from the header bytes alone. `clean` reads from the main descriptor, whose offset the model takes to be the start of the file. `load_options` opens a new descriptor, which is never closed.
- The header read in `current_progress` cannot fail in the model, so the scan never raises from it.
- StringCodec.ReadString: `read(2)` never fails in the model, so the `checkpoint_read_failure` branch is not reachable. The `calloc` of the string size plus one cannot fail or overflow.
- OptionsCodec.ReadFieldCount: states the count only when the bytes read stay below 2^64. The string read's exact count modulo 2^64 is `StringCodec.ReadStringCount`.
- OptionsCodec.ReadFieldsCount: states the total only while it stays below 2^64, for the same reason.
- OptionsCodec.ReadOptionsCount: states the count only when the record is shorter than 2^64 bytes.
- OptionsCodec.WriteFieldCount: states the count only for a field encoding shorter than 2^64 bytes, where no wrap-around happens.
- OptionsCodec.WriteFieldsCount: states the total only while it stays below 2^64, for the same reason.
- OptionsCodec.WriteOptionsWithRoom: states the count only for a record shorter than 2^64 bytes.
- `checkpoint_t`'s constructor, destructor and move operations only open and close the file. They are not modelled beyond the `existing` flag.
