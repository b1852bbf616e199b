# MergeTreeReader — a Dafny model

ClickHouse's `MergeTreeReader` reads the columns of one MergeTree data part
between two marks into a block. A part stores each column as a data file cut
into granules; a mark file gives the start of each granule. The reader opens
one stream per physical file of the requested columns that have files in the
part, keyed by stream name. Each stream loads its marks through the
process-wide mark cache, storing freshly read marks
there only when the reader was built with `save_marks_in_cache`. The reader
has three operations on a caller's block:

- `readRange(from_mark, to_mark, res)` appends the values of marks
  `[from_mark, to_mark)` to the requested columns that have files. It adds a
  column that the block lacks at the end of the block. It never adds a column
  that has no files. The block must hold none or all of those columns.
- `fillMissingColumns(res, ordered_names, always_reorder)` adds each column of
  `ordered_names` that the block lacks, filled with default values. If it
  added one, or if `always_reorder` is set, it then reorders the block as in
  `ordered_names`.
- `fillMissingColumnsAndReorder(res, ordered_names)` does the same and always
  reorders.

The model has five modules:

- `Blocks` (`blocks.dfy`) defines a column, a block and name lookup. A
  `Block` is a class whose `columns` the reader reassigns, as the C++ reader
  updates `Block & res`.
- `FillMissing` (`fill_missing.dfy`) gives the specification functions for
  filling and reordering, with their lemmas.
- `ReadRange` (`read_range.dfy`) defines a data part and the specification
  function of `readRange`, with its lemmas.
- `Marks` (`marks.dfy`) defines marks, the mark cache and the loading policy.
- `Reader` (`reader.dfy`) holds the `Stream` and `MergeTreeReader` classes.
  Their methods update the block, the streams and the cache with loops. Each
  method is proved against the specification functions above.

`Scenarios` (`scenarios.dfy`) checks one client against the reader's
contracts. The part has three one-row granules. Column `x` holds `v`, `v + 1`
and `v + 2`, and column `y` has no files. Reading marks `[0, 1)` and then
filling `[y, x]` gives `y: [default], x: [v]`. With `save_marks_in_cache`
off, the mark cache stays as it was.

Interpretation of the reader's documentation:

- A block's column names are distinct (`WellFormed`). The requested columns
  and `ordered_names` hold no duplicates.
- Reordering puts the columns named in `ordered_names` first, in that order.
  The block's other columns follow in their original order. The header says
  only "reordered as in `ordered_names`", so this is one reading of it.
- The header says missing columns are added "in the positions they have in
  `ordered_names`". The model appends them and then reorders. A reorder always
  follows an addition, so both give the same block.
- A column is present in the part when it has decoded values (`data`) there.
  Its mark file is the part path plus the column name plus `.mrk`; a
  null-indicator stream's mark file ends in `.null_mrk`. The implementation
  file `MergeTreeReader.cpp` is not part of this model, so these names follow
  the MergeTree on-disk layout.

## Model

| member | source | states |
|---|---|---|
| Reader.MergeTreeReader.ReadRange | dbms/include/DB/Storages/MergeTree/MergeTreeReader.h:48-52 | Requires a block holding none or all of the requested columns with files, and streams holding their mark files' marks (`MarksLoaded`). Afterwards each such column holds its previous values followed by the part's values for marks [from, to). Every other column is unchanged, and no column without files is added. |
| ReadRange.ReadIntoSpec | dbms/include/DB/Storages/MergeTree/MergeTreeReader.h:48-50 | The block after a read stays well formed. Its names are the old names followed by the requested, filed columns it lacked, in request order. A column is present iff it was before or it is requested and has files. Read columns are the prior values plus the read values; the rest are unchanged. |
| ReadRange.ReadIntoNames | dbms/include/DB/Storages/MergeTree/MergeTreeReader.h:48-49 | The names half of `ReadIntoSpec`: well-formedness, the order of names, and which names are present. |
| ReadRange.ReadIntoColumns | dbms/include/DB/Storages/MergeTree/MergeTreeReader.h:48-49 | The columns half of `ReadIntoSpec`: each read column holds its prior values plus the values read, and every other old column is unchanged. |
| ReadRange.AddedMembers | dbms/include/DB/Storages/MergeTree/MergeTreeReader.h:48-49 | A column is added iff it is requested, has files and is not in the block yet. |
| Reader.AppendColumn | dbms/include/DB/Storages/MergeTree/MergeTreeReader.h:48 | One step of `readRange`'s loop: the block becomes `ReadColumn` of the old block. |
| ReadRange.ReadColumnSpec | dbms/include/DB/Storages/MergeTree/MergeTreeReader.h:48 | Reading one column appends to it if present, else adds it at the end. No other column changes. |
| ReadRange.AddedNone | dbms/include/DB/Storages/MergeTree/MergeTreeReader.h:48-50 | When the block already holds all requested columns with files, a read adds no column. |
| ReadRange.ReadRangeLengths | dbms/include/DB/Storages/MergeTree/MergeTreeReader.h:50 | If the block holds none or all of the columns and its columns have equal lengths, then afterwards it holds all of them with equal lengths. A column that was absent has exactly the rows of the granules read. |
| ReadRange.ReadEqualLengths | dbms/include/DB/Storages/MergeTree/MergeTreeReader.h:50 | Same none-or-all argument for any values of equal length. |
| ReadRange.ReadSplit | dbms/include/DB/Storages/MergeTree/MergeTreeReader.h:24-25 | Two reads in a row equal one read of the joined values. |
| ReadRange.ReadRangeSplit | dbms/include/DB/Storages/MergeTree/MergeTreeReader.h:24-25 | Reading [from, k) and then [k, to) yields the same block as reading [from, to). |
| ReadRange.ColumnRangeSplit | dbms/include/DB/Storages/MergeTree/MergeTreeReader.h:24 | The values of adjacent mark ranges concatenate to the values of their union. |
| ReadRange.ColumnRangeLength | dbms/include/DB/Storages/MergeTree/MergeTreeReader.h:24 | The values between two marks number the sum of the rows of the granules between them. |
| Reader.MergeTreeReader.FillMissingColumns | dbms/include/DB/Storages/MergeTree/MergeTreeReader.h:54-58 | Afterwards the block holds its old columns plus every name of `ordered_names`. Existing columns are unchanged, and added ones hold only defaults, one per row. With nothing missing and no `always_reorder`, the block is untouched. |
| Reader.MergeTreeReader.FillMissingColumnsAndReorder | dbms/include/DB/Storages/MergeTree/MergeTreeReader.h:60-63 | Always reorders. The names become `ordered_names` followed by the block's other names in their old order. Existing columns are unchanged. |
| Reader.MergeTreeReader.FillMissingColumnsImpl | dbms/include/DB/Storages/MergeTree/MergeTreeReader.h:73 | The shared implementation. A loop adds the missing columns and records whether any was added. It then reorders when one was added or `always_reorder` is set. The result equals `Fill`. |
| Reader.MergeTreeReader.ReorderColumns | dbms/include/DB/Storages/MergeTree/MergeTreeReader.h:56 | Two loops build the reordered block: the named columns, then the others. The result equals `Reorder`. |
| FillMissing.AddMissingSpec | dbms/include/DB/Storages/MergeTree/MergeTreeReader.h:54 | Adding keeps the old columns as a prefix and the row count. The block stays well formed. It has exactly the old names plus `ordered_names`. Every added column was missing, is named in `ordered_names` and holds defaults. |
| FillMissing.AddMissingShape | dbms/include/DB/Storages/MergeTree/MergeTreeReader.h:54 | The shape half of `AddMissingSpec`: the old block is a prefix, the row count is kept, and every appended column is a missing name of `ordered_names` holding defaults. |
| FillMissing.AddMissingNames | dbms/include/DB/Storages/MergeTree/MergeTreeReader.h:54 | The names half of `AddMissingSpec`: the block stays well formed and has exactly its old names plus `ordered_names`. |
| FillMissing.AddMissingTail | dbms/include/DB/Storages/MergeTree/MergeTreeReader.h:54-55 | The appended columns all carry names from `ordered_names`. |
| FillMissing.AddsNothingIffNoneMissing | dbms/include/DB/Storages/MergeTree/MergeTreeReader.h:56 | Adding changes the block iff some name of `ordered_names` is missing. |
| FillMissing.AnyMissingStep | dbms/include/DB/Storages/MergeTree/MergeTreeReader.h:56 | Some name is missing up to k+1 iff one was missing up to k or name k is absent after the first k are added. This is the loop's "added" flag. |
| FillMissing.AddMissingGet | dbms/include/DB/Storages/MergeTree/MergeTreeReader.h:54 | After adding, a name holds its old column if it had one, else a column of defaults. |
| FillMissing.PickNames | dbms/include/DB/Storages/MergeTree/MergeTreeReader.h:56 | The picked columns are the block's columns named in `ordered_names`, in that order. |
| FillMissing.OthersNames | dbms/include/DB/Storages/MergeTree/MergeTreeReader.h:56 | The remaining columns are those not named, in block order. |
| FillMissing.ReorderNames | dbms/include/DB/Storages/MergeTree/MergeTreeReader.h:56 | Reordered names: those of `ordered_names` present in the block, then the others. Every column comes from the block. |
| FillMissing.ReorderKeepsColumns | dbms/include/DB/Storages/MergeTree/MergeTreeReader.h:56 | Reordering keeps the same set of names and the same column under each name. The block stays well formed. |
| FillMissing.ReorderFollowsNames | dbms/include/DB/Storages/MergeTree/MergeTreeReader.h:55-56 | After reordering, the named columns appear in the relative order of `ordered_names`. |
| FillMissing.FillHasExactly | dbms/include/DB/Storages/MergeTree/MergeTreeReader.h:54 | Filling yields a well-formed block. A name is present iff it was before or it is in `ordered_names`. |
| FillMissing.FillColumns | dbms/include/DB/Storages/MergeTree/MergeTreeReader.h:54 | After filling, each name holds its old column, or defaults with the block's row count if it was missing. |
| FillMissing.FillOrder | dbms/include/DB/Storages/MergeTree/MergeTreeReader.h:55-56 | When a column was added or `always_reorder` is set, the names are `ordered_names` followed by the block's other names. |
| FillMissing.FillLeavesComplete | dbms/include/DB/Storages/MergeTree/MergeTreeReader.h:56-58 | A block with every name of `ordered_names` is left as is when `always_reorder` is false. |
| FillMissing.FillEqualLengths | dbms/include/DB/Storages/MergeTree/MergeTreeReader.h:54 | Filling a block whose columns have equal lengths keeps them equal. |
| FillMissing.FillIdempotent | dbms/include/DB/Storages/MergeTree/MergeTreeReader.h:54-58 | After a fill nothing is missing, and filling again without `always_reorder` changes nothing. |
| FillMissing.FillAndReorderIdempotent | dbms/include/DB/Storages/MergeTree/MergeTreeReader.h:60-63 | Filling with reorder twice is the same as once. |
| Reader.MergeTreeReader.constructor | dbms/include/DB/Storages/MergeTree/MergeTreeReader.h:32-41 | Opens a stream for exactly the requested columns that have files. Each stream holds the marks that `LoadThroughCache` gives for its mark file through the cache as it was before construction: the cached entry on a hit, even a stale one, and otherwise the file's marks. With a cache and `save_marks_in_cache`, every opened stream's mark file is then cached with the stream's marks. The only entries the cache gains are mark files of opened streams. The cache only gains entries, and none when `save_marks_in_cache` is false. A cache that agreed with the mark files still agrees, and every stream then holds its file's marks. |
| Reader.MergeTreeReader.OpenStreams | dbms/include/DB/Storages/MergeTree/MergeTreeReader.h:32-41 | The constructor's loop opens a stream for exactly the requested columns that have files. It records each stream's marks by mark file, and these are the marks loading through the starting cache gives (`LoadedThrough`). Every recorded mark file is the mark file of an opened stream. |
| Reader.MergeTreeReader.OpenStream | dbms/include/DB/Storages/MergeTree/MergeTreeReader.h:66-68 | One step of that loop: it opens the column's stream, keeps the streams already open, and keeps `LoadedThrough` with the new mark file recorded. It records no mark file but the new column's, and none when the column has no files. |
| Reader.MergeTreeReader.LoadedKeysStep | dbms/include/DB/Storages/MergeTree/MergeTreeReader.h:119-120 | Recording the mark file of a newly opened column keeps every recorded mark file the mark file of an open stream. |
| Reader.MergeTreeReader.OtherMarksFiles | dbms/include/DB/Storages/MergeTree/MergeTreeReader.h:105 | Different columns have different mark files, so loading one column's marks leaves every other column's cache entry alone. |
| Reader.MergeTreeReader.AddStream | dbms/include/DB/Storages/MergeTree/MergeTreeReader.h:66-68 | Opens one stream if the column has files and none exists. The new stream's marks and the cache are exactly those `LoadThroughCache` gives, so `CacheIsTransparent` applies to a coherent cache. Existing streams are untouched. The cache only grows, and not at all without `save_marks_in_cache`. |
| Reader.Stream.constructor | dbms/include/DB/Storages/MergeTree/MergeTreeReader.h:79-84 | A new stream loads its marks through the cache, as `LoadThroughCache` says. |
| Reader.Stream.LoadMarks | dbms/include/DB/Storages/MergeTree/MergeTreeReader.h:89 | Sets the stream's marks and the cache as `LoadThroughCache` says, for the ordinary or the null-indicator mark file. |
| Marks.LoadThroughCache | dbms/include/DB/Storages/MergeTree/MergeTreeReader.h:119-120 | A cache hit returns the cached marks; a miss returns the file's. Without `save_in_cache` (or without a cache) the cache is unchanged. Otherwise the marks read are stored. No entry is ever dropped or replaced, and only the loaded path can be added. |
| Marks.ColumnMarksPathsDiffer | dbms/include/DB/Storages/MergeTree/MergeTreeReader.h:89 | Two different column names under one part path give two different mark-file paths. |
| Marks.LoadDependsOnlyOnEntry | dbms/include/DB/Storages/MergeTree/MergeTreeReader.h:119-120 | The marks loaded for a path depend only on the cache's entry for that path, not on its other entries. |
| Marks.LoadedThroughStep | dbms/include/DB/Storages/MergeTree/MergeTreeReader.h:119-120 | Loading one more, not yet loaded file through the current cache yields what loading it through the starting cache would. The cache still holds the starting entry of every other file, and with saving on it holds every loaded file. |
| Marks.LoadedThroughGrows | dbms/include/DB/Storages/MergeTree/MergeTreeReader.h:119-120 | After any number of such loads, the cache holds every entry it started with, unchanged. |
| Marks.LoadedThroughNewEntries | dbms/include/DB/Storages/MergeTree/MergeTreeReader.h:119-120 | The loads add cache entries only for the files loaded. |
| Marks.LoadedThroughCoherent | dbms/include/DB/Storages/MergeTree/MergeTreeReader.h:119-120 | If the starting cache agreed with the mark files, it still does after the loads, and every file loaded yielded its own marks. |
| Marks.CacheIsTransparent | dbms/include/DB/Storages/MergeTree/MergeTreeReader.h:119-120 | With a cache that agrees with the files, loading yields the file's marks whether or not the cache is used or written, and the cache still agrees. |
| Scenarios.ExampleRead | dbms/include/DB/Storages/MergeTree/MergeTreeReader.h:48-49 | Reading marks [0, 1) of `x` and `y` into an empty block, when only `x` has files, yields `x: [v]` and no `y`. |
| Scenarios.ExampleFill | dbms/include/DB/Storages/MergeTree/MergeTreeReader.h:54-56 | Filling `[y, x]` into a block holding only `x: [v]` yields `y: [default], x: [v]`. |

## Left out

- Reading bytes: buffers, decompression, asynchronous I/O (`aio_threshold`,
  `max_read_buffer_size`) and the uncompressed cache are left out. A part's
  decoded values per granule are given as data (`DataPart.data`).
- `readData` and decoding by column type are left out, including arrays with
  their offset columns, nested columns and nullable columns. Only the marks of
  a null-indicator stream are modelled, through `LoadMarks`'s
  `isNullStream`.
- Reader.MergeTreeReader.AddStream: only the column's data stream is opened.
  The sizes streams and the null-map stream that `addStream` opens by type
  and nesting level are left out. So `streams` holds one stream per column,
  and `LoadMarks`'s null-stream branch is not reached from the reader.
- `Stream::seekToMark` and the choice between seeking and reading on
  (`max_mark_range`, `all_mark_ranges`) change only speed, not the values
  read, so they are left out.
- `getAvgValueSizeHints` and `avg_value_size_hints` are only allocation hints
  with no effect on the result, so they are left out.
- The error paths are left out: a missing data part
  (`NOT_FOUND_EXPECTED_DATA_PART`), exceeding the memory limit
  (`MEMORY_LIMIT_EXCEEDED`) and a missing mark file.
- Reader.MergeTreeReader.constructor: requires a mark file for every column
  with data (`DataPart.Valid`), because the error raised for a missing mark
  file is not modelled.
- Reader.MergeTreeReader.ReadRange: the values read are those of the data
  part, so a part whose files disagree with their marks is not represented.
  The loaded marks do not steer the read, since seeking is not modelled.
  Instead `ReadRange` requires every stream to hold its own mark file's marks
  (`MarksLoaded`). So a read through stale cached marks is not modelled. The
  constructor establishes `MarksLoaded` from a cache that agrees with the mark
  files.
- Mark-cache eviction under memory pressure, locking and thread safety are
  left out. The cache is a map that only grows.
- The profile callback and the clock type are left out. They only measure
  time.
- Escaping of column names in file names is left out. A column's file prefix
  is the part path followed by the column name.
- Column types are left out. A default value is the single value `Default`.
