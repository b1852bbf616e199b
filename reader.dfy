/** The reader of one data part: its column streams, which load their marks
    through the mark cache, and the three public operations on a block —
    `readRange`, `fillMissingColumns` and `fillMissingColumnsAndReorder`. */
module Reader {
  import opened Blocks
  import opened Marks
  import opened FillMissing
  import opened ReadRange

  /** Whether a stream reads a null-indicator file (its extension). */
  predicate IsNullStream(extension: string)
  {
    extension == ".null"
  }

  /** The stream of one physical column file. Only its marks are modelled: the
      read buffers and the seek decisions behind them are not. */
  class Stream {
    const pathPrefix: string
    const extension: string
    var marks: seq<Mark>

    /** Opens the stream and loads its marks. */
    constructor (pathPrefix: string, extension: string, markCache: MarkCache?,
                 saveMarksInCache: bool, markFiles: map<string, seq<Mark>>)
      requires MarksPath(pathPrefix, IsNullStream(extension)) in markFiles
      modifies markCache
      ensures this.pathPrefix == pathPrefix && this.extension == extension
      ensures var path := MarksPath(pathPrefix, IsNullStream(extension));
        var l := LoadThroughCache(markCache != null, old(CacheEntries(markCache)), path,
                                  saveMarksInCache, markFiles[path]);
        marks == l.marks && CacheEntries(markCache) == l.entries
    {
      this.pathPrefix := pathPrefix;
      this.extension := extension;
      marks := [];
      new;
      LoadMarks(markCache, saveMarksInCache, IsNullStream(extension), markFiles);
    }

    /** Loads the marks of the stream's mark file: from the cache when it holds
        them; otherwise from the file, storing them in the cache only when
        `saveInCache` is set, so that a reader asked not to can read marks
        without pushing other entries out of the cache. */
    method LoadMarks(cache: MarkCache?, saveInCache: bool, isNullStream: bool,
                     markFiles: map<string, seq<Mark>>)
      requires MarksPath(pathPrefix, isNullStream) in markFiles
      modifies this`marks, cache
      ensures var path := MarksPath(pathPrefix, isNullStream);
        var l := LoadThroughCache(cache != null, old(CacheEntries(cache)), path,
                                  saveInCache, markFiles[path]);
        marks == l.marks && CacheEntries(cache) == l.entries
    {
      var path := MarksPath(pathPrefix, isNullStream);
      if cache != null {
        var found, cached := cache.Lookup(path);
        if found {
          marks := cached;
          return;
        }
      }
      marks := markFiles[path];
      if cache != null && saveInCache {
        cache.Set(path, marks);
      }
    }
  }

  /** Reads the values of one column into the block: appended to the column
      if the block has it, added as a new last column otherwise. */
  method AppendColumn(res: Block, name: string, values: seq<Value>)
    modifies res
    ensures res.columns == ReadColumn(old(res.columns), name, values)
  {
    if Has(res.columns, name) {
      var k := IndexOf(res.columns, name);
      res.columns := res.columns[k := Column(name, res.columns[k].values + values)];
    } else {
      res.columns := res.columns + [Column(name, values)];
    }
  }

  /** Reads the requested columns of one part, range of marks by range of
      marks, into blocks. */
  class MergeTreeReader {
    const part: DataPart
    /** The requested columns. */
    const columns: seq<string>
    const markCache: MarkCache?
    const saveMarksInCache: bool
    /** One stream per requested column that has files, by column name. */
    var streams: map<string, Stream>

    /** The requested columns that have files in the part. */
    function WithFiles(): set<string>
    {
      set n | n in columns && n in part.data
    }

    ghost predicate Valid()
      reads this
    {
      part.Valid() && Distinct(columns) && streams.Keys == WithFiles()
    }

    /** The path of the mark file of column `n`. */
    function MarksFileOf(n: string): string
    {
      ColumnMarksPath(part.path, n)
    }

    /** Every stream holds the marks of its column's mark file. */
    ghost predicate MarksLoaded()
      reads this, streams.Values
      requires part.Valid()
    {
      forall n :: n in streams ==> n in part.data && streams[n].marks == part.markFiles[MarksFileOf(n)]
    }

    /** Creates a stream for every requested column that has files, loading
        its marks through the mark cache. */
    constructor (part: DataPart, columns: seq<string>, markCache: MarkCache?, saveMarksInCache: bool)
      requires part.Valid() && Distinct(columns)
      modifies markCache
      ensures Valid()
      ensures this.part == part && this.columns == columns
      ensures this.markCache == markCache && this.saveMarksInCache == saveMarksInCache
      ensures forall n :: n in streams ==> fresh(streams[n])
      ensures Grows(old(CacheEntries(markCache)), CacheEntries(markCache))
      ensures !saveMarksInCache ==> CacheEntries(markCache) == old(CacheEntries(markCache))
      ensures Coherent(old(CacheEntries(markCache)), part.markFiles) ==>
                Coherent(CacheEntries(markCache), part.markFiles) && MarksLoaded()
      ensures forall n :: n in streams ==>
                && n in part.data
                && streams[n].marks == LoadThroughCache(markCache != null, old(CacheEntries(markCache)), MarksFileOf(n),
                                                        saveMarksInCache, part.markFiles[MarksFileOf(n)]).marks
      ensures markCache != null && saveMarksInCache ==>
                forall n :: n in streams ==>
                  MarksFileOf(n) in CacheEntries(markCache) && CacheEntries(markCache)[MarksFileOf(n)] == streams[n].marks
      ensures CacheEntries(markCache).Keys <= old(CacheEntries(markCache)).Keys + MarksFiles(streams.Keys)
    {
      this.part := part;
      this.columns := columns;
      this.markCache := markCache;
      this.saveMarksInCache := saveMarksInCache;
      streams := map[];
      new;
      ghost var e0 := CacheEntries(markCache);
      ghost var loaded := OpenStreams(e0);
      LoadedThroughGrows(markCache != null, saveMarksInCache, part.markFiles, e0, CacheEntries(markCache), loaded);
      if Coherent(e0, part.markFiles) {
        LoadedThroughCoherent(markCache != null, saveMarksInCache, part.markFiles, e0, CacheEntries(markCache), loaded);
        forall n | n in streams ensures n in part.data && streams[n].marks == part.markFiles[MarksFileOf(n)] {
        }
      }
      forall n | n in streams
        ensures streams[n].marks == LoadThroughCache(markCache != null, e0, MarksFileOf(n), saveMarksInCache,
                                                     part.markFiles[MarksFileOf(n)]).marks
      {
      }
      LoadedThroughNewEntries(markCache != null, saveMarksInCache, part.markFiles, e0, CacheEntries(markCache), loaded);
      assert streams.Keys == WithFiles();
    }

    /** Opens the stream of every requested column that has files, one column
        after the other. `loaded` holds, by mark file, the marks each stream
        got: what loading through the cache's entries `e0` at the start gives. */
    method OpenStreams(ghost e0: map<string, seq<Mark>>) returns (ghost loaded: map<string, seq<Mark>>)
      requires part.Valid() && Distinct(columns) && streams == map[] && e0 == CacheEntries(markCache)
      modifies this, markCache
      ensures forall n :: n in streams <==> n in columns && n in part.data
      ensures forall n :: n in streams ==> fresh(streams[n])
      ensures forall n :: n in streams ==> MarksFileOf(n) in loaded && streams[n].marks == loaded[MarksFileOf(n)]
      ensures loaded.Keys <= MarksFiles(streams.Keys)
      ensures LoadedThrough(markCache != null, saveMarksInCache, part.markFiles, e0, CacheEntries(markCache), loaded)
    {
      loaded := map[];
      var i := 0;
      while i < |columns|
        invariant 0 <= i <= |columns|
        invariant forall n :: n in streams <==> n in columns[..i] && n in part.data
        invariant forall n :: n in streams ==> fresh(streams[n])
        invariant forall n :: n in streams ==> MarksFileOf(n) in loaded && streams[n].marks == loaded[MarksFileOf(n)]
        invariant forall n :: n !in streams ==> MarksFileOf(n) !in loaded
        invariant loaded.Keys <= MarksFiles(streams.Keys)
        invariant LoadedThrough(markCache != null, saveMarksInCache, part.markFiles, e0, CacheEntries(markCache), loaded)
      {
        var name := columns[i];
        assert name !in streams;
        ghost var before, loadedBefore := streams, loaded;
        loaded := OpenStream(name, e0, loaded);
        forall n | n in streams ensures fresh(streams[n]) {
          if n in before {
            assert streams[n] == before[n];
          }
        }
        LoadedKeysStep(before.Keys, streams.Keys, loadedBefore.Keys, loaded.Keys, name);
        PrefixStep(columns, i);
        i := i + 1;
      }
      assert columns[..|columns|] == columns;
    }

    /** One step of `OpenStreams`: opens the stream of column `name` and
        records the marks it got in `loaded`. */
    method OpenStream(name: string, ghost e0: map<string, seq<Mark>>, ghost loaded: map<string, seq<Mark>>)
      returns (ghost loaded': map<string, seq<Mark>>)
      requires part.Valid() && name !in streams
      requires forall n :: n in streams ==> n in part.data
      requires forall n :: n in streams ==> MarksFileOf(n) in loaded && streams[n].marks == loaded[MarksFileOf(n)]
      requires forall n :: n !in streams ==> MarksFileOf(n) !in loaded
      requires LoadedThrough(markCache != null, saveMarksInCache, part.markFiles, e0, CacheEntries(markCache), loaded)
      modifies this, markCache
      ensures streams.Keys == old(streams.Keys) + (if name in part.data then {name} else {})
      ensures forall n :: n in old(streams) ==> streams[n] == old(streams[n])
      ensures forall n :: n in streams && n !in old(streams) ==> fresh(streams[n])
      ensures forall n :: n in streams ==> MarksFileOf(n) in loaded' && streams[n].marks == loaded'[MarksFileOf(n)]
      ensures forall n :: n !in streams ==> MarksFileOf(n) !in loaded'
      ensures loaded'.Keys <= loaded.Keys + (if name in part.data then {MarksFileOf(name)} else {})
      ensures LoadedThrough(markCache != null, saveMarksInCache, part.markFiles, e0, CacheEntries(markCache), loaded')
    {
      loaded' := loaded;
      if name !in part.data {
        AddStream(name);
        return;
      }
      var path := MarksFileOf(name);
      ghost var l := LoadThroughCache(markCache != null, CacheEntries(markCache), path,
                                      saveMarksInCache, part.markFiles[path]);
      LoadedThroughStep(markCache != null, saveMarksInCache, part.markFiles,
                        e0, CacheEntries(markCache), loaded, path);
      loaded' := loaded[path := l.marks];
      OtherMarksFiles(name);
      AddStream(name);
      assert CacheEntries(markCache) == l.entries && streams[name].marks == l.marks;
      forall n | n in streams ensures MarksFileOf(n) in loaded' && streams[n].marks == loaded'[MarksFileOf(n)] {
        if n != name {
          assert n in old(streams);
        }
      }
      forall n | n !in streams ensures MarksFileOf(n) !in loaded' {
        assert n != name && n !in old(streams);
      }
    }

    /** The mark files of the columns `names`. */
    function MarksFiles(names: set<string>): set<string>
    {
      set n | n in names :: MarksFileOf(n)
    }

    /** Opening the stream of column `name` keeps every loaded mark file the
        mark file of an open stream. */
    lemma LoadedKeysStep(before: set<string>, after: set<string>, loadedBefore: set<string>,
                         loaded: set<string>, name: string)
      requires loadedBefore <= MarksFiles(before) && before <= after
      requires loaded <= loadedBefore + (if name in after then {MarksFileOf(name)} else {})
      ensures loaded <= MarksFiles(after)
    {
      forall p | p in loaded ensures p in MarksFiles(after) {
        if p in loadedBefore {
          var n :| n in before && p == MarksFileOf(n);
          assert n in after;
        }
      }
    }

    /** Different columns have different mark files. */
    lemma OtherMarksFiles(name: string)
      ensures forall n :: n != name ==> MarksFileOf(n) != MarksFileOf(name)
    {
      forall n | n != name ensures MarksFileOf(n) != MarksFileOf(name) {
        ColumnMarksPathsDiffer(part.path, n, name);
      }
    }

    /** Opens the stream of column `name`, unless it has one already or the
        column has no files in the part. */
    method AddStream(name: string)
      requires part.Valid()
      requires forall n :: n in streams ==> n in part.data
      modifies this, markCache
      ensures streams.Keys == old(streams.Keys) + (if name in part.data then {name} else {})
      ensures forall n :: n in old(streams) ==> streams[n] == old(streams[n])
      ensures forall n :: n in streams && n !in old(streams) ==> fresh(streams[n])
      ensures forall n :: n in old(streams) ==> streams[n].marks == old(streams[n].marks)
      ensures name !in part.data || name in old(streams) ==>
        CacheEntries(markCache) == old(CacheEntries(markCache))
      ensures name in part.data && name !in old(streams) ==>
        var l := LoadThroughCache(markCache != null, old(CacheEntries(markCache)), MarksFileOf(name),
                                  saveMarksInCache, part.markFiles[MarksFileOf(name)]);
        CacheEntries(markCache) == l.entries && streams[name].marks == l.marks
      ensures Grows(old(CacheEntries(markCache)), CacheEntries(markCache))
      ensures !saveMarksInCache ==> CacheEntries(markCache) == old(CacheEntries(markCache))
    {
      if name in streams || name !in part.data {
        return;
      }
      var s := new Stream(part.path + name, ".bin", markCache, saveMarksInCache, part.markFiles);
      streams := streams[name := s];
    }

    /** Reads the marks [fromMark, toMark) of every requested column that has
        files into `res`: appended to the column if the block has it, added as
        a new column at the end otherwise. The block must hold either none or
        all of these columns on entry; afterwards it holds all of them. */
    method ReadRange(fromMark: nat, toMark: nat, res: Block)
      requires Valid() && fromMark <= toMark <= part.MarksCount()
      requires MarksLoaded()
      requires WellFormed(res.columns)
      requires NoneOrAll(res.columns, columns, streams.Keys)
      modifies res
      ensures res.columns == ReadInto(old(res.columns), columns, streams.Keys, part.Read(fromMark, toMark))
      ensures WellFormed(res.columns)
      ensures forall n :: n in streams ==>
        Has(res.columns, n) && Get(res.columns, n).values ==
          Prior(old(res.columns), n) + part.ColumnRange(n, fromMark, toMark)
      ensures forall n :: n !in streams ==>
        (Has(res.columns, n) <==> Has(old(res.columns), n)) &&
        (Has(res.columns, n) ==> Get(res.columns, n) == Get(old(res.columns), n))
    {
      ghost var read := part.Read(fromMark, toMark);
      var i := 0;
      while i < |columns|
        invariant 0 <= i <= |columns|
        invariant res.columns == ReadInto(old(res.columns), columns[..i], streams.Keys, read)
      {
        var name := columns[i];
        if name in streams {
          AppendColumn(res, name, part.ColumnRange(name, fromMark, toMark));
        }
        assert columns[..i + 1][..i] == columns[..i];
        i := i + 1;
      }
      assert columns[..|columns|] == columns;
      ReadIntoSpec(old(res.columns), columns, streams.Keys, read);
    }

    /** Adds a column of default values for every name of `orderedNames` the
        block lacks; reorders the block as `orderedNames` when a column was
        added or `alwaysReorder` is set. */
    method FillMissingColumns(res: Block, orderedNames: seq<string>, alwaysReorder: bool)
      requires WellFormed(res.columns) && Distinct(orderedNames)
      modifies res
      ensures res.columns == Fill(old(res.columns), orderedNames, alwaysReorder)
      ensures WellFormed(res.columns)
      ensures forall n :: Has(res.columns, n) <==> Has(old(res.columns), n) || n in orderedNames
      ensures forall n :: Has(old(res.columns), n) ==> Get(res.columns, n) == Get(old(res.columns), n)
      ensures forall n :: n in orderedNames && !Has(old(res.columns), n) ==>
        Get(res.columns, n) == Column(n, Defaults(Rows(old(res.columns))))
      ensures !AnyMissing(old(res.columns), orderedNames) && !alwaysReorder ==>
        res.columns == old(res.columns)
    {
      FillMissingColumnsImpl(res, orderedNames, alwaysReorder);
      ghost var before := old(res.columns);
      FillHasExactly(before, orderedNames, alwaysReorder);
      forall n | Has(before, n) || n in orderedNames
        ensures Get(res.columns, n) == if Has(before, n) then Get(before, n) else Column(n, Defaults(Rows(before)))
      {
        FillColumns(before, orderedNames, alwaysReorder, n);
      }
    }

    /** Like `FillMissingColumns`, but always reorders: the block's columns are
        those of `orderedNames` in that order, followed by its other columns. */
    method FillMissingColumnsAndReorder(res: Block, orderedNames: seq<string>)
      requires WellFormed(res.columns) && Distinct(orderedNames)
      modifies res
      ensures res.columns == Fill(old(res.columns), orderedNames, true)
      ensures Names(res.columns) == orderedNames + Except(Names(old(res.columns)), orderedNames)
      ensures forall n :: Has(old(res.columns), n) ==> Get(res.columns, n) == Get(old(res.columns), n)
    {
      FillMissingColumnsImpl(res, orderedNames, true);
      ghost var before := old(res.columns);
      FillOrder(before, orderedNames, true);
      forall n | Has(before, n)
        ensures Get(res.columns, n) == Get(before, n)
      {
        FillColumns(before, orderedNames, true, n);
      }
    }

    /** Appends the missing columns of `orderedNames`, then, if one was added
        or `alwaysReorder` is set, rebuilds the block in the order of
        `orderedNames`, the columns not named there after them. */
    method FillMissingColumnsImpl(res: Block, orderedNames: seq<string>, alwaysReorder: bool)
      requires WellFormed(res.columns)
      modifies res
      ensures res.columns == Fill(old(res.columns), orderedNames, alwaysReorder)
    {
      var added := false;
      var i := 0;
      while i < |orderedNames|
        invariant 0 <= i <= |orderedNames|
        invariant res.columns == AddMissing(old(res.columns), orderedNames[..i])
        invariant added == AnyMissing(old(res.columns), orderedNames[..i])
      {
        var name := orderedNames[i];
        AnyMissingStep(old(res.columns), orderedNames, i);
        if !Has(res.columns, name) {
          res.columns := res.columns + [Column(name, Defaults(Rows(res.columns)))];
          added := true;
        }
        assert orderedNames[..i + 1][..i] == orderedNames[..i];
        i := i + 1;
      }
      assert orderedNames[..|orderedNames|] == orderedNames;

      if added || alwaysReorder {
        ReorderColumns(res, orderedNames);
      } else {
        AddsNothingIffNoneMissing(old(res.columns), orderedNames);
      }
    }

    /** Rebuilds the block in the order of `orderedNames`: first the columns
        named there, in that order, then the others in their previous order. */
    method ReorderColumns(res: Block, orderedNames: seq<string>)
      modifies res
      ensures res.columns == Reorder(old(res.columns), orderedNames)
    {
      var ordered: seq<Column> := [];
      var j := 0;
      while j < |orderedNames|
        invariant 0 <= j <= |orderedNames|
        invariant ordered == Pick(res.columns, orderedNames[..j])
      {
        var name := orderedNames[j];
        if Has(res.columns, name) {
          ordered := ordered + [Get(res.columns, name)];
        }
        assert orderedNames[..j + 1][..j] == orderedNames[..j];
        j := j + 1;
      }
      assert orderedNames[..|orderedNames|] == orderedNames;
      var rest: seq<Column> := [];
      var k := 0;
      while k < |res.columns|
        invariant 0 <= k <= |res.columns|
        invariant rest == Others(res.columns[..k], orderedNames)
      {
        if res.columns[k].name !in orderedNames {
          rest := rest + [res.columns[k]];
        }
        assert res.columns[..k + 1][..k] == res.columns[..k];
        k := k + 1;
      }
      assert res.columns[..|res.columns|] == res.columns;
      res.columns := ordered + rest;
    }
  }
}
