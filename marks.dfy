/** Marks and the mark cache.
    A mark locates the start of a granule in a column file. A stream loads
    the whole mark file of its column once, going through the process-wide
    mark cache; whether a freshly read mark file is stored in the cache is a
    setting of the reader (`save_marks_in_cache`). */
module Marks {

  /** Where a granule starts: the offset of its compressed block in the file
      and the offset of its first value inside the decompressed block. */
  datatype Mark = Mark(offsetInCompressedFile: nat, offsetInDecompressedBlock: nat)

  /** The process-wide mark cache: mark-file path to the marks it holds.
      Eviction under memory pressure and locking are not part of this model. */
  class MarkCache {
    var entries: map<string, seq<Mark>>

    constructor ()
      ensures entries == map[]
    {
      entries := map[];
    }

    /** Looks up the marks of a file. */
    method Lookup(path: string) returns (found: bool, marks: seq<Mark>)
      ensures found <==> path in entries
      ensures found ==> marks == entries[path]
    {
      found := path in entries;
      marks := if found then entries[path] else [];
    }

    /** Stores the marks of a file. */
    method Set(path: string, marks: seq<Mark>)
      modifies this
      ensures entries == old(entries)[path := marks]
    {
      entries := entries[path := marks];
    }
  }

  /** The entries of a cache; a reader without a cache sees none. */
  function CacheEntries(cache: MarkCache?): map<string, seq<Mark>>
    reads cache
  {
    if cache == null then map[] else cache.entries
  }

  /** The path of a stream's mark file: the stream's path prefix with the
      extension of ordinary or of null-indicator mark files. */
  function MarksPath(pathPrefix: string, isNullStream: bool): string
  {
    pathPrefix + (if isNullStream then ".null_mrk" else ".mrk")
  }

  /** The mark file of the data stream of column `name` under `prefix`. */
  function ColumnMarksPath(prefix: string, name: string): string
  {
    MarksPath(prefix + name, false)
  }

  /** Distinct columns under one prefix have distinct mark files. */
  lemma ColumnMarksPathsDiffer(prefix: string, a: string, b: string)
    requires a != b
    ensures ColumnMarksPath(prefix, a) != ColumnMarksPath(prefix, b)
  {
    var pa, pb := ColumnMarksPath(prefix, a), ColumnMarksPath(prefix, b);
    if |a| == |b| {
      var i :| 0 <= i < |a| && a[i] != b[i];
      assert pa[|prefix| + i] == a[i];
      assert pb[|prefix| + i] == b[i];
    } else {
      assert |pa| != |pb|;
    }
  }

  /** What loading one mark file yields: the marks and the cache afterwards. */
  datatype Loaded = Loaded(marks: seq<Mark>, entries: map<string, seq<Mark>>)

  /** Loading the marks of `path`, whose file holds `onDisk`, through a cache
      holding `entries` (when `cacheEnabled`). A cached copy is used as is;
      otherwise the file is read, and stored only when `saveInCache`. */
  function LoadThroughCache(cacheEnabled: bool, entries: map<string, seq<Mark>>, path: string,
                            saveInCache: bool, onDisk: seq<Mark>): (r: Loaded)
    ensures !saveInCache || !cacheEnabled ==> r.entries == entries
    ensures forall p :: p in entries ==> p in r.entries && r.entries[p] == entries[p]
    ensures forall p :: p in r.entries ==> p in entries || p == path
    ensures cacheEnabled && path in entries ==> r.marks == entries[path]
    ensures !(cacheEnabled && path in entries) ==> r.marks == onDisk
    ensures cacheEnabled && saveInCache ==> path in r.entries && r.entries[path] == r.marks
  {
    var marks := MarksFound(cacheEnabled, entries, path, onDisk);
    if cacheEnabled && path !in entries && saveInCache then Loaded(marks, entries[path := marks])
    else Loaded(marks, entries)
  }

  /** The marks a load yields: the cached copy on a hit, the file otherwise. */
  function MarksFound(cacheEnabled: bool, entries: map<string, seq<Mark>>, path: string,
                      onDisk: seq<Mark>): seq<Mark>
  {
    if cacheEnabled && path in entries then entries[path] else onDisk
  }

  /** Loading one path reads nothing of the cache but that path's entry: two
      caches that agree on it yield the same marks. */
  lemma LoadDependsOnlyOnEntry(cacheEnabled: bool, e1: map<string, seq<Mark>>, e2: map<string, seq<Mark>>,
                               path: string, saveInCache: bool, onDisk: seq<Mark>)
    requires SameEntry(e1, e2, path)
    ensures LoadThroughCache(cacheEnabled, e1, path, saveInCache, onDisk).marks
         == LoadThroughCache(cacheEnabled, e2, path, saveInCache, onDisk).marks
  {
  }

  /** Two caches hold the same entry, or none, for `path`. */
  predicate SameEntry(e1: map<string, seq<Mark>>, e2: map<string, seq<Mark>>, path: string)
  {
    (path in e1 <==> path in e2) && (path in e1 ==> e1[path] == e2[path])
  }

  /** The state after loading the mark files `loaded` one after the other
      through a cache that held `e0`: each file yielded what loading it
      through `e0` alone would give; the cache `cur` still holds `e0`'s entry
      for every other file; and with saving on, it holds every loaded file. */
  ghost predicate LoadedThrough(cacheEnabled: bool, saveInCache: bool, files: map<string, seq<Mark>>,
                                e0: map<string, seq<Mark>>, cur: map<string, seq<Mark>>,
                                loaded: map<string, seq<Mark>>)
  {
    && (forall p :: p in loaded ==>
          p in files && loaded[p] == MarksFound(cacheEnabled, e0, p, files[p]))
    && (forall p :: p !in loaded ==> SameEntry(e0, cur, p))
    && (cacheEnabled && saveInCache ==> forall p :: p in loaded ==> p in cur && cur[p] == loaded[p])
    && (!(cacheEnabled && saveInCache) ==> cur == e0)
  }

  /** Loading one more file keeps `LoadedThrough`: the cache still held `e0`'s
      entry for it, so it yields what loading through `e0` would. */
  lemma LoadedThroughStep(cacheEnabled: bool, saveInCache: bool, files: map<string, seq<Mark>>,
                          e0: map<string, seq<Mark>>, cur: map<string, seq<Mark>>,
                          loaded: map<string, seq<Mark>>, path: string)
    requires LoadedThrough(cacheEnabled, saveInCache, files, e0, cur, loaded)
    requires path !in loaded && path in files
    ensures var l := LoadThroughCache(cacheEnabled, cur, path, saveInCache, files[path]);
      LoadedThrough(cacheEnabled, saveInCache, files, e0, l.entries, loaded[path := l.marks])
  {
    var l := LoadThroughCache(cacheEnabled, cur, path, saveInCache, files[path]);
    LoadDependsOnlyOnEntry(cacheEnabled, e0, cur, path, saveInCache, files[path]);
  }

  /** Every cached mark file agrees with the file on disk. */
  predicate Coherent(entries: map<string, seq<Mark>>, files: map<string, seq<Mark>>)
  {
    forall p :: p in entries && p in files ==> entries[p] == files[p]
  }

  /** The cache only gains entries: nothing cached is dropped or replaced. */
  predicate Grows(before: map<string, seq<Mark>>, after: map<string, seq<Mark>>)
  {
    forall p :: p in before ==> p in after && after[p] == before[p]
  }

  /** Loading through the cache never drops or replaces a cached entry. */
  lemma LoadedThroughGrows(cacheEnabled: bool, saveInCache: bool, files: map<string, seq<Mark>>,
                           e0: map<string, seq<Mark>>, cur: map<string, seq<Mark>>,
                           loaded: map<string, seq<Mark>>)
    requires LoadedThrough(cacheEnabled, saveInCache, files, e0, cur, loaded)
    ensures Grows(e0, cur)
  {
    forall p | p in e0 ensures p in cur && cur[p] == e0[p] {
      if p !in loaded {
        assert SameEntry(e0, cur, p);
      }
    }
  }

  /** The cache gains entries only for the files loaded. */
  lemma LoadedThroughNewEntries(cacheEnabled: bool, saveInCache: bool, files: map<string, seq<Mark>>,
                                e0: map<string, seq<Mark>>, cur: map<string, seq<Mark>>,
                                loaded: map<string, seq<Mark>>)
    requires LoadedThrough(cacheEnabled, saveInCache, files, e0, cur, loaded)
    ensures cur.Keys <= e0.Keys + loaded.Keys
  {
    forall p | p in cur && p !in loaded ensures p in e0 {
      assert SameEntry(e0, cur, p);
    }
  }

  /** A cache that agreed with the disk before loading still does, and every
      file loaded through it yielded the file's own marks. */
  lemma LoadedThroughCoherent(cacheEnabled: bool, saveInCache: bool, files: map<string, seq<Mark>>,
                              e0: map<string, seq<Mark>>, cur: map<string, seq<Mark>>,
                              loaded: map<string, seq<Mark>>)
    requires LoadedThrough(cacheEnabled, saveInCache, files, e0, cur, loaded)
    requires Coherent(e0, files)
    ensures Coherent(cur, files)
    ensures forall p :: p in loaded ==> loaded[p] == files[p]
  {
    forall p | p in cur && p in files ensures cur[p] == files[p] {
      if p !in loaded {
        assert SameEntry(e0, cur, p);
      }
    }
  }

  /** Caching affects only where marks come from, not what they are: with a
      cache that agrees with the disk, the marks loaded are the file's, whether
      or not there is a cache and whether or not it is written to, and the
      cache still agrees with the disk afterwards. */
  lemma CacheIsTransparent(cacheEnabled: bool, entries: map<string, seq<Mark>>, path: string,
                           saveInCache: bool, files: map<string, seq<Mark>>)
    requires Coherent(entries, files) && path in files
    ensures var r := LoadThroughCache(cacheEnabled, entries, path, saveInCache, files[path]);
      r.marks == files[path] && Coherent(r.entries, files)
  {
  }
}
