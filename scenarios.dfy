/** A client of the reader: one granule of `x` is read, then the missing
    `y` is filled, checked against the contracts alone. */
module Scenarios {
  import opened Blocks
  import opened Marks
  import opened FillMissing
  import opened ReadRange
  import opened Reader

  /** A part of three one-row granules whose column `x` holds `v`, `v + 1`
      and `v + 2`, and that has no files for any other column. */
  function ExamplePart(x: string, v: int): (p: DataPart)
    ensures p.Valid() && p.MarksCount() == 3 && p.data.Keys == {x}
  {
    DataPart("part/", [1, 1, 1], map[x := [[Datum(v)], [Datum(v + 1)], [Datum(v + 2)]]],
             map[ColumnMarksPath("part/", x) := [Mark(0, 0), Mark(0, 8), Mark(0, 16)]])
  }

  /** Reading marks [0, 1) of `x` and `y` into an empty block, when only `x`
      has files, yields `x: [v]`. */
  lemma ExampleRead(x: string, y: string, v: int)
    requires x != y
    ensures ReadInto([], [x, y], {x}, ExamplePart(x, v).Read(0, 1)) == [Column(x, [Datum(v)])]
  {
    var p := ExamplePart(x, v);
    assert p.data[x][0..1] == [[Datum(v)]];
    assert Flatten([[Datum(v)]]) == Flatten([]) + [Datum(v)];
    assert p.ColumnRange(x, 0, 1) == [Datum(v)];
    assert [x, y][..1] == [x];
    assert [x][..0] == [];
    assert ReadInto([], [x], {x}, p.Read(0, 1)) == ReadColumn([], x, [Datum(v)]);
  }

  /** Filling `[y, x]` into a one-row block holding only `x` puts a
      one-row default `y` first. */
  lemma ExampleFill(x: string, y: string, v: Value)
    requires x != y
    ensures Fill([Column(x, [v])], [y, x], false) == [Column(y, [Default]), Column(x, [v])]
  {
    var b := [Column(x, [v])];
    var names := [y, x];
    var r := Fill(b, names, false);
    assert Names(b) == [x];
    assert !Has(b, names[0]);
    FillOrder(b, names, false);
    assert Except([x], names) == [] by {
      assert [x][..0] == [];
    }
    assert Names(r) == names;
    FillColumns(b, names, false, y);
    FillColumns(b, names, false, x);
    assert Get(b, x) == b[0];
    assert Defaults(1) == [Default];
    assert r[0] == Get(r, y) by {
      assert r[0].name == y;
    }
    assert r[1] == Get(r, x) by {
      assert r[0].name != x && r[1].name == x;
    }
  }

  /** A reader of `x` and `y` over the example part, with an empty mark cache
      and saving off: it opens a stream for `x` alone, holding the marks of
      `x`'s mark file, and leaves the cache empty. */
  method OpenExample(x: string, y: string, v: int) returns (cache: MarkCache, reader: MergeTreeReader)
    requires x != y
    ensures fresh(cache) && cache.entries == map[]
    ensures reader.Valid() && reader.part == ExamplePart(x, v) && reader.columns == [x, y]
    ensures reader.streams.Keys == {x} && reader.MarksLoaded()
  {
    cache := new MarkCache();
    var part := ExamplePart(x, v);
    assert Coherent(CacheEntries(cache), part.markFiles);
    reader := new MergeTreeReader(part, [x, y], cache, false);
    assert cache.entries == map[];
    assert reader.streams.Keys == {x};
  }

  /** The reader over the example part: reading marks [0, 1) and filling
      `[y, x]` gives `y: [default], x: [v]`, and the mark cache stays empty. */
  method ReadThenFill(x: string, y: string, v: int)
    requires x != y
  {
    var cache, reader := OpenExample(x, y, v);
    var res := new Block([]);
    reader.ReadRange(0, 1, res);
    ExampleRead(x, y, v);
    assert res.columns == [Column(x, [Datum(v)])];

    reader.FillMissingColumns(res, [y, x], false);
    ExampleFill(x, y, Datum(v));
    assert res.columns == [Column(y, [Default]), Column(x, [Datum(v)])];
    assert cache.entries == map[];
  }
}
