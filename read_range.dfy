/** What `readRange(from_mark, to_mark, res)` does to a block, as a function
    of the block on entry and of the values decoded from the part, and the
    properties the reader's documentation promises of it. */
module ReadRange {
  import opened Blocks
  import opened Marks

  /** One data part as the reader sees it. `granuleRows[i]` is the number of
      rows between mark `i` and mark `i + 1`; `data` gives, for every column
      that has files in the part, its decoded values granule by granule (the
      decoding itself is not modelled); `markFiles` holds the contents of the
      part's mark files, by path. */
  datatype DataPart = DataPart(
    path: string,
    granuleRows: seq<nat>,
    data: map<string, seq<seq<Value>>>,
    markFiles: map<string, seq<Mark>>)
  {
    /** The number of marks of the part: one per granule. */
    function MarksCount(): nat
    {
      |granuleRows|
    }

    /** Every column with files has one granule per mark, each granule holding
        the same number of rows in every column, and a mark file. */
    ghost predicate Valid()
    {
      && (forall n :: n in data ==> |data[n]| == |granuleRows|)
      && (forall n, i :: n in data && 0 <= i < |data[n]| ==> |data[n][i]| == granuleRows[i])
      && (forall n :: n in data ==> ColumnMarksPath(path, n) in markFiles)
    }

    /** The values of column `n` for the marks in [from, to). */
    function ColumnRange(n: string, from: nat, to: nat): seq<Value>
      requires Valid() && n in data && from <= to <= MarksCount()
    {
      Flatten(data[n][from..to])
    }

    /** The values of every column with files for the marks in [from, to). */
    function Read(from: nat, to: nat): (r: map<string, seq<Value>>)
      requires Valid() && from <= to <= MarksCount()
      ensures r.Keys == data.Keys
    {
      map n | n in data :: ColumnRange(n, from, to)
    }
  }

  /** Granules laid end to end. */
  function Flatten(gs: seq<seq<Value>>): seq<Value>
    decreases |gs|
  {
    if gs == [] then [] else Flatten(gs[..|gs| - 1]) + gs[|gs| - 1]
  }

  /** The sum of a sequence of row counts. */
  function Sum(xs: seq<nat>): nat
    decreases |xs|
  {
    if xs == [] then 0 else Sum(xs[..|xs| - 1]) + xs[|xs| - 1]
  }

  /** The values a column already holds under `n` (none if it is absent). */
  function Prior(cols: seq<Column>, n: string): seq<Value>
  {
    if Has(cols, n) then Get(cols, n).values else []
  }

  /** One column of `readRange`: append the values to the column if the block
      has it, otherwise add the column at the end. */
  function ReadColumn(cols: seq<Column>, n: string, vals: seq<Value>): seq<Column>
  {
    if Has(cols, n) then cols[IndexOf(cols, n) := Column(n, Get(cols, n).values + vals)]
    else cols + [Column(n, vals)]
  }

  /** The block after reading `read[n]` for every requested column `n` that has
      files, in the order of `requested`. */
  function ReadInto(cols: seq<Column>, requested: seq<string>, withFiles: set<string>,
                    read: map<string, seq<Value>>): seq<Column>
    requires withFiles <= read.Keys
    decreases |requested|
  {
    if requested == [] then cols
    else
      var b := ReadInto(cols, requested[..|requested| - 1], withFiles, read);
      var n := requested[|requested| - 1];
      if n in withFiles then ReadColumn(b, n, read[n]) else b
  }

  /** The requested columns with files that the block does not have yet, in the
      order of `requested`: the columns `readRange` adds. */
  function Added(requested: seq<string>, withFiles: set<string>, have: seq<string>): seq<string>
    decreases |requested|
  {
    if requested == [] then []
    else
      var n := requested[|requested| - 1];
      Added(requested[..|requested| - 1], withFiles, have) + (if n in withFiles && n !in have then [n] else [])
  }

  /** The block holds either none or all of the requested columns that have
      files: what `readRange` demands of its caller. */
  predicate NoneOrAll(cols: seq<Column>, requested: seq<string>, withFiles: set<string>)
  {
    || (forall n :: n in requested && n in withFiles ==> !Has(cols, n))
    || (forall n :: n in requested && n in withFiles ==> Has(cols, n))
  }

  /** The values of two successive reads, column by column. */
  function Join(v1: map<string, seq<Value>>, v2: map<string, seq<Value>>): (r: map<string, seq<Value>>)
    ensures r.Keys == v1.Keys * v2.Keys
  {
    map n | n in v1 && n in v2 :: v1[n] + v2[n]
  }

  // ---------------------------------------------------------------------------
  // One column

  /** Reading one column into a well-formed block appends to the column if it
      was there and adds it at the end otherwise; no other column changes. */
  lemma ReadColumnSpec(cols: seq<Column>, n: string, vals: seq<Value>)
    requires WellFormed(cols)
    ensures var r := ReadColumn(cols, n, vals);
      && WellFormed(r)
      && Names(r) == Names(cols) + (if Has(cols, n) then [] else [n])
      && Has(r, n) && Get(r, n) == Column(n, Prior(cols, n) + vals)
      && (forall m :: m != n && Has(cols, m) ==> Get(r, m) == Get(cols, m))
  {
    var r := ReadColumn(cols, n, vals);
    if Has(cols, n) {
      var k := IndexOf(cols, n);
      assert Names(r) == Names(cols);
      GetUnique(r, r[k]);
      forall m | m != n && Has(cols, m)
        ensures Get(r, m) == Get(cols, m)
      {
        var j := IndexOf(cols, m);
        assert r[j] == cols[j];
        GetUnique(r, cols[j]);
      }
    } else {
      var c := Column(n, vals);
      NamesAppend(cols, [c]);
      assert Names([c]) == [n];
      GetUnique(r, c);
      forall m | m != n && Has(cols, m)
        ensures Get(r, m) == Get(cols, m)
      {
        var j := IndexOf(cols, m);
        assert r[j] == cols[j];
        GetUnique(r, cols[j]);
      }
    }
  }

  // ---------------------------------------------------------------------------
  // readRange

  /** Reading into a well-formed block: every requested column with files ends
      up in the block holding its old values (if any) followed by the values
      read; a requested column without files is never added; columns not read
      keep their contents; the old columns keep their positions and the new
      ones follow them in the order they were requested. */
  lemma ReadIntoSpec(cols: seq<Column>, requested: seq<string>,
                     withFiles: set<string>, read: map<string, seq<Value>>)
    requires WellFormed(cols) && Distinct(requested) && withFiles <= read.Keys
    ensures var r := ReadInto(cols, requested, withFiles, read);
      && WellFormed(r)
      && Names(r) == Names(cols) + Added(requested, withFiles, Names(cols))
      && (forall n :: Has(r, n) <==> Has(cols, n) || (n in requested && n in withFiles))
      && (forall n :: n in requested && n in withFiles ==>
            Get(r, n) == Column(n, Prior(cols, n) + read[n]))
      && (forall n :: Has(cols, n) && !(n in requested && n in withFiles) ==>
            Get(r, n) == Get(cols, n))
  {
    ReadIntoNames(cols, requested, withFiles, read);
    ReadIntoColumns(cols, requested, withFiles, read);
  }

  /** The names half of `ReadIntoSpec`. */
  lemma {:induction false} ReadIntoNames(cols: seq<Column>, requested: seq<string>,
                                         withFiles: set<string>, read: map<string, seq<Value>>)
    requires WellFormed(cols) && Distinct(requested) && withFiles <= read.Keys
    ensures var r := ReadInto(cols, requested, withFiles, read);
      && WellFormed(r)
      && Names(r) == Names(cols) + Added(requested, withFiles, Names(cols))
      && (forall n :: Has(r, n) <==> Has(cols, n) || (n in requested && n in withFiles))
    decreases |requested|
  {
    AddedMembers(requested, withFiles, Names(cols));
    if requested == [] {
      assert Names(cols) + [] == Names(cols);
    } else {
      var init := requested[..|requested| - 1];
      var n := requested[|requested| - 1];
      assert requested == init + [n];
      assert Distinct(init);
      assert n !in init;
      ReadIntoNames(cols, init, withFiles, read);
      var b := ReadInto(cols, init, withFiles, read);
      if n in withFiles {
        AddedMembers(init, withFiles, Names(cols));
        assert Has(b, n) <==> Has(cols, n);
        ReadColumnSpec(b, n, read[n]);
      }
    }
  }

  /** A column is added exactly when it is requested, has files and is not in
      the block yet. */
  lemma {:induction false} AddedMembers(requested: seq<string>, withFiles: set<string>, have: seq<string>)
    ensures forall n :: n in Added(requested, withFiles, have) <==>
      n in requested && n in withFiles && n !in have
    decreases |requested|
  {
    if requested != [] {
      var init := requested[..|requested| - 1];
      assert requested == init + [requested[|requested| - 1]];
      AddedMembers(init, withFiles, have);
    }
  }

  /** The columns half of `ReadIntoSpec`. */
  lemma {:induction false} ReadIntoColumns(cols: seq<Column>, requested: seq<string>,
                                           withFiles: set<string>, read: map<string, seq<Value>>)
    requires WellFormed(cols) && Distinct(requested) && withFiles <= read.Keys
    ensures var r := ReadInto(cols, requested, withFiles, read);
      && (forall n :: n in requested && n in withFiles ==>
            Has(r, n) && Get(r, n) == Column(n, Prior(cols, n) + read[n]))
      && (forall n :: Has(cols, n) && !(n in requested && n in withFiles) ==>
            Has(r, n) && Get(r, n) == Get(cols, n))
    decreases |requested|
  {
    if requested != [] {
      var init := requested[..|requested| - 1];
      var n := requested[|requested| - 1];
      assert requested == init + [n];
      assert forall m :: m in requested <==> m in init || m == n;
      assert Distinct(init);
      assert n !in init;
      ReadIntoColumns(cols, init, withFiles, read);
      ReadIntoNames(cols, init, withFiles, read);
      var b := ReadInto(cols, init, withFiles, read);
      if n in withFiles {
        ReadColumnSpec(b, n, read[n]);
        assert Prior(b, n) == Prior(cols, n);
      }
    }
  }

  /** When the block holds every requested column with files, nothing is added. */
  lemma {:induction false} AddedNone(requested: seq<string>, withFiles: set<string>, have: seq<string>)
    requires forall n :: n in requested && n in withFiles ==> n in have
    ensures Added(requested, withFiles, have) == []
    decreases |requested|
  {
    if requested != [] {
      AddedNone(requested[..|requested| - 1], withFiles, have);
    }
  }

  /** Reading is transparent to splitting: reading `v1` and then `v2` gives
      the block that reading the two, column by column concatenated, gives. */
  lemma ReadSplit(cols: seq<Column>, requested: seq<string>, withFiles: set<string>,
                  v1: map<string, seq<Value>>, v2: map<string, seq<Value>>)
    requires WellFormed(cols) && Distinct(requested)
    requires withFiles <= v1.Keys && withFiles <= v2.Keys
    ensures ReadInto(ReadInto(cols, requested, withFiles, v1), requested, withFiles, v2)
         == ReadInto(cols, requested, withFiles, Join(v1, v2))
  {
    var lhs := ReadInto(ReadInto(cols, requested, withFiles, v1), requested, withFiles, v2);
    var rhs := ReadInto(cols, requested, withFiles, Join(v1, v2));
    ReadSplitNames(cols, requested, withFiles, v1, v2);
    ReadSplitColumns(cols, requested, withFiles, v1, v2);
    SameByName(lhs, rhs);
  }

  lemma ReadSplitNames(cols: seq<Column>, requested: seq<string>, withFiles: set<string>,
                       v1: map<string, seq<Value>>, v2: map<string, seq<Value>>)
    requires WellFormed(cols) && Distinct(requested)
    requires withFiles <= v1.Keys && withFiles <= v2.Keys
    ensures var lhs := ReadInto(ReadInto(cols, requested, withFiles, v1), requested, withFiles, v2);
      var rhs := ReadInto(cols, requested, withFiles, Join(v1, v2));
      WellFormed(lhs) && WellFormed(rhs) && Names(lhs) == Names(rhs)
  {
    var r1 := ReadInto(cols, requested, withFiles, v1);
    ReadIntoSpec(cols, requested, withFiles, v1);
    ReadIntoSpec(r1, requested, withFiles, v2);
    ReadIntoSpec(cols, requested, withFiles, Join(v1, v2));
    AddedNone(requested, withFiles, Names(r1));
    assert Names(r1) + [] == Names(r1);
  }

  lemma ReadSplitColumns(cols: seq<Column>, requested: seq<string>, withFiles: set<string>,
                         v1: map<string, seq<Value>>, v2: map<string, seq<Value>>)
    requires WellFormed(cols) && Distinct(requested)
    requires withFiles <= v1.Keys && withFiles <= v2.Keys
    ensures var lhs := ReadInto(ReadInto(cols, requested, withFiles, v1), requested, withFiles, v2);
      var rhs := ReadInto(cols, requested, withFiles, Join(v1, v2));
      forall n :: Has(lhs, n) ==> Has(rhs, n) && Get(lhs, n) == Get(rhs, n)
  {
    forall n | Has(ReadInto(ReadInto(cols, requested, withFiles, v1), requested, withFiles, v2), n)
      ensures var lhs := ReadInto(ReadInto(cols, requested, withFiles, v1), requested, withFiles, v2);
        var rhs := ReadInto(cols, requested, withFiles, Join(v1, v2));
        Has(rhs, n) && Get(lhs, n) == Get(rhs, n)
    {
      ReadSplitAt(cols, requested, withFiles, v1, v2, n);
    }
  }

  lemma ReadSplitAt(cols: seq<Column>, requested: seq<string>, withFiles: set<string>,
                    v1: map<string, seq<Value>>, v2: map<string, seq<Value>>, n: string)
    requires WellFormed(cols) && Distinct(requested)
    requires withFiles <= v1.Keys && withFiles <= v2.Keys
    ensures var lhs := ReadInto(ReadInto(cols, requested, withFiles, v1), requested, withFiles, v2);
      var rhs := ReadInto(cols, requested, withFiles, Join(v1, v2));
      Has(lhs, n) ==> Has(rhs, n) && Get(lhs, n) == Get(rhs, n)
  {
    var r1 := ReadInto(cols, requested, withFiles, v1);
    var lhs := ReadInto(r1, requested, withFiles, v2);
    var rhs := ReadInto(cols, requested, withFiles, Join(v1, v2));
    var p := Prior(cols, n);
    var inRead := n in requested && n in withFiles;
    var a := if inRead then v1[n] else [];
    var b := if inRead then v2[n] else [];
    assert WellFormed(r1) && (Has(r1, n) <==> Has(cols, n) || inRead) && Prior(r1, n) == p + a by {
      ReadIntoAt(cols, requested, withFiles, v1, n);
    }
    assert (Has(lhs, n) <==> Has(r1, n) || inRead) && (Has(lhs, n) ==> Get(lhs, n) == Column(n, Prior(lhs, n)))
        && Prior(lhs, n) == Prior(r1, n) + b by {
      ReadIntoAt(r1, requested, withFiles, v2, n);
    }
    assert (Has(rhs, n) <==> Has(cols, n) || inRead) && (Has(rhs, n) ==> Get(rhs, n) == Column(n, Prior(rhs, n)))
        && Prior(rhs, n) == p + (a + b) by {
      ReadIntoAt(cols, requested, withFiles, Join(v1, v2), n);
      if inRead {
        assert Join(v1, v2)[n] == a + b;
      } else {
        assert a + b == [];
      }
    }
    ConcatAssoc(p, a, b);
  }

  lemma ConcatAssoc(p: seq<Value>, a: seq<Value>, b: seq<Value>)
    ensures (p + a) + b == p + (a + b)
  {
  }

  /** `ReadIntoSpec` for one name: whether the block has it, and what it holds. */
  lemma ReadIntoAt(cols: seq<Column>, requested: seq<string>, withFiles: set<string>,
                   read: map<string, seq<Value>>, n: string)
    requires WellFormed(cols) && Distinct(requested) && withFiles <= read.Keys
    ensures var r := ReadInto(cols, requested, withFiles, read);
      && WellFormed(r)
      && (Has(r, n) <==> Has(cols, n) || (n in requested && n in withFiles))
      && (Has(r, n) ==> Get(r, n) == Column(n, Prior(r, n)))
      && Prior(r, n) == Prior(cols, n) + (if n in requested && n in withFiles then read[n] else [])
  {
    ReadIntoSpec(cols, requested, withFiles, read);
    var r := ReadInto(cols, requested, withFiles, read);
    if !Has(cols, n) && !(n in requested && n in withFiles) {
      assert Prior(cols, n) + [] == [];
    }
  }

  /** Reading the same number of rows for every column into a block that holds
      none or all of them (at equal lengths) leaves them at equal lengths. */
  lemma ReadEqualLengths(cols: seq<Column>, requested: seq<string>, withFiles: set<string>,
                         read: map<string, seq<Value>>, rows: nat)
    requires WellFormed(cols) && Distinct(requested) && withFiles <= read.Keys
    requires EqualLengths(cols) && NoneOrAll(cols, requested, withFiles)
    requires forall n :: n in withFiles ==> |read[n]| == rows
    ensures var r := ReadInto(cols, requested, withFiles, read);
      && (forall n :: n in requested && n in withFiles ==> Has(r, n))
      && (forall n, m :: n in requested && n in withFiles && m in requested && m in withFiles ==>
            |Get(r, n).values| == |Get(r, m).values|)
  {
    ReadIntoSpec(cols, requested, withFiles, read);
    forall n | Has(cols, n)
      ensures |Prior(cols, n)| == Rows(cols)
    {
      var k := IndexOf(cols, n);
    }
  }

  // ---------------------------------------------------------------------------
  // Values read from a part

  lemma {:induction false} FlattenAppend(a: seq<seq<Value>>, b: seq<seq<Value>>)
    ensures Flatten(a + b) == Flatten(a) + Flatten(b)
    decreases |b|
  {
    if b == [] {
      assert a + b == a;
    } else {
      var init := b[..|b| - 1];
      assert (a + b)[..|a + b| - 1] == a + init;
      FlattenAppend(a, init);
      ConcatAssoc(Flatten(a), Flatten(init), b[|b| - 1]);
    }
  }

  lemma {:induction false} FlattenLength(gs: seq<seq<Value>>, rows: seq<nat>)
    requires |gs| == |rows| && forall i :: 0 <= i < |gs| ==> |gs[i]| == rows[i]
    ensures |Flatten(gs)| == Sum(rows)
    decreases |gs|
  {
    if gs != [] {
      FlattenLength(gs[..|gs| - 1], rows[..|rows| - 1]);
    }
  }

  /** Reading [from, k) and then [k, to) yields the values of [from, to). */
  lemma ColumnRangeSplit(part: DataPart, n: string, from: nat, k: nat, to: nat)
    requires part.Valid() && n in part.data && from <= k <= to <= part.MarksCount()
    ensures part.ColumnRange(n, from, k) + part.ColumnRange(n, k, to) == part.ColumnRange(n, from, to)
  {
    var g := part.data[n];
    assert g[from..to] == g[from..k] + g[k..to];
    FlattenAppend(g[from..k], g[k..to]);
  }

  /** Every column read for [from, to) holds the rows of those granules. */
  lemma ColumnRangeLength(part: DataPart, n: string, from: nat, to: nat)
    requires part.Valid() && n in part.data && from <= to <= part.MarksCount()
    ensures |part.ColumnRange(n, from, to)| == Sum(part.granuleRows[from..to])
  {
    FlattenLength(part.data[n][from..to], part.granuleRows[from..to]);
  }

  /** Successive `readRange` calls over adjacent ranges [from, k) and [k, to)
      fill the block exactly as one call over [from, to). */
  lemma ReadRangeSplit(part: DataPart, cols: seq<Column>, requested: seq<string>,
                       withFiles: set<string>, from: nat, k: nat, to: nat)
    requires part.Valid() && from <= k <= to <= part.MarksCount()
    requires WellFormed(cols) && Distinct(requested) && withFiles <= part.data.Keys
    ensures ReadInto(ReadInto(cols, requested, withFiles, part.Read(from, k)), requested, withFiles, part.Read(k, to))
         == ReadInto(cols, requested, withFiles, part.Read(from, to))
  {
    var v1, v2 := part.Read(from, k), part.Read(k, to);
    ReadSplit(cols, requested, withFiles, v1, v2);
    forall n | n in part.data
      ensures Join(v1, v2)[n] == part.Read(from, to)[n]
    {
      ColumnRangeSplit(part, n, from, k, to);
    }
    assert Join(v1, v2) == part.Read(from, to);
  }

  /** After a `readRange` into a block holding none or all of the requested
      columns with files (at equal lengths), those columns are of equal length;
      a fresh block gets exactly the rows of the granules read. */
  lemma ReadRangeLengths(part: DataPart, cols: seq<Column>, requested: seq<string>,
                         withFiles: set<string>, from: nat, to: nat)
    requires part.Valid() && from <= to <= part.MarksCount()
    requires WellFormed(cols) && Distinct(requested) && withFiles <= part.data.Keys
    requires EqualLengths(cols) && NoneOrAll(cols, requested, withFiles)
    ensures var r := ReadInto(cols, requested, withFiles, part.Read(from, to));
      && (forall n :: n in requested && n in withFiles ==> Has(r, n))
      && (forall n, m :: n in requested && n in withFiles && m in requested && m in withFiles ==>
            |Get(r, n).values| == |Get(r, m).values|)
      && (forall n :: n in requested && n in withFiles && !Has(cols, n) ==>
            |Get(r, n).values| == Sum(part.granuleRows[from..to]))
  {
    var read := part.Read(from, to);
    var rows := Sum(part.granuleRows[from..to]);
    forall n | n in withFiles
      ensures |read[n]| == rows
    {
      ColumnRangeLength(part, n, from, to);
    }
    ReadEqualLengths(cols, requested, withFiles, read, rows);
    ReadIntoSpec(cols, requested, withFiles, read);
  }
}
