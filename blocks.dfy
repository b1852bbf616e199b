/** Blocks: the batch of named columns that the reader fills.
    A block is an ordered list of columns, each with a distinct name; the
    reader changes it in place (a `Block` object whose `columns` it reassigns). */
module Blocks {

  /** A cell value. `Default` stands for the column type's default value;
      the decoded values of a part are otherwise opaque to this model. */
  datatype Value = Default | Datum(payload: int)

  /** A named column with its values, one per row. */
  datatype Column = Column(name: string, values: seq<Value>)

  /** A block: the caller's batch, updated in place by the reader. */
  class Block {
    var columns: seq<Column>

    constructor (columns: seq<Column>)
      ensures this.columns == columns
    {
      this.columns := columns;
    }
  }

  /** The names of the columns, in block order. */
  function Names(cols: seq<Column>): (r: seq<string>)
    ensures |r| == |cols|
    ensures forall i :: 0 <= i < |cols| ==> r[i] == cols[i].name
  {
    seq(|cols|, i requires 0 <= i < |cols| => cols[i].name)
  }

  /** Whether the block has a column called `name`. */
  predicate Has(cols: seq<Column>, name: string)
  {
    name in Names(cols)
  }

  /** The position of the first column called `name`. */
  function IndexOf(cols: seq<Column>, name: string): (i: nat)
    requires Has(cols, name)
    ensures i < |cols| && cols[i].name == name
    ensures forall j :: 0 <= j < i ==> cols[j].name != name
  {
    if cols[0].name == name then 0
    else
      assert Names(cols[1..]) == Names(cols)[1..];
      1 + IndexOf(cols[1..], name)
  }

  /** The column called `name`. */
  function Get(cols: seq<Column>, name: string): Column
    requires Has(cols, name)
  {
    cols[IndexOf(cols, name)]
  }

  /** No name occurs twice. */
  predicate Distinct(names: seq<string>)
  {
    forall i, j :: 0 <= i < j < |names| ==> names[i] != names[j]
  }

  /** A block is well formed when no two of its columns share a name. */
  predicate WellFormed(cols: seq<Column>)
  {
    Distinct(Names(cols))
  }

  /** The row count of a block: the length of its first column (zero for an
      empty block). */
  function Rows(cols: seq<Column>): nat
  {
    if cols == [] then 0 else |cols[0].values|
  }

  /** Every column of the block has the same number of rows. */
  predicate EqualLengths(cols: seq<Column>)
  {
    forall i :: 0 <= i < |cols| ==> |cols[i].values| == Rows(cols)
  }

  /** `n` default values. */
  function Defaults(n: nat): (r: seq<Value>)
    ensures |r| == n
    ensures forall i :: 0 <= i < n ==> r[i] == Default
  {
    seq(n, _ => Default)
  }

  /** The elements of `xs` that occur in `ys`, in the order of `xs`. */
  function Only(xs: seq<string>, ys: seq<string>): (r: seq<string>)
    ensures forall x :: x in r <==> x in xs && x in ys
  {
    if xs == [] then []
    else Only(xs[..|xs| - 1], ys) + (if xs[|xs| - 1] in ys then [xs[|xs| - 1]] else [])
  }

  /** The elements of `xs` that do not occur in `ys`, in the order of `xs`. */
  function Except(xs: seq<string>, ys: seq<string>): (r: seq<string>)
    ensures forall x :: x in r <==> x in xs && x !in ys
  {
    if xs == [] then []
    else Except(xs[..|xs| - 1], ys) + (if xs[|xs| - 1] in ys then [] else [xs[|xs| - 1]])
  }

  /** A prefix one element longer. */
  lemma PrefixStep<T>(s: seq<T>, i: nat)
    requires i < |s|
    ensures s[..i + 1] == s[..i] + [s[i]]
  {
  }

  lemma NamesAppend(a: seq<Column>, b: seq<Column>)
    ensures Names(a + b) == Names(a) + Names(b)
  {
  }

  /** In a well-formed block a column is the one `Get` finds under its name. */
  lemma GetUnique(cols: seq<Column>, c: Column)
    requires WellFormed(cols) && c in cols
    ensures Has(cols, c.name) && Get(cols, c.name) == c
  {
    var i :| 0 <= i < |cols| && cols[i] == c;
    assert Names(cols)[i] == c.name;
    var k := IndexOf(cols, c.name);
    assert Names(cols)[k] == Names(cols)[i];
  }

  /** Two well-formed blocks with the same names in the same order and the
      same column under each name are the same block. */
  lemma {:induction false} SameByName(a: seq<Column>, b: seq<Column>)
    requires WellFormed(a) && WellFormed(b) && Names(a) == Names(b)
    requires forall n :: Has(a, n) ==> Has(b, n) && Get(a, n) == Get(b, n)
    ensures a == b
  {
    forall i | 0 <= i < |a|
      ensures a[i] == b[i]
    {
      assert Names(a)[i] == a[i].name;
      assert Has(a, a[i].name);
      GetUnique(a, a[i]);
      assert b[i] in b && b[i].name == a[i].name by {
        assert Names(b)[i] == Names(a)[i];
      }
      GetUnique(b, b[i]);
    }
  }
}
