/** What `fillMissingColumns` and `fillMissingColumnsAndReorder` do to a block,
    as functions of the block on entry, and the properties the reader's
    documentation promises of them. */
module FillMissing {
  import opened Blocks

  /** The block after appending, for each name of `names` (in order) that the
      block does not have yet, a column of default values as long as the block. */
  function AddMissing(cols: seq<Column>, names: seq<string>): seq<Column>
    decreases |names|
  {
    if names == [] then cols
    else
      var b := AddMissing(cols, names[..|names| - 1]);
      var n := names[|names| - 1];
      if Has(b, n) then b else b + [Column(n, Defaults(Rows(b)))]
  }

  /** Some name of `names` has no column in the block. */
  predicate AnyMissing(cols: seq<Column>, names: seq<string>)
  {
    exists i :: 0 <= i < |names| && !Has(cols, names[i])
  }

  /** The columns named in `names`, in the order of `names`. */
  function Pick(cols: seq<Column>, names: seq<string>): seq<Column>
    decreases |names|
  {
    if names == [] then []
    else
      var n := names[|names| - 1];
      Pick(cols, names[..|names| - 1]) + (if Has(cols, n) then [Get(cols, n)] else [])
  }

  /** The columns not named in `names`, in block order. */
  function Others(cols: seq<Column>, names: seq<string>): seq<Column>
    decreases |cols|
  {
    if cols == [] then []
    else
      var c := cols[|cols| - 1];
      Others(cols[..|cols| - 1], names) + (if c.name in names then [] else [c])
  }

  /** The block reordered as `names`: the columns named there first, in that
      order, then the remaining columns in their previous order. */
  function Reorder(cols: seq<Column>, names: seq<string>): seq<Column>
  {
    Pick(cols, names) + Others(cols, names)
  }

  /** The block after `fillMissingColumnsImpl(res, names, alwaysReorder)`. */
  function Fill(cols: seq<Column>, names: seq<string>, alwaysReorder: bool): seq<Column>
  {
    if AnyMissing(cols, names) || alwaysReorder then Reorder(AddMissing(cols, names), names)
    else cols
  }

  // ---------------------------------------------------------------------------
  // Small facts about Only and Except

  lemma {:induction false} OnlyAppend(a: seq<string>, b: seq<string>, ys: seq<string>)
    ensures Only(a + b, ys) == Only(a, ys) + Only(b, ys)
    decreases |b|
  {
    if b == [] {
      assert a + b == a;
    } else {
      assert (a + b)[..|a + b| - 1] == a + b[..|b| - 1];
      OnlyAppend(a, b[..|b| - 1], ys);
    }
  }

  lemma {:induction false} ExceptAppend(a: seq<string>, b: seq<string>, ys: seq<string>)
    ensures Except(a + b, ys) == Except(a, ys) + Except(b, ys)
    decreases |b|
  {
    if b == [] {
      assert a + b == a;
    } else {
      assert (a + b)[..|a + b| - 1] == a + b[..|b| - 1];
      ExceptAppend(a, b[..|b| - 1], ys);
    }
  }

  /** Filtering keeps everything when every element qualifies. */
  lemma {:induction false} OnlyAll(xs: seq<string>, ys: seq<string>)
    requires forall x :: x in xs ==> x in ys
    ensures Only(xs, ys) == xs
    decreases |xs|
  {
    if xs != [] {
      var init, last := xs[..|xs| - 1], xs[|xs| - 1];
      assert xs == init + [last];
      assert forall x :: x in init ==> x in xs;
      OnlyAll(init, ys);
      assert last in ys;
      assert Only(xs, ys) == Only(init, ys) + [last];
    }
  }

  lemma {:induction false} ExceptAll(xs: seq<string>, ys: seq<string>)
    requires forall x :: x in xs ==> x !in ys
    ensures Except(xs, ys) == xs
    decreases |xs|
  {
    if xs != [] {
      var init, last := xs[..|xs| - 1], xs[|xs| - 1];
      assert xs == init + [last];
      assert forall x :: x in init ==> x in xs;
      ExceptAll(init, ys);
      assert last !in ys;
      assert Except(xs, ys) == Except(init, ys) + [last];
    }
  }

  lemma {:induction false} OnlyNone(xs: seq<string>, ys: seq<string>)
    requires forall x :: x in xs ==> x !in ys
    ensures Only(xs, ys) == []
    decreases |xs|
  {
    if xs != [] {
      OnlyNone(xs[..|xs| - 1], ys);
    }
  }

  lemma {:induction false} ExceptNone(xs: seq<string>, ys: seq<string>)
    requires forall x :: x in xs ==> x in ys
    ensures Except(xs, ys) == []
    decreases |xs|
  {
    if xs != [] {
      ExceptNone(xs[..|xs| - 1], ys);
    }
  }

  /** `Only` depends on the members of its second argument, not their order. */
  lemma {:induction false} OnlySameMembers(xs: seq<string>, ys: seq<string>, zs: seq<string>)
    requires forall x :: x in ys <==> x in zs
    ensures Only(xs, ys) == Only(xs, zs)
    decreases |xs|
  {
    if xs != [] {
      OnlySameMembers(xs[..|xs| - 1], ys, zs);
    }
  }

  lemma {:induction false} OnlyDistinct(xs: seq<string>, ys: seq<string>)
    requires Distinct(xs)
    ensures Distinct(Only(xs, ys))
    decreases |xs|
  {
    if xs != [] {
      var init := xs[..|xs| - 1];
      assert Distinct(init);
      OnlyDistinct(init, ys);
      assert xs[|xs| - 1] !in init;
    }
  }

  lemma {:induction false} ExceptDistinct(xs: seq<string>, ys: seq<string>)
    requires Distinct(xs)
    ensures Distinct(Except(xs, ys))
    decreases |xs|
  {
    if xs != [] {
      var init := xs[..|xs| - 1];
      assert Distinct(init);
      ExceptDistinct(init, ys);
      assert xs[|xs| - 1] !in init;
    }
  }

  // ---------------------------------------------------------------------------
  // Adding the missing columns

  /** Adding missing columns keeps the block as a prefix, keeps its row count
      and its well-formedness, gives it exactly the names it had plus those of
      `names`, and every added column is a column of `names` that was missing,
      holding only default values, as many as the block has rows. */
  lemma AddMissingSpec(cols: seq<Column>, names: seq<string>)
    requires WellFormed(cols)
    ensures var r := AddMissing(cols, names);
      && |cols| <= |r| && r[..|cols|] == cols
      && Rows(r) == Rows(cols)
      && WellFormed(r)
      && (forall n :: Has(r, n) <==> Has(cols, n) || n in names)
      && (forall i :: |cols| <= i < |r| ==>
            r[i].values == Defaults(Rows(cols)) && r[i].name in names && !Has(cols, r[i].name))
  {
    AddMissingShape(cols, names);
    AddMissingNames(cols, names);
  }

  /** The shape half of `AddMissingSpec`: the old block is a prefix, and what
      follows it is missing columns of `names` holding default values. */
  lemma {:induction false} AddMissingShape(cols: seq<Column>, names: seq<string>)
    ensures var r := AddMissing(cols, names);
      && |cols| <= |r| && r[..|cols|] == cols
      && Rows(r) == Rows(cols)
      && (forall i :: |cols| <= i < |r| ==>
            r[i].values == Defaults(Rows(cols)) && r[i].name in names && !Has(cols, r[i].name))
    decreases |names|
  {
    if names != [] {
      var init := names[..|names| - 1];
      var n := names[|names| - 1];
      AddMissingShape(cols, init);
      var b := AddMissing(cols, init);
      assert forall m :: m in init ==> m in names;
      if !Has(b, n) {
        var c := Column(n, Defaults(Rows(b)));
        assert (b + [c])[..|cols|] == b[..|cols|];
        assert !Has(cols, n) by {
          assert b == cols + b[|cols|..];
          NamesAppend(cols, b[|cols|..]);
        }
      }
    }
  }

  /** The names half of `AddMissingSpec`: the block stays well formed and
      gains exactly the names of `names` it lacked. */
  lemma {:induction false} AddMissingNames(cols: seq<Column>, names: seq<string>)
    requires WellFormed(cols)
    ensures var r := AddMissing(cols, names);
      && WellFormed(r)
      && (forall n :: Has(r, n) <==> Has(cols, n) || n in names)
    decreases |names|
  {
    if names != [] {
      var init := names[..|names| - 1];
      var n := names[|names| - 1];
      AddMissingNames(cols, init);
      var b := AddMissing(cols, init);
      assert forall m :: m in names <==> m in init || m == n by {
        assert names == init + [n];
      }
      if !Has(b, n) {
        var c := Column(n, Defaults(Rows(b)));
        assert Names(b + [c]) == Names(b) + [n] by {
          NamesAppend(b, [c]);
          assert Names([c]) == [n];
        }
      }
    }
  }

  /** Something is added exactly when some name was missing. */
  lemma AddsNothingIffNoneMissing(cols: seq<Column>, names: seq<string>)
    requires WellFormed(cols)
    ensures AddMissing(cols, names) == cols <==> !AnyMissing(cols, names)
  {
    AddMissingSpec(cols, names);
    var r := AddMissing(cols, names);
    if |r| > |cols| {
      var i :| 0 <= i < |names| && names[i] == r[|cols|].name;
      assert !Has(cols, names[i]);
    } else {
      assert r == cols;
      forall i | 0 <= i < |names| ensures Has(cols, names[i]) {
        assert Has(r, names[i]);
      }
    }
  }

  /** Whether some name is missing, one name at a time: the flag
      `fillMissingColumnsImpl` keeps while it adds columns. */
  lemma AnyMissingStep(cols: seq<Column>, names: seq<string>, k: nat)
    requires WellFormed(cols) && k < |names|
    ensures AnyMissing(cols, names[..k + 1]) <==>
      AnyMissing(cols, names[..k]) || !Has(AddMissing(cols, names[..k]), names[k])
  {
    var pre, pre1 := names[..k], names[..k + 1];
    AddMissingSpec(cols, pre);
    assert forall i :: 0 <= i < k ==> pre1[i] == pre[i];
    if AnyMissing(cols, pre1) {
      var i :| 0 <= i < k + 1 && !Has(cols, pre1[i]);
      if i < k {
        assert !Has(cols, pre[i]);
      } else if names[k] in pre {
        var j :| 0 <= j < k && pre[j] == names[k];
        assert !Has(cols, pre[j]);
      }
    }
    if AnyMissing(cols, pre) {
      var i :| 0 <= i < k && !Has(cols, pre[i]);
      assert !Has(cols, pre1[i]);
    }
    if !Has(AddMissing(cols, pre), names[k]) {
      assert !Has(cols, pre1[k]);
    }
  }

  /** The column a block finds under a name after adding the missing columns:
      the old column if there was one, default values otherwise. */
  lemma AddMissingGet(cols: seq<Column>, names: seq<string>, n: string)
    requires WellFormed(cols) && (Has(cols, n) || n in names)
    ensures Has(AddMissing(cols, names), n)
    ensures Get(AddMissing(cols, names), n) ==
      if Has(cols, n) then Get(cols, n) else Column(n, Defaults(Rows(cols)))
  {
    AddMissingSpec(cols, names);
    var r := AddMissing(cols, names);
    var i := IndexOf(r, n);
    if Has(cols, n) {
      var k := IndexOf(cols, n);
      assert r[k] == cols[k];
      GetUnique(r, cols[k]);
    } else {
      forall j | 0 <= j < |cols| ensures r[j].name != n {
        assert r[j] == cols[j] && Names(cols)[j] == cols[j].name;
      }
    }
  }

  // ---------------------------------------------------------------------------
  // Reordering

  lemma {:induction false} PickNames(cols: seq<Column>, names: seq<string>)
    ensures Names(Pick(cols, names)) == Only(names, Names(cols))
    ensures forall c :: c in Pick(cols, names) ==> c in cols
    decreases |names|
  {
    if names != [] {
      var init := names[..|names| - 1];
      var n := names[|names| - 1];
      PickNames(cols, init);
      var tail := if Has(cols, n) then [Get(cols, n)] else [];
      NamesAppend(Pick(cols, init), tail);
    }
  }

  lemma {:induction false} OthersNames(cols: seq<Column>, names: seq<string>)
    ensures Names(Others(cols, names)) == Except(Names(cols), names)
    ensures forall c :: c in Others(cols, names) ==> c in cols
    decreases |cols|
  {
    if cols != [] {
      var init := cols[..|cols| - 1];
      var c := cols[|cols| - 1];
      OthersNames(init, names);
      assert Names(cols)[..|cols| - 1] == Names(init);
      var tail := if c.name in names then [] else [c];
      NamesAppend(Others(init, names), tail);
    }
  }

  /** Reordering lists the names of `names` that the block has, in the order of
      `names`, followed by the block's other names in their previous order. */
  lemma ReorderNames(cols: seq<Column>, names: seq<string>)
    ensures Names(Reorder(cols, names)) == Only(names, Names(cols)) + Except(Names(cols), names)
    ensures forall c :: c in Reorder(cols, names) ==> c in cols
  {
    PickNames(cols, names);
    OthersNames(cols, names);
    NamesAppend(Pick(cols, names), Others(cols, names));
  }

  /** Reordering a well-formed block by distinct names neither adds, drops nor
      changes a column: only the order changes. */
  lemma ReorderKeepsColumns(cols: seq<Column>, names: seq<string>)
    requires WellFormed(cols) && Distinct(names)
    ensures WellFormed(Reorder(cols, names))
    ensures forall n :: Has(Reorder(cols, names), n) <==> Has(cols, n)
    ensures forall n :: Has(cols, n) ==> Get(Reorder(cols, names), n) == Get(cols, n)
  {
    var r := Reorder(cols, names);
    ReorderNames(cols, names);
    var a, b := Only(names, Names(cols)), Except(Names(cols), names);
    OnlyDistinct(names, Names(cols));
    ExceptDistinct(Names(cols), names);
    assert Distinct(a + b) by {
      forall i, j | 0 <= i < j < |a + b|
        ensures (a + b)[i] != (a + b)[j]
      {
        if i < |a| && j >= |a| {
          assert (a + b)[i] in a && (a + b)[j] in b;
        }
      }
    }
    forall n | Has(cols, n)
      ensures Has(r, n) && Get(r, n) == Get(cols, n)
    {
      assert n in a + b;
      var c := Get(r, n);
      assert c in r;
      GetUnique(cols, c);
    }
  }

  /** After a reorder the names the block shares with `names` appear in the
      order of `names`. */
  lemma ReorderFollowsNames(cols: seq<Column>, names: seq<string>)
    requires WellFormed(cols) && Distinct(names)
    ensures var r := Names(Reorder(cols, names)); Only(r, names) == Only(names, r)
  {
    var r := Names(Reorder(cols, names));
    ReorderNames(cols, names);
    ReorderKeepsColumns(cols, names);
    var a, b := Only(names, Names(cols)), Except(Names(cols), names);
    OnlyAppend(a, b, names);
    OnlyAll(a, names);
    OnlyNone(b, names);
    assert a + [] == a;
    OnlySameMembers(names, r, Names(cols));
  }

  // ---------------------------------------------------------------------------
  // fillMissingColumns

  /** Afterwards the block has a column for every name of `names` and, besides
      those, only the columns it had. */
  lemma FillHasExactly(cols: seq<Column>, names: seq<string>, alwaysReorder: bool)
    requires WellFormed(cols) && Distinct(names)
    ensures WellFormed(Fill(cols, names, alwaysReorder))
    ensures forall n :: Has(Fill(cols, names, alwaysReorder), n) <==> Has(cols, n) || n in names
  {
    AddMissingSpec(cols, names);
    AddsNothingIffNoneMissing(cols, names);
    var r0 := AddMissing(cols, names);
    if AnyMissing(cols, names) || alwaysReorder {
      ReorderKeepsColumns(r0, names);
    } else {
      assert forall n :: n in names ==> Has(cols, n) by {
        forall n | n in names ensures Has(cols, n) {
          var i :| 0 <= i < |names| && names[i] == n;
        }
      }
    }
  }

  /** A column the block already had keeps its contents; a column that was
      added holds only default values, as many as the block has rows. */
  lemma FillColumns(cols: seq<Column>, names: seq<string>, alwaysReorder: bool, n: string)
    requires WellFormed(cols) && Distinct(names)
    requires Has(cols, n) || n in names
    ensures Has(Fill(cols, names, alwaysReorder), n)
    ensures Get(Fill(cols, names, alwaysReorder), n) ==
      if Has(cols, n) then Get(cols, n) else Column(n, Defaults(Rows(cols)))
  {
    FillHasExactly(cols, names, alwaysReorder);
    AddMissingSpec(cols, names);
    AddMissingGet(cols, names, n);
    if AnyMissing(cols, names) || alwaysReorder {
      ReorderKeepsColumns(AddMissing(cols, names), names);
    } else {
      if n in names {
        var i :| 0 <= i < |names| && names[i] == n;
        assert Has(cols, names[i]);
      }
    }
  }

  /** When a column was added or the reorder is forced, the block's names are
      exactly `names` followed by the block's other names in their old order. */
  lemma FillOrder(cols: seq<Column>, names: seq<string>, alwaysReorder: bool)
    requires WellFormed(cols) && Distinct(names)
    requires AnyMissing(cols, names) || alwaysReorder
    ensures Names(Fill(cols, names, alwaysReorder)) == names + Except(Names(cols), names)
  {
    var r0 := AddMissing(cols, names);
    AddMissingTail(cols, names);
    var tail := r0[|cols|..];
    ReorderNames(r0, names);
    AddMissingSpec(cols, names);
    OnlyAll(names, Names(r0));
    ExceptAppend(Names(cols), Names(tail), names);
    ExceptNone(Names(tail), names);
    assert Except(Names(cols), names) + [] == Except(Names(cols), names);
  }

  /** The columns that adding appends all carry names of `names`. */
  lemma AddMissingTail(cols: seq<Column>, names: seq<string>)
    requires WellFormed(cols)
    ensures |cols| <= |AddMissing(cols, names)|
    ensures var r0 := AddMissing(cols, names);
      && Names(r0) == Names(cols) + Names(r0[|cols|..])
      && (forall x :: x in Names(r0[|cols|..]) ==> x in names)
  {
    var r0 := AddMissing(cols, names);
    AddMissingSpec(cols, names);
    assert r0 == cols + r0[|cols|..];
    NamesAppend(cols, r0[|cols|..]);
    forall k | 0 <= k < |r0| - |cols| ensures Names(r0[|cols|..])[k] in names {
      assert Names(r0[|cols|..])[k] == r0[|cols| + k].name;
    }
  }

  /** When nothing was missing and no reorder is forced, the block is left
      exactly as it was. */
  lemma FillLeavesComplete(cols: seq<Column>, names: seq<string>)
    requires forall i :: 0 <= i < |names| ==> Has(cols, names[i])
    ensures Fill(cols, names, false) == cols
  {
  }

  /** Every column of the result is as long as the block was: the block keeps
      equal column lengths. */
  lemma FillEqualLengths(cols: seq<Column>, names: seq<string>, alwaysReorder: bool)
    requires WellFormed(cols) && Distinct(names) && EqualLengths(cols)
    ensures forall c :: c in Fill(cols, names, alwaysReorder) ==> |c.values| == Rows(cols)
  {
    AddMissingSpec(cols, names);
    var r0 := AddMissing(cols, names);
    assert forall c :: c in r0 ==> |c.values| == Rows(cols) by {
      forall c | c in r0 ensures |c.values| == Rows(cols) {
        var i :| 0 <= i < |r0| && r0[i] == c;
        if i < |cols| { assert r0[i] == cols[i]; }
      }
    }
    ReorderNames(r0, names);
  }

  /** A second `fillMissingColumns` with the same names and no forced reorder
      adds nothing and changes nothing. */
  lemma FillIdempotent(cols: seq<Column>, names: seq<string>, alwaysReorder: bool)
    requires WellFormed(cols) && Distinct(names)
    ensures var r := Fill(cols, names, alwaysReorder);
      !AnyMissing(r, names) && Fill(r, names, false) == r
  {
    FillHasExactly(cols, names, alwaysReorder);
  }

  /** Repeating `fillMissingColumnsAndReorder` changes nothing either. */
  lemma FillAndReorderIdempotent(cols: seq<Column>, names: seq<string>)
    requires WellFormed(cols) && Distinct(names)
    ensures Fill(Fill(cols, names, true), names, true) == Fill(cols, names, true)
  {
    var r := Fill(cols, names, true);
    FillHasExactly(cols, names, true);
    FillHasExactly(r, names, true);
    FillOrder(cols, names, true);
    FillOrder(r, names, true);
    var e := Except(Names(cols), names);
    ExceptAppend(names, e, names);
    ExceptAll(e, names);
    ExceptNone(names, names);
    assert [] + e == e;
    forall n | Has(r, n)
      ensures Has(Fill(r, names, true), n) && Get(Fill(r, names, true), n) == Get(r, n)
    {
      FillColumns(r, names, true, n);
    }
    SameByName(Fill(r, names, true), r);
  }
}
