/** The little of a pandas DataFrame that the column remapping needs: named
    columns of cells, all of one length, renamed through a dictionary and
    assigned a scalar. */
module Frames {

  import opened Wrappers
  import opened Decimals
  import opened Dates

  /** One cell; Null stands for None / NaN. */
  datatype Cell =
    | Null
    | Flag(b: bool)
    | Str(s: string)
    | Day(date: Date)
    | Stamp(stamp: DateTime)
    | Money(amount: Decimal)
    | Count(n: int)

  datatype Column = Column(name: string, values: seq<Cell>)

  /** A `{old name: new name}` dictionary, as its items in insertion order. */
  type Renaming = seq<(string, string)>

  /** Whether `key` is a key of the dictionary. */
  predicate IsKey(m: Renaming, key: string)
  {
    exists i :: 0 <= i < |m| && m[i].0 == key
  }

  /** The new name of column `name`: its entry in the dictionary, or itself. */
  function Renamed(m: Renaming, name: string): (r: string)
    ensures !IsKey(m, name) ==> r == name
    ensures IsKey(m, name) ==> exists i :: 0 <= i < |m| && m[i] == (name, r)
  {
    if m == [] then name
    else if m[0].0 == name then m[0].1
    else
      var r := Renamed(m[1..], name);
      assert IsKey(m[1..], name) ==> IsKey(m, name) by {
        if IsKey(m[1..], name) {
          var i :| 0 <= i < |m[1..]| && m[1..][i].0 == name;
          assert m[i + 1].0 == name;
        }
      }
      assert IsKey(m, name) ==> IsKey(m[1..], name) by {
        if IsKey(m, name) {
          var i :| 0 <= i < |m| && m[i].0 == name;
          assert i > 0 && m[1..][i - 1].0 == name;
        }
      }
      assert IsKey(m[1..], name) ==> exists i :: 0 <= i < |m| && m[i] == (name, r) by {
        if IsKey(m[1..], name) {
          var i :| 0 <= i < |m[1..]| && m[1..][i] == (name, r);
          assert m[i + 1] == (name, r);
        }
      }
      r
  }

  /** No two items of the dictionary share a key, as in a Python dict. */
  predicate DistinctKeys(m: Renaming)
  {
    forall i, j :: 0 <= i < j < |m| ==> m[i].0 != m[j].0
  }

  /** A key is renamed to its own item's value. */
  lemma RenamedItem(m: Renaming, i: nat)
    requires DistinctKeys(m) && i < |m|
    ensures Renamed(m, m[i].0) == m[i].1
  {
    assert IsKey(m, m[i].0);
    var j :| 0 <= j < |m| && m[j] == (m[i].0, Renamed(m, m[i].0));
    assert j == i;
  }

  /** `frame.rename(columns=m)`: every column keeps its place and its values. */
  function RenameColumns(cols: seq<Column>, m: Renaming): (r: seq<Column>)
    ensures |r| == |cols|
    ensures forall i :: 0 <= i < |r| ==> r[i] == Column(Renamed(m, cols[i].name), cols[i].values)
  {
    seq(|cols|, i requires 0 <= i < |cols| => Column(Renamed(m, cols[i].name), cols[i].values))
  }

  predicate HasColumn(cols: seq<Column>, name: string)
  {
    exists i :: 0 <= i < |cols| && cols[i].name == name
  }

  /** Every column holds one cell per row. */
  predicate Rectangular(cols: seq<Column>, nrows: nat)
  {
    forall i :: 0 <= i < |cols| ==> |cols[i].values| == nrows
  }

  function Repeat(v: Cell, n: nat): (r: seq<Cell>)
    ensures |r| == n && forall k :: 0 <= k < n ==> r[k] == v
  {
    seq(n, k => v)
  }

  /** `frame[name] = v` for a scalar v: the columns of that name are
      overwritten in place, or a new column is appended when there is none. */
  function AssignConstant(cols: seq<Column>, name: string, v: Cell, nrows: nat): (r: seq<Column>)
    ensures HasColumn(r, name)
    ensures |r| == if HasColumn(cols, name) then |cols| else |cols| + 1
    ensures forall i :: 0 <= i < |r| && r[i].name == name ==> r[i].values == Repeat(v, nrows)
    ensures forall i :: 0 <= i < |cols| && cols[i].name != name ==> r[i] == cols[i]
    ensures forall i :: 0 <= i < |r| ==> r[i].name == (if i < |cols| then cols[i].name else name)
  {
    if HasColumn(cols, name) then
      var r := seq(|cols|, i requires 0 <= i < |cols| =>
        if cols[i].name == name then Column(name, Repeat(v, nrows)) else cols[i]);
      assert HasColumn(r, name) by {
        var i :| 0 <= i < |cols| && cols[i].name == name;
        assert r[i].name == name;
      }
      r
    else
      var r := cols + [Column(name, Repeat(v, nrows))];
      assert r[|cols|].name == name;
      r
  }

  /** A None-filled column for each of `names` that `cols` lacks, in the
      order of `names`. */
  function MissingColumns(cols: seq<Column>, names: seq<string>, nrows: nat): (r: seq<Column>)
    ensures forall i :: 0 <= i < |r| ==>
              r[i].values == Repeat(Null, nrows) && r[i].name in names && !HasColumn(cols, r[i].name)
    decreases |names|
  {
    if names == [] then []
    else
      var rest := MissingColumns(cols, names[1..], nrows);
      if HasColumn(cols, names[0]) then rest else [Column(names[0], Repeat(Null, nrows))] + rest
  }

  /** Appending the missing columns makes every one of `names` addressable. */
  lemma MissingColumnsComplete(cols: seq<Column>, names: seq<string>, nrows: nat)
    ensures forall k :: 0 <= k < |names| ==> HasColumn(cols + MissingColumns(cols, names, nrows), names[k])
  {
    forall k | 0 <= k < |names|
      ensures HasColumn(cols + MissingColumns(cols, names, nrows), names[k])
    {
      if !HasColumn(cols, names[k]) {
        MissingColumnsHas(cols, names, nrows, k);
      }
      HasColumnAppend(cols, MissingColumns(cols, names, nrows), names[k]);
    }
  }

  /** A name that `cols` lacks gets a column of its own. */
  lemma {:induction false} MissingColumnsHas(cols: seq<Column>, names: seq<string>, nrows: nat, k: nat)
    requires k < |names| && !HasColumn(cols, names[k])
    ensures HasColumn(MissingColumns(cols, names, nrows), names[k])
    decreases k
  {
    var r := MissingColumns(cols, names, nrows);
    var rest := MissingColumns(cols, names[1..], nrows);
    if k == 0 {
      assert r == [Column(names[0], Repeat(Null, nrows))] + rest;
      assert r[0].name == names[0];
    } else {
      assert names[1..][k - 1] == names[k];
      MissingColumnsHas(cols, names[1..], nrows, k - 1);
      var j :| 0 <= j < |rest| && rest[j].name == names[k];
      if HasColumn(cols, names[0]) {
        assert r == rest;
      } else {
        assert r == [Column(names[0], Repeat(Null, nrows))] + rest;
        assert r[j + 1] == rest[j];
      }
    }
  }

  /** A name of either part is a name of the concatenation. */
  lemma HasColumnAppend(a: seq<Column>, b: seq<Column>, name: string)
    requires HasColumn(a, name) || HasColumn(b, name)
    ensures HasColumn(a + b, name)
  {
    if HasColumn(a, name) {
      var j :| 0 <= j < |a| && a[j].name == name;
      assert (a + b)[j] == a[j];
    } else {
      var j :| 0 <= j < |b| && b[j].name == name;
      assert (a + b)[|a| + j] == b[j];
    }
  }

  /** Assigning a constant column keeps every column name present. */
  lemma AssignKeepsColumn(cols: seq<Column>, name: string, v: Cell, nrows: nat, other: string)
    requires HasColumn(cols, other)
    ensures HasColumn(AssignConstant(cols, name, v, nrows), other)
  {
    var j :| 0 <= j < |cols| && cols[j].name == other;
    assert AssignConstant(cols, name, v, nrows)[j].name == other;
  }

  /** Renaming, then assigning a name that no renamed column carries,
      keeps every column in place and appends the new one. */
  lemma RenameThenAppend(cols: seq<Column>, m: Renaming, name: string, v: Cell, nrows: nat)
    requires Rectangular(cols, nrows)
    requires forall i :: 0 <= i < |cols| ==> Renamed(m, cols[i].name) != name
    ensures var r := AssignConstant(RenameColumns(cols, m), name, v, nrows);
            |r| == |cols| + 1
            && Rectangular(r, nrows)
            && (forall i :: 0 <= i < |cols| ==> r[i] == Column(Renamed(m, cols[i].name), cols[i].values))
            && r[|cols|] == Column(name, Repeat(v, nrows))
  {
    var renamed := RenameColumns(cols, m);
    assert !HasColumn(renamed, name);
    RenamePreservesShape(cols, m, nrows);
    AssignPreservesShape(renamed, name, v, nrows);
  }

  lemma RenamePreservesShape(cols: seq<Column>, m: Renaming, nrows: nat)
    requires Rectangular(cols, nrows)
    ensures Rectangular(RenameColumns(cols, m), nrows)
  {
  }

  lemma AssignPreservesShape(cols: seq<Column>, name: string, v: Cell, nrows: nat)
    requires Rectangular(cols, nrows)
    ensures Rectangular(AssignConstant(cols, name, v, nrows), nrows)
  {
  }

  /** A pandas DataFrame that code updates in place. */
  class DataFrame {
    var nrows: nat
    var columns: seq<Column>

    ghost predicate Valid()
      reads this
    {
      Rectangular(columns, nrows)
    }

    constructor (nrows: nat, columns: seq<Column>)
      requires Rectangular(columns, nrows)
      ensures Valid() && this.nrows == nrows && this.columns == columns
    {
      this.nrows := nrows;
      this.columns := columns;
    }

    /** `frame.rename(columns=m, inplace=True)`. */
    method Rename(m: Renaming)
      requires Valid()
      modifies this
      ensures Valid() && nrows == old(nrows)
      ensures columns == RenameColumns(old(columns), m)
    {
      RenamePreservesShape(columns, m, nrows);
      columns := RenameColumns(columns, m);
    }

    /** `frame[name] = v`. */
    method Assign(name: string, v: Cell)
      requires Valid()
      modifies this
      ensures Valid() && nrows == old(nrows)
      ensures columns == AssignConstant(old(columns), name, v, nrows)
    {
      AssignPreservesShape(columns, name, v, nrows);
      columns := AssignConstant(columns, name, v, nrows);
    }
  }
}
