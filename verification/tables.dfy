/**
 The in-memory shape of a loaded CSV table, reduced to what the data-quality
 checks look at: named columns of cells, where a cell is either pandas' missing
 value or a piece of text.
 */
module Tables {

  datatype Option<+T> = None | Some(value: T)

  /** One cell: the missing value (what pandas reads an empty field as) or text. */
  datatype Cell = Null | Str(text: string)

  type Column = seq<Cell>

  /** A table stored column by column: `cols[k]` holds the cells of the column
      labelled `names[k]`, top row first, and every column has `rows` cells. */
  datatype Frame = Frame(names: seq<string>, cols: seq<Column>, rows: nat) {
    predicate Valid() {
      && |names| == |cols|
      && (forall i, j :: 0 <= i < j < |names| ==> names[i] != names[j])
      && (forall k :: 0 <= k < |cols| ==> |cols[k]| == rows)
    }
  }

  /** A well-formed table: one column per distinct label, all of equal height. */
  type Table = f: Frame | f.Valid() witness Frame([], [], 0)

  /** The position of `name` among `names`: its first occurrence. */
  function IndexOf(names: seq<string>, name: string): (k: nat)
    requires name in names
    ensures k < |names| && names[k] == name
    ensures name !in names[..k]
  {
    if names[0] == name then 0
    else
      var k := 1 + IndexOf(names[1..], name);
      assert names[..k] == [names[0]] + names[1..][..k - 1];
      k
  }

  /** `table[name]`: the cells of the named column. */
  function Col(t: Table, name: string): (c: Column)
    requires name in t.names
    ensures |c| == t.rows
    ensures exists k :: 0 <= k < |t.names| && t.names[k] == name && t.cols[k] == c
  {
    t.cols[IndexOf(t.names, name)]
  }

  /** The distinct values of a column. */
  function Elems(c: Column): set<Cell>
  {
    set x | x in c
  }

}
