/** Numeric tables as the backends write them and numpy loads them. */
module Tables {

  /** A floating-point value; its arithmetic and text form are not modelled. */
  type Num = real

  type Row = seq<Num>

  type Table = seq<Row>

  /** What every backend's `solve` returns: the action, the trajectory
      table (radius first, then one column per field), the elapsed time
      and the command that was run. */
  datatype Raw = Raw(action: Num, trajectory: Table, time: Num, command: string)

  /** How Python renders a float: `str(x)` and `repr(x)` (the latter is
      what `str` of a list uses for its elements). */
  datatype Formats = Formats(str: Num -> string, repr: Num -> string)

  /** The text of numpy's `IndexError` for a missing row or column. */
  const IndexOutOfBounds := "index out of bounds"

  /** Python's slice `s[:-1]`. */
  function DropLast<T>(s: seq<T>): (r: seq<T>)
    ensures |s| > 0 ==> |r| == |s| - 1
    ensures |s| == 0 ==> r == []
    ensures forall k :: 0 <= k < |r| ==> r[k] == s[k]
  {
    if |s| == 0 then [] else s[..|s| - 1]
  }

  /** Every row has a column `j`. */
  predicate HasColumn(t: Table, j: nat) {
    forall k :: 0 <= k < |t| ==> j < |t[k]|
  }

  /** numpy's `t[:, j]`. */
  function Column(t: Table, j: nat): (c: seq<Num>)
    requires HasColumn(t, j)
    ensures |c| == |t|
    ensures forall k :: 0 <= k < |t| ==> c[k] == t[k][j]
  {
    seq(|t|, k requires 0 <= k < |t| => t[k][j])
  }

  /** numpy's `max()` of a non-empty vector. */
  function Max(xs: seq<Num>): (m: Num)
    requires |xs| > 0
    ensures m in xs
    ensures forall k :: 0 <= k < |xs| ==> xs[k] <= m
    decreases |xs|
  {
    if |xs| == 1 then xs[0]
    else
      var rest := Max(xs[1..]);
      if xs[0] >= rest then xs[0] else rest
  }

  /** numpy's `min()` of a non-empty vector. */
  function Min(xs: seq<Num>): (m: Num)
    requires |xs| > 0
    ensures m in xs
    ensures forall k :: 0 <= k < |xs| ==> m <= xs[k]
    decreases |xs|
  {
    if |xs| == 1 then xs[0]
    else
      var rest := Min(xs[1..]);
      if xs[0] <= rest then xs[0] else rest
  }
}
