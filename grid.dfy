/** The row chunking every listing command applies before rendering a table:
    `[xs[i:i + 5] for i in range(0, len(xs), 5)]`. */
module Grid {

  /** Number of names per table row. */
  const Width: nat := 5

  function Min(a: int, b: int): int {
    if a <= b then a else b
  }

  /** Row `k` is the slice `xs[5k : 5k + 5]`, clamped at the end as Python slicing is;
      there is one row per start index `0, 5, 10, ...` below `|xs|`. */
  function GridRows<T>(xs: seq<T>): (rows: seq<seq<T>>)
  {
    seq((|xs| + Width - 1) / Width,
        k requires 0 <= k < (|xs| + Width - 1) / Width => xs[Width * k .. Min(Width * k + Width, |xs|)])
  }

  /** The rows one after the other. */
  function Flatten<T>(rows: seq<seq<T>>): seq<T>
    decreases |rows|
  {
    if rows == [] then [] else rows[0] + Flatten(rows[1..])
  }

  /** A list longer than one row is its first five elements followed by the rows of the rest. */
  lemma GridRowsUnfold<T>(xs: seq<T>)
    requires |xs| > Width
    ensures GridRows(xs) == [xs[..Width]] + GridRows(xs[Width..])
  {
    var rows, tail := GridRows(xs), GridRows(xs[Width..]);
    assert |rows| == 1 + |tail|;
    forall k | 1 <= k < |rows| ensures rows[k] == tail[k - 1] {
      assert xs[Width..][Width * (k - 1) .. Min(Width * (k - 1) + Width, |xs| - Width)]
          == xs[Width * k .. Min(Width * k + Width, |xs|)];
    }
  }

  /** The rows concatenate back to the list; every row but the last is full, the last is
      not empty, and there are ceil(|xs| / 5) of them. */
  lemma {:induction false} GridRowsSpec<T>(xs: seq<T>)
    ensures Flatten(GridRows(xs)) == xs
    ensures |GridRows(xs)| == (|xs| + Width - 1) / Width
    ensures forall k :: 0 <= k < |GridRows(xs)| - 1 ==> |GridRows(xs)[k]| == Width
    ensures GridRows(xs) != [] ==> 0 < |GridRows(xs)[|GridRows(xs)| - 1]| <= Width
    ensures GridRows(xs) == [] <==> xs == []
    decreases |xs|
  {
    var rows := GridRows(xs);
    if |xs| > Width {
      GridRowsUnfold(xs);
      GridRowsSpec(xs[Width..]);
      assert rows[1..] == GridRows(xs[Width..]);
      assert xs == xs[..Width] + xs[Width..];
    } else if xs != [] {
      assert |rows| == 1 && rows[0] == xs;
      assert rows[1..] == [];
    }
  }
}
