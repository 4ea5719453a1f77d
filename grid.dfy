/**
 * The card grid of the "upcoming" and "month" pages: the selected rows are
 * laid out three to a line, `for i in range(0, len(rows), 3)` over the
 * slices `rows.iloc[i:i+3]`.
 */
module Grid {
  import opened Sequences

  /** Cards per line of the grid (`st.columns(3)`). */
  const COLUMNS: nat := 3

  /** The lines of a grid of width w, as a specification: full lines of w
      cards, then the remainder. */
  function ChunksOf<T>(s: seq<T>, w: nat): seq<seq<T>>
    requires w > 0
    decreases |s|
  {
    if |s| == 0 then []
    else if |s| <= w then [s]
    else [s[..w]] + ChunksOf(s[w..], w)
  }

  function Flatten<T>(lines: seq<seq<T>>): seq<T> {
    if lines == [] then [] else lines[0] + Flatten(lines[1..])
  }

  /** Python's clamped slice `s[i:j]` for 0 <= i <= j. */
  function Slice<T>(s: seq<T>, i: nat, j: nat): seq<T>
    requires i <= j
  {
    s[Min(i, |s|)..Min(j, |s|)]
  }

  /** Chunking loses, duplicates and reorders nothing: the lines concatenate
      back to the input, and each line holds between 1 and w cards. */
  lemma {:induction false} ChunksOfPartition<T>(s: seq<T>, w: nat)
    requires w > 0
    ensures Flatten(ChunksOf(s, w)) == s
    ensures forall k :: 0 <= k < |ChunksOf(s, w)| ==> 1 <= |ChunksOf(s, w)[k]| <= w
    decreases |s|
  {
    if |s| == 0 {
    } else if |s| <= w {
      assert Flatten([s]) == s + Flatten([]);
    } else {
      var rest := ChunksOf(s[w..], w);
      ChunksOfPartition(s[w..], w);
      var lines := [s[..w]] + rest;
      assert lines[1..] == rest;
      assert Flatten(lines) == s[..w] + Flatten(rest);
      assert s[..w] + s[w..] == s;
      forall k | 0 <= k < |lines|
        ensures 1 <= |lines[k]| <= w
      {
        if k > 0 { assert lines[k] == rest[k - 1]; }
      }
    }
  }

  /** A grid of n cards has ceil(n / 3) lines. */
  lemma {:induction false} ChunksOfCount<T>(s: seq<T>)
    ensures |ChunksOf(s, COLUMNS)| == (|s| + COLUMNS - 1) / COLUMNS
    decreases |s|
  {
    if |s| > COLUMNS {
      ChunksOfCount(s[COLUMNS..]);
    }
  }

  /** The loop of the page: one line per step of i, stepping by COLUMNS. */
  method GridLines<T>(rows: seq<T>) returns (lines: seq<seq<T>>)
    ensures lines == ChunksOf(rows, COLUMNS)
    ensures Flatten(lines) == rows
    ensures forall k :: 0 <= k < |lines| ==> 1 <= |lines[k]| <= COLUMNS
  {
    lines := [];
    var i: nat := 0;
    while i < |rows|
      invariant i <= |rows| + COLUMNS - 1
      invariant lines + ChunksOf(rows[Min(i, |rows|)..], COLUMNS) == ChunksOf(rows, COLUMNS)
    {
      var rest := rows[i..];
      assert |rest| > 0;
      if |rest| <= COLUMNS {
        assert Slice(rows, i, i + COLUMNS) == rest;
        assert rows[Min(i + COLUMNS, |rows|)..] == [];
      } else {
        assert Slice(rows, i, i + COLUMNS) == rest[..COLUMNS];
        assert rows[Min(i + COLUMNS, |rows|)..] == rest[COLUMNS..];
      }
      lines := lines + [Slice(rows, i, i + COLUMNS)];
      i := i + COLUMNS;
    }
    assert rows[Min(i, |rows|)..] == [];
    ChunksOfPartition(rows, COLUMNS);
  }
}
