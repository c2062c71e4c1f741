/**
 * The point tables of both interpolation pages: points with a selection flag
 * each, the filter that keeps the selected points in table order, and the
 * checkbox handler that toggles one flag in a copy of the flags.
 */
module Selection {
  /** One row of the point table. */
  datatype Point = Point(x: real, fx: real)

  /**
   * Whether row i is selected. Past the end of the flags JavaScript reads
   * `undefined`, which the filter treats as false.
   */
  predicate IsSelected(flags: seq<bool>, i: nat) {
    i < |flags| && flags[i]
  }

  /** The selected rows among the first n, each once and in increasing order. */
  function SelectedIndices(flags: seq<bool>, n: nat): (idx: seq<nat>)
    ensures forall k :: 0 <= k < |idx| ==> idx[k] < n && IsSelected(flags, idx[k])
    ensures forall a, b :: 0 <= a < b < |idx| ==> idx[a] < idx[b]
    ensures forall i :: 0 <= i < n && IsSelected(flags, i) ==> i in idx
  {
    if n == 0 then [] else SelectedIndices(flags, n - 1) + (if IsSelected(flags, n - 1) then [n - 1] else [])
  }

  /** `points.filter((_, i) => selectedPoints[i])`. */
  function Selected(points: seq<Point>, flags: seq<bool>): seq<Point> {
    if |points| == 0 then []
    else Selected(points[..|points| - 1], flags) + (if IsSelected(flags, |points| - 1) then [points[|points| - 1]] else [])
  }

  /** The filter keeps exactly the selected rows, in table order. */
  lemma {:induction false} SelectedByIndices(points: seq<Point>, flags: seq<bool>)
    ensures var idx := SelectedIndices(flags, |points|);
      |Selected(points, flags)| == |idx| &&
      forall k :: 0 <= k < |idx| ==> Selected(points, flags)[k] == points[idx[k]]
    decreases |points|
  {
    if |points| > 0 {
      var n := |points|;
      var init := points[..n - 1];
      SelectedByIndices(init, flags);
      var idx0 := SelectedIndices(flags, n - 1);
      var s0 := Selected(init, flags);
      var idx := SelectedIndices(flags, n);
      var s := Selected(points, flags);
      assert idx == idx0 + (if IsSelected(flags, n - 1) then [n - 1] else []);
      assert s == s0 + (if IsSelected(flags, n - 1) then [points[n - 1]] else []);
      forall k | 0 <= k < |idx|
        ensures s[k] == points[idx[k]]
      {
        if k < |idx0| {
          assert s[k] == s0[k] == init[idx0[k]];
        }
      }
    }
  }

  /** The filter depends only on which of the rows are selected. */
  lemma {:induction false} SelectedCongruent(points: seq<Point>, flags: seq<bool>, other: seq<bool>)
    requires forall i :: 0 <= i < |points| ==> IsSelected(flags, i) == IsSelected(other, i)
    ensures Selected(points, flags) == Selected(points, other)
    decreases |points|
  {
    if |points| > 0 {
      SelectedCongruent(points[..|points| - 1], flags, other);
    }
  }

  /**
   * The checkbox handler on a copy of the flags: row `index` flips and no other
   * row changes. Writing past the end of a JavaScript array lengthens it with
   * holes, which read as unselected, so the copy then has index + 1 entries.
   */
  function Toggle(flags: seq<bool>, index: nat): (t: seq<bool>)
    ensures |t| == if index < |flags| then |flags| else index + 1
    ensures IsSelected(t, index) == !IsSelected(flags, index)
    ensures forall i: nat :: i != index ==> IsSelected(t, i) == IsSelected(flags, i)
  {
    if index < |flags| then flags[index := !flags[index]]
    else flags + seq(index - |flags|, _ => false) + [true]
  }

  /**
   * Toggling the same row twice restores every row's selection, so the
   * filtered points too, and restores the flags themselves for a row inside
   * the table.
   */
  lemma ToggleTwice(points: seq<Point>, flags: seq<bool>, index: nat)
    ensures forall i: nat :: IsSelected(Toggle(Toggle(flags, index), index), i) == IsSelected(flags, i)
    ensures Selected(points, Toggle(Toggle(flags, index), index)) == Selected(points, flags)
    ensures index < |flags| ==> Toggle(Toggle(flags, index), index) == flags
  {
    SelectedCongruent(points, Toggle(Toggle(flags, index), index), flags);
  }
}
