/** The flood-fill reveal of create_mask. */
module Reveal {
  import opened Cells

  /** Mask and field have the same dimensions. */
  predicate SameShape(mask: array2<bool>, field: array2<int>)
  {
    mask.Length0 == field.Length0 && mask.Length1 == field.Length1
  }

  /** The cells the mask shows. */
  ghost function View(mask: array2<bool>): set<Cell>
    reads mask
  {
    set i, j | 0 <= i < mask.Length0 && 0 <= j < mask.Length1 && mask[i, j] :: (i, j)
  }

  /** The cells the mask hides; create_mask only recurses into one of them. */
  ghost function Hidden(mask: array2<bool>): set<Cell>
    reads mask
  {
    set i, j | 0 <= i < mask.Length0 && 0 <= j < mask.Length1 && !mask[i, j] :: (i, j)
  }

  lemma ViewMember(mask: array2<bool>, c: Cell)
    ensures c in View(mask) <==> InBounds(mask.Length0, mask.Length1, c) && mask[c.0, c.1]
    ensures c in Hidden(mask) <==> InBounds(mask.Length0, mask.Length1, c) && !mask[c.0, c.1]
  {
  }

  /** mask[c] = True: show one cell and leave every other cell as it was. */
  method Show(mask: array2<bool>, c: Cell)
    requires InBounds(mask.Length0, mask.Length1, c)
    modifies mask
    ensures mask[c.0, c.1]
    ensures forall i, j :: 0 <= i < mask.Length0 && 0 <= j < mask.Length1 && (i, j) != c ==> mask[i, j] == old(mask[i, j])
    ensures View(mask) == old(View(mask)) + {c}
    ensures Hidden(mask) == old(Hidden(mask)) - {c}
  {
    ghost var vis, hid := View(mask), Hidden(mask);
    forall d ensures d in vis <==> InBounds(mask.Length0, mask.Length1, d) && old(mask[d.0, d.1])
      ensures d in hid <==> InBounds(mask.Length0, mask.Length1, d) && !old(mask[d.0, d.1])
    {
      ViewMember(mask, d);
    }
    mask[c.0, c.1] := true;
    forall d ensures d in View(mask) <==> d in vis + {c}
      ensures d in Hidden(mask) <==> d in hid - {c}
    {
      ViewMember(mask, d);
    }
  }

  ghost predicate IsZero(field: array2<int>, c: Cell)
    reads field
  {
    InBounds(field.Length0, field.Length1, c) && field[c.0, c.1] == 0
  }

  ghost predicate IsMine(field: array2<int>, c: Cell)
    reads field
  {
    InBounds(field.Length0, field.Length1, c) && field[c.0, c.1] == -1
  }

  /** Every neighbour of z that is not a mine is in vis. */
  ghost predicate OpenedIn(vis: set<Cell>, field: array2<int>, z: Cell)
    reads field
  {
    forall n :: IsNeighbor(field.Length0, field.Length1, z, n, 1) && !IsMine(field, n) ==> n in vis
  }

  /** Every visible 0-cell has all its non-mine neighbours visible. */
  ghost predicate Closed(vis: set<Cell>, field: array2<int>)
    reads field
  {
    forall z :: z in vis && IsZero(field, z) ==> OpenedIn(vis, field, z)
  }

  /**
   * The cells the recursion entered, in the order it entered them: the first
   * is click and every later one is a neighbour of an earlier one.
   */
  ghost predicate EntryOrder(rows: int, cols: int, click: Cell, entered: seq<Cell>)
  {
    && |entered| >= 1 && entered[0] == click
    && forall k :: 0 < k < |entered| ==>
         exists j :: 0 <= j < k && IsNeighbor(rows, cols, entered[j], entered[k], 1)
  }

  /**
   * What one call of create_mask from click does to the visible cells, going
   * from before to after; entered lists the cells the recursion started from,
   * in entry order.
   */
  ghost predicate Reveals(field: array2<int>, click: Cell, before: set<Cell>, after: set<Cell>, entered: seq<Cell>)
    reads field
  {
    // click is shown, nothing is hidden again, and only cells of the grid are shown
    && click in after
    && before <= after
    && (forall c :: c in after - before ==> InBounds(field.Length0, field.Length1, c))
    // the recursion starts at click and moves only to neighbours of cells it
    // entered before; it enters only 0-cells that were hidden, and every cell
    // it enters is shown together with its non-mine neighbours
    && EntryOrder(field.Length0, field.Length1, click, entered)
    && (forall e :: e in entered ==> e in after)
    && (forall e :: e in entered ==> e == click || (e !in before && IsZero(field, e)))
    && (forall e :: e in entered ==> OpenedIn(after, field, e))
    // every 0-cell newly shown was entered
    && (forall c :: c in after - before && IsZero(field, c) ==> c in entered)
    // every other cell newly shown is a non-mine neighbour of an entered cell
    && (forall c :: c in after - before && c !in entered ==>
          !IsMine(field, c) && exists e :: e in entered && IsNeighbor(field.Length0, field.Length1, e, c, 1))
  }

  /** The loop invariant of create_mask after the neighbours in done were handled. */
  ghost predicate Progress(field: array2<int>, click: Cell, before: set<Cell>, vis: set<Cell>,
                           entered: seq<Cell>, done: seq<Cell>)
    reads field
  {
    && click in vis
    && before <= vis
    && (forall c :: c in vis - before ==> InBounds(field.Length0, field.Length1, c))
    && EntryOrder(field.Length0, field.Length1, click, entered)
    && (forall e :: e in entered ==> e in vis)
    && (forall e :: e in entered ==> e == click || (e !in before && IsZero(field, e)))
    && (forall e :: e in entered && e != click ==> OpenedIn(vis, field, e))
    && (forall c :: c in done ==> IsNeighbor(field.Length0, field.Length1, click, c, 1))
    && (forall c :: c in done && !IsMine(field, c) ==> c in vis)
    && (forall c :: c in vis - before && IsZero(field, c) ==> c in entered)
    && (forall c :: c in vis - before && c !in entered ==>
          !IsMine(field, c) && exists e :: e in entered && IsNeighbor(field.Length0, field.Length1, e, c, 1))
  }

  lemma ProgressStart(field: array2<int>, click: Cell, before: set<Cell>)
    requires InBounds(field.Length0, field.Length1, click)
    ensures Progress(field, click, before, before + {click}, [click], [])
  {
  }

  /** An entry of sub, after entered, has a neighbour earlier in entered + sub. */
  lemma EntryOrderAppendAt(rows: int, cols: int, click: Cell, entered: seq<Cell>, nb: Cell, sub: seq<Cell>, k: nat)
    requires EntryOrder(rows, cols, click, entered) && EntryOrder(rows, cols, nb, sub)
    requires IsNeighbor(rows, cols, click, nb, 1)
    requires 0 < k < |entered| + |sub|
    ensures exists j :: 0 <= j < k && IsNeighbor(rows, cols, (entered + sub)[j], (entered + sub)[k], 1)
  {
    var all, n := entered + sub, |entered|;
    if k < n {
      EarlierInPrefix(rows, cols, entered, sub, k);
    } else if k == n {
      assert all[0] == click && all[k] == nb;
    } else {
      EarlierInSuffix(rows, cols, entered, sub, k - n);
    }
  }

  lemma EarlierInPrefix(rows: int, cols: int, a: seq<Cell>, b: seq<Cell>, k: nat)
    requires k < |a|
    requires exists j :: 0 <= j < k && IsNeighbor(rows, cols, a[j], a[k], 1)
    ensures exists j :: 0 <= j < k && IsNeighbor(rows, cols, (a + b)[j], (a + b)[k], 1)
  {
    var j :| 0 <= j < k && IsNeighbor(rows, cols, a[j], a[k], 1);
    assert (a + b)[j] == a[j] && (a + b)[k] == a[k];
  }

  lemma EarlierInSuffix(rows: int, cols: int, a: seq<Cell>, b: seq<Cell>, k: nat)
    requires k < |b|
    requires exists j :: 0 <= j < k && IsNeighbor(rows, cols, b[j], b[k], 1)
    ensures exists j :: 0 <= j < |a| + k && IsNeighbor(rows, cols, (a + b)[j], (a + b)[|a| + k], 1)
  {
    var j :| 0 <= j < k && IsNeighbor(rows, cols, b[j], b[k], 1);
    assert (a + b)[|a| + j] == b[j] && (a + b)[|a| + k] == b[k];
  }

  /** Appending the cells a recursive call from a neighbour nb of click entered keeps the entry order. */
  lemma EntryOrderAppend(rows: int, cols: int, click: Cell, entered: seq<Cell>, nb: Cell, sub: seq<Cell>)
    requires EntryOrder(rows, cols, click, entered) && EntryOrder(rows, cols, nb, sub)
    requires IsNeighbor(rows, cols, click, nb, 1)
    ensures EntryOrder(rows, cols, click, entered + sub)
  {
    forall k | 0 < k < |entered + sub|
      ensures exists j :: 0 <= j < k && IsNeighbor(rows, cols, (entered + sub)[j], (entered + sub)[k], 1)
    {
      EntryOrderAppendAt(rows, cols, click, entered, nb, sub, k);
    }
  }

  /** Handling neighbour nb by the recursive call keeps the invariant. */
  lemma ProgressRecurse(field: array2<int>, click: Cell, before: set<Cell>, vis: set<Cell>,
                        entered: seq<Cell>, done: seq<Cell>, nb: Cell, vis': set<Cell>, sub: seq<Cell>)
    requires Progress(field, click, before, vis, entered, done)
    requires IsNeighbor(field.Length0, field.Length1, click, nb, 1)
    requires nb !in vis && IsZero(field, nb)
    requires Reveals(field, nb, vis, vis', sub)
    ensures Progress(field, click, before, vis', entered + sub, done)
  {
    EntryOrderAppend(field.Length0, field.Length1, click, entered, nb, sub);
    forall e | e in entered && e != click ensures OpenedIn(vis', field, e) {
      assert OpenedIn(vis, field, e);
    }
    forall c | c in vis' - before && c !in entered + sub
      ensures !IsMine(field, c) && exists e :: e in entered + sub && IsNeighbor(field.Length0, field.Length1, e, c, 1)
    {
      if c in vis {
        assert c in vis - before && c !in entered;
        var e :| e in entered && IsNeighbor(field.Length0, field.Length1, e, c, 1);
        assert e in entered + sub;
      } else {
        assert c in vis' - vis && c !in sub;
        var e :| e in sub && IsNeighbor(field.Length0, field.Length1, e, c, 1);
        assert e in entered + sub;
      }
    }
  }

  /** Showing neighbour nb when it is not a mine keeps the invariant. */
  lemma ProgressShow(field: array2<int>, click: Cell, before: set<Cell>, vis: set<Cell>,
                     entered: seq<Cell>, done: seq<Cell>, nb: Cell)
    requires Progress(field, click, before, vis, entered, done)
    requires IsNeighbor(field.Length0, field.Length1, click, nb, 1)
    requires nb in vis || !IsZero(field, nb)
    ensures Progress(field, click, before, if IsMine(field, nb) then vis else vis + {nb}, entered, done + [nb])
  {
    var vis' := if IsMine(field, nb) then vis else vis + {nb};
    forall e | e in entered && e != click ensures OpenedIn(vis', field, e) {
      assert OpenedIn(vis, field, e);
    }
    forall c | c in vis' - before && c !in entered
      ensures !IsMine(field, c) && exists e :: e in entered && IsNeighbor(field.Length0, field.Length1, e, c, 1)
    {
      if c !in vis {
        assert c == nb && click in entered;
      }
    }
  }

  /** Once every neighbour of click is handled, the call has the effect Reveals states. */
  lemma ProgressFinish(field: array2<int>, click: Cell, before: set<Cell>, vis: set<Cell>,
                       entered: seq<Cell>, ns: seq<Cell>)
    requires Progress(field, click, before, vis, entered, ns)
    requires forall c :: c in ns <==> IsNeighbor(field.Length0, field.Length1, click, c, 1)
    ensures Reveals(field, click, before, vis, entered)
  {
    assert OpenedIn(vis, field, click);
  }

  lemma SliceStep<T>(s: seq<T>, k: nat)
    requires k < |s|
    ensures s[..k + 1] == s[..k] + [s[k]]
  {
  }

  /**
   * create_mask: show click, recurse into each hidden neighbour holding 0, and
   * show each neighbour that is not a mine. The ghost result is the set of
   * cells the recursion started from. The call terminates because a recursive
   * call starts only on a hidden cell and shows it at once, so the hidden
   * count (plus one while the start cell is already visible) goes down.
   */
  method CreateMask(mask: array2<bool>, field: array2<int>, click: Cell) returns (ghost entered: seq<Cell>)
    requires SameShape(mask, field) && InBounds(field.Length0, field.Length1, click)
    modifies mask
    decreases |Hidden(mask)| + (if mask[click.0, click.1] then 1 else 0)
    ensures Reveals(field, click, old(View(mask)), View(mask), entered)
    ensures Hidden(mask) <= old(Hidden(mask))
  {
    var rows, cols := field.Length0, field.Length1;
    ghost var before, hidden0 := View(mask), Hidden(mask);
    ghost var measure := |hidden0| + (if mask[click.0, click.1] then 1 else 0);
    ViewMember(mask, click);
    Show(mask, click);
    assert |hidden0 - {click}| < measure;
    entered := [click];
    ProgressStart(field, click, before);
    var ns := GetNeighbors(rows, cols, click.0, click.1, 1);
    for k := 0 to |ns|
      invariant Progress(field, click, before, View(mask), entered, ns[..k])
      invariant Hidden(mask) <= hidden0 - {click}
    {
      var nb := ns[k];
      assert nb in ns;
      SliceStep(ns, k);
      if !mask[nb.0, nb.1] && field[nb.0, nb.1] == 0 {
        ViewMember(mask, nb);
        SubsetCard(Hidden(mask), hidden0 - {click});
        ghost var vis := View(mask);
        ghost var sub: seq<Cell>;
        sub := CreateMask(mask, field, nb);
        ProgressRecurse(field, click, before, vis, entered, ns[..k], nb, View(mask), sub);
        entered := entered + sub;
      }
      ghost var vis := View(mask);
      ViewMember(mask, nb);
      ProgressShow(field, click, before, vis, entered, ns[..k], nb);
      if field[nb.0, nb.1] != -1 {
        Show(mask, nb);
      }
    }
    assert ns[..|ns|] == ns;
    ProgressFinish(field, click, before, View(mask), entered, ns);
  }

  /** A reveal keeps the board closed: every 0-cell shown afterwards has its non-mine neighbours shown. */
  lemma ClosedAfterReveals(field: array2<int>, click: Cell, before: set<Cell>, after: set<Cell>, entered: seq<Cell>)
    requires Closed(before, field)
    requires Reveals(field, click, before, after, entered)
    ensures Closed(after, field)
  {
    forall z | z in after && IsZero(field, z) ensures OpenedIn(after, field, z) {
      if z in before {
        assert OpenedIn(before, field, z);
      } else {
        assert z in entered;
      }
    }
  }

  /**
   * A chain of cells, each a neighbour of the one before, where every cell but
   * the last holds 0 and the last is not a mine: the flood from the first
   * cell reaches all of them.
   */
  ghost predicate ZeroPath(field: array2<int>, p: seq<Cell>)
    reads field
  {
    && |p| >= 1
    && (forall k :: 0 <= k < |p| - 1 ==> IsZero(field, p[k]) && IsNeighbor(field.Length0, field.Length1, p[k], p[k + 1], 1))
    && !IsMine(field, p[|p| - 1])
  }

  /** On a closed board, a zero path whose first cell is shown is shown entirely. */
  lemma {:induction false} ZeroPathShown(vis: set<Cell>, field: array2<int>, p: seq<Cell>)
    requires Closed(vis, field) && ZeroPath(field, p) && p[0] in vis
    ensures forall k :: 0 <= k < |p| ==> p[k] in vis
  {
    if |p| > 1 {
      assert IsZero(field, p[0]) && IsNeighbor(field.Length0, field.Length1, p[0], p[1], 1);
      assert OpenedIn(vis, field, p[0]);
      if 1 < |p| - 1 {
        assert IsZero(field, p[1]);
      }
      var tail := p[1..];
      ZeroPathShown(vis, field, tail);
      forall k | 0 < k < |p| ensures p[k] in vis {
        assert p[k] == tail[k - 1];
      }
    }
  }

  /**
   * A way the flood can take from click: each cell is a neighbour of the one
   * before it, every cell strictly between the first and the last is a 0-cell
   * that was hidden before the call, and the last, unless it is click, is not
   * a mine.
   */
  ghost predicate FloodPath(field: array2<int>, before: set<Cell>, click: Cell, p: seq<Cell>)
    reads field
  {
    && |p| >= 1 && p[0] == click
    && (forall k :: 0 <= k < |p| - 1 ==> IsNeighbor(field.Length0, field.Length1, p[k], p[k + 1], 1))
    && (forall k :: 0 < k < |p| - 1 ==> p[k] !in before && IsZero(field, p[k]))
    && (|p| > 1 ==> !IsMine(field, p[|p| - 1]))
  }

  /** A flood path to click or to an entered 0-cell goes on to any non-mine neighbour. */
  lemma FloodPathExtend(field: array2<int>, before: set<Cell>, click: Cell, p: seq<Cell>, c: Cell)
      returns (q: seq<Cell>)
    requires FloodPath(field, before, click, p)
    requires p[|p| - 1] == click || (p[|p| - 1] !in before && IsZero(field, p[|p| - 1]))
    requires IsNeighbor(field.Length0, field.Length1, p[|p| - 1], c, 1) && !IsMine(field, c)
    ensures FloodPath(field, before, click, q) && q[|q| - 1] == c
  {
    if p[|p| - 1] == click {
      q := [click, c];
    } else {
      q := p + [c];
      assert forall k :: 0 <= k < |p| ==> q[k] == p[k];
    }
  }

  /** Every cell the recursion entered lies at the end of a flood path from click. */
  lemma {:induction false} EnteredPath(field: array2<int>, click: Cell, before: set<Cell>, entered: seq<Cell>, k: nat)
      returns (p: seq<Cell>)
    requires EntryOrder(field.Length0, field.Length1, click, entered)
    requires forall e :: e in entered ==> e == click || (e !in before && IsZero(field, e))
    requires k < |entered|
    ensures FloodPath(field, before, click, p) && p[|p| - 1] == entered[k]
    decreases k
  {
    if k == 0 || entered[k] == click {
      p := [click];
    } else {
      var j :| 0 <= j < k && IsNeighbor(field.Length0, field.Length1, entered[j], entered[k], 1);
      var pj := EnteredPath(field, click, before, entered, j);
      assert entered[j] in entered && entered[k] in entered;
      p := FloodPathExtend(field, before, click, pj, entered[k]);
    }
  }

  /**
   * The flood stays in the region of click: every newly shown cell ends a
   * flood path from click, so it is a hidden 0-cell connected to click through
   * hidden 0-cells, or a non-mine neighbour of one of them or of click.
   */
  lemma FloodConfined(field: array2<int>, click: Cell, before: set<Cell>, after: set<Cell>, entered: seq<Cell>)
    requires Reveals(field, click, before, after, entered)
    ensures forall c :: c in after - before ==> exists p :: FloodPath(field, before, click, p) && p[|p| - 1] == c
  {
    forall c | c in after - before ensures exists p :: FloodPath(field, before, click, p) && p[|p| - 1] == c {
      if c in entered {
        var k :| 0 <= k < |entered| && entered[k] == c;
        var p := EnteredPath(field, click, before, entered, k);
      } else {
        var e :| e in entered && IsNeighbor(field.Length0, field.Length1, e, c, 1);
        var k :| 0 <= k < |entered| && entered[k] == e;
        var pe := EnteredPath(field, click, before, entered, k);
        var p := FloodPathExtend(field, before, click, pe, c);
      }
    }
  }

  /** From a shown 0-cell of a closed board a flood path takes at most one step, to a shown cell. */
  lemma ShortFloodPath(field: array2<int>, click: Cell, before: set<Cell>, p: seq<Cell>)
    requires Closed(before, field) && click in before && IsZero(field, click)
    requires FloodPath(field, before, click, p)
    ensures |p| <= 2 && p[|p| - 1] in before
  {
    assert OpenedIn(before, field, click);
    if |p| >= 2 {
      assert IsNeighbor(field.Length0, field.Length1, p[0], p[1], 1);
    }
  }

  /** A cell that was shown, or that a flood path from such a click reaches, is shown before the call. */
  lemma ShownZeroReach(field: array2<int>, click: Cell, before: set<Cell>, c: Cell)
    requires Closed(before, field) && click in before && IsZero(field, click)
    requires c in before || exists p :: FloodPath(field, before, click, p) && p[|p| - 1] == c
    ensures c in before
  {
    if c !in before {
      var p :| FloodPath(field, before, click, p) && p[|p| - 1] == c;
      ShortFloodPath(field, click, before, p);
    }
  }

  /** create_mask from a 0-cell that is already shown on a closed board shows nothing new. */
  lemma ShownZeroFloodChangesNothing(field: array2<int>, click: Cell, before: set<Cell>, after: set<Cell>, entered: seq<Cell>)
    requires Closed(before, field) && click in before && IsZero(field, click)
    requires Reveals(field, click, before, after, entered)
    ensures after == before
  {
    FloodConfined(field, click, before, after, entered);
    forall c | c in after ensures c in before {
      assert c in before || c in after - before;
      ShownZeroReach(field, click, before, c);
    }
  }

  /** Showing a cell that does not hold 0 keeps the board closed. */
  lemma ClosedAfterShowing(vis: set<Cell>, field: array2<int>, c: Cell)
    requires Closed(vis, field) && !IsZero(field, c)
    ensures Closed(vis + {c}, field)
  {
    forall z | z in vis + {c} && IsZero(field, z) ensures OpenedIn(vis + {c}, field, z) {
      assert OpenedIn(vis, field, z);
    }
  }
}
