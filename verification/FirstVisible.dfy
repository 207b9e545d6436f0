/** The first rows of a query that the caller may see, read in batches. */
module FirstVisible {

  const SEARCH_BATCH := 100

  function Visible<T>(rows: seq<T>, visible: T -> bool): seq<T> {
    if rows == [] then []
    else Visible(rows[..|rows| - 1], visible) + (if visible(rows[|rows| - 1]) then [rows[|rows| - 1]] else [])
  }

  function Take<T>(rows: seq<T>, n: nat): seq<T> {
    if |rows| <= n then rows else rows[..n]
  }

  function Clamped(first: int): nat {
    if first < 0 then 0 else if first > 100 then 100 else first
  }

  lemma {:induction false} VisiblePrefix<T>(rows: seq<T>, k: nat, visible: T -> bool)
    requires k <= |rows|
    ensures Visible(rows[..k], visible) <= Visible(rows, visible)
    decreases |rows| - k
  {
    if k < |rows| {
      VisiblePrefix(rows, k + 1, visible);
      assert rows[..k + 1][..k] == rows[..k];
    } else {
      assert rows[..k] == rows;
    }
  }

  /** Once enough rows are found, the rows not read could only come after them. */
  lemma EnoughIsFinal<T>(rows: seq<T>, k: nat, n: nat, visible: T -> bool)
    requires k <= |rows| && |Visible(rows[..k], visible)| >= n
    ensures Take(Visible(rows, visible), n) == Visible(rows[..k], visible)[..n]
  {
    VisiblePrefix(rows, k, visible);
  }

  /**
  Exactly the first n visible rows, n clamped to 0..100, whatever the number of rows and wherever a
  batch ends.
  */
  method FirstVisibleRows<T>(rows: seq<T>, first: int, visible: T -> bool) returns (found: seq<T>)
    ensures found == Take(Visible(rows, visible), Clamped(first))
  {
    found := [];
    var offset: nat := 0;
    var n := Clamped(first);
    assert rows[..0] == [];
    while |found| < n
      invariant offset <= |rows| && found == Visible(rows[..offset], visible) && |found| <= n
      decreases |rows| - offset, n - |found|
    {
      var stop := if offset + SEARCH_BATCH < |rows| then offset + SEARCH_BATCH else |rows|;
      var batch := rows[offset..stop];
      for i := 0 to |batch|
        invariant found == Visible(rows[..offset + i], visible) && |found| < n
      {
        assert rows[..offset + i + 1][..offset + i] == rows[..offset + i];
        if visible(batch[i]) {
          found := found + [batch[i]];
          if |found| == n {
            EnoughIsFinal(rows, offset + i + 1, n, visible);
            return;
          }
        }
      }
      if |batch| < SEARCH_BATCH {
        assert rows[..stop] == rows;
        return;
      }
      offset := offset + SEARCH_BATCH;
    }
    EnoughIsFinal(rows, offset, n, visible);
  }

  /** How many of the first k rows the caller may see. */
  function SeenBefore<T>(rows: seq<T>, k: nat, visible: T -> bool): (n: nat)
    requires k <= |rows|
    ensures n <= k
  {
    if k == 0 then 0 else SeenBefore(rows, k - 1, visible) + if visible(rows[k - 1]) then 1 else 0
  }

  lemma {:induction false} VisibleAt<T>(rows: seq<T>, visible: T -> bool, k: nat)
    requires k <= |rows|
    ensures |Visible(rows[..k], visible)| == SeenBefore(rows, k, visible)
    ensures forall i :: 0 <= i < k && visible(rows[i]) ==>
              SeenBefore(rows, i, visible) < SeenBefore(rows, k, visible)
              && Visible(rows[..k], visible)[SeenBefore(rows, i, visible)] == rows[i]
    decreases k
  {
    if k > 0 {
      VisibleAt(rows, visible, k - 1);
      assert rows[..k][..k - 1] == rows[..k - 1] && rows[..k][k - 1] == rows[k - 1];
    }
  }

  /**
  What a caller finds: as many rows as may be seen, up to what was asked for and never more than a hundred;
  and a visible row stands where the number of visible rows before it says, if that is within the page.
  */
  lemma FoundRows<T>(rows: seq<T>, first: int, visible: T -> bool, i: nat)
    ensures var found, all := Take(Visible(rows, visible), Clamped(first)), SeenBefore(rows, |rows|, visible);
            var most := if first <= 0 then 0 else if first >= 100 then 100 else first;
            && |found| == (if all < most then all else most)
            && (i < |rows| && visible(rows[i]) && SeenBefore(rows, i, visible) < most ==>
                  SeenBefore(rows, i, visible) < |found| && found[SeenBefore(rows, i, visible)] == rows[i])
  {
    VisibleAt(rows, visible, |rows|);
    assert rows[..|rows|] == rows;
  }
}
