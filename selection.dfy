/** Order-preserving selection, stated through the positions that are kept. */
module Selection {

  /** `idx` lists, in strictly increasing order, exactly the positions below
      `n` that belong to `keep` (positions from `n` on are ignored). */
  ghost predicate EnumeratesInOrder(idx: seq<int>, n: int, keep: set<int>)
  {
    (forall a, b :: 0 <= a < b < |idx| ==> idx[a] < idx[b]) &&
    (forall a :: 0 <= a < |idx| ==> 0 <= idx[a] < n) &&
    (forall i :: 0 <= i < n ==> (i in keep <==> i in idx))
  }

  /** Extending the range by one position keeps the enumeration valid, with
      that position appended when it is kept. */
  lemma EnumerationExtends(idx: seq<int>, n: int, keep: set<int>, keepLast: bool)
    requires 0 <= n
    requires EnumeratesInOrder(idx, n, keep)
    requires keepLast <==> n in keep
    ensures EnumeratesInOrder(idx + (if keepLast then [n] else []), n + 1, keep)
  {
  }

  /** The enumeration of a set of positions is unique. */
  lemma {:induction false} EnumerationUnique(x: seq<int>, y: seq<int>, n: int, keep: set<int>)
    requires EnumeratesInOrder(x, n, keep) && EnumeratesInOrder(y, n, keep)
    ensures x == y
    decreases |x|
  {
    if x == [] || y == [] {
      SameEmptiness(x, y, n, keep);
      SameEmptiness(y, x, n, keep);
    } else {
      LastIsLargest(x, n, keep, y[|y| - 1]);
      LastIsLargest(y, n, keep, x[|x| - 1]);
      var m := x[|x| - 1];
      DropLast(x, n, keep);
      DropLast(y, n, keep);
      EnumerationUnique(x[..|x| - 1], y[..|y| - 1], m, keep);
      assert x == x[..|x| - 1] + [m] && y == y[..|y| - 1] + [m];
    }
  }

  /** Two enumerations of the same positions are empty together. */
  lemma SameEmptiness(x: seq<int>, y: seq<int>, n: int, keep: set<int>)
    requires EnumeratesInOrder(x, n, keep) && EnumeratesInOrder(y, n, keep)
    ensures x != [] ==> y != []
  {
    if x != [] {
      assert x[0] in keep;
    }
  }

  /** The last position enumerated is the largest kept one. */
  lemma LastIsLargest(x: seq<int>, n: int, keep: set<int>, i: int)
    requires EnumeratesInOrder(x, n, keep) && x != []
    requires 0 <= i < n && i in keep
    ensures i <= x[|x| - 1]
  {
    var a :| 0 <= a < |x| && x[a] == i;
    if a < |x| - 1 {
      assert x[a] < x[|x| - 1];
    }
  }

  /** Without its last position, an enumeration covers the positions below that one. */
  lemma DropLast(x: seq<int>, n: int, keep: set<int>)
    requires EnumeratesInOrder(x, n, keep) && x != []
    ensures EnumeratesInOrder(x[..|x| - 1], x[|x| - 1], keep)
  {
    var m := x[|x| - 1];
    var x' := x[..|x| - 1];
    assert forall a :: 0 <= a < |x'| ==> x'[a] == x[a] && x[a] < m;
    forall i | 0 <= i < m ensures i in keep <==> i in x' {
      assert x == x' + [m];
    }
  }
}
