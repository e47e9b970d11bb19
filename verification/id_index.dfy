/**
 * The id lists the asset registry keeps beside its records: the per-owner
 * list (`UserAssets(owner)`) and the global registration-order list
 * (`AllAssetIds`). Both are plain vectors maintained by linear scans, plus
 * a skip/limit window over the global list.
 */
module IdIndex {
  import opened Common

  /**
   * `add_user_asset` / `add_asset_id`: append `x` unless it is already
   * present. The list keeps its prefix, gains `x` exactly when it lacked it,
   * and never acquires a duplicate.
   */
  function AddUnique<T(==,!new)>(xs: seq<T>, x: T): (r: seq<T>)
    ensures x in r
    ensures forall y :: y in r <==> y in xs || y == x
    ensures |xs| <= |r| && r[..|xs|] == xs
    ensures |r| == if x in xs then |xs| else |xs| + 1
    ensures NoDup(xs) ==> NoDup(r)
  {
    if x in xs then xs else xs + [x]
  }

  /**
   * `remove_user_asset`: drop the first occurrence of `x`, keeping the order
   * of everything else; a no-op when `x` is absent.
   */
  function RemoveFirst<T(==)>(xs: seq<T>, x: T): (r: seq<T>)
    ensures x !in xs ==> r == xs
    ensures |r| == if x in xs then |xs| - 1 else |xs|
    decreases |xs|
  {
    if |xs| == 0 then []
    else if xs[0] == x then
      assert xs == [xs[0]] + xs[1..];
      xs[1..]
    else
      assert xs == [xs[0]] + xs[1..];
      [xs[0]] + RemoveFirst(xs[1..], x)
  }

  /** Removing an element keeps a duplicate-free list duplicate-free and drops exactly that element. */
  lemma RemoveFirstNoDup<T(!new)>(xs: seq<T>, x: T)
    requires NoDup(xs)
    ensures NoDup(RemoveFirst(xs, x))
    ensures forall y :: y in RemoveFirst(xs, x) <==> y in xs && y != x
  {
    if x in xs {
      var k := FirstIndex(xs, x);
      RemoveFirstAt(xs, x, k);
      CutKeepsNoDup(xs, k);
      CutDropsOnlyAt(xs, k);
    }
  }

  /** Cutting one index out of a duplicate-free list leaves it duplicate-free. */
  lemma CutKeepsNoDup<T>(xs: seq<T>, k: nat)
    requires NoDup(xs) && k < |xs|
    ensures NoDup(xs[..k] + xs[k + 1..])
  {
    var r := xs[..k] + xs[k + 1..];
    forall i, j | 0 <= i < j < |r| ensures r[i] != r[j] {
      var i' := if i < k then i else i + 1;
      var j' := if j < k then j else j + 1;
      assert r[i] == xs[i'] && r[j] == xs[j'];
    }
  }

  /** In a duplicate-free list, cutting index `k` removes exactly the element stored there. */
  lemma CutDropsOnlyAt<T>(xs: seq<T>, k: nat)
    requires NoDup(xs) && k < |xs|
    ensures forall y :: y in xs[..k] + xs[k + 1..] <==> y in xs && y != xs[k]
  {
    var r := xs[..k] + xs[k + 1..];
    forall y ensures y in r <==> y in xs && y != xs[k] {
      if y in r {
        var i :| 0 <= i < |r| && r[i] == y;
        var i' := if i < k then i else i + 1;
        assert xs[i'] == y && i' != k;
      }
      if y in xs && y != xs[k] {
        var i :| 0 <= i < |xs| && xs[i] == y;
        assert i != k;
        var i' := if i < k then i else i - 1;
        assert r[i'] == y;
      }
    }
  }

  /** The index of the first occurrence of `x`. */
  function FirstIndex<T(==)>(xs: seq<T>, x: T): (k: nat)
    requires x in xs
    ensures k < |xs| && xs[k] == x && x !in xs[..k]
  {
    if xs[0] == x then 0
    else
      var k := FirstIndex(xs[1..], x);
      assert xs[..k + 1] == [xs[0]] + xs[1..][..k];
      k + 1
  }

  /** Adding an id that was absent and removing it again restores the list. */
  lemma AddThenRemove<T(!new)>(xs: seq<T>, x: T)
    requires x !in xs
    ensures RemoveFirst(AddUnique(xs, x), x) == xs
  {
    var ys := xs + [x];
    assert ys[..|xs|] == xs;
    RemoveFirstAt(ys, x, |xs|);
    assert ys[..|xs|] + ys[|xs| + 1..] == xs;
  }

  /** `add_user_asset` as written: a linear scan for `x`, appending only when the scan finds nothing. */
  method AddByScan<T(==,!new)>(xs: seq<T>, x: T) returns (r: seq<T>)
    ensures r == AddUnique(xs, x)
  {
    var i := 0;
    while i < |xs|
      invariant 0 <= i <= |xs|
      invariant x !in xs[..i]
    {
      if xs[i] == x {
        return xs;
      }
      assert xs[..i + 1] == xs[..i] + [xs[i]];
      i := i + 1;
    }
    assert xs[..i] == xs;
    r := xs + [x];
  }

  /** `remove_user_asset` as written: find the first index holding `x`, then remove that index. */
  method RemoveByScan<T(==)>(xs: seq<T>, x: T) returns (r: seq<T>)
    ensures r == RemoveFirst(xs, x)
  {
    var i := 0;
    while i < |xs| && xs[i] != x
      invariant 0 <= i <= |xs|
      invariant x !in xs[..i]
    {
      assert xs[..i + 1] == xs[..i] + [xs[i]];
      i := i + 1;
    }
    if i < |xs| {
      r := xs[..i] + xs[i + 1..];
      RemoveFirstAt(xs, x, i);
    } else {
      assert xs[..i] == xs;
      r := xs;
    }
  }

  /** `RemoveFirst` cuts the list at the first index holding `x`. */
  lemma {:induction false} RemoveFirstAt<T>(xs: seq<T>, x: T, k: nat)
    requires k < |xs| && xs[k] == x && x !in xs[..k]
    ensures RemoveFirst(xs, x) == xs[..k] + xs[k + 1..]
    decreases k
  {
    if k > 0 {
      var tail := xs[1..];
      assert xs[0] == xs[..k][0];
      assert xs[0] != x;
      assert tail[..k - 1] == xs[1..k];
      assert x !in tail[..k - 1];
      RemoveFirstAt(tail, x, k - 1);
      var a, b := tail[..k - 1], tail[k..];
      assert RemoveFirst(xs, x) == [xs[0]] + (a + b);
      assert [xs[0]] + a == xs[..k];
      assert b == xs[k + 1..];
    }
  }

  /**
   * `get_all_assets(skip, limit)`: the window `xs[skip .. min(skip+limit, |xs|)]`,
   * empty when `skip` is at or past the end.
   */
  function Paginate<T>(xs: seq<T>, skip: nat, limit: nat): (r: seq<T>)
    ensures skip >= |xs| ==> r == []
    ensures skip < |xs| ==> |r| == Min(limit, |xs| - skip)
    ensures forall k :: 0 <= k < |r| ==> skip + k < |xs| && r[k] == xs[skip + k]
  {
    if skip >= |xs| then [] else xs[skip..Min(skip + limit, |xs|)]
  }

  /** `get_all_assets`'s loop: push `xs[i]` for `i` in `start..end`, guarded by `start < len`. */
  method PaginateByLoop<T>(xs: seq<T>, skip: nat, limit: nat) returns (r: seq<T>)
    ensures r == Paginate(xs, skip, limit)
  {
    r := [];
    var end := if skip + limit > |xs| then |xs| else skip + limit;
    if skip < |xs| {
      var i := skip;
      while i < end
        invariant skip <= i <= end
        invariant r == xs[skip..i]
      {
        r := r + [xs[i]];
        i := i + 1;
      }
    }
  }

  /** Two consecutive pages read the same ids as one page covering both. */
  lemma PagesConcatenate<T>(xs: seq<T>, a: nat, b: nat)
    ensures Paginate(xs, 0, a) + Paginate(xs, a, b) == Paginate(xs, 0, a + b)
  {
    if a >= |xs| {
      assert Paginate(xs, 0, a) == xs[0..|xs|];
    } else {
      assert xs[0..a] + xs[a..Min(a + b, |xs|)] == xs[0..Min(a + b, |xs|)];
    }
  }
}
