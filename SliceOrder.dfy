/**
 * Ordering the slices of one upload batch into a stack: a stable sort on
 * (z position, instance number), each defaulting to 0 when absent, that gives
 * up and keeps the batch order when any slice has a value that does not
 * convert to a number.
 */
module SliceOrder {
  import opened Dataset

  /** The composite sort key; tuples compare lexicographically. */
  datatype SortKey = SortKey(z: real, n: int)

  predicate KeyLess(a: SortKey, b: SortKey)
  {
    a.z < b.z || (a.z == b.z && a.n < b.n)
  }

  /** `a` may come before `b` in a sorted stack. */
  predicate KeyLe(a: SortKey, b: SortKey)
  {
    !KeyLess(b, a)
  }

  /** Every key of the slice converts to a number. */
  predicate KeyConverts(s: Slice)
  {
    !s.zPos.Malformed? && !s.instanceNumber.Malformed?
  }

  predicate AllKeysConvert(slices: seq<Slice>)
  {
    forall i :: 0 <= i < |slices| ==> KeyConverts(slices[i])
  }

  /** The key of a slice whose values convert; absent values read as 0. */
  function Key(s: Slice): SortKey
  {
    SortKey(
      if s.zPos.Present? then s.zPos.value else 0.0,
      if s.instanceNumber.Present? then s.instanceNumber.value else 0)
  }

  ghost predicate Sorted(slices: seq<Slice>)
  {
    forall i, j :: 0 <= i < j < |slices| ==> KeyLe(Key(slices[i]), Key(slices[j]))
  }

  /** The slices of `slices` whose key is `k`, in their order. Stability means
      that sorting leaves every such subsequence as it was. */
  function WithKey(slices: seq<Slice>, k: SortKey): seq<Slice>
  {
    if slices == [] then []
    else (if Key(slices[0]) == k then [slices[0]] else []) + WithKey(slices[1..], k)
  }

  /** Inserts `x` into a sorted stack in front of the first slice it does not
      sort after, so it stays ahead of slices with an equal key. */
  function Insert(x: Slice, ys: seq<Slice>): (r: seq<Slice>)
    ensures multiset(r) == multiset(ys) + multiset{x}
    ensures |r| == |ys| + 1
    ensures forall k :: WithKey(r, k) == (if Key(x) == k then [x] else []) + WithKey(ys, k)
  {
    if ys == [] || KeyLe(Key(x), Key(ys[0])) then
      WithKeyCons(x, ys);
      [x] + ys
    else
      var rest := Insert(x, ys[1..]);
      assert ys == [ys[0]] + ys[1..];
      WithKeyCons(ys[0], rest);
      [ys[0]] + rest
  }

  /** Inserting into a sorted stack gives a sorted stack. */
  lemma {:induction false} InsertKeepsSorted(x: Slice, ys: seq<Slice>)
    requires Sorted(ys)
    ensures Sorted(Insert(x, ys))
  {
    if ys == [] || KeyLe(Key(x), Key(ys[0])) {
      SortedCons(x, ys);
    } else {
      var rest := Insert(x, ys[1..]);
      InsertKeepsSorted(x, ys[1..]);
      HeadBoundsInsert(x, ys, rest);
      SortedCons(ys[0], rest);
    }
  }

  lemma WithKeyCons(x: Slice, ys: seq<Slice>)
    ensures forall k :: WithKey([x] + ys, k) == (if Key(x) == k then [x] else []) + WithKey(ys, k)
  {
    assert ([x] + ys)[1..] == ys;
  }

  /** Prepending a slice that sorts before every slice of a sorted stack keeps it sorted. */
  lemma SortedCons(x: Slice, ys: seq<Slice>)
    requires Sorted(ys)
    requires forall j :: 0 <= j < |ys| ==> KeyLe(Key(x), Key(ys[j]))
    ensures Sorted([x] + ys)
  {
  }

  /** When `x` sorts after the head of a sorted stack, that head sorts before
      every slice of the stack with `x` inserted into its tail. */
  lemma HeadBoundsInsert(x: Slice, ys: seq<Slice>, rest: seq<Slice>)
    requires ys != [] && Sorted(ys) && !KeyLe(Key(x), Key(ys[0]))
    requires multiset(rest) == multiset(ys[1..]) + multiset{x}
    ensures forall j :: 0 <= j < |rest| ==> KeyLe(Key(ys[0]), Key(rest[j]))
  {
    forall j | 0 <= j < |rest|
      ensures KeyLe(Key(ys[0]), Key(rest[j]))
    {
      assert rest[j] in multiset(rest);
      if rest[j] != x {
        assert rest[j] in multiset(ys[1..]);
        var m :| 0 <= m < |ys[1..]| && ys[1..][m] == rest[j];
        assert ys[m + 1] == rest[j];
      }
    }
  }

  /** Stable insertion sort: a permutation of the input, sorted by key, that
      keeps slices with equal keys in input order. */
  function StableSort(slices: seq<Slice>): (r: seq<Slice>)
    ensures multiset(r) == multiset(slices)
    ensures |r| == |slices|
    ensures Sorted(r)
    ensures forall k :: WithKey(r, k) == WithKey(slices, k)
  {
    if slices == [] then []
    else
      var rest := StableSort(slices[1..]);
      assert slices == [slices[0]] + slices[1..];
      InsertKeepsSorted(slices[0], rest);
      Insert(slices[0], rest)
  }

  /** The batch order of the volume: sorted stably when every key converts,
      the batch order itself otherwise. */
  function SortSlices(slices: seq<Slice>): (r: seq<Slice>)
    ensures multiset(r) == multiset(slices) && |r| == |slices|
    ensures AllKeysConvert(slices) ==> Sorted(r)
    ensures forall k :: WithKey(r, k) == WithKey(slices, k)
    ensures !AllKeysConvert(slices) ==> r == slices
  {
    if AllKeysConvert(slices) then StableSort(slices) else slices
  }
  /** A key occurs in a stack exactly when its subsequence is non-empty. */
  lemma {:induction false} WithKeyNonEmpty(slices: seq<Slice>, k: SortKey)
    ensures WithKey(slices, k) != [] <==> exists i :: 0 <= i < |slices| && Key(slices[i]) == k
  {
    if slices != [] {
      WithKeyNonEmpty(slices[1..], k);
      if WithKey(slices[1..], k) != [] {
        var i :| 0 <= i < |slices[1..]| && Key(slices[1..][i]) == k;
        assert Key(slices[i + 1]) == k;
      }
      if exists i :: 0 <= i < |slices| && Key(slices[i]) == k {
        var i :| 0 <= i < |slices| && Key(slices[i]) == k;
        if i > 0 {
          assert Key(slices[1..][i - 1]) == k;
        }
      }
    }
  }

  /** A sorted stack is determined by its per-key subsequences: there is only
      one stable sort of a batch, so a sorted result that keeps every per-key
      order is that sort. */
  lemma {:induction false} StableSortUnique(a: seq<Slice>, b: seq<Slice>)
    requires Sorted(a) && Sorted(b)
    requires forall k :: WithKey(a, k) == WithKey(b, k)
    ensures a == b
  {
    if a == [] {
      if b != [] {
        WithKeyNonEmpty(b, Key(b[0]));
      }
    } else if b == [] {
      WithKeyNonEmpty(a, Key(a[0]));
    } else {
      var ka, kb := Key(a[0]), Key(b[0]);
      WithKeyNonEmpty(a, kb);
      WithKeyNonEmpty(b, ka);
      WithKeyNonEmpty(a, ka);
      WithKeyNonEmpty(b, kb);
      var i :| 0 <= i < |b| && Key(b[i]) == ka;
      var j :| 0 <= j < |a| && Key(a[j]) == kb;
      assert KeyLe(kb, Key(b[i]));
      assert KeyLe(ka, Key(a[j]));
      assert ka == kb;
      assert a[0] == b[0] by {
        assert WithKey(a, ka) == [a[0]] + WithKey(a[1..], ka);
        assert WithKey(b, ka) == [b[0]] + WithKey(b[1..], ka);
        assert WithKey(a, ka)[0] == a[0] && WithKey(b, ka)[0] == b[0];
      }
      forall k
        ensures WithKey(a[1..], k) == WithKey(b[1..], k)
      {
        assert WithKey(a, k) == (if Key(a[0]) == k then [a[0]] else []) + WithKey(a[1..], k);
        assert WithKey(b, k) == (if Key(b[0]) == k then [b[0]] else []) + WithKey(b[1..], k);
        assert WithKey(a, k) == WithKey(b, k);
        if Key(a[0]) == k {
          assert WithKey(a[1..], k) == WithKey(a, k)[1..];
          assert WithKey(b[1..], k) == WithKey(b, k)[1..];
        } else {
          assert WithKey(a[1..], k) == WithKey(a, k);
          assert WithKey(b[1..], k) == WithKey(b, k);
        }
      }
      StableSortUnique(a[1..], b[1..]);
      assert a == [a[0]] + a[1..] && b == [b[0]] + b[1..];
    }
  }

  /** When every key converts, the stack is the unique stable sort of the
      batch: any stack that is sorted and keeps the batch order among equal
      keys equals the one `SortSlices` gives. */
  lemma SortSlicesIsTheStableSort(batch: seq<Slice>, stack: seq<Slice>)
    requires AllKeysConvert(batch)
    requires Sorted(stack) && forall k :: WithKey(stack, k) == WithKey(batch, k)
    ensures SortSlices(batch) == stack
  {
    StableSortUnique(SortSlices(batch), stack);
  }
}
