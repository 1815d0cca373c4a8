/**
 Frequency tables as the calculator builds them: a Ruby `Hash.new(0)` (or
 `group_by ... transform_values(&:size)`) filled in input order, then ordered
 with `sort_by`. The sort here is a stable insertion sort; only the ordering
 and the contents are proved, never the placement of equal keys, because
 Ruby's `sort_by` does not promise one.
 */
module Tables {
  import opened Text

  /** One row of a frequency table: a key and how often it occurred. */
  datatype Bucket<K> = Bucket(key: K, count: nat)

  function SumCounts<K>(bs: seq<Bucket<K>>): nat {
    if bs == [] then 0 else bs[0].count + SumCounts(bs[1..])
  }

  ghost predicate NoDupKeys<K>(bs: seq<Bucket<K>>) {
    forall i, j :: 0 <= i < j < |bs| ==> bs[i].key != bs[j].key
  }

  /** `bs` is the frequency table of `ks`: one row per distinct key, holding its number of occurrences. */
  ghost predicate Tallies<K>(bs: seq<Bucket<K>>, ks: seq<K>) {
    && NoDupKeys(bs)
    && (forall b :: b in bs ==> b.key in ks && b.count == multiset(ks)[b.key])
    && (forall k :: k in ks ==> Bucket(k, multiset(ks)[k]) in bs)
    && SumCounts(bs) == |ks|
  }

  /** The count stored for `k` (`Hash.new(0)[k]`): 0 when `k` has no row. */
  function CountOf<K(==)>(bs: seq<Bucket<K>>, k: K): (n: nat)
    ensures (forall b :: b in bs ==> b.key != k) ==> n == 0
    ensures NoDupKeys(bs) ==> forall b :: b in bs && b.key == k ==> n == b.count
  {
    if bs == [] then 0
    else if bs[0].key == k then bs[0].count
    else
      assert NoDupKeys(bs) ==> NoDupKeys(bs[1..]);
      CountOf(bs[1..], k)
  }

  /** `counts[k] += 1`: raises the row of `k`, or appends a row for a key not seen before. */
  function Bump<K(==)>(bs: seq<Bucket<K>>, k: K): seq<Bucket<K>>
  {
    if bs == [] then [Bucket(k, 1)]
    else if bs[0].key == k then [Bucket(k, bs[0].count + 1)] + bs[1..]
    else [bs[0]] + Bump(bs[1..], k)
  }

  /** Bumping adds one to the table's total. */
  lemma {:induction false} BumpSum<K>(bs: seq<Bucket<K>>, k: K)
    ensures SumCounts(Bump(bs, k)) == SumCounts(bs) + 1
    decreases |bs|
  {
    if bs != [] && bs[0].key != k {
      BumpSum(bs[1..], k);
    } else if bs != [] {
      assert Bump(bs, k)[1..] == bs[1..];
    }
  }

  /** Bumping keeps every row of another key and nothing else but the row of `k`. */
  lemma {:induction false} BumpRows<K>(bs: seq<Bucket<K>>, k: K)
    requires NoDupKeys(bs)
    ensures forall b :: b in Bump(bs, k) ==> (b in bs && b.key != k) || b == Bucket(k, CountOf(bs, k) + 1)
    ensures forall b :: b in bs && b.key != k ==> b in Bump(bs, k)
    ensures Bucket(k, CountOf(bs, k) + 1) in Bump(bs, k)
    decreases |bs|
  {
    var r := Bump(bs, k);
    if bs == [] {
    } else if bs[0].key == k {
      assert r[1..] == bs[1..];
      forall b | b in bs && b.key != k ensures b in r {
        assert b in bs[1..];
      }
      forall b | b in r ensures (b in bs && b.key != k) || b == Bucket(k, CountOf(bs, k) + 1) {
        if b != r[0] {
          var j :| 0 <= j < |bs[1..]| && bs[1..][j] == b;
          assert bs[j + 1] == b;
        }
      }
    } else {
      assert NoDupKeys(bs[1..]);
      BumpRows(bs[1..], k);
      forall b | b in bs && b.key != k ensures b in r {
        if b != bs[0] {
          assert b in bs[1..];
        }
      }
    }
  }

  /** Bumping keeps the keys distinct. */
  lemma {:induction false} BumpNoDupKeys<K>(bs: seq<Bucket<K>>, k: K)
    requires NoDupKeys(bs)
    ensures NoDupKeys(Bump(bs, k))
    decreases |bs|
  {
    if bs != [] && bs[0].key != k {
      var tail := Bump(bs[1..], k);
      assert NoDupKeys(bs[1..]);
      BumpNoDupKeys(bs[1..], k);
      BumpRows(bs[1..], k);
      forall j | 0 <= j < |tail| ensures tail[j].key != bs[0].key {
        assert tail[j] in tail;
      }
      assert Bump(bs, k)[1..] == tail;
    } else if bs != [] {
      assert Bump(bs, k)[1..] == bs[1..];
    }
  }

  lemma BumpTallies<K>(bs: seq<Bucket<K>>, ks: seq<K>, k: K)
    requires Tallies(bs, ks)
    ensures Tallies(Bump(bs, k), ks + [k])
  {
    var ks' := ks + [k];
    var r := Bump(bs, k);
    BumpSum(bs, k);
    BumpRows(bs, k);
    BumpNoDupKeys(bs, k);
    assert CountOf(bs, k) == multiset(ks)[k] by {
      if k in ks {
        assert Bucket(k, multiset(ks)[k]) in bs;
      }
    }
    forall b | b in r ensures b.key in ks' && b.count == multiset(ks')[b.key] {
      if b.key != k {
        assert b in bs;
      }
    }
    forall x | x in ks' ensures Bucket(x, multiset(ks')[x]) in r {
      if x != k {
        assert x in ks;
        assert Bucket(x, multiset(ks)[x]) in bs;
      }
    }
  }

  /** Counting the keys of `ks` in order of first appearance. */
  function Tally<K(==)>(ks: seq<K>): (r: seq<Bucket<K>>)
    ensures Tallies(r, ks)
  {
    if ks == [] then []
    else
      var init := ks[..|ks| - 1];
      var t := Tally(init);
      assert ks == init + [ks[|ks| - 1]];
      BumpTallies(t, init, ks[|ks| - 1]);
      Bump(t, ks[|ks| - 1])
  }

  /** `le` is a total preorder: what a `sort_by` key comparison provides. */
  ghost predicate TotalPreorder<T(!new)>(le: (T, T) -> bool) {
    && (forall a, b :: le(a, b) || le(b, a))
    && (forall a, b, c :: le(a, b) && le(b, c) ==> le(a, c))
  }

  ghost predicate Sorted<T>(s: seq<T>, le: (T, T) -> bool) {
    forall i, j :: 0 <= i < j < |s| ==> le(s[i], s[j])
  }

  /** Puts `x` before the first element it is `le` to. */
  function Insert<T>(x: T, s: seq<T>, le: (T, T) -> bool): (r: seq<T>)
    ensures multiset(r) == multiset(s) + multiset{x}
  {
    if s == [] then [x]
    else if le(x, s[0]) then [x] + s
    else
      assert s == [s[0]] + s[1..];
      [s[0]] + Insert(x, s[1..], le)
  }

  /** `sort_by` with the key order `le`, by insertion. */
  function SortWith<T>(s: seq<T>, le: (T, T) -> bool): (r: seq<T>)
    ensures multiset(r) == multiset(s)
  {
    if s == [] then []
    else
      assert s == [s[0]] + s[1..];
      Insert(s[0], SortWith(s[1..], le), le)
  }

  lemma {:induction false} InsertSorted<T(!new)>(x: T, s: seq<T>, le: (T, T) -> bool)
    requires TotalPreorder(le) && Sorted(s, le)
    ensures Sorted(Insert(x, s, le), le)
    decreases |s|
  {
    if s != [] && !le(x, s[0]) {
      var r := Insert(x, s[1..], le);
      InsertSorted(x, s[1..], le);
      assert forall j :: 0 <= j < |r| ==> le(s[0], r[j]) by {
        forall j | 0 <= j < |r| ensures le(s[0], r[j]) {
          assert r[j] in multiset(r);
          if r[j] != x {
            assert r[j] in s[1..];
          }
        }
      }
    }
  }

  /** The sorted sequence is ordered by `le`. */
  lemma {:induction false} SortWithSorted<T(!new)>(s: seq<T>, le: (T, T) -> bool)
    requires TotalPreorder(le)
    ensures Sorted(SortWith(s, le), le)
    decreases |s|
  {
    if s != [] {
      SortWithSorted(s[1..], le);
      InsertSorted(s[0], SortWith(s[1..], le), le);
    }
  }

  lemma {:induction false} InsertSum<K>(x: Bucket<K>, s: seq<Bucket<K>>, le: (Bucket<K>, Bucket<K>) -> bool)
    ensures SumCounts(Insert(x, s, le)) == x.count + SumCounts(s)
    decreases |s|
  {
    if s != [] && !le(x, s[0]) {
      InsertSum(x, s[1..], le);
    }
  }

  lemma {:induction false} SortWithSum<K>(bs: seq<Bucket<K>>, le: (Bucket<K>, Bucket<K>) -> bool)
    ensures SumCounts(SortWith(bs, le)) == SumCounts(bs)
    decreases |bs|
  {
    if bs != [] {
      SortWithSum(bs[1..], le);
      InsertSum(bs[0], SortWith(bs[1..], le), le);
    }
  }

  lemma {:induction false} InsertNoDupKeys<K>(x: Bucket<K>, s: seq<Bucket<K>>, le: (Bucket<K>, Bucket<K>) -> bool)
    requires NoDupKeys(s)
    requires forall b :: b in s ==> b.key != x.key
    ensures NoDupKeys(Insert(x, s, le))
    decreases |s|
  {
    if s != [] && !le(x, s[0]) {
      var r := Insert(x, s[1..], le);
      InsertNoDupKeys(x, s[1..], le);
      forall j | 0 <= j < |r| ensures r[j].key != s[0].key {
        assert r[j] in multiset(r);
        if r[j] != x {
          assert r[j] in s[1..];
        }
      }
      assert ([s[0]] + r)[1..] == r;
    } else if s != [] {
      assert ([x] + s)[1..] == s;
    }
  }

  lemma {:induction false} SortWithNoDupKeys<K>(bs: seq<Bucket<K>>, le: (Bucket<K>, Bucket<K>) -> bool)
    requires NoDupKeys(bs)
    ensures NoDupKeys(SortWith(bs, le))
    decreases |bs|
  {
    if bs != [] {
      var tail := SortWith(bs[1..], le);
      SortWithNoDupKeys(bs[1..], le);
      forall b | b in tail ensures b.key != bs[0].key {
        assert b in multiset(tail);
      }
      InsertNoDupKeys(bs[0], tail, le);
    }
  }

  /** Counting then sorting still gives the frequency table, now ordered by `le`. */
  lemma RankedTally<K(!new)>(ks: seq<K>, le: (Bucket<K>, Bucket<K>) -> bool)
    requires TotalPreorder(le)
    ensures Tallies(SortWith(Tally(ks), le), ks)
    ensures Sorted(SortWith(Tally(ks), le), le)
  {
    var t := Tally(ks);
    var r := SortWith(t, le);
    SortWithSorted(t, le);
    SortWithSum(t, le);
    SortWithNoDupKeys(t, le);
    forall b ensures b in r <==> b in t {
      assert b in r <==> b in multiset(r);
    }
  }

  /** The first element of a sorted sequence is `le` every element, the last is `le`-above every element. */
  lemma SortedEnds<T(!new)>(s: seq<T>, le: (T, T) -> bool)
    requires TotalPreorder(le) && s != []
    ensures var r := SortWith(s, le);
      |r| == |s| && r[0] in s && r[|r| - 1] in s
      && (forall x :: x in s ==> le(r[0], x) && le(x, r[|r| - 1]))
  {
    var r := SortWith(s, le);
    SortWithSorted(s, le);
    assert |r| == |multiset(r)| == |multiset(s)| == |s|;
    assert r[0] in multiset(r) && r[|r| - 1] in multiset(r);
    forall x | x in s ensures le(r[0], x) && le(x, r[|r| - 1]) {
      assert x in multiset(r);
      var j :| 0 <= j < |r| && r[j] == x;
      assert le(x, x) || le(x, x);
      if j > 0 {
        assert le(r[0], r[j]);
      }
      if j < |r| - 1 {
        assert le(r[j], r[|r| - 1]);
      }
    }
  }

  /** Looking a key up in the frequency table gives its number of occurrences. */
  lemma CountOfTally<K>(ks: seq<K>, k: K)
    ensures CountOf(Tally(ks), k) == multiset(ks)[k]
  {
    var t := Tally(ks);
    if k in ks {
      assert Bucket(k, multiset(ks)[k]) in t;
    }
  }

  lemma {:induction false} SumCountsAppend<K>(a: seq<Bucket<K>>, b: seq<Bucket<K>>)
    ensures SumCounts(a + b) == SumCounts(a) + SumCounts(b)
    decreases |a|
  {
    if a == [] {
      assert a + b == b;
    } else {
      assert (a + b)[1..] == a[1..] + b;
      SumCountsAppend(a[1..], b);
    }
  }

  lemma {:induction false} SumCountsReverse<K>(bs: seq<Bucket<K>>)
    ensures SumCounts(Reverse(bs)) == SumCounts(bs)
    decreases |bs|
  {
    if bs != [] {
      SumCountsReverse(bs[1..]);
      SumCountsAppend(Reverse(bs[1..]), [bs[0]]);
    }
  }

  /** Reversing a frequency table keeps it one. */
  lemma TalliesReverse<K>(bs: seq<Bucket<K>>, ks: seq<K>)
    requires Tallies(bs, ks)
    ensures Tallies(Reverse(bs), ks)
  {
    var r := Reverse(bs);
    SumCountsReverse(bs);
    forall b ensures b in r <==> b in bs {
      if b in r {
        var j :| 0 <= j < |r| && r[j] == b;
        assert bs[|bs| - 1 - j] == b;
      }
      if b in bs {
        var j :| 0 <= j < |bs| && bs[j] == b;
        assert r[|bs| - 1 - j] == b;
      }
    }
    forall i, j | 0 <= i < j < |r| ensures r[i].key != r[j].key {
      assert r[i] == bs[|bs| - 1 - i] && r[j] == bs[|bs| - 1 - j];
    }
  }

  /** The sum of the counts `m` gives the keys `ds`. */
  function SumOver<K>(ds: seq<K>, m: multiset<K>): nat {
    if ds == [] then 0 else m[ds[0]] + SumOver(ds[1..], m)
  }

  lemma {:induction false} SumOverAdd<K>(ds: seq<K>, m: multiset<K>, k: K)
    requires forall i, j :: 0 <= i < j < |ds| ==> ds[i] != ds[j]
    ensures SumOver(ds, m + multiset{k}) == SumOver(ds, m) + (if k in ds then 1 else 0)
    decreases |ds|
  {
    if ds != [] {
      SumOverAdd(ds[1..], m, k);
      if k == ds[0] {
        assert k !in ds[1..] by {
          forall j | 0 <= j < |ds[1..]| ensures ds[1..][j] != k {
            assert ds[1..][j] == ds[j + 1];
          }
        }
      } else {
        assert k in ds ==> k in ds[1..];
      }
    }
  }

  /** When every key lies among the distinct keys `ds`, the counts over `ds` add up to the number of keys. */
  lemma {:induction false} SumOverCovers<K>(ds: seq<K>, ks: seq<K>)
    requires forall i, j :: 0 <= i < j < |ds| ==> ds[i] != ds[j]
    requires forall k :: k in ks ==> k in ds
    ensures SumOver(ds, multiset(ks)) == |ks|
    decreases |ks|
  {
    if ks == [] {
      if ds != [] {
        SumOverEmpty(ds);
      }
    } else {
      var init := ks[..|ks| - 1];
      assert ks == init + [ks[|ks| - 1]];
      assert multiset(ks) == multiset(init) + multiset{ks[|ks| - 1]};
      SumOverCovers(ds, init);
      SumOverAdd(ds, multiset(init), ks[|ks| - 1]);
    }
  }

  lemma {:induction false} SumOverEmpty<K>(ds: seq<K>)
    ensures SumOver(ds, multiset{}) == 0
    decreases |ds|
  {
    if ds != [] {
      SumOverEmpty(ds[1..]);
    }
  }
}
