/** The order of the dashboard and of the status feed: the `status_data` entries in the
    dictionary's order, then sorted on `is_up`. Python's sort is stable and `False` sorts
    before `True`, so the down entries come first and each group keeps its order. */
module Dashboard {
  import opened HostState

  /** `list(status_data.values())`: the entries in the dictionary's key order. */
  function Rows(status: map<string, HostStatus>, order: seq<string>): (rows: seq<HostStatus>)
    ensures |rows| <= |order|
    ensures forall r :: r in rows ==> r in status.Values
    decreases |order|
  {
    if order == [] then []
    else
      var n := |order| - 1;
      Rows(status, order[..n]) + (if order[n] in status then [status[order[n]]] else [])
  }

  /** When every key in the order has an entry, the rows are exactly those entries, one per
      key, in the order's order; with the monitor's invariant this lists every host once. */
  lemma {:induction false} RowsFollowOrder(status: map<string, HostStatus>, order: seq<string>)
    requires forall ip :: ip in order ==> ip in status
    ensures |Rows(status, order)| == |order|
    ensures forall i :: 0 <= i < |order| ==> Rows(status, order)[i] == status[order[i]]
    decreases |order|
  {
    if order != [] {
      var n := |order| - 1;
      assert forall ip :: ip in order[..n] ==> ip in order;
      assert order[n] in order;
      RowsFollowOrder(status, order[..n]);
      var prefix := Rows(status, order[..n]);
      assert Rows(status, order) == prefix + [status[order[n]]];
      forall i | 0 <= i < n ensures Rows(status, order)[i] == status[order[i]] {
        assert prefix[i] == status[order[..n][i]];
      }
    }
  }

  /** Every host the monitor knows gets a row. */
  lemma RowsShowEveryHost(t: Tables)
    requires Consistent(t)
    ensures forall ip :: ip in t.status ==> t.status[ip] in Rows(t.status, t.order)
  {
    RowsFollowOrder(t.status, t.order);
    forall ip | ip in t.status ensures t.status[ip] in Rows(t.status, t.order) {
      var i :| 0 <= i < |t.order| && t.order[i] == ip;
      assert Rows(t.status, t.order)[i] == t.status[ip];
    }
  }

  /** The rows whose host is down, in their original order. */
  function Downs(rows: seq<HostStatus>): (r: seq<HostStatus>)
    decreases |rows|
  {
    if rows == [] then []
    else
      var n := |rows| - 1;
      Downs(rows[..n]) + (if rows[n].isUp then [] else [rows[n]])
  }

  /** The rows whose host is up, in their original order. */
  function Ups(rows: seq<HostStatus>): (r: seq<HostStatus>)
    decreases |rows|
  {
    if rows == [] then []
    else
      var n := |rows| - 1;
      Ups(rows[..n]) + (if rows[n].isUp then [rows[n]] else [])
  }

  /** The result of the stable sort on `is_up`. */
  function DownFirst(rows: seq<HostStatus>): (r: seq<HostStatus>)
    ensures |r| == |rows|
  {
    DownsAllDown(rows);
    Downs(rows) + Ups(rows)
  }

  /** No up row comes before a down row. */
  ghost predicate DownBeforeUp(rows: seq<HostStatus>) {
    forall i, j :: 0 <= i < j < |rows| && rows[i].isUp ==> rows[j].isUp
  }

  lemma {:induction false} DownsAllDown(rows: seq<HostStatus>)
    ensures forall r :: r in Downs(rows) ==> !r.isUp
    ensures forall r :: r in Ups(rows) ==> r.isUp
    ensures |Downs(rows)| + |Ups(rows)| == |rows|
    decreases |rows|
  {
    if rows != [] {
      DownsAllDown(rows[..|rows| - 1]);
    }
  }

  /** Sorting puts every down row before every up row. */
  lemma DownFirstOrdered(rows: seq<HostStatus>)
    ensures DownBeforeUp(DownFirst(rows))
  {
    DownsAllDown(rows);
    var d := Downs(rows);
    var s := DownFirst(rows);
    forall i, j | 0 <= i < j < |s| && s[i].isUp ensures s[j].isUp {
      assert s[j] == Ups(rows)[j - |d|];
    }
  }

  /** Sorting neither loses nor duplicates a row. */
  lemma {:induction false} DownFirstPermutes(rows: seq<HostStatus>)
    ensures multiset(DownFirst(rows)) == multiset(rows)
    decreases |rows|
  {
    if rows != [] {
      var n := |rows| - 1;
      DownFirstPermutes(rows[..n]);
      assert rows == rows[..n] + [rows[n]];
    }
  }

  /** Sorting is stable: the down rows and the up rows each keep their original order. */
  lemma {:induction false} DownFirstStable(rows: seq<HostStatus>)
    ensures Downs(DownFirst(rows)) == Downs(rows)
    ensures Ups(DownFirst(rows)) == Ups(rows)
  {
    DownsAllDown(rows);
    DownsOfDown(Downs(rows));
    DownsOfUp(Ups(rows));
    SplitConcat(Downs(rows), Ups(rows));
  }

  lemma {:induction false} DownsOfDown(rows: seq<HostStatus>)
    requires forall r :: r in rows ==> !r.isUp
    ensures Downs(rows) == rows && Ups(rows) == []
    decreases |rows|
  {
    if rows != [] {
      var n := |rows| - 1;
      DownsOfDown(rows[..n]);
      assert rows[n] in rows;
      assert rows == rows[..n] + [rows[n]];
    }
  }

  lemma {:induction false} DownsOfUp(rows: seq<HostStatus>)
    requires forall r :: r in rows ==> r.isUp
    ensures Ups(rows) == rows && Downs(rows) == []
    decreases |rows|
  {
    if rows != [] {
      var n := |rows| - 1;
      DownsOfUp(rows[..n]);
      assert rows[n] in rows;
      assert rows == rows[..n] + [rows[n]];
    }
  }

  lemma {:induction false} SplitConcat(a: seq<HostStatus>, b: seq<HostStatus>)
    ensures Downs(a + b) == Downs(a) + Downs(b)
    ensures Ups(a + b) == Ups(a) + Ups(b)
    decreases |b|
  {
    if b == [] {
      assert a + b == a;
    } else {
      var n := |b| - 1;
      assert (a + b)[..|a + b| - 1] == a + b[..n];
      SplitConcat(a, b[..n]);
    }
  }

  /** The stable sort's result is the only arrangement with both properties: any sequence
      with every down row before every up row, and the same down rows and the same up rows
      in the same orders, is `DownFirst(rows)`. */
  lemma {:induction false} DownFirstUnique(rows: seq<HostStatus>, r: seq<HostStatus>)
    requires DownBeforeUp(r)
    requires Downs(r) == Downs(rows) && Ups(r) == Ups(rows)
    ensures r == DownFirst(rows)
  {
    SortedSplits(r);
  }

  lemma {:induction false} SortedSplits(r: seq<HostStatus>)
    requires DownBeforeUp(r)
    ensures r == Downs(r) + Ups(r)
    decreases |r|
  {
    if r != [] {
      var n := |r| - 1;
      var p := r[..n];
      assert DownBeforeUp(p);
      SortedSplits(p);
      if !r[n].isUp {
        assert forall i :: 0 <= i < n ==> !r[i].isUp;
        DownsOfDown(p);
        assert Downs(r) == p + [r[n]];
      }
    }
  }

  /** Appending one row to a sorted prefix: an up row goes at the end, a down row goes
      between the down rows and the up rows. */
  lemma DownFirstSnoc(p: seq<HostStatus>, x: HostStatus)
    ensures DownFirst(p + [x]) ==
              if x.isUp then DownFirst(p) + [x] else Downs(p) + [x] + Ups(p)
  {
    assert (p + [x])[..|p|] == p;
  }

  /** Moves `a[i]` back to index `d`, shifting `a[d..i]` one place right. */
  method MoveBack(a: array<HostStatus>, d: nat, i: nat)
    requires d <= i < a.Length
    modifies a
    ensures a[..] == old(a[..d]) + [old(a[i])] + old(a[d..i]) + old(a[i + 1..])
  {
    ghost var s := a[..];
    var x := a[i];
    var j := i;
    while j > d
      invariant d <= j <= i
      invariant forall k :: 0 <= k < a.Length && (k < j || i < k) ==> a[k] == s[k]
      invariant forall k :: j < k <= i ==> a[k] == s[k - 1]
    {
      a[j] := a[j - 1];
      j := j - 1;
    }
    a[d] := x;
    MovedBack(s, a[..], d, i);
  }

  /** `b` is `s` with element `i` moved back to index `d`, described element by element. */
  lemma MovedBack(s: seq<HostStatus>, b: seq<HostStatus>, d: nat, i: nat)
    requires d <= i < |s| == |b|
    requires forall k :: 0 <= k < d ==> b[k] == s[k]
    requires b[d] == s[i]
    requires forall k :: d < k <= i ==> b[k] == s[k - 1]
    requires forall k :: i < k < |s| ==> b[k] == s[k]
    ensures b == s[..d] + [s[i]] + s[d..i] + s[i + 1..]
  {
    var r := s[..d] + [s[i]] + s[d..i] + s[i + 1..];
    forall k | 0 <= k < |b| ensures b[k] == r[k] {
      if d < k <= i {
        assert r[k] == s[d..i][k - d - 1];
      } else if i < k {
        assert r[k] == s[i + 1..][k - i - 1];
      }
    }
  }

  lemma DownsStep(p: seq<HostStatus>, x: HostStatus)
    ensures |Downs(p + [x])| == |Downs(p)| + (if x.isUp then 0 else 1)
  {
    assert (p + [x])[..|p|] == p;
  }

  /** One step of the sort on whole-array contents: before it, `before` holds the sorted
      prefix `DownFirst(p)` and then `x` and `rest`; after it, the first `|p| + 1` elements
      are `DownFirst(p + [x])` and `rest` is untouched. */
  lemma SortStep(p: seq<HostStatus>, x: HostStatus, rest: seq<HostStatus>, before: seq<HostStatus>, after: seq<HostStatus>, d: nat)
    requires d == |Downs(p)| <= |p|
    requires |before| == |p| + 1 + |rest|
    requires before == DownFirst(p) + [x] + rest
    requires after == if x.isUp then before
                      else before[..d] + [before[|p|]] + before[d..|p|] + before[|p| + 1..]
    ensures after[..|p| + 1] == DownFirst(p + [x])
    ensures after[|p| + 1..] == rest
  {
    DownsAllDown(p);
    DownFirstSnoc(p, x);
    var sorted := DownFirst(p);
    assert before[..|p|] == sorted && before[|p|] == x && before[|p| + 1..] == rest;
    if !x.isUp {
      assert sorted[..d] == Downs(p) && sorted[d..] == Ups(p);
      assert before[..d] == sorted[..d] && before[d..|p|] == sorted[d..];
      assert after == Downs(p) + [x] + Ups(p) + rest;
    }
  }

  /** The loop invariant of `SortDownFirst` carried over one element. */
  lemma SortLoopStep(s: seq<HostStatus>, i: nat, d: nat, before: seq<HostStatus>, after: seq<HostStatus>)
    requires i < |s|
    requires d == |Downs(s[..i])| <= i
    requires |before| == |s|
    requires before == DownFirst(s[..i]) + s[i..]
    requires after == if s[i].isUp then before
                      else before[..d] + [before[i]] + before[d..i] + before[i + 1..]
    ensures after == DownFirst(s[..i + 1]) + s[i + 1..]
    ensures |Downs(s[..i + 1])| == d + (if s[i].isUp then 0 else 1)
  {
    var x := s[i];
    DownsAllDown(s[..i]);
    assert s[i..] == [x] + s[i + 1..];
    SortStep(s[..i], x, s[i + 1..], before, after, d);
    assert s[..i + 1] == s[..i] + [x];
    DownsStep(s[..i], x);
    assert after == after[..i + 1] + after[i + 1..];
  }

  /** `rows.sort(key=lambda x: x["is_up"])`, in place: each down row is moved back to just
      after the down rows already placed, the up rows between shifting one place right. */
  method SortDownFirst(a: array<HostStatus>)
    modifies a
    ensures a[..] == DownFirst(old(a[..]))
  {
    ghost var s := a[..];
    var d := 0;
    for i := 0 to a.Length
      invariant d == |Downs(s[..i])|
      invariant a[..] == DownFirst(s[..i]) + s[i..]
    {
      ghost var before := a[..];
      DownsAllDown(s[..i]);
      var x := a[i];
      assert x == s[i];
      if !x.isUp {
        MoveBack(a, d, i);
      }
      SortLoopStep(s, i, d, before, a[..]);
      if !x.isUp {
        d := d + 1;
      }
    }
    assert s[..a.Length] == s;
  }
}
