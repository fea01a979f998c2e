/** The waiting queue: a FIFO sequence of user names, and removal of one name from it. */
module Queues {

  /** No element occurs twice. */
  predicate NoDuplicates<T(==,!new)>(q: seq<T>)
  {
    forall i, j :: 0 <= i < j < |q| ==> q[i] != q[j]
  }

  /** `q.filter(y => y !== x)`: drops every occurrence of `x` and keeps the rest. */
  function RemoveAll<T(==,!new)>(q: seq<T>, x: T): (r: seq<T>)
    ensures forall y :: y in r <==> y in q && y != x
    ensures multiset(r) == multiset(q)[x := 0]
    ensures x in q ==> |r| < |q|
    ensures x !in q ==> |r| == |q|
  {
    if |q| == 0 then []
    else
      assert q == [q[0]] + q[1..];
      if q[0] == x then RemoveAll(q[1..], x)
      else [q[0]] + RemoveAll(q[1..], x)
  }

  /** Removal distributes over concatenation, so the survivors keep their relative order. */
  lemma {:induction false} RemoveAllConcat<T(!new)>(a: seq<T>, b: seq<T>, x: T)
    ensures RemoveAll(a + b, x) == RemoveAll(a, x) + RemoveAll(b, x)
  {
    if |a| == 0 {
      assert a + b == b;
    } else {
      assert (a + b)[1..] == a[1..] + b;
      RemoveAllConcat(a[1..], b, x);
    }
  }

  /** Removing a name that is not there changes nothing. */
  lemma {:induction false} RemoveAllAbsent<T(!new)>(q: seq<T>, x: T)
    requires x !in q
    ensures RemoveAll(q, x) == q
  {
    if |q| > 0 {
      RemoveAllAbsent(q[1..], x);
      assert q == [q[0]] + q[1..];
    }
  }

  /** Removing twice is removing once. */
  lemma {:induction false} RemoveAllIdempotent<T(!new)>(q: seq<T>, x: T)
    ensures RemoveAll(RemoveAll(q, x), x) == RemoveAll(q, x)
  {
    RemoveAllAbsent(RemoveAll(q, x), x);
  }

  /** Removal never introduces a duplicate. */
  lemma {:induction false} RemoveAllNoDuplicates<T(!new)>(q: seq<T>, x: T)
    ensures NoDuplicates(q) ==> NoDuplicates(RemoveAll(q, x))
  {
    if NoDuplicates(q) && |q| > 0 {
      assert NoDuplicates(q[1..]) by {
        forall i, j | 0 <= i < j < |q[1..]| ensures q[1..][i] != q[1..][j] {
          assert q[1..][i] == q[i + 1] && q[1..][j] == q[j + 1];
        }
      }
      RemoveAllNoDuplicates(q[1..], x);
      var rest := RemoveAll(q[1..], x);
      if q[0] != x {
        assert q[0] !in q[1..] by {
          forall k | 0 <= k < |q[1..]| ensures q[1..][k] != q[0] {
            assert q[1..][k] == q[k + 1];
          }
        }
        assert q[0] !in rest;
        var r := [q[0]] + rest;
        forall i, j | 0 <= i < j < |r| ensures r[i] != r[j] {
          if i == 0 {
            assert r[j] == rest[j - 1];
          } else {
            assert r[i] == rest[i - 1] && r[j] == rest[j - 1];
          }
        }
      }
    }
  }

  /** The single occurrence of `x` in a duplicate-free `a + [x] + b` is the middle one. */
  lemma SpliceOccursOnce<T(!new)>(a: seq<T>, x: T, b: seq<T>)
    requires NoDuplicates(a + [x] + b)
    ensures x !in a && x !in b
  {
    var q := a + [x] + b;
    assert q[|a|] == x;
    forall k | 0 <= k < |a| ensures a[k] != x {
      assert q[k] == a[k];
    }
    forall k | 0 <= k < |b| ensures b[k] != x {
      assert q[|a| + 1 + k] == b[k];
    }
  }

  /** In a duplicate-free queue, removing `x` splices out its single occurrence. */
  lemma RemoveAllSplice<T(!new)>(a: seq<T>, x: T, b: seq<T>)
    requires NoDuplicates(a + [x] + b)
    ensures RemoveAll(a + [x] + b, x) == a + b
  {
    SpliceOccursOnce(a, x, b);
    var ax := a + [x];
    RemoveAllConcat(ax, b, x);
    RemoveAllConcat(a, [x], x);
    RemoveAllAbsent(a, x);
    RemoveAllAbsent(b, x);
    assert [x][1..] == [];
    assert RemoveAll([x], x) == [];
    assert RemoveAll(ax, x) == a;
    assert RemoveAll(ax + b, x) == a + b;
  }

  /** Every suffix of a duplicate-free queue is duplicate-free. */
  lemma TailNoDuplicates<T(!new)>(q: seq<T>)
    requires NoDuplicates(q) && |q| > 0
    ensures NoDuplicates(q[1..])
    ensures q[0] !in q[1..]
  {
  }
}
