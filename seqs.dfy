/** Small sequence utilities shared by the tree model and the ordered maps. */
module Seqs {

  /** No element occurs twice. */
  ghost predicate Distinct<T>(s: seq<T>) {
    forall i, j :: 0 <= i < |s| && 0 <= j < |s| && s[i] == s[j] ==> i == j
  }

  /** `s` with every occurrence of `x` taken out, order kept. */
  function Remove<T(==)>(s: seq<T>, x: T): (r: seq<T>)
    ensures x !in r
    ensures forall y | y in s :: y in r <==> y != x
    ensures forall y | y in r :: y in s
    ensures |r| <= |s|
  {
    if s == [] then []
    else (if s[0] == x then [] else [s[0]]) + Remove(s[1..], x)
  }

  /** Position of the first occurrence of `x` in `s`. */
  function IndexOf<T(==)>(s: seq<T>, x: T): (i: nat)
    requires x in s
    ensures i < |s| && s[i] == x
    ensures x !in s[..i]
  {
    if s[0] == x then 0
    else
      var i := 1 + IndexOf(s[1..], x);
      assert s[..i] == [s[0]] + s[1..][..i - 1];
      i
  }

  lemma {:induction false} RemoveAbsent<T>(s: seq<T>, x: T)
    requires x !in s
    ensures Remove(s, x) == s
  {
    if s != [] {
      RemoveAbsent(s[1..], x);
    }
  }

  lemma {:induction false} RemoveConcat<T>(a: seq<T>, b: seq<T>, x: T)
    ensures Remove(a + b, x) == Remove(a, x) + Remove(b, x)
  {
    if a == [] {
      assert a + b == b;
    } else {
      assert (a + b)[1..] == a[1..] + b;
      RemoveConcat(a[1..], b, x);
    }
  }

  /** Removing the only occurrence of an element closes the gap it leaves. */
  lemma {:induction false} RemoveOnly<T>(s: seq<T>, i: nat)
    requires i < |s| && Distinct(s)
    ensures Remove(s, s[i]) == s[..i] + s[i + 1..]
  {
    var x, t := s[i], s[1..];
    assert Distinct(t) by {
      forall j, k | 0 <= j < |t| && 0 <= k < |t| && t[j] == t[k] ensures j == k {
        assert s[j + 1] == s[k + 1];
      }
    }
    if i == 0 {
      assert x !in t by {
        forall k | 0 <= k < |t| ensures t[k] != x {
          assert t[k] == s[k + 1];
        }
      }
      RemoveAbsent(t, x);
    } else {
      assert t[i - 1] == x;
      RemoveOnly(t, i - 1);
      assert s[..i] == [s[0]] + t[..i - 1];
      assert s[i + 1..] == t[i..];
    }
  }

  /** Prepending an element the rest lacks keeps a sequence free of repetitions. */
  lemma DistinctCons<T>(a: T, t: seq<T>)
    requires a !in t && Distinct(t)
    ensures Distinct([a] + t)
  {
    var s := [a] + t;
    assert forall k | 0 < k < |s| :: s[k] == t[k - 1];
  }

  /** Joining two sequences without repetitions and without common elements gives one without repetitions. */
  lemma DistinctConcat<T>(a: seq<T>, b: seq<T>)
    requires Distinct(a) && Distinct(b) && forall x | x in a :: x !in b
    ensures Distinct(a + b)
  {
    var s := a + b;
    forall i, j | 0 <= i < |a| <= j < |s| ensures s[i] != s[j] {
      assert s[i] == a[i] && s[j] == b[j - |a|];
      assert a[i] in a;
    }
    forall i, j | 0 <= i < |s| && 0 <= j < |s| && s[i] == s[j] ensures i == j {
      if i < |a| && j < |a| {
        assert a[i] == a[j];
      } else if |a| <= i && |a| <= j {
        assert b[i - |a|] == b[j - |a|];
      }
    }
  }

  /** A slice of a sequence without repetitions has none. */
  lemma DistinctSlice<T>(s: seq<T>, i: nat, j: nat)
    requires Distinct(s) && i <= j <= |s|
    ensures Distinct(s[i..j])
  {
    assert forall k | 0 <= k < j - i :: s[i..j][k] == s[i + k];
  }

  /** `n` put into a sequence without repetitions that lacks it, at position `k`. */
  lemma DistinctInsert<T>(s: seq<T>, k: nat, n: T)
    requires Distinct(s) && n !in s && k <= |s|
    ensures Distinct(s[..k] + [n] + s[k..])
  {
    assert s == s[..k] + s[k..];
    DistinctSlice(s, 0, k);
    DistinctSlice(s, k, |s|);
    DistinctCons(n, s[k..]);
    assert forall x | x in s[..k] :: x !in [n] + s[k..] by {
      forall x | x in s[..k] ensures x !in [n] + s[k..] {
        var i :| 0 <= i < k && s[i] == x;
        forall j | k <= j < |s| ensures s[j] != x {
        }
      }
    }
    DistinctConcat(s[..k], [n] + s[k..]);
    assert s[..k] + [n] + s[k..] == s[..k] + ([n] + s[k..]);
  }

  /** Taking elements out of a sequence without repetitions leaves one without repetitions. */
  lemma {:induction false} RemoveDistinct<T>(s: seq<T>, x: T)
    requires Distinct(s)
    ensures Distinct(Remove(s, x))
  {
    if s != [] {
      var t := s[1..];
      assert Distinct(t) by {
        forall i, j | 0 <= i < |t| && 0 <= j < |t| && t[i] == t[j] ensures i == j {
          assert s[i + 1] == s[j + 1];
        }
      }
      RemoveDistinct(t, x);
      if s[0] != x {
        assert s[0] !in t by {
          forall k | 0 <= k < |t| ensures t[k] != s[0] {
            assert s[k + 1] == t[k];
          }
        }
        DistinctCons(s[0], Remove(t, x));
      }
    }
  }

  /** A sequence without repetitions has as many elements as its set. */
  lemma {:induction false} DistinctCard<T>(s: seq<T>)
    requires Distinct(s)
    ensures |set x | x in s| == |s|
  {
    if s != [] {
      var t := s[1..];
      assert Distinct(t) by {
        forall i, j | 0 <= i < |t| && 0 <= j < |t| && t[i] == t[j] ensures i == j {
          assert s[i + 1] == s[j + 1];
        }
      }
      DistinctCard(t);
      assert (set x | x in s) == (set x | x in t) + {s[0]};
    }
  }
}
