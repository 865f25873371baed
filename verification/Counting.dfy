/** The size of sets of sequences that extend other sequences. */
module Counting {

  /** The sequences of s, each extended by every element that f gives for it. */
  ghost function Extended<T(!new)>(s: set<seq<T>>, f: seq<T> -> set<T>): set<seq<T>> {
    set v, c | v in s && c in f(v) :: v + [c]
  }

  lemma ExtendedHas<T(!new)>(s: set<seq<T>>, f: seq<T> -> set<T>, v: seq<T>, c: T)
    ensures v + [c] in Extended(s, f) <==> v in s && c in f(v)
  {
    if v + [c] in Extended(s, f) {
      var u, b :| u in s && b in f(u) && v + [c] == u + [b];
      assert v == (v + [c])[..|v|] == (u + [b])[..|u|] == u;
      assert c == (v + [c])[|v|] == b;
    }
  }

  ghost function ExtendedOne<T(!new)>(v: seq<T>, a: set<T>): set<seq<T>> {
    set c | c in a :: v + [c]
  }

  lemma {:induction false} OneSize<T(!new)>(v: seq<T>, a: set<T>)
    ensures |ExtendedOne(v, a)| == |a|
    decreases |a|
  {
    if a == {} {
      assert ExtendedOne(v, a) == {};
    } else {
      var c :| c in a;
      OneSize(v, a - {c});
      assert ExtendedOne(v, a) == ExtendedOne(v, a - {c}) + {v + [c]};
      forall b | b in a - {c} ensures v + [b] != v + [c] {
        assert (v + [b])[|v|] == b && (v + [c])[|v|] == c;
      }
    }
  }

  lemma ExtendedSplits<T(!new)>(s: set<seq<T>>, f: seq<T> -> set<T>, v: seq<T>)
    requires v in s
    ensures |Extended(s, f)| == |Extended(s - {v}, f)| + |ExtendedOne(v, f(v))|
  {
    var rest, one := Extended(s - {v}, f), ExtendedOne(v, f(v));
    forall w | w in Extended(s, f) ensures w in rest || w in one {
      var u, c :| u in s && c in f(u) && w == u + [c];
      assert u != v ==> u in s - {v};
    }
    assert Extended(s, f) == rest + one;
    forall w | w in one ensures w !in rest {
      var c :| c in f(v) && w == v + [c];
      ExtendedHas(s - {v}, f, v, c);
    }
  }

  /** With k extensions for each there are k times as many. */
  lemma {:induction false} ExtendedSize<T(!new)>(s: set<seq<T>>, f: seq<T> -> set<T>, k: nat)
    requires forall v :: v in s ==> |f(v)| == k
    ensures |Extended(s, f)| == |s| * k
    decreases |s|
  {
    if s == {} {
      assert Extended(s, f) == {};
    } else {
      var v :| v in s;
      ExtendedSize(s - {v}, f, k);
      ExtendedSplits(s, f, v);
      OneSize(v, f(v));
      OneMoreTime(|s - {v}|, k);
    }
  }

  lemma OneMoreTime(n: nat, k: nat)
    ensures (n + 1) * k == n * k + k
  {
  }

  lemma Included<T(!new)>(a: set<T>, b: set<T>)
    requires a <= b
    ensures |a| <= |b|
  {
    assert b == a + (b - a);
  }

  /** The numbers below m. */
  ghost function Below(m: nat): (r: set<nat>)
    ensures |r| == m && forall c: nat :: c in r <==> c < m
  {
    if m == 0 then {} else Below(m - 1) + {m - 1}
  }

  ghost function Image<T(!new)>(f: nat -> T, n: nat): set<T> {
    set i: nat | i < n :: f(i)
  }

  /** A sequence of values that are all different has as many as its length. */
  lemma {:induction false} ImageSize<T(!new)>(f: nat -> T, n: nat)
    requires forall i: nat, j: nat :: i < j < n ==> f(i) != f(j)
    ensures |Image(f, n)| == n
  {
    if n == 0 {
      assert Image(f, n) == {};
    } else {
      ImageSize(f, n - 1);
      assert Image(f, n) == Image(f, n - 1) + {f(n - 1)};
    }
  }

  /** More values than there is room for are not all different. */
  lemma Pigeonhole(f: nat -> nat, n: nat, m: nat) returns (i: nat, j: nat)
    requires m < n && forall k: nat :: k < n ==> f(k) < m
    ensures i < j < n && f(i) == f(j)
  {
    if forall i: nat, j: nat :: i < j < n ==> f(i) != f(j) {
      ImageSize(f, n);
      Included(Image(f, n), Below(m));
      assert false;
    } else {
      i, j :| i < j < n && f(i) == f(j);
    }
  }
}
