/** Queues as sequences without repetition: what the linked queues stand for. */
module QueueSpec {

  ghost predicate NoDup<T>(q: seq<T>) {
    q == [] || (q[0] !in q[1..] && NoDup(q[1..]))
  }

  /** The same, place by place. */
  ghost predicate Distinct<T>(q: seq<T>) {
    forall i, j :: 0 <= i < j < |q| ==> q[i] != q[j]
  }

  lemma {:induction false} NoDupConcat<T>(a: seq<T>, b: seq<T>)
    ensures NoDup(a + b) <==> NoDup(a) && NoDup(b) && forall x :: x in a ==> x !in b
  {
    if a == [] {
      assert a + b == b;
    } else {
      assert (a + b)[1..] == a[1..] + b;
      NoDupConcat(a[1..], b);
      assert forall x :: x in a <==> x == a[0] || x in a[1..];
    }
  }

  /** The queue with `x` taken out, if it is there. */
  function Without<T(==)>(q: seq<T>, x: T): seq<T> {
    if q == [] then [] else if q[0] == x then q[1..] else [q[0]] + Without(q[1..], x)
  }

  lemma {:induction false} WithoutAt<T>(a: seq<T>, x: T, b: seq<T>)
    requires x !in a
    ensures Without(a + [x] + b, x) == a + b
  {
    if a == [] {
      assert a + [x] + b == [x] + b;
    } else {
      assert (a + [x] + b)[1..] == a[1..] + [x] + b;
      WithoutAt(a[1..], x, b);
      assert a + b == [a[0]] + (a[1..] + b);
    }
  }

  /** A queue taken apart at one of its members. */
  lemma Parts<T>(q: seq<T>, x: T) returns (a: seq<T>, b: seq<T>)
    requires NoDup(q) && x in q
    ensures q == a + [x] + b && x !in a && x !in b && Without(q, x) == a + b && NoDup(a + b)
  {
    var i :| 0 <= i < |q| && q[i] == x;
    a, b := q[..i], q[i + 1..];
    assert q == a + [x] + b && a + [x] + b == a + ([x] + b);
    NoDupConcat(a, [x] + b);
    NoDupConcat([x], b);
    NoDupConcat(a, b);
    assert x in [x] + b;
    WithoutAt(a, x, b);
  }

  lemma WithoutKeeps<T>(q: seq<T>, x: T)
    requires NoDup(q)
    ensures NoDup(Without(q, x))
    ensures forall y :: y in Without(q, x) <==> y in q && y != x
    ensures |Without(q, x)| == |q| - if x in q then 1 else 0
  {
    if x in q {
      var a, b := Parts(q, x);
      assert forall y :: y in q <==> y in a || y == x || y in b;
      assert forall y :: y in a + b <==> y in a || y in b;
    } else {
      WithoutAbsent(q, x);
    }
  }

  lemma {:induction false} WithoutSubset<T>(q: seq<T>, x: T)
    ensures forall k :: 0 <= k < |Without(q, x)| ==> Without(q, x)[k] in q
  {
    if q != [] && q[0] != x {
      var t := Without(q[1..], x);
      WithoutSubset(q[1..], x);
      forall k | 0 <= k < |Without(q, x)| ensures Without(q, x)[k] in q {
        if k > 0 { assert Without(q, x)[k] == t[k - 1]; }
      }
    }
  }

  lemma {:induction false} WithoutAbsent<T>(q: seq<T>, x: T)
    requires x !in q
    ensures Without(q, x) == q
  {
    if q != [] { WithoutAbsent(q[1..], x); }
  }

  /** The queue without the members of `s`. */
  ghost function Except<T>(q: seq<T>, s: set<T>): seq<T> {
    if q == [] then [] else (if q[0] in s then [] else [q[0]]) + Except(q[1..], s)
  }

  lemma {:induction false} ExceptNone<T>(q: seq<T>)
    ensures Except(q, {}) == q
  {
    if q != [] { ExceptNone(q[1..]); }
  }

  lemma {:induction false} ExceptKeeps<T>(q: seq<T>, s: set<T>)
    ensures forall x :: x in Except(q, s) <==> x in q && x !in s
    ensures NoDup(q) ==> NoDup(Except(q, s))
  {
    if q != [] {
      ExceptKeeps(q[1..], s);
      var t := Except(q[1..], s);
      assert Except(q, s) == if q[0] in s then t else [q[0]] + t;
      assert ([q[0]] + t)[1..] == t;
      assert forall x :: x in q <==> x == q[0] || x in q[1..];
    }
  }

  /** Taking the members of `s` out and then one more. */
  lemma {:induction false} ExceptNext<T>(q: seq<T>, s: set<T>, x: T)
    requires NoDup(q) && x !in s
    ensures Without(Except(q, s), x) == Except(q, s + {x})
  {
    if q != [] {
      var t := q[1..];
      ExceptNext(t, s, x);
      if q[0] in s {
        assert Except(q, s) == Except(t, s) && Except(q, s + {x}) == Except(t, s + {x});
      } else if q[0] == x {
        ExceptSame(t, s, x);
        assert ([x] + Except(t, s))[1..] == Except(t, s);
      } else {
        assert ([q[0]] + Except(t, s))[1..] == Except(t, s);
      }
    }
  }

  lemma {:induction false} ExceptSame<T>(q: seq<T>, s: set<T>, x: T)
    requires x !in q
    ensures Except(q, s + {x}) == Except(q, s)
  {
    if q != [] { ExceptSame(q[1..], s, x); }
  }

  lemma NoDupAppend<T>(q: seq<T>, x: T)
    requires NoDup(q) && x !in q
    ensures NoDup(q + [x]) && NoDup([x] + q)
  {
    NoDupConcat(q, [x]);
    NoDupConcat([x], q);
  }

  /** The last member moved to the front. */
  function LastToFront<T>(q: seq<T>): seq<T>
    requires q != []
  {
    [q[|q| - 1]] + q[..|q| - 1]
  }

  lemma {:induction false} NoDupIndex<T>(q: seq<T>)
    ensures NoDup(q) <==> Distinct(q)
  {
    if q != [] {
      var t := q[1..];
      NoDupIndex(t);
      if NoDup(q) {
        forall i, j | 0 <= i < j < |q| ensures q[i] != q[j] {
          assert q[j] == t[j - 1];
          if i > 0 { assert q[i] == t[i - 1]; }
        }
      }
    }
  }

  lemma EmptyIff<T>(q: seq<T>)
    ensures q == [] <==> forall x :: x !in q
  {
    if q != [] { assert q[0] in q; }
  }
}
