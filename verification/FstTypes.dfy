/** Types and small list facts shared by the modules that model the FST manager. */
module FstTypes {

  datatype Option<+T> = None | Some(value: T)

  /** A 48-bit MAC address, byte 0 first on the wire. */
  datatype Mac = Mac(b0: bv8, b1: bv8, b2: bv8, b3: bv8, b4: bv8, b5: bv8)

  ghost predicate NoDup<T>(s: seq<T>) {
    forall i, j | 0 <= i < j < |s| :: s[i] != s[j]
  }

  /** Unlinks the first occurrence of `x`: what dl_list_del does to the list that holds the node. */
  function Without<T(==)>(s: seq<T>, x: T): (r: seq<T>) {
    if s == [] then [] else if s[0] == x then s[1..] else [s[0]] + Without(s[1..], x)
  }

  lemma {:induction false} WithoutNoDup<T>(s: seq<T>, x: T)
    requires NoDup(s)
    ensures NoDup(Without(s, x))
    ensures forall y :: y in Without(s, x) <==> y in s && y != x
    ensures forall k | 0 <= k < |Without(s, x)| :: Without(s, x)[k] in s && Without(s, x)[k] != x
    ensures |Without(s, x)| == if x in s then |s| - 1 else |s|
  {
    if s != [] {
      assert s == [s[0]] + s[1..];
      forall i, j | 0 <= i < j < |s[1..]| ensures s[1..][i] != s[1..][j] {
        assert s[1..][i] == s[i + 1] && s[1..][j] == s[j + 1];
      }
      WithoutNoDup(s[1..], x);
      if s[0] == x {
        assert Without(s, x) == s[1..];
        assert x !in s[1..];
      } else {
        assert s[0] !in s[1..];
        assert s[0] !in Without(s[1..], x);
      }
    }
  }

  /** An injective image of a finite set has the same size. */
  lemma {:induction false} SameSize<A, B>(a: set<A>, b: set<B>, m: map<A, B>)
    requires m.Keys == a
    requires forall x, y | x in a && y in a && x != y :: m[x] != m[y]
    requires forall x | x in a :: m[x] in b
    requires forall z | z in b :: exists x :: x in a && m[x] == z
    ensures |a| == |b|
    decreases a
  {
    if a != {} {
      var x :| x in a;
      var m' := m - {x};
      forall z | z in b - {m[x]} ensures exists y :: y in a - {x} && m'[y] == z {
        var y :| y in a && m[y] == z;
        assert y in a - {x} && m'[y] == z;
      }
      SameSize(a - {x}, b - {m[x]}, m');
    } else {
      assert b == {};
    }
  }

  lemma {:induction false} SubsetSize<T>(a: set<T>, b: set<T>)
    requires a <= b
    ensures |a| <= |b|
    ensures |a| == |b| ==> a == b
    decreases b
  {
    if a != {} {
      var x :| x in a;
      SubsetSize(a - {x}, b - {x});
      if |a| == |b| {
        assert a == a - {x} + {x} == b - {x} + {x} == b;
      }
    }
  }
}
