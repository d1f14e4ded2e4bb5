/** Small vocabulary shared by every component of the model. */
module Prelude {

  datatype Option<+T> = None | Some(value: T)

  function Min(a: int, b: int): int { if a <= b then a else b }

  function Max(a: int, b: int): int { if a <= b then b else a }

  predicate Distinct<T(==)>(s: seq<T>) {
    forall i, j :: 0 <= i < j < |s| ==> s[i] != s[j]
  }

  lemma {:induction false} OnlyOnce<T>(s: seq<T>, x: T)
    requires Distinct(s)
    ensures multiset(s)[x] <= 1
  {
    if s != [] {
      var n := |s| - 1;
      OnlyOnce(s[..n], x);
      assert s == s[..n] + [s[n]];
      if s[n] == x {
        forall i | 0 <= i < n ensures s[..n][i] != x {
          assert s[i] != s[n];
        }
      }
    }
  }

  lemma CountedTwice<T>(s: seq<T>, i: int, j: int)
    requires 0 <= i < j < |s| && s[i] == s[j]
    ensures multiset(s)[s[i]] >= 2
  {
    assert s == s[..j] + [s[j]] + s[j + 1..];
    assert s[..j][i] == s[i];
  }

  /** A rearrangement holds the same elements, each still once. */
  lemma Rearranged<T>(a: seq<T>, b: seq<T>)
    requires multiset(a) == multiset(b)
    ensures |a| == |b| && forall x :: x in a <==> x in b
    ensures Distinct(a) ==> Distinct(b)
  {
    assert |multiset(a)| == |a| && |multiset(b)| == |b|;
    forall x ensures x in a <==> x in b {
      assert x in multiset(a) <==> x in multiset(b);
    }
    forall i, j | Distinct(a) && 0 <= i < j < |b| ensures b[i] != b[j] {
      OnlyOnce(a, b[i]);
      if b[i] == b[j] { CountedTwice(b, i, j); }
    }
  }

  function Elements<T(==)>(s: seq<T>): set<T> {
    set x | x in s
  }

  lemma ElementsGrow<T>(s: seq<T>, x: T)
    ensures Elements(s + [x]) == Elements(s) + {x}
  {
  }

  lemma Regroup<T>(a: seq<T>, b: seq<T>, c: seq<T>)
    ensures a + b + c == a + (b + c)
  {
  }

  /** A counter kept in a map: an absent key counts zero. */
  function Tally<K>(counts: map<K, nat>, key: K): nat {
    if key in counts then counts[key] else 0
  }

  /** The wanted elements, in order and as often as they occur. */
  function Keep<T>(s: seq<T>, wanted: T -> bool): seq<T> {
    if s == [] then []
    else Keep(s[..|s| - 1], wanted) + if wanted(s[|s| - 1]) then [s[|s| - 1]] else []
  }

  lemma {:induction false} KeepMeans<T>(s: seq<T>, wanted: T -> bool)
    ensures forall x :: x in Keep(s, wanted) <==> x in s && wanted(x)
  {
    if s != [] {
      var n := |s| - 1;
      KeepMeans(s[..n], wanted);
      assert s == s[..n] + [s[n]];
    }
  }

  lemma {:induction false} KeepAll<T>(s: seq<T>, wanted: T -> bool)
    requires forall x :: x in s ==> wanted(x)
    ensures Keep(s, wanted) == s
  {
    if s != [] {
      var n := |s| - 1;
      KeepAll(s[..n], wanted);
      assert s == s[..n] + [s[n]];
    }
  }

  lemma {:induction false} KeepSplits<T>(a: seq<T>, b: seq<T>, wanted: T -> bool)
    ensures Keep(a + b, wanted) == Keep(a, wanted) + Keep(b, wanted)
  {
    if b == [] {
      assert a + b == a;
    } else {
      var n := |b| - 1;
      assert (a + b)[..|a| + n] == a + b[..n] && (a + b)[|a| + n] == b[n];
      KeepSplits(a, b[..n], wanted);
    }
  }

  lemma KeepOne<T>(x: T, wanted: T -> bool)
    ensures Keep([x], wanted) == if wanted(x) then [x] else []
  {
    assert [x][..0] == [] && Keep([], wanted) == [];
  }
}
