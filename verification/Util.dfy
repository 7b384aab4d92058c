/** Small vocabulary shared by the models. */
module Util {

  datatype Option<+T> = None | Some(value: T)

  /** The set of elements of a sequence. */
  function Elems<T(==)>(s: seq<T>): set<T> {
    set x | x in s
  }

  ghost predicate NoDuplicates<T>(s: seq<T>) {
    forall i, j :: 0 <= i < j < |s| ==> s[i] != s[j]
  }

  function Min(a: int, b: int): int {
    if a <= b then a else b
  }

  lemma ElemsAppend<T>(a: seq<T>, b: seq<T>)
    ensures Elems(a + b) == Elems(a) + Elems(b)
  {}

  /** One more element of a prefix. */
  lemma ElemsTake<T>(s: seq<T>, i: nat)
    requires i < |s|
    ensures s[..i + 1] == s[..i] + [s[i]]
    ensures Elems(s[..i + 1]) == Elems(s[..i]) + {s[i]}
    ensures forall x :: x in s[..i + 1] <==> x in s[..i] || x == s[i]
  {
    assert s[..i + 1] == s[..i] + [s[i]];
  }

  lemma ElemsPush<T>(s: seq<T>, x: T)
    ensures Elems(s + [x]) == Elems(s) + {x}
  {
    ElemsAppend(s, [x]);
  }

  lemma NothingLeftMeansSubset<T>(a: set<T>, b: set<T>)
    requires a - b == {}
    ensures a <= b
  {
    forall x | x in a ensures x in b {
      assert x !in a - b;
    }
  }

  /** A duplicate-free sequence has as many elements as its set. */
  lemma {:induction false} NoDuplicatesSize<T>(s: seq<T>)
    requires NoDuplicates(s)
    ensures |Elems(s)| == |s|
  {
    if s != [] {
      var rest := s[..|s| - 1];
      NoDuplicatesSize(rest);
      assert s[|s| - 1] !in rest;
      assert Elems(s) == Elems(rest) + {s[|s| - 1]};
    }
  }

  /** Spreads a set into an array, in some order. */
  method SetToSeq<T(==)>(s: set<T>) returns (xs: seq<T>)
    ensures Elems(xs) == s && NoDuplicates(xs)
  {
    xs := [];
    var left := s;
    while left != {}
      invariant left <= s && Elems(xs) == s - left && NoDuplicates(xs)
      decreases left
    {
      var x :| x in left;
      assert x !in Elems(xs);
      ElemsPush(xs, x);
      xs, left := xs + [x], left - {x};
    }
  }

  /** The largest member; 0 for the empty set. */
  function MaxOf(ks: set<nat>): (m: nat)
    ensures forall k :: k in ks ==> k <= m
    ensures ks == {} ==> m == 0
    ensures ks != {} ==> m in ks
  {
    if ks == {} then 0
    else
      assert exists k :: k in ks && forall j :: j in ks ==> j <= k by { HasMax(ks); }
      var k :| k in ks && forall j :: j in ks ==> j <= k;
      k
  }

  lemma {:induction false} HasMax(ks: set<nat>)
    requires ks != {}
    ensures exists k :: k in ks && forall j :: j in ks ==> j <= k
  {
    var x :| x in ks;
    var rest := ks - {x};
    assert ks == rest + {x};
    if rest != {} {
      HasMax(rest);
      var r :| r in rest && forall j :: j in rest ==> j <= r;
      var m := if r < x then x else r;
      assert m in ks;
      forall j | j in ks ensures j <= m {
        assert j == x || j in rest;
      }
    }
  }
}
