/** Facts about finite sets that several models share. */
module Sets {
  /** A member of a non-empty set. */
  lemma Member<T>(s: set<T>) returns (x: T)
    requires s != {}
    ensures x in s
  {
    x :| x in s;
  }

  lemma SubsetSize<T>(a: set<T>, b: set<T>)
    requires a <= b
    ensures |a| <= |b| && |b - a| == |b| - |a|
    ensures |a| == |b| ==> a == b
  {
    assert b == a + (b - a);
    assert |b - a| == |b| - |a|;
  }

  /** The members of a sequence without repetitions are as many as its elements. */
  lemma {:induction false} DistinctSize<T>(s: seq<T>)
    requires forall i, j :: 0 <= i < j < |s| ==> s[i] != s[j]
    ensures |set x | x in s| == |s|
  {
    if s != [] {
      var front := s[..|s| - 1];
      DistinctSize(front);
      assert (set x | x in s) == (set x | x in front) + {s[|s| - 1]};
    }
  }

  /** A set and its image under a function that is injective on it have the same size. */
  lemma {:induction false} ImageSize<A(!new), B>(s: set<A>, f: A -> B, image: set<B>)
    requires forall a, b :: a in s && b in s && f(a) == f(b) ==> a == b
    requires forall a :: a in s ==> f(a) in image
    requires forall b :: b in image ==> exists a :: a in s && f(a) == b
    ensures |image| == |s|
    decreases |s|
  {
    if s == {} {
      assert image == {};
    } else {
      var a := Member(s);
      forall b | b in image - {f(a)} ensures exists x :: x in s - {a} && f(x) == b {
        var x :| x in s && f(x) == b;
        assert x in s - {a};
      }
      ImageSize(s - {a}, f, image - {f(a)});
    }
  }
}
