/** Finite sets: least elements and sizes. */
module Sets {
  ghost predicate IsLeast(s: set<int>, a: int) {
    a in s && forall b :: b in s ==> a <= b
  }

  lemma {:induction false} LeastExists(s: set<int>)
    requires exists a :: a in s
    ensures exists a :: IsLeast(s, a)
    decreases |s|
  {
    var a :| a in s;
    if forall b :: b in s ==> b == a {
      assert IsLeast(s, a);
    } else {
      var rest := s - {a};
      assert s == rest + {a};
      var c :| c in s && c != a;
      assert c in rest;
      LeastExists(rest);
      var b :| IsLeast(rest, b);
      assert IsLeast(s, if a <= b then a else b);
    }
  }

  lemma SubsetCardinality<T>(a: set<T>, b: set<T>)
    requires a <= b
    ensures |a| <= |b|
  {
    assert b == a + (b - a);
  }
}
