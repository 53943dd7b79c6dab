/** Python's `sorted` on a set of numbers. */
module SortedSets {

  predicate Increasing(a: seq<nat>) {
    forall i, j :: 0 <= i < j < |a| ==> a[i] < a[j]
  }

  lemma {:induction false} LeastOf(s: set<nat>) returns (m: nat)
    requires s != {}
    ensures m in s && forall x :: x in s ==> m <= x
    decreases |s|
  {
    var x :| x in s;
    m := x;
    var rest := s - {m};
    if rest != {} {
      var k := LeastOf(rest);
      assert forall x :: x in s ==> x == m || x in rest;
      if k < m {
        m := k;
      }
    }
  }

  method Sorted(s: set<nat>) returns (a: seq<nat>)
    ensures Increasing(a) && forall x :: x in a <==> x in s
  {
    a := [];
    var todo := s;
    while todo != {}
      invariant todo <= s && Increasing(a) && forall x :: x in a <==> x in s && x !in todo
      invariant forall i, x :: 0 <= i < |a| && x in todo ==> a[i] < x
      decreases |todo|
    {
      ghost var least := LeastOf(todo);
      var m :| m in todo && forall x :: x in todo ==> m <= x;
      a, todo := a + [m], todo - {m};
    }
  }

  lemma {:induction false} SortedSize(a: seq<nat>, s: set<nat>)
    requires Increasing(a) && forall x :: x in a <==> x in s
    ensures |a| == |s|
  {
    if a == [] {
      assert s == {};
    } else {
      var n := |a| - 1;
      var less, rest := a[..n], s - {a[n]};
      assert a == less + [a[n]];
      forall x ensures x in less <==> x in rest {
        if x in less {
          var i :| 0 <= i < n && a[i] == x;
          assert a[i] < a[n];
        }
      }
      SortedSize(less, rest);
    }
  }
}
