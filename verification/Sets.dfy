/** The least element of a finite set of integers. */
module Sets {

  ghost predicate IsLeast(s: set<int>, k: int) {
    k in s && forall j | j in s :: k <= j
  }

  lemma EmptyOrNot(s: set<int>)
    ensures s == {} || exists k :: k in s
  {
    if forall k :: k !in s {
      assert forall k :: k in s <==> k in {};
    }
  }

  lemma {:induction false} LeastExists(s: set<int>)
    requires s != {}
    ensures exists k :: IsLeast(s, k)
  {
    EmptyOrNot(s);
    var k :| k in s;
    if s - {k} == {} {
      assert s == {k};
      assert IsLeast(s, k);
    } else {
      LeastExists(s - {k});
      var l :| IsLeast(s - {k}, l);
      assert forall j | j in s :: j == k || j in s - {k};
      assert IsLeast(s, if k < l then k else l);
    }
  }
}
