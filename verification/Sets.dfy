/** Taking elements out of sets in an unspecified order. */
module Sets {
  import opened Digraph

  method Pick<T>(s: set<T>) returns (x: T)
    requires s != {}
    ensures x in s
  {
    x :| x in s;
  }

  /** The elements of a set in some order. */
  method Listing<T(==)>(s: set<T>) returns (l: seq<T>)
    ensures Distinct(l) && forall x :: x in l <==> x in s
  {
    l := [];
    var todo := s;
    while todo != {}
      invariant todo <= s && Distinct(l) && forall x :: x in l <==> x in s && x !in todo
    {
      var x :| x in todo;
      l := l + [x];
      todo := todo - {x};
    }
  }
}
