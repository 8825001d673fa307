// Walking a Go map meets its keys once each, in no fixed order.
module MapWalk {

  predicate Distinct(names: seq<string>) {
    forall i, j :: 0 <= i < j < |names| ==> names[i] != names[j]
  }

  /** `order` is one of the orders in which a walk can meet these keys. */
  ghost predicate IsOrderOf(order: seq<string>, names: set<string>) {
    Distinct(order) && forall x :: x in order <==> x in names
  }

  /** Some order of the keys; callers are proved for every order this may give. */
  method MapOrder(names: set<string>) returns (order: seq<string>)
    ensures IsOrderOf(order, names)
  {
    order := [];
    var todo := names;
    while todo != {}
      invariant todo <= names && IsOrderOf(order, names - todo)
      decreases todo
    {
      var x :| x in todo;
      todo := todo - {x};
      order := order + [x];
    }
  }

  /** An order that meets the given keys first. */
  lemma OrderWith(first: seq<string>, names: set<string>) returns (order: seq<string>)
    requires forall x :: x in first ==> x in names
    requires Distinct(first)
    ensures IsOrderOf(order, names) && first <= order
    decreases |names| - |first|
  {
    DistinctAreFew(first, names);
    if x :| x in names && x !in first {
      DistinctAreFew(first + [x], names);
      order := OrderWith(first + [x], names);
    } else {
      order := first;
    }
  }

  lemma {:induction false} DistinctAreFew(s: seq<string>, names: set<string>)
    requires forall x :: x in s ==> x in names
    requires Distinct(s)
    ensures |s| <= |names|
  {
    if s != [] {
      assert s[0] in names;
      assert forall x :: x in s[1..] ==> x in names - {s[0]};
      DistinctAreFew(s[1..], names - {s[0]});
    }
  }
}
