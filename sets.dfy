/** Facts about finite sets, such as the key sets of maps. */
module Sets {

  /** The largest element of a non-empty finite set of integers. */
  function MaxOf(s: set<int>): (m: int)
    requires s != {}
    ensures m in s
    ensures forall k :: k in s ==> k <= m
  {
    MaxExists(s);
    var m :| m in s && forall k :: k in s ==> k <= m; m
  }

  /** A non-empty set has an element to pick. */
  lemma HasElement(s: set<int>)
    requires s != {}
    ensures exists x :: x in s
  {
    if forall x :: x !in s {
      assert false;
    }
  }

  /** A non-empty set of names has a name to pick. */
  lemma HasName(names: set<string>)
    requires names != {}
    ensures exists name :: name in names
  {
    if forall name :: name !in names {
      assert false;
    }
  }

  /** A non-empty finite set of integers has a largest element. */
  lemma {:induction false} MaxExists(s: set<int>)
    requires s != {}
    ensures exists m :: m in s && forall k :: k in s ==> k <= m
    decreases |s|
  {
    HasElement(s);
    var x :| x in s;
    if s != {x} {
      var rest := s - {x};
      MaxExists(rest);
      var m :| m in rest && forall k :: k in rest ==> k <= m;
      var top := if x > m then x else m;
      assert forall k :: k in s ==> k == x || k in rest;
      assert top in s && forall k :: k in s ==> k <= top;
    } else {
      assert x in s && forall k :: k in s ==> k <= x;
    }
  }
}
