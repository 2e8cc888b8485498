// Looking up neighbours in a map that is ordered by address, as std::map does.
module OrderedKeys {
  import opened Options

  // The least key that is at least a.
  ghost predicate IsLowerBound(keys: set<nat>, a: nat, k: Option<nat>) {
    if k.None? then forall x :: x in keys ==> x < a
    else k.value in keys && a <= k.value && forall x :: x in keys && a <= x ==> k.value <= x
  }

  // The greatest key below b, or the greatest of all for the end.
  ghost predicate IsPredecessor(keys: set<nat>, b: Option<nat>, k: Option<nat>) {
    if k.None? then forall x :: x in keys ==> b.Some? && b.value <= x
    else k.value in keys && (b.Some? ==> k.value < b.value) && forall x :: x in keys && (b.Some? ==> x < b.value) ==> x <= k.value
  }

  method LowerBound(keys: set<nat>, a: nat) returns (k: Option<nat>)
    ensures IsLowerBound(keys, a, k)
  {
    k := None;
    var rest := keys;
    while rest != {}
      invariant rest <= keys && IsLowerBound(keys - rest, a, k)
      decreases rest
    {
      var x :| x in rest;
      assert keys - (rest - {x}) == (keys - rest) + {x};
      rest := rest - {x};
      if a <= x && (k.None? || x < k.value) {
        k := Some(x);
      }
    }
    assert keys - rest == keys;
  }

  method Predecessor(keys: set<nat>, b: Option<nat>) returns (k: Option<nat>)
    ensures IsPredecessor(keys, b, k)
  {
    k := None;
    var rest := keys;
    while rest != {}
      invariant rest <= keys && IsPredecessor(keys - rest, b, k)
      decreases rest
    {
      var x :| x in rest;
      assert keys - (rest - {x}) == (keys - rest) + {x};
      rest := rest - {x};
      if (b.None? || x < b.value) && (k.None? || k.value < x) {
        k := Some(x);
      }
    }
    assert keys - rest == keys;
  }
}
