/** Counting helpers shared by the pointer structures. */
module Counting {

  function One(b: bool): nat {
    if b then 1 else 0
  }

  /** A number above all of a finite set. */
  ghost function Bound(used: set<nat>): (b: nat)
    ensures forall a :: a in used ==> a < b
  {
    if used == {} then 0
    else
      var m :| m in used;
      var b := Bound(used - {m});
      assert forall a :: a in used ==> a == m || a in used - {m};
      if b <= m then m + 1 else b
  }
}
