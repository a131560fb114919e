/** The order on expressions: `Expr::compare` with its shared memo of equal pairs, and the comparison
    of update lists that re-enters it. */
module Compare {
  import opened Exprs

  // ----- three-way comparison -----

  function Sign(x: int, y: int): int {
    if x < y then -1 else if x > y then 1 else 0
  }

  function Then(x: int, y: int): int {
    if x != 0 then x else y
  }

  function CmpName(s: string, t: string): int {
    if s == [] || t == [] then Sign(|s|, |t|)
    else Then(Sign(s[0] as int, t[0] as int), CmpName(s[1..], t[1..]))
  }

  function KindRank(e: Expr): nat {
    match e
    case Constant(_, _) => 0
    case Read(_, _, _) => 3
    case Select(_, _, _) => 4
    case Unary(uop, _) =>
      (match uop case NotOptimized => 1 case Extract(_, _) => 6 case ZExt(_) => 7 case SExt(_) => 8 case Not => 9)
    case Binary(op, _, _) =>
      (match op
       case Concat => 5
       case Add => 10 case Sub => 11 case Mul => 12 case UDiv => 13 case SDiv => 14 case URem => 15 case SRem => 16
       case And => 17 case Or => 18 case Xor => 19 case Shl => 20 case LShr => 21 case AShr => 22
       case Eq => 23 case Ne => 24 case Ult => 25 case Ule => 26 case Ugt => 27 case Uge => 28
       case Slt => 29 case Sle => 30 case Sgt => 31 case Sge => 32)
  }

  function NumKids(e: Expr): nat {
    match e
    case Constant(_, _) => 0
    case Read(_, _, _) => 1
    case Select(_, _, _) => 3
    case Unary(_, _) => 1
    case Binary(_, _, _) => 2
  }

  function Kid(e: Expr, i: nat): (k: Expr)
    requires i < NumKids(e)
    ensures k < e
  {
    match e
    case Read(_, _, index) => index
    case Select(c, t, f) => if i == 0 then c else if i == 1 then t else f
    case Unary(_, src) => src
    case Binary(_, l, r) => if i == 0 then l else r
  }

  /** What a node other than a read holds besides its kids. */
  function Attributes(e: Expr): (int, int) {
    match e
    case Constant(v, w) => (w, v)
    case Unary(uop, _) =>
      (match uop
       case Extract(off, w) => (off, w)
       case ZExt(w) => (w, 0)
       case SExt(w) => (w, 0)
       case NotOptimized => (0, 0)
       case Not => (0, 0))
    case Binary(op, _, _) => if op.Concat? then (Width(e), 0) else (0, 0)
    case Read(_, _, _) => (0, 0)
    case Select(_, _, _) => (0, 0)
  }

  type Hash = Expr -> nat

  /** The order the source documents, without pointers or memo. */
  function Cmp(h: Hash, a: Expr, b: Expr): int
    decreases a, 4
  {
    Then(Sign(KindRank(a), KindRank(b)), Then(Sign(h(a), h(b)), Then(CmpContents(h, a, b), CmpKids(h, a, b, 0))))
  }

  function CmpContents(h: Hash, a: Expr, b: Expr): int
    decreases a, 0
  {
    if a.Read? && b.Read? then CmpList(h, a.root, a.updates, b.root, b.updates)
    else Then(Sign(Attributes(a).0, Attributes(b).0), Sign(Attributes(a).1, Attributes(b).1))
  }

  function CmpKids(h: Hash, a: Expr, b: Expr, i: nat): int
    decreases a, if i < 3 then 3 - i else 0
  {
    if i < NumKids(a) && i < NumKids(b) then Then(Cmp(h, Kid(a, i), Kid(b, i)), CmpKids(h, a, b, i + 1)) else 0
  }

  function CmpList(h: Hash, ra: Array, ua: Updates, rb: Array, ub: Updates): int
    decreases ua, 1
  {
    Then(CmpName(ra.name, rb.name),
      Then(Sign(ra.id, rb.id), Then(Sign(UpdatesLength(ua), UpdatesLength(ub)), CmpUpdates(h, ua, ub))))
  }

  function CmpUpdates(h: Hash, u: Updates, v: Updates): int
    decreases u, 0
  {
    if u.Update? && v.Update?
    then Then(Then(Cmp(h, u.index, v.index), Cmp(h, u.value, v.value)), CmpUpdates(h, u.next, v.next))
    else 0
  }

  // ----- antisymmetry -----

  lemma {:induction false} NameFlip(s: string, t: string)
    ensures CmpName(t, s) == -CmpName(s, t)
  {
    if s != [] && t != [] { NameFlip(s[1..], t[1..]); }
  }

  lemma {:induction false} CmpFlip(h: Hash, a: Expr, b: Expr)
    ensures Cmp(h, b, a) == -Cmp(h, a, b)
    decreases a, 4
  {
    KidsFlip(h, a, b, 0);
    if a.Read? && b.Read? { ListFlip(h, a.root, a.updates, b.root, b.updates); }
  }

  lemma {:induction false} KidsFlip(h: Hash, a: Expr, b: Expr, i: nat)
    ensures CmpKids(h, b, a, i) == -CmpKids(h, a, b, i)
    decreases a, if i < 3 then 3 - i else 0
  {
    if i < NumKids(a) && i < NumKids(b) {
      CmpFlip(h, Kid(a, i), Kid(b, i));
      KidsFlip(h, a, b, i + 1);
    }
  }

  lemma {:induction false} ListFlip(h: Hash, ra: Array, ua: Updates, rb: Array, ub: Updates)
    ensures CmpList(h, rb, ub, ra, ua) == -CmpList(h, ra, ua, rb, ub)
    decreases ua, 1
  {
    NameFlip(ra.name, rb.name);
    UpdatesFlip(h, ua, ub);
  }

  lemma {:induction false} UpdatesFlip(h: Hash, u: Updates, v: Updates)
    ensures CmpUpdates(h, v, u) == -CmpUpdates(h, u, v)
    decreases u, 0
  {
    if u.Update? && v.Update? {
      CmpFlip(h, u.index, v.index);
      CmpFlip(h, u.value, v.value);
      UpdatesFlip(h, u.next, v.next);
    }
  }

  // ----- transitivity -----

  /** `x`, `y` and `z` compare a with b, b with c and a with c. */
  predicate Tri(x: int, y: int, z: int) {
    x <= 0 && y <= 0 ==> z <= 0 && (z == 0 <==> x == 0 && y == 0)
  }

  lemma ThenTri(x: int, y: int, z: int, x': int, y': int, z': int)
    requires Tri(x, y, z) && (x == 0 && y == 0 ==> Tri(x', y', z'))
    ensures Tri(Then(x, x'), Then(y, y'), Then(z, z'))
  {
  }

  lemma {:induction false} NameTri(s: string, t: string, u: string)
    ensures Tri(CmpName(s, t), CmpName(t, u), CmpName(s, u))
  {
    if s != [] && t != [] && u != [] { NameTri(s[1..], t[1..], u[1..]); }
  }

  lemma SameKind(a: Expr, b: Expr)
    requires KindRank(a) == KindRank(b)
    ensures a.Read? == b.Read? && NumKids(a) == NumKids(b)
    ensures a.Binary? == b.Binary? && a.Unary? == b.Unary? && a.Constant? == b.Constant? && a.Select? == b.Select?
    ensures a.Binary? ==> a.op == b.op
    ensures a.Unary? && Attributes(a) == Attributes(b) ==> a.uop == b.uop
  {
  }

  lemma {:induction false} CmpTri(h: Hash, a: Expr, b: Expr, c: Expr)
    ensures Tri(Cmp(h, a, b), Cmp(h, b, c), Cmp(h, a, c))
    decreases a, 4
  {
    if KindRank(a) == KindRank(b) == KindRank(c) {
      SameKind(a, b);
      SameKind(b, c);
      KidsTri(h, a, b, c, 0);
      ContentsTri(h, a, b, c);
      hide CmpContents, CmpKids, Attributes, NumKids;
      ThenTri(CmpContents(h, a, b), CmpContents(h, b, c), CmpContents(h, a, c),
        CmpKids(h, a, b, 0), CmpKids(h, b, c, 0), CmpKids(h, a, c, 0));
    }
  }

  lemma {:induction false} ContentsTri(h: Hash, a: Expr, b: Expr, c: Expr)
    requires a.Read? == b.Read? == c.Read?
    ensures Tri(CmpContents(h, a, b), CmpContents(h, b, c), CmpContents(h, a, c))
    decreases a, 0
  {
    if a.Read? { ListTri(h, a.root, a.updates, b.root, b.updates, c.root, c.updates); }
  }

  lemma {:induction false} KidsTri(h: Hash, a: Expr, b: Expr, c: Expr, i: nat)
    requires NumKids(a) == NumKids(b) == NumKids(c)
    ensures Tri(CmpKids(h, a, b, i), CmpKids(h, b, c, i), CmpKids(h, a, c, i))
    decreases a, if i < 3 then 3 - i else 0
  {
    if i < NumKids(a) {
      CmpTri(h, Kid(a, i), Kid(b, i), Kid(c, i));
      KidsTri(h, a, b, c, i + 1);
      hide Cmp;
    }
  }

  lemma {:induction false} ListTri(h: Hash, ra: Array, ua: Updates, rb: Array, ub: Updates, rc: Array, uc: Updates)
    ensures Tri(CmpList(h, ra, ua, rb, ub), CmpList(h, rb, ub, rc, uc), CmpList(h, ra, ua, rc, uc))
    decreases ua, 1
  {
    NameTri(ra.name, rb.name, rc.name);
    var la, lb, lc := UpdatesLength(ua), UpdatesLength(ub), UpdatesLength(uc);
    if la == lb == lc { UpdatesTri(h, ua, ub, uc); }
  }

  lemma {:induction false} UpdatesTri(h: Hash, u: Updates, v: Updates, w: Updates)
    requires UpdatesLength(u) == UpdatesLength(v) == UpdatesLength(w)
    ensures Tri(CmpUpdates(h, u, v), CmpUpdates(h, v, w), CmpUpdates(h, u, w))
    decreases u, 0
  {
    if u.Update? {
      CmpTri(h, u.index, v.index, w.index);
      CmpTri(h, u.value, v.value, w.value);
      UpdatesTri(h, u.next, v.next, w.next);
      hide Cmp;
    }
  }

  // ----- zero exactly on equality -----

  /** `arrays` says which array object lives at an address; the expression mentions no other. */
  predicate Grounded(arrays: nat -> Array, e: Expr) {
    match e
    case Constant(_, _) => true
    case Read(root, u, i) => arrays(root.id) == root && GroundedUpdates(arrays, u) && Grounded(arrays, i)
    case Select(c, t, f) => Grounded(arrays, c) && Grounded(arrays, t) && Grounded(arrays, f)
    case Unary(_, src) => Grounded(arrays, src)
    case Binary(_, l, r) => Grounded(arrays, l) && Grounded(arrays, r)
  }

  predicate GroundedUpdates(arrays: nat -> Array, u: Updates) {
    match u
    case NoUpdate => true
    case Update(next, i, v) => GroundedUpdates(arrays, next) && Grounded(arrays, i) && Grounded(arrays, v)
  }

  lemma {:induction false} CmpSelf(h: Hash, a: Expr)
    ensures Cmp(h, a, a) == 0
  {
    CmpFlip(h, a, a);
  }

  lemma {:induction false} CmpZero(h: Hash, arrays: nat -> Array, a: Expr, b: Expr)
    requires Grounded(arrays, a) && Grounded(arrays, b)
    ensures Cmp(h, a, b) == 0 <==> a == b
    decreases a
  {
    CmpSelf(h, a);
    if Cmp(h, a, b) == 0 {
      SameKind(a, b);
      hide CmpContents, CmpKids, KindRank;
      match a {
        case Constant(_, _) => ContentsZero(h, a, b);
        case Read(_, _, _) =>
          KidZero(h, a, b, 0);
          CmpZero(h, arrays, a.index, b.index);
          ReadZero(h, arrays, a, b);
        case Select(_, _, _) =>
          KidZero(h, a, b, 0); KidZero(h, a, b, 1); KidZero(h, a, b, 2);
          CmpZero(h, arrays, a.cond, b.cond);
          CmpZero(h, arrays, a.onTrue, b.onTrue);
          CmpZero(h, arrays, a.onFalse, b.onFalse);
        case Unary(_, _) =>
          KidZero(h, a, b, 0);
          ContentsZero(h, a, b);
          CmpZero(h, arrays, a.src, b.src);
        case Binary(_, _, _) =>
          KidZero(h, a, b, 0); KidZero(h, a, b, 1);
          CmpZero(h, arrays, a.left, b.left);
          CmpZero(h, arrays, a.right, b.right);
      }
    }
  }

  lemma {:induction false} KidZero(h: Hash, a: Expr, b: Expr, i: nat)
    requires CmpKids(h, a, b, 0) == 0 && i < NumKids(a) == NumKids(b)
    ensures Cmp(h, Kid(a, i), Kid(b, i)) == 0 && CmpKids(h, a, b, i + 1) == 0
  {
    if i > 0 { KidZero(h, a, b, i - 1); }
    assert CmpKids(h, a, b, i) == Then(Cmp(h, Kid(a, i), Kid(b, i)), CmpKids(h, a, b, i + 1));
    hide Cmp, CmpKids;
  }

  lemma ContentsZero(h: Hash, a: Expr, b: Expr)
    requires CmpContents(h, a, b) == 0 && !a.Read?
    ensures Attributes(a) == Attributes(b)
  {
  }

  lemma {:induction false} ReadZero(h: Hash, arrays: nat -> Array, a: Expr, b: Expr)
    requires a.Read? && b.Read? && Grounded(arrays, a) && Grounded(arrays, b) && CmpContents(h, a, b) == 0
    ensures a.root == b.root && a.updates == b.updates
    decreases a, 0
  {
    UpdatesZero(h, arrays, a.updates, b.updates);
  }

  lemma {:induction false} UpdatesZero(h: Hash, arrays: nat -> Array, u: Updates, v: Updates)
    requires GroundedUpdates(arrays, u) && GroundedUpdates(arrays, v)
    requires UpdatesLength(u) == UpdatesLength(v) && CmpUpdates(h, u, v) == 0
    ensures u == v
    decreases u, 0
  {
    if u.Update? {
      CmpZero(h, arrays, u.index, v.index);
      CmpZero(h, arrays, u.value, v.value);
      UpdatesZero(h, arrays, u.next, v.next);
    }
  }

  // ----- the comparison as it runs -----

  /** Expressions and update nodes as objects at addresses; equal addresses are the same object. */
  datatype Store = Store(
    expr: nat -> Expr, kid: (nat, nat) -> nat, head: nat -> nat,
    upd: nat -> Updates, next: nat -> nat, index: nat -> nat, value: nat -> nat)

  /** The pointers of every object lead to objects that stand for its parts. */
  ghost predicate Coherent(s: Store) {
    && (forall a: nat, i: nat :: i < NumKids(s.expr(a)) ==> s.expr(s.kid(a, i)) == Kid(s.expr(a), i))
    && (forall a :: s.expr(a).Read? ==> s.upd(s.head(a)) == s.expr(a).updates)
    && (forall n :: s.upd(n).Update? ==>
      && s.upd(s.next(n)) == s.upd(n).next
      && s.expr(s.index(n)) == s.upd(n).index && s.expr(s.value(n)) == s.upd(n).value)
  }

  function Ordered(a: nat, b: nat): (nat, nat) {
    if a < b then (a, b) else (b, a)
  }

  /** The one static comparison object: its memo is shared by every comparison under way. */
  class Comparer {
    const store: Store
    const hash: Hash
    var equivs: set<(nat, nat)>

    constructor (store: Store, hash: Hash)
      requires Coherent(store)
      ensures Valid() && this.store == store && this.hash == hash
    {
      this.store, this.hash, this.equivs := store, hash, {};
    }

    /** A remembered pair is equal: what re-entrant calls clear, or add, keeps that. */
    ghost predicate Valid()
      reads this
    {
      Coherent(store) && forall p :: p in equivs ==> Cmp(hash, store.expr(p.0), store.expr(p.1)) == 0
    }

    method CompareFresh(a: nat, b: nat) returns (r: int)
      requires Valid()
      modifies this
      ensures Valid() && equivs == {} && r == Cmp(hash, store.expr(a), store.expr(b))
      decreases store.expr(a), 6
    {
      r := CompareMemo(a, b);
      equivs := {};
    }

    method CompareMemo(a: nat, b: nat) returns (r: int)
      requires Valid()
      modifies this
      ensures Valid() && r == Cmp(hash, store.expr(a), store.expr(b))
      decreases store.expr(a), 5
    {
      hide CmpContents, CmpKids, KindRank, Attributes;
      ghost var x, y := store.expr(a), store.expr(b);
      if a == b { CmpSelf(hash, x); return 0; }
      CmpFlip(hash, x, y);
      if Ordered(a, b) in equivs { return 0; }
      if KindRank(store.expr(a)) != KindRank(store.expr(b)) {
        return if KindRank(store.expr(a)) < KindRank(store.expr(b)) then -1 else 1;
      }
      if hash(store.expr(a)) != hash(store.expr(b)) {
        return if hash(store.expr(a)) < hash(store.expr(b)) then -1 else 1;
      }
      SameKind(x, y);
      r := CompareContents(a, b);
      if r != 0 { return; }
      r := CompareKids(a, b);
      if r != 0 { return; }
      assert Cmp(hash, y, x) == 0;
      equivs := equivs + {Ordered(a, b)};
    }

    method CompareKids(a: nat, b: nat) returns (r: int)
      requires Valid() && NumKids(store.expr(a)) == NumKids(store.expr(b))
      modifies this
      ensures Valid() && r == CmpKids(hash, store.expr(a), store.expr(b), 0)
      decreases store.expr(a), 4
    {
      hide Cmp;
      ghost var x, y := store.expr(a), store.expr(b);
      var n := NumKids(store.expr(a));
      for i := 0 to n
        invariant Valid() && CmpKids(hash, x, y, 0) == CmpKids(hash, x, y, i)
      {
        assert CmpKids(hash, x, y, i) == Then(Cmp(hash, Kid(x, i), Kid(y, i)), CmpKids(hash, x, y, i + 1));
        r := CompareMemo(store.kid(a, i), store.kid(b, i));
        if r != 0 { return; }
      }
      r := 0;
    }

    method CompareContents(a: nat, b: nat) returns (r: int)
      requires Valid() && store.expr(a).Read? == store.expr(b).Read?
      modifies this
      ensures Valid() && r == CmpContents(hash, store.expr(a), store.expr(b))
      decreases store.expr(a), 3
    {
      hide Cmp, CmpUpdates;
      var x, y := store.expr(a), store.expr(b);
      if !x.Read? {
        var p, q := Attributes(x), Attributes(y);
        if p.0 != q.0 { return if p.0 < q.0 then -1 else 1; }
        return if p.1 == q.1 then 0 else if p.1 < q.1 then -1 else 1;
      }
      if x.root.name != y.root.name {
        NameZero(x.root.name, y.root.name);
        return if CmpName(x.root.name, y.root.name) < 0 then -1 else 1;
      }
      NameZero(x.root.name, y.root.name);
      if x.root.id != y.root.id { return if x.root.id < y.root.id then -1 else 1; }
      if UpdatesLength(x.updates) < UpdatesLength(y.updates) { return -1; }
      if UpdatesLength(x.updates) > UpdatesLength(y.updates) { return 1; }
      r := CompareNodes(store.head(a), store.head(b), x);
    }

    /** Walks two update chains of equal length, stopping where they become the same object. */
    method CompareNodes(head: nat, head': nat, ghost read: Expr) returns (r: int)
      requires Valid() && UpdatesLength(store.upd(head)) == UpdatesLength(store.upd(head'))
      requires read.Read? && store.upd(head) == read.updates
      modifies this
      ensures Valid() && r == CmpUpdates(hash, store.upd(head), store.upd(head'))
      decreases read, 2
    {
      hide Cmp;
      var an, bn := head, head';
      while store.upd(an).Update? && store.upd(bn).Update?
        invariant Valid() && UpdatesLength(store.upd(an)) == UpdatesLength(store.upd(bn))
        invariant store.upd(an) == read.updates || store.upd(an) < read.updates
        invariant CmpUpdates(hash, store.upd(head), store.upd(head')) == CmpUpdates(hash, store.upd(an), store.upd(bn))
        decreases store.upd(an)
      {
        if an == bn {
          UpdatesFlip(hash, store.upd(an), store.upd(an));
          return 0;
        }
        r := CompareFresh(store.index(an), store.index(bn));
        if r != 0 { return; }
        r := CompareFresh(store.value(an), store.value(bn));
        if r != 0 { return; }
        an, bn := store.next(an), store.next(bn);
      }
      assert store.upd(an).NoUpdate? && store.upd(bn).NoUpdate?;
      r := 0;
    }
  }

  lemma {:induction false} NameZero(s: string, t: string)
    ensures CmpName(s, t) == 0 <==> s == t
    ensures -1 <= CmpName(s, t) <= 1
  {
    if s != [] && t != [] {
      NameZero(s[1..], t[1..]);
      assert s == [s[0]] + s[1..] && t == [t[0]] + t[1..];
    }
  }
}
