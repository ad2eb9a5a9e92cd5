/**
 * Store addressing as the component writes it: the path handed to the store
 * setter is cut to its first six labels. For nodes deeper than six labels the
 * update therefore lands on an ancestor. This module models that behaviour
 * and shows what it does to the tree; the rest of the model addresses nodes by
 * their full path (Expression.RetypeIn and the leaf setters).
 */
module Addressing {
  import opened Wrappers
  import opened Registry
  import opened Expression
  import Builder

  /** The number of path labels the store setter is given. */
  const MAX_STORE_DEPTH: nat := 6

  /** The store path for a node path: its first six labels. */
  function StorePath(p: Path): (r: Path)
    ensures r <= p && |r| <= MAX_STORE_DEPTH
    ensures |p| <= MAX_STORE_DEPTH ==> r == p
    ensures |p| > MAX_STORE_DEPTH ==> |r| == MAX_STORE_DEPTH
  {
    if |p| <= MAX_STORE_DEPTH then p else p[..MAX_STORE_DEPTH]
  }

  /**
   * The type selector's handler as written: the node rendered at `p` is
   * rebuilt, keeping its recorded path, and stored at the store path of that
   * recorded path.
   */
  function RetypeAsWritten(t: Op, p: Path, kind: OpType, vars: seq<Variable>, nextId: int): (r: Result<Op, Error>)
    ensures r.Failure? <==> At(t, p).None? || (kind == VariableType && vars == [])
  {
    match At(t, p)
    case None => Failure(NotFound)
    case Some(cur) =>
      match Retyped(cur, kind, vars, nextId)
      case Failure(e) => Failure(e)
      case Success(n) => Success(ReplaceAt(t, StorePath(cur.path), n))
  }

  /** In a well-pathed tree, up to six labels deep, the handler as written and the full-path retype agree. */
  lemma RetypeAsWrittenAgrees(t: Op, p: Path, kind: OpType, vars: seq<Variable>, nextId: int)
    requires WellPathed(t, []) && |p| <= MAX_STORE_DEPTH
    ensures RetypeAsWritten(t, p, kind, vars, nextId) == RetypeIn(t, p, kind, vars, nextId)
  {
    if At(t, p).Some? {
      AtWellPathed(t, [], p);
      assert [] + p == p;
    }
  }

  /**
   * Below six labels the handler as written breaks the tree: the ancestor six
   * labels down is overwritten by a node that records the deeper path, so the
   * tree is no longer well-pathed, and the node at `p` is not of the chosen
   * type (unless that type is noop).
   */
  lemma RetypeAsWrittenTooDeep(t: Op, p: Path, kind: OpType, vars: seq<Variable>, nextId: int)
    requires WellPathed(t, []) && At(t, p).Some? && |p| > MAX_STORE_DEPTH
    requires kind != VariableType || vars != []
    ensures RetypeAsWritten(t, p, kind, vars, nextId).Success?
    ensures At(RetypeAsWritten(t, p, kind, vars, nextId).value, StorePath(p)).Some?
    ensures At(RetypeAsWritten(t, p, kind, vars, nextId).value, StorePath(p)).value.path == p
    ensures !WellPathed(RetypeAsWritten(t, p, kind, vars, nextId).value, [])
    ensures kind != NoopType ==>
      var q := At(RetypeAsWritten(t, p, kind, vars, nextId).value, p);
      !(q.Some? && q.value.Kind() == kind)
  {
    var s := StorePath(p);
    var n := Retyped(At(t, p).value, kind, vars, nextId).value;
    var t' := ReplaceAt(t, s, n);
    AtWellPathed(t, [], p);
    assert [] + p == p;
    ReplaceAtAncestor(t, p, n, s);
    ReplaceAtBelow(t, s, n, []);
    assert s + [] == s;
    ReplaceAtBelow(t, s, n, p[|s|..]);
    assert s + p[|s|..] == p;
    if WellPathed(t', []) {
      AtWellPathed(t', [], s);
      assert false;
    }
  }

  /** A left spine of `k` and-nodes above a noop, rooted at `p`. */
  function Spine(k: nat, p: Path): (t: Op)
    ensures WellPathed(t, p)
    ensures At(t, seq(k, i => OperandA)).Some?
  {
    if k == 0 then Noop(0, p)
    else
      var t := Binary(0, p, And, Spine(k - 1, p + [OperandA]), Noop(0, p + [OperandB]));
      assert seq(k, i => OperandA)[1..] == seq(k - 1, i => OperandA);
      t
  }

  /**
   * The situation arises in the running component: a tree seven labels deep
   * is well-pathed, and retyping its deepest node breaks path consistency.
   */
  lemma DeepRetypeExample()
    ensures var t, p := Spine(7, []), seq(7, i => OperandA);
      RetypeAsWritten(t, p, AndType, [], 0).Success? &&
      !WellPathed(RetypeAsWritten(t, p, AndType, [], 0).value, [])
  {
    RetypeAsWrittenTooDeep(Spine(7, []), seq(7, i => OperandA), AndType, [], 0);
  }

  // ---------------------------------------------------------------------------
  // The leaf setters as written, in the states the handlers reach

  /**
   * What the handlers as written keep true of a tree whose root sits at
   * `base`: every node's recorded path has the same store path as its
   * position, and nothing but a noop lies more than six labels deep.
   */
  ghost predicate StoreConsistentAt(t: Op, base: Path) {
    forall w :: At(t, w).Some? ==>
      StorePath(At(t, w).value.path) == StorePath(base + w) &&
      (|base + w| > MAX_STORE_DEPTH ==> At(t, w).value.Noop?)
  }

  ghost predicate StoreConsistent(t: Op) {
    StoreConsistentAt(t, [])
  }

  lemma StoreConsistentNode(t: Op, q: Path)
    requires StoreConsistent(t) && At(t, q).Some?
    ensures StorePath(At(t, q).value.path) == StorePath(q)
    ensures |q| > MAX_STORE_DEPTH ==> At(t, q).value.Noop?
  {
    assert [] + q == q;
  }

  /** Writing a node that is store-consistent for its position keeps the whole tree store-consistent. */
  lemma ReplaceAtStoreConsistent(t: Op, s: Path, n: Op)
    requires StoreConsistent(t) && At(t, s).Some? && StoreConsistentAt(n, s)
    ensures StoreConsistent(ReplaceAt(t, s, n))
  {
    var t' := ReplaceAt(t, s, n);
    forall r | At(t', r).Some?
      ensures StorePath(At(t', r).value.path) == StorePath([] + r)
      ensures |[] + r| > MAX_STORE_DEPTH ==> At(t', r).value.Noop?
    {
      assert [] + r == r;
      if s <= r {
        var w := r[|s|..];
        assert s + w == r;
        ReplaceAtBelow(t, s, n, w);
      } else if r < s {
        ReplaceAtAncestor(t, s, n, r);
        StoreConsistentNode(t, r);
      } else {
        ReplaceAtDisjoint(t, s, n, r);
        StoreConsistentNode(t, r);
      }
    }
  }

  /** A node rebuilt by the type selector is store-consistent at the store path of its recorded path. */
  lemma RetypedStoreConsistent(cur: Op, kind: OpType, vars: seq<Variable>, nextId: int)
    requires Retyped(cur, kind, vars, nextId).Success?
    ensures StoreConsistentAt(Retyped(cur, kind, vars, nextId).value, StorePath(cur.path))
  {
    var n := Retyped(cur, kind, vars, nextId).value;
    var s := StorePath(cur.path);
    forall w | At(n, w).Some?
      ensures StorePath(At(n, w).value.path) == StorePath(s + w)
      ensures |s + w| > MAX_STORE_DEPTH ==> At(n, w).value.Noop?
    {
      if w == [] {
        assert s + w == s;
      } else {
        var x := w[0];
        assert n.Binary? && At(n, w) == At(if x == OperandA then n.operandA else n.operandB, w[1..]);
        assert w[1..] == [];
        assert w == [x];
        assert At(n, w).value.path == cur.path + [x];
        if |cur.path| >= MAX_STORE_DEPTH {
          assert (cur.path + [x])[..MAX_STORE_DEPTH] == cur.path[..MAX_STORE_DEPTH];
          assert (s + [x])[..MAX_STORE_DEPTH] == s;
        }
      }
    }
  }

  /** The type selector as written keeps the tree store-consistent, at any depth. */
  lemma RetypeAsWrittenStoreConsistent(t: Op, p: Path, kind: OpType, vars: seq<Variable>, nextId: int)
    requires StoreConsistent(t)
    ensures RetypeAsWritten(t, p, kind, vars, nextId).Success? ==>
      StoreConsistent(RetypeAsWritten(t, p, kind, vars, nextId).value)
  {
    if RetypeAsWritten(t, p, kind, vars, nextId).Success? {
      var cur := At(t, p).value;
      var s := StorePath(cur.path);
      StoreConsistentNode(t, p);
      if s != p {
        ReplaceAtAncestor(t, p, cur, s);
      }
      RetypedStoreConsistent(cur, kind, vars, nextId);
      ReplaceAtStoreConsistent(t, s, Retyped(cur, kind, vars, nextId).value);
    }
  }

  /**
   * The constant selector's handler as written: the value is stored at the
   * store path of the constant's recorded path, on the constant found there.
   * The last two failures stand for writes the target's type cannot hold;
   * they do not arise from a store-consistent tree.
   */
  function SetConstantAsWritten(t: Op, p: Path, b: bool): (r: Result<Op, Error>)
    ensures r.Failure? <== At(t, p).None? || !At(t, p).value.Constant?
  {
    match At(t, p)
    case None => Failure(NotFound)
    case Some(cur) =>
      if !cur.Constant? then Failure(InvalidOperation)
      else
        match At(t, StorePath(cur.path))
        case None => Failure(NotFound)
        case Some(target) =>
          if target.Constant? then Success(ReplaceAt(t, StorePath(cur.path), target.(value := b)))
          else Failure(InvalidOperation)
  }

  /** The variable selector's handler as written, in the same way. */
  function SetVariableRefAsWritten(t: Op, p: Path, x: int): (r: Result<Op, Error>)
    ensures r.Failure? <== At(t, p).None? || !At(t, p).value.VariableRef?
  {
    match At(t, p)
    case None => Failure(NotFound)
    case Some(cur) =>
      if !cur.VariableRef? then Failure(InvalidOperation)
      else
        match At(t, StorePath(cur.path))
        case None => Failure(NotFound)
        case Some(target) =>
          if target.VariableRef? then Success(ReplaceAt(t, StorePath(cur.path), target.(variableId := x)))
          else Failure(InvalidOperation)
  }

  /** A leaf that replaces a non-noop leaf and keeps its recorded path is store-consistent in its place. */
  lemma LeafStoreConsistent(t: Op, p: Path, n: Op)
    requires StoreConsistent(t) && At(t, p).Some? && !At(t, p).value.Noop?
    requires !n.Binary? && n.path == At(t, p).value.path
    ensures |p| <= MAX_STORE_DEPTH
    ensures StoreConsistentAt(n, p)
  {
    StoreConsistentNode(t, p);
    forall w | At(n, w).Some?
      ensures StorePath(At(n, w).value.path) == StorePath(p + w)
      ensures |p + w| > MAX_STORE_DEPTH ==> At(n, w).value.Noop?
    {
      assert w == [] && p + w == p;
    }
  }

  /**
   * In a store-consistent tree a constant lies at most six labels deep and
   * its store path is its own position, so the setter as written changes
   * exactly what the full-path setter does, and the tree stays
   * store-consistent.
   */
  lemma SetConstantAsWrittenAgrees(t: Op, p: Path, b: bool)
    requires StoreConsistent(t)
    ensures SetConstantAsWritten(t, p, b) == SetConstantIn(t, p, b)
    ensures SetConstantIn(t, p, b).Success? ==> StoreConsistent(SetConstantIn(t, p, b).value)
  {
    if At(t, p).Some? && At(t, p).value.Constant? {
      var cur := At(t, p).value;
      LeafStoreConsistent(t, p, cur.(value := b));
      assert StorePath(cur.path) == p;
      ReplaceAtStoreConsistent(t, p, cur.(value := b));
    }
  }

  lemma SetVariableRefAsWrittenAgrees(t: Op, p: Path, x: int)
    requires StoreConsistent(t)
    ensures SetVariableRefAsWritten(t, p, x) == SetVariableRefIn(t, p, x)
    ensures SetVariableRefIn(t, p, x).Success? ==> StoreConsistent(SetVariableRefIn(t, p, x).value)
  {
    if At(t, p).Some? && At(t, p).value.VariableRef? {
      var cur := At(t, p).value;
      LeafStoreConsistent(t, p, cur.(variableId := x));
      assert StorePath(cur.path) == p;
      ReplaceAtStoreConsistent(t, p, cur.(variableId := x));
    }
  }

  /** The number of labels on the longest path of a tree. */
  function Height(t: Op): nat {
    if t.Binary? then 1 + (var a, b := Height(t.operandA), Height(t.operandB); if a < b then b else a)
    else 0
  }

  lemma {:induction false} AtHeight(t: Op, q: Path)
    requires At(t, q).Some?
    ensures |q| <= Height(t)
    decreases |q|
  {
    if q != [] {
      AtHeight(if q[0] == OperandA then t.operandA else t.operandB, q[1..]);
    }
  }

  /** A well-pathed tree at most six labels high is store-consistent. */
  lemma ShallowStoreConsistent(t: Op)
    requires WellPathed(t, []) && Height(t) <= MAX_STORE_DEPTH
    ensures StoreConsistent(t)
  {
    forall q | At(t, q).Some?
      ensures StorePath(At(t, q).value.path) == StorePath([] + q)
      ensures |[] + q| > MAX_STORE_DEPTH ==> At(t, q).value.Noop?
    {
      AtWellPathed(t, [], q);
      AtHeight(t, q);
    }
  }

  /**
   * The component starts store-consistent, so (by the lemmas above) every
   * tree the handlers as written reach is store-consistent, and in all of
   * them the leaf setters as written write to the node they belong to.
   */
  lemma SeedStoreConsistent()
    ensures StoreConsistent(Builder.SeedTree())
  {
    assert Height(Builder.SeedTree()) == 2;
    ShallowStoreConsistent(Builder.SeedTree());
  }
}
