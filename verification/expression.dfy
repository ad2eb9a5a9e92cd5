/**
 * The expression tree engine: a binary tree of operation nodes, each of which
 * knows the path of branch labels that leads to it from the root; addressing
 * and replacement by path; the recursive evaluator; and the edits the UI makes
 * (retype a node, set a constant, point a variable reference elsewhere),
 * stated as functions from the old tree to the new one.
 */
module Expression {
  import opened Wrappers
  import opened Registry

  /** A branch label: `operandA` (left) or `operandB` (right). */
  datatype Side = OperandA | OperandB

  type Path = seq<Side>

  /** The `type` tag of a node. */
  datatype OpType = NoopType | ConstantType | VariableType | AndType | OrType

  datatype Connective = And | Or

  /**
   * An operation node. Every node carries its `id` and its `path`; the fields
   * the source keeps on every node but only reads for some kinds (`value`,
   * `operandA`, `operandB`) are kept only where they mean something.
   */
  datatype Op =
    | Noop(id: int, path: Path)
    | Constant(id: int, path: Path, value: bool)
    | VariableRef(id: int, path: Path, variableId: int)
    | Binary(id: int, path: Path, connective: Connective, operandA: Op, operandB: Op)
  {
    function Kind(): OpType {
      match this
      case Noop(_, _) => NoopType
      case Constant(_, _, _) => ConstantType
      case VariableRef(_, _, _) => VariableType
      case Binary(_, _, c, _, _) => if c == And then AndType else OrType
    }
  }

  /** What can go wrong with an edit command. */
  datatype Error =
    | NotFound          // the path does not lead to a node
    | InvalidOperation  // the node at the path is not of the kind the edit needs
    | EmptyRegistry     // a variable reference was asked for while no variable exists

  /** The node reached from `t` by following `p`, if the tree has one there. */
  function At(t: Op, p: Path): Option<Op>
    decreases |p|
  {
    if p == [] then Some(t)
    else if t.Binary? then At(if p[0] == OperandA then t.operandA else t.operandB, p[1..])
    else None
  }

  /** `t` with the node at `p` replaced by `n`; `t` itself when `p` leads nowhere. */
  function ReplaceAt(t: Op, p: Path, n: Op): Op
    decreases |p|
  {
    if p == [] then n
    else if t.Binary? then
      if p[0] == OperandA then t.(operandA := ReplaceAt(t.operandA, p[1..], n))
      else t.(operandB := ReplaceAt(t.operandB, p[1..], n))
    else t
  }

  /**
   * Path consistency: the node sits at `p` and each child's path is its
   * parent's path with one label appended.
   */
  predicate WellPathed(t: Op, p: Path) {
    t.path == p &&
    (t.Binary? ==> WellPathed(t.operandA, p + [OperandA]) && WellPathed(t.operandB, p + [OperandB]))
  }

  /** The recursive evaluator. A noop is never true, and a true reference names a declared variable. */
  function Evaluate(t: Op, vars: seq<Variable>): (r: bool)
    ensures r ==> !t.Noop?
    ensures r && t.VariableRef? ==> Declares(vars, t.variableId)
  {
    match t
    case Noop(_, _) => false
    case Constant(_, _, v) => v
    case VariableRef(_, _, x) => Resolve(vars, x)
    case Binary(_, _, c, a, b) =>
      if c == And then Evaluate(a, vars) && Evaluate(b, vars)
      else Evaluate(a, vars) || Evaluate(b, vars)
  }

  // ---------------------------------------------------------------------------
  // Addressing by path

  /** Every node of a well-pathed tree records the path that reaches it. */
  lemma {:induction false} AtWellPathed(t: Op, base: Path, p: Path)
    requires WellPathed(t, base) && At(t, p).Some?
    ensures WellPathed(At(t, p).value, base + p)
    decreases |p|
  {
    if p != [] {
      var c := if p[0] == OperandA then t.operandA else t.operandB;
      assert base + [p[0]] + p[1..] == base + p;
      AtWellPathed(c, base + [p[0]], p[1..]);
    } else {
      assert base + p == base;
    }
  }

  /** After a replacement, what lies below `p` is exactly what lies below `n`. */
  lemma {:induction false} ReplaceAtBelow(t: Op, p: Path, n: Op, r: Path)
    requires At(t, p).Some?
    ensures At(ReplaceAt(t, p, n), p + r) == At(n, r)
    decreases |p|
  {
    if p == [] {
      assert p + r == r;
    } else {
      assert (p + r)[0] == p[0] && (p + r)[1..] == p[1..] + r;
      if p[0] == OperandA {
        ReplaceAtBelow(t.operandA, p[1..], n, r);
      } else {
        ReplaceAtBelow(t.operandB, p[1..], n, r);
      }
    }
  }

  /** A replacement at `p` leaves every node at a path disjoint from `p` as it was. */
  lemma {:induction false} ReplaceAtDisjoint(t: Op, p: Path, n: Op, q: Path)
    requires !(p <= q) && !(q <= p)
    ensures At(ReplaceAt(t, p, n), q) == At(t, q)
    decreases |p|
  {
    assert p != [] && q != [];
    if t.Binary? && p[0] == q[0] {
      assert !(p[1..] <= q[1..]) && !(q[1..] <= p[1..]);
      if p[0] == OperandA {
        ReplaceAtDisjoint(t.operandA, p[1..], n, q[1..]);
      } else {
        ReplaceAtDisjoint(t.operandB, p[1..], n, q[1..]);
      }
    }
  }

  /** An ancestor of the replaced node keeps its kind, id and path. */
  lemma {:induction false} ReplaceAtAncestor(t: Op, p: Path, n: Op, q: Path)
    requires At(t, p).Some? && q < p
    ensures At(ReplaceAt(t, p, n), q).Some? && At(t, q).Some?
    ensures At(ReplaceAt(t, p, n), q).value.Kind() == At(t, q).value.Kind()
    ensures At(ReplaceAt(t, p, n), q).value.id == At(t, q).value.id
    ensures At(ReplaceAt(t, p, n), q).value.path == At(t, q).value.path
    ensures At(t, q).value.Binary?
    decreases |p|
  {
    assert p != [];
    if q != [] {
      assert q[0] == p[0] && q[1..] < p[1..];
      if p[0] == OperandA {
        ReplaceAtAncestor(t.operandA, p[1..], n, q[1..]);
      } else {
        ReplaceAtAncestor(t.operandB, p[1..], n, q[1..]);
      }
    }
  }

  /** Writing twice at the same path is the same as writing the second node once. */
  lemma {:induction false} ReplaceAtTwice(t: Op, p: Path, n1: Op, n2: Op)
    requires At(t, p).Some?
    ensures ReplaceAt(ReplaceAt(t, p, n1), p, n2) == ReplaceAt(t, p, n2)
    decreases |p|
  {
    if p != [] {
      if p[0] == OperandA {
        ReplaceAtTwice(t.operandA, p[1..], n1, n2);
      } else {
        ReplaceAtTwice(t.operandB, p[1..], n1, n2);
      }
    }
  }

  /** Replacing a node by one that is well-pathed at the same place keeps the whole tree well-pathed. */
  lemma {:induction false} ReplaceAtWellPathed(t: Op, base: Path, p: Path, n: Op)
    requires WellPathed(t, base) && At(t, p).Some? && WellPathed(n, base + p)
    ensures WellPathed(ReplaceAt(t, p, n), base)
    decreases |p|
  {
    if p == [] {
      assert base + p == base;
    } else {
      assert base + [p[0]] + p[1..] == base + p;
      if p[0] == OperandA {
        ReplaceAtWellPathed(t.operandA, base + [OperandA], p[1..], n);
      } else {
        ReplaceAtWellPathed(t.operandB, base + [OperandB], p[1..], n);
      }
    }
  }

  // ---------------------------------------------------------------------------
  // The evaluator

  /**
   * Evaluation is compositional: swapping a subtree for one with the same
   * value leaves the value of the whole tree unchanged.
   */
  lemma {:induction false} EvaluateReplaceAt(t: Op, p: Path, n: Op, vars: seq<Variable>)
    requires At(t, p).Some? && Evaluate(n, vars) == Evaluate(At(t, p).value, vars)
    ensures Evaluate(ReplaceAt(t, p, n), vars) == Evaluate(t, vars)
    decreases |p|
  {
    if p != [] {
      if p[0] == OperandA {
        EvaluateReplaceAt(t.operandA, p[1..], n, vars);
      } else {
        EvaluateReplaceAt(t.operandB, p[1..], n, vars);
      }
    }
  }

  /**
   * There is no negation node, so evaluation is monotone in the variables:
   * a registry in which every id reads at least as true gives a result at
   * least as true.
   */
  lemma {:induction false} EvaluateMonotone(t: Op, v1: seq<Variable>, v2: seq<Variable>)
    requires forall x :: Resolve(v1, x) ==> Resolve(v2, x)
    ensures Evaluate(t, v1) ==> Evaluate(t, v2)
  {
    if t.Binary? {
      EvaluateMonotone(t.operandA, v1, v2);
      EvaluateMonotone(t.operandB, v1, v2);
    }
  }

  /** Evaluation reads the registry only through Resolve. */
  lemma {:induction false} EvaluateSameResolve(t: Op, v1: seq<Variable>, v2: seq<Variable>)
    requires forall x :: Resolve(v1, x) == Resolve(v2, x)
    ensures Evaluate(t, v1) == Evaluate(t, v2)
  {
    EvaluateMonotone(t, v1, v2);
    EvaluateMonotone(t, v2, v1);
  }

  /** Adding a variable (value false, appended at the end) changes the value of no tree. */
  lemma {:induction false} EvaluateAfterAppend(t: Op, vars: seq<Variable>, id: int, name: string)
    ensures Evaluate(t, vars + [Variable(id, name, false)]) == Evaluate(t, vars)
  {
    forall x ensures Resolve(vars + [Variable(id, name, false)], x) == Resolve(vars, x) {
      ResolveAfterAppend(vars, id, name, x);
    }
    EvaluateSameResolve(t, vars + [Variable(id, name, false)], vars);
  }

  /** Renaming a variable changes the value of no tree. */
  lemma {:induction false} EvaluateAfterRename(t: Op, vars: seq<Variable>, id: int, name: string)
    ensures Evaluate(t, UpdateWhere(vars, id, SetName(name))) == Evaluate(t, vars)
  {
    forall x ensures Resolve(UpdateWhere(vars, id, SetName(name)), x) == Resolve(vars, x) {
      ResolveAfterRename(vars, id, name, x);
    }
    EvaluateSameResolve(t, UpdateWhere(vars, id, SetName(name)), vars);
  }

  /**
   * A reference to a variable reads the value it was last set to, before and
   * after the toggle, and false when no variable carries its id.
   */
  lemma EvaluateReferenceAfterSetValue(vars: seq<Variable>, id: int, b: bool, nodeId: int, p: Path)
    ensures Evaluate(VariableRef(nodeId, p, id), UpdateWhere(vars, id, SetValue(b))) == (Declares(vars, id) && b)
  {
    ResolveAfterSetValue(vars, id, b, id);
  }

  // ---------------------------------------------------------------------------
  // Edits

  /**
   * The node the type selector stores in place of `cur`: it keeps `cur`'s id
   * and path, takes the chosen type and the default value for it (false for
   * a constant, the first variable's id for a reference) and, for and/or,
   * two fresh noop children numbered `nextId` and `nextId + 1` whose paths
   * extend `cur`'s path. Asking for a reference with no variable is an error.
   */
  function Retyped(cur: Op, kind: OpType, vars: seq<Variable>, nextId: int): (r: Result<Op, Error>)
    ensures r.Failure? <==> kind == VariableType && vars == []
    ensures r.Failure? ==> r.error == EmptyRegistry
    ensures r.Success? ==> r.value.Kind() == kind && r.value.id == cur.id && r.value.path == cur.path
    ensures r.Success? && r.value.Binary? ==>
      r.value.operandA == Noop(nextId, cur.path + [OperandA]) &&
      r.value.operandB == Noop(nextId + 1, cur.path + [OperandB])
    ensures r.Success? && kind == ConstantType ==> !r.value.value
    ensures r.Success? && kind == VariableType ==> r.value.variableId == vars[0].id
    ensures r.Success? ==> WellPathed(r.value, cur.path)
  {
    match kind
    case NoopType => Success(Noop(cur.id, cur.path))
    case ConstantType => Success(Constant(cur.id, cur.path, false))
    case VariableType =>
      if vars == [] then Failure(EmptyRegistry)
      else Success(VariableRef(cur.id, cur.path, vars[0].id))
    case AndType =>
      Success(Binary(cur.id, cur.path, And,
        Noop(nextId, cur.path + [OperandA]), Noop(nextId + 1, cur.path + [OperandB])))
    case OrType =>
      Success(Binary(cur.id, cur.path, Or,
        Noop(nextId, cur.path + [OperandA]), Noop(nextId + 1, cur.path + [OperandB])))
  }

  /** A freshly retyped node reads false, except a reference, which reads the first variable. */
  lemma RetypedEvaluates(cur: Op, kind: OpType, vars: seq<Variable>, nextId: int)
    requires Retyped(cur, kind, vars, nextId).Success?
    ensures Evaluate(Retyped(cur, kind, vars, nextId).value, vars) == (kind == VariableType && vars[0].value)
  {
  }

  /** Retype the node at `p` (the type selector's change handler). */
  function RetypeIn(t: Op, p: Path, kind: OpType, vars: seq<Variable>, nextId: int): (r: Result<Op, Error>)
    ensures r.Failure? <==> At(t, p).None? || (kind == VariableType && vars == [])
    ensures r.Failure? ==> r.error == (if At(t, p).None? then NotFound else EmptyRegistry)
  {
    match At(t, p)
    case None => Failure(NotFound)
    case Some(cur) =>
      match Retyped(cur, kind, vars, nextId)
      case Failure(e) => Failure(e)
      case Success(n) => Success(ReplaceAt(t, p, n))
  }

  /**
   * Retyping at `p` puts there a node of the chosen type that keeps the old
   * node's id and path, with fresh noop children for and/or; the tree stays
   * well-pathed; ancestors keep kind, id and path; nodes at paths disjoint
   * from `p` are unchanged. It fails only for a missing node or a reference
   * requested with no variable.
   */
  lemma RetypeEffect(t: Op, p: Path, kind: OpType, vars: seq<Variable>, nextId: int)
    requires WellPathed(t, [])
    ensures RetypeIn(t, p, kind, vars, nextId).Failure? <==>
      At(t, p).None? || (kind == VariableType && vars == [])
    ensures RetypeIn(t, p, kind, vars, nextId).Success? ==>
      var t' := RetypeIn(t, p, kind, vars, nextId).value;
      At(t', p).Some? && WellPathed(t', []) &&
      var n := At(t', p).value;
      n.Kind() == kind && n.id == At(t, p).value.id && n.path == p &&
      (n.Binary? ==> n.operandA == Noop(nextId, p + [OperandA]) && n.operandB == Noop(nextId + 1, p + [OperandB]))
    ensures RetypeIn(t, p, kind, vars, nextId).Success? ==>
      forall q :: !(p <= q) && !(q <= p) ==> At(RetypeIn(t, p, kind, vars, nextId).value, q) == At(t, q)
    ensures RetypeIn(t, p, kind, vars, nextId).Success? ==>
      forall q :: q < p ==>
        At(RetypeIn(t, p, kind, vars, nextId).value, q).Some? && At(t, q).Some? &&
        At(RetypeIn(t, p, kind, vars, nextId).value, q).value.Kind() == At(t, q).value.Kind() &&
        At(RetypeIn(t, p, kind, vars, nextId).value, q).value.id == At(t, q).value.id &&
        At(RetypeIn(t, p, kind, vars, nextId).value, q).value.path == At(t, q).value.path
  {
    if At(t, p).Some? && !(kind == VariableType && vars == []) {
      var cur := At(t, p).value;
      var n := Retyped(cur, kind, vars, nextId).value;
      AtWellPathed(t, [], p);
      assert [] + p == p;
      ReplaceAtBelow(t, p, n, []);
      assert p + [] == p;
      ReplaceAtWellPathed(t, [], p, n);
      forall q | !(p <= q) && !(q <= p) ensures At(ReplaceAt(t, p, n), q) == At(t, q) {
        ReplaceAtDisjoint(t, p, n, q);
      }
      forall q | q < p
        ensures At(ReplaceAt(t, p, n), q).Some? && At(t, q).Some? &&
          At(ReplaceAt(t, p, n), q).value.Kind() == At(t, q).value.Kind() &&
          At(ReplaceAt(t, p, n), q).value.id == At(t, q).value.id &&
          At(ReplaceAt(t, p, n), q).value.path == At(t, q).value.path
      {
        ReplaceAtAncestor(t, p, n, q);
      }
    }
  }

  /** Set the value of the constant at `p` (the constant selector's change handler). */
  function SetConstantIn(t: Op, p: Path, b: bool): (r: Result<Op, Error>)
    ensures r.Failure? <==> At(t, p).None? || !At(t, p).value.Constant?
    ensures r.Failure? ==> r.error == (if At(t, p).None? then NotFound else InvalidOperation)
  {
    match At(t, p)
    case None => Failure(NotFound)
    case Some(cur) =>
      if cur.Constant? then Success(ReplaceAt(t, p, cur.(value := b)))
      else Failure(InvalidOperation)
  }

  /** Point the variable reference at `p` to variable `x` (the variable selector's change handler). */
  function SetVariableRefIn(t: Op, p: Path, x: int): (r: Result<Op, Error>)
    ensures r.Failure? <==> At(t, p).None? || !At(t, p).value.VariableRef?
    ensures r.Failure? ==> r.error == (if At(t, p).None? then NotFound else InvalidOperation)
  {
    match At(t, p)
    case None => Failure(NotFound)
    case Some(cur) =>
      if cur.VariableRef? then Success(ReplaceAt(t, p, cur.(variableId := x)))
      else Failure(InvalidOperation)
  }

  /**
   * A leaf edit succeeds exactly on a node of the right kind; it then changes
   * that node's stored value only (id, path and kind kept), keeps the tree
   * well-pathed and leaves the nodes at disjoint paths unchanged.
   */
  lemma SetConstantEffect(t: Op, p: Path, b: bool)
    requires WellPathed(t, [])
    ensures SetConstantIn(t, p, b).Success? <==> At(t, p).Some? && At(t, p).value.Constant?
    ensures SetConstantIn(t, p, b).Success? ==>
      var t' := SetConstantIn(t, p, b).value;
      At(t', p) == Some(Constant(At(t, p).value.id, p, b)) && WellPathed(t', []) &&
      forall q :: !(p <= q) && !(q <= p) ==> At(t', q) == At(t, q)
  {
    if At(t, p).Some? && At(t, p).value.Constant? {
      var n := At(t, p).value.(value := b);
      AtWellPathed(t, [], p);
      assert [] + p == p;
      ReplaceAtBelow(t, p, n, []);
      assert p + [] == p;
      ReplaceAtWellPathed(t, [], p, n);
      forall q | !(p <= q) && !(q <= p) ensures At(ReplaceAt(t, p, n), q) == At(t, q) {
        ReplaceAtDisjoint(t, p, n, q);
      }
    }
  }

  lemma SetVariableRefEffect(t: Op, p: Path, x: int)
    requires WellPathed(t, [])
    ensures SetVariableRefIn(t, p, x).Success? <==> At(t, p).Some? && At(t, p).value.VariableRef?
    ensures SetVariableRefIn(t, p, x).Success? ==>
      var t' := SetVariableRefIn(t, p, x).value;
      At(t', p) == Some(VariableRef(At(t, p).value.id, p, x)) && WellPathed(t', []) &&
      forall q :: !(p <= q) && !(q <= p) ==> At(t', q) == At(t, q)
  {
    if At(t, p).Some? && At(t, p).value.VariableRef? {
      var n := At(t, p).value.(variableId := x);
      AtWellPathed(t, [], p);
      assert [] + p == p;
      ReplaceAtBelow(t, p, n, []);
      assert p + [] == p;
      ReplaceAtWellPathed(t, [], p, n);
      forall q | !(p <= q) && !(q <= p) ensures At(ReplaceAt(t, p, n), q) == At(t, q) {
        ReplaceAtDisjoint(t, p, n, q);
      }
    }
  }

  /** Setting a constant twice in a row to the same value is the same as setting it once. */
  lemma SetConstantIdempotent(t: Op, p: Path, b: bool)
    requires SetConstantIn(t, p, b).Success?
    ensures SetConstantIn(SetConstantIn(t, p, b).value, p, b) == SetConstantIn(t, p, b)
  {
    var n := At(t, p).value.(value := b);
    ReplaceAtBelow(t, p, n, []);
    assert p + [] == p;
    ReplaceAtTwice(t, p, n, n);
  }

  /**
   * Retyping a node to a constant and then setting that constant to `b`
   * makes the node at `p` evaluate to `b`.
   */
  lemma RetypeThenSetConstant(t: Op, p: Path, vars: seq<Variable>, nextId: int, b: bool)
    requires At(t, p).Some?
    ensures RetypeIn(t, p, ConstantType, vars, nextId).Success?
    ensures SetConstantIn(RetypeIn(t, p, ConstantType, vars, nextId).value, p, b).Success?
    ensures At(SetConstantIn(RetypeIn(t, p, ConstantType, vars, nextId).value, p, b).value, p).Some?
    ensures Evaluate(At(SetConstantIn(RetypeIn(t, p, ConstantType, vars, nextId).value, p, b).value, p).value, vars) == b
  {
    var n := Retyped(At(t, p).value, ConstantType, vars, nextId).value;
    var t1 := ReplaceAt(t, p, n);
    ReplaceAtBelow(t, p, n, []);
    assert p + [] == p;
    var m := n.(value := b);
    ReplaceAtBelow(t1, p, m, []);
  }
}
