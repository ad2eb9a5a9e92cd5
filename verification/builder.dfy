/**
 * The builder component's state: the variable registry, the operation tree
 * and the id counter, updated in place by the UI's handlers.
 */
module Builder {
  import opened Wrappers
  import opened Registry
  import opened Expression

  /** The tree the component starts with: true AND (false OR true). */
  function SeedTree(): Op {
    Binary(1000, [], And,
      Constant(1001, [OperandA], true),
      Binary(1002, [OperandB], Or,
        Constant(1003, [OperandB, OperandA], false),
        Constant(1004, [OperandB, OperandB], true)))
  }

  function SeedVariables(): seq<Variable> {
    [Variable(10000, "var1", false), Variable(10001, "var2", true)]
  }

  class LogicStatementBuilder {
    var variables: seq<Variable>
    var operationTree: Op
    /** The id counter; in the source it is one module-level variable. */
    var incrementalId: int

    /** The tree keeps every node's path equal to its position. */
    ghost predicate Valid()
      reads this
    {
      WellPathed(operationTree, [])
    }

    constructor ()
      ensures Valid()
      ensures variables == SeedVariables() && operationTree == SeedTree() && incrementalId == 0
    {
      variables := SeedVariables();
      operationTree := SeedTree();
      incrementalId := 0;
    }

    /** Append a variable named `name`, value false, with the next id (pre-increment of the counter). */
    method AddVariable(name: string)
      requires Valid()
      modifies this
      ensures Valid()
      ensures incrementalId == old(incrementalId) + 1
      ensures variables == old(variables) + [Variable(incrementalId, name, false)]
      ensures operationTree == old(operationTree)
      ensures forall p :: At(operationTree, p).Some? ==>
        Evaluate(At(operationTree, p).value, variables) == Evaluate(At(operationTree, p).value, old(variables))
    {
      incrementalId := incrementalId + 1;
      variables := variables + [Variable(incrementalId, name, false)];
      forall p | At(operationTree, p).Some?
        ensures Evaluate(At(operationTree, p).value, variables) == Evaluate(At(operationTree, p).value, old(variables))
      {
        EvaluateAfterAppend(At(operationTree, p).value, old(variables), incrementalId, name);
      }
    }

    /** Apply `e` to every entry whose id is `id`, in place and in order. */
    method UpdateMatching(id: int, e: Edit)
      modifies this
      ensures variables == UpdateWhere(old(variables), id, e)
      ensures operationTree == old(operationTree) && incrementalId == old(incrementalId)
    {
      var i := 0;
      while i < |variables|
        invariant 0 <= i <= |variables| == |old(variables)|
        invariant forall k :: 0 <= k < i ==>
          variables[k] == (if old(variables)[k].id == id then Apply(old(variables)[k], e) else old(variables)[k])
        invariant forall k :: i <= k < |variables| ==> variables[k] == old(variables)[k]
        invariant operationTree == old(operationTree) && incrementalId == old(incrementalId)
      {
        if variables[i].id == id {
          variables := variables[i := Apply(variables[i], e)];
        }
        i := i + 1;
      }
    }

    /** The checkbox handler: every variable with this id takes `value`. */
    method UpdateVariableValue(id: int, value: bool)
      requires Valid()
      modifies this
      ensures Valid()
      ensures variables == UpdateWhere(old(variables), id, SetValue(value))
      ensures operationTree == old(operationTree) && incrementalId == old(incrementalId)
    {
      UpdateMatching(id, SetValue(value));
    }

    /** The name input handler: every variable with this id takes `name`. */
    method UpdateVariableName(id: int, name: string)
      requires Valid()
      modifies this
      ensures Valid()
      ensures variables == UpdateWhere(old(variables), id, SetName(name))
      ensures operationTree == old(operationTree) && incrementalId == old(incrementalId)
    {
      UpdateMatching(id, SetName(name));
    }

    /**
     * The type selector's handler. The two noop children take the counter's
     * current value and the next one (two post-increments), and the counter
     * advances by two even when the new node cannot be built because a
     * reference was asked for with no variable; then the tree is left as it
     * was. A path that leads to no node changes nothing.
     */
    method Retype(path: Path, kind: OpType) returns (outcome: Outcome<Error>)
      requires Valid()
      modifies this
      ensures Valid()
      ensures variables == old(variables)
      ensures match RetypeIn(old(operationTree), path, kind, old(variables), old(incrementalId))
        case Success(t) =>
          outcome == Pass && operationTree == t && incrementalId == old(incrementalId) + 2
        case Failure(e) =>
          outcome == Fail(e) && operationTree == old(operationTree) &&
          incrementalId == old(incrementalId) + (if e == NotFound then 0 else 2)
      ensures outcome == Pass ==>
        At(operationTree, path).Some? && At(operationTree, path).value.Kind() == kind &&
        At(operationTree, path).value.path == path
    {
      RetypeEffect(operationTree, path, kind, variables, incrementalId);
      var r := RetypeIn(operationTree, path, kind, variables, incrementalId);
      if r.Failure? && r.error == NotFound {
        return Fail(NotFound);
      }
      incrementalId := incrementalId + 2;
      match r
      case Success(t) =>
        operationTree := t;
        outcome := Pass;
      case Failure(e) =>
        outcome := Fail(e);
    }

    /** The constant selector's handler. */
    method SetConstant(path: Path, value: bool) returns (outcome: Outcome<Error>)
      requires Valid()
      modifies this`operationTree
      ensures Valid()
      ensures match SetConstantIn(old(operationTree), path, value)
        case Success(t) => outcome == Pass && operationTree == t
        case Failure(e) => outcome == Fail(e) && operationTree == old(operationTree)
      ensures outcome == Pass ==>
        At(operationTree, path).Some? && Evaluate(At(operationTree, path).value, variables) == value
    {
      SetConstantEffect(operationTree, path, value);
      match SetConstantIn(operationTree, path, value)
      case Success(t) =>
        operationTree := t;
        outcome := Pass;
      case Failure(e) =>
        outcome := Fail(e);
    }

    /** The variable selector's handler. */
    method SetVariableRef(path: Path, variableId: int) returns (outcome: Outcome<Error>)
      requires Valid()
      modifies this`operationTree
      ensures Valid()
      ensures match SetVariableRefIn(old(operationTree), path, variableId)
        case Success(t) => outcome == Pass && operationTree == t
        case Failure(e) => outcome == Fail(e) && operationTree == old(operationTree)
      ensures outcome == Pass ==>
        At(operationTree, path).Some? &&
        Evaluate(At(operationTree, path).value, variables) == Resolve(variables, variableId)
    {
      SetVariableRefEffect(operationTree, path, variableId);
      match SetVariableRefIn(operationTree, path, variableId)
      case Success(t) =>
        operationTree := t;
        outcome := Pass;
      case Failure(e) =>
        outcome := Fail(e);
    }
  }
}
