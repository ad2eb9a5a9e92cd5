/** Worked examples: what a user sees after a few edits, derived from the contracts alone. */
module Scenarios {
  import opened Wrappers
  import opened Registry
  import opened Expression
  import opened Builder

  /** The seed tree evaluates to true against the seed variables. */
  lemma SeedEvaluatesTrue()
    ensures WellPathed(SeedTree(), [])
    ensures Evaluate(SeedTree(), SeedVariables())
  {
  }

  /** a AND (false OR b) with a = false and b = true evaluates to false. */
  lemma MixedTreeEvaluatesFalse()
    ensures var vars := [Variable(1, "a", false), Variable(2, "b", true)];
      var t := Binary(0, [], And,
        VariableRef(1, [OperandA], 1),
        Binary(2, [OperandB], Or,
          Constant(3, [OperandB, OperandA], false),
          VariableRef(4, [OperandB, OperandB], 2)));
      !Evaluate(t, vars) && Evaluate(t.operandB, vars)
  {
  }

  /** A session: retype the root, build a constant beneath it, add and toggle a variable. */
  method Session()
  {
    var b := new LogicStatementBuilder();
    assert b.Valid();

    // Retyping the root to OR discards both children; OR of two noops is false.
    var o := b.Retype([], OrType);
    assert o == Pass;
    assert b.operationTree == Binary(1000, [], Or, Noop(0, [OperandA]), Noop(1, [OperandB]));
    assert !Evaluate(b.operationTree, b.variables);
    assert b.incrementalId == 2;

    // The left child becomes a constant, then is set to true.
    o := b.Retype([OperandA], ConstantType);
    assert o == Pass;
    o := b.SetConstant([OperandA], true);
    assert o == Pass;
    assert b.operationTree == Binary(1000, [], Or, Constant(0, [OperandA], true), Noop(1, [OperandB]));
    assert Evaluate(b.operationTree, b.variables);

    // A leaf has no children, so a path through it leads nowhere.
    o := b.SetConstant([OperandA, OperandB], false);
    assert o == Fail(NotFound);

    // A new variable takes the pre-incremented counter and starts false.
    b.AddVariable("c");
    assert b.variables == SeedVariables() + [Variable(5, "c", false)];
    b.UpdateVariableValue(5, true);
    assert b.variables[2] == Variable(5, "c", true);
  }
}
