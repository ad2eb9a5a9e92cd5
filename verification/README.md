# Logic statement builder — a Dafny model

This project models the non-UI logic of the logic statement builder widget
(`src/components/LogicStatementBuilder.tsx`). The widget lets a user define
named boolean variables and compose an expression tree of noop, constant,
variable-reference, AND and OR nodes. It edits that tree in place by path and
shows the evaluated result of every node.

Modules:

- `Wrappers` (wrappers.dfy): `Option`, `Result` and `Outcome`.
- `Registry` (registry.dfy): the `Variable` record and the first-match lookup
  the evaluator uses (`variables.find(...)?.value || false`). It also has the
  filtered store update that edits every entry with a given id.
- `Expression` (expression.dfy): the node sum type with `id` and `path` on
  every node, and addressing by path (`At`, `ReplaceAt`). It also holds the
  path-consistency invariant `WellPathed`, the evaluator `Evaluate`, and the
  three edit handlers as functions from the old tree to the new one:
  `RetypeIn` (the type selector, with `generateValue` inlined into `Retyped`),
  `SetConstantIn` and `SetVariableRefIn`.
- `Addressing` (addressing.dfy): `pathToStorePath` as written, the three
  handlers as written (they store at the store path of the node's recorded
  path), what the six-label cut does to deep nodes (see Findings), and the
  invariant showing that the leaf setters are unaffected by the cut.
- `Builder` (builder.dfy): the component's state as a class. It holds
  `variables`, `operationTree` and the id counter `incrementalId`, with one
  method per handler. The methods are proved against the functions above, and
  they keep the tree well-pathed.
- `Scenarios` (scenarios.dfy): worked examples and a client session.

Behaviour of the component a reader may not expect:

- Retype keeps the node's `id`, because the new node is built by spreading the
  current one. It does not get a fresh id.
- Retype always takes two ids from the counter, with post-increments, for the
  two noop children. This happens even when the new type is a leaf.
- `addVariable` takes its id by pre-increment.
- Retyping to `variable` with an empty registry throws when it reads
  `variables[0].id`. By then the two increments have already happened. The
  model returns `EmptyRegistry`, leaves the tree unchanged and advances the
  counter by two.
- `&&` and `||` in the evaluator short-circuit. The evaluator is pure, so the
  value is the same as when both sides are evaluated.

## Model

| member | source | states |
|---|---|---|
| `Registry.FindIndex` | src/components/LogicStatementBuilder.tsx:163 | the index found is the first entry with that id, and none means no entry has it |
| `Registry.Resolve` | src/components/LogicStatementBuilder.tsx:163 | a reference reads true only if some entry declares its id |
| `Registry.ResolveFirstMatch` | src/components/LogicStatementBuilder.tsx:163 | a reference reads the value of the first entry carrying its id |
| `Registry.ResolveUndeclared` | src/components/LogicStatementBuilder.tsx:163 | a reference to an id no entry carries reads false |
| `Registry.UpdateWhere` | src/components/LogicStatementBuilder.tsx:331-343 | a filtered update keeps length and order and edits exactly the entries whose id matches; it never changes an id |
| `Registry.UpdateWhereNoMatch` | src/components/LogicStatementBuilder.tsx:331-343 | an update for an id that no entry carries changes nothing |
| `Registry.ResolveAfterSetValue` | src/components/LogicStatementBuilder.tsx:331-336 | after a toggle, the toggled id reads the new value if declared, and every other id reads as before |
| `Registry.ResolveAfterRename` | src/components/LogicStatementBuilder.tsx:338-343 | renaming changes no id's value |
| `Registry.ResolveAfterAppend` | src/components/LogicStatementBuilder.tsx:320-330 | appending a variable with value false changes no id's value, whether or not the id was declared |
| `Expression.AtWellPathed` | src/components/LogicStatementBuilder.tsx:207-216 | in a well-pathed tree every node records exactly the path that reaches it |
| `Expression.ReplaceAtBelow` | src/components/LogicStatementBuilder.tsx:204 | after a store write at a path, the node there and everything below it is the written node |
| `Expression.ReplaceAtDisjoint` | src/components/LogicStatementBuilder.tsx:204 | a store write at a path leaves nodes at every disjoint path unchanged |
| `Expression.ReplaceAtAncestor` | src/components/LogicStatementBuilder.tsx:204 | the ancestors of the written node keep their kind, id and path |
| `Expression.ReplaceAtTwice` | src/components/LogicStatementBuilder.tsx:90-94 | two writes at one path equal the second write alone |
| `Expression.ReplaceAtWellPathed` | src/components/LogicStatementBuilder.tsx:204-218 | writing a node that is well-pathed for its position keeps the whole tree well-pathed |
| `Expression.Evaluate` | src/components/LogicStatementBuilder.tsx:157-177 | a noop never evaluates to true, and a reference evaluates to true only if its variable is declared; its other properties are the lemmas below |
| `Expression.EvaluateReplaceAt` | src/components/LogicStatementBuilder.tsx:157-177 | evaluation is compositional: swapping a subtree for one of equal value keeps the tree's value |
| `Expression.EvaluateMonotone` | src/components/LogicStatementBuilder.tsx:157-177 | with only AND and OR, making variables truer never makes a tree false |
| `Expression.EvaluateSameResolve` | src/components/LogicStatementBuilder.tsx:162-163 | evaluation depends on the registry only through the first-match lookup |
| `Expression.EvaluateAfterAppend` | src/components/LogicStatementBuilder.tsx:320-330 | adding a variable changes no tree's value |
| `Expression.EvaluateAfterRename` | src/components/LogicStatementBuilder.tsx:338-343 | renaming a variable changes no tree's value |
| `Expression.EvaluateReferenceAfterSetValue` | src/components/LogicStatementBuilder.tsx:162-163 | after a toggle, a reference to the toggled id evaluates to the new value, or to false if the id is undeclared |
| `Expression.Retyped` | src/components/LogicStatementBuilder.tsx:188-218 | the new node has the chosen type, the old id and the old path. Constants get false, references get the first variable's id, and and/or nodes get noop children with ids c and c+1 at path+[operandA] and path+[operandB]. It fails exactly when a reference is asked for with no variable |
| `Expression.RetypedEvaluates` | src/components/LogicStatementBuilder.tsx:188-197 | a freshly retyped node evaluates to false, except a reference, which evaluates to the first variable's value |
| `Expression.RetypeIn` | src/components/LogicStatementBuilder.tsx:203-219 | retype at a path fails exactly when no node is there (`NotFound`) or a reference is asked for with no variable (`EmptyRegistry`) |
| `Expression.RetypeEffect` | src/components/LogicStatementBuilder.tsx:204-218 | retype at a path fails only for a missing node or an empty registry. Otherwise the node there has the new type, the old id and the given path, with fresh noop children for and/or. The tree stays well-pathed, and nodes at disjoint paths are unchanged |
| `Expression.SetConstantIn` | src/components/LogicStatementBuilder.tsx:89-95 | setting a constant fails exactly when no node is at the path (`NotFound`) or the node is not a constant (`InvalidOperation`) |
| `Expression.SetVariableRefIn` | src/components/LogicStatementBuilder.tsx:116-122 | the same for a reference node |
| `Expression.SetConstantEffect` | src/components/LogicStatementBuilder.tsx:90-94 | setting a constant succeeds exactly on a constant node. It changes only that node's value, keeps the tree well-pathed and leaves disjoint nodes unchanged |
| `Expression.SetVariableRefEffect` | src/components/LogicStatementBuilder.tsx:117-121 | the same for a reference node's variable id |
| `Expression.SetConstantIdempotent` | src/components/LogicStatementBuilder.tsx:90-94 | setting a constant to the same value twice equals setting it once |
| `Expression.RetypeThenSetConstant` | src/components/LogicStatementBuilder.tsx:89-94 | retyping to constant and then setting it to b makes that node evaluate to b |
| `Addressing.StorePath` | src/components/LogicStatementBuilder.tsx:67-76 | the store path is a prefix of the node path of at most six labels, and it equals the whole path when the path has six labels or fewer |
| `Addressing.RetypeAsWritten` | src/components/LogicStatementBuilder.tsx:204 | the handler as written, storing at the store path of the node's recorded path, fails exactly when the full-path retype does |
| `Addressing.RetypeAsWrittenAgrees` | src/components/LogicStatementBuilder.tsx:67-76 | in a well-pathed tree, up to six labels deep, the handler as written equals the full-path retype |
| `Addressing.RetypeAsWrittenTooDeep` | src/components/LogicStatementBuilder.tsx:204 | more than six labels deep, the handler as written overwrites the depth-six ancestor with a node recording the deeper path. The tree is no longer well-pathed, and the node at the path does not have the chosen type |
| `Addressing.DeepRetypeExample` | src/components/LogicStatementBuilder.tsx:204-216 | a well-pathed tree seven labels deep exists, and retyping its deepest node as written breaks path consistency |
| `Addressing.StoreConsistentNode` | src/components/LogicStatementBuilder.tsx:67-76 | in a store-consistent tree a node's recorded path has the store path of its position, and a node more than six labels deep is a noop |
| `Addressing.ReplaceAtStoreConsistent` | src/components/LogicStatementBuilder.tsx:204 | writing a node that is store-consistent for its position keeps the tree store-consistent |
| `Addressing.RetypedStoreConsistent` | src/components/LogicStatementBuilder.tsx:204-216 | a rebuilt node and its noop children are store-consistent at the store path of the node's recorded path |
| `Addressing.RetypeAsWrittenStoreConsistent` | src/components/LogicStatementBuilder.tsx:204-218 | the retype handler as written keeps the tree store-consistent at any depth |
| `Addressing.SetConstantAsWritten` | src/components/LogicStatementBuilder.tsx:89-95 | the constant setter as written fails when no constant is at the path |
| `Addressing.SetVariableRefAsWritten` | src/components/LogicStatementBuilder.tsx:116-122 | the variable setter as written fails when no reference is at the path |
| `Addressing.LeafStoreConsistent` | src/components/LogicStatementBuilder.tsx:89-95 | in a store-consistent tree a constant or reference lies at most six labels deep, and a leaf keeping its recorded path is store-consistent in its place |
| `Addressing.SetConstantAsWrittenAgrees` | src/components/LogicStatementBuilder.tsx:89-95 | in a store-consistent tree the constant setter as written equals the full-path setter and keeps the tree store-consistent |
| `Addressing.SetVariableRefAsWrittenAgrees` | src/components/LogicStatementBuilder.tsx:116-122 | the same for the variable setter |
| `Addressing.AtHeight` | src/components/LogicStatementBuilder.tsx:67-76 | no path that reaches a node is longer than the tree's height |
| `Addressing.ShallowStoreConsistent` | src/components/LogicStatementBuilder.tsx:67-76 | a well-pathed tree at most six labels high is store-consistent |
| `Addressing.SeedStoreConsistent` | src/components/LogicStatementBuilder.tsx:291-318 | the seed tree is store-consistent |
| `Builder.LogicStatementBuilder.constructor` | src/components/LogicStatementBuilder.tsx:287-318 | the component starts with the seed variables, the seed tree (well-pathed) and the counter at 0 |
| `Builder.LogicStatementBuilder.AddVariable` | src/components/LogicStatementBuilder.tsx:320-330 | appends exactly one entry (counter+1, name, false) and leaves earlier entries unchanged. The counter rises by one, the tree is unchanged, and no node's value changes |
| `Builder.LogicStatementBuilder.UpdateMatching` | src/components/LogicStatementBuilder.tsx:331-343 | the in-place filtered update leaves the registry equal to `UpdateWhere` of the old one, and the tree and counter unchanged |
| `Builder.LogicStatementBuilder.UpdateVariableValue` | src/components/LogicStatementBuilder.tsx:331-336 | only the value field of matching entries changes. The tree and counter are unchanged |
| `Builder.LogicStatementBuilder.UpdateVariableName` | src/components/LogicStatementBuilder.tsx:338-343 | only the name field of matching entries changes. The tree and counter are unchanged |
| `Builder.LogicStatementBuilder.Retype` | src/components/LogicStatementBuilder.tsx:203-219 | the tree becomes `RetypeIn` of the old tree, and the node at the path has the chosen type and keeps its path. The counter rises by two, including on the empty-registry failure. The registry is unchanged and the tree stays well-pathed |
| `Builder.LogicStatementBuilder.SetConstant` | src/components/LogicStatementBuilder.tsx:89-95 | the tree becomes `SetConstantIn` of the old tree, and on success the node at the path evaluates to the new value |
| `Builder.LogicStatementBuilder.SetVariableRef` | src/components/LogicStatementBuilder.tsx:116-122 | the tree becomes `SetVariableRefIn` of the old tree, and on success the node at the path evaluates to the referenced variable |
| `Scenarios.SeedEvaluatesTrue` | src/components/LogicStatementBuilder.tsx:291-318 | the seed tree is well-pathed and evaluates to true |
| `Scenarios.MixedTreeEvaluatesFalse` | src/components/LogicStatementBuilder.tsx:157-177 | a AND (false OR b) with a false and b true is false, while its OR subtree is true |

## Left out

- JSX rendering: the views, the page layout and the route component are not modelled. Only the state updates inside their handlers are.
- The Solid store machinery (`createStore`, `produce`, `setStore` with a path or a filter). Its effect is modelled directly: `ReplaceAt` for a write at a path, and `UpdateWhere` for a filtered update.
- The `console.log` dumps of the tree and the variables: I/O.
- The input guard that rejects a blank name before `addVariable`: it is UI. `AddVariable` accepts any name, as `addVariable` itself does.
- Conversion of the selected option to a number (`Number(...)`): the variable id reaches `SetVariableRef` already as an integer.
- The noop children that retype attaches to noop, constant and variable nodes are never read, so they are dropped. Their two ids are still taken from the counter.
- The evaluator's final `else` branch (an unknown type tag) cannot happen with a sum type.
- The error paths `NotFound` and `InvalidOperation` exist only in the model. In the component every handler receives the node it belongs to, so neither can arise there; in the model they leave the state unchanged.
- The id counter is one module-level variable shared by every instance of the component. Here it is a field of the one builder object, and sharing between instances is not modelled.
- Id uniqueness is not claimed. The counter starts at 0 while the seed ids are 1000-1004 and 10000-10001. Node and variable ids are also drawn from the same counter.

## Findings

| source | as written | input that shows it | evidently intended | confidence | as-written member | corrected member |
|---|---|---|---|---|---|---|
| src/components/LogicStatementBuilder.tsx:67-76 | the store path is cut to the first six labels. Retyping a node more than six labels deep therefore writes the rebuilt node over its ancestor six labels down, with the deep node's id and path | make a left spine of and-nodes seven labels deep (reachable by retyping), then retype the deepest node | the edit replaces the node at its full path | medium; not executed | `Addressing.RetypeAsWrittenTooDeep` | `Expression.RetypeEffect` |

The cut does not affect the constant and variable setters at lines 90-94 and
117-121 in any state the handlers reach. The seed tree is store-consistent
(`Addressing.SeedStoreConsistent`): every node's recorded path has the same
store path as its position, and nothing but a noop lies more than six labels
deep. The retype handler as written keeps that invariant even on deep nodes
(`Addressing.RetypeAsWrittenStoreConsistent`). In a store-consistent tree the
setters as written equal the full-path setters and keep the invariant
(`Addressing.SetConstantAsWrittenAgrees`, `Addressing.SetVariableRefAsWrittenAgrees`).
