/**
 * The variable registry: an ordered list of named boolean variables, read by
 * the evaluator through a first-match lookup by id and edited by filtered
 * updates that touch every entry whose id matches.
 */
module Registry {
  import opened Wrappers

  datatype Variable = Variable(id: int, name: string, value: bool)

  /** The index of the first entry whose id is `id`, as `Array.prototype.find` picks it. */
  function FindIndex(vars: seq<Variable>, id: int): (r: Option<nat>)
    ensures r.Some? ==> r.value < |vars| && vars[r.value].id == id
    ensures r.Some? ==> forall j :: 0 <= j < r.value ==> vars[j].id != id
    ensures r.None? ==> forall j :: 0 <= j < |vars| ==> vars[j].id != id
  {
    if vars == [] then None
    else if vars[0].id == id then Some(0)
    else match FindIndex(vars[1..], id)
      case None => None
      case Some(i) => Some(i + 1)
  }

  /** The value a variable reference reads: the first match's value, `false` when nothing matches. */
  function Resolve(vars: seq<Variable>, id: int): (b: bool)
    ensures b ==> Declares(vars, id)
  {
    match FindIndex(vars, id)
    case None => false
    case Some(i) => vars[i].value
  }

  predicate Declares(vars: seq<Variable>, id: int) {
    exists i :: 0 <= i < |vars| && vars[i].id == id
  }

  /** Resolve reads the first entry carrying the id and nothing else. */
  lemma ResolveFirstMatch(vars: seq<Variable>, id: int, i: nat)
    requires i < |vars| && vars[i].id == id
    requires forall j :: 0 <= j < i ==> vars[j].id != id
    ensures Resolve(vars, id) == vars[i].value
  {
  }

  /** An id that no entry carries resolves to false. */
  lemma ResolveUndeclared(vars: seq<Variable>, id: int)
    requires !Declares(vars, id)
    ensures !Resolve(vars, id)
  {
  }

  /** A registry edit applied to one entry: the checkbox handler or the name input handler. */
  datatype Edit = SetValue(newValue: bool) | SetName(newName: string)

  function Apply(v: Variable, e: Edit): (r: Variable)
    ensures r.id == v.id
  {
    match e
    case SetValue(b) => v.(value := b)
    case SetName(n) => v.(name := n)
  }

  /**
   * A store update filtered by `variable.id === id`: every matching entry
   * receives the edit, in place; the others stay as they are.
   */
  function UpdateWhere(vars: seq<Variable>, id: int, e: Edit): (r: seq<Variable>)
    ensures |r| == |vars|
    ensures forall k :: 0 <= k < |vars| ==>
      r[k] == (if vars[k].id == id then Apply(vars[k], e) else vars[k])
  {
    if vars == [] then []
    else [if vars[0].id == id then Apply(vars[0], e) else vars[0]] + UpdateWhere(vars[1..], id, e)
  }

  /** An update whose id matches no entry leaves the registry as it was. */
  lemma UpdateWhereNoMatch(vars: seq<Variable>, id: int, e: Edit)
    requires !Declares(vars, id)
    ensures UpdateWhere(vars, id, e) == vars
  {
    var r := UpdateWhere(vars, id, e);
    forall k | 0 <= k < |vars| ensures r[k] == vars[k] {
      assert vars[k].id != id;
    }
  }

  /** Appending an entry never changes which earlier entry is the first match. */
  lemma {:induction false} FindIndexAppend(vars: seq<Variable>, v: Variable, id: int)
    ensures FindIndex(vars + [v], id) ==
      if FindIndex(vars, id).Some? then FindIndex(vars, id)
      else if v.id == id then Some(|vars|)
      else None
  {
    if vars != [] {
      assert (vars + [v])[1..] == vars[1..] + [v];
      FindIndexAppend(vars[1..], v, id);
    }
  }

  /**
   * Toggling the value of variable `id` makes every reference to `id` read the
   * new value, provided some entry carries `id`; every other id reads as before.
   */
  lemma ResolveAfterSetValue(vars: seq<Variable>, id: int, b: bool, x: int)
    ensures Resolve(UpdateWhere(vars, id, SetValue(b)), x) ==
      if x == id && Declares(vars, id) then b else Resolve(vars, x)
  {
  }

  /** Renaming a variable changes no reference's value. */
  lemma ResolveAfterRename(vars: seq<Variable>, id: int, n: string, x: int)
    ensures Resolve(UpdateWhere(vars, id, SetName(n)), x) == Resolve(vars, x)
  {
  }

  /**
   * Appending a variable whose value is false changes no reference's value:
   * an id already present still finds its earlier entry, and an id that was
   * missing read false before and reads the new entry's false now.
   */
  lemma ResolveAfterAppend(vars: seq<Variable>, id: int, n: string, x: int)
    ensures Resolve(vars + [Variable(id, n, false)], x) == Resolve(vars, x)
  {
    FindIndexAppend(vars, Variable(id, n, false), x);
  }
}
