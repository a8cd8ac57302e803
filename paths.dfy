/**
 * rev_map of utils.py: a solution path lists the moves of the blank; the
 * tiles move the opposite way, so each action is mapped to its complement
 * before it is reported.
 */
module Paths {
  import opened Results

  /** The complement table: U and D swap, L and R swap. */
  const ACTIONS: map<char, char> := map['U' := 'D', 'D' := 'U', 'L' := 'R', 'R' := 'L']

  /** A lookup of an action missing from the table. */
  datatype PathError = KeyError(action: char)

  predicate IsAction(a: char)
  {
    a in ACTIONS
  }

  /** Each action's complement is an action, differs from it, and maps back to it. */
  lemma ComplementIsInvolution(a: char)
    requires IsAction(a)
    ensures IsAction(ACTIONS[a]) && ACTIONS[a] != a && ACTIONS[ACTIONS[a]] == a
  {
  }

  /** [actions[a] for a in path]: the complement of each action in order, or
      KeyError for the first element that is not an action. */
  function RevMap(path: string): (r: Result<string, PathError>)
    ensures r.Ok? <==> forall i :: 0 <= i < |path| ==> IsAction(path[i])
    ensures r.Ok? ==>
      |r.value| == |path| && forall i :: 0 <= i < |path| ==> r.value[i] == ACTIONS[path[i]]
    ensures r.Err? ==>
      exists i :: 0 <= i < |path| && !IsAction(path[i]) && r.error == KeyError(path[i]) &&
        forall j :: 0 <= j < i ==> IsAction(path[j])
  {
    if path == [] then Ok([])
    else if !IsAction(path[0]) then Err(KeyError(path[0]))
    else match RevMap(path[1..])
      case Ok(rest) => Ok([ACTIONS[path[0]]] + rest)
      case Err(e) =>
        assert forall i :: 1 <= i < |path| ==> path[i] == path[1..][i - 1];
        Err(e)
  }

  /** Mapping a path of actions twice gives the path back. */
  lemma RevMapInvolution(path: string)
    requires RevMap(path).Ok?
    ensures RevMap(RevMap(path).value) == Ok(path)
  {
    var once := RevMap(path).value;
    forall i | 0 <= i < |path| ensures IsAction(once[i]) && ACTIONS[once[i]] == path[i] {
      ComplementIsInvolution(path[i]);
    }
    assert RevMap(once).value == path;
  }
}
