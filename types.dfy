/**
 * The values the renamer works on: what the parser and the scope analyser
 * hand over (scopes, variable records and the identifier nodes they occur
 * at), the names of a program that the renamer overwrites, and the ways a
 * call can fail.
 */
module Types {

  datatype Option<T> = None | Some(value: T)

  /** Index of a variable record in the program's table of variables. */
  type VarId = nat

  /** Index of an identifier node of the syntax tree. */
  type NodeId = nat

  /**
   * A scope as the scope analyser reports it: the variables declared in it,
   * in the analyser's order, and, when the scope has an `implicit.left` list,
   * the names of the identifiers of those undeclared (global) references.
   */
  datatype Scope = Scope(variables: seq<VarId>, implicitLeft: Option<seq<string>>)

  /** The identifier nodes of one variable: those of its references, then its declaring identifiers. */
  datatype Occurrences = Occurrences(references: seq<NodeId>, identifiers: seq<NodeId>)

  /** Every identifier node a rename of the variable writes, in the order it writes them. */
  function Ids(o: Occurrences): seq<NodeId>
  {
    o.references + o.identifiers
  }

  /**
   * The names the renamer reads and writes: `ids[n]` is the name of
   * identifier node `n`, `vars[v]` the `name` field of variable record `v`.
   */
  datatype Tree = Tree(ids: seq<string>, vars: seq<string>)

  /** The two errors the renamer throws. */
  datatype Error =
    | UnsafeGlobal(name: string)  // a one-character global occurs in the target
    | NotEnoughVariables          // the target is longer than the list of locals

  /** What a call leaves behind: the error it throws, if any, and the names of the tree at that point. */
  datatype Outcome = Outcome(error: Option<Error>, tree: Tree)

  predicate Within(vs: seq<nat>, count: nat)
  {
    forall j :: 0 <= j < |vs| ==> vs[j] < count
  }

  predicate ScopesWithin(scopes: seq<Scope>, count: nat)
  {
    forall k :: 0 <= k < |scopes| ==> Within(scopes[k].variables, count)
  }

  predicate OccursWithin(occ: seq<Occurrences>, count: nat)
  {
    forall v :: 0 <= v < |occ| ==> Within(Ids(occ[v]), count)
  }

  /** Every variable has its occurrences, and every occurrence is a node of the tree. */
  predicate WellFormed(t: Tree, occ: seq<Occurrences>)
  {
    |t.vars| == |occ| && OccursWithin(occ, |t.ids|)
  }

  /** No identifier node belongs to two different variables. */
  predicate Disjoint(occ: seq<Occurrences>)
  {
    forall u, v, n :: 0 <= u < |occ| && 0 <= v < |occ| && u != v && n in Ids(occ[u]) ==> n !in Ids(occ[v])
  }

  /** Every identifier node of a variable carries the variable's current name. */
  predicate Consistent(t: Tree, occ: seq<Occurrences>)
  {
    WellFormed(t, occ) &&
    forall v, j :: 0 <= v < |occ| && 0 <= j < |Ids(occ[v])| ==> t.ids[Ids(occ[v])[j]] == t.vars[v]
  }

  /** Node `k` belongs to no variable, as the read of an implicit global does. */
  predicate Unowned(occ: seq<Occurrences>, k: NodeId)
  {
    forall v :: 0 <= v < |occ| ==> k !in Ids(occ[v])
  }

  /** No variable is listed twice. */
  predicate NoDuplicates(s: seq<VarId>)
  {
    forall i, j :: 0 <= i < j < |s| ==> s[i] != s[j]
  }
}
