/**
 * The exported function of index.js: the guard, the collector and the
 * renaming loop, run on a program whose identifier nodes and variable
 * records are updated in place.
 */
module IsogramParam {
  import opened Types
  import opened Guard
  import opened Collector
  import opened Renamer

  /**
   * What one call does to a tree: it throws for the first unsafe global
   * before touching anything; otherwise it collects the locals and runs the
   * renaming loop, which may throw part way.
   */
  function Transform(t: Tree, scopes: seq<Scope>, occ: seq<Occurrences>, target: seq<char>,
                     getFreeLetter: seq<string> -> string): (r: Outcome)
    requires WellFormed(t, occ) && ScopesWithin(scopes, |occ|)
    ensures WellFormed(r.tree, occ) && |r.tree.ids| == |t.ids|
    ensures (r.error.Some? && r.error.value.UnsafeGlobal?) <==>
              exists g :: g in GlobalNames(scopes) && Unsafe(g, target)
    ensures r.error.Some? && r.error.value.UnsafeGlobal? ==>
              r.tree == t && r.error.value.name in GlobalNames(scopes) && Unsafe(r.error.value.name, target)
    ensures r.error == Some(NotEnoughVariables) <==>
              (forall g :: g in GlobalNames(scopes) ==> !Unsafe(g, target)) && |Locals(scopes, t.vars)| < |target|
  {
    var globals := GlobalNames(scopes);
    match FirstUnsafe(globals, target)
    case Some(g) => Outcome(Some(UnsafeGlobal(g)), t)
    case None => RenameAll(t, occ, Locals(scopes, t.vars), globals, target, getFreeLetter)
  }

  /**
   * A call whose target letters are pairwise distinct, that meets no unsafe
   * global and has enough locals, succeeds with local `i` named `target[i]`
   * for every position; a consistent tree whose variables share no node stays
   * consistent, so every occurrence of local `i` is named `target[i]` as well.
   */
  lemma TransformIsogram(t: Tree, scopes: seq<Scope>, occ: seq<Occurrences>, target: seq<char>,
                         getFreeLetter: seq<string> -> string)
    requires WellFormed(t, occ) && ScopesWithin(scopes, |occ|)
    requires forall g :: g in GlobalNames(scopes) ==> !Unsafe(g, target)
    requires |target| <= |Locals(scopes, t.vars)| && DistinctLetters(target, |target|)
    ensures var r := Transform(t, scopes, occ, target, getFreeLetter);
            var locals := Locals(scopes, t.vars);
            && r.error.None?
            && (forall i :: 0 <= i < |target| ==> r.tree.vars[locals[i]] == [target[i]])
            && (Consistent(t, occ) && Disjoint(occ) ==>
                  Consistent(r.tree, occ) &&
                  forall i, j :: 0 <= i < |target| && 0 <= j < |Ids(occ[locals[i]])| ==>
                    r.tree.ids[Ids(occ[locals[i]])[j]] == [target[i]])
  {
    var locals := Locals(scopes, t.vars);
    var globals := GlobalNames(scopes);
    IterateAssigns(t, occ, locals, globals, target, getFreeLetter, |target|);
    if Consistent(t, occ) && Disjoint(occ) {
      IteratePreservesConsistency(t, occ, locals, globals, target, getFreeLetter, |target|);
    }
  }

  /**
   * A call that meets no unsafe global but has fewer locals than target
   * letters throws at position `|locals|`, and the renames of the earlier
   * positions stay applied: when those letters are pairwise distinct, local
   * `i` is named `target[i]` for every `i < |locals|`.
   */
  lemma TransformTooFewLocals(t: Tree, scopes: seq<Scope>, occ: seq<Occurrences>, target: seq<char>,
                              getFreeLetter: seq<string> -> string)
    requires WellFormed(t, occ) && ScopesWithin(scopes, |occ|)
    requires forall g :: g in GlobalNames(scopes) ==> !Unsafe(g, target)
    requires |Locals(scopes, t.vars)| < |target|
    ensures var r := Transform(t, scopes, occ, target, getFreeLetter);
            var locals := Locals(scopes, t.vars);
            && r.error == Some(NotEnoughVariables)
            && r.tree == Iterate(t, occ, locals, GlobalNames(scopes), target, getFreeLetter, |locals|)
            && (DistinctLetters(target, |locals|) ==>
                  forall i :: 0 <= i < |locals| ==> r.tree.vars[locals[i]] == [target[i]])
  {
    var locals := Locals(scopes, t.vars);
    if DistinctLetters(target, |locals|) {
      IterateAssigns(t, occ, locals, GlobalNames(scopes), target, getFreeLetter, |locals|);
    }
  }

  /**
   * Whatever the outcome, a call writes only into nodes that belong to some
   * variable: every other node, such as the read of an implicit global,
   * keeps its name.
   */
  lemma TransformKeepsUnowned(t: Tree, scopes: seq<Scope>, occ: seq<Occurrences>, target: seq<char>,
                              getFreeLetter: seq<string> -> string)
    requires WellFormed(t, occ) && ScopesWithin(scopes, |occ|)
    ensures UnownedKept(t, Transform(t, scopes, occ, target, getFreeLetter).tree, occ)
  {
    var locals := Locals(scopes, t.vars);
    var globals := GlobalNames(scopes);
    if FirstUnsafe(globals, target).None? {
      var n := if |target| <= |locals| then |target| else |locals|;
      IterateKeepsUnowned(t, occ, locals, globals, target, getFreeLetter, n);
    }
  }

  /**
   * A call introduces no clash of names, whatever its outcome: no variable
   * is renamed to the name of a global, and locals whose names are pairwise
   * distinct before the call still are after it (under the allocator's
   * contract).
   */
  lemma TransformAvoidsCollisions(t: Tree, scopes: seq<Scope>, occ: seq<Occurrences>, target: seq<char>,
                                  getFreeLetter: seq<string> -> string)
    requires WellFormed(t, occ) && ScopesWithin(scopes, |occ|)
    requires AllocatorContract(getFreeLetter)
    ensures var r := Transform(t, scopes, occ, target, getFreeLetter);
            var locals := Locals(scopes, t.vars);
            && ChangedAvoidGlobals(t, r.tree, GlobalNames(scopes))
            && (NamesDistinct(t, locals) ==> NamesDistinct(r.tree, locals))
  {
    var locals := Locals(scopes, t.vars);
    var globals := GlobalNames(scopes);
    if FirstUnsafe(globals, target).None? {
      assert LettersNotGlobal(target, globals) by {
        forall k, g | 0 <= k < |target| && 0 <= g < |globals|
          ensures [target[k]] != globals[g]
        {
          assert globals[g] in globals;
        }
      }
      var n := if |target| <= |locals| then |target| else |locals|;
      IterateAvoidsGlobals(t, occ, locals, globals, target, getFreeLetter, n);
      if NamesDistinct(t, locals) {
        IterateKeepsDistinct(t, occ, locals, globals, target, getFreeLetter, n);
      }
    }
  }

  /**
   * The program a call works on: the output of parsing and scope analysis.
   * `nodes[n]` is the name of identifier node `n`, `names[v]` the name of
   * variable record `v`; both are overwritten in place by the renamer.
   */
  class Program {
    const nodes: array<string>
    const names: array<string>
    const occ: seq<Occurrences>
    const scopes: seq<Scope>

    ghost predicate Valid()
      reads this
    {
      nodes != names && names.Length == |occ| && OccursWithin(occ, nodes.Length) && ScopesWithin(scopes, |occ|)
    }

    /** The names of the tree as they are now. */
    ghost function Current(): Tree
      reads this, nodes, names
    {
      Tree(nodes[..], names[..])
    }

    constructor (ids: seq<string>, vars: seq<string>, occurrences: seq<Occurrences>, analysed: seq<Scope>)
      requires |vars| == |occurrences| && OccursWithin(occurrences, |ids|) && ScopesWithin(analysed, |occurrences|)
      ensures Valid() && fresh(nodes) && fresh(names)
      ensures Current() == Tree(ids, vars) && occ == occurrences && scopes == analysed
    {
      nodes := new string[|ids|](k requires 0 <= k < |ids| => ids[k]);
      names := new string[|vars|](k requires 0 <= k < |vars| => vars[k]);
      occ := occurrences;
      scopes := analysed;
      new;
      assert nodes[..] == ids;
      assert names[..] == vars;
    }

    /** `replaceName`: writes `letter` into each occurrence node of `v`, then into `v` itself. */
    method ReplaceName(v: VarId, letter: string)
      requires Valid() && v < |occ|
      modifies nodes, names
      ensures Current() == Rename(old(Current()), occ, v, letter)
    {
      if names[v] == letter {
        return;
      }
      var ids := Ids(occ[v]);
      var k := 0;
      while k < |ids|
        invariant 0 <= k <= |ids|
        invariant nodes[..] == Relabel(old(nodes[..]), ids[..k], letter)
        invariant names[..] == old(names[..])
      {
        assert ids[..k + 1][..k] == ids[..k];
        nodes[ids[k]] := letter;
        k := k + 1;
      }
      assert ids[..k] == ids;
      names[v] := letter;
    }

    /** The inner `locals.forEach` of a round: moves every other local named `letter` onto `free`. */
    method DisplaceLocals(locals: seq<VarId>, candidate: VarId, letter: string, free: string)
      requires Valid() && Within(locals, |occ|)
      modifies nodes, names
      ensures Current() == Displace(old(Current()), occ, locals, candidate, letter, free)
    {
      ghost var start := Current();
      var k := 0;
      while k < |locals|
        invariant 0 <= k <= |locals|
        invariant Current() == Displace(start, occ, locals[..k], candidate, letter, free)
      {
        assert locals[..k + 1][..k] == locals[..k];
        var local := locals[k];
        if local != candidate && names[local] == letter {
          ReplaceName(local, free);
        }
        k := k + 1;
      }
      assert locals[..k] == locals;
    }

    /**
     * One call of the `targetLetters.forEach` callback: rename the candidate,
     * compute `taken` and the free letter, then displace the other locals.
     */
    method RenameRound(locals: seq<VarId>, globals: seq<string>, target: seq<char>,
                       getFreeLetter: seq<string> -> string, i: nat)
      requires Valid() && Within(locals, |occ|) && i < |target| && i < |locals|
      modifies nodes, names
      ensures Current() == Step(old(Current()), occ, locals, globals, target, getFreeLetter, i)
    {
      var letter := [target[i]];
      var candidate := locals[i];
      ReplaceName(candidate, letter);
      var taken := Taken(names[..], locals, globals, target);
      var free := getFreeLetter(taken);
      DisplaceLocals(locals, candidate, letter, free);
    }

    /** The `targetLetters.forEach` loop over the collected `locals`. */
    method RenameLocals(locals: seq<VarId>, globals: seq<string>, target: seq<char>,
                        getFreeLetter: seq<string> -> string) returns (error: Option<Error>)
      requires Valid() && Within(locals, |occ|)
      modifies nodes, names
      ensures Outcome(error, Current()) == RenameAll(old(Current()), occ, locals, globals, target, getFreeLetter)
    {
      ghost var start := Current();
      var i := 0;
      while i < |target| && i < |locals|
        invariant 0 <= i <= |target| && i <= |locals|
        invariant Current() == Iterate(start, occ, locals, globals, target, getFreeLetter, i)
      {
        RenameRound(locals, globals, target, getFreeLetter, i);
        i := i + 1;
      }
      // the round at position `|locals|` finds no candidate and throws
      error := if i < |target| then Some(NotEnoughVariables) else None;
      RenameAllStopsAt(start, occ, locals, globals, target, getFreeLetter, i);
    }

    /** The exported function, up to serialising the tree: guard, collect, rename. */
    method Run(target: seq<char>, getFreeLetter: seq<string> -> string) returns (error: Option<Error>)
      requires Valid()
      modifies nodes, names
      ensures Outcome(error, Current()) == Transform(old(Current()), scopes, occ, target, getFreeLetter)
    {
      var globals := GlobalNames(scopes);
      var unsafe := FirstUnsafe(globals, target);
      if unsafe.Some? {
        return Some(UnsafeGlobal(unsafe.value));
      }
      var locals := CollectLocals(scopes, names);
      error := RenameLocals(locals, globals, target, getFreeLetter);
    }
  }
}
