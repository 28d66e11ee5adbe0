/**
 * The sequential renamer as functions on the names of a tree: `replaceName`,
 * the set of taken names, one round of the `targetLetters.forEach` loop and
 * the whole loop, with what each round is proved to leave behind.
 *
 * `getFreeLetter` (lib/util) is not part of this model: it is a parameter,
 * a total function from the list of taken names to a name, and
 * `AllocatorContract` is the one thing the lemmas that need it assume of it.
 */
module Renamer {
  import opened Types

  /** The names of the tree after writing `letter` into the nodes `at`, one after the other. */
  function Relabel(ids: seq<string>, at: seq<NodeId>, letter: string): (r: seq<string>)
    requires Within(at, |ids|)
    ensures |r| == |ids|
    ensures forall k {:trigger r[k]} :: 0 <= k < |ids| ==> r[k] == if k in at then letter else ids[k]
  {
    if at == [] then ids
    else
      var prefix := at[..|at| - 1];
      assert at == prefix + [at[|at| - 1]];
      Relabel(ids, prefix, letter)[at[|at| - 1] := letter]
  }

  /**
   * `replaceName(variable, letter)`: nothing when the variable already has
   * that name; otherwise the letter is written into every reference
   * identifier, every declaring identifier and the variable record.
   */
  function Rename(t: Tree, occ: seq<Occurrences>, v: VarId, letter: string): (r: Tree)
    requires WellFormed(t, occ) && v < |occ|
    ensures WellFormed(r, occ) && |r.ids| == |t.ids|
    ensures r.vars == t.vars[v := letter]
    ensures t.vars[v] == letter ==> r == t
    ensures t.vars[v] != letter ==>
              forall k {:trigger r.ids[k]} :: 0 <= k < |t.ids| ==> r.ids[k] == if k in Ids(occ[v]) then letter else t.ids[k]
  {
    if t.vars[v] == letter then t
    else Tree(Relabel(t.ids, Ids(occ[v]), letter), t.vars[v := letter])
  }

  /**
   * On a consistent tree whose variables share no node, `replaceName` leaves
   * the variable and every one of its occurrences named `letter`, does not
   * touch any other variable's occurrences, and keeps the tree consistent.
   */
  lemma RenameEffect(t: Tree, occ: seq<Occurrences>, v: VarId, letter: string)
    requires Consistent(t, occ) && Disjoint(occ) && v < |occ|
    ensures var r := Rename(t, occ, v, letter);
            && (forall j :: 0 <= j < |Ids(occ[v])| ==> r.ids[Ids(occ[v])[j]] == letter)
            && (forall u, j :: 0 <= u < |occ| && u != v && 0 <= j < |Ids(occ[u])| ==>
                  r.ids[Ids(occ[u])[j]] == t.ids[Ids(occ[u])[j]])
            && Consistent(r, occ)
  {
  }

  /** The names of the targets, one string per character (`target.split('')`). */
  function Letters(target: seq<char>): seq<string>
  {
    seq(|target|, k requires 0 <= k < |target| => [target[k]])
  }

  /** `taken`: the current names of the locals, then the globals, then the target letters. */
  function Taken(vars: seq<string>, locals: seq<VarId>, globals: seq<string>, target: seq<char>): (r: seq<string>)
    requires Within(locals, |vars|)
    ensures forall x :: x in r <==>
              (exists j :: 0 <= j < |locals| && vars[locals[j]] == x) || x in globals ||
              (exists k :: 0 <= k < |target| && x == [target[k]])
  {
    var names := seq(|locals|, j requires 0 <= j < |locals| => vars[locals[j]]);
    ComprehensionMembers(vars, locals, target);
    names + globals + Letters(target)
  }

  lemma ComprehensionMembers(vars: seq<string>, locals: seq<VarId>, target: seq<char>)
    requires Within(locals, |vars|)
    ensures var names := seq(|locals|, j requires 0 <= j < |locals| => vars[locals[j]]);
            forall x :: x in names <==> exists j :: 0 <= j < |locals| && vars[locals[j]] == x
    ensures forall x :: x in Letters(target) <==> exists k :: 0 <= k < |target| && x == [target[k]]
  {
    var names := seq(|locals|, j requires 0 <= j < |locals| => vars[locals[j]]);
    forall x | exists j :: 0 <= j < |locals| && vars[locals[j]] == x
      ensures x in names
    {
      var j :| 0 <= j < |locals| && vars[locals[j]] == x;
      assert names[j] == x;
    }
    forall x | exists k :: 0 <= k < |target| && x == [target[k]]
      ensures x in Letters(target)
    {
      var k :| 0 <= k < |target| && x == [target[k]];
      assert Letters(target)[k] == x;
    }
  }

  /** What `getFreeLetter` is assumed to promise: it never returns a taken name. */
  ghost predicate AllocatorContract(getFreeLetter: seq<string> -> string)
  {
    forall taken :: FreeFor(getFreeLetter, taken)
  }

  /** `getFreeLetter` returns a name outside `taken`. */
  predicate FreeFor(getFreeLetter: seq<string> -> string, taken: seq<string>)
  {
    getFreeLetter(taken) !in taken
  }

  /**
   * The inner `locals.forEach` of a round, over the locals `ls`: each local
   * other than the candidate whose current name is `letter` is renamed to `free`.
   */
  function Displace(t: Tree, occ: seq<Occurrences>, ls: seq<VarId>, candidate: VarId, letter: string, free: string): (r: Tree)
    requires WellFormed(t, occ) && Within(ls, |occ|)
    ensures WellFormed(r, occ) && |r.ids| == |t.ids|
  {
    if ls == [] then t
    else
      var prior := Displace(t, occ, ls[..|ls| - 1], candidate, letter, free);
      var local := ls[|ls| - 1];
      if local != candidate && prior.vars[local] == letter then Rename(prior, occ, local, free) else prior
  }

  /**
   * After the displacement loop, a variable holds `free` exactly when it is
   * one of the locals, is not the candidate and was named `letter`; every
   * other variable has its name of before.
   */
  lemma {:induction false} DisplaceEffect(t: Tree, occ: seq<Occurrences>, ls: seq<VarId>, candidate: VarId, letter: string, free: string)
    requires WellFormed(t, occ) && Within(ls, |occ|)
    ensures forall u {:trigger Displace(t, occ, ls, candidate, letter, free).vars[u]} :: 0 <= u < |occ| ==>
              Displace(t, occ, ls, candidate, letter, free).vars[u] ==
                if u != candidate && u in ls && t.vars[u] == letter then free else t.vars[u]
  {
    if ls != [] {
      var prefix := ls[..|ls| - 1];
      var local := ls[|ls| - 1];
      assert ls == prefix + [local];
      DisplaceEffect(t, occ, prefix, candidate, letter, free);
      var prior := Displace(t, occ, prefix, candidate, letter, free);
      var r := Displace(t, occ, ls, candidate, letter, free);
      forall u | 0 <= u < |occ|
        ensures r.vars[u] == if u != candidate && u in ls && t.vars[u] == letter then free else t.vars[u]
      {
        assert prior.vars[u] == if u != candidate && u in prefix && t.vars[u] == letter then free else t.vars[u];
      }
    }
  }

  /**
   * The free letter of round `i`: `getFreeLetter` applied to the names taken
   * once the candidate has been renamed.
   */
  function FreeLetter(t: Tree, occ: seq<Occurrences>, locals: seq<VarId>, globals: seq<string>, target: seq<char>,
                      getFreeLetter: seq<string> -> string, i: nat): string
    requires WellFormed(t, occ) && Within(locals, |occ|) && i < |target| && i < |locals|
  {
    var renamed := Rename(t, occ, locals[i], [target[i]]);
    getFreeLetter(Taken(renamed.vars, locals, globals, target))
  }

  /**
   * Under the allocator's contract the free letter of a round is none of the
   * target letters, none of the globals and none of the locals' names at that point.
   */
  lemma FreeLetterFresh(t: Tree, occ: seq<Occurrences>, locals: seq<VarId>, globals: seq<string>, target: seq<char>,
                        getFreeLetter: seq<string> -> string, i: nat)
    requires WellFormed(t, occ) && Within(locals, |occ|) && i < |target| && i < |locals|
    requires AllocatorContract(getFreeLetter)
    ensures var free := FreeLetter(t, occ, locals, globals, target, getFreeLetter, i);
            var renamed := Rename(t, occ, locals[i], [target[i]]);
            && (forall k :: 0 <= k < |target| ==> free != [target[k]])
            && free !in globals
            && (forall j :: 0 <= j < |locals| ==> free != renamed.vars[locals[j]])
  {
    var renamed := Rename(t, occ, locals[i], [target[i]]);
    var taken := Taken(renamed.vars, locals, globals, target);
    assert FreeFor(getFreeLetter, taken);
  }

  /** One round of `targetLetters.forEach`, for position `i`. */
  function Step(t: Tree, occ: seq<Occurrences>, locals: seq<VarId>, globals: seq<string>, target: seq<char>,
                getFreeLetter: seq<string> -> string, i: nat): (r: Tree)
    requires WellFormed(t, occ) && Within(locals, |occ|) && i < |target| && i < |locals|
    ensures WellFormed(r, occ) && |r.ids| == |t.ids|
  {
    var letter := [target[i]];
    var candidate := locals[i];
    var renamed := Rename(t, occ, candidate, letter);
    var free := FreeLetter(t, occ, locals, globals, target, getFreeLetter, i);
    Displace(renamed, occ, locals, candidate, letter, free)
  }

  /**
   * At the end of round `i` the candidate `locals[i]` is named `target[i]`;
   * every other local that was named `target[i]` now holds the round's one
   * free letter; every other variable keeps its name.
   */
  lemma StepEffect(t: Tree, occ: seq<Occurrences>, locals: seq<VarId>, globals: seq<string>, target: seq<char>,
                   getFreeLetter: seq<string> -> string, i: nat)
    requires WellFormed(t, occ) && Within(locals, |occ|) && i < |target| && i < |locals|
    ensures Step(t, occ, locals, globals, target, getFreeLetter, i).vars[locals[i]] == [target[i]]
    ensures forall u {:trigger Step(t, occ, locals, globals, target, getFreeLetter, i).vars[u]} ::
              0 <= u < |occ| && u != locals[i] ==>
                Step(t, occ, locals, globals, target, getFreeLetter, i).vars[u] ==
                  if u in locals && t.vars[u] == [target[i]] then FreeLetter(t, occ, locals, globals, target, getFreeLetter, i)
                  else t.vars[u]
  {
    var renamed := Rename(t, occ, locals[i], [target[i]]);
    assert renamed.vars[locals[i]] == [target[i]];
    assert forall u :: 0 <= u < |occ| && u != locals[i] ==> renamed.vars[u] == t.vars[u];
    var free := FreeLetter(t, occ, locals, globals, target, getFreeLetter, i);
    DisplaceEffect(renamed, occ, locals, locals[i], [target[i]], free);
    var r := Displace(renamed, occ, locals, locals[i], [target[i]], free);
    assert r == Step(t, occ, locals, globals, target, getFreeLetter, i);
    assert r.vars[locals[i]] == renamed.vars[locals[i]];
    forall u | 0 <= u < |occ| && u != locals[i]
      ensures r.vars[u] == if u in locals && t.vars[u] == [target[i]] then free else t.vars[u]
    {
      assert renamed.vars[u] == t.vars[u];
    }
  }

  /** The first `n` rounds of `targetLetters.forEach`. */
  function Iterate(t: Tree, occ: seq<Occurrences>, locals: seq<VarId>, globals: seq<string>, target: seq<char>,
                   getFreeLetter: seq<string> -> string, n: nat): (r: Tree)
    requires WellFormed(t, occ) && Within(locals, |occ|) && n <= |target| && n <= |locals|
    ensures WellFormed(r, occ) && |r.ids| == |t.ids|
  {
    if n == 0 then t
    else Step(Iterate(t, occ, locals, globals, target, getFreeLetter, n - 1), occ, locals, globals, target, getFreeLetter, n - 1)
  }

  /**
   * The whole loop: it throws at round `|locals|` when the target is longer
   * than the list of locals, after the earlier rounds have been applied.
   */
  function RenameAll(t: Tree, occ: seq<Occurrences>, locals: seq<VarId>, globals: seq<string>, target: seq<char>,
                     getFreeLetter: seq<string> -> string): (r: Outcome)
    requires WellFormed(t, occ) && Within(locals, |occ|)
    ensures r.error.None? <==> |target| <= |locals|
    ensures r.error.Some? ==> r.error.value == NotEnoughVariables
  {
    if |target| <= |locals| then Outcome(None, Iterate(t, occ, locals, globals, target, getFreeLetter, |target|))
    else Outcome(Some(NotEnoughVariables), Iterate(t, occ, locals, globals, target, getFreeLetter, |locals|))
  }

  /** Helper for `RenameLocals`: `RenameAll` unfolded at the round where the loop stops. */
  lemma RenameAllStopsAt(t: Tree, occ: seq<Occurrences>, locals: seq<VarId>, globals: seq<string>, target: seq<char>,
                         getFreeLetter: seq<string> -> string, n: nat)
    requires WellFormed(t, occ) && Within(locals, |occ|) && n <= |target| && n <= |locals|
    requires n == |target| || n == |locals|
    ensures RenameAll(t, occ, locals, globals, target, getFreeLetter) ==
            Outcome(if n < |target| then Some(NotEnoughVariables) else None,
                    Iterate(t, occ, locals, globals, target, getFreeLetter, n))
  {
  }

  /** No letter occurs twice among the first `n` letters of the target. */
  predicate DistinctLetters(target: seq<char>, n: nat)
  {
    forall i, j :: 0 <= i < j < n && j < |target| ==> target[i] != target[j]
  }

  /**
   * When the first `n` target letters are pairwise distinct (an isogram) and
   * no local is listed twice, after `n` rounds local `i` is named `target[i]`
   * for every `i < n`.
   */
  lemma {:induction false} IterateAssigns(t: Tree, occ: seq<Occurrences>, locals: seq<VarId>, globals: seq<string>, target: seq<char>,
                                          getFreeLetter: seq<string> -> string, n: nat)
    requires WellFormed(t, occ) && Within(locals, |occ|) && n <= |target| && n <= |locals|
    requires NoDuplicates(locals) && DistinctLetters(target, n)
    ensures var r := Iterate(t, occ, locals, globals, target, getFreeLetter, n);
            forall i :: 0 <= i < n ==> r.vars[locals[i]] == [target[i]]
  {
    if n > 0 {
      IterateAssigns(t, occ, locals, globals, target, getFreeLetter, n - 1);
      var prior := Iterate(t, occ, locals, globals, target, getFreeLetter, n - 1);
      StepEffect(prior, occ, locals, globals, target, getFreeLetter, n - 1);
      forall i | 0 <= i < n - 1
        ensures Iterate(t, occ, locals, globals, target, getFreeLetter, n).vars[locals[i]] == [target[i]]
      {
        assert locals[i] != locals[n - 1];
        assert [target[i]] != [target[n - 1]] by { assert [target[i]][0] != [target[n - 1]][0]; }
      }
    }
  }

  /**
   * With a repeated target letter the last position wins: after `n` rounds
   * (under the allocator's contract) local `i` is named `target[i]` exactly
   * when no later position among the first `n` asks for the same letter.
   */
  lemma {:induction false} IterateLastWriteWins(t: Tree, occ: seq<Occurrences>, locals: seq<VarId>, globals: seq<string>, target: seq<char>,
                                                getFreeLetter: seq<string> -> string, n: nat)
    requires WellFormed(t, occ) && Within(locals, |occ|) && n <= |target| && n <= |locals|
    requires NoDuplicates(locals) && AllocatorContract(getFreeLetter)
    ensures LastWriteWins(Iterate(t, occ, locals, globals, target, getFreeLetter, n), locals, target, n)
  {
    if n > 0 {
      IterateLastWriteWins(t, occ, locals, globals, target, getFreeLetter, n - 1);
      var prior := Iterate(t, occ, locals, globals, target, getFreeLetter, n - 1);
      LastWriteRound(prior, occ, locals, globals, target, getFreeLetter, n - 1);
      assert Iterate(t, occ, locals, globals, target, getFreeLetter, n) == Step(prior, occ, locals, globals, target, getFreeLetter, n - 1);
    }
  }

  /**
   * After `n` rounds, local `i` is named `target[i]` exactly when no later
   * position among the first `n` asks for the same letter.
   */
  predicate LastWriteWins(r: Tree, locals: seq<VarId>, target: seq<char>, n: nat)
    requires n <= |target| && n <= |locals| && Within(locals, |r.vars|)
  {
    forall i {:trigger r.vars[locals[i]]} :: 0 <= i < n ==>
      (r.vars[locals[i]] == [target[i]] <==> forall j :: i < j < n ==> target[j] != target[i])
  }

  /** Round `m` carries `LastWriteWins` from `m` rounds to `m + 1`. */
  lemma LastWriteRound(prior: Tree, occ: seq<Occurrences>, locals: seq<VarId>, globals: seq<string>, target: seq<char>,
                       getFreeLetter: seq<string> -> string, m: nat)
    requires WellFormed(prior, occ) && Within(locals, |occ|) && m < |target| && m < |locals|
    requires NoDuplicates(locals) && AllocatorContract(getFreeLetter)
    requires LastWriteWins(prior, locals, target, m)
    ensures LastWriteWins(Step(prior, occ, locals, globals, target, getFreeLetter, m), locals, target, m + 1)
  {
    var r := Step(prior, occ, locals, globals, target, getFreeLetter, m);
    StepEffect(prior, occ, locals, globals, target, getFreeLetter, m);
    FreeLetterFresh(prior, occ, locals, globals, target, getFreeLetter, m);
    var free := FreeLetter(prior, occ, locals, globals, target, getFreeLetter, m);
    assert free != [target[m]];
    forall i | 0 <= i < m
      ensures r.vars[locals[i]] == [target[i]] <==> forall j :: i < j < m + 1 ==> target[j] != target[i]
    {
      assert free != [target[i]];
      assert locals[i] != locals[m];
      assert locals[i] in locals;
      if target[m] == target[i] {
        assert !(forall j :: i < j < m + 1 ==> target[j] != target[i]);
      } else {
        assert [target[i]] != [target[m]] by { assert [target[i]][0] != [target[m]][0]; }
        assert (forall j :: i < j < m + 1 ==> target[j] != target[i]) <==> (forall j :: i < j < m ==> target[j] != target[i]);
      }
    }
  }

  lemma {:induction false} DisplacePreservesConsistency(t: Tree, occ: seq<Occurrences>, ls: seq<VarId>, candidate: VarId, letter: string, free: string)
    requires Consistent(t, occ) && Disjoint(occ) && Within(ls, |occ|)
    ensures Consistent(Displace(t, occ, ls, candidate, letter, free), occ)
  {
    if ls != [] {
      var prior := Displace(t, occ, ls[..|ls| - 1], candidate, letter, free);
      DisplacePreservesConsistency(t, occ, ls[..|ls| - 1], candidate, letter, free);
      RenameEffect(prior, occ, ls[|ls| - 1], free);
    }
  }

  /**
   * Every round renames whole variables: starting from a consistent tree
   * whose variables share no node, every identifier node of a variable still
   * carries that variable's name after any number of rounds.
   */
  lemma {:induction false} IteratePreservesConsistency(t: Tree, occ: seq<Occurrences>, locals: seq<VarId>, globals: seq<string>, target: seq<char>,
                                                       getFreeLetter: seq<string> -> string, n: nat)
    requires Consistent(t, occ) && Disjoint(occ) && Within(locals, |occ|) && n <= |target| && n <= |locals|
    ensures Consistent(Iterate(t, occ, locals, globals, target, getFreeLetter, n), occ)
  {
    if n > 0 {
      IteratePreservesConsistency(t, occ, locals, globals, target, getFreeLetter, n - 1);
      var prior := Iterate(t, occ, locals, globals, target, getFreeLetter, n - 1);
      RenameEffect(prior, occ, locals[n - 1], [target[n - 1]]);
      var renamed := Rename(prior, occ, locals[n - 1], [target[n - 1]]);
      var free := FreeLetter(prior, occ, locals, globals, target, getFreeLetter, n - 1);
      DisplacePreservesConsistency(renamed, occ, locals, locals[n - 1], [target[n - 1]], free);
    }
  }

  /**
   * A round whose candidate already holds the letter still displaces: with
   * three locals all named "a" and target "a", the candidate keeps "a" and
   * the two others both move to the round's single free letter.
   */
  lemma NoOpRoundStillDisplaces(getFreeLetter: seq<string> -> string)
    requires AllocatorContract(getFreeLetter)
    ensures var occ := [Occurrences([], [0]), Occurrences([], [1]), Occurrences([], [2])];
            var r := Step(Tree(["a", "a", "a"], ["a", "a", "a"]), occ, [0, 1, 2], [], "a", getFreeLetter, 0);
            r.vars[0] == "a" && r.vars[1] == r.vars[2] != "a"
  {
    var occ := [Occurrences([], [0]), Occurrences([], [1]), Occurrences([], [2])];
    var t := Tree(["a", "a", "a"], ["a", "a", "a"]);
    var locals: seq<VarId> := [0, 1, 2];
    assert WellFormed(t, occ) by {
      assert Within(Ids(occ[0]), 3) && Within(Ids(occ[1]), 3) && Within(Ids(occ[2]), 3);
    }
    StepEffect(t, occ, locals, [], "a", getFreeLetter, 0);
    FreeLetterFresh(t, occ, locals, [], "a", getFreeLetter, 0);
    var r := Step(t, occ, locals, [], "a", getFreeLetter, 0);
    var free := FreeLetter(t, occ, locals, [], "a", getFreeLetter, 0);
    assert locals[0] == 0 && 1 in locals && 2 in locals;
    assert r.vars[1] == free && r.vars[2] == free;
    assert free != ["a"[0]];
  }

  /** The nodes `t` and `r` share keep their names in `r` whenever they belong to no variable. */
  predicate UnownedKept(t: Tree, r: Tree, occ: seq<Occurrences>)
  {
    forall k :: 0 <= k < |t.ids| && k < |r.ids| && Unowned(occ, k) ==> r.ids[k] == t.ids[k]
  }

  /** The displacement loop writes nothing into a node that belongs to no variable. */
  lemma {:induction false} DisplaceKeepsUnowned(t: Tree, occ: seq<Occurrences>, ls: seq<VarId>, candidate: VarId, letter: string, free: string)
    requires WellFormed(t, occ) && Within(ls, |occ|)
    ensures UnownedKept(t, Displace(t, occ, ls, candidate, letter, free), occ)
  {
    if ls != [] {
      DisplaceKeepsUnowned(t, occ, ls[..|ls| - 1], candidate, letter, free);
    }
  }

  /**
   * No round writes into a node that belongs to no variable: after any
   * number of rounds such a node, the read of an implicit global for one,
   * keeps its name.
   */
  lemma {:induction false} IterateKeepsUnowned(t: Tree, occ: seq<Occurrences>, locals: seq<VarId>, globals: seq<string>, target: seq<char>,
                                               getFreeLetter: seq<string> -> string, n: nat)
    requires WellFormed(t, occ) && Within(locals, |occ|) && n <= |target| && n <= |locals|
    ensures UnownedKept(t, Iterate(t, occ, locals, globals, target, getFreeLetter, n), occ)
  {
    if n > 0 {
      IterateKeepsUnowned(t, occ, locals, globals, target, getFreeLetter, n - 1);
      var prior := Iterate(t, occ, locals, globals, target, getFreeLetter, n - 1);
      var renamed := Rename(prior, occ, locals[n - 1], [target[n - 1]]);
      var free := FreeLetter(prior, occ, locals, globals, target, getFreeLetter, n - 1);
      DisplaceKeepsUnowned(renamed, occ, locals, locals[n - 1], [target[n - 1]], free);
    }
  }

  /**
   * The point of the displacement: after round `i` no local other than the
   * candidate is named `target[i]`, because every other local that held it
   * moved to the free letter, which is not a target letter.
   */
  lemma StepLetterUnique(t: Tree, occ: seq<Occurrences>, locals: seq<VarId>, globals: seq<string>, target: seq<char>,
                         getFreeLetter: seq<string> -> string, i: nat)
    requires WellFormed(t, occ) && Within(locals, |occ|) && i < |target| && i < |locals|
    requires AllocatorContract(getFreeLetter)
    ensures forall j :: 0 <= j < |locals| && locals[j] != locals[i] ==>
              Step(t, occ, locals, globals, target, getFreeLetter, i).vars[locals[j]] != [target[i]]
  {
    StepEffect(t, occ, locals, globals, target, getFreeLetter, i);
    FreeLetterFresh(t, occ, locals, globals, target, getFreeLetter, i);
    forall j | 0 <= j < |locals| && locals[j] != locals[i]
      ensures Step(t, occ, locals, globals, target, getFreeLetter, i).vars[locals[j]] != [target[i]]
    {
      assert locals[j] in locals;
    }
  }

  /** The locals carry pairwise distinct names. */
  predicate NamesDistinct(t: Tree, locals: seq<VarId>)
    requires Within(locals, |t.vars|)
  {
    forall p, q {:trigger t.vars[locals[p]], t.vars[locals[q]]} :: 0 <= p < q < |locals| ==> t.vars[locals[p]] != t.vars[locals[q]]
  }

  /**
   * A round never makes two locals share a name: when the locals' names are
   * pairwise distinct before round `i`, they are after it.
   */
  lemma StepKeepsDistinct(t: Tree, occ: seq<Occurrences>, locals: seq<VarId>, globals: seq<string>, target: seq<char>,
                          getFreeLetter: seq<string> -> string, i: nat)
    requires WellFormed(t, occ) && Within(locals, |occ|) && i < |target| && i < |locals|
    requires NoDuplicates(locals) && AllocatorContract(getFreeLetter) && NamesDistinct(t, locals)
    ensures NamesDistinct(Step(t, occ, locals, globals, target, getFreeLetter, i), locals)
  {
    var r := Step(t, occ, locals, globals, target, getFreeLetter, i);
    var renamed := Rename(t, occ, locals[i], [target[i]]);
    var free := FreeLetter(t, occ, locals, globals, target, getFreeLetter, i);
    StepEffect(t, occ, locals, globals, target, getFreeLetter, i);
    FreeLetterFresh(t, occ, locals, globals, target, getFreeLetter, i);
    assert free != renamed.vars[locals[i]];
    forall p, q | 0 <= p < q < |locals|
      ensures r.vars[locals[p]] != r.vars[locals[q]]
    {
      assert locals[p] in locals && locals[q] in locals;
      assert free != renamed.vars[locals[p]] && free != renamed.vars[locals[q]];
      if p != i && q != i {
        assert renamed.vars[locals[p]] == t.vars[locals[p]];
        assert renamed.vars[locals[q]] == t.vars[locals[q]];
      }
    }
  }

  /** Any number of rounds keep the locals' names pairwise distinct when they start so. */
  lemma {:induction false} IterateKeepsDistinct(t: Tree, occ: seq<Occurrences>, locals: seq<VarId>, globals: seq<string>, target: seq<char>,
                                                getFreeLetter: seq<string> -> string, n: nat)
    requires WellFormed(t, occ) && Within(locals, |occ|) && n <= |target| && n <= |locals|
    requires NoDuplicates(locals) && AllocatorContract(getFreeLetter) && NamesDistinct(t, locals)
    ensures NamesDistinct(Iterate(t, occ, locals, globals, target, getFreeLetter, n), locals)
  {
    if n > 0 {
      IterateKeepsDistinct(t, occ, locals, globals, target, getFreeLetter, n - 1);
      var prior := Iterate(t, occ, locals, globals, target, getFreeLetter, n - 1);
      StepKeepsDistinct(prior, occ, locals, globals, target, getFreeLetter, n - 1);
      assert Iterate(t, occ, locals, globals, target, getFreeLetter, n) == Step(prior, occ, locals, globals, target, getFreeLetter, n - 1);
    }
  }

  /** No target letter is the name of a global. */
  predicate LettersNotGlobal(target: seq<char>, globals: seq<string>)
  {
    forall k, g :: 0 <= k < |target| && 0 <= g < |globals| ==> [target[k]] != globals[g]
  }

  /** Every variable of `r` either keeps its name of `t` or is named like none of the globals. */
  predicate ChangedAvoidGlobals(t: Tree, r: Tree, globals: seq<string>)
  {
    forall u, g {:trigger r.vars[u], globals[g]} :: 0 <= u < |t.vars| && u < |r.vars| && 0 <= g < |globals| ==>
      r.vars[u] == t.vars[u] || r.vars[u] != globals[g]
  }

  /**
   * When no global is named like a target letter (what the guard checks for
   * one-character globals), no round gives a variable the name of a global:
   * the letters are not globals, and neither is any free letter.
   */
  lemma {:induction false} IterateAvoidsGlobals(t: Tree, occ: seq<Occurrences>, locals: seq<VarId>, globals: seq<string>, target: seq<char>,
                                                getFreeLetter: seq<string> -> string, n: nat)
    requires WellFormed(t, occ) && Within(locals, |occ|) && n <= |target| && n <= |locals|
    requires AllocatorContract(getFreeLetter)
    requires LettersNotGlobal(target, globals)
    ensures ChangedAvoidGlobals(t, Iterate(t, occ, locals, globals, target, getFreeLetter, n), globals)
  {
    if n > 0 {
      IterateAvoidsGlobals(t, occ, locals, globals, target, getFreeLetter, n - 1);
      var prior := Iterate(t, occ, locals, globals, target, getFreeLetter, n - 1);
      AvoidGlobalsRound(t, prior, occ, locals, globals, target, getFreeLetter, n - 1);
      assert Iterate(t, occ, locals, globals, target, getFreeLetter, n) == Step(prior, occ, locals, globals, target, getFreeLetter, n - 1);
    }
  }

  /** Round `m` keeps `ChangedAvoidGlobals` with respect to the tree the loop started from. */
  lemma AvoidGlobalsRound(t: Tree, prior: Tree, occ: seq<Occurrences>, locals: seq<VarId>, globals: seq<string>, target: seq<char>,
                          getFreeLetter: seq<string> -> string, m: nat)
    requires WellFormed(prior, occ) && |t.vars| == |occ| && Within(locals, |occ|) && m < |target| && m < |locals|
    requires AllocatorContract(getFreeLetter)
    requires LettersNotGlobal(target, globals)
    requires ChangedAvoidGlobals(t, prior, globals)
    ensures ChangedAvoidGlobals(t, Step(prior, occ, locals, globals, target, getFreeLetter, m), globals)
  {
    var r := Step(prior, occ, locals, globals, target, getFreeLetter, m);
    StepEffect(prior, occ, locals, globals, target, getFreeLetter, m);
    FreeLetterFresh(prior, occ, locals, globals, target, getFreeLetter, m);
    forall u, g | 0 <= u < |t.vars| && u < |r.vars| && 0 <= g < |globals|
      ensures r.vars[u] == t.vars[u] || r.vars[u] != globals[g]
    {
      assert globals[g] in globals;
      assert prior.vars[u] == t.vars[u] || prior.vars[u] != globals[g];
    }
  }
}
