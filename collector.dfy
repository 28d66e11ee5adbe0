/**
 * The local-variable collector: every variable of every scope, in scope
 * order and then declaration order, once each (by identity), except the
 * variables named `arguments`.
 */
module Collector {
  import opened Types

  /** `scope.variables.filter(v => v.name !== 'arguments')`. */
  function Eligible(variables: seq<VarId>, names: seq<string>): (r: seq<VarId>)
    requires Within(variables, |names|)
    ensures Within(r, |names|)
    ensures forall v :: v in r <==> v in variables && names[v] != "arguments"
  {
    if variables == [] then []
    else
      var prefix := variables[..|variables| - 1];
      var v := variables[|variables| - 1];
      assert variables == prefix + [v];
      Eligible(prefix, names) + (if names[v] != "arguments" then [v] else [])
  }

  /**
   * Where the kept variables sit in the scope's declarations: at strictly
   * increasing positions, so the filter keeps declaration order.
   */
  function KeptPositions(variables: seq<VarId>, names: seq<string>): (pos: seq<nat>)
    requires Within(variables, |names|)
    ensures |pos| == |Eligible(variables, names)|
    ensures forall i :: 0 <= i < |pos| ==> pos[i] < |variables| && variables[pos[i]] == Eligible(variables, names)[i]
    ensures forall i, j :: 0 <= i < j < |pos| ==> pos[i] < pos[j]
  {
    if variables == [] then []
    else
      var prefix := variables[..|variables| - 1];
      var v := variables[|variables| - 1];
      assert variables == prefix + [v];
      assert forall p :: 0 <= p < |prefix| ==> prefix[p] == variables[p];
      KeptPositions(prefix, names) + (if names[v] != "arguments" then [|prefix|] else [])
  }

  /** The filter drops a declaration exactly when its variable is named `arguments`. */
  lemma KeptPositionsExact(variables: seq<VarId>, names: seq<string>)
    requires Within(variables, |names|)
    ensures forall p :: 0 <= p < |variables| ==> (p in KeptPositions(variables, names) <==> names[variables[p]] != "arguments")
  {
    var pos := KeptPositions(variables, names);
    forall p | 0 <= p < |variables| && p in pos
      ensures names[variables[p]] != "arguments"
    {
      var i :| 0 <= i < |pos| && pos[i] == p;
      assert Eligible(variables, names)[i] in Eligible(variables, names);
    }
    KeptPositionsComplete(variables, names);
  }

  /** Every declaration whose variable is not named `arguments` is kept. */
  lemma {:induction false} KeptPositionsComplete(variables: seq<VarId>, names: seq<string>)
    requires Within(variables, |names|)
    ensures forall p :: 0 <= p < |variables| && names[variables[p]] != "arguments" ==> p in KeptPositions(variables, names)
  {
    if variables != [] {
      var prefix := variables[..|variables| - 1];
      var v := variables[|variables| - 1];
      assert variables == prefix + [v];
      KeptPositionsComplete(prefix, names);
      var kept := KeptPositions(prefix, names);
      var pos := KeptPositions(variables, names);
      assert pos == kept + (if names[v] != "arguments" then [|prefix|] else []);
      forall p | 0 <= p < |variables| && names[variables[p]] != "arguments"
        ensures p in pos
      {
        if p < |prefix| {
          assert prefix[p] == variables[p];
          var i :| 0 <= i < |kept| && kept[i] == p;
          assert pos[i] == p;
        } else {
          assert pos[|kept|] == p;
        }
      }
    }
  }

  /** The variables the collector visits, in the order it visits them. */
  function Candidates(scopes: seq<Scope>, names: seq<string>): (r: seq<VarId>)
    requires ScopesWithin(scopes, |names|)
    ensures Within(r, |names|)
    ensures forall v :: v in r <==> exists k :: 0 <= k < |scopes| && v in scopes[k].variables && names[v] != "arguments"
  {
    if scopes == [] then []
    else
      var prefix := scopes[..|scopes| - 1];
      assert forall k :: 0 <= k < |prefix| ==> prefix[k] == scopes[k];
      Candidates(prefix, names) + Eligible(scopes[|scopes| - 1].variables, names)
  }

  /** The accumulator of `result.indexOf(variable) === -1 && result.push(variable)` over `s`. */
  function Dedup(s: seq<VarId>): (r: seq<VarId>)
    ensures NoDuplicates(r)
    ensures forall v :: v in r <==> v in s
  {
    if s == [] then []
    else
      var prefix := s[..|s| - 1];
      var v := s[|s| - 1];
      assert s == prefix + [v];
      var d := Dedup(prefix);
      if v in d then d else d + [v]
  }

  /** The positional `locals` list. */
  function Locals(scopes: seq<Scope>, names: seq<string>): (r: seq<VarId>)
    requires ScopesWithin(scopes, |names|)
    ensures NoDuplicates(r) && Within(r, |names|)
    ensures forall v :: v in r <==> exists k :: 0 <= k < |scopes| && v in scopes[k].variables && names[v] != "arguments"
  {
    var c := Candidates(scopes, names);
    var r := Dedup(c);
    assert forall j :: 0 <= j < |r| ==> r[j] in c;
    r
  }

  /** Position of the first occurrence of `v` in `s`. */
  function IndexOf(s: seq<VarId>, v: VarId): (k: nat)
    requires v in s
    ensures k < |s| && s[k] == v && v !in s[..k]
  {
    if s[0] == v then 0
    else
      var k := IndexOf(s[1..], v);
      assert s[..k + 1] == [s[0]] + s[1..][..k];
      k + 1
  }

  lemma FirstOccurrenceIsUnique(s: seq<VarId>, v: VarId, k: nat)
    requires k < |s| && s[k] == v && v !in s[..k]
    ensures IndexOf(s, v) == k
  {
  }

  lemma IndexOfAppend(s: seq<VarId>, x: VarId, v: VarId)
    requires v in s
    ensures IndexOf(s + [x], v) == IndexOf(s, v)
  {
    var k := IndexOf(s, v);
    assert (s + [x])[..k] == s[..k];
    FirstOccurrenceIsUnique(s + [x], v, k);
  }

  /**
   * `Dedup` keeps first-seen order: a variable listed before another was
   * first met before it.
   */
  lemma {:induction false} DedupOrder(s: seq<VarId>)
    ensures forall i, j :: 0 <= i < j < |Dedup(s)| ==> IndexOf(s, Dedup(s)[i]) < IndexOf(s, Dedup(s)[j])
  {
    if s != [] {
      var prefix := s[..|s| - 1];
      var x := s[|s| - 1];
      assert s == prefix + [x];
      DedupOrder(prefix);
      var d := Dedup(prefix);
      forall y | y in d
        ensures IndexOf(s, y) == IndexOf(prefix, y)
      {
        IndexOfAppend(prefix, x, y);
      }
      if x !in d {
        assert prefix == s[..|prefix|];
        FirstOccurrenceIsUnique(s, x, |prefix|);
        forall i, j | 0 <= i < j < |Dedup(s)|
          ensures IndexOf(s, Dedup(s)[i]) < IndexOf(s, Dedup(s)[j])
        {
          assert Dedup(s) == d + [x];
          assert Dedup(s)[i] in d;
          if j == |d| {
            assert IndexOf(prefix, d[i]) < |prefix|;
          } else {
            assert Dedup(s)[j] in d;
          }
        }
      }
    }
  }

  /**
   * `locals` lists the variables in the order they are first met, over the
   * scopes in order and then over each scope's declarations.
   */
  lemma LocalsFirstSeenOrder(scopes: seq<Scope>, names: seq<string>)
    requires ScopesWithin(scopes, |names|)
    ensures var c := Candidates(scopes, names); var l := Locals(scopes, names);
            forall i, j :: 0 <= i < j < |l| ==> IndexOf(c, l[i]) < IndexOf(c, l[j])
  {
    DedupOrder(Candidates(scopes, names));
  }

  lemma DedupPush(previous: seq<VarId>, eligible: seq<VarId>, j: nat)
    requires j < |eligible|
    ensures var d := Dedup(previous + eligible[..j]);
            Dedup(previous + eligible[..j + 1]) == if eligible[j] in d then d else d + [eligible[j]]
  {
    var s := previous + eligible[..j];
    assert previous + eligible[..j + 1] == s + [eligible[j]];
    assert (s + [eligible[j]])[..|s|] == s;
  }

  lemma CandidatesPush(scopes: seq<Scope>, names: seq<string>, k: nat)
    requires k < |scopes| && ScopesWithin(scopes, |names|)
    ensures ScopesWithin(scopes[..k], |names|) && ScopesWithin(scopes[..k + 1], |names|)
    ensures Candidates(scopes[..k + 1], names) == Candidates(scopes[..k], names) + Eligible(scopes[k].variables, names)
  {
    assert scopes[..k + 1][..k] == scopes[..k];
  }

  /**
   * One call of the `reduce` callback: pushes each eligible variable of the
   * scope that the accumulator does not hold yet.
   */
  method PushEligible(locals: seq<VarId>, ghost previous: seq<VarId>, eligible: seq<VarId>) returns (r: seq<VarId>)
    requires locals == Dedup(previous)
    ensures r == Dedup(previous + eligible)
  {
    r := locals;
    var j := 0;
    assert previous + eligible[..0] == previous;
    while j < |eligible|
      invariant 0 <= j <= |eligible|
      invariant r == Dedup(previous + eligible[..j])
    {
      var variable := eligible[j];
      DedupPush(previous, eligible, j);
      if variable !in r {
        r := r + [variable];
      }
      j := j + 1;
    }
    assert eligible[..j] == eligible;
  }

  /** The `scopes.reduce` that builds `locals` by pushing onto an accumulator. */
  method CollectLocals(scopes: seq<Scope>, names: array<string>) returns (locals: seq<VarId>)
    requires ScopesWithin(scopes, names.Length)
    ensures locals == Locals(scopes, names[..])
  {
    ghost var current := names[..];
    locals := [];
    var k := 0;
    assert scopes[..0] == [];
    while k < |scopes|
      invariant 0 <= k <= |scopes|
      invariant ScopesWithin(scopes[..k], |current|)
      invariant locals == Dedup(Candidates(scopes[..k], current))
    {
      var eligible := Eligible(scopes[k].variables, names[..]);
      locals := PushEligible(locals, Candidates(scopes[..k], current), eligible);
      CandidatesPush(scopes, current, k);
      k := k + 1;
    }
    assert scopes[..k] == scopes;
  }
}
