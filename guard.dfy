/**
 * The global-collision guard: the names of the implicit globals, and the
 * check that no one-character global occurs in the target string.
 */
module Guard {
  import opened Types

  /** Global `g` is listed among the implicit (undeclared) references of scope `s`. */
  predicate ReadsGlobal(s: Scope, g: string)
  {
    s.implicitLeft.Some? && g in s.implicitLeft.value
  }

  /**
   * `globalNames`: the names of `implicit.left` of every scope that has one,
   * concatenated in scope order.
   */
  function GlobalNames(scopes: seq<Scope>): (r: seq<string>)
    ensures forall g :: g in r <==> exists k :: 0 <= k < |scopes| && ReadsGlobal(scopes[k], g)
  {
    if scopes == [] then []
    else
      var found := if scopes[0].implicitLeft.Some? then scopes[0].implicitLeft.value else [];
      assert forall g :: ReadsGlobal(scopes[0], g) <==> g in found;
      assert forall k :: 0 < k < |scopes| ==> scopes[k] == scopes[1..][k - 1];
      found + GlobalNames(scopes[1..])
  }

  /** A global the guard refuses: a one-character name whose character occurs in the target. */
  predicate Unsafe(g: string, target: seq<char>)
  {
    |g| == 1 && g[0] in target
  }

  /**
   * The `globalNames.forEach` guard: the first global it throws for,
   * or None when it lets the call through.
   */
  function FirstUnsafe(globals: seq<string>, target: seq<char>): (r: Option<string>)
    ensures r.None? <==> forall j :: 0 <= j < |globals| ==> !Unsafe(globals[j], target)
    ensures r.Some? ==> exists j :: 0 <= j < |globals| && globals[j] == r.value && Unsafe(r.value, target) &&
                                    forall i :: 0 <= i < j ==> !Unsafe(globals[i], target)
  {
    if globals == [] then None
    else if Unsafe(globals[0], target) then Some(globals[0])
    else
      var r := FirstUnsafe(globals[1..], target);
      assert forall j :: 0 < j < |globals| ==> globals[j] == globals[1..][j - 1];
      r
  }

  /** The globals whose name is one character long. */
  function OneCharacterNames(globals: seq<string>): seq<string>
  {
    if globals == [] then []
    else if |globals[0]| == 1 then [globals[0]] + OneCharacterNames(globals[1..])
    else OneCharacterNames(globals[1..])
  }

  /**
   * Globals longer than one character never decide the guard, whatever
   * characters they contain: the guard gives the same verdict on the
   * one-character globals alone.
   */
  lemma {:induction false} OnlyOneCharacterGlobalsMatter(globals: seq<string>, target: seq<char>)
    ensures FirstUnsafe(globals, target) == FirstUnsafe(OneCharacterNames(globals), target)
  {
    if globals != [] {
      OnlyOneCharacterGlobalsMatter(globals[1..], target);
      if |globals[0]| == 1 {
        var rest := OneCharacterNames(globals[1..]);
        assert ([globals[0]] + rest)[0] == globals[0];
        assert ([globals[0]] + rest)[1..] == rest;
      }
    }
  }
}
