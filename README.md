# isogram-param: the variable renamer

isogram-param rewrites a JavaScript program so that its local variables get
the names spelled by a target string. Local number `i`, in scope order, gets
the `i`-th character of the target. For example, `function(e,t,n,o,a,d,r,l,c,i,s,u)`
becomes `function(i,s,o,g,r,a,m,_,P,R,A,M)`. This project models the renaming
algorithm of the exported function in `index.js` and proves what it does.
Parsing, scope analysis and code generation are done by libraries. Only their
outputs are modelled.

- `types.dfy` (module `Types`) holds the analyser's output. A `Scope` has its
  variables and optional `implicit.left` global names. `Occurrences` holds a
  variable's reference identifiers and declaring identifiers. A `Tree` holds
  the names the renamer writes: one per identifier node (`ids`) and one per
  variable record (`vars`). Variables and nodes are indices into that arena,
  so the collector's identity test is a comparison of indices. The module
  also holds the two errors and the invariants `Consistent` and `Disjoint`.
  `Consistent` means every node of a variable carries the variable's name.
  `Disjoint` means no node belongs to two variables.
- `guard.dfy` (module `Guard`): `globalNames` and the guard that throws
  `Cannot replace global variable`.
- `collector.dfy` (module `Collector`): the `locals` list. The pure `Locals`
  specifies it, and the loop `CollectLocals`, with its callback
  `PushEligible`, is proved equal to it.
- `renamer.dfy` (module `Renamer`): `replaceName`, `taken`, one round of the
  renaming loop (`Step`) and the first `n` rounds (`Iterate`), written as
  functions on `Tree`, with the lemmas about them.
- `isogram.dfy` (module `IsogramParam`): `Transform`, the whole call on
  tree values, and the class `Program`. `Program` holds the identifier nodes
  and the variable records in two arrays. Its methods `ReplaceName`,
  `DisplaceLocals`, `RenameRound`, `RenameLocals` and `Run` overwrite those
  arrays in place, as the source does, and each is proved to end in exactly
  the state the functions above describe.

`util.getFreeLetter` lives in `lib/util`, which is not part of this model. It
is a parameter `getFreeLetter: seq<string> -> string`. The lemmas that need
its promise assume it through `Renamer.AllocatorContract`: the result is never
one of the taken names.

Some behaviour of `index.js` that the proved lemmas pin down:
- A round whose candidate already holds the letter still runs in full. Only
  `replaceName` returns early (`index.js:62-64`). `taken`, the free letter and
  the displacement loop still run (`index.js:78-84`), so every other local
  holding that letter is moved (`NoOpRoundStillDisplaces`).
- Each round computes one free letter (`index.js:79`). Every local displaced
  in that round gets that same letter (`StepEffect`, `NoOpRoundStillDisplaces`).
- With a repeated target letter (`"aa"`) the last position wins. Local `i`
  ends up named `target[i]` exactly when no later position asks for the same
  letter. This holds when `getFreeLetter` keeps its promise
  (`IterateLastWriteWins` assumes `AllocatorContract`).
- Any local can be displaced, including one past the end of the target,
  whenever a round asks for the letter it holds (`index.js:80-84`). Locals
  past the end of the target keep their names unless that happens.
- The displacement keeps name clashes from appearing, one round at a time.
  After round `i`, no local other than the candidate is named `target[i]`
  (`StepLetterUnique`). Locals whose names are pairwise distinct stay so
  (`StepKeepsDistinct`, `IterateKeepsDistinct`). Once the guard has passed, no
  variable is renamed to the name of a global (`IterateAvoidsGlobals`,
  `TransformAvoidsCollisions`). The code does not make the names distinct when
  they did not start so. Variables that already shared a name keep sharing
  it only as long as no round renames or moves either of them. The same goes
  for locals past the end of the target that no round touches.

## Model

| member | source | states |
|---|---|---|
| `Guard.GlobalNames` | index.js:38-41 | a name is in `globalNames` exactly when some scope has an `implicit.left` list that contains it |
| `Guard.FirstUnsafe` | index.js:42-47 | the guard passes exactly when no global is one character long with that character in the target; otherwise it throws for the first such global in list order |
| `Guard.OnlyOneCharacterGlobalsMatter` | index.js:43 | globals longer than one character never affect the guard, whatever characters they contain: it decides the same on the one-character globals alone |
| `Collector.Eligible` | index.js:51 | the filter keeps exactly the scope's variables that are not named `arguments` |
| `Collector.KeptPositions` | index.js:51 | the kept variables come from strictly increasing declaration positions, one per kept variable, so the filter keeps declaration order |
| `Collector.KeptPositionsExact` | index.js:51 | a declaration position is kept exactly when its variable is not named `arguments` |
| `Collector.KeptPositionsComplete` | index.js:51 | every declaration whose variable is not named `arguments` is kept |
| `Collector.Candidates` | index.js:50-51 | the variables visited are exactly those declared in some scope and not named `arguments` |
| `Collector.Dedup` | index.js:52-54 | the push-if-absent accumulator lists each variable at most once and holds exactly the variables it was offered |
| `Collector.Locals` | index.js:50-57 | `locals` has no variable twice, no variable named `arguments`, and holds exactly the non-`arguments` variables of the scopes |
| `Collector.DedupOrder` | index.js:52-54 | the accumulator keeps first-seen order: a variable listed before another was first met before it |
| `Collector.LocalsFirstSeenOrder` | index.js:50-57 | `locals` is in first-seen order over the scopes in order, then over each scope's declarations |
| `Collector.PushEligible` | index.js:51-56 | one call of the `reduce` callback turns the accumulator of the earlier scopes into the accumulator with this scope's eligible variables added |
| `Collector.CollectLocals` | index.js:50-57 | the accumulator loop over the scopes and their filtered variables returns exactly `Locals` |
| `Renamer.Relabel` | index.js:66-67 | writing the letter into the nodes one after the other names exactly those nodes with the letter and leaves every other node as it was |
| `Renamer.Rename` | index.js:61-68 | `replaceName` leaves the variable named `letter` and every other variable's name unchanged; it changes nothing when the name already matches; otherwise it sets exactly the variable's reference and declaration nodes to the letter |
| `Renamer.RenameEffect` | index.js:61-68 | on a consistent tree with disjoint occurrences, after `replaceName` all occurrences of the variable read `letter`, other variables' occurrences are untouched, and the tree stays consistent |
| `Renamer.Taken` | index.js:78 | `taken` holds exactly the locals' current names, the globals and the target's letters |
| `Renamer.FreeLetterFresh` | index.js:78-79 | under the allocator's promise, a round's free letter is no target letter, no global and no local's name once the candidate has been renamed |
| `Renamer.Displace` | index.js:80-84 | the displacement loop over the locals keeps the tree well formed; its effect on names is stated by `DisplaceEffect` |
| `Renamer.DisplaceEffect` | index.js:80-84 | after the displacement loop, a variable holds the free letter exactly when it is a local other than the candidate and was named `letter`; every other variable keeps its name |
| `Renamer.Step` | index.js:72-85 | one round keeps the tree well formed; its effect is stated by `StepEffect` |
| `Renamer.StepEffect` | index.js:72-85 | at the end of round `i`, `locals[i]` is named `target[i]`; every other local that was named `target[i]` holds the round's single free letter; every other variable keeps its name |
| `Renamer.Iterate` | index.js:72-85 | the first `n` rounds keep the tree well formed; their effect is stated by the lemmas below |
| `Renamer.RenameAll` | index.js:72-76 | the loop finishes without error exactly when the target is no longer than `locals`; otherwise it throws `Not enough variables` |
| `Renamer.IterateAssigns` | index.js:72-85 | when the first `n` target letters are pairwise distinct and no local is listed twice, after `n` rounds local `i` is named `target[i]` for every `i < n` |
| `Renamer.IterateLastWriteWins` | index.js:72-85 | under the allocator's promise, after `n` rounds local `i` is named `target[i]` exactly when no later position among the first `n` asks for the same letter |
| `Renamer.LastWriteRound` | index.js:72-85 | one round carries the last-write-wins property from `m` rounds to `m + 1` |
| `Renamer.DisplacePreservesConsistency` | index.js:80-84 | the displacement loop keeps every variable's occurrences named like the variable |
| `Renamer.IteratePreservesConsistency` | index.js:61-85 | any number of rounds keep every identifier node of a variable named like the variable, given disjoint occurrences |
| `Renamer.DisplaceKeepsUnowned` | index.js:80-84 | the displacement loop leaves every node that belongs to no variable with its name |
| `Renamer.IterateKeepsUnowned` | index.js:61-85 | any number of rounds leave every node that belongs to no variable, such as a read of an implicit global, with its name |
| `Renamer.StepLetterUnique` | index.js:72-84 | under the allocator's promise, after round `i` no local other than `locals[i]` is named `target[i]` |
| `Renamer.StepKeepsDistinct` | index.js:72-84 | under the allocator's promise, a round keeps the locals' names pairwise distinct when they were before it |
| `Renamer.IterateKeepsDistinct` | index.js:71-85 | under the allocator's promise, any number of rounds keep the locals' names pairwise distinct when they start so |
| `Renamer.AvoidGlobalsRound` | index.js:72-84 | one round keeps every variable either at its original name or off every global's name |
| `Renamer.IterateAvoidsGlobals` | index.js:71-85 | when no target letter is a global's name, under the allocator's promise, every variable either keeps its original name or is named like no global |
| `Renamer.NoOpRoundStillDisplaces` | index.js:62-84 | with three locals named "a" and target "a", the candidate keeps "a" and both other locals move to one and the same free letter, which is not "a" |
| `IsogramParam.Transform` | index.js:32-85 | the tree stays well formed; the call throws for an unsafe global exactly when some one-character global occurs in the target, and then the tree is untouched; it throws `Not enough variables` exactly when the guard passes and there are fewer locals than target letters |
| `IsogramParam.TransformIsogram` | index.js:26-85 | with pairwise distinct target letters, no unsafe global and enough locals, the call succeeds, local `i` is named `target[i]`, and on a consistent disjoint tree every occurrence of local `i` reads `target[i]` |
| `IsogramParam.TransformTooFewLocals` | index.js:72-76 | with fewer locals than target letters, the call throws at the position equal to the number of locals, the earlier rounds stay applied, and with distinct letters each of those locals is named by its target letter |
| `IsogramParam.TransformKeepsUnowned` | index.js:32-85 | whatever the outcome, nodes that belong to no variable keep their names |
| `IsogramParam.TransformAvoidsCollisions` | index.js:38-85 | whatever the outcome, under the allocator's promise, no variable is renamed to a global's name, and locals with pairwise distinct names keep pairwise distinct names |
| `IsogramParam.Program.constructor` | index.js:34-35 | builds the program from the analyser's output: fresh arrays holding the given node and variable names |
| `IsogramParam.Program.ReplaceName` | index.js:61-68 | the in-place `replaceName` leaves the arrays exactly as `Rename` describes |
| `IsogramParam.Program.DisplaceLocals` | index.js:80-84 | the in-place inner `locals.forEach` of a round leaves the arrays exactly as `Displace` describes |
| `IsogramParam.Program.RenameRound` | index.js:72-84 | one in-place call of the `forEach` callback leaves the arrays exactly as `Step` describes |
| `IsogramParam.Program.RenameLocals` | index.js:71-85 | the in-place `targetLetters.forEach` loop, with its nested displacement loop, returns the error and leaves the arrays exactly as `RenameAll` describes |
| `IsogramParam.Program.Run` | index.js:32-85 | the in-place call (guard, collect, rename) returns the error and leaves the arrays exactly as `Transform` describes |

## Left out

- Parsing (`esprima.parse`), scope analysis (`escope.analyze`) and code
  generation (`escodegen.generate`, `index.js:34-35`, `index.js:92-98`) are
  external libraries. The model starts from their output: the scopes, each
  variable's occurrence nodes and the names of the nodes and variables.
- The `raw` flag and the output format (`index.js:87-98`) only choose
  between returning the tree and serialising it. `Program.Run` ends with the
  mutated arrays, which is the tree the `raw` branch returns.
- `util.getFreeLetter` is not part of this model: its body, in `lib/util`, is outside it.
  It is a total function parameter, so its letter order and any failure of
  its own (for example an exhausted alphabet) are not modelled.
- The text of the thrown error messages is not modelled. A thrown
  `Error` is the `Error` datatype, and the global's name is kept in
  `UnsafeGlobal`.
- `target.split('')` works on UTF-16 code units. `length === 1` and
  `indexOf` count them too. The model treats strings as sequences of `char`
  and writes no encoding.
- After a throw the source drops the tree, because nothing is returned. The
  model still exposes the partly renamed tree, so that
  `TransformTooFewLocals` can state which renames were already applied.
