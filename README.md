# Sierpinski fractal tree: L-system expander and turtle interpreter

This project models the two algorithms at the core of the fractal-tree sketch
and proves properties of the models.

- **Grammar expander** (`makeInstructions`). One rewriting pass maps `1` to `11`
  and `0` to `1+0-[0]0`, and copies every other character unchanged. The
  expander applies the pass a given number of times. It is modelled by the pure
  functions `LSystem.Rule`, `LSystem.Rewrite` and `LSystem.Expansion`. It is also
  implemented as `LSystem.RewritePass`, a method with a loop that appends to the
  output string, and `LSystem.MakeInstructions`, which calls that method and
  then itself with one pass fewer. Both methods are proved equal to the functions.
- **Turtle interpreter** (`drawTree`, `PenInfo`, `drawRay`). A pen walks the
  instruction string. `0` and `1` draw a ray and move the pen to its end. `[`
  saves the pen and turns by the branch angle. `]` restores the saved position
  and sets the heading to the saved heading minus the branch angle. `+` saves the
  pen. `-` restores it exactly. Saved pens sit on one last-in-first-out stack.
  The reference definition is the function `Turtle.Run`, built from `Turtle.Step`. The
  loop in `Turtle.DrawTree` keeps the position, heading, stack and drawn rays in
  local variables, and is proved equal to `Run`.

Both models share the bookkeeping in module `Symbols`. `[` and `+` open a saved
pen and `]` and `-` close one. `Depth` is opens minus closes. `NeverBelow(s, b)`
says no prefix of `s` closes more than `b` plus what it opened. `WellNested` is
`NeverBelow(s, 0)` with total depth 0. This shared depth is all the interpreter
checks: it pops whichever pen is on top, so `+]` runs without error. `Scan` is a
bracket matcher that also tells the kinds apart: a close must find an open of
its own kind on top. `Matched(s)` says every `]` pairs with a `[` and every `-`
with a `+`, properly nested. `KindsNested(s)` says that per kind, no prefix
closes more than it opened.

How the model represents the interpreter's state:
- **Heading.** The heading starts at 3π/2 and only ever changes by plus or minus
  the branch angle. So every heading is 3π/2 plus an integer multiple of the
  branch angle, and the model keeps that integer (`Pen.angle`). The branch angle
  itself does not appear.
- **Position.** Every ray has the same magnitude. A position is therefore fixed
  by the list of headings of the rays walked from the origin (`Path`).
  `DrawRay` appends the ray's heading to that list.
- **Draw calls.** Each draw call is recorded as a `Ray` event, with its start,
  heading and end.

Notes on the code:
- The production of `0` has 8 symbols. Two passes from `0` therefore give 30
  symbols, and n passes give 4·3^n − 2^n − 2 (`LSystem.SeedLength`).
- After a branch `[s]`, the heading ends one branch angle below the heading
  before the branch. It does not return to the pre-branch heading
  (`Turtle.BranchRestores`).
- `+` and `-` are produced by the rule for `0`. So the interpreter's `+` and `-`
  cases are reachable from the seed `0`.
- The production of `0` pairs its own `-` with its own `+` and its `]` with its
  `[`. A pass therefore looks to the bracket matcher exactly like its input
  (`LSystem.RewriteScan`). So every expansion of `0` pairs its brackets kind by
  kind (`LSystem.SeedMatched`).

## Model

| member | source | states |
|---|---|---|
| `LSystem.Rule` | sketch.js:104-114 | every production is non-empty, and every character other than `0` and `1` is copied unchanged |
| `LSystem.RewritePass` | sketch.js:102-115 | the loop that appends each character's production computes exactly the pass `Rewrite` |
| `LSystem.MakeInstructions` | sketch.js:98-117 | the recursive expander returns exactly `Expansion(input, iterations)` |
| `LSystem.ExpansionZero` | sketch.js:99-100 | zero iterations return the input unchanged |
| `LSystem.RewriteConcat` | sketch.js:103-115 | a pass distributes over concatenation |
| `LSystem.RewriteLength` | sketch.js:103-115 | the length after a pass is 2·#1 + 8·#0 + #other characters |
| `LSystem.BranchCount` | sketch.js:108-110 | the production of `0` holds three `0` and one each of `1`, `+`, `-`, `[`, `]` |
| `LSystem.RuleCount` | sketch.js:104-114 | the count of each character in one production, in terms of the symbol rewritten |
| `LSystem.RewriteCount` | sketch.js:103-115 | after a pass: #0 triples, #1 becomes 2·#1 + #0, each bracket gains #0, every other character keeps its count |
| `LSystem.RewriteAlphabet` | sketch.js:104-114 | a pass over the closed alphabet stays in the closed alphabet |
| `LSystem.BranchPrefixDepth` | sketch.js:109 | the prefixes of `1+0-[0]0` have depths 0,0,1,1,0,1,1,0,0, so it is itself well-nested |
| `LSystem.RuleNeverBelow` | sketch.js:104-114 | each production changes the depth as its symbol does and never dips below where the symbol would |
| `LSystem.RewriteDepth` | sketch.js:103-115 | a pass keeps opens minus closes |
| `LSystem.RewriteNeverBelow` | sketch.js:103-115 | a pass never creates a prefix that closes more than is open |
| `LSystem.ExpansionCompose` | sketch.js:98-117 | m + n iterations equal n iterations applied to the result of m iterations |
| `LSystem.ExpansionStep` | sketch.js:98-117 | n + 1 iterations are one more pass over the result of n iterations |
| `LSystem.ExpansionConcat` | sketch.js:98-117 | expansion distributes over concatenation |
| `LSystem.ExpansionAlphabet` | sketch.js:98-117 | a seed over `{0,1,+,-,[,]}` expands to a string over the same alphabet |
| `LSystem.ExpansionNested` | sketch.js:98-117 | a well-nested seed expands to a well-nested string for every number of iterations |
| `LSystem.ExpansionBracketCounts` | sketch.js:98-117 | #[ − #] and #+ − #- are unchanged by expansion, so each bracket kind stays balanced |
| `LSystem.RewriteBracketCounts` | sketch.js:103-115 | one pass adds as many `[` as `]` and as many `+` as `-` |
| `LSystem.BranchPrefixScan` | sketch.js:109 | in `1+0-[0]0` the `-` closes the `+` and the `]` closes the `[`, and nothing is left open at the end |
| `LSystem.RuleScan` | sketch.js:104-114 | the bracket matcher sees each production exactly as it sees the symbol it replaces |
| `LSystem.RewriteScan` | sketch.js:103-115 | a pass is invisible to the bracket matcher, from any opens left pending |
| `LSystem.ExpansionScan` | sketch.js:98-117 | any number of passes is invisible to the bracket matcher |
| `LSystem.ExpansionMatched` | sketch.js:98-117 | an expansion pairs its brackets kind by kind exactly when its seed does, and then no prefix closes more `]` than `[` or more `-` than `+` |
| `LSystem.SeedMatched` | sketch.js:2 | every expansion of `0` pairs each `]` with a `[` and each `-` with a `+`, and is nested per kind |
| `Symbols.MatchedNested` | sketch.js:63-79 | a string whose brackets pair kind by kind is nested and balanced per kind, and well-nested on the interpreter's shared stack |
| `LSystem.SeedOnePass` | sketch.js:2 | one pass from the seed `0` gives `1+0-[0]0` |
| `LSystem.SeedShapedStep` | sketch.js:103-115 | a pass maps the symbol counts after k passes from `0` to those after k + 1 |
| `LSystem.SeedCounts` | sketch.js:2 | after n passes from `0`: 3^n zeros, 3^n − 2^n ones, (3^n − 1)/2 of each bracket |
| `LSystem.SeedLength` | sketch.js:2 | n passes from `0` give 4·3^n − 2^n − 2 symbols |
| `Turtle.DrawRay` | sketch.js:86-95 | the end point extends the start by one step, so the start and heading can be read back from it |
| `Turtle.Step` | sketch.js:58-80 | underflow exactly when `]` or `-` meets an empty stack; opens push the current pen, closes pop the top; a draw moves the pen to `DrawRay` of its position and heading, adds that one ray and leaves the stack and heading alone; `[` keeps the position and turns by +1; `+` keeps the pen; `]` takes the saved position with the saved heading − 1; `-` takes the saved pen exactly; other characters do nothing |
| `Turtle.Run` | sketch.js:57-82 | an underflow is reported at an index of the string that holds `]` or `-` |
| `Turtle.RunConcat` | sketch.js:57-82 | interpreting a + b interprets a, then b from where a ended; an underflow in a ends the run |
| `Turtle.RunStack` | sketch.js:55-80 | a run completes if and only if no prefix pops more pens than the stack holds, and then the stack depth grows by opens minus closes |
| `Turtle.RunKeepsStack` | sketch.js:55-80 | a run that never closes what it did not open leaves the pens saved below it untouched |
| `Turtle.RunRays` | sketch.js:59-62 | exactly one ray per `0` or `1`, earlier rays kept, each ray ending where `DrawRay` puts it |
| `Turtle.BranchRestores` | sketch.js:63-71 | around a well-nested body, `[`…`]` returns to the saved position with heading one branch angle below the saved heading and the stack as before |
| `Turtle.MarkRestores` | sketch.js:72-79 | around a well-nested body, `+`…`-` restores position and heading exactly and the stack as before |
| `Turtle.WellNestedRun` | sketch.js:55-80 | on a well-nested string there is no underflow, the stack ends empty, and there is one ray per draw symbol |
| `Turtle.UnderflowAt` | sketch.js:67-79 | an underflow at index `at` comes after the prefix before `at` ran to completion with an empty stack; that prefix's rays are the ones drawn before the pop fails |
| `Turtle.OpenThenDraw` | sketch.js:59-66 | a draw right after `[` draws a ray with the heading one branch angle further round than the pen before `[`, from the same position |
| `Turtle.MarkThenDraw` | sketch.js:59-74 | a draw right after `+` draws a ray with the pen's own position and heading |
| `Turtle.UnderflowStops` | sketch.js:68-69 | after an underflow the rest of the string is not interpreted |
| `Turtle.StepShift` | sketch.js:57-80 | a symbol's effect does not depend on its index, which only labels an underflow |
| `Turtle.DrawTree` | sketch.js:50-83 | the loop computes exactly `Run` from the initial pen; it completes if and only if the string never pops an empty stack; on a well-nested string it ends with an empty stack and one ray per draw symbol; an underflow names a `]` or `-` reached with an empty stack after the prefix before it ran to completion |
| `Turtle.ExpandedTreeDraws` | sketch.js:2 | drawing any expansion of a well-nested seed never underflows, ends with an empty stack and draws one ray per draw symbol |
| `Turtle.SeedTreeRays` | sketch.js:29 | the tree grown from `0` in n passes draws 2·3^n − 2^n rays |

## Left out

- The animation loop `draw()` is not modelled: weight easing, the angle update, and the swap of direction on a small floating-point increment. It is floating-point state driven by the p5.js frame callback.
- `setup()`, `createCanvas`, `background`, `line`, `createVector`, `width` and `height` are not modelled. They are p5.js and browser calls. The origin is the empty `Path`, and each `line` call is a recorded `Ray`.
- The `cos`/`sin` arithmetic in `drawRay` is not modelled, because it is floating point. Positions are lists of headings, and the ray magnitude (the default 5) is left implicit, since every ray uses the same one.
- The branch angle is not a parameter of `Turtle.DrawTree`. Headings are kept as integer multiples of it, so every branch angle gives the same model.
- `drawTree` reads the global `drawInstructions` instead of its `instructions` parameter. The model interprets its parameter; at the one call site the two are the same string.
- `branchLength = 20` in `drawTree` is unused and is not modelled.
- `Turtle.DrawTree`: popping an empty stack makes the source throw a TypeError when it reads `.position` of `undefined`. The model stops instead and returns `Underflow` with the index of the offending symbol.
- `Turtle.DrawTree`: the rays drawn before an underflow are already on the canvas in the source, but `Underflow(at)` carries no rays. They are the rays of `Run(Initial(), instructions[..at])`, which the contract of `DrawTree` (through `Turtle.UnderflowAt`) says ran to completion.
- `LSystem.MakeInstructions`: the iteration count is a `nat`. In the source a negative count never reaches the base case. If the seed holds a `0` or a `1`, the string grows on every pass until `+=` throws a RangeError at the engine's maximum string length. Only for a seed without `0` and `1` does the recursion go on until the call stack overflows.
- `LSystem.MakeInstructions`: strings are unbounded in the model. The source throws a RangeError once a pass builds a string longer than the JavaScript engine's maximum string length, which is about 2^29 to 2^30 characters depending on the engine. From the seed `0`, pass 17 gives 516,429,578 symbols and pass 18 gives 4·3^18 − 2^18 − 2 = 1,549,419,810 (`LSystem.SeedLength`). So `makeInstructions('0', 18)` throws, while `Expansion("0", 18)` is defined. The sketch itself uses 7 passes, which give 8,618 symbols.
- The concrete depth-7 instruction string built at load time is not computed. Its symbol counts and length follow from `LSystem.SeedCounts` and `LSystem.SeedLength` with n = 7.
- Repeated calls give identical results. This is not stated as a lemma, because every model operation is a deterministic function or a method proved equal to one.
