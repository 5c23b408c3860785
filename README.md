# Effect analysis, branch seeking and address alignment

This project models three pieces of binaryen's IR utilities:

- The **`BreakSeeker`** visitor. It counts the `Break` nodes of a tree that
  target one label. `has` reports whether there is at least one.
- The **`EffectAnalyzer`** visitor. It walks an expression tree in
  post-order and accumulates a conservative effect summary:
  - flags for control flow, calls, memory reads and memory writes;
  - the sets of locals read and written.
  The summary has four derived predicates. Optimisation passes use the
  pairwise `invalidates` test to decide whether two fragments may be
  reordered.
- The support arithmetic **`isPowerOf2`** and **`alignAddr`**. `alignAddr`
  rounds an address up to a power-of-two boundary with a bit mask.

Layout:

- `wasm.dfy` (module `Wasm`): the slice of the IR these visitors
  observe. A node is a kind plus its ordered children. `Kinds` is the set of
  node kinds in a tree.
- `effects.dfy` (module `EffectSummary`):
  - the summary value with its derived predicates and the `invalidates`
    relation;
  - an independent reference for the relation, as conflicts between atomic
    accesses;
  - the post-order analysis of a tree as a function;
  - a second reference for that analysis, as a function of the set of node
    kinds that occur.
- `ast_utils.dfy` (module `AstUtils`): the two visitors as classes. Their
  fields change in place. Each `Walk` method is a post-order loop over a
  node's children followed by the node's visitor. The analyzer's methods
  are proved against the functions of `effects.dfy`, the seeker's against
  `CountBreaks` and `Wasm.Kinds`.
- `utilities.dfy` (module `Utilities`):
  - `uint32_t` and 64-bit `size_t` as bounded integers;
  - unsigned wrap-around, `~` and `&` written out: `&` is a recursive
    function on binary digits;
  - `isPowerOf2` and `alignAddr`, with their properties.

## Model

| member | source | states |
|---|---|---|
| `EffectSummary.Effects.AccessesLocal` | src/ast_utils.h:53 | holds exactly when some local is read or written (the size test is set non-emptiness) |
| `EffectSummary.Effects.AccessesMemory` | src/ast_utils.h:54 | a call always counts as a memory access |
| `EffectSummary.Effects.HasSideEffects` | src/ast_utils.h:55 | side effects imply `HasAnything`; writing any local is a side effect |
| `EffectSummary.Effects.HasAnything` | src/ast_utils.h:56 | false exactly when all four flags are false and both sets are empty |
| `EffectSummary.Effects.Join` | src/ast_utils.h:92-110 | combining two summaries gives their least upper bound under "records everything the other records" |
| `EffectSummary.InvalidatesIsConflict` | src/ast_utils.h:59-74 | `invalidates` holds iff either side branches, or an atomic access of one side (call, memory read or write, local read or write) conflicts with one of the other side |
| `EffectSummary.InvalidatesSymmetric` | src/ast_utils.h:59-74 | the relation does not depend on the order of its two arguments |
| `EffectSummary.BranchesInvalidate` | src/ast_utils.h:60 | control flow on either side invalidates, in both directions |
| `EffectSummary.CallsInvalidateMemory` | src/ast_utils.h:61-62 | a call on one side invalidates any memory access or call on the other, in both directions |
| `EffectSummary.ReadsNeverInvalidate` | src/ast_utils.h:59-74 | two fragments that only read memory and locals never invalidate each other |
| `EffectSummary.LocalHazards` | src/ast_utils.h:65-74 | with no control flow and no memory access, invalidation holds iff some local is written on the receiver's side and read or written on the other, or read on the receiver's side and written on the other |
| `EffectSummary.LocalScenarios` | src/ast_utils.h:66-73 | a set of `x` against a get of `x` invalidates; two gets of `x` do not |
| `EffectSummary.RuleIsSummarize` | src/ast_utils.h:92-110 | each visitor records exactly the effect its node kind stands for |
| `EffectSummary.AnalyzeIsSummarize` | src/ast_utils.h:92-110 | the post-order analysis of a tree is determined by the set of node kinds in it, whatever their order and nesting |
| `EffectSummary.AnalyzeMonotonic` | src/ast_utils.h:92-110 | analysing a tree records at least what analysing any of its subtrees records |
| `EffectSummary.CallsIffCallNode` | src/ast_utils.h:97-109 | `calls` is recorded iff a Call, CallImport, CallIndirect or Host node occurs, and then memory counts as accessed |
| `EffectSummary.BranchesIffControlFlowNode` | src/ast_utils.h:92-110 | `branches` is recorded iff a Block, Loop, If, Break, Switch, Return or Unreachable node occurs |
| `EffectSummary.LocalsIffLocalNodes` | src/ast_utils.h:100-105 | a name is read (written) iff a GetLocal (SetLocal) of it occurs; a local is accessed iff some GetLocal or SetLocal occurs |
| `EffectSummary.MemoryIffMemoryNodes` | src/ast_utils.h:106-107 | memory is read iff a Load occurs and written iff a Store occurs |
| `AstUtils.CountBreaksPositive` | src/ast_utils.h:31-33 | the break count is positive iff a `Break` to the target occurs; a `Switch` naming the target does not count |
| `AstUtils.BreakSeeker.constructor` | src/ast_utils.h:29 | the seeker starts with the given target and a count of zero |
| `AstUtils.BreakSeeker.VisitBreak` | src/ast_utils.h:31-33 | the count goes up by one exactly when the break's label is the target |
| `AstUtils.BreakSeeker.Visit` | src/ast_utils.h:31-33 | only a `Break` to the target changes the count |
| `AstUtils.BreakSeeker.Walk` | src/ast_utils.h:37 | the walk adds the number of breaks to the target in the tree, so the count never decreases |
| `AstUtils.BreakSeeker.Has` | src/ast_utils.h:35-39 | true iff the tree holds a `Break` whose label is the target |
| `AstUtils.EffectAnalyzer.constructor` | src/ast_utils.h:46-51 | a fresh analyzer records nothing |
| `AstUtils.EffectAnalyzer.Invalidates` | src/ast_utils.h:59-75 | the flag test and the two loops over locals compute the `invalidates` relation of the two summaries |
| `AstUtils.EffectAnalyzer.CheckPre` | src/ast_utils.h:79-85 | on a Loop it sets `branches` and returns true; on any other node it changes nothing and returns false |
| `AstUtils.EffectAnalyzer.CheckPost` | src/ast_utils.h:87-90 | runs the node's visitor, then returns `hasAnything` of the new state |
| `AstUtils.EffectAnalyzer.Walk` | src/ast_utils.h:45 | walking a tree joins the tree's analysis into the fields, which only grow |
| `AstUtils.EffectAnalyzer.Visit` | src/ast_utils.h:92-110 | the dispatch joins exactly the node kind's rule into the fields |
| `AstUtils.EffectAnalyzer.VisitBlock` | src/ast_utils.h:92 | sets `branches` and nothing else |
| `AstUtils.EffectAnalyzer.VisitLoop` | src/ast_utils.h:93 | sets `branches` and nothing else |
| `AstUtils.EffectAnalyzer.VisitIf` | src/ast_utils.h:94 | sets `branches` and nothing else |
| `AstUtils.EffectAnalyzer.VisitBreak` | src/ast_utils.h:95 | sets `branches` and nothing else |
| `AstUtils.EffectAnalyzer.VisitSwitch` | src/ast_utils.h:96 | sets `branches` and nothing else |
| `AstUtils.EffectAnalyzer.VisitCall` | src/ast_utils.h:97 | sets `calls` and nothing else |
| `AstUtils.EffectAnalyzer.VisitCallImport` | src/ast_utils.h:98 | sets `calls` and nothing else |
| `AstUtils.EffectAnalyzer.VisitCallIndirect` | src/ast_utils.h:99 | sets `calls` and nothing else |
| `AstUtils.EffectAnalyzer.VisitGetLocal` | src/ast_utils.h:100-102 | adds the name to `localsRead` and changes nothing else |
| `AstUtils.EffectAnalyzer.VisitSetLocal` | src/ast_utils.h:103-105 | adds the name to `localsWritten` and changes nothing else |
| `AstUtils.EffectAnalyzer.VisitLoad` | src/ast_utils.h:106 | sets `readsMemory` and nothing else |
| `AstUtils.EffectAnalyzer.VisitStore` | src/ast_utils.h:107 | sets `writesMemory` and nothing else |
| `AstUtils.EffectAnalyzer.VisitReturn` | src/ast_utils.h:108 | sets `branches` and nothing else |
| `AstUtils.EffectAnalyzer.VisitHost` | src/ast_utils.h:109 | sets `calls` and nothing else |
| `AstUtils.EffectAnalyzer.VisitUnreachable` | src/ast_utils.h:110 | sets `branches` and nothing else |
| `Utilities.IsPowerOf2Exactly` | src/support/utilities.h:38-40 | `isPowerOf2(v)` holds iff `v == 2^k` for some `k < 32`; in particular it is false on 0 |
| `Utilities.NoOverflow` | src/support/utilities.h:46 | the second assertion passes iff `address + alignment - 1` fits in `size_t` |
| `Utilities.AlignAddr` | src/support/utilities.h:42-49 | for a power-of-two alignment, the result is a multiple of the alignment, lies in `[address, address + alignment)`, and equals `address` when `address` is already aligned |
| `Utilities.AlignAddrIsLeast` | src/support/utilities.h:48 | the result is the least multiple of the alignment at or above `address` |
| `Utilities.AlignAddrByOne` | src/support/utilities.h:48 | with alignment 1 the result is the address itself |
| `Utilities.AsWrittenAcceptsNonPowerOfTwo` | src/support/utilities.h:43-48 | the truncated check accepts alignment `2^32 + 1`, which is no power of two, and then address 1 comes back as 1, which is not a multiple of it |

## Left out

- `bit_cast` (src/support/utilities.h:27-36). It is `memcpy` type punning between object representations. Nothing about it can be stated on values.
- `ExpressionManipulator::nop` (src/ast_utils.h:113-117). It overwrites a node's arena storage in place with a `Nop`. Its correctness rests on C++ object size and layout.
- wasm.h and wasm-traversal.h are not part of this model. The IR class hierarchy becomes the `Wasm.Kind` datatype. Node kinds without a visitor become `Nop` and one `Other` kind, neither of which records anything.
- The traversal engine is replaced by `Walk`: it descends into a node's children in order, then calls the node's visitor. The real walker's own visiting order inside each node kind is not modelled.
- `checkPre` and `checkPost` are modelled as the hooks they are. Neither `Walk` nor anything in src/ast_utils.h calls them.
- `std::set` ordering and iteration order. Only membership matters, so the sets are Dafny `set<Name>` values. The loops in `invalidates` take their elements in an arbitrary order.
- Assertion failures abort the program. Each `assert` is modelled as a `requires` on the path that reaches it.
- AstUtils.EffectAnalyzer.Invalidates requires that the flag test decides the answer, or that the receiver has at most one local access in total.
  - This follows the assertion at src/ast_utils.h:65.
  - The comment on that line calls it a fast path for one element against many; the model keeps it as the code's precondition.
  - The relation itself, `EffectSummary.Effects.Invalidates`, uses full set semantics with no size restriction.
- AstUtils.BreakSeeker.Walk: `found` is a `size_t`, modelled as an unbounded `nat`; a count past 2^64 breaks is not modelled.
- `size_t` is taken to be 64 bits wide. On a 32-bit target `(uint32_t)alignment` changes nothing, and the finding below cannot arise; that target is not modelled.
- Utilities.AlignAddr requires `alignment < 2^32`. This is stronger than the truncated assertion, which admits larger alignments (see Findings). Inside that range the two checks accept the same alignments.

## Findings

| source | as written | input that shows it | evidently intended | confidence | as-written member | corrected member |
|---|---|---|---|---|---|---|
| src/support/utilities.h:43 | the power-of-two check looks only at `(uint32_t)alignment`, the low 32 bits of a 64-bit `size_t` | `alignment = 2^32 + 1` (low bits 1, a power of two), `address = 1`: both assertions pass and the result is 1, not a multiple of the alignment | only power-of-two alignments pass, and the result is the least aligned address at or above `address` | not executed; follows from the proved lemma | `Utilities.AsWrittenAcceptsNonPowerOfTwo` | `Utilities.AlignAddr` |
