# Verified models of weak_compiler

weak_compiler turns a small C-like language into a flat intermediate
representation, analyses and optimises that representation, interprets it, and
emits RISC-V machine code. This project models the parts of it where a mistake
is easiest to make and hardest to see, and proves what they promise for all
inputs. Nothing was executed; every statement below is proved by Dafny's
verifier. `dafny verify dfyconfig.toml` checks the whole project.

## What is modelled

**Dominators** (`FlowGraph`, `Semidominators`, `DepthFirst`, `LinkEval`,
`DominatorTree`, `Renumbering`, `IrDominators`, `DominanceFrontier`).
`FlowGraph` says what dominance is, over paths only. `Semidominators` holds the
theory behind the algorithm of Lengauer and Tarjan. `DominatorTree.DomState` is
the program: its static arrays, the recursive search, the union-find forest with
path compression, the buckets and the deferred immediate dominators.
`IrDominators` and `DominanceFrontier` are the entry points that work on
instructions.

**From structured code to jumps and back to values** (`Int32`, `IntLaws`, `Ir`, `Ast`,
`Lowering`, `LoweringCorrect`, `FunctionCorrect`, `IrGenerator`, `Interpreter`,
`TypePass`, `LoweredTypes`, `Arith`, `Compiler`, `CfgLink`, `LoweredTargets`,
`LoweredFlow`). `Ast`
gives the int-only source language a meaning, `Ir` one to the instruction list,
as a step function on plain ints. Both compute with the operators of `Int32`;
`IntLaws` holds these to 32-bit words, to the law of division and to the order of
the integers. `IrGenerator.IrGen` is the generator with its
global state and its jumps patched in place, `Lowering` the function that it
computes. `Interpreter` is the interpreter as it is, which reads the types that
`TypePass` writes into symbols; `LoweredTypes` shows that generated code declares
every variable before its uses. `Arith` is the algebraic optimiser, `Compiler`
the interpreting driver. `CfgLink` builds the control flow graph, `LoweredTargets`
says for which functions that succeeds, and `LoweredFlow` joins the two ends: on
which generated code the dominators come out right.

**Hash map** (`HashMaps`), **register allocation** (`RegAlloc`), **expression
parser** (`Parser`, `Grammar`) and **binary IR files** (`IrBinary`): each a class or
a set of methods over arrays and cursors as in the source, proved against a
mathematical map, a simulation, a printer and a grammar, and a pair of functions.

**Code emission** (`Emit`, `BitNumbers`, `RiscVEncode`, `RiscVMachine`,
`RiscVEmit`, `RiscVWords`, `CallWords`, `RiscVFrame`, `FnLayout`, `RegisterLru`):
the addresses of functions and calls while `_start` is squeezed in front of them,
the bit fields of instruction words, which calls reach their callee, a machine for
the emitted instructions, what a sequence that stands for one instruction with a
large immediate computes, the emitted bytes as code of that machine, what prologue
and epilogue restore, and that functions are as long as the addresses say.

## What came out

- The dominators are right exactly when no edge leads from unreachable code into
  a reachable instruction other than the first
  (`IrDominators.IrDominatorTree`); the two checks that would skip such edges are
  commented out in the source. Functions that return only at their end meet the
  condition (`LoweredFlow.LoweredFlows`); a `return` inside of a `while` is enough
  to break it (`LoweredFlow.EarlyReturnBreaksDominators`).
- Predecessors are the exact inverse of successors if and only if nothing but a
  ret directly follows a ret (`CfgLink.PredsInverseOfSuccs`).
- The entry instruction gets into frontiers only when it has two predecessors,
  and never into its own; an unreachable instruction with several predecessors
  gets into the frontiers of exactly these (`DominanceFrontier.IrDominanceFrontier`).
- The generated code returns a value if and only if the source function returns
  it, and falls off its end if and only if the source does
  (`FunctionCorrect.LoweringPreservesMeaning`); with the types of the type pass and
  the links of the control flow graph the interpreter computes just that
  (`Compiler.InterpretedMeaning`).
- Building the links succeeds if and only if every jump target is in the list, and
  that is so exactly for void functions and for those whose body does not end in an
  if or in a loop with its condition in front, statements without code apart
  (`LoweredTargets.LoweredIsLinkable`).
  The driver stops on `int f(int c) { if (c) { return 1; } }`
  (`Compiler.ReturnInIfStops`).
- The optimiser builds symbols without a type, and it runs behind the type pass.
  On plain ints all of its rewrites are right (`Arith.OptKeepsRuns`), but the
  interpreter goes by the types. Optimised code steps like the original in every
  state if and only if no replacement holds a symbol (`Arith.OptStepsExactly`):
  x - x, x * 0 and x & 0 are safe; a + 0 with a = 5 returns 0
  (`Compiler.AddZeroReturnsZero`), and a * 2 traps (`Compiler.DoubleTraps`). A
  second type pass behind the optimiser would repair it (`Arith.RetypedRuns`).
- In the hash map `size` counts every put, also one that overwrites. A history of
  puts, gets and removes is answered like a mathematical map as long as none of its
  operations looks for an absent key in a table whose buckets have all been
  occupied before (`HashMaps.RunHistory`), and there the probe never stops
  (`HashMaps.StuckProbe`). With four buckets or more, puts and gets alone never get
  there; with fewer, three puts are enough, and so are enough put/remove pairs for
  any capacity, because tombstones stay occupied.
- The parser accepts exactly what the expression grammar derives, up to the first
  token that ends an expression, and builds the tree of the derivation
  (`Grammar.ParsesExactly`); the grammar is unambiguous. Operators of equal
  precedence lean to the right, and the loop of each rung of the parser runs at
  most once.
- A function is read back from its binary file if and only if its name, its body
  and all strings in it are non-empty, because reading zero bytes counts as a
  failure.
- `addi`, `addiw` and loads with an arbitrary immediate are exact in every state if
  and only if the immediate fits, or is split in two and is not 4095, or goes
  through a scratch register that is not the base and, but for `addiw`, is below
  2^31 - 2^11 (`RiscVEmit.ImmOpExactly`).
- Prologue and epilogue restore `sp`, `ra` and `s0` around every body that leaves
  the stack pointer and the saved slots alone, if and only if the stack usage is
  at most 2032 bytes: beyond that nothing is saved, silently
  (`RiscVFrame.FrameWorksExactly`). The same holds of the emitted bytes, read back
  as instruction words and run (`RiscVFrame.FrameBytes`).
- In the emitted bytes a call leads to the address in the symbol table if and only
  if that is at most 2^20 bytes back and less than 2^20 ahead; farther callees are
  missed silently (`CallWords.CallReaches`).
- The scratch registers are handed out once each; the 28th request fails
  (`RegisterLru.AllocationsRunOut`).

Where comments and code disagree, the model follows the code. The comment at
lib/middle_end/ir/gen.c:518-522 says that a ret ends every function whatever its
return type; only void functions get one (lib/middle_end/ir/gen.c:794-795), so
others can fall off their end. The comment at lib/back_end/risc_v.c:47 says that
the least recently used register is reclaimed; once the 27 free registers have
been used, an unused entry is in front and the request fails. The grammar at
draft/draft.tex:434-439 has one prefix operator at a time and a logical not; the
parser nests prefix operators and knows no `!` (lib/front_end/parse/parse.c:1038-1059),
and `Grammar` follows it. In the other clauses the two agree, symbols being names only.

## Conventions

A failed `weak_fatal_error` or a compile error is a `None`, a `Fail` or a result
of `false`. Division by zero and shift counts outside of 0..31, which C leaves
undefined, have the fixed value 0. Array bounds of the source (512 vertices, 512
variables, 32 registers, a positive number of buckets) are preconditions, since
the source indexes static arrays without a check. Names stand for their CRC-32
hashes.

## Model

| member | source | states |
|---|---|---|
| FlowGraph.IdomUnique | lib/middle_end/ir/dom.c:106-170 | a reachable vertex has at most one immediate dominator over all paths, so the table has one right answer |
| Semidominators.LowestIsAncestor | lib/middle_end/ir/dom.c:83-95 | path lemma: the lowest-numbered vertex of a path is a search-tree ancestor of everything after it |
| Semidominators.SemidomIsAncestor | lib/middle_end/ir/dom.c:119-141 | the semidominator of w is a proper ancestor of w |
| Semidominators.SemiPathThrough | lib/middle_end/ir/dom.c:128-139 | a candidate found through the forest is the start of a semidominator path into w |
| Semidominators.SemiPathDecompose | lib/middle_end/ir/dom.c:128-139 | every longer semidominator path comes through such a candidate (Theorem 4 of Lengauer and Tarjan) |
| Semidominators.PathJumpsOver | lib/middle_end/ir/dom.c:143-169 | a path that misses an ancestor of its end jumps over it along a semidominator path |
| Semidominators.DominatorOfSemidom | lib/middle_end/ir/dom.c:143-169 | every strict dominator of w dominates the semidominator of w |
| Semidominators.SemidomIsIdom | lib/middle_end/ir/dom.c:143-152 | Theorem 2: if no vertex between has a smaller semidominator, the semidominator is the immediate dominator |
| Semidominators.IdomIsRelative | lib/middle_end/ir/dom.c:166-169 | Theorem 3: otherwise w shares the immediate dominator of the vertex with the smallest semidominator |
| DepthFirst.NumbersLeft | lib/middle_end/ir/dom.c:83-95 | while a vertex is unvisited fewer numbers than vertices are given out, so the recursion ends |
| DepthFirst.AfterCall | lib/middle_end/ir/dom.c:83-95 | the subtree numbered by a recursive call joins the subtree of the caller; earlier numbers and parents stay |
| DominatorTree.DomState.Dfs | lib/middle_end/ir/dom.c:83-95 | numbers an interval of vertices in preorder, finishes each of them, and leaves earlier numbers alone |
| LinkEval.CompressionKeepsAnswers | lib/middle_end/ir/dom.c:57-80 | pointing a vertex at its root with its own answer as label changes root and answer of no vertex |
| LinkEval.EvalIsMin | lib/middle_end/ir/dom.c:57-80 | the answer for v is a vertex of least semidominator on the tree path below the one being processed |
| LinkEval.LinkChildren | lib/middle_end/ir/dom.c:154-163 | hanging the tree children of u below u keeps the forest right for the next vertex |
| DominatorTree.DomState.LeastSemidom | lib/middle_end/ir/dom.c:57-80 | returns the answer the forest held before and the root; compression keeps all answers; it terminates because links go down |
| DominatorTree.DomState.ComputeSemidom | lib/middle_end/ir/dom.c:119-140 | semidom[u] is at most every candidate of its predecessors, and is one of them when all are visited |
| DominatorTree.DomState.ProcessBucket | lib/middle_end/ir/dom.c:143-152 | every vertex in the bucket gets u, or the vertex with the least semidominator on the path; others keep theirs |
| DominatorTree.DomState.LinkToParent | lib/middle_end/ir/dom.c:154-163 | exactly the tree children of u are linked to u |
| DominatorTree.DomState.InitTrees | lib/middle_end/ir/dom.c:111-116 | the loop that makes every vertex its own tree establishes the invariant of the main loop |
| DominatorTree.DomState.Visit | lib/middle_end/ir/dom.c:119-164 | one round of the main loop keeps the forest, the buckets, the settled semidominators and the deferred dominators |
| DominatorTree.SemidomIsLeast | lib/middle_end/ir/dom.c:119-141 | the minimum over predecessors and forest answers is the smallest number with a semidominator path into u |
| DominatorTree.DomState.ResolveDeferred | lib/middle_end/ir/dom.c:166-169 | one pass upwards turns every deferred entry into the immediate dominator |
| DominatorTree.DomState.DomTree | lib/middle_end/ir/dom.c:106-170 | semidominators and immediate dominators are right when all predecessors were visited; a vertex with an unvisited one stays its own dominator |
| Renumbering.CompleteIsDfsNumbered | lib/middle_end/ir/dom.c:83-95 | a finished search is a depth-first numbering of the visited part of the graph |
| Renumbering.IdomToVertices | lib/middle_end/ir/dom.c:198-218 | an immediate dominator among numbers is one among instructions |
| Renumbering.VisitedIffReachable | lib/middle_end/ir/dom.c:83-95 | the search visits exactly what is reachable from instruction 0 |
| IrDominators.Fill | lib/middle_end/ir/dom.c:176-196 | both graph arrays hold the edges of the function, forwards and backwards |
| IrDominators.Publish | lib/middle_end/ir/dom.c:210-217 | every instruction gets the instruction behind its dominator's number; the back list of d holds exactly the instructions with dominator d, in ascending order |
| IrDominators.IrDominatorTree | lib/middle_end/ir/dom.c:198-218 | all immediate dominators of reachable instructions are right if and only if no edge from dead code enters live code other than the entry; every instruction stands in exactly one back list, that of its dominator, and the lists ascend |
| DominanceFrontier.StepUp | lib/middle_end/ir/dom.c:259-268 | following one link loses exactly one dominator, so the walks end |
| DominanceFrontier.IrDominates | lib/middle_end/ir/dom.c:259-268 | true exactly when every entry path to node passes through dom; from dead code only node and the entry are met |
| DominanceFrontier.IdomDominatesPreds | lib/middle_end/ir/dom.c:222-246 | the immediate dominator of y dominates every predecessor of y, so the runner meets it |
| DominanceFrontier.Climb | lib/middle_end/ir/dom.c:228-241 | the runner adds y for exactly the dominators of p that do not strictly dominate y, and stops |
| DominanceFrontier.IrDominanceFrontier | lib/middle_end/ir/dom.c:222-246 | for every function whose dominators are right: a reachable y is in df of x if and only if x dominates a predecessor of y and does not strictly dominate y; an unreachable y with two or more predecessors is handed to exactly these; the entry is the exception, stated exactly |
| Interpreter.Machine.EvalBin | lib/back_end/eval.c:297-321 | int operands of known type are combined; an unknown or different type is a trap |
| Interpreter.Machine.InstrEval | lib/back_end/eval.c:415-485 | one instruction on ints, through the interpreter's globals and the links of the list, is one step of the specification, types included |
| Interpreter.FunEval | lib/back_end/eval.c:565-587 | the interpreter's loop, which follows the linked successors, runs the specification's steps |
| Interpreter.TrapsExactly | lib/back_end/eval.c:297-321 | computing a body traps if and only if it is a binary operation with an untyped symbol |
| IntLaws.AddsWords | lib/back_end/eval.c:221-254 | + is addition of 32-bit words in two's complement |
| IntLaws.SubtractsWords | lib/back_end/eval.c:221-254 | - is their subtraction |
| IntLaws.MultipliesWords | lib/back_end/eval.c:221-254 | * is their multiplication |
| IntLaws.BitwiseOnWords | lib/back_end/eval.c:221-254 | &, bitwise or and ^ are the operations on the words |
| IntLaws.ShiftsWords | lib/back_end/eval.c:221-254 | << and >> by 0 to 31 shift the word, >> with copies of the sign |
| IntLaws.DivisionLaw | lib/back_end/eval.c:221-254 | quotient times divisor plus remainder is the dividend; the remainder is smaller than the divisor and has the sign of the dividend |
| IntLaws.OrderLaws | lib/back_end/eval.c:221-254 | < is the order of the integers, > is < turned around, >= and <= are the complements, exactly one of <, == and > gives 1 |
| IntLaws.LogicLaws | lib/back_end/eval.c:221-254 | logical and is 0 exactly when an operand is 0, logical or exactly when both are |
| Interpreter.TypedRun | lib/back_end/eval.c:65-90 | where every symbol has its type, no run traps and all are runs on plain ints |
| Ir.RunStaysStopped | lib/back_end/eval.c:565-587 | a run that has returned stays returned with the same value |
| Lowering.ExprExtends | lib/middle_end/ir/gen.c:207-232 | lowering an expression only appends instructions, uses new indices and declares no name |
| Lowering.StmtExtends | lib/middle_end/ir/gen.c:295-553 | lowering a statement, patches included, never touches an instruction that was there before |
| Lowering.NamesKept | lib/middle_end/ir/gen.c:637-653 | no name in scope gets another index |
| LoweringCorrect.ExprSim | lib/middle_end/ir/gen.c:207-232 | expression code runs straight through, changes no variable below the first new index, and leaves the expression's value in its operand |
| LoweringCorrect.GuardSim | lib/middle_end/ir/gen.c:484-512 | condition and exit jump lead to the body or to the patched exit, as the condition says |
| LoweringCorrect.IfPlaced | lib/middle_end/ir/gen.c:464-543 | where the finished list has the branches of an if and its patched jumps |
| LoweringCorrect.IfSim | lib/middle_end/ir/gen.c:464-543 | if and else branch for branch |
| LoweringCorrect.WhileSim | lib/middle_end/ir/gen.c:370-414 | while loops, any number of rounds |
| LoweringCorrect.DoWhileSim | lib/middle_end/ir/gen.c:416-462 | do-while loops |
| LoweringCorrect.ForSim | lib/middle_end/ir/gen.c:295-368 | for loops with every combination of their parts |
| LoweringCorrect.StmtSim | lib/middle_end/ir/gen.c:295-681 | every statement: same variables afterwards, same value when it returns, still running when the source runs out of fuel |
| FunctionCorrect.FunctionSim | lib/middle_end/ir/gen.c:777-812 | the same for a function started on its arguments |
| FunctionCorrect.LoweringPreservesMeaning | lib/middle_end/ir/gen.c:777-812 | generated code returns v if and only if the source returns v, and runs off its end if and only if the source does |
| IrGenerator.IrGen.constructor | lib/middle_end/ir/gen.c:777-800 | parameters take the first indices; nothing is generated yet |
| IrGenerator.IrGen.VisitExpr | lib/middle_end/ir/gen.c:207-232 | temporaries, operands and stores through ir_last give the lowered expression |
| IrGenerator.IrGen.EmitGuard | lib/middle_end/ir/gen.c:484-512 | condition aimed behind its exit jump |
| IrGenerator.IrGen.VisitSimple | lib/middle_end/ir/gen.c:181-190 | assignments, ++ and --, declarations, expressions and returns through ir_last |
| IrGenerator.IrGen.VisitIf | lib/middle_end/ir/gen.c:464-543 | in-place patching of exit and else jumps, the first patch overwritten by the second, gives the lowered if |
| IrGenerator.IrGen.VisitWhile | lib/middle_end/ir/gen.c:370-414 | jump back and patched exit give the lowered while |
| IrGenerator.IrGen.VisitDoWhile | lib/middle_end/ir/gen.c:416-462 | condition aimed at the remembered start gives the lowered do-while |
| IrGenerator.IrGen.VisitFor | lib/middle_end/ir/gen.c:295-368 | optional parts, remembered condition and patched exit give the lowered for |
| IrGenerator.VisitFnDecl | lib/middle_end/ir/gen.c:777-812 | the list is the lowered function, and every entry stands at the instr_idx stamped on it |
| Arith.ClearsLowestBit | lib/middle_end/opt/arith.c:29-33 | x & (x - 1) is zero for powers of two and for no other positive number |
| Arith.NthBit | lib/middle_end/opt/arith.c:35-48 | the loop finds k with x = 2^k, below 31 |
| Arith.OptArithStore | lib/middle_end/opt/arith.c:53-137 | the chain of rules with its loop for the shift count gives the replacement that the next four rows and Arith.OptBinKeepsValue describe |
| Arith.SymbolRemainsExactly | lib/middle_end/opt/arith.c:68-109 | symbol and constant under +, - or bitwise or: the symbol alone remains if and only if the operation changes no value, and nothing else happens |
| Arith.ProductRewrittenExactly | lib/middle_end/opt/arith.c:86-123 | symbol times constant: 0 remains if and only if every product is 0, a shift for exactly the powers of two |
| Arith.MaskRewrittenExactly | lib/middle_end/opt/arith.c:94-100 | symbol masked with a constant: 0 remains if and only if every result is 0, and nothing else happens |
| Arith.OthersRewrittenExactly | lib/middle_end/opt/arith.c:53-125 | all other bodies stay, but for the difference of a symbol and itself, which becomes 0 |
| Arith.OptArith | lib/middle_end/opt/arith.c:227-234 | exactly the stores with a rule are replaced in place |
| Arith.OptBinKeepsValue | lib/middle_end/opt/arith.c:53-125 | every rewrite has the value of the original under 32-bit wrapping, whatever the variables hold |
| Arith.OptKeepsRuns | lib/middle_end/opt/arith.c:227-234 | on plain ints the rewritten program goes through the same states step for step |
| Arith.OptStepsExactly | lib/middle_end/opt/arith.c:53-137 | behind the type pass, the interpreter steps through the rewritten code as through the original in every state if and only if no replacement holds a symbol |
| Arith.RetypedRuns | lib/middle_end/opt/arith.c:53-137 | with a second type pass behind the optimiser every run is that of the original code on plain ints |
| TypePass.TypePassInstr | lib/middle_end/ir/type.c:199-239 | an alloca enters its type into the map, every other instruction gets the map's types |
| TypePass.TypePassFn | lib/middle_end/ir/type.c:241-255 | in place, every symbol gets the type in force at its position |
| TypePass.TypedExactly | lib/middle_end/ir/type.c:241-255 | the pass types every symbol if and only if each variable is declared before its uses in the order of the list |
| LoweredTypes.StmtUses | lib/middle_end/ir/gen.c:295-681 | the code of a statement uses only variables that are declared before it or in it |
| LoweredTypes.LoweredDeclares | lib/middle_end/ir/gen.c:777-812 | every generated function declares its variables before their uses |
| Compiler.InterpretedMeaning | compiler/compiler.c:121-133 | linked and interpreted behind the type pass, generated code returns v if and only if the function can be linked and the source function returns v |
| Compiler.Compile | compiler/compiler.c:121-133 | generation, type pass, optimiser and links: linking succeeds exactly for the functions that can be linked; the result steps like the typed code if and only if no replacement holds a symbol, and then the driver returns, for all arguments, what the source returns and only that |
| Compiler.ReturnInIfStops | lib/middle_end/ir/gen.c:906-914 | a function that passes the declaration checks and returns inside of its last if: the source returns 1, the driver stops in link() for all arguments |
| Compiler.AddZeroReturnsZero | lib/middle_end/opt/arith.c:68-75 | a = 5; return a + 0 returns 5 in the source and 0 behind the optimiser |
| Compiler.DoubleTraps | lib/middle_end/opt/arith.c:111-122 | a = 5; return a * 2 returns 10 in the source and traps behind the optimiser |
| CfgLink.DropRets | lib/middle_end/ir/gen.c:928-944 | the backward loop removes exactly the rets from the predecessors |
| CfgLink.Link | lib/middle_end/ir/gen.c:966-1006 | succeeds if and only if all targets are in the list; then successors in order and predecessors with their counts, for every order in which the hash map hands out the statements |
| CfgLink.PredsInverseOfSuccs | lib/middle_end/ir/gen.c:966-1006 | predecessors are the exact inverse of successors if and only if nothing but a ret directly follows a ret |
| CfgLink.LinkedIsFlowGraph | lib/middle_end/ir/gen.c:966-1006 | the linked lists are the graph and the predecessor lists that the dominator code expects |
| CfgLink.StepFollowsSuccs | lib/back_end/eval.c:415-441 | the interpreter goes to the first successor, to one of two after a condition, and stops after a ret |
| LoweredTargets.StmtWithin | lib/middle_end/ir/gen.c:295-553 | every patched target of a statement lies in its code or just behind it |
| LoweredTargets.StmtStaysInside | lib/middle_end/ir/gen.c:295-553 | without an if or a loop with its condition in front at its end, all targets of a statement lie in its code |
| LoweredTargets.StmtAimsBehind | lib/middle_end/ir/gen.c:295-553 | with one, some jump leads right behind its code |
| LoweredTargets.LoweredIsLinkable | lib/middle_end/ir/gen.c:777-812 | all jump targets of a function are in its list if and only if it is void or its body does not end in such a statement |
| LoweredFlow.StmtLive | lib/middle_end/ir/gen.c:295-553 | all code of a statement without return and endless for is reachable once its start is, and so is what follows |
| LoweredFlow.LoweredFlows | lib/middle_end/ir/gen.c:777-812 | a function that returns only at its end has reachable code throughout and rets only at the end |
| LoweredFlow.Analyse | lib/middle_end/ir/gen.c:966-1006 | link, dominator tree and frontier on such a function are all right |
| LoweredFlow.EarlyReturnBreaksDominators | lib/middle_end/ir/dom.c:129-163 | a concrete function with a return inside of a while: dead code leads into live code, and preds are not the inverse of succs |
| HashMaps.ProbeEnds | lib/util/hashmap.c:67-125 | a probe ends if and only if the key is stored or a bucket was never occupied |
| HashMaps.StopMeansFound | lib/util/hashmap.c:92-108 | where a probe stops tells whether the key is stored, and with which value |
| HashMaps.StoreKeeps | lib/util/hashmap.c:67-90 | writing where the probe stopped stores the updated map with unbroken chains |
| HashMaps.DeleteKeeps | lib/util/hashmap.c:110-125 | a tombstone removes one key and breaks no chain |
| HashMaps.ProbeIsLinear | lib/util/hashmap.c:14-17 | a probe looks at the buckets from key modulo capacity on, one after the other, and wraps around |
| HashMaps.HashMap.Find | lib/util/hashmap.c:67-125 | the probe loop ends at the first bucket that decides about the key |
| HashMaps.HashMap.Get | lib/util/hashmap.c:92-108 | the stored value and success, or all ones and failure |
| HashMaps.HashMap.Put | lib/util/hashmap.c:67-90 | the map gains the pair; the table doubles exactly when three quarters of it count as used; what happens to size, tombstones and room |
| HashMaps.HashMap.Resize | lib/util/hashmap.c:41-65 | the same map in twice the buckets, no tombstones, and no nested resize |
| HashMaps.HashMap.Remove | lib/util/hashmap.c:110-125 | the key is gone, its bucket stays occupied |
| HashMaps.HashMap.Has | lib/util/hashmap.c:127-132 | true exactly for stored keys |
| HashMaps.Apply | lib/util/hashmap.c:67-125 | one operation that is not stuck leaves the table that the history's bookkeeping predicts and answers like a map |
| HashMaps.RunHistory | lib/util/hashmap.c:67-125 | every history of puts, gets and removes that is never stuck ends and answers like a mathematical map |
| HashMaps.StuckProbe | lib/util/hashmap.c:67-125 | conversely, the operation at which a history is stuck has a probe that never stops |
| HashMaps.PutsAndGetsNeverStuck | lib/util/hashmap.c:67-108 | from four buckets on no history of puts and gets is ever stuck |
| HashMaps.FillSmallTable | lib/util/hashmap.c:67-90 | below four buckets as many puts as buckets leave a probe that never stops |
| HashMaps.FillWithTombstones | lib/util/hashmap.c:110-125 | put/remove pairs fill a table of any capacity with tombstones: empty map, no probe stops |
| RegAlloc.First | lib/middle_end/ir/regalloc.c:135-169 | the earliest store that mentions a variable, or -1 |
| RegAlloc.Last | lib/middle_end/ir/regalloc.c:135-169 | the latest store that mentions it, or -1 |
| RegAlloc.LiveRanges | lib/middle_end/ir/regalloc.c:171-186 | the start and end arrays hold first and last mention for all variables |
| RegAlloc.BuildGraph | lib/middle_end/ir/regalloc.c:45-64 | the matrix is symmetric and holds exactly the pairs of distinct variables whose closed ranges meet |
| RegAlloc.OverlapMeans | lib/middle_end/ir/regalloc.c:45-64 | the comparison of two live ranges says whether some instruction lies in both |
| RegAlloc.Colour | lib/middle_end/ir/regalloc.c:66-98 | every variable gets the least register no earlier neighbour holds, or is spilled when all are held |
| RegAlloc.RegAllocFn | lib/middle_end/ir/regalloc.c:352-364 | interfering variables never share a register; a spill means that all registers are blocked |
| RegAlloc.ColouringPreservesStores | lib/middle_end/ir/regalloc.c:55-98 | straight-line stores, with allocas between them, store the same values over registers as over variables, at every instruction |
| RegAlloc.AllocateStraightLine | lib/middle_end/ir/regalloc.c:352-364 | with the registers it chooses, straight-line code of stores and allocas in which nothing is spilled stores what it stores over variables, from any registers and variables |
| Parser.ParseLevel | lib/front_end/parse/parse.c:840-1131 | a parsed expression consumes tokens and leaves at least one |
| Parser.StopsAtLooserToken | lib/front_end/parse/parse.c:840-1036 | no rung stops in front of an operator of its own or a tighter rung |
| Parser.LoopRunsAtMostOnce | lib/front_end/parse/parse.c:840-1036 | the operator branch of a rung's loop is taken at most once: equal precedence leans to the right |
| Parser.TokenCursor.ParseBinary | lib/front_end/parse/parse.c:840-1036 | the loop with its step back of the cursor reads what the rung reads |
| Parser.TokenCursor.ParsePrefix | lib/front_end/parse/parse.c:1038-1059 | prefix operators with the step back |
| Parser.TokenCursor.ParsePostfix | lib/front_end/parse/parse.c:1061-1080 | at most one postfix operator |
| Parser.TokenCursor.ParsePrimary | lib/front_end/parse/parse.c:1082-1131 | symbols, parentheses and constants, with the cursor left behind them |
| Parser.RoundTrip | lib/front_end/parse/parse.c:840-1131 | parsing a tree printed with minimal parentheses gives the tree back and stops right behind it |
| Parser.PrintInjective | lib/front_end/parse/parse.c:840-1131 | no two expressions print alike |
| Grammar.ParsesExactly | lib/front_end/parse/parse.c:840-1131 | on every rung, in front of a token that ends it: tokens are parsed to a tree if and only if the grammar derives them with this tree |
| Grammar.ParsedIsDerived | lib/front_end/parse/parse.c:840-1131 | whatever follows, the consumed tokens are derived from the rung's nonterminal with the parsed tree |
| Grammar.DerivedIsParsed | lib/front_end/parse/parse.c:840-1131 | whatever is derived is parsed, up to its end |
| Grammar.Unambiguous | draft/draft.tex:393-447 | no expression has two derivation trees |
| IrBinary.LeRoundTrip | lib/middle_end/ir/ir_bin.c:24-54 | numbers survive their bytes |
| IrBinary.NodeRoundTrip | lib/middle_end/ir/ir_bin.c:480-534 | a written node followed by any bytes reads back as itself and leaves these bytes if and only if no string in it is empty |
| IrBinary.NodesRoundTrip | lib/middle_end/ir/ir_bin.c:268-321 | the same for counted lists |
| IrBinary.FnRoundTrip | lib/middle_end/ir/ir_bin.c:443-457 | a written function followed by any bytes reads back if and only if name, body and strings are non-empty |
| IrBinary.WriteThenRead | lib/middle_end/ir/ir_bin.c:443-457 | writing and reading through one file gives the function back, position behind it, if and only if name, body and strings are non-empty |
| IrBinary.Stream.PutNode | lib/middle_end/ir/ir_bin.c:480-504 | appends the bytes of the node, children in order |
| IrBinary.Stream.PutFn | lib/middle_end/ir/ir_bin.c:443-449 | appends the bytes of the function |
| IrBinary.Stream.Fread | lib/middle_end/ir/ir_bin.c:39-54 | fails on zero bytes and at the end of the file, otherwise advances the position |
| IrBinary.Stream.GetNode | lib/middle_end/ir/ir_bin.c:506-534 | reads what the specification reads and stops where it stops |
| IrBinary.Stream.GetNodes | lib/middle_end/ir/ir_bin.c:291-321 | the reading loop over a counted list |
| IrBinary.Stream.GetFn | lib/middle_end/ir/ir_bin.c:451-457 | reads what the specification reads for a function |
| Emit.Emitter.Put | lib/back_end/back_end.c:20-29 | the bytes are inserted at the seek position, which moves behind them |
| Emit.Emitter.VisitCall | lib/back_end/emit.c:165-186 | the call is aimed at the final address of its callee, before and after _start is there |
| Emit.Emitter.VisitFnDecl | lib/back_end/emit.c:188-220 | one more function: text, symbols and mapping are those of the layout in one go; fails exactly on an unknown callee |
| Emit.BackEndGen | lib/back_end/emit.c:247-260 | the text built with an insertion on the way is the layout made in one go; it succeeds if and only if all callees are known |
| Emit.CallLands | lib/back_end/emit.c:165-186 | in the layout address plus offset of every call is the start of its callee |
| Emit.FinalCallLands | lib/back_end/emit.c:165-220 | in the finished text _start jumps to main and every call to the address in the symbol table |
| Emit.SymbolsWithoutMain | lib/back_end/emit.c:188-220 | without a main no _start is emitted but all symbols still count its 4 bytes |
| RiscVEncode.RRoundTrip | lib/back_end/risc_v_encode.h:41-44 | decoding recovers operation, function codes and three registers |
| RiscVEncode.IRoundTrip | lib/back_end/risc_v_encode.h:46-56 | encodes exactly -2048..2047; decoding recovers operation, registers and immediate |
| RiscVEncode.SRoundTrip | lib/back_end/risc_v_encode.h:58-70 | the same for stores with their split immediate |
| RiscVEncode.BRoundTrip | lib/back_end/risc_v_encode.h:72-87 | encodes exactly -4096..4095; decoding recovers the offset without bit 0 |
| RiscVEncode.JRoundTrip | lib/back_end/risc_v_encode.h:89-102 | decoding recovers the offset without bit 0 if and only if it lies in -2^20..2^20-1; there is no check |
| RiscVEncode.URoundTrip | lib/back_end/risc_v_encode.h:104 | decoding recovers the upper 20 bits |
| RiscVEncode.SumOfB | lib/back_end/risc_v_encode.h:84-86 | no addition of fields carries into another field |
| RiscVEncode.FieldsOfJ | lib/back_end/risc_v_encode.h:13-25 | which bits the scattered copies of a jump offset move |
| RiscVEncode.JalAgrees | lib/back_end/risc_v.c:82-96 | the two jal encoders give the same word if and only if bit 20 of the offset is its sign |
| RiscVEncode.SAgrees | lib/back_end/risc_v.c:125-136 | the two store encoders give the same word in range |
| RiscVEncode.IAgrees | lib/back_end/risc_v.c:118-123 | so do the two immediate encoders |
| RiscVEncode.IWordFields | lib/back_end/risc_v.c:118-123 | out of range the emitted word stands for the low 12 bits, sign-extended |
| RiscVEncode.UAgrees | lib/back_end/risc_v.c:75-80 | the two upper-immediate encoders always agree |
| RiscVEncode.RAgrees | lib/back_end/risc_v.c:110-115 | the two register encoders always agree |
| RiscVEncode.IToRKeepsOperation | lib/back_end/risc_v.c:169-172 | setting bit 5 turns addi-like operations into the register form of the same operation |
| RiscVMachine.LoadStored | lib/back_end/risc_v.c:352-355 | a stored double word is loaded back |
| RiscVMachine.LoadBeside | lib/back_end/risc_v.c:332-335 | a store does not change a double word it does not overlap |
| RiscVEmit.ValidImmRange | lib/back_end/risc_v.c:70-73 | shifting there and back keeps exactly -2048..2047 |
| RiscVEmit.SetRegMeaning | lib/back_end/risc_v.c:148-162 | lui and addi load the constant exactly below 2^31 - 2^11, and 2^32 too little from there on; nothing else changes |
| RiscVEmit.SplitMeaning | lib/back_end/risc_v.c:189-193 | two addi, or two addiw, add the whole immediate, except that 4095 becomes -1 |
| RiscVEmit.ScratchMeaning | lib/back_end/risc_v.c:193-207 | the register form with a loaded immediate acts as the immediate form |
| RiscVEmit.LoadMeaning | lib/back_end/risc_v.c:208-230 | a load through a scratch register accesses base plus immediate, or 2^32 below it |
| RiscVEmit.ImmOpMeaning | lib/back_end/risc_v.c:184-231 | the sequence acts as one operation with the whole immediate on every state, under the stated condition |
| RiscVEmit.ImmOpExactly | lib/back_end/risc_v.c:184-231 | for addi, addiw and all loads the condition is sufficient and necessary |
| RiscVEmit.BaseClobbered | lib/back_end/risc_v.c:184-231 | when the scratch register is the base, addi and addiw lose the base and add the immediate to itself |
| RiscVEmit.BaseClobberedLoad | lib/back_end/risc_v.c:208-230 | and a load goes to twice the upper part plus once the lower |
| BitNumbers.IntRoundTrip | lib/back_end/risc_v.c:118-123 | a C int put into a word has the same value there |
| RiscVWords.IWordDecodes | lib/back_end/risc_v.c:118-123 | the word of an immediate form decodes to that instruction with the low 12 bits sign-extended |
| RiscVWords.RWordDecodes | lib/back_end/risc_v.c:110-115 | with bit 5 set the word decodes to the register form of the same operation |
| RiscVWords.SWordDecodes | lib/back_end/risc_v.c:125-136 | the word of a store with an offset in range decodes to that store |
| RiscVWords.LuiWordDecodes | lib/back_end/risc_v.c:75-80 | the word of lui decodes to the upper part of the immediate |
| RiscVWords.WordBack | lib/back_end/risc_v.c:61-68 | a word is read back from its four bytes |
| RiscVWords.DecodeAppend | lib/back_end/back_end.c:20-29 | bytes put one after the other decode to the instructions one after the other |
| RiscVWords.Text.Put | lib/back_end/back_end.c:20-29 | four bytes are appended, and with them one instruction of the machine |
| RiscVWords.Text.EmitSetReg | lib/back_end/risc_v.c:148-162 | the emitted words are the sequence that RiscVEmit.SetRegMeaning explains |
| RiscVWords.Text.EmitImmOp | lib/back_end/risc_v.c:184-231 | the emitted words are the sequence that RiscVEmit.ImmOpMeaning explains |
| RiscVWords.Text.EmitStoreOp | lib/back_end/risc_v.c:138-145 | appends one store, or nothing when the offset does not fit |
| CallWords.JalOffset | lib/back_end/risc_v.c:82-96 | the offset in the word of a jal is the one that was asked for if and only if that is even and in -2^20..2^20-1 |
| CallWords.CallReaches | lib/back_end/emit.c:165-220 | in the emitted bytes, when nodes emit whole instructions, every call is a jal ra to its callee's address in the symbol table if and only if the distance is in -2^20..2^20-1 |
| CallWords.StartReaches | lib/back_end/emit.c:188-206 | and _start jumps to main if and only if main starts below 2^20 |
| RiscVFrame.Align16 | lib/back_end/risc_v.c:416-419 | the least multiple of 16 that is not smaller |
| RiscVFrame.EmitPrologue | lib/back_end/risc_v.c:421-429 | appends the four operations of the prologue |
| RiscVFrame.EmitEpilogue | lib/back_end/risc_v.c:431-438 | appends the three operations of the epilogue |
| RiscVFrame.PrologueEnters | lib/back_end/risc_v.c:421-429 | behind the prologue s0 is the old sp, both saved registers are in their slots, all other registers are as before |
| RiscVFrame.EpilogueLeaves | lib/back_end/risc_v.c:431-438 | the epilogue restores sp, ra and s0 and writes no memory |
| RiscVFrame.EntryKeepsAlignment | lib/back_end/risc_v.c:416-429 | sp keeps its remainder modulo 16 |
| RiscVFrame.FrameWorksExactly | lib/back_end/risc_v.c:421-438 | from every state and around every body that keeps sp and the slots, sp, ra and s0 come back if and only if the usage is at most 2032 |
| FnLayout.UsualSizes | lib/back_end/emit.c:133-152 | the size that a function counts with is that of emitted prologue, body, epilogue and return, and every body operation stands behind the prologue by the size of those in front of it |
| FnLayout.MainSizes | lib/back_end/emit.c:125-131 | main starts with its body and ends in the bytes of li a7 and ecall |
| FnLayout.UsualFn | lib/back_end/emit.c:133-152 | the emitted code around any body has the counted size, and its entry and exit keep the caller's registers |
| RiscVFrame.FrameBytes | lib/back_end/risc_v.c:421-438 | the emitted bytes of entry and exit, decoded and run, restore sp, ra and s0 around all these bodies if and only if the usage is at most 2032 |
| RiscVFrame.NothingSaved | lib/back_end/risc_v.c:138-145 | above 2032 bytes the prologue stores nothing |
| RegisterLru.RegLru.constructor | lib/back_end/risc_v.c:19-25 | the registers 5 to 31 in order and five zeros behind them |
| RegisterLru.RegLru.UpdateLru | lib/back_end/risc_v.c:28-42 | the register moves to the end of the array; an unlisted one replaces the last |
| RegisterLru.RegLru.AllocateRegister | lib/back_end/risc_v.c:44-55 | hands out the first entry if it is a free register, else fails and changes nothing |
| RegisterLru.UseKeepsOrder | lib/back_end/risc_v.c:204-206 | marking the register as used again changes nothing |
| RegisterLru.AllocationsRunOut | lib/back_end/risc_v.c:44-55 | the first 27 allocations give 5 to 31, each once; all later ones fail |

## Left out

- `break` and `continue`, and compound assignments: the first are patched once per finished loop, whichever loop owns them; the last are lowered as ordinary binary operators.
- Arrays, pointers, strings, structs, floats, chars and calls in the lowering and in `Arith`: the theorems are about int variables.
- IrGenerator.VisitFnDecl: does not cover a body whose first visited statement is a `for` without a first part, because visit_for() then reads ir_last while it is null; the precondition BlockNoBareFor says exactly that.
- IrGenerator.IrGen.VisitSimple: parameters are entered by the constructor as names with their indices; the list of their allocas, which the interpreter fills from the call, is the starting environment.
- Interpreter.FunEval: the byte stack and the call stack of the interpreter; variables map to int32 values, and an alloca is a fresh zero; what stepping behind the last instruction does (the source reads an empty vector, or keeps the last value when a condition came last) is one outcome, OffTheEnd.
- IntLaws.ShiftsWords: shift counts below 0 or above 31, which C does not define.
- IntLaws.DivisionLaw: divisors 0, and -2^31 divided by -1, which C does not define.
- Interpreter.Machine.EvalBin: operands of type bool, char and float; the types are int and unknown.
- Interpreter.Machine.InstrEval: calls, arrays, strings and members.
- TypePass.TypePassFn: the map of function types; indices below 10000 are a precondition, because the source's static map has that size.
- Block depth and loop indices that insert() stamps on nodes: no modelled pass reads them.
- Arith.OptArith: opt_arith_ret() is not modelled, since generated rets never hold a binary operation.
- Compiler.Compile: the reordering pass between the type pass and the optimiser, because it does not keep meaning: when a function starts with a condition, an alloca behind the exit jump is moved in between, where the taken branch skips it; code with a replacement that holds a symbol gets no promise for single arguments, since whether the broken store matters depends on them.
- Passes that do not preserve meaning as written, or are unfinished or disabled: fold.c, unreachable.c, data_flow.c, dead.c, ssa.c, reorder.c.
- DominanceFrontier.IrDominates: ir_dominated_by() walks the same links and is not modelled a second time.
- HashMaps.HashMap.Get: requires a stored key or a never-occupied bucket, because the source's loop does not end otherwise; size and capacity are unbounded, the source's uint64 wraps.
- RegAlloc.AllocateStraightLine: code that reads a variable before it stores to it, parameters included; a variable that is allocated again after its first mention.
- RegAlloc.RegAllocFn: insertion of spill code, the degree array, and live ranges through conditions, returns and loops, which the source does not scan either.
- Parser.ParseLevel: calls, subscripts, member accesses and assignments are failures; token positions and the messages of compile errors are not modelled.
- IrBinary.FnRoundTrip: node kinds without a payload in the file (member, type declaration, phi) and functions inside of functions; the control flow graph and block numbers that read_fn_decl_body() rebuilds; structures are opaque images of their LP64 size.
- Several functions in one file: read_unit() reads all of them into the same node.
- Grammar.ParsesExactly: calls, subscripts, member accesses and assignments are not in the grammar, as in Parser.ParseLevel.
- FnLayout.MainSizes: the number of the exit system call is a parameter that fits 12 bits; decoding ecall and jalr.
- Emit.BackEndGen: which instructions a node emits beyond their number, a second main, and the ELF file.
- RiscVFrame.FrameWorksExactly: stack usages for which the sums of C ints overflow, and negative ones.
- RiscVEmit.ImmOpMeaning: scratch registers are parameters; that the condition is necessary is stated for addi, addiw and loads, not for the other operations with immediates; shifts by immediates and jalr with a large offset have no modelled meaning.
- The ebreak encoding, CRC-32 collisions, lexing, diagnostics, dumping, memory management and the rest of the driver.
