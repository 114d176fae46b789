# Generic effect visitor and single-successor blocks, in Dafny

This project models two pieces of the Checker Framework fork that hosts the
generic effect checker.

**The generic effect visitor** (`GenericEffectVisitor`) walks a Java syntax
tree and checks that every method call, every constructor call and every
construct an effect extension has switched on requires no more than the
effect permitted where it occurs. The permitted, or ambient, effect is the
declared effect of the enclosing method. Outside any method it is the
default effect of the innermost enclosing class. An invalid construct gets
an error. A valid construct gets a warning when the extension supplies one.
Three options (`ignoreEffects`, `ignoreWarnings`, `ignoreErrors`) can
rewrite the compared effect or drop listed messages.

Modelling choices:

- The javac tree is the closed datatype `EffectSystem.Tree`. The extension
  is a record of functions. The effect order is an arbitrary relation with a
  bottom element: the lattice class is not part of this model, so no lattice
  law is assumed.
- The visitor is the pure function `EffectVisitor.Visit`. It returns the
  diagnostics in pre-order: a node's own check first, then its children.
- The two parallel stacks `effStack` and `currentMethods` are threaded
  through the walk as real data (`Frames`). Every call of `Visit` requires
  the stacks to mirror the path of enclosing classes and methods
  (`FramesOf`). This makes them equally tall at every node visited. Each
  call also promises to hand the stacks back unchanged.
- The ambient effect comes from the path (`Scope`s), as the visitor's
  `TreeUtils.enclosingMethod`/`enclosingClass` lookups do, not from the
  stacks. `enclosingMethod` does not stop at class boundaries. So code in
  a class nested inside a method is checked against the outer method's
  effect, while the top of `effStack` holds the bottom effect there
  (`NestedClassUsesOuterMethod`). So the ambient effect is not always the
  top of the effect stack; the model follows the path lookups of the code.
- The walk as a whole is described by `EffectWalk.Reaches`: which nodes the
  visitor reaches from a start node, and with which path of enclosing
  classes and methods. Two lemmas tie it to `Visit` in both directions.
  Every check owed at a reached node is reported
  (`EffectWalk.ReachedVerdictReported`). Every reported diagnostic is owed
  at a reached node and carries the ambient effect of that node's path
  (`EffectWalk.EveryDiagnosticHasAPosition`).
- When the type-cast check is off, `visitTypeCast` returns without visiting
  the operand. Calls inside such an operand are never checked
  (`EffectScenarios.CallInsideInactiveCastUnchecked`). Every other kind
  visits its children. The model keeps this behaviour as written.

**Single-successor blocks** (`SingleSuccessorBlockImpl`) are control-flow
graph nodes with at most one non-exceptional successor and a store flow rule
(default `EACH_TO_EACH`). `setSuccessor` also registers the block as a
predecessor of its successor. The object heap is a map from block ids to
block states. Each operation is a function from graph to graph, and its
contract states what changes and what stays the same. A construction history
(`Op` sequence, run by `Run`) states the "last call wins" and "predecessors
only grow" properties.

## Model

| member | source | states |
|---|---|---|
| EffectVisitor.EnclosingMethod | checker/src/org/checkerframework/checker/genericeffects/GenericEffectVisitor.java:194-197 | none exactly when no method is on the path; otherwise the declared effect of the innermost method on the path, found across class boundaries |
| EffectVisitor.EnclosingClass | checker/src/org/checkerframework/checker/genericeffects/GenericEffectVisitor.java:261-265 | the default effect of the innermost class on the path, none when there is no class |
| EffectVisitor.Ambient | checker/src/org/checkerframework/checker/genericeffects/GenericEffectVisitor.java:250-265 | the ambient effect is the declared effect of the innermost method when there is one, and otherwise the default effect of the innermost class |
| EffectVisitor.FramesOf | checker/src/org/checkerframework/checker/genericeffects/GenericEffectVisitor.java:131-138 | the two stacks are as tall as the path; a class frame holds the bottom effect and no method, a method frame holds the method's declared effect and the method |
| EffectVisitor.Push | checker/src/org/checkerframework/checker/genericeffects/GenericEffectVisitor.java:174-176 | both stacks grow by one with the pushed effect and method on top, and popping restores them |
| EffectVisitor.Pop | checker/src/org/checkerframework/checker/genericeffects/GenericEffectVisitor.java:184-185 | both stacks shrink by one and keep every entry below the top |
| EffectVisitor.IsInvalid | checker/src/org/checkerframework/checker/genericeffects/GenericEffectVisitor.java:207-213 | with effects not ignored, invalid exactly when the target is not below the ambient effect; when they are ignored, exactly when the extension's rewrite of the target is not below it |
| EffectVisitor.CheckError | checker/src/org/checkerframework/checker/genericeffects/GenericEffectVisitor.java:223-228 | with the error toggle off the error is reported exactly once; with it on, it is dropped exactly when the extension lists its message |
| EffectVisitor.CheckWarning | checker/src/org/checkerframework/checker/genericeffects/GenericEffectVisitor.java:238-243 | the same rule for warnings, governed by the warning toggle |
| EffectVisitor.CheckCall | checker/src/org/checkerframework/checker/genericeffects/GenericEffectVisitor.java:311-353 | a call or constructor call is reported iff the callee's (possibly rewritten) effect is not below the ambient and the error survives suppression; only errors, with the original callee effect and the fixed message keys |
| EffectVisitor.CheckGated | checker/src/org/checkerframework/checker/genericeffects/GenericEffectVisitor.java:369-397 | at most one diagnostic, carrying the un-rewritten target; an error iff invalid, with the extension's error message; otherwise a warning only if the extension supplies one and it survives suppression |
| EffectVisitor.Visit | checker/src/org/checkerframework/checker/genericeffects/GenericEffectVisitor.java:131-187 | classes and methods push one frame on each stack and pop both, so the stacks come back unchanged; every diagnostic is justified (error iff invalid, not suppressed, original target, from a checked node, no warning for calls); completeness and positions are stated by the walk lemmas below |
| EffectVisitor.VisitSeq | checker/src/org/checkerframework/checker/genericeffects/GenericEffectVisitor.java:183-186 | siblings are visited in order with the stacks threaded through and restored; every diagnostic is justified |
| EffectWalk.VisitShape | checker/src/org/checkerframework/checker/genericeffects/GenericEffectVisitor.java:131-187 | a node's diagnostics are its own check followed by those of the children the visitor scans, at the path and stacks extended by the node's own class or method |
| EffectWalk.SeqIncludes | checker/src/org/checkerframework/checker/genericeffects/GenericEffectVisitor.java:183-186 | a diagnostic of one sibling is a diagnostic of the whole sibling sequence |
| EffectWalk.SeqSplits | checker/src/org/checkerframework/checker/genericeffects/GenericEffectVisitor.java:183-186 | each diagnostic of a sibling sequence comes from one of the siblings |
| EffectWalk.ReachedVerdictReported | checker/src/org/checkerframework/checker/genericeffects/GenericEffectVisitor.java:311-420 | completeness: every diagnostic the checks owe a node the walk reaches, at the path it is reached with, is reported |
| EffectWalk.ReachedCallViolationReported | checker/src/org/checkerframework/checker/genericeffects/GenericEffectVisitor.java:311-353 | a reached call or constructor call that is invalid against the ambient effect of its own position and not suppressed is reported as an error with exactly that ambient effect |
| EffectWalk.ReachedGatedReported | checker/src/org/checkerframework/checker/genericeffects/GenericEffectVisitor.java:369-397 | a reached construct of an active kind gets the error when invalid at its position, otherwise the extension's warning if any, each unless suppressed |
| EffectWalk.EveryDiagnosticHasAPosition | checker/src/org/checkerframework/checker/genericeffects/GenericEffectVisitor.java:250-265 | every reported diagnostic is owed at a node the walk reaches, and carries the ambient effect of that node's path |
| EffectWalk.CheckClass | checker/src/org/checkerframework/checker/genericeffects/GenericEffectVisitor.java:130-138 | from the freshly constructed visitor's empty stacks both stacks end empty; the diagnostics are exactly justified ones owed at reached positions, and every one owed at a reached position is reported |
| EffectProperties.ScopeFreeAmbient | checker/src/org/checkerframework/checker/genericeffects/GenericEffectVisitor.java:312-325 | inside a subtree that opens no class or method, every diagnostic carries the ambient effect of the position where the walk entered |
| EffectProperties.ScopeFreeAmbientSeq | checker/src/org/checkerframework/checker/genericeffects/GenericEffectVisitor.java:355-367 | the same for a sequence of siblings |
| EffectProperties.MethodFreeKeepsEnclosingMethod | checker/src/org/checkerframework/checker/genericeffects/GenericEffectVisitor.java:194-197 | inside a subtree that declares no method, every reached position has the same enclosing method, classes in between notwithstanding |
| EffectProperties.MethodFreeAmbient | checker/src/org/checkerframework/checker/genericeffects/GenericEffectVisitor.java:250-254 | inside a method, every diagnostic of a subtree that declares no further method, nested classes included, carries the method's declared effect |
| EffectProperties.MethodBodyAmbient | checker/src/org/checkerframework/checker/genericeffects/GenericEffectVisitor.java:250-254 | every diagnostic of a method whose body declares no further method is checked against that method's declared effect, also inside classes declared in the body |
| EffectProperties.FieldLevelAmbient | checker/src/org/checkerframework/checker/genericeffects/GenericEffectVisitor.java:256-265 | outside any method, the diagnostics of a class member that opens no scope are reported for the class and checked against its default effect, whatever methods the class also declares, while the frame pushed for the class holds the bottom effect |
| EffectProperties.MethodFrameOnTop | checker/src/org/checkerframework/checker/genericeffects/GenericEffectVisitor.java:174-186 | inside a method the top of the effect stack is its declared effect, the top of the method stack is the method, and the ambient effect agrees |
| EffectProperties.NestedClassUsesOuterMethod | checker/src/org/checkerframework/checker/genericeffects/GenericEffectVisitor.java:194-197 | in a class nested inside a method the top frame holds the bottom effect and no method, yet the ambient effect is the outer method's declared effect |
| EffectProperties.InactiveKindStillVisitsChildren | checker/src/org/checkerframework/checker/genericeffects/GenericEffectVisitor.java:369-397 | a gated construct whose kind is inactive reports nothing itself and its children are visited as usual |
| EffectProperties.InactiveTypeCastSkipsOperand | checker/src/org/checkerframework/checker/genericeffects/GenericEffectVisitor.java:561-582 | an inactive type cast reports nothing and does not visit its operand |
| EffectProperties.ActiveKindChecksFirst | checker/src/org/checkerframework/checker/genericeffects/GenericEffectVisitor.java:399-420 | an active gated construct is checked against the ambient effect before its children are visited |
| EffectProperties.GatedErrorIffNotBelow | checker/src/org/checkerframework/checker/genericeffects/GenericEffectVisitor.java:207-213 | with errors not ignored, a gated construct gets an error carrying the un-rewritten required effect exactly when the compared effect (rewritten by the extension when effects are ignored) is not below the ambient effect |
| EffectProperties.CallCheckedUnconditionally | checker/src/org/checkerframework/checker/genericeffects/GenericEffectVisitor.java:311-327 | an invalid, unsuppressed call is reported first and exactly once; a valid call adds no diagnostic of its own |
| EffectProperties.SuppressionIsUniform | checker/src/org/checkerframework/checker/genericeffects/GenericEffectVisitor.java:223-243 | suppressing warnings is suppressing errors with the warning toggle in place of the error toggle |
| EffectScenarios.CallRejected | checker/src/org/checkerframework/checker/genericeffects/GenericEffectVisitor.java:311-318 | a Mid method calling a High method gets one call error |
| EffectScenarios.CallAccepted | checker/src/org/checkerframework/checker/genericeffects/GenericEffectVisitor.java:311-318 | a Mid method calling a Low method gets no diagnostic |
| EffectScenarios.ErrorExcludesWarning | checker/src/org/checkerframework/checker/genericeffects/GenericEffectVisitor.java:377-381 | an invalid array access that also carries a warning reports only the error |
| EffectScenarios.WarningWhenPermitted | checker/src/org/checkerframework/checker/genericeffects/GenericEffectVisitor.java:377-381 | a valid array access that carries a warning reports the warning |
| EffectScenarios.FieldLevelRejected | checker/src/org/checkerframework/checker/genericeffects/GenericEffectVisitor.java:384-394 | outside a method, a High access in a Low-default class is an error |
| EffectScenarios.FieldLevelAccepted | checker/src/org/checkerframework/checker/genericeffects/GenericEffectVisitor.java:384-394 | the same access in a High-default class is accepted |
| EffectScenarios.SuppressionScenario | checker/src/org/checkerframework/checker/genericeffects/GenericEffectVisitor.java:223-228 | listing the call key among ignored errors silences the call but not an array-access error |
| EffectScenarios.CallInsideInactiveCastUnchecked | checker/src/org/checkerframework/checker/genericeffects/GenericEffectVisitor.java:579-581 | with the type-cast check off, an invalid call inside a cast operand is not reported |
| SingleSuccessorBlocks.NewBlock | dataflow/src/dataflow/cfg/block/SingleSuccessorBlockImpl.java:15-21 | a fresh block has no successor, no predecessors and the EACH_TO_EACH rule; other blocks are unchanged |
| SingleSuccessorBlocks.Successors | dataflow/src/dataflow/cfg/block/SingleSuccessorBlock.java:6-17 | a block has at most one non-exceptional successor, and none exactly when the successor is null |
| SingleSuccessorBlocks.GetSuccessor | dataflow/src/dataflow/cfg/block/SingleSuccessorBlockImpl.java:24-26 | the block's successor set is exactly the returned successor (empty for null); in a linked graph the successor is a block that lists this one among its predecessors, and setting a successor leaves the graph unchanged exactly when it is the one returned |
| SingleSuccessorBlocks.GetStoreFlow | dataflow/src/dataflow/cfg/block/SingleSuccessorBlockImpl.java:36-39 | setting a rule leaves the graph unchanged exactly when it is the rule returned |
| SingleSuccessorBlocks.SetSuccessor | dataflow/src/dataflow/cfg/block/SingleSuccessorBlockImpl.java:31-34 | afterwards the successor is s and the block is among s's predecessors; no other successor, predecessor set or flow rule changes |
| SingleSuccessorBlocks.SetStoreFlow | dataflow/src/dataflow/cfg/block/SingleSuccessorBlockImpl.java:41-44 | afterwards the rule is the given one; successor and predecessor links and all other blocks are unchanged |
| SingleSuccessorBlocks.Run | dataflow/src/dataflow/cfg/block/SingleSuccessorBlockImpl.java:31-44 | blocks are never removed, and a graph whose edges are registered on both ends stays that way |
| SingleSuccessorBlocks.NewBlockKeepsLinked | dataflow/src/dataflow/cfg/block/SingleSuccessorBlockImpl.java:21 | adding a block keeps every edge registered on both ends |
| SingleSuccessorBlocks.SetSuccessorKeepsLinked | dataflow/src/dataflow/cfg/block/SingleSuccessorBlockImpl.java:31-34 | setting a successor keeps every edge registered on both ends, including the new edge |
| SingleSuccessorBlocks.SetStoreFlowKeepsLinked | dataflow/src/dataflow/cfg/block/SingleSuccessorBlockImpl.java:41-44 | changing a flow rule keeps every edge registered on both ends |
| SingleSuccessorBlocks.RetargetingKeepsStaleEdge | dataflow/src/dataflow/cfg/block/SingleSuccessorBlockImpl.java:31-34 | after re-targeting, the block stays among the old successor's predecessors |
| SingleSuccessorBlocks.SuccessorIsLastSet | dataflow/src/dataflow/cfg/block/SingleSuccessorBlockImpl.java:24-34 | after a history of operations, getSuccessor answers the argument of the last setSuccessor on that block |
| SingleSuccessorBlocks.SuccessorUnsetIsInitial | dataflow/src/dataflow/cfg/block/SingleSuccessorBlockImpl.java:24-26 | after a history with no setSuccessor on the block, getSuccessor answers its initial successor, null for a block added during the history |
| SingleSuccessorBlocks.StoreFlowIsLastSet | dataflow/src/dataflow/cfg/block/SingleSuccessorBlockImpl.java:36-44 | after a history of operations, getStoreFlow answers the rule of the last setStoreFlow on that block |
| SingleSuccessorBlocks.StoreFlowUnsetIsInitial | dataflow/src/dataflow/cfg/block/SingleSuccessorBlockImpl.java:36-39 | after a history with no setStoreFlow on the block, getStoreFlow answers its initial rule, EACH_TO_EACH for a block added during the history |
| SingleSuccessorBlocks.PredecessorsAccumulate | dataflow/src/dataflow/cfg/block/SingleSuccessorBlockImpl.java:31-34 | a block's predecessors are its initial ones plus every block whose successor was ever set to it |

## Left out

- Type-factory work in `visitMethod` is left out: `getDeclAnnotation`, `checkEffectOverride`, adding the default annotation, and caching the declared effect. These are foreign calls. Each method's and callee's declared effect is a given field of the tree.
- The `GenericEffectLattice` internals are left out, because that class is not part of this model. `le` and `bottom` are parameters, and no lattice law is claimed.
- Option parsing (`getOption`, `getLintOption`) is replaced by the `Options` record. `debugSpew` printing is dropped.
- `checker.report` and `Result` formatting are replaced by appending a `Diagnostic` to the returned list. The source position is represented by the node itself.
- `createTypeFactory` and the no-op overrides of `checkMethodInvocability` and `checkOverride` are left out. They are framework plumbing with no effect on the checks.
- The default structural scan of the framework's tree scanner is reduced to visiting `children` left to right. Which sub-trees a real javac node has is not modelled.
- Visit: its own contract states only that the stacks are restored and that every diagnostic is justified; completeness and the position of each diagnostic are stated about it by `EffectWalk.ReachedVerdictReported` and `EffectWalk.EveryDiagnosticHasAPosition`.
- Visit: code outside every class is excluded by its requires. Such code has no enclosing class, so the source's class lookup has nothing to return. The framework only enters the visitor through a class.
- Abnormal termination of the walk is not modelled: the model has no exceptions, so the stacks are always popped.
- Lambdas are not method scopes, just as in the source. Their bodies are checked against the surrounding method.
- SetSuccessor: `setSuccessor(null)` is not modelled. The source assigns the field and then fails on `null.addPredecessor`. The model requires an existing block.
- `BlockImpl` and `Store` are not part of this model. That a fresh block has no predecessors comes from `BlockImpl`'s constructor, which the model assumes; the fields initialised at SingleSuccessorBlockImpl.java:15-21 are only the successor and the flow rule. Predecessors are a set. The flow rules other than `EACH_TO_EACH` are opaque. How a store is carried across an edge under a rule is not modelled.
- `GuiEffectChecker` is an empty annotated class, and the GUI field-access tests exercise a visitor that is not part of this model.
