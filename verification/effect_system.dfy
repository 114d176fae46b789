/**
  The vocabulary of the generic effect checker: effects and their order,
  the syntax the visitor walks, the pluggable extension, the suppression
  options and the diagnostics the visitor reports.

  Effects are a type parameter `E`.  The concrete lattice class is not part
  of this model, so its order is an arbitrary relation `le` with a
  distinguished `bottom`; no lattice law is assumed anywhere.
 */
module EffectSystem {
  import opened Wrappers

  /** The effect order `LE(target, caller)` and the bottom-most effect. */
  datatype Lattice<!E> = Lattice(le: (E, E) -> bool, bottom: E)

  /** The ten construct kinds whose check an extension switches on or off. */
  datatype Kind =
    | ArrayAccess
    | Assignment
    | Binary
    | CompoundAssignment
    | ConditionalExpression
    | InstanceOf
    | Literal
    | NewArray
    | TypeCast
    | Unary

  /**
    The syntax trees the visitor walks.  Every variant keeps its sub-trees in
    `children`, in the order the default structural visit scans them.
    - `ClassDecl`: a class with its default effect (the one the type factory
      reports for code outside any method).
    - `MethodDecl`: a method with its declared effect.
    - `MethodInvocation`, `NewClass`: a call and a constructor call, carrying
      the declared effect of the callee.
    - `Gated`: one of the ten extension-gated constructs; `site` tells two
      syntactically equal nodes apart, so the extension may answer
      differently for each.
    - `Lambda`, `MemberReference`, `MemberSelect`: visited structurally only.
   */
  datatype Tree<E> =
    | ClassDecl(defaultEffect: E, children: seq<Tree<E>>)
    | MethodDecl(declaredEffect: E, children: seq<Tree<E>>)
    | MethodInvocation(calleeEffect: E, children: seq<Tree<E>>)
    | NewClass(constructorEffect: E, children: seq<Tree<E>>)
    | Gated(kind: Kind, site: nat, children: seq<Tree<E>>)
    | Lambda(children: seq<Tree<E>>)
    | MemberReference(children: seq<Tree<E>>)
    | MemberSelect(children: seq<Tree<E>>)

  /**
    The extension an effect system plugs into the visitor.
    - `active(k)`: `doesArrayAccessCheck()`, `doesAssignmentCheck()`, ...
    - `requiredEffect(n)`: `checkArrayAccess(n)`, `checkAssignment(n)`, ...
    - `reportError(n)`: the error message key for node `n`.
    - `reportWarning(n)`: the warning message key, `None` for Java's `null`.
    - `checkIgnoredEffects(spec, e)`: rewrites a target effect when
      effects are being ignored.
    - `isIgnored(spec, msg)`: whether a message key is listed in `spec`.
   */
  datatype Extension<!E> = Extension(
    active: Kind -> bool,
    requiredEffect: Tree<E> -> E,
    reportError: Tree<E> -> string,
    reportWarning: Tree<E> -> Option<string>,
    checkIgnoredEffects: (string, E) -> E,
    isIgnored: (string, string) -> bool)

  /**
    The three suppression options.  An option that was given carries its
    value (`Some(spec)`); the toggle is on exactly when the option is present.
   */
  datatype Options = Options(
    ignoreEffects: Option<string>,
    ignoreWarnings: Option<string>,
    ignoreErrors: Option<string>)

  /** Everything fixed for the lifetime of one visitor. */
  datatype Env<!E> = Env(lattice: Lattice<E>, ext: Extension<E>, options: Options)

  datatype Severity = Error | Warning

  /** One reported diagnostic: `Result.failure`/`Result.warning` on `node`. */
  datatype Diagnostic<E> = Diagnostic(
    severity: Severity,
    message: string,
    target: E,
    ambient: E,
    node: Tree<E>)

  /** Message key of an invalid method call. */
  const CallInvalid: string := "call.invalid.effect"

  /** Message key of an invalid constructor call. */
  const ConstructorCallInvalid: string := "constructor.call.invalid"
}
