/**
  The generic effect visitor: a pre-order walk over a syntax tree that checks
  every method call, constructor call and every activated construct against
  the effect permitted where it occurs, and collects the diagnostics.

  The visitor's two parallel stacks (`effStack`, `currentMethods`) are carried
  through the walk as real data (`Frames`).  The ambient effect, however, is
  resolved from the path of enclosing declarations (`Scope`s), exactly as
  the visitor resolves it through path lookups, and never from the stacks.
 */
module EffectVisitor {
  import opened Wrappers
  import opened EffectSystem

  /** One declaration on the path from the root to the node being visited. */
  datatype Scope<E> =
    | InClass(classDefault: E)
    | InMethod(declared: E, body: seq<Tree<E>>)

  /** The two kinds of declaration a path lookup searches for. */
  datatype ScopeKind = ClassScope | MethodScope

  predicate OfKind<E>(s: Scope<E>, k: ScopeKind) {
    match k
    case ClassScope => s.InClass?
    case MethodScope => s.InMethod?
  }

  /** Position `i` holds the innermost declaration of kind `k` on the path. */
  predicate InnermostAt<E>(scopes: seq<Scope<E>>, k: ScopeKind, i: int) {
    && 0 <= i < |scopes|
    && OfKind(scopes[i], k)
    && forall j :: i < j < |scopes| ==> !OfKind(scopes[j], k)
  }

  /**
    The position of the innermost declaration of kind `k` on the path, as
    the path lookups find it: walking outwards from the node and stopping at
    the first match, whatever lies in between.
   */
  function Innermost<E>(scopes: seq<Scope<E>>, k: ScopeKind): (r: Option<nat>)
    ensures r.None? <==> forall i :: 0 <= i < |scopes| ==> !OfKind(scopes[i], k)
    ensures r.Some? ==> InnermostAt(scopes, k, r.value)
    decreases |scopes|
  {
    if scopes == [] then None
    else if OfKind(scopes[|scopes| - 1], k) then Some(|scopes| - 1)
    else Innermost(scopes[..|scopes| - 1], k)
  }

  /**
    The declared effect of the innermost method on the path, if any.  The
    search does not stop at class boundaries: code in a class nested inside
    a method finds the outer method.
   */
  function EnclosingMethod<E>(scopes: seq<Scope<E>>): (r: Option<E>)
    ensures r.None? <==> forall i :: 0 <= i < |scopes| ==> !scopes[i].InMethod?
    ensures r.Some? ==> exists i :: InnermostAt(scopes, MethodScope, i) && scopes[i].declared == r.value
  {
    match Innermost(scopes, MethodScope)
    case None => None
    case Some(i) => Some(scopes[i].declared)
  }

  /** The default effect of the innermost class on the path, if any. */
  function EnclosingClass<E>(scopes: seq<Scope<E>>): (r: Option<E>)
    ensures r.None? <==> forall i :: 0 <= i < |scopes| ==> !scopes[i].InClass?
    ensures r.Some? ==> exists i :: InnermostAt(scopes, ClassScope, i) && scopes[i].classDefault == r.value
  {
    match Innermost(scopes, ClassScope)
    case None => None
    case Some(i) => Some(scopes[i].classDefault)
  }

  /**
    The ambient effect: the declared effect of the enclosing method when
    there is one, otherwise the default effect of the innermost class.
   */
  function Ambient<E>(scopes: seq<Scope<E>>): (r: E)
    requires EnclosingMethod(scopes).Some? || EnclosingClass(scopes).Some?
    ensures forall i :: InnermostAt(scopes, MethodScope, i) ==> r == scopes[i].declared
    ensures (forall i :: 0 <= i < |scopes| ==> !scopes[i].InMethod?) ==>
              forall i :: InnermostAt(scopes, ClassScope, i) ==> r == scopes[i].classDefault
  {
    match EnclosingMethod(scopes)
    case Some(d) => d
    case None => EnclosingClass(scopes).value
  }

  /** The visitor's two parallel stacks. */
  datatype Frames<E> = Frames(effStack: seq<E>, currentMethods: seq<Option<Tree<E>>>)

  /** Push one frame on each stack: both grow by one, with the new entries on top of the old ones. */
  function Push<E>(fr: Frames<E>, eff: E, m: Option<Tree<E>>): (r: Frames<E>)
    ensures |r.effStack| == |fr.effStack| + 1 && |r.currentMethods| == |fr.currentMethods| + 1
    ensures r.effStack[|fr.effStack|] == eff && r.currentMethods[|fr.currentMethods|] == m
    ensures forall i :: 0 <= i < |fr.effStack| ==> r.effStack[i] == fr.effStack[i]
    ensures forall i :: 0 <= i < |fr.currentMethods| ==> r.currentMethods[i] == fr.currentMethods[i]
  {
    Frames(fr.effStack + [eff], fr.currentMethods + [m])
  }

  /** Pop one frame off each stack: pushing the popped entries back restores the stacks. */
  function Pop<E>(fr: Frames<E>): (r: Frames<E>)
    requires |fr.effStack| > 0 && |fr.currentMethods| > 0
    ensures |r.effStack| == |fr.effStack| - 1 && |r.currentMethods| == |fr.currentMethods| - 1
    ensures Push(r, fr.effStack[|fr.effStack| - 1], fr.currentMethods[|fr.currentMethods| - 1]) == fr
  {
    var r := Frames(fr.effStack[..|fr.effStack| - 1], fr.currentMethods[..|fr.currentMethods| - 1]);
    assert r.effStack + [fr.effStack[|fr.effStack| - 1]] == fr.effStack;
    assert r.currentMethods + [fr.currentMethods[|fr.currentMethods| - 1]] == fr.currentMethods;
    r
  }

  /**
    The stacks as they stand while the walk is inside `scopes`: a class
    contributes the bottom effect and no method, a method its declared
    effect and itself.
   */
  function FramesOf<E>(bottom: E, scopes: seq<Scope<E>>): (r: Frames<E>)
    ensures |r.effStack| == |r.currentMethods| == |scopes|
    ensures forall i :: 0 <= i < |scopes| && scopes[i].InClass? ==>
              r.effStack[i] == bottom && r.currentMethods[i] == None
    ensures forall i :: 0 <= i < |scopes| && scopes[i].InMethod? ==>
              && r.effStack[i] == scopes[i].declared
              && r.currentMethods[i] == Some(MethodDecl(scopes[i].declared, scopes[i].body))
    decreases |scopes|
  {
    if scopes == [] then Frames([], [])
    else
      var pre := scopes[..|scopes| - 1];
      var outer := FramesOf(bottom, pre);
      assert forall i :: 0 <= i < |pre| ==> pre[i] == scopes[i];
      match scopes[|scopes| - 1]
      case InClass(_) => Push(outer, bottom, None)
      case InMethod(d, body) => Push(outer, d, Some(MethodDecl(d, body)))
  }

  /**
    `isInvalid`: the target effect, rewritten by the extension when effects
    are being ignored, is not below the ambient effect.
   */
  function IsInvalid<E>(env: Env<E>, target: E, ambient: E): (invalid: bool)
    ensures env.options.ignoreEffects.None? ==> (invalid <==> !env.lattice.le(target, ambient))
    ensures env.options.ignoreEffects.Some? ==>
              (invalid <==> !env.lattice.le(env.ext.checkIgnoredEffects(env.options.ignoreEffects.value, target), ambient))
  {
    var compared := match env.options.ignoreEffects
      case None => target
      case Some(spec) => env.ext.checkIgnoredEffects(spec, target);
    !env.lattice.le(compared, ambient)
  }

  /** The toggle and filter spec that govern diagnostics of severity `sev`. */
  function FilterFor<E>(env: Env<E>, sev: Severity): Option<string> {
    match sev
    case Error => env.options.ignoreErrors
    case Warning => env.options.ignoreWarnings
  }

  /** A diagnostic of severity `sev` and key `msg` survives suppression. */
  predicate Reportable<E>(env: Env<E>, sev: Severity, msg: string) {
    match FilterFor(env, sev)
    case None => true
    case Some(spec) => !env.ext.isIgnored(spec, msg)
  }

  /** The suppression step shared by `checkError` and `checkWarning`. */
  function Suppress<E>(filter: Option<string>, isIgnored: (string, string) -> bool, d: Diagnostic<E>): seq<Diagnostic<E>> {
    match filter
    case None => [d]
    case Some(spec) => if !isIgnored(spec, d.message) then [d] else []
  }

  /** `checkError`: report an error unless errors are ignored and this key is listed. */
  function CheckError<E>(env: Env<E>, node: Tree<E>, target: E, ambient: E, msg: string): (r: seq<Diagnostic<E>>)
    ensures r == [] || r == [Diagnostic(Error, msg, target, ambient, node)]
    ensures env.options.ignoreErrors.None? ==> |r| == 1
    ensures env.options.ignoreErrors.Some? ==>
              (r == [] <==> env.ext.isIgnored(env.options.ignoreErrors.value, msg))
  {
    Suppress(env.options.ignoreErrors, env.ext.isIgnored, Diagnostic(Error, msg, target, ambient, node))
  }

  /** `checkWarning`: report a warning unless warnings are ignored and this key is listed. */
  function CheckWarning<E>(env: Env<E>, node: Tree<E>, target: E, ambient: E, msg: string): (r: seq<Diagnostic<E>>)
    ensures r == [] || r == [Diagnostic(Warning, msg, target, ambient, node)]
    ensures env.options.ignoreWarnings.None? ==> |r| == 1
    ensures env.options.ignoreWarnings.Some? ==>
              (r == [] <==> env.ext.isIgnored(env.options.ignoreWarnings.value, msg))
  {
    Suppress(env.options.ignoreWarnings, env.ext.isIgnored, Diagnostic(Warning, msg, target, ambient, node))
  }

  /** The declared effect of the method or constructor a call invokes. */
  function CalleeEffect<E>(node: Tree<E>): E
    requires node.MethodInvocation? || node.NewClass?
  {
    if node.MethodInvocation? then node.calleeEffect else node.constructorEffect
  }

  /** The error key of a call. */
  function CallMessage<E>(node: Tree<E>): string
    requires node.MethodInvocation? || node.NewClass?
  {
    if node.MethodInvocation? then CallInvalid else ConstructorCallInvalid
  }

  /**
    The check of `visitMethodInvocation` and `visitNewClass`: no activation
    flag, the callee's declared effect as target, and no warning path.
   */
  function CheckCall<E>(env: Env<E>, ambient: E, node: Tree<E>): (r: seq<Diagnostic<E>>)
    requires node.MethodInvocation? || node.NewClass?
    ensures |r| <= 1
    ensures forall d :: d in r ==>
              && d.severity == Error
              && d.message == CallMessage(node)
              && d.target == CalleeEffect(node)
              && d.ambient == ambient
              && d.node == node
    ensures r != [] <==> IsInvalid(env, CalleeEffect(node), ambient) && Reportable(env, Error, CallMessage(node))
  {
    var target := CalleeEffect(node);
    if IsInvalid(env, target, ambient) then CheckError(env, node, target, ambient, CallMessage(node)) else []
  }

  /**
    The check shared by the ten gated `visit*` methods once the kind is
    active: an error when invalid, otherwise a warning if the extension
    supplies one.  The diagnostic carries the target before any rewrite.
   */
  function CheckGated<E>(env: Env<E>, ambient: E, node: Tree<E>): (r: seq<Diagnostic<E>>)
    requires node.Gated?
    ensures |r| <= 1
    ensures forall d :: d in r ==>
              && d.target == env.ext.requiredEffect(node)
              && d.ambient == ambient
              && d.node == node
              && (d.severity == Error <==> IsInvalid(env, d.target, ambient))
    ensures IsInvalid(env, env.ext.requiredEffect(node), ambient) ==>
              && (r != [] <==> Reportable(env, Error, env.ext.reportError(node)))
              && forall d :: d in r ==> d.message == env.ext.reportError(node)
    ensures !IsInvalid(env, env.ext.requiredEffect(node), ambient) ==>
              && (r != [] <==> env.ext.reportWarning(node).Some? &&
                               Reportable(env, Warning, env.ext.reportWarning(node).value))
              && forall d :: d in r ==> env.ext.reportWarning(node) == Some(d.message)
  {
    var target := env.ext.requiredEffect(node);
    if IsInvalid(env, target, ambient) then
      CheckError(env, node, target, ambient, env.ext.reportError(node))
    else
      match env.ext.reportWarning(node)
      case None => []
      case Some(w) => CheckWarning(env, node, target, ambient, w)
  }

  /**
    What every diagnostic the visitor reports satisfies: it is an error
    exactly when the comparison failed, it survived suppression, it names
    the original target effect, and it comes from a node the visitor checks
    (calls only ever produce errors).
   */
  predicate Justified<E(==)>(env: Env<E>, d: Diagnostic<E>) {
    && (d.severity == Error <==> IsInvalid(env, d.target, d.ambient))
    && Reportable(env, d.severity, d.message)
    && match d.node
       case MethodInvocation(callee, _) =>
         d.severity == Error && d.target == callee && d.message == CallInvalid
       case NewClass(ctor, _) =>
         d.severity == Error && d.target == ctor && d.message == ConstructorCallInvalid
       case Gated(k, _, _) =>
         && env.ext.active(k)
         && d.target == env.ext.requiredEffect(d.node)
         && (d.severity == Error ==> d.message == env.ext.reportError(d.node))
         && (d.severity == Warning ==> env.ext.reportWarning(d.node) == Some(d.message))
       case _ => false
  }

  /** The diagnostics of a walk and the stacks it leaves behind. */
  datatype Outcome<E> = Outcome(diags: seq<Diagnostic<E>>, frames: Frames<E>)

  /**
    Visit one node.  The stacks on entry mirror the path; every class and
    method pushes one frame on each stack and pops both after its members,
    so the stacks come back unchanged.
   */
  function Visit<E(==)>(env: Env<E>, scopes: seq<Scope<E>>, fr: Frames<E>, t: Tree<E>): (r: Outcome<E>)
    requires t.ClassDecl? || EnclosingClass(scopes).Some?
    requires fr == FramesOf(env.lattice.bottom, scopes)
    ensures r.frames == fr
    ensures forall d :: d in r.diags ==> Justified(env, d)
    decreases t
  {
    match t
    case ClassDecl(dflt, members) =>
      var inner := VisitSeq(env, scopes + [InClass(dflt)], Push(fr, env.lattice.bottom, None), members);
      Outcome(inner.diags, Pop(inner.frames))
    case MethodDecl(declared, body) =>
      var inner := VisitSeq(env, scopes + [InMethod(declared, body)], Push(fr, declared, Some(t)), body);
      Outcome(inner.diags, Pop(inner.frames))
    case MethodInvocation(_, args) =>
      var rest := VisitSeq(env, scopes, fr, args);
      Outcome(CheckCall(env, Ambient(scopes), t) + rest.diags, rest.frames)
    case NewClass(_, args) =>
      var rest := VisitSeq(env, scopes, fr, args);
      Outcome(CheckCall(env, Ambient(scopes), t) + rest.diags, rest.frames)
    case Gated(k, _, operands) =>
      if env.ext.active(k) then
        var rest := VisitSeq(env, scopes, fr, operands);
        Outcome(CheckGated(env, Ambient(scopes), t) + rest.diags, rest.frames)
      else if k == TypeCast then
        Outcome([], fr)
      else
        VisitSeq(env, scopes, fr, operands)
    case Lambda(body) =>
      VisitSeq(env, scopes, fr, body)
    case MemberReference(qualifier) =>
      VisitSeq(env, scopes, fr, qualifier)
    case MemberSelect(expression) =>
      VisitSeq(env, scopes, fr, expression)
  }

  /** Visit a sequence of siblings left to right, threading the stacks. */
  function VisitSeq<E(==)>(env: Env<E>, scopes: seq<Scope<E>>, fr: Frames<E>, ts: seq<Tree<E>>): (r: Outcome<E>)
    requires EnclosingClass(scopes).Some?
    requires fr == FramesOf(env.lattice.bottom, scopes)
    ensures r.frames == fr
    ensures forall d :: d in r.diags ==> Justified(env, d)
    decreases ts
  {
    if ts == [] then Outcome([], fr)
    else
      var first := Visit(env, scopes, fr, ts[0]);
      var rest := VisitSeq(env, scopes, first.frames, ts[1..]);
      Outcome(first.diags + rest.diags, rest.frames)
  }
}
