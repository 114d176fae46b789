/**
  The walk as a whole: which nodes the visitor reaches, with which path of
  enclosing declarations, and the two directions relating those positions to
  the diagnostics of `Visit`.  Every check the visitor owes at a reached
  position is reported, and every reported diagnostic is owed at some reached
  position and carries that position's ambient effect.
 */
module EffectWalk {
  import opened Wrappers
  import opened EffectSystem
  import opened EffectVisitor

  /** The path below `t`'s children: a class or a method adds its own scope. */
  function ChildScopes<E>(scopes: seq<Scope<E>>, t: Tree<E>): seq<Scope<E>> {
    match t
    case ClassDecl(dflt, _) => scopes + [InClass(dflt)]
    case MethodDecl(declared, body) => scopes + [InMethod(declared, body)]
    case _ => scopes
  }

  /** The visitor scans `t`'s children unless `t` is a type cast whose check is off. */
  predicate ScansChildren<E>(env: Env<E>, t: Tree<E>) {
    !(t.Gated? && t.kind == TypeCast && !env.ext.active(TypeCast))
  }

  /**
    Walking `t` from path `scopes`, the visitor reaches node `n` with path
    `inner`: `n` is `t` itself, or it is reached from one of the children
    the visitor scans, whose path includes `t`'s own scope.
   */
  ghost predicate Reaches<E>(env: Env<E>, scopes: seq<Scope<E>>, t: Tree<E>, inner: seq<Scope<E>>, n: Tree<E>)
    decreases t
  {
    || (inner == scopes && n == t)
    || (&& ScansChildren(env, t)
        && exists i :: 0 <= i < |t.children| && Reaches(env, ChildScopes(scopes, t), t.children[i], inner, n))
  }

  /**
    The diagnostics the visitor owes node `n` itself at path `inner`: the
    call check for calls and constructor calls, the gated check for a
    construct whose kind is active, nothing otherwise.
   */
  function OwnVerdict<E>(env: Env<E>, inner: seq<Scope<E>>, n: Tree<E>): seq<Diagnostic<E>>
    requires n.ClassDecl? || EnclosingClass(inner).Some?
  {
    match n
    case MethodInvocation(_, _) => CheckCall(env, Ambient(inner), n)
    case NewClass(_, _) => CheckCall(env, Ambient(inner), n)
    case Gated(k, _, _) => if env.ext.active(k) then CheckGated(env, Ambient(inner), n) else []
    case _ => []
  }

  /** Every diagnostic the visitor owes node `n` at path `inner` carries that path's ambient effect and names `n`. */
  lemma OwnVerdictAt<E>(env: Env<E>, inner: seq<Scope<E>>, n: Tree<E>)
    requires n.ClassDecl? || EnclosingClass(inner).Some?
    ensures forall d :: d in OwnVerdict(env, inner, n) ==> !n.ClassDecl? && d.node == n && d.ambient == Ambient(inner)
  {
  }

  /** Below a class or a method, the path still has an innermost class. */
  lemma ChildScopesInClass<E>(scopes: seq<Scope<E>>, t: Tree<E>)
    requires t.ClassDecl? || EnclosingClass(scopes).Some?
    ensures EnclosingClass(ChildScopes(scopes, t)).Some?
  {
    var cs := ChildScopes(scopes, t);
    if t.MethodDecl? {
      assert cs[..|scopes|] == scopes;
      assert !OfKind(cs[|cs| - 1], ClassScope);
    }
  }

  /**
    One step of the walk: a node's diagnostics are its own verdict followed
    by those of the children it scans, visited with the path and stacks
    extended by the node's own scope.
   */
  lemma VisitShape<E>(env: Env<E>, scopes: seq<Scope<E>>, t: Tree<E>)
    requires t.ClassDecl? || EnclosingClass(scopes).Some?
    ensures EnclosingClass(ChildScopes(scopes, t)).Some?
    ensures Visit(env, scopes, FramesOf(env.lattice.bottom, scopes), t).diags ==
            OwnVerdict(env, scopes, t) +
            (if ScansChildren(env, t)
             then VisitSeq(env, ChildScopes(scopes, t), FramesOf(env.lattice.bottom, ChildScopes(scopes, t)), t.children).diags
             else [])
  {
    ChildScopesInClass(scopes, t);
    if t.ClassDecl? || t.MethodDecl? {
      DeclarationShape(env, scopes, t);
    } else {
      ExpressionShape(env, scopes, t);
    }
  }

  /** A class or a method reports nothing itself and visits its members with its own frame pushed. */
  lemma DeclarationShape<E>(env: Env<E>, scopes: seq<Scope<E>>, t: Tree<E>)
    requires t.ClassDecl? || (t.MethodDecl? && EnclosingClass(scopes).Some?)
    requires EnclosingClass(ChildScopes(scopes, t)).Some?
    ensures Visit(env, scopes, FramesOf(env.lattice.bottom, scopes), t).diags ==
            VisitSeq(env, ChildScopes(scopes, t), FramesOf(env.lattice.bottom, ChildScopes(scopes, t)), t.children).diags
  {
    var b := env.lattice.bottom;
    var cs := ChildScopes(scopes, t);
    assert cs[..|scopes|] == scopes;
    if t.ClassDecl? {
      assert FramesOf(b, cs) == Push(FramesOf(b, scopes), b, None);
    } else {
      assert FramesOf(b, cs) == Push(FramesOf(b, scopes), t.declaredEffect, Some(t));
    }
  }

  /** Any other node reports its own verdict and then visits the children it scans, at the same path. */
  lemma ExpressionShape<E>(env: Env<E>, scopes: seq<Scope<E>>, t: Tree<E>)
    requires !t.ClassDecl? && !t.MethodDecl? && EnclosingClass(scopes).Some?
    ensures Visit(env, scopes, FramesOf(env.lattice.bottom, scopes), t).diags ==
            OwnVerdict(env, scopes, t) +
            (if ScansChildren(env, t) then VisitSeq(env, scopes, FramesOf(env.lattice.bottom, scopes), t.children).diags else [])
  {
  }

  /** A node's own diagnostics are among those of its visit. */
  lemma OwnIncluded<E>(env: Env<E>, scopes: seq<Scope<E>>, t: Tree<E>, d: Diagnostic<E>)
    requires t.ClassDecl? || EnclosingClass(scopes).Some?
    requires d in OwnVerdict(env, scopes, t)
    ensures d in Visit(env, scopes, FramesOf(env.lattice.bottom, scopes), t).diags
  {
    VisitShape(env, scopes, t);
  }

  /** The diagnostics of a scanned child are among those of its parent's visit. */
  lemma ChildIncluded<E>(env: Env<E>, scopes: seq<Scope<E>>, t: Tree<E>, i: int, d: Diagnostic<E>)
    requires t.ClassDecl? || EnclosingClass(scopes).Some?
    requires EnclosingClass(ChildScopes(scopes, t)).Some?
    requires ScansChildren(env, t) && 0 <= i < |t.children|
    requires d in Visit(env, ChildScopes(scopes, t), FramesOf(env.lattice.bottom, ChildScopes(scopes, t)), t.children[i]).diags
    ensures d in Visit(env, scopes, FramesOf(env.lattice.bottom, scopes), t).diags
  {
    VisitShape(env, scopes, t);
    SeqIncludes(env, ChildScopes(scopes, t), t.children, i, d);
  }

  /** Siblings are visited first to last, each from the same stacks. */
  lemma SeqShape<E>(env: Env<E>, scopes: seq<Scope<E>>, ts: seq<Tree<E>>)
    requires EnclosingClass(scopes).Some?
    requires ts != []
    ensures VisitSeq(env, scopes, FramesOf(env.lattice.bottom, scopes), ts).diags ==
            Visit(env, scopes, FramesOf(env.lattice.bottom, scopes), ts[0]).diags +
            VisitSeq(env, scopes, FramesOf(env.lattice.bottom, scopes), ts[1..]).diags
  {
    var fr := FramesOf(env.lattice.bottom, scopes);
    assert Visit(env, scopes, fr, ts[0]).frames == fr;
  }

  /** A diagnostic of one sibling is a diagnostic of the whole sequence. */
  lemma {:induction false} SeqIncludes<E>(env: Env<E>, scopes: seq<Scope<E>>, ts: seq<Tree<E>>, i: int, d: Diagnostic<E>)
    requires EnclosingClass(scopes).Some?
    requires 0 <= i < |ts|
    requires d in Visit(env, scopes, FramesOf(env.lattice.bottom, scopes), ts[i]).diags
    ensures d in VisitSeq(env, scopes, FramesOf(env.lattice.bottom, scopes), ts).diags
    decreases |ts|
  {
    SeqShape(env, scopes, ts);
    if i != 0 {
      var rest := ts[1..];
      assert rest[i - 1] == ts[i];
      SeqIncludes(env, scopes, rest, i - 1, d);
    }
  }

  /** Each diagnostic of a sequence of siblings comes from one of them. */
  lemma {:induction false} SeqSplits<E>(env: Env<E>, scopes: seq<Scope<E>>, ts: seq<Tree<E>>, d: Diagnostic<E>)
    requires EnclosingClass(scopes).Some?
    requires d in VisitSeq(env, scopes, FramesOf(env.lattice.bottom, scopes), ts).diags
    ensures exists i :: 0 <= i < |ts| && d in Visit(env, scopes, FramesOf(env.lattice.bottom, scopes), ts[i]).diags
    decreases |ts|
  {
    var fr := FramesOf(env.lattice.bottom, scopes);
    SeqShape(env, scopes, ts);
    if d !in Visit(env, scopes, fr, ts[0]).diags {
      SeqSplits(env, scopes, ts[1..], d);
      var i :| 0 <= i < |ts[1..]| && d in Visit(env, scopes, fr, ts[1..][i]).diags;
      assert ts[1..][i] == ts[i + 1];
    }
  }

  /**
    Completeness: every diagnostic owed at a reached position is among the
    diagnostics of the walk.
   */
  lemma {:induction false} ReachedVerdictReported<E>(env: Env<E>, scopes: seq<Scope<E>>, t: Tree<E>, inner: seq<Scope<E>>, n: Tree<E>)
    requires t.ClassDecl? || EnclosingClass(scopes).Some?
    requires Reaches(env, scopes, t, inner, n)
    ensures n.ClassDecl? || EnclosingClass(inner).Some?
    ensures forall d :: d in OwnVerdict(env, inner, n) ==>
              d in Visit(env, scopes, FramesOf(env.lattice.bottom, scopes), t).diags
    decreases t
  {
    if inner == scopes && n == t {
      forall d | d in OwnVerdict(env, inner, n)
        ensures d in Visit(env, scopes, FramesOf(env.lattice.bottom, scopes), t).diags
      {
        OwnIncluded(env, scopes, t, d);
      }
    } else {
      var cs := ChildScopes(scopes, t);
      ChildScopesInClass(scopes, t);
      var i :| 0 <= i < |t.children| && Reaches(env, cs, t.children[i], inner, n);
      ReachedVerdictReported(env, cs, t.children[i], inner, n);
      forall d | d in OwnVerdict(env, inner, n)
        ensures d in Visit(env, scopes, FramesOf(env.lattice.bottom, scopes), t).diags
      {
        ChildIncluded(env, scopes, t, i, d);
      }
    }
  }

  /**
    A reached call or constructor call whose callee effect is invalid
    against the ambient effect of its position, and whose message survives
    suppression, is reported with exactly that ambient effect.
   */
  lemma ReachedCallViolationReported<E>(env: Env<E>, scopes: seq<Scope<E>>, t: Tree<E>, inner: seq<Scope<E>>, n: Tree<E>)
    requires t.ClassDecl? || EnclosingClass(scopes).Some?
    requires Reaches(env, scopes, t, inner, n)
    requires n.MethodInvocation? || n.NewClass?
    ensures EnclosingClass(inner).Some?
    ensures IsInvalid(env, CalleeEffect(n), Ambient(inner)) && Reportable(env, Error, CallMessage(n)) ==>
              Diagnostic(Error, CallMessage(n), CalleeEffect(n), Ambient(inner), n) in
                Visit(env, scopes, FramesOf(env.lattice.bottom, scopes), t).diags
  {
    ReachedVerdictReported(env, scopes, t, inner, n);
    var r := CheckCall(env, Ambient(inner), n);
    if r != [] {
      assert r[0] in OwnVerdict(env, inner, n);
    }
  }

  /**
    A reached construct whose kind is active is reported as the gated check
    demands at the ambient effect of its position: the error when it is
    invalid, otherwise the extension's warning if it supplies one, each only
    when its message survives suppression.
   */
  lemma ReachedGatedReported<E>(env: Env<E>, scopes: seq<Scope<E>>, t: Tree<E>, inner: seq<Scope<E>>, n: Tree<E>)
    requires t.ClassDecl? || EnclosingClass(scopes).Some?
    requires Reaches(env, scopes, t, inner, n)
    requires n.Gated? && env.ext.active(n.kind)
    ensures EnclosingClass(inner).Some?
    ensures IsInvalid(env, env.ext.requiredEffect(n), Ambient(inner)) &&
            Reportable(env, Error, env.ext.reportError(n)) ==>
              Diagnostic(Error, env.ext.reportError(n), env.ext.requiredEffect(n), Ambient(inner), n) in
                Visit(env, scopes, FramesOf(env.lattice.bottom, scopes), t).diags
    ensures !IsInvalid(env, env.ext.requiredEffect(n), Ambient(inner)) &&
            env.ext.reportWarning(n).Some? && Reportable(env, Warning, env.ext.reportWarning(n).value) ==>
              Diagnostic(Warning, env.ext.reportWarning(n).value, env.ext.requiredEffect(n), Ambient(inner), n) in
                Visit(env, scopes, FramesOf(env.lattice.bottom, scopes), t).diags
  {
    ReachedVerdictReported(env, scopes, t, inner, n);
    var r := CheckGated(env, Ambient(inner), n);
    if r != [] {
      assert r[0] in OwnVerdict(env, inner, n);
    }
  }

  /** Diagnostic `d` is owed at position `(inner, d.node)`, reached from `t` at path `scopes`. */
  ghost predicate ReportedAt<E>(env: Env<E>, scopes: seq<Scope<E>>, t: Tree<E>, inner: seq<Scope<E>>, d: Diagnostic<E>) {
    && Reaches(env, scopes, t, inner, d.node)
    && EnclosingClass(inner).Some?
    && d in OwnVerdict(env, inner, d.node)
    && d.ambient == Ambient(inner)
  }

  /**
    Soundness with positions: every diagnostic of the walk is owed at a
    position the walk reaches, and carries the ambient effect of that
    position's path.
   */
  lemma {:induction false} EveryDiagnosticHasAPosition<E>(env: Env<E>, scopes: seq<Scope<E>>, t: Tree<E>, d: Diagnostic<E>)
    requires t.ClassDecl? || EnclosingClass(scopes).Some?
    requires d in Visit(env, scopes, FramesOf(env.lattice.bottom, scopes), t).diags
    ensures exists inner :: ReportedAt(env, scopes, t, inner, d)
    decreases t, 1
  {
    VisitShape(env, scopes, t);
    if d in OwnVerdict(env, scopes, t) {
      ReportedHere(env, scopes, t, d);
    } else {
      ChildHasAPosition(env, scopes, t, d);
    }
  }

  /** A diagnostic of the children a node scans is owed at a position reached from the node. */
  lemma {:induction false} ChildHasAPosition<E>(env: Env<E>, scopes: seq<Scope<E>>, t: Tree<E>, d: Diagnostic<E>)
    requires EnclosingClass(ChildScopes(scopes, t)).Some?
    requires ScansChildren(env, t)
    requires d in VisitSeq(env, ChildScopes(scopes, t), FramesOf(env.lattice.bottom, ChildScopes(scopes, t)), t.children).diags
    ensures exists inner :: ReportedAt(env, scopes, t, inner, d)
    decreases t, 0
  {
    var cs := ChildScopes(scopes, t);
    var fc := FramesOf(env.lattice.bottom, cs);
    SeqSplits(env, cs, t.children, d);
    var i :| 0 <= i < |t.children| && d in Visit(env, cs, fc, t.children[i]).diags;
    EveryDiagnosticHasAPosition(env, cs, t.children[i], d);
    var inner :| ReportedAt(env, cs, t.children[i], inner, d);
    ReportedThroughChild(env, scopes, t, i, inner, d);
  }

  /** A node's own diagnostics are owed at the node itself. */
  lemma ReportedHere<E>(env: Env<E>, scopes: seq<Scope<E>>, t: Tree<E>, d: Diagnostic<E>)
    requires t.ClassDecl? || EnclosingClass(scopes).Some?
    requires d in OwnVerdict(env, scopes, t)
    ensures ReportedAt(env, scopes, t, scopes, d)
  {
    OwnVerdictAt(env, scopes, t);
  }

  /** A position reached from a scanned child is reached from its parent. */
  lemma ReportedThroughChild<E>(env: Env<E>, scopes: seq<Scope<E>>, t: Tree<E>, i: int, inner: seq<Scope<E>>, d: Diagnostic<E>)
    requires ScansChildren(env, t) && 0 <= i < |t.children|
    requires ReportedAt(env, ChildScopes(scopes, t), t.children[i], inner, d)
    ensures ReportedAt(env, scopes, t, inner, d)
  {
  }

  /** From a top-level class, every diagnostic is owed at a reached position. */
  lemma ClassSound<E(!new)>(env: Env<E>, c: Tree<E>)
    requires c.ClassDecl?
    ensures forall d :: d in Visit(env, [], Frames([], []), c).diags ==> exists inner :: ReportedAt(env, [], c, inner, d)
  {
    assert FramesOf(env.lattice.bottom, []) == Frames([], []);
    forall d | d in Visit(env, [], Frames([], []), c).diags
      ensures exists inner :: ReportedAt(env, [], c, inner, d)
    {
      EveryDiagnosticHasAPosition(env, [], c, d);
    }
  }

  /** From a top-level class, every diagnostic owed at a reached position is reported. */
  lemma ClassComplete<E(!new)>(env: Env<E>, c: Tree<E>)
    requires c.ClassDecl?
    ensures forall inner, n :: Reaches(env, [], c, inner, n) ==>
              && (n.ClassDecl? || EnclosingClass(inner).Some?)
              && forall d :: d in OwnVerdict(env, inner, n) ==> d in Visit(env, [], Frames([], []), c).diags
  {
    assert FramesOf(env.lattice.bottom, []) == Frames([], []);
    forall inner, n | Reaches(env, [], c, inner, n)
      ensures && (n.ClassDecl? || EnclosingClass(inner).Some?)
              && forall d :: d in OwnVerdict(env, inner, n) ==> d in Visit(env, [], Frames([], []), c).diags
    {
      ReachedVerdictReported(env, [], c, inner, n);
    }
  }

  /**
    `processClassTree` on a top-level class, from the freshly constructed
    visitor's empty stacks: both stacks end empty, every diagnostic is owed
    at a position the walk reaches and carries that position's ambient
    effect, and every diagnostic owed at a reached position is reported.
   */
  function CheckClass<E(==,!new)>(env: Env<E>, c: Tree<E>): (r: Outcome<E>)
    requires c.ClassDecl?
    ensures r.frames == Frames([], [])
    ensures forall d :: d in r.diags ==> Justified(env, d) && exists inner :: ReportedAt(env, [], c, inner, d)
    ensures forall inner, n :: Reaches(env, [], c, inner, n) ==>
              && (n.ClassDecl? || EnclosingClass(inner).Some?)
              && forall d :: d in OwnVerdict(env, inner, n) ==> d in r.diags
  {
    ClassSound(env, c);
    ClassComplete(env, c);
    Visit(env, [], Frames([], []), c)
  }
}
