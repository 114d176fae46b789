/**
  Properties of the effect visitor that relate several calls or hold of a
  whole walk: how the ambient effect is resolved, how the activation flags
  gate checks, and that suppression treats errors and warnings alike.
 */
module EffectProperties {
  import opened Wrappers
  import opened EffectSystem
  import opened EffectVisitor
  import opened EffectWalk

  /** A tree that opens no class or method scope anywhere inside it. */
  predicate ScopeFree<E>(t: Tree<E>)
    decreases t
  {
    && !t.ClassDecl?
    && !t.MethodDecl?
    && forall i :: 0 <= i < |t.children| ==> ScopeFree(t.children[i])
  }

  /** Every position the walk reaches inside a tree that opens no scope has the root's path. */
  lemma {:induction false} ScopeFreeKeepsPath<E>(env: Env<E>, scopes: seq<Scope<E>>, t: Tree<E>, inner: seq<Scope<E>>, n: Tree<E>)
    requires ScopeFree(t)
    requires Reaches(env, scopes, t, inner, n)
    ensures inner == scopes
    decreases t
  {
    if !(inner == scopes && n == t) {
      var i :| 0 <= i < |t.children| && Reaches(env, ChildScopes(scopes, t), t.children[i], inner, n);
      ScopeFreeKeepsPath(env, scopes, t.children[i], inner, n);
    }
  }

  /** Within a tree that opens no scope, every check runs against one and the same ambient effect. */
  lemma ScopeFreeAmbient<E>(env: Env<E>, scopes: seq<Scope<E>>, t: Tree<E>)
    requires EnclosingClass(scopes).Some?
    requires ScopeFree(t)
    ensures forall d :: d in Visit(env, scopes, FramesOf(env.lattice.bottom, scopes), t).diags ==>
              d.ambient == Ambient(scopes)
  {
    forall d | d in Visit(env, scopes, FramesOf(env.lattice.bottom, scopes), t).diags
      ensures d.ambient == Ambient(scopes)
    {
      EveryDiagnosticHasAPosition(env, scopes, t, d);
      var inner :| ReportedAt(env, scopes, t, inner, d);
      ScopeFreeKeepsPath(env, scopes, t, inner, d.node);
    }
  }

  /** The same for a sequence of siblings that open no scope. */
  lemma ScopeFreeAmbientSeq<E>(env: Env<E>, scopes: seq<Scope<E>>, ts: seq<Tree<E>>)
    requires EnclosingClass(scopes).Some?
    requires forall i :: 0 <= i < |ts| ==> ScopeFree(ts[i])
    ensures forall d :: d in VisitSeq(env, scopes, FramesOf(env.lattice.bottom, scopes), ts).diags ==>
              d.ambient == Ambient(scopes)
  {
    var fr := FramesOf(env.lattice.bottom, scopes);
    forall d | d in VisitSeq(env, scopes, fr, ts).diags
      ensures d.ambient == Ambient(scopes)
    {
      SeqSplits(env, scopes, ts, d);
      var i :| 0 <= i < |ts| && d in Visit(env, scopes, fr, ts[i]).diags;
      ScopeFreeAmbient(env, scopes, ts[i]);
    }
  }

  /** A tree that declares no method anywhere inside it; it may declare classes. */
  predicate MethodFree<E>(t: Tree<E>)
    decreases t
  {
    && !t.MethodDecl?
    && forall i :: 0 <= i < |t.children| ==> MethodFree(t.children[i])
  }

  /** Opening a class does not change which method encloses the path. */
  lemma ClassKeepsEnclosingMethod<E>(scopes: seq<Scope<E>>, dflt: E)
    ensures EnclosingMethod(scopes + [InClass(dflt)]) == EnclosingMethod(scopes)
  {
    assert (scopes + [InClass(dflt)])[..|scopes|] == scopes;
  }

  /** Every position the walk reaches inside a method-free tree has the same enclosing method as its root. */
  lemma {:induction false} MethodFreeKeepsEnclosingMethod<E>(env: Env<E>, scopes: seq<Scope<E>>, t: Tree<E>, inner: seq<Scope<E>>, n: Tree<E>)
    requires MethodFree(t)
    requires Reaches(env, scopes, t, inner, n)
    ensures EnclosingMethod(inner) == EnclosingMethod(scopes)
    decreases t
  {
    if !(inner == scopes && n == t) {
      var cs := ChildScopes(scopes, t);
      var i :| 0 <= i < |t.children| && Reaches(env, cs, t.children[i], inner, n);
      MethodFreeKeepsEnclosingMethod(env, cs, t.children[i], inner, n);
      if t.ClassDecl? {
        ClassKeepsEnclosingMethod(scopes, t.defaultEffect);
      }
    }
  }

  /**
    Inside a method, every check in a subtree that declares no further
    method runs against that method's declared effect, including checks
    inside classes nested in the subtree.
   */
  lemma MethodFreeAmbient<E>(env: Env<E>, scopes: seq<Scope<E>>, t: Tree<E>)
    requires EnclosingMethod(scopes).Some?
    requires t.ClassDecl? || EnclosingClass(scopes).Some?
    requires MethodFree(t)
    ensures forall d :: d in Visit(env, scopes, FramesOf(env.lattice.bottom, scopes), t).diags ==>
              d.ambient == EnclosingMethod(scopes).value
  {
    forall d | d in Visit(env, scopes, FramesOf(env.lattice.bottom, scopes), t).diags
      ensures d.ambient == EnclosingMethod(scopes).value
    {
      EveryDiagnosticHasAPosition(env, scopes, t, d);
      var inner :| ReportedAt(env, scopes, t, inner, d);
      MethodFreeKeepsEnclosingMethod(env, scopes, t, inner, d.node);
    }
  }

  /**
    Every check in the body of a method that declares no further method
    runs against the method's declared effect; classes declared in the body
    do not change that.
   */
  lemma MethodBodyAmbient<E>(env: Env<E>, scopes: seq<Scope<E>>, declared: E, body: seq<Tree<E>>)
    requires EnclosingClass(scopes).Some?
    requires forall i :: 0 <= i < |body| ==> MethodFree(body[i])
    ensures forall d :: d in Visit(env, scopes, FramesOf(env.lattice.bottom, scopes), MethodDecl(declared, body)).diags ==>
              d.ambient == declared
  {
    var t := MethodDecl(declared, body);
    var inner := scopes + [InMethod(declared, body)];
    var fi := FramesOf(env.lattice.bottom, inner);
    assert InnermostAt(inner, MethodScope, |scopes|);
    assert EnclosingMethod(inner) == Some(declared);
    ChildScopesInClass(scopes, t);
    DeclarationShape(env, scopes, t);
    forall d | d in Visit(env, scopes, FramesOf(env.lattice.bottom, scopes), t).diags
      ensures d.ambient == declared
    {
      SeqSplits(env, inner, body, d);
      var i :| 0 <= i < |body| && d in Visit(env, inner, fi, body[i]).diags;
      MethodFreeAmbient(env, inner, body[i]);
    }
  }

  /**
    Outside any method, the checks in a scope-free member of a class body
    run against the class's default effect and are reported for the class,
    whatever methods the class also declares; the frame pushed for the class
    holds the bottom effect.
   */
  lemma FieldLevelAmbient<E>(env: Env<E>, scopes: seq<Scope<E>>, dflt: E, members: seq<Tree<E>>, i: int)
    requires EnclosingMethod(scopes).None?
    requires 0 <= i < |members| && ScopeFree(members[i])
    ensures var inner := scopes + [InClass(dflt)];
            forall d :: d in Visit(env, inner, FramesOf(env.lattice.bottom, inner), members[i]).diags ==>
              && d.ambient == dflt
              && d in Visit(env, scopes, FramesOf(env.lattice.bottom, scopes), ClassDecl(dflt, members)).diags
    ensures FramesOf(env.lattice.bottom, scopes + [InClass(dflt)]).effStack[|scopes|] == env.lattice.bottom
  {
    var t := ClassDecl(dflt, members);
    var inner := scopes + [InClass(dflt)];
    ClassKeepsEnclosingMethod(scopes, dflt);
    assert InnermostAt(inner, ClassScope, |scopes|);
    assert Ambient(inner) == dflt;
    ScopeFreeAmbient(env, inner, members[i]);
    forall d | d in Visit(env, inner, FramesOf(env.lattice.bottom, inner), members[i]).diags
      ensures d in Visit(env, scopes, FramesOf(env.lattice.bottom, scopes), t).diags
    {
      ChildIncluded(env, scopes, t, i, d);
    }
  }

  /** Inside a method, the top of the effect stack is its declared effect, which is also the ambient effect. */
  lemma MethodFrameOnTop<E>(bottom: E, scopes: seq<Scope<E>>, declared: E, body: seq<Tree<E>>)
    ensures var fr := FramesOf(bottom, scopes + [InMethod(declared, body)]);
            && fr.effStack[|scopes|] == declared
            && fr.currentMethods[|scopes|] == Some(MethodDecl(declared, body))
            && Ambient(scopes + [InMethod(declared, body)]) == declared
  {
    assert InnermostAt(scopes + [InMethod(declared, body)], MethodScope, |scopes|);
  }

  /**
    The stacks are not what the ambient effect is read from: in a class
    nested inside a method the top frame holds the bottom effect, while
    checks run against the enclosing method's declared effect.
   */
  lemma NestedClassUsesOuterMethod<E>(bottom: E, scopes: seq<Scope<E>>, dflt: E)
    requires EnclosingMethod(scopes).Some?
    ensures var fr := FramesOf(bottom, scopes + [InClass(dflt)]);
            && fr.effStack[|scopes|] == bottom
            && fr.currentMethods[|scopes|] == None
            && Ambient(scopes + [InClass(dflt)]) == EnclosingMethod(scopes).value
  {
    var inner := scopes + [InClass(dflt)];
    assert inner[..|scopes|] == scopes;
    assert EnclosingMethod(inner) == EnclosingMethod(scopes);
  }

  /** A gated construct whose kind is inactive reports nothing itself, yet its children are visited. */
  lemma InactiveKindStillVisitsChildren<E>(env: Env<E>, scopes: seq<Scope<E>>, k: Kind, site: nat, operands: seq<Tree<E>>)
    requires EnclosingClass(scopes).Some?
    requires !env.ext.active(k) && k != TypeCast
    ensures var fr := FramesOf(env.lattice.bottom, scopes);
            Visit(env, scopes, fr, Gated(k, site, operands)) == VisitSeq(env, scopes, fr, operands)
  {
  }

  /** An inactive type cast is the exception: its operand is not visited at all. */
  lemma InactiveTypeCastSkipsOperand<E>(env: Env<E>, scopes: seq<Scope<E>>, site: nat, operand: seq<Tree<E>>)
    requires EnclosingClass(scopes).Some?
    requires !env.ext.active(TypeCast)
    ensures Visit(env, scopes, FramesOf(env.lattice.bottom, scopes), Gated(TypeCast, site, operand)).diags == []
  {
  }

  /** An active gated construct is checked before its children, against the ambient effect. */
  lemma ActiveKindChecksFirst<E>(env: Env<E>, scopes: seq<Scope<E>>, k: Kind, site: nat, operands: seq<Tree<E>>)
    requires EnclosingClass(scopes).Some?
    requires env.ext.active(k)
    ensures var fr := FramesOf(env.lattice.bottom, scopes);
            var t := Gated(k, site, operands);
            Visit(env, scopes, fr, t).diags ==
              CheckGated(env, Ambient(scopes), t) + VisitSeq(env, scopes, fr, operands).diags
  {
    ExpressionShape(env, scopes, Gated(k, site, operands));
  }

  /**
    With errors not being ignored, an active gated construct's own verdict
    is an error, carrying the effect the extension required before any
    rewrite, exactly when the compared effect (rewritten when effects are
    being ignored) is not below the ambient effect.
   */
  lemma GatedErrorIffNotBelow<E>(env: Env<E>, ambient: E, k: Kind, site: nat, operands: seq<Tree<E>>)
    requires env.options.ignoreErrors.None?
    ensures var t := Gated(k, site, operands);
            var required := env.ext.requiredEffect(t);
            var compared := if env.options.ignoreEffects.Some?
              then env.ext.checkIgnoredEffects(env.options.ignoreEffects.value, required)
              else required;
            !env.lattice.le(compared, ambient) <==>
              CheckGated(env, ambient, t) == [Diagnostic(Error, env.ext.reportError(t), required, ambient, t)]
  {
  }

  /**
    A call whose callee's declared effect is not permitted is reported,
    first and exactly once, unless errors are ignored and its key listed;
    a permitted call adds nothing of its own.
   */
  lemma CallCheckedUnconditionally<E>(env: Env<E>, scopes: seq<Scope<E>>, t: Tree<E>)
    requires EnclosingClass(scopes).Some?
    requires t.MethodInvocation? || t.NewClass?
    ensures var fr := FramesOf(env.lattice.bottom, scopes);
            var ds := Visit(env, scopes, fr, t).diags;
            var amb := Ambient(scopes);
            && (IsInvalid(env, CalleeEffect(t), amb) && Reportable(env, Error, CallMessage(t)) ==>
                  ds == [Diagnostic(Error, CallMessage(t), CalleeEffect(t), amb, t)] + VisitSeq(env, scopes, fr, t.children).diags)
            && (!IsInvalid(env, CalleeEffect(t), amb) ==> ds == VisitSeq(env, scopes, fr, t.children).diags)
  {
    var fr := FramesOf(env.lattice.bottom, scopes);
    var amb := Ambient(scopes);
    var r := CheckCall(env, amb, t);
    var rest := VisitSeq(env, scopes, fr, t.children).diags;
    assert Visit(env, scopes, fr, t).diags == r + rest;
    if IsInvalid(env, CalleeEffect(t), amb) && Reportable(env, Error, CallMessage(t)) {
      assert r[0] in r;
      assert r == [Diagnostic(Error, CallMessage(t), CalleeEffect(t), amb, t)];
    } else if !IsInvalid(env, CalleeEffect(t), amb) {
      assert r == [];
    }
  }

  /** Turns every diagnostic into a warning. */
  function AsWarnings<E>(ds: seq<Diagnostic<E>>): seq<Diagnostic<E>> {
    seq(|ds|, i requires 0 <= i < |ds| => ds[i].(severity := Warning))
  }

  /**
    Suppression of warnings is suppression of errors with the warning
    toggle in place of the error toggle: same decision, same single report.
   */
  lemma SuppressionIsUniform<E>(env: Env<E>, node: Tree<E>, target: E, ambient: E, msg: string)
    ensures var asErrors := env.(options := env.options.(ignoreErrors := env.options.ignoreWarnings));
            CheckWarning(env, node, target, ambient, msg) == AsWarnings(CheckError(asErrors, node, target, ambient, msg))
  {
  }
}
