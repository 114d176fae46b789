/**
  Worked scenarios over a three-point effect order `Low <= Mid <= High`,
  with an extension that activates every kind, requires `High` of every
  gated construct and optionally attaches a warning to each.
 */
module EffectScenarios {
  import opened Wrappers
  import opened EffectSystem
  import opened EffectVisitor
  import opened EffectWalk

  datatype Level = Low | Mid | High

  function Rank(l: Level): nat {
    match l
    case Low => 0
    case Mid => 1
    case High => 2
  }

  function Levels(): Lattice<Level> {
    Lattice((a: Level, b: Level) => Rank(a) <= Rank(b), Low)
  }

  const ArrayError: string := "array.access.invalid"
  const ArrayWarning: string := "array.access.unsafe"

  /** An extension whose gated constructs all require `High`; `warn` decides whether it also warns. */
  function HighExtension(warn: bool): Extension<Level> {
    Extension(
      (k: Kind) => true,
      (n: Tree<Level>) => High,
      (n: Tree<Level>) => ArrayError,
      (n: Tree<Level>) => if warn then Some(ArrayWarning) else None,
      (spec: string, e: Level) => e,
      (spec: string, msg: string) => msg == spec)
  }

  function Plain(warn: bool): Env<Level> {
    Env(Levels(), HighExtension(warn), Options(None, None, None))
  }

  /** A `Mid` method calling a `High` method is an error... */
  lemma CallRejected()
    ensures var bad := MethodInvocation(High, []);
            CheckClass(Plain(false), ClassDecl(Low, [MethodDecl(Mid, [bad])])).diags ==
              [Diagnostic(Error, CallInvalid, High, Mid, bad)]
  {
  }

  /** ...while calling a `Low` method is fine. */
  lemma CallAccepted()
    ensures CheckClass(Plain(false), ClassDecl(Low, [MethodDecl(Mid, [MethodInvocation(Low, [])])])).diags == []
  {
  }

  /** A `High` array access in a `Mid` method is an error, and the warning it also carries is not reported. */
  lemma ErrorExcludesWarning()
    ensures var access := Gated(ArrayAccess, 0, []);
            CheckClass(Plain(true), ClassDecl(Low, [MethodDecl(Mid, [access])])).diags ==
              [Diagnostic(Error, ArrayError, High, Mid, access)]
  {
  }

  /** The same access in a `High` method is permitted, so its warning is reported instead. */
  lemma WarningWhenPermitted()
    ensures var access := Gated(ArrayAccess, 0, []);
            CheckClass(Plain(true), ClassDecl(Low, [MethodDecl(High, [access])])).diags ==
              [Diagnostic(Warning, ArrayWarning, High, High, access)]
  {
  }

  /** Outside any method the class default decides: a `Low` class rejects a `High` access... */
  lemma FieldLevelRejected()
    ensures var access := Gated(ArrayAccess, 0, []);
            CheckClass(Plain(false), ClassDecl(Low, [access])).diags ==
              [Diagnostic(Error, ArrayError, High, Low, access)]
  {
  }

  /** ...and a `High` class accepts it. */
  lemma FieldLevelAccepted()
    ensures CheckClass(Plain(false), ClassDecl(High, [Gated(ArrayAccess, 0, [])])).diags == []
  {
  }

  /** Listing the call key among ignored errors silences that violation but not an unrelated one. */
  lemma SuppressionScenario()
    ensures var env := Env(Levels(), HighExtension(false), Options(None, None, Some(CallInvalid)));
            var call := MethodInvocation(High, []);
            var access := Gated(ArrayAccess, 0, []);
            CheckClass(env, ClassDecl(Low, [MethodDecl(Mid, [call, access])])).diags ==
              [Diagnostic(Error, ArrayError, High, Mid, access)]
  {
  }

  /** The plain environment with the type-cast check switched off. */
  function NoCastCheck(): Env<Level> {
    var env := Plain(false);
    env.(ext := env.ext.(active := (k: Kind) => k != TypeCast))
  }

  /**
    With the type-cast check off, a cast's operand is not visited, so an
    invalid call inside it goes unreported although the same call outside a
    cast is an error (`CallRejected`).
   */
  lemma CallInsideInactiveCastUnchecked()
    ensures var cast := Gated(TypeCast, 0, [MethodInvocation(High, [])]);
            CheckClass(NoCastCheck(), ClassDecl(Low, [MethodDecl(Mid, [cast])])).diags == []
  {
  }
}
