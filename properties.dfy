/**
  Consequences of the free-variable computation: what a binder removes and
  what it keeps, the separation of the two variable kinds, idempotent
  rebinding, and worked examples.
 */
module Properties {
  import opened Aml
  import opened Occurrences

  /** A binder's result leaves out its bound variable, is contained in its
      subpattern's, keeps every other variable of the subpattern, and is the
      subpattern's result unchanged when the bound variable is not free there
      (removing an absent variable is not an error). */
  lemma BinderRemovesOnlyBound(p: Pattern)
    requires p.IsBinder()
    ensures p.Bound() !in FreeVariables(p)
    ensures FreeVariables(p) <= FreeVariables(p.subpattern)
    ensures forall v :: v != p.Bound() ==> (v in FreeVariables(p) <==> v in FreeVariables(p.subpattern))
    ensures p.Bound() !in FreeVariables(p.subpattern) ==> FreeVariables(p) == FreeVariables(p.subpattern)
  {
  }

  /** A binder never removes a variable of the other kind, even one with the
      same name as its bound variable. */
  lemma BinderKeepsOtherKind(p: Pattern, v: Var)
    requires p.IsBinder() && v.EV? != p.Bound().EV?
    ensures v in FreeVariables(p) <==> v in FreeVariables(p.subpattern)
  {
  }

  /** Kind separation for a shared name `n`: binding the element variable `n`
      leaves the set variable `n` free, and the other way round. */
  lemma KindSeparation(n: string, a: Pattern)
    ensures EV(n) != SV(n)
    ensures SV(n) in FreeVariables(a) <==> SV(n) in FreeVariables(Exists(EV(n), a))
    ensures SV(n) in FreeVariables(a) <==> SV(n) in FreeVariables(Forall(EV(n), a))
    ensures EV(n) in FreeVariables(a) <==> EV(n) in FreeVariables(Mu(SV(n), a))
    ensures EV(n) in FreeVariables(a) <==> EV(n) in FreeVariables(Nu(SV(n), a))
  {
  }

  /** Binding the same variable twice is the same as binding it once. */
  lemma RebindIdempotent(x: ElementVar, y: SetVar, a: Pattern)
    ensures FreeVariables(Exists(x, Exists(x, a))) == FreeVariables(Exists(x, a))
    ensures FreeVariables(Forall(x, Forall(x, a))) == FreeVariables(Forall(x, a))
    ensures FreeVariables(Mu(y, Mu(y, a))) == FreeVariables(Mu(y, a))
    ensures FreeVariables(Nu(y, Nu(y, a))) == FreeVariables(Nu(y, a))
  {
  }

  /** Free variables are not monotone under subterm containment: a binder
      can make a pattern's set smaller than its subpattern's. */
  lemma BindingShrinks()
    ensures FreeVariables(EVar("x")) == {EV("x")}
    ensures FreeVariables(Exists(EV("x"), EVar("x"))) == {}
  {
  }

  /** Worked examples. */
  lemma Examples()
    ensures FreeVariables(Exists(EV("x"), SVar("x"))) == {SV("x")}
    ensures FreeVariables(Mu(SV("X"), EVar("X"))) == {EV("X")}
    ensures FreeVariables(Exists(EV("x"), Exists(EV("x"), EVar("x")))) == {}
    ensures FreeVariables(App(EVar("x"), Exists(EV("y"), And(EVar("x"), EVar("y"))))) == {EV("x")}
    ensures FreeVariables(Mu(SV("X"), Or(SVar("X"), EVar("z")))) == {EV("z")}
  {
  }

  /** The worked examples read against the meaning of freeness: which
      variables have an occurrence outside every binder of themselves. */
  lemma ExamplesByOccurrence()
    ensures IsFree(SV("x"), Exists(EV("x"), SVar("x")))
    ensures !IsFree(EV("x"), Exists(EV("x"), SVar("x")))
    ensures IsFree(EV("X"), Mu(SV("X"), EVar("X")))
    ensures !IsFree(SV("X"), Mu(SV("X"), EVar("X")))
    ensures !IsFree(EV("x"), Exists(EV("x"), Exists(EV("x"), EVar("x"))))
    ensures IsFree(EV("x"), App(EVar("x"), Exists(EV("y"), And(EVar("x"), EVar("y")))))
    ensures !IsFree(EV("y"), App(EVar("x"), Exists(EV("y"), And(EVar("x"), EVar("y")))))
    ensures IsFree(EV("z"), Mu(SV("X"), Or(SVar("X"), EVar("z"))))
    ensures !IsFree(SV("X"), Mu(SV("X"), Or(SVar("X"), EVar("z"))))
  {
    Examples();
    FreeVariablesMeaning(SV("x"), Exists(EV("x"), SVar("x")));
    FreeVariablesMeaning(EV("x"), Exists(EV("x"), SVar("x")));
    FreeVariablesMeaning(EV("X"), Mu(SV("X"), EVar("X")));
    FreeVariablesMeaning(SV("X"), Mu(SV("X"), EVar("X")));
    FreeVariablesMeaning(EV("x"), Exists(EV("x"), Exists(EV("x"), EVar("x"))));
    FreeVariablesMeaning(EV("x"), App(EVar("x"), Exists(EV("y"), And(EVar("x"), EVar("y")))));
    FreeVariablesMeaning(EV("y"), App(EVar("x"), Exists(EV("y"), And(EVar("x"), EVar("y")))));
    FreeVariablesMeaning(EV("z"), Mu(SV("X"), Or(SVar("X"), EVar("z"))));
    FreeVariablesMeaning(SV("X"), Mu(SV("X"), Or(SVar("X"), EVar("z"))));
  }
}
