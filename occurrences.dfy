/**
  An independent meaning for "free variable", stated with positions in the
  pattern tree: a variable is free in a pattern when some occurrence of its
  leaf is not enclosed by a binder of that same variable (same kind and same
  name). `FreeVariablesMeaning` proves that `Aml.FreeVariables` computes
  exactly this.
 */
module Occurrences {
  import opened Aml

  /** Number of immediate subpatterns. */
  function Arity(p: Pattern): nat {
    match p
    case Symbol(_) => 0
    case EVar(_) => 0
    case SVar(_) => 0
    case And(_, _) => 2
    case Or(_, _) => 2
    case App(_, _) => 2
    case _ => 1
  }

  /** The `i`-th immediate subpattern: 0 is `left` or `subpattern`, 1 is `right`. */
  function Child(p: Pattern, i: nat): Pattern
    requires i < Arity(p)
  {
    if p.And? || p.Or? || p.App? then (if i == 0 then p.left else p.right)
    else p.subpattern
  }

  /** `path` is a sequence of child indices that leads to a node of `p`. */
  predicate IsPath(p: Pattern, path: seq<nat>)
    decreases |path|
  {
    path == [] || (path[0] < Arity(p) && IsPath(Child(p, path[0]), path[1..]))
  }

  /** The node of `p` that `path` leads to. */
  function At(p: Pattern, path: seq<nat>): Pattern
    requires IsPath(p, path)
    decreases |path|
  {
    if path == [] then p else At(Child(p, path[0]), path[1..])
  }

  /** The variables bound by the binders that `path` passes through on its
      way down from the root of `p` (the node it leads to excluded). */
  function BindersAlong(p: Pattern, path: seq<nat>): set<Var>
    requires IsPath(p, path)
    decreases |path|
  {
    if path == [] then {} else p.Binds() + BindersAlong(Child(p, path[0]), path[1..])
  }

  /** `path` leads to an occurrence of the leaf of `v` that no enclosing
      binder of `v` captures. */
  predicate FreeAt(v: Var, p: Pattern, path: seq<nat>) {
    IsPath(p, path) && At(p, path) == Leaf(v) && v !in BindersAlong(p, path)
  }

  /** `v` has a free occurrence in `p`. */
  ghost predicate IsFree(v: Var, p: Pattern) {
    exists path :: FreeAt(v, p, path)
  }

  /** `v` occurs as a leaf somewhere in `p`, bound or not. */
  ghost predicate Occurs(v: Var, p: Pattern) {
    exists path :: IsPath(p, path) && At(p, path) == Leaf(v)
  }

  /** One step down: a path through child `i` is a free occurrence in `p`
      exactly when `p` does not bind `v` and the rest of the path is a free
      occurrence in that child. */
  lemma StepDown(v: Var, p: Pattern, i: nat, rest: seq<nat>)
    requires i < Arity(p)
    ensures FreeAt(v, p, [i] + rest) <==> v !in p.Binds() && FreeAt(v, Child(p, i), rest)
  {
  }

  /** Every free occurrence in `p` is either `p` itself, when `p` is a
      variable leaf, or one that runs through a child of `p`, which `p` does
      not bind. */
  lemma {:induction false} FreeDecomposes(v: Var, p: Pattern)
    ensures IsFree(v, p) <==>
      p == Leaf(v) || (v !in p.Binds() && exists i :: 0 <= i < Arity(p) && IsFree(v, Child(p, i)))
  {
    if IsFree(v, p) {
      var path :| FreeAt(v, p, path);
      if path != [] {
        var i, rest := path[0], path[1..];
        assert path == [i] + rest;
        StepDown(v, p, i, rest);
        assert IsFree(v, Child(p, i));
      }
    }
    if p == Leaf(v) {
      assert FreeAt(v, p, []);
    }
    if v !in p.Binds() && exists i :: 0 <= i < Arity(p) && IsFree(v, Child(p, i)) {
      var i :| 0 <= i < Arity(p) && IsFree(v, Child(p, i));
      var rest :| FreeAt(v, Child(p, i), rest);
      StepDown(v, p, i, rest);
    }
  }

  /** A symbol has no free occurrence. */
  lemma {:induction false} FreeInSymbol(v: Var, s: string)
    ensures !IsFree(v, Symbol(s))
  {
    FreeDecomposes(v, Symbol(s));
  }

  /** A variable leaf has exactly one free variable, itself. */
  lemma {:induction false} FreeInVariableLeaf(v: Var, w: Var)
    ensures IsFree(v, Leaf(w)) <==> v == w
  {
    FreeDecomposes(v, Leaf(w));
  }

  /** And, Or and App have the free occurrences of both operands; Not has
      those of its operand: none of them binds. */
  lemma {:induction false} FreeInConnectives(v: Var, a: Pattern, b: Pattern)
    ensures IsFree(v, And(a, b)) <==> IsFree(v, a) || IsFree(v, b)
    ensures IsFree(v, Or(a, b)) <==> IsFree(v, a) || IsFree(v, b)
    ensures IsFree(v, App(a, b)) <==> IsFree(v, a) || IsFree(v, b)
    ensures IsFree(v, Not(a)) <==> IsFree(v, a)
  {
    FreeDecomposes(v, And(a, b));
    assert Child(And(a, b), 0) == a && Child(And(a, b), 1) == b;
    FreeDecomposes(v, Or(a, b));
    assert Child(Or(a, b), 0) == a && Child(Or(a, b), 1) == b;
    FreeDecomposes(v, App(a, b));
    assert Child(App(a, b), 0) == a && Child(App(a, b), 1) == b;
    FreeDecomposes(v, Not(a));
    assert Child(Not(a), 0) == a;
  }

  /** An element-variable binder has the free occurrences of its subpattern
      except those of its own bound variable, whether or not that variable
      occurs at all. */
  lemma {:induction false} FreeInElementBinders(v: Var, x: ElementVar, a: Pattern)
    ensures IsFree(v, Exists(x, a)) <==> v != x && IsFree(v, a)
    ensures IsFree(v, Forall(x, a)) <==> v != x && IsFree(v, a)
  {
    FreeDecomposes(v, Exists(x, a));
    assert Child(Exists(x, a), 0) == a;
    FreeDecomposes(v, Forall(x, a));
    assert Child(Forall(x, a), 0) == a;
  }

  /** A set-variable binder has the free occurrences of its subpattern
      except those of its own bound variable, whether or not that variable
      occurs at all. */
  lemma {:induction false} FreeInSetBinders(v: Var, y: SetVar, a: Pattern)
    ensures IsFree(v, Mu(y, a)) <==> v != y && IsFree(v, a)
    ensures IsFree(v, Nu(y, a)) <==> v != y && IsFree(v, a)
  {
    FreeDecomposes(v, Mu(y, a));
    assert Child(Mu(y, a), 0) == a;
    FreeDecomposes(v, Nu(y, a));
    assert Child(Nu(y, a), 0) == a;
  }

  /** `FreeVariables` computes exactly the variables that have a free
      occurrence. */
  lemma {:induction false} FreeVariablesMeaning(v: Var, p: Pattern)
    ensures v in FreeVariables(p) <==> IsFree(v, p)
  {
    match p
    case Symbol(s) => FreeInSymbol(v, s);
    case EVar(n) => FreeInVariableLeaf(v, EV(n));
    case SVar(n) => FreeInVariableLeaf(v, SV(n));
    case And(a, b) =>
      FreeVariablesMeaning(v, a);
      FreeVariablesMeaning(v, b);
      FreeInConnectives(v, a, b);
    case Or(a, b) =>
      FreeVariablesMeaning(v, a);
      FreeVariablesMeaning(v, b);
      FreeInConnectives(v, a, b);
    case App(a, b) =>
      FreeVariablesMeaning(v, a);
      FreeVariablesMeaning(v, b);
      FreeInConnectives(v, a, b);
    case Not(a) =>
      FreeVariablesMeaning(v, a);
      FreeInConnectives(v, a, a);
    case Exists(x, a) =>
      FreeVariablesMeaning(v, a);
      FreeInElementBinders(v, x, a);
    case Forall(x, a) =>
      FreeVariablesMeaning(v, a);
      FreeInElementBinders(v, x, a);
    case Mu(y, a) =>
      FreeVariablesMeaning(v, a);
      FreeInSetBinders(v, y, a);
    case Nu(y, a) =>
      FreeVariablesMeaning(v, a);
      FreeInSetBinders(v, y, a);
  }

  /** Every free variable is a variable leaf that actually occurs in the
      pattern. */
  lemma FreeVariablesOccur(v: Var, p: Pattern)
    requires v in FreeVariables(p)
    ensures Occurs(v, p)
  {
    FreeVariablesMeaning(v, p);
    var path :| FreeAt(v, p, path);
    assert IsPath(p, path) && At(p, path) == Leaf(v);
  }
}
