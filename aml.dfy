/**
  Matching-logic patterns and their free variables.

  A pattern is a tree built from symbols, two kinds of variable leaf
  (element variables and set variables), the connectives And, Or, Not and
  App, and four binders: Exists and Forall bind an element variable, Mu and
  Nu bind a set variable.
 */
module Aml {

  /** A variable: an element variable or a set variable, each named by a
      string. The two kinds are separate namespaces: `EV("x") != SV("x")`. */
  datatype Var = EV(name: string) | SV(name: string)

  /** The variables an element-variable binder (Exists, Forall) may bind. */
  type ElementVar = v: Var | v.EV? witness EV("")

  /** The variables a set-variable binder (Mu, Nu) may bind. */
  type SetVar = v: Var | v.SV? witness SV("")

  /** The closed family of pattern variants. The field that every binder
      calls `bound` is `evar` on the element-variable binders and `svar` on the
      set-variable binders, so that its type can fix the kind it binds;
      `Bound()` gives it under one name. */
  datatype Pattern =
    | Symbol(name: string)
    | EVar(name: string)
    | SVar(name: string)
    | And(left: Pattern, right: Pattern)
    | Or(left: Pattern, right: Pattern)
    | Not(subpattern: Pattern)
    | App(left: Pattern, right: Pattern)
    | Exists(evar: ElementVar, subpattern: Pattern)
    | Forall(evar: ElementVar, subpattern: Pattern)
    | Mu(svar: SetVar, subpattern: Pattern)
    | Nu(svar: SetVar, subpattern: Pattern)
  {
    /** True of the four binder variants. */
    predicate IsBinder() {
      Exists? || Forall? || Mu? || Nu?
    }

    /** The variable a binder binds. */
    function Bound(): (v: Var)
      requires IsBinder()
      ensures (Exists? || Forall?) <==> v.EV?
    {
      if Exists? || Forall? then evar else svar
    }

    /** The variables this node itself binds: its bound variable for a
        binder, none for every other variant. */
    function Binds(): (r: set<Var>)
      ensures IsBinder() <==> r != {}
      ensures forall v :: v in r ==> IsBinder() && v == Bound()
    {
      if IsBinder() then {Bound()} else {}
    }
  }

  /** The variable leaf that stands for `v`: a variable is itself a pattern. */
  function Leaf(v: Var): (p: Pattern)
    ensures p.EVar? || p.SVar?
    ensures p.name == v.name
    ensures p.EVar? <==> v.EV?
  {
    match v
    case EV(n) => EVar(n)
    case SV(n) => SVar(n)
  }

  /** The free variables of `p`: a variable leaf is free in itself, a binary
      node unites its children's, Not passes its child's through, and a binder
      removes its bound variable from its subpattern's. The bound variable of
      the root is never in the result. */
  function FreeVariables(p: Pattern): (r: set<Var>)
    ensures r !! p.Binds()
  {
    match p
    case Symbol(_) => {}
    case EVar(n) => {EV(n)}
    case SVar(n) => {SV(n)}
    case And(l, r) => FreeVariables(l) + FreeVariables(r)
    case Or(l, r) => FreeVariables(l) + FreeVariables(r)
    case Not(s) => FreeVariables(s)
    case App(l, r) => FreeVariables(l) + FreeVariables(r)
    case Exists(x, s) => FreeVariables(s) - {x}
    case Forall(x, s) => FreeVariables(s) - {x}
    case Mu(x, s) => FreeVariables(s) - {x}
    case Nu(x, s) => FreeVariables(s) - {x}
  }
}
