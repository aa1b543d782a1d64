# Matching-logic patterns and their free variables

A Dafny model of PyAML's pattern syntax (`aml.py`): the abstract syntax tree of
matching-logic patterns and the computation of each pattern's set of free
variables.

- `aml.dfy`, module `Aml`: variables (`Var`, with an element kind `EV` and a
  set kind `SV`), the eleven pattern variants as one closed `datatype Pattern`
  (`Symbol`, `EVar`, `SVar`, `And`, `Or`, `Not`, `App`, `Exists`, `Forall`,
  `Mu`, `Nu`), and `FreeVariables`, one case per variant as in the source.
  The binders' bound variable has a subset type that fixes its kind:
  `ElementVar` for `Exists`/`Forall`, `SetVar` for `Mu`/`Nu`. The source calls
  that field `bound` everywhere; here it is `evar` or `svar` (one field name
  cannot carry two types in a Dafny datatype) and `Pattern.Bound()` gives it
  under one name.
- `occurrences.dfy`, module `Occurrences`: an independent meaning of
  "free". Positions in the tree are paths of child indices. A variable is free
  when some path reaches its leaf without passing a binder of that same
  variable. `FreeVariablesMeaning` proves that `FreeVariables` computes
  exactly these variables, in both directions.
- `properties.dfy`, module `Properties`: what binders remove and keep, the
  separation of the two variable kinds, idempotent rebinding, the failure of
  monotonicity under subterms, and worked examples.

## Model

| member | source | states |
|---|---|---|
| `Aml.FreeVariables` | aml.py:14-82 | total over the eleven variants; the variable bound at the root is never in the result |
| `Aml.Leaf` | aml.py:4-27 | a variable is a leaf pattern of the same kind and name (`Var` is the union of `EVar` and `SVar`) |
| `Aml.Pattern.Bound` | aml.py:56-80 | `Exists` and `Forall` bind an element variable, `Mu` and `Nu` a set variable |
| `Aml.Pattern.Binds` | aml.py:56-82 | only the four binders bind anything, and each binds exactly its bound variable |
| `Occurrences.StepDown` | aml.py:29-82 | a free occurrence below a node runs through a child and is not bound by the node |
| `Occurrences.FreeDecomposes` | aml.py:14-82 | a variable is free in a node iff the node is its leaf, or the node does not bind it and it is free in some child |
| `Occurrences.FreeInSymbol` | aml.py:11-15 | a symbol has no free variable |
| `Occurrences.FreeInVariableLeaf` | aml.py:17-27 | `EVar(x)` and `SVar(X)` each have exactly one free variable, themselves |
| `Occurrences.FreeInConnectives` | aml.py:29-54 | `And`, `Or`, `App` have exactly the free variables of either operand; `Not` exactly those of its operand |
| `Occurrences.FreeInElementBinders` | aml.py:56-68 | `Exists` and `Forall` have exactly their subpattern's free variables other than the bound element variable |
| `Occurrences.FreeInSetBinders` | aml.py:70-82 | `Mu` and `Nu` have exactly their subpattern's free variables other than the bound set variable |
| `Occurrences.FreeVariablesMeaning` | aml.py:14-82 | `v` is in `FreeVariables(p)` iff `v` has an occurrence in `p` outside every binder of `v` |
| `Occurrences.FreeVariablesOccur` | aml.py:14-82 | every free variable is a variable leaf that occurs in the pattern |
| `Properties.BinderRemovesOnlyBound` | aml.py:56-82 | a binder's result excludes the bound variable, is a subset of the subpattern's, keeps every other variable, and equals the subpattern's when the bound variable is not free there |
| `Properties.BinderKeepsOtherKind` | aml.py:17-27 | a binder never removes a variable of the other kind |
| `Properties.KindSeparation` | aml.py:17-75 | `EV(n)` and `SV(n)` differ; binding one leaves the other's freeness unchanged, for all four binders |
| `Properties.RebindIdempotent` | aml.py:56-82 | binding the same variable twice gives the same free variables as binding it once |
| `Properties.BindingShrinks` | aml.py:17-61 | free variables are not monotone under subterms: `Exists(x, x)` has none while `x` has `{x}` |
| `Properties.Examples` | aml.py:14-82 | concrete results: `Exists(x, SVar x)` is `{SVar x}`, `Mu(X, EVar X)` is `{EVar X}`, a double `Exists x` over `x` is empty, and two mixed scenarios |
| `Properties.ExamplesByOccurrence` | aml.py:14-82 | all five worked examples read through the occurrence meaning of freeness: which variables are free and which are not |

## Left out

- aml.py:6-12 declares the base `Pattern` as a plain, non-frozen `@dataclass` and every variant as `@dataclass(frozen=True)` beneath it. Python's `dataclasses` module refuses a frozen dataclass that inherits from a non-frozen one (it raises `TypeError` when the class is created), so the file as written fails when it is imported and no `free_variables` runs. This was read from the text of the code and of the `dataclasses` module, not executed. The model describes the evidently intended behaviour: a frozen base, or a base that is not a dataclass.
- The dataclass machinery (`frozen=True`, generated equality and hashing) and the `typing.Union` alias: Dafny datatypes are immutable values with structural equality.
- The abstract `Pattern.free_variables` that raises `NotImplementedError` (aml.py:8-9): the Dafny datatype is closed, so no pattern lacks a case.
- Python does not enforce the `bound: EVar` / `bound: SVar` annotations at run time, so `Exists(SVar("x"), p)` can be built there; the model follows the annotations and cannot build such a pattern.
- Recursion depth and stack exhaustion on deep trees: a resource limit, not behaviour.
