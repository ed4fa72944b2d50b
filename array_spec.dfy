/**
 * Array specifications: the five shapes an array declaration can have
 * (explicit, assumed, deferred, assumed-size, implied), following the
 * array-spec syntax rules R516-R522 of ISO/IEC 1539-1:2010, section 5.3.8.
 * A specification never changes after it is created, so each is a value.
 */
module ArraySpecs {
  import opened Wrappers
  import opened Ast

  /** ArraySpec::ArraySpecKind */
  datatype ArraySpecKind =
    | ExplicitShapeKind
    | AssumedShapeKind
    | DeferredShapeKind
    | AssumedSizeKind
    | ImpliedShapeKind

  /**
   * The specifications, each with exactly the bound fields its class holds.
   * A deferred shape has no bounds; the assumed-size class is unfinished and
   * holds no field at all.
   */
  datatype ArraySpec =
    | ExplicitShapeSpec(lowerBound: Option<Expr>, upperBound: Expr)
    | AssumedShapeSpec(lowerBound: Option<Expr>)
    | DeferredShapeSpec
    | AssumedSizeSpec
    | ImpliedShapeSpec(loc: Loc, lowerBound: Option<Expr>)

  /** ArraySpec::getKind: the kind the constructor recorded. */
  function GetKind(s: ArraySpec): ArraySpecKind {
    match s
    case ExplicitShapeSpec(_, _) => ExplicitShapeKind
    case AssumedShapeSpec(_) => AssumedShapeKind
    case DeferredShapeSpec => DeferredShapeKind
    case AssumedSizeSpec => AssumedSizeKind
    case ImpliedShapeSpec(_, _) => ImpliedShapeKind
  }

  // The classof predicates of the five subclasses: each compares the kind only.

  predicate IsExplicitShapeSpec(s: ArraySpec) { GetKind(s) == ExplicitShapeKind }
  predicate IsAssumedShapeSpec(s: ArraySpec) { GetKind(s) == AssumedShapeKind }
  predicate IsDeferredShapeSpec(s: ArraySpec) { GetKind(s) == DeferredShapeKind }
  predicate IsAssumedSizeSpec(s: ArraySpec) { GetKind(s) == AssumedSizeKind }
  predicate IsImpliedShapeSpec(s: ArraySpec) { GetKind(s) == ImpliedShapeKind }

  /** How many of the five subclass tests hold. */
  function ClassesHolding(s: ArraySpec): nat {
    (if IsExplicitShapeSpec(s) then 1 else 0)
    + (if IsAssumedShapeSpec(s) then 1 else 0)
    + (if IsDeferredShapeSpec(s) then 1 else 0)
    + (if IsAssumedSizeSpec(s) then 1 else 0)
    + (if IsImpliedShapeSpec(s) then 1 else 0)
  }

  /**
   * Every specification passes exactly one of the five subclass tests, and
   * that test is the one for the class it was created as.
   */
  lemma ExactlyOneShapeClass(s: ArraySpec)
    ensures ClassesHolding(s) == 1
    ensures IsExplicitShapeSpec(s) <==> s.ExplicitShapeSpec?
    ensures IsAssumedShapeSpec(s) <==> s.AssumedShapeSpec?
    ensures IsDeferredShapeSpec(s) <==> s.DeferredShapeSpec?
    ensures IsAssumedSizeSpec(s) <==> s.AssumedSizeSpec?
    ensures IsImpliedShapeSpec(s) <==> s.ImpliedShapeSpec?
  {
  }

  /** getLowerBound, where the class has one; a null lower bound and a missing field both read as None. */
  function LowerBound(s: ArraySpec): (r: Option<Expr>)
    ensures (s.DeferredShapeSpec? || s.AssumedSizeSpec?) ==> r.None?
  {
    match s
    case ExplicitShapeSpec(lb, _) => lb
    case AssumedShapeSpec(lb) => lb
    case ImpliedShapeSpec(_, lb) => lb
    case _ => None
  }

  /** getUpperBound: only an explicit shape has one. */
  function UpperBound(s: ArraySpec): (r: Option<Expr>)
    ensures r.Some? <==> IsExplicitShapeSpec(s)
  {
    if s.ExplicitShapeSpec? then Some(s.upperBound) else None
  }

  // ---- factories ----

  /** ExplicitShapeSpec::Create(C, UB): `upper-bound` alone, with a null lower bound. */
  function CreateExplicitShape(ub: Expr): (s: ArraySpec)
    ensures IsExplicitShapeSpec(s) && ClassesHolding(s) == 1
    ensures LowerBound(s) == None && UpperBound(s) == Some(ub)
  {
    ExplicitShapeSpec(None, ub)
  }

  /** ExplicitShapeSpec::Create(C, LB, UB): `lower-bound : upper-bound`. */
  function CreateExplicitShapeWithLower(lb: Expr, ub: Expr): (s: ArraySpec)
    ensures IsExplicitShapeSpec(s) && ClassesHolding(s) == 1
    ensures LowerBound(s) == Some(lb) && UpperBound(s) == Some(ub)
  {
    ExplicitShapeSpec(Some(lb), ub)
  }

  /** AssumedShapeSpec::Create(C): `:`. */
  function CreateAssumedShape(): (s: ArraySpec)
    ensures IsAssumedShapeSpec(s) && ClassesHolding(s) == 1
    ensures LowerBound(s) == None && UpperBound(s) == None
  {
    AssumedShapeSpec(None)
  }

  /** AssumedShapeSpec::Create(C, LB): `lower-bound :`. */
  function CreateAssumedShapeWithLower(lb: Expr): (s: ArraySpec)
    ensures IsAssumedShapeSpec(s) && ClassesHolding(s) == 1
    ensures LowerBound(s) == Some(lb) && UpperBound(s) == None
  {
    AssumedShapeSpec(Some(lb))
  }

  /** DeferredShapeSpec::Create(C): `:`, with no bounds at all. */
  function CreateDeferredShape(): (s: ArraySpec)
    ensures IsDeferredShapeSpec(s) && ClassesHolding(s) == 1
    ensures LowerBound(s) == None && UpperBound(s) == None
  {
    DeferredShapeSpec
  }

  /** ImpliedShapeSpec::Create(C, Loc): `*` at `loc`. */
  function CreateImpliedShape(loc: Loc): (s: ArraySpec)
    ensures IsImpliedShapeSpec(s) && ClassesHolding(s) == 1
    ensures s.loc == loc && LowerBound(s) == None && UpperBound(s) == None
  {
    ImpliedShapeSpec(loc, None)
  }

  /** ImpliedShapeSpec::Create(C, Loc, LB): `lower-bound : *` at `loc`. */
  function CreateImpliedShapeWithLower(loc: Loc, lb: Expr): (s: ArraySpec)
    ensures IsImpliedShapeSpec(s) && ClassesHolding(s) == 1
    ensures s.loc == loc && LowerBound(s) == Some(lb) && UpperBound(s) == None
  {
    ImpliedShapeSpec(loc, Some(lb))
  }

  /** The factory call that rebuilds a specification from its kind and its accessors. */
  function Rebuild(s: ArraySpec): Option<ArraySpec> {
    match GetKind(s)
    case ExplicitShapeKind =>
      if LowerBound(s).Some?
      then Some(CreateExplicitShapeWithLower(LowerBound(s).value, UpperBound(s).value))
      else Some(CreateExplicitShape(UpperBound(s).value))
    case AssumedShapeKind =>
      if LowerBound(s).Some?
      then Some(CreateAssumedShapeWithLower(LowerBound(s).value))
      else Some(CreateAssumedShape())
    case DeferredShapeKind => Some(CreateDeferredShape())
    case AssumedSizeKind => None
    case ImpliedShapeKind =>
      if LowerBound(s).Some?
      then Some(CreateImpliedShapeWithLower(s.loc, LowerBound(s).value))
      else Some(CreateImpliedShape(s.loc))
  }

  /**
   * The kind and the accessors lose nothing: every specification but an
   * assumed-size one (which has no factory) is what the matching factory
   * yields for its own bounds.
   */
  lemma FactoriesRebuild(s: ArraySpec)
    ensures Rebuild(s).Some? <==> !IsAssumedSizeSpec(s)
    ensures Rebuild(s).Some? ==> Rebuild(s).value == s
  {
  }
}
