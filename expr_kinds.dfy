/**
 * The tags that identify expression nodes and the `classof` predicates that
 * guard every checked downcast (`isa`, `cast`, `dyn_cast`), as the expression
 * header declares them, together with the operator and intrinsic enumerations.
 */
module ExprKinds {
  import opened Wrappers

  /** Expr::ExprType, in declaration order. */
  datatype ExprType =
    | Designator
    | Constant
    | IntegerConstant
    | RealConstant
    | DoublePrecisionConstant
    | ComplexConstant
    | CharacterConstant
    | BOZConstant
    | LogicalConstant
    | Conversion
    | Variable
    | Unary
    | DefinedUnaryOperator
    | Binary
    | DefinedBinaryOperator

  /** The enumerator value C++ gives each tag: its position in the declaration. */
  function Ordinal(t: ExprType): (n: nat)
    ensures n < 15
  {
    match t
    case Designator => 0
    case Constant => 1
    case IntegerConstant => 2
    case RealConstant => 3
    case DoublePrecisionConstant => 4
    case ComplexConstant => 5
    case CharacterConstant => 6
    case BOZConstant => 7
    case LogicalConstant => 8
    case Conversion => 9
    case Variable => 10
    case Unary => 11
    case DefinedUnaryOperator => 12
    case Binary => 13
    case DefinedBinaryOperator => 14
  }

  /** Distinct tags have distinct enumerator values, so comparing tags is comparing ordinals. */
  lemma OrdinalInjective(s: ExprType, t: ExprType)
    ensures Ordinal(s) == Ordinal(t) <==> s == t
  {
  }

  /** DesignatorExpr::DesignatorTy: the second tag carried by designators. */
  datatype DesignatorTy =
    | ObjectName
    | ArrayElement
    | ArraySection
    | CoindexedNamedObject
    | ComplexPartDesignator
    | StructureComponent
    | Substring

  /**
   * What a checked downcast can inspect on a node: its expression tag and,
   * for a DesignatorExpr only, its designator tag.
   */
  datatype Header = Header(id: ExprType, designatorTy: Option<DesignatorTy>)

  /** A designator tag exists exactly on nodes tagged Designator. */
  type Head = h: Header | (h.designatorTy.Some? <==> h.id == Designator)
    witness Header(Constant, None)

  // ---- classof predicates, one per class of the header ----

  predicate IsConstantExpr(h: Head) {
    h.id == Constant || h.id == CharacterConstant ||
    h.id == IntegerConstant || h.id == RealConstant ||
    h.id == DoublePrecisionConstant || h.id == ComplexConstant ||
    h.id == BOZConstant || h.id == LogicalConstant
  }

  predicate IsIntegerConstantExpr(h: Head) { h.id == IntegerConstant }
  predicate IsRealConstantExpr(h: Head) { h.id == RealConstant }
  predicate IsDoublePrecisionConstantExpr(h: Head) { h.id == DoublePrecisionConstant }
  predicate IsComplexConstantExpr(h: Head) { h.id == ComplexConstant }
  predicate IsCharacterConstantExpr(h: Head) { h.id == CharacterConstant }
  predicate IsBOZConstantExpr(h: Head) { h.id == BOZConstant }
  predicate IsLogicalConstantExpr(h: Head) { h.id == LogicalConstant }

  predicate IsDesignatorExpr(h: Head) { h.id == Designator }

  /** The designator tag is read through `cast<DesignatorExpr>` only after the tag test. */
  predicate IsSubstringExpr(h: Head) {
    h.id == Designator && h.designatorTy == Some(DesignatorTy.Substring)
  }
  predicate IsArrayElementExpr(h: Head) {
    h.id == Designator && h.designatorTy == Some(DesignatorTy.ArrayElement)
  }
  predicate IsVarExpr(h: Head) {
    h.id == Designator && h.designatorTy == Some(ObjectName)
  }

  predicate IsUnaryExpr(h: Head) { h.id == Unary }
  predicate IsDefinedOperatorUnaryExpr(h: Head) { h.id == DefinedUnaryOperator }
  predicate IsBinaryExpr(h: Head) { h.id == ExprType.Binary }
  predicate IsDefinedOperatorBinaryExpr(h: Head) { h.id == DefinedBinaryOperator }

  /** IntrinsicCallExpr claims the Conversion tag. */
  predicate IsIntrinsicCallExpr(h: Head) { h.id == Conversion }

  /** The concrete (leaf) node classes of the header. */
  datatype NodeClass =
    | IntegerConstantClass
    | RealConstantClass
    | DoublePrecisionConstantClass
    | ComplexConstantClass
    | CharacterConstantClass
    | BOZConstantClass
    | LogicalConstantClass
    | SubstringClass
    | ArrayElementClass
    | VarClass
    | UnaryClass
    | DefinedOperatorUnaryClass
    | BinaryClass
    | DefinedOperatorBinaryClass
    | IntrinsicCallClass

  predicate IsConstantClass(k: NodeClass) {
    k.IntegerConstantClass? || k.RealConstantClass? || k.DoublePrecisionConstantClass? ||
    k.ComplexConstantClass? || k.CharacterConstantClass? || k.BOZConstantClass? ||
    k.LogicalConstantClass?
  }

  /** `isa<K>(E)`: the classof predicate of leaf class `k`. */
  predicate Classof(k: NodeClass, h: Head) {
    match k
    case IntegerConstantClass => IsIntegerConstantExpr(h)
    case RealConstantClass => IsRealConstantExpr(h)
    case DoublePrecisionConstantClass => IsDoublePrecisionConstantExpr(h)
    case ComplexConstantClass => IsComplexConstantExpr(h)
    case CharacterConstantClass => IsCharacterConstantExpr(h)
    case BOZConstantClass => IsBOZConstantExpr(h)
    case LogicalConstantClass => IsLogicalConstantExpr(h)
    case SubstringClass => IsSubstringExpr(h)
    case ArrayElementClass => IsArrayElementExpr(h)
    case VarClass => IsVarExpr(h)
    case UnaryClass => IsUnaryExpr(h)
    case DefinedOperatorUnaryClass => IsDefinedOperatorUnaryExpr(h)
    case BinaryClass => IsBinaryExpr(h)
    case DefinedOperatorBinaryClass => IsDefinedOperatorBinaryExpr(h)
    case IntrinsicCallClass => IsIntrinsicCallExpr(h)
  }

  /**
   * The exhaustive switch a visitor runs over the tags. None for the tags
   * no concrete class claims: the bare Constant base tag, Variable, and the
   * designator forms without a class (section, coindexed object, complex
   * part, structure component).
   */
  function Dispatch(h: Head): Option<NodeClass> {
    match h.id
    case Designator =>
      (match h.designatorTy.value
       case ObjectName => Some(VarClass)
       case ArrayElement => Some(ArrayElementClass)
       case Substring => Some(SubstringClass)
       case _ => None)
    case Constant => None
    case IntegerConstant => Some(IntegerConstantClass)
    case RealConstant => Some(RealConstantClass)
    case DoublePrecisionConstant => Some(DoublePrecisionConstantClass)
    case ComplexConstant => Some(ComplexConstantClass)
    case CharacterConstant => Some(CharacterConstantClass)
    case BOZConstant => Some(BOZConstantClass)
    case LogicalConstant => Some(LogicalConstantClass)
    case Conversion => Some(IntrinsicCallClass)
    case Variable => None
    case Unary => Some(UnaryClass)
    case DefinedUnaryOperator => Some(DefinedOperatorUnaryClass)
    case Binary => Some(BinaryClass)
    case DefinedBinaryOperator => Some(DefinedOperatorBinaryClass)
  }

  /**
   * The switch and the classof predicates agree in both directions: a node is
   * dispatched to class k exactly when `isa<k>` holds of it.
   */
  lemma DispatchAgreesWithClassof(h: Head, k: NodeClass)
    ensures Dispatch(h) == Some(k) <==> Classof(k, h)
  {
  }

  /** At most one leaf classof holds of any node. */
  lemma LeafClassofExclusive(h: Head, k1: NodeClass, k2: NodeClass)
    requires Classof(k1, h) && Classof(k2, h)
    ensures k1 == k2
  {
    DispatchAgreesWithClassof(h, k1);
    DispatchAgreesWithClassof(h, k2);
  }

  /**
   * ConstantExpr::classof accepts exactly the bare Constant tag and the tags
   * of the seven constant leaf classes; designators, operators and intrinsic
   * calls are never constants.
   */
  lemma ConstantClassofExact(h: Head)
    ensures IsConstantExpr(h) <==>
            (h.id == Constant || exists k :: IsConstantClass(k) && Classof(k, h))
    ensures IsConstantExpr(h) ==>
            !IsDesignatorExpr(h) && !IsUnaryExpr(h) && !IsBinaryExpr(h) &&
            !IsDefinedOperatorUnaryExpr(h) && !IsDefinedOperatorBinaryExpr(h) &&
            !IsIntrinsicCallExpr(h)
  {
    if h.id != Constant && IsConstantExpr(h) {
      var k := Dispatch(h).value;
      DispatchAgreesWithClassof(h, k);
      assert IsConstantClass(k) && Classof(k, h);
    }
    if exists k :: IsConstantClass(k) && Classof(k, h) {
      var k :| IsConstantClass(k) && Classof(k, h);
      assert IsConstantExpr(h);
    }
  }

  /**
   * Substring, array-element and variable references all carry the Designator
   * tag and differ only in the designator tag, so at most one of them holds.
   */
  lemma DesignatorClassesExclusive(h: Head)
    ensures IsSubstringExpr(h) || IsArrayElementExpr(h) || IsVarExpr(h) ==> IsDesignatorExpr(h)
    ensures !(IsSubstringExpr(h) && IsArrayElementExpr(h))
    ensures !(IsSubstringExpr(h) && IsVarExpr(h))
    ensures !(IsArrayElementExpr(h) && IsVarExpr(h))
  {
  }

  /** No classof of the header accepts the Variable tag (VarExpr is a designator). */
  lemma VariableTagUnclaimed(h: Head, k: NodeClass)
    requires h.id == Variable
    ensures !Classof(k, h) && !IsConstantExpr(h) && !IsDesignatorExpr(h)
  {
  }

  // ---- operators ----

  /** UnaryExpr::Operator; `NoOp` is the header's `None`. */
  datatype UnaryOperator = NoOp | Not | Plus | Minus | Defined

  /** BinaryExpr::Operator; `NoOp` is the header's `None`. */
  datatype BinaryOperator =
    | NoOp
    | Eqv | Neqv | Or | And | Defined
    | Equal | NotEqual | LessThan | LessThanEqual | GreaterThan | GreaterThanEqual
    | Concat
    | Plus | Minus | Multiply | Divide | Power

  /** The precedence level the header groups each binary operator under (0: none). */
  function BinaryLevel(op: BinaryOperator): (n: nat)
    ensures n <= 5
  {
    match op
    case NoOp => 0
    case Eqv => 5
    case Neqv => 5
    case Or => 5
    case And => 5
    case Defined => 5
    case Equal => 4
    case NotEqual => 4
    case LessThan => 4
    case LessThanEqual => 4
    case GreaterThan => 4
    case GreaterThanEqual => 4
    case Concat => 3
    case Plus => 2
    case Minus => 2
    case Multiply => 2
    case Divide => 2
    case Power => 2
  }

  /** The level-4 operators are the six relational ones. */
  predicate IsRelational(op: BinaryOperator) {
    op == Equal || op == NotEqual || op == LessThan || op == LessThanEqual ||
    op == GreaterThan || op == GreaterThanEqual
  }

  /** IntrinsicCallExpr::IntrinsicFunction, plus LEN_TRIM, which code generation also dispatches on. */
  datatype IntrinsicFunction =
    | INT | REAL | DBLE | CMPLX | ICHAR | CHAR
    | AINT | ANINT | NINT | ABS | MOD | SIGN | DIM | DPROD | MAX | MIN
    | LEN | INDEX | AIMAG | CONJG
    | SQRT | EXP | LOG | LOG10 | SIN | COS | TAN | ASIN | ACOS | ATAN | ATAN2
    | SINH | COSH | TANH
    | LGE | LGT | LLE | LLT
    | LEN_TRIM

  // ---- BOZ constants ----

  /** BOZConstantExpr::BOZKind, in declaration order. */
  datatype BozKind = Hexadecimal | Octal | Binary

  function BozKindOrdinal(k: BozKind): nat {
    match k
    case Hexadecimal => 0
    case Octal => 1
    case Binary => 2
  }

  /** isBinaryKind / isOctalKind / isHexKind compare the stored enumerator value. */
  predicate IsBinaryKind(ordinal: int) { ordinal == BozKindOrdinal(BozKind.Binary) }
  predicate IsOctalKind(ordinal: int) { ordinal == BozKindOrdinal(Octal) }
  predicate IsHexKind(ordinal: int) { ordinal == BozKindOrdinal(Hexadecimal) }

  /** A stored kind answers exactly one of the three kind queries. */
  lemma BozKindQueriesExact(k: BozKind)
    ensures IsBinaryKind(BozKindOrdinal(k)) <==> k == BozKind.Binary
    ensures IsOctalKind(BozKindOrdinal(k)) <==> k == Octal
    ensures IsHexKind(BozKindOrdinal(k)) <==> k == Hexadecimal
  {
  }
}
