/**
 * Expression nodes: the constant nodes the parser creates from literals, the
 * declarations a variable reference points to, the argument lists of calls,
 * array elements and array constructors, the tree of expressions, the rules
 * that choose each node's start and end location from its children, and the
 * type each creation function gives its node.
 */
module Ast {
  import opened Wrappers
  import opened ExprKinds
  import opened NumericStorage
  import opened Literals

  /** A source location: a position in the source buffer. */
  type Loc = int

  /** The types nodes carry; the empty QualType() is NullType. */
  datatype QualType =
    | NullType
    | IntegerTy
    | RealTy
    | DoublePrecisionTy
    | ComplexTy
    | CharacterTy
    | LogicalTy
    | ArrayTy(element: QualType)
    | OtherTy(name: string)

  /** The tags of the seven concrete constant classes. */
  type ConstantTag = t: ExprType
    | t in {IntegerConstant, RealConstant, DoublePrecisionConstant, ComplexConstant,
            CharacterConstant, BOZConstant, LogicalConstant}
    witness IntegerConstant

  /** What each constant class stores besides the common fields. */
  datatype ConstantValue =
    | IntegerValue(num: NumericStorage)
    | RealValue(num: NumericStorage)
    | ComplexValue(re: NumericStorage, im: NumericStorage)
    | CharacterValue(data: array<char>)
    | BozValue(kind: BozKind, num: NumericStorage)
    | LogicalValue(isTrue: bool)

  /**
   * ConstantExpr and its subclasses: the tag, location, last location and
   * payload are fixed at creation; the type (Expr::setType) and the optional
   * kind selector (setKindSelector) can be overwritten later.
   */
  class ConstantExpr {
    const id: ConstantTag
    const loc: Loc
    const maxLoc: Loc
    const value: ConstantValue
    var ty: QualType
    var kindSelector: Option<Expr>

    /** Every constant starts without a kind selector. */
    constructor (id: ConstantTag, ty: QualType, loc: Loc, maxLoc: Loc, value: ConstantValue)
      ensures this.id == id && this.ty == ty && this.loc == loc && this.maxLoc == maxLoc
      ensures this.value == value && kindSelector == None
    {
      this.id := id;
      this.ty := ty;
      this.loc := loc;
      this.maxLoc := maxLoc;
      this.value := value;
      kindSelector := None;
    }

    /** Expr::setType: replaces the type and nothing else. */
    method SetType(t: QualType)
      modifies this
      ensures ty == t && kindSelector == old(kindSelector)
    {
      ty := t;
    }

    /** ConstantExpr::setKindSelector: replaces the kind selector and nothing else. */
    method SetKindSelector(k: Option<Expr>)
      modifies this
      ensures kindSelector == k && ty == old(ty)
    {
      kindSelector := k;
    }
  }

  /** A storage freshly set to `v`. */
  method NewStorage(C: Arena, v: ApInt) returns (num: NumericStorage)
    requires WellFormed(v)
    modifies C
    ensures fresh(num) && num.Valid() && num.OwnedBy(C) && num.stored == v
  {
    num := new NumericStorage();
    num.SetIntValue(C, v);
  }

  /** IntegerConstantExpr::Create: type INTEGER, the value of `APInt(64, Data, 10)`. */
  method CreateIntegerConstant(C: Arena, loc: Loc, maxLoc: Loc, data: string) returns (e: ConstantExpr)
    requires IsDecimalString(data) && FitsDecimalWidth(data)
    modifies C
    ensures fresh(e) && e.id == IntegerConstant && e.ty == IntegerTy
    ensures e.loc == loc && e.maxLoc == maxLoc && e.kindSelector == None
    ensures e.value.IntegerValue? && e.value.num.Valid() && e.value.num.OwnedBy(C)
    ensures e.value.num.stored == IntegerLiteralValue(data)
    ensures Value(e.value.num.stored) == SignedValue(data) % WORD
  {
    var num := NewStorage(C, IntegerLiteralValue(data));
    e := new ConstantExpr(IntegerConstant, IntegerTy, loc, maxLoc, IntegerValue(num));
  }

  /**
   * RealConstantExpr::Create: the decimal text is converted to the bit pattern
   * `bits` outside this model; the node stores those bits with the given type.
   */
  method CreateRealConstant(C: Arena, loc: Loc, maxLoc: Loc, bits: APFloat, ty: QualType)
    returns (e: ConstantExpr)
    requires ValidFloat(bits)
    modifies C
    ensures fresh(e) && e.id == RealConstant && e.ty == ty
    ensures e.loc == loc && e.maxLoc == maxLoc && e.kindSelector == None
    ensures e.value.RealValue? && e.value.num.Valid() && e.value.num.OwnedBy(C)
    ensures e.value.num.stored == BitcastToApInt(bits)
  {
    var num := NewStorage(C, BitcastToApInt(bits));
    e := new ConstantExpr(RealConstant, ty, loc, maxLoc, RealValue(num));
  }

  /** ComplexConstantExpr::Create: two storages, for the real and the imaginary part. */
  method CreateComplexConstant(C: Arena, loc: Loc, maxLoc: Loc, re: APFloat, im: APFloat, ty: QualType)
    returns (e: ConstantExpr)
    requires ValidFloat(re) && ValidFloat(im)
    modifies C
    ensures fresh(e) && e.id == ComplexConstant && e.ty == ty
    ensures e.loc == loc && e.maxLoc == maxLoc && e.kindSelector == None
    ensures e.value.ComplexValue? && e.value.re != e.value.im
    ensures e.value.re.Valid() && e.value.re.stored == BitcastToApInt(re)
    ensures e.value.im.Valid() && e.value.im.stored == BitcastToApInt(im)
  {
    var r := NewStorage(C, BitcastToApInt(re));
    var i := NewStorage(C, BitcastToApInt(im));
    e := new ConstantExpr(ComplexConstant, ty, loc, maxLoc, ComplexValue(r, i));
  }

  /** CharacterConstantExpr::Create: type CHARACTER, a new NUL-terminated copy of the literal. */
  method CreateCharacterConstant(loc: Loc, maxLoc: Loc, data: string) returns (e: ConstantExpr)
    ensures fresh(e) && e.id == CharacterConstant && e.ty == CharacterTy
    ensures e.loc == loc && e.maxLoc == maxLoc && e.kindSelector == None
    ensures e.value.CharacterValue? && fresh(e.value.data)
    ensures e.value.data[..] == StrncpyImage(data) + ['\0']
  {
    var buf := CopyCharacterData(data);
    e := new ConstantExpr(CharacterConstant, CharacterTy, loc, maxLoc, CharacterValue(buf));
  }

  /**
   * BOZConstantExpr::Create as intended: for a well-formed token, type
   * INTEGER and the kind and value of the literal.
   */
  method CreateBozConstant(C: Arena, loc: Loc, maxLoc: Loc, data: string) returns (e: ConstantExpr)
    requires BozWellFormed(data)
    modifies C
    ensures fresh(e) && e.id == BOZConstant && e.ty == IntegerTy
    ensures e.loc == loc && e.maxLoc == maxLoc && e.kindSelector == None
    ensures e.value.BozValue? && e.value.kind == BozKindOf(data[0])
    ensures e.value.num.Valid() && e.value.num.OwnedBy(C) && e.value.num.stored == BozLiteral(data).value
    ensures Value(e.value.num.stored) == DigitsValue(BozDigits(data), BozRadix(data[0]))
  {
    var b := BozLiteral(data);
    var num := NewStorage(C, b.value);
    e := new ConstantExpr(BOZConstant, IntegerTy, loc, maxLoc, BozValue(b.kind, num));
  }

  /** LogicalConstantExpr::Create: type LOGICAL, true exactly for `.TRUE.` in any case. */
  method CreateLogicalConstant(loc: Loc, maxLoc: Loc, data: string) returns (e: ConstantExpr)
    ensures fresh(e) && e.id == LogicalConstant && e.ty == LogicalTy
    ensures e.loc == loc && e.maxLoc == maxLoc && e.kindSelector == None
    ensures e.value == LogicalValue(LogicalLiteralValue(data))
  {
    e := new ConstantExpr(LogicalConstant, LogicalTy, loc, maxLoc, LogicalValue(LogicalLiteralValue(data)));
  }

  /** A declared variable: its type and name are fixed; using it in an expression marks it. */
  class VarDecl {
    const ty: QualType
    const nameLength: nat
    var usedAsVariable: bool

    constructor (ty: QualType, nameLength: nat)
      ensures this.ty == ty && this.nameLength == nameLength && !usedAsVariable
    {
      this.ty := ty;
      this.nameLength := nameLength;
      usedAsVariable := false;
    }
  }

  /**
   * MultiArgumentExpr: the argument count and, as in a union, no storage for
   * no argument, the single argument inline, or a new array of them.
   */
  class MultiArgumentExpr {
    var numArguments: nat
    var argument: Option<Expr>
    var arguments: array?<Expr>

    ghost predicate Valid()
      reads this, arguments
    {
      && (numArguments == 0 ==> arguments == null)
      && (numArguments == 1 ==> argument.Some?)
      && (numArguments > 1 ==> arguments != null && arguments.Length == numArguments)
    }

    /** The arguments in order, from whichever member holds them. */
    function Arguments(): (r: seq<Expr>)
      requires Valid()
      reads this, arguments
      ensures |r| == numArguments
    {
      if numArguments == 0 then []
      else if numArguments == 1 then [argument.value]
      else arguments[..]
    }

    constructor (args: seq<Expr>)
      ensures Valid() && numArguments == |args| && Arguments() == args
      ensures |args| > 1 ==> fresh(arguments)
    {
      numArguments := |args|;
      if |args| == 0 {
        arguments := null;
        argument := None;
      } else if |args| == 1 {
        argument := Some(args[0]);
        arguments := null;
      } else {
        // the initial contents are overwritten by the copy loop
        var a := new Expr[|args|](_ => args[0]);
        var i := 0;
        while i != |args|
          invariant 0 <= i <= |args|
          invariant a[..i] == args[..i]
        {
          a[i] := args[i];
          i := i + 1;
        }
        arguments := a;
        argument := None;
      }
    }
  }

  /** The expression tree. Every node but a constant keeps its type as created. */
  datatype Expr =
    | Constant(c: ConstantExpr)
    | RepeatedConstant(loc: Loc, ty: QualType, repeatCount: ConstantExpr, e: Expr)
    | Var(loc: Loc, decl: VarDecl)
    | ReturnedValue(loc: Loc, ty: QualType, nameLength: nat)
    | UnresolvedIdentifier(loc: Loc, nameLength: nat)
    | Substring(loc: Loc, target: Expr, start: Option<Expr>, end: Option<Expr>)
    | ArrayElement(loc: Loc, ty: QualType, target: Expr, subscripts: seq<Expr>)
    | Unary(loc: Loc, ty: QualType, op: UnaryOperator, e: Expr)
    | DefinedUnary(loc: Loc, ty: QualType, e: Expr, name: string)
    | Binary(loc: Loc, ty: QualType, bop: BinaryOperator, lhs: Expr, rhs: Expr)
    | DefinedBinary(loc: Loc, ty: QualType, lhs: Expr, rhs: Expr, name: string)
    | ImplicitCast(loc: Loc, ty: QualType, e: Expr)
    | Call(loc: Loc, ty: QualType, args: seq<Expr>)
    | IntrinsicCall(loc: Loc, ty: QualType, func: IntrinsicFunction, args: seq<Expr>)
    | ImpliedDo(loc: Loc, body: seq<Expr>, init: Expr, terminate: Expr, increment: Option<Expr>)
    | ArrayConstructor(loc: Loc, ty: QualType, items: seq<Expr>)
    | Range(loc: Loc, first: Option<Expr>, second: Option<Expr>)

  /** Expr::getLocation: the location the node was created with. */
  function Location(e: Expr): Loc {
    if e.Constant? then e.c.loc else e.loc
  }

  // ---- start and end locations ----

  /** getLocStart: the node's own location unless a rule takes it from a child. */
  function LocStart(e: Expr): Loc {
    match e
    case Constant(c) => c.loc
    case RepeatedConstant(_, _, count, _) => count.loc
    case Substring(_, target, _, _) => LocStart(target)
    case ArrayElement(_, _, target, _) => LocStart(target)
    case Binary(_, _, _, lhs, _) => LocStart(lhs)
    case DefinedBinary(_, _, lhs, _, _) => LocStart(lhs)
    case ImplicitCast(_, _, x) => LocStart(x)
    case Range(loc, first, _) => if first.Some? then LocStart(first.value) else loc
    case _ => Location(e)
  }

  /**
   * getLocEnd is defined where every argument list it takes the last element
   * of is non-empty (`getArguments().back()` needs one).
   */
  predicate EndDefined(e: Expr) {
    match e
    case RepeatedConstant(_, _, _, x) => EndDefined(x)
    case Substring(_, _, s, en) =>
      if en.Some? then EndDefined(en.value) else s.None? || EndDefined(s.value)
    case ArrayElement(_, _, _, subs) => |subs| > 0 && EndDefined(subs[|subs| - 1])
    case Unary(_, _, _, x) => EndDefined(x)
    case DefinedUnary(_, _, x, _) => EndDefined(x)
    case Binary(_, _, _, _, rhs) => EndDefined(rhs)
    case DefinedBinary(_, _, _, rhs, _) => EndDefined(rhs)
    case ImplicitCast(_, _, x) => EndDefined(x)
    case Call(_, _, args) => |args| > 0 && EndDefined(args[|args| - 1])
    case IntrinsicCall(_, _, _, args) => |args| > 0 && EndDefined(args[|args| - 1])
    case ImpliedDo(_, _, _, term, _) => EndDefined(term)
    case ArrayConstructor(_, _, items) => |items| == 0 || EndDefined(items[|items| - 1])
    case Range(_, _, second) => second.None? || EndDefined(second.value)
    case _ => true
  }

  /** getLocEnd, node by node. */
  function LocEnd(e: Expr): Loc
    requires EndDefined(e)
  {
    match e
    case Constant(c) => c.maxLoc
    case RepeatedConstant(_, _, _, x) => LocEnd(x)
    case Var(loc, decl) => loc + decl.nameLength
    case ReturnedValue(loc, _, n) => loc + n
    case UnresolvedIdentifier(loc, n) => loc + n
    case Substring(loc, _, s, en) =>
      if en.Some? then LocEnd(en.value) else if s.Some? then LocEnd(s.value) else loc
    case ArrayElement(_, _, _, subs) => LocEnd(subs[|subs| - 1])
    case Unary(_, _, _, x) => LocEnd(x)
    case DefinedUnary(_, _, x, _) => LocEnd(x)
    case Binary(_, _, _, _, rhs) => LocEnd(rhs)
    case DefinedBinary(_, _, _, rhs, _) => LocEnd(rhs)
    case ImplicitCast(_, _, x) => LocEnd(x)
    case Call(_, _, args) => LocEnd(args[|args| - 1])
    case IntrinsicCall(_, _, _, args) => LocEnd(args[|args| - 1])
    case ImpliedDo(_, _, _, term, _) => LocEnd(term)
    case ArrayConstructor(loc, _, items) => if |items| == 0 then loc else LocEnd(items[|items| - 1])
    case Range(loc, _, second) => if second.Some? then LocEnd(second.value) else loc
  }

  // ---- layout in the source text ----

  predicate Sorted(s: seq<Loc>) {
    forall i, j :: 0 <= i <= j < |s| ==> s[i] <= s[j]
  }

  function Span(x: Expr): seq<Loc>
    requires EndDefined(x)
  {
    [LocStart(x), LocEnd(x)]
  }

  function OptSpan(x: Option<Expr>): seq<Loc>
    requires x.Some? ==> EndDefined(x.value)
  {
    if x.Some? then Span(x.value) else []
  }

  function Spans(xs: seq<Expr>): (r: seq<Loc>)
    requires forall i :: 0 <= i < |xs| ==> EndDefined(xs[i])
    ensures |r| == 2 * |xs|
  {
    if |xs| == 0 then [] else Spans(xs[..|xs| - 1]) + Span(xs[|xs| - 1])
  }

  /**
   * The parser's placement of a node: every sub-expression is well placed,
   * and the node's own location and its sub-expressions' spans follow one
   * another in the order the syntax writes them. A DO increment comes last.
   */
  predicate WellPlaced(e: Expr)
    decreases e, 1
  {
    EndDefined(e) && ChildrenWellPlaced(e) && ChildrenEndDefined(e) && Sorted(Layout(e))
    && (e.ImpliedDo? && e.increment.Some? ==> LocEnd(e.terminate) <= LocStart(e.increment.value))
  }

  predicate ChildrenWellPlaced(e: Expr)
    decreases e, 0
  {
    match e
    case Constant(_) => true
    case RepeatedConstant(_, _, _, x) => WellPlaced(x)
    case Var(_, _) => true
    case ReturnedValue(_, _, _) => true
    case UnresolvedIdentifier(_, _) => true
    case Substring(_, t, s, en) =>
      WellPlaced(t) && (s.None? || WellPlaced(s.value)) && (en.None? || WellPlaced(en.value))
    case ArrayElement(_, _, t, subs) => WellPlaced(t) && forall i :: 0 <= i < |subs| ==> WellPlaced(subs[i])
    case Unary(_, _, _, x) => WellPlaced(x)
    case DefinedUnary(_, _, x, _) => WellPlaced(x)
    case Binary(_, _, _, l, r) => WellPlaced(l) && WellPlaced(r)
    case DefinedBinary(_, _, l, r, _) => WellPlaced(l) && WellPlaced(r)
    case ImplicitCast(_, _, x) => WellPlaced(x)
    case Call(_, _, args) => forall i :: 0 <= i < |args| ==> WellPlaced(args[i])
    case IntrinsicCall(_, _, _, args) => forall i :: 0 <= i < |args| ==> WellPlaced(args[i])
    case ImpliedDo(_, body, init, term, incr) =>
      (forall i :: 0 <= i < |body| ==> WellPlaced(body[i]))
      && WellPlaced(init) && WellPlaced(term) && (incr.None? || WellPlaced(incr.value))
    case ArrayConstructor(_, _, items) => forall i :: 0 <= i < |items| ==> WellPlaced(items[i])
    case Range(_, f, s) => (f.None? || WellPlaced(f.value)) && (s.None? || WellPlaced(s.value))
  }

  /** Every direct sub-expression has an end location. */
  predicate ChildrenEndDefined(e: Expr) {
    match e
    case RepeatedConstant(_, _, _, x) => EndDefined(x)
    case Substring(_, t, s, en) =>
      EndDefined(t) && (s.None? || EndDefined(s.value)) && (en.None? || EndDefined(en.value))
    case ArrayElement(_, _, t, subs) => EndDefined(t) && forall i :: 0 <= i < |subs| ==> EndDefined(subs[i])
    case Unary(_, _, _, x) => EndDefined(x)
    case DefinedUnary(_, _, x, _) => EndDefined(x)
    case Binary(_, _, _, l, r) => EndDefined(l) && EndDefined(r)
    case DefinedBinary(_, _, l, r, _) => EndDefined(l) && EndDefined(r)
    case ImplicitCast(_, _, x) => EndDefined(x)
    case Call(_, _, args) => forall i :: 0 <= i < |args| ==> EndDefined(args[i])
    case IntrinsicCall(_, _, _, args) => forall i :: 0 <= i < |args| ==> EndDefined(args[i])
    case ImpliedDo(_, body, init, term, incr) =>
      (forall i :: 0 <= i < |body| ==> EndDefined(body[i]))
      && EndDefined(init) && EndDefined(term) && (incr.None? || EndDefined(incr.value))
    case ArrayConstructor(_, _, items) => forall i :: 0 <= i < |items| ==> EndDefined(items[i])
    case Range(_, f, s) => (f.None? || EndDefined(f.value)) && (s.None? || EndDefined(s.value))
    case _ => true
  }

  /** The node's own location and the spans of its sub-expressions, in source order (without a DO increment). */
  function Layout(e: Expr): seq<Loc>
    requires ChildrenEndDefined(e)
  {
    match e
    case Constant(c) => [c.loc, c.maxLoc]
    case RepeatedConstant(_, _, count, x) => [count.loc, count.maxLoc] + Span(x)
    case Var(_, _) => []
    case ReturnedValue(_, _, _) => []
    case UnresolvedIdentifier(_, _) => []
    case Substring(loc, t, s, en) => Span(t) + [loc] + OptSpan(s) + OptSpan(en)
    case ArrayElement(loc, _, t, subs) => Span(t) + [loc] + Spans(subs)
    case Unary(loc, _, _, x) => [loc] + Span(x)
    case DefinedUnary(loc, _, x, _) => [loc] + Span(x)
    case Binary(loc, _, _, l, r) => Span(l) + [loc] + Span(r)
    case DefinedBinary(loc, _, l, r, _) => Span(l) + [loc] + Span(r)
    case ImplicitCast(_, _, x) => Span(x)
    case Call(loc, _, args) => [loc] + Spans(args)
    case IntrinsicCall(loc, _, _, args) => [loc] + Spans(args)
    case ImpliedDo(loc, body, init, term, _) => [loc] + Spans(body) + Span(init) + Span(term)
    case ArrayConstructor(loc, _, items) => [loc] + Spans(items)
    case Range(loc, f, s) => OptSpan(f) + [loc] + OptSpan(s)
  }

  function Opt(x: Option<Expr>): seq<Expr> {
    if x.Some? then [x.value] else []
  }

  /** The sub-expressions whose text the node's span covers: all of them but a DO increment. */
  function SpannedChildren(e: Expr): seq<Expr> {
    match e
    case Constant(_) => []
    case RepeatedConstant(_, _, _, x) => [x]
    case Var(_, _) => []
    case ReturnedValue(_, _, _) => []
    case UnresolvedIdentifier(_, _) => []
    case Substring(_, t, s, en) => [t] + Opt(s) + Opt(en)
    case ArrayElement(_, _, t, subs) => [t] + subs
    case Unary(_, _, _, x) => [x]
    case DefinedUnary(_, _, x, _) => [x]
    case Binary(_, _, _, l, r) => [l, r]
    case DefinedBinary(_, _, l, r, _) => [l, r]
    case ImplicitCast(_, _, x) => [x]
    case Call(_, _, args) => args
    case IntrinsicCall(_, _, _, args) => args
    case ImpliedDo(_, body, init, term, _) => body + [init, term]
    case ArrayConstructor(_, _, items) => items
    case Range(_, f, s) => Opt(f) + Opt(s)
  }

  // ---- the spans cover the text ----

  lemma SortedBounds(s: seq<Loc>, x: Loc)
    requires Sorted(s) && x in s
    ensures s[0] <= x <= s[|s| - 1]
  {
  }

  /** The spans of a list start at its first item's start, end at its last item's end, and hold every item's start and end. */
  lemma {:induction false} SpansContain(xs: seq<Expr>)
    requires forall i :: 0 <= i < |xs| ==> EndDefined(xs[i])
    ensures |xs| > 0 ==> Spans(xs)[0] == LocStart(xs[0])
    ensures |xs| > 0 ==> Spans(xs)[|Spans(xs)| - 1] == LocEnd(xs[|xs| - 1])
    ensures forall i :: 0 <= i < |xs| ==> LocStart(xs[i]) in Spans(xs) && LocEnd(xs[i]) in Spans(xs)
  {
    if |xs| > 0 {
      var init := xs[..|xs| - 1];
      SpansContain(init);
      assert Spans(xs) == Spans(init) + Span(xs[|xs| - 1]);
      if |init| > 0 {
        assert init[0] == xs[0];
      }
      forall i | 0 <= i < |xs|
        ensures LocStart(xs[i]) in Spans(xs) && LocEnd(xs[i]) in Spans(xs)
      {
        if i < |xs| - 1 {
          assert xs[i] == init[i];
        }
      }
    }
  }

  /** getLocStart is the first entry of the layout. */
  lemma LayoutStartsAtLocStart(e: Expr)
    requires ChildrenEndDefined(e) && |Layout(e)| > 0
    ensures Layout(e)[0] == LocStart(e)
  {
    match e
    case ArrayElement(_, _, _, subs) =>
      SpansContain(subs);
    case Call(_, _, args) =>
      SpansContain(args);
    case IntrinsicCall(_, _, _, args) =>
      SpansContain(args);
    case ImpliedDo(_, body, _, _, _) =>
      SpansContain(body);
    case ArrayConstructor(_, _, items) =>
      SpansContain(items);
    case _ =>
  }

  /** getLocEnd is the last entry of the layout. */
  lemma LayoutEndsAtLocEnd(e: Expr)
    requires EndDefined(e) && ChildrenEndDefined(e) && |Layout(e)| > 0
    ensures Layout(e)[|Layout(e)| - 1] == LocEnd(e)
  {
    match e
    case ArrayElement(_, _, _, subs) =>
      SpansContain(subs);
    case Call(_, _, args) =>
      SpansContain(args);
    case IntrinsicCall(_, _, _, args) =>
      SpansContain(args);
    case ImpliedDo(_, body, _, _, _) =>
      SpansContain(body);
    case ArrayConstructor(_, _, items) =>
      SpansContain(items);
    case _ =>
  }

  /** Every spanned sub-expression of a node whose children are well placed is itself well placed. */
  lemma SpannedChildrenWellPlaced(e: Expr)
    requires ChildrenWellPlaced(e)
    ensures forall i :: 0 <= i < |SpannedChildren(e)| ==> WellPlaced(SpannedChildren(e)[i])
  {
    match e
    case ArrayElement(_, _, t, subs) =>
      assert SpannedChildren(e) == [t] + subs;
    case ImpliedDo(_, body, init, term, _) =>
      assert SpannedChildren(e) == body + [init, term];
    case _ =>
  }

  /** A spanned sub-expression has its start and end in the layout. */
  lemma ChildInLayout(e: Expr, i: nat)
    requires ChildrenEndDefined(e) && i < |SpannedChildren(e)|
    ensures EndDefined(SpannedChildren(e)[i])
    ensures LocStart(SpannedChildren(e)[i]) in Layout(e) && LocEnd(SpannedChildren(e)[i]) in Layout(e)
  {
    if HasChildList(e) {
      ListChildInLayout(e, i);
    } else {
      FixedChildInLayout(e, i);
    }
  }

  /** The nodes whose sub-expressions include a list. */
  predicate HasChildList(e: Expr) {
    e.ArrayElement? || e.Call? || e.IntrinsicCall? || e.ImpliedDo? || e.ArrayConstructor?
  }

  lemma ListChildInLayout(e: Expr, i: nat)
    requires HasChildList(e) && ChildrenEndDefined(e) && i < |SpannedChildren(e)|
    ensures EndDefined(SpannedChildren(e)[i])
    ensures LocStart(SpannedChildren(e)[i]) in Layout(e) && LocEnd(SpannedChildren(e)[i]) in Layout(e)
  {
    match e
    case ArrayElement(_, _, t, subs) =>
      if i > 0 {
        SpansContain(subs);
        assert SpannedChildren(e)[i] == subs[i - 1];
      }
    case Call(_, _, args) =>
      SpansContain(args);
    case IntrinsicCall(_, _, _, args) =>
      SpansContain(args);
    case ImpliedDo(_, body, init, term, _) =>
      if i < |body| {
        SpansContain(body);
        assert SpannedChildren(e)[i] == body[i];
      }
    case ArrayConstructor(_, _, items) =>
      SpansContain(items);
  }

  lemma FixedChildInLayout(e: Expr, i: nat)
    requires !HasChildList(e) && ChildrenEndDefined(e) && i < |SpannedChildren(e)|
    ensures EndDefined(SpannedChildren(e)[i])
    ensures LocStart(SpannedChildren(e)[i]) in Layout(e) && LocEnd(SpannedChildren(e)[i]) in Layout(e)
  {
  }

  /** Every spanned sub-expression has its start and end in the layout. */
  lemma ChildrenInLayout(e: Expr)
    requires ChildrenEndDefined(e)
    ensures forall i :: 0 <= i < |SpannedChildren(e)| ==>
      EndDefined(SpannedChildren(e)[i])
      && LocStart(SpannedChildren(e)[i]) in Layout(e) && LocEnd(SpannedChildren(e)[i]) in Layout(e)
  {
    forall i | 0 <= i < |SpannedChildren(e)|
      ensures EndDefined(SpannedChildren(e)[i])
      ensures LocStart(SpannedChildren(e)[i]) in Layout(e) && LocEnd(SpannedChildren(e)[i]) in Layout(e)
    {
      ChildInLayout(e, i);
    }
  }

  /**
   * The span rules cover the text: for a well-placed node getLocStart is at
   * or before getLocEnd, and every sub-expression but a DO increment starts
   * and ends within the node's span.
   */
  lemma SpanCoversChildren(e: Expr)
    requires WellPlaced(e)
    ensures LocStart(e) <= LocEnd(e)
    ensures forall i :: 0 <= i < |SpannedChildren(e)| ==>
      WellPlaced(SpannedChildren(e)[i])
      && LocStart(e) <= LocStart(SpannedChildren(e)[i]) && LocEnd(SpannedChildren(e)[i]) <= LocEnd(e)
  {
    SpannedChildrenWellPlaced(e);
    ChildrenInLayout(e);
    if |Layout(e)| > 0 {
      LayoutStartsAtLocStart(e);
      LayoutEndsAtLocEnd(e);
      assert Layout(e)[0] in Layout(e);
      forall i | 0 <= i < |SpannedChildren(e)|
        ensures LocStart(e) <= LocStart(SpannedChildren(e)[i]) && LocEnd(SpannedChildren(e)[i]) <= LocEnd(e)
      {
        SortedBounds(Layout(e), LocStart(SpannedChildren(e)[i]));
        SortedBounds(Layout(e), LocEnd(SpannedChildren(e)[i]));
      }
    }
  }

  /** The sub-expression reached by following child positions, never through a DO increment. */
  function Descend(e: Expr, path: seq<nat>): Option<Expr>
    decreases |path|
  {
    if |path| == 0 then Some(e)
    else if path[0] < |SpannedChildren(e)| then Descend(SpannedChildren(e)[path[0]], path[1..])
    else None
  }

  /** Every sub-expression at any depth, except inside a DO increment, lies within the span of the whole. */
  lemma {:induction false} SpanCoversDescendants(e: Expr, path: seq<nat>)
    requires WellPlaced(e) && Descend(e, path).Some?
    ensures WellPlaced(Descend(e, path).value)
    ensures LocStart(e) <= LocStart(Descend(e, path).value)
    ensures LocStart(Descend(e, path).value) <= LocEnd(Descend(e, path).value)
    ensures LocEnd(Descend(e, path).value) <= LocEnd(e)
    decreases |path|
  {
    SpanCoversChildren(e);
    if |path| > 0 {
      var c := SpannedChildren(e)[path[0]];
      SpanCoversDescendants(c, path[1..]);
    }
  }

  /** An increment placed after the terminal value lies outside the DO's span. */
  lemma ImpliedDoSpanExcludesIncrement(e: Expr)
    requires WellPlaced(e) && e.ImpliedDo? && e.increment.Some?
    ensures WellPlaced(e.increment.value)
    ensures LocEnd(e) <= LocStart(e.increment.value)
  {
  }

  // ---- tags and checked downcasts ----

  /** The header a node carries; None for node kinds outside the header's tag set. */
  function HeaderOf(e: Expr): Option<Head> {
    match e
    case Constant(c) => Some(Header(c.id, None))
    case Var(_, _) => Some(Header(Designator, Some(ObjectName)))
    case Substring(_, _, _, _) => Some(Header(Designator, Some(DesignatorTy.Substring)))
    case ArrayElement(_, _, _, _) => Some(Header(Designator, Some(DesignatorTy.ArrayElement)))
    case Unary(_, _, _, _) => Some(Header(ExprType.Unary, None))
    case DefinedUnary(_, _, _, _) => Some(Header(DefinedUnaryOperator, None))
    case Binary(_, _, _, _, _) => Some(Header(ExprType.Binary, None))
    case DefinedBinary(_, _, _, _, _) => Some(Header(DefinedBinaryOperator, None))
    case IntrinsicCall(_, _, _, _) => Some(Header(Conversion, None))
    case _ => None
  }

  /** The concrete class a node was created as. */
  function NodeClassOf(e: Expr): Option<NodeClass> {
    match e
    case Constant(c) =>
      Some(match c.id
        case IntegerConstant => IntegerConstantClass
        case RealConstant => RealConstantClass
        case DoublePrecisionConstant => DoublePrecisionConstantClass
        case ComplexConstant => ComplexConstantClass
        case CharacterConstant => CharacterConstantClass
        case BOZConstant => BOZConstantClass
        case _ => LogicalConstantClass)
    case Var(_, _) => Some(VarClass)
    case Substring(_, _, _, _) => Some(SubstringClass)
    case ArrayElement(_, _, _, _) => Some(ArrayElementClass)
    case Unary(_, _, _, _) => Some(UnaryClass)
    case DefinedUnary(_, _, _, _) => Some(DefinedOperatorUnaryClass)
    case Binary(_, _, _, _, _) => Some(BinaryClass)
    case DefinedBinary(_, _, _, _, _) => Some(DefinedOperatorBinaryClass)
    case IntrinsicCall(_, _, _, _) => Some(IntrinsicCallClass)
    case _ => None
  }

  /** A checked downcast of a node succeeds for exactly the class the node was created as. */
  lemma DowncastSound(e: Expr, k: NodeClass)
    requires HeaderOf(e).Some?
    ensures Classof(k, HeaderOf(e).value) <==> NodeClassOf(e) == Some(k)
  {
    var h := HeaderOf(e).value;
    DispatchAgreesWithClassof(h, k);
    assert Dispatch(h) == NodeClassOf(e);
  }

  // ---- creation and types ----

  /** Expr::getType. */
  function TypeOf(e: Expr): QualType
    reads if e.Constant? then {e.c} else {}
  {
    match e
    case Constant(c) => c.ty
    case RepeatedConstant(_, ty, _, _) => ty
    case Var(_, decl) => decl.ty
    case ReturnedValue(_, ty, _) => ty
    case UnresolvedIdentifier(_, _) => IntegerTy
    case Substring(_, _, _, _) => CharacterTy
    case ArrayElement(_, ty, _, _) => ty
    case Unary(_, ty, _, _) => ty
    case DefinedUnary(_, ty, _, _) => ty
    case Binary(_, ty, _, _, _) => ty
    case DefinedBinary(_, ty, _, _, _) => ty
    case ImplicitCast(_, ty, _) => ty
    case Call(_, ty, _) => ty
    case IntrinsicCall(_, ty, _, _) => ty
    case ImpliedDo(_, _, _, _, _) => NullType
    case ArrayConstructor(_, ty, _) => ty
    case Range(_, _, _) => NullType
  }

  /** UnaryExpr::getOperator; a defined unary operator is always `Defined`. */
  function UnaryOperatorOf(e: Expr): UnaryOperator
    requires e.Unary? || e.DefinedUnary?
  {
    if e.Unary? then e.op else UnaryOperator.Defined
  }

  /** BinaryExpr::getOperator; a defined binary operator is always `Defined`. */
  function BinaryOperatorOf(e: Expr): BinaryOperator
    requires e.Binary? || e.DefinedBinary?
  {
    if e.Binary? then e.bop else BinaryOperator.Defined
  }

  /**
   * UnaryExpr::Create: `.NOT.` gives a LOGICAL result and every other operator
   * the operand's type, so the result is LOGICAL exactly when the operator is
   * `.NOT.` or the operand is LOGICAL.
   */
  function CreateUnary(loc: Loc, op: UnaryOperator, x: Expr): (r: Expr)
    reads if x.Constant? then {x.c} else {}
    ensures HeaderOf(r) == Some(Header(ExprType.Unary, None)) && UnaryOperatorOf(r) == op
    ensures op != Not ==> TypeOf(r) == TypeOf(x)
    ensures TypeOf(r) == LogicalTy <==> op == Not || TypeOf(x) == LogicalTy
    ensures Location(r) == loc && LocStart(r) == loc
    ensures EndDefined(x) ==> EndDefined(r) && LocEnd(r) == LocEnd(x)
  {
    Expr.Unary(loc, if op != Not then TypeOf(x) else LogicalTy, op, x)
  }

  /** DefinedUnaryOperatorExpr::Create: operator `Defined`, the operand's type. */
  function CreateDefinedUnary(loc: Loc, x: Expr, name: string): (r: Expr)
    reads if x.Constant? then {x.c} else {}
    ensures HeaderOf(r) == Some(Header(DefinedUnaryOperator, None))
    ensures UnaryOperatorOf(r) == UnaryOperator.Defined && TypeOf(r) == TypeOf(x)
    ensures !IsUnaryExpr(HeaderOf(r).value)
  {
    DefinedUnary(loc, TypeOf(x), x, name)
  }

  /** BinaryExpr::Create: the caller supplies the type; the span runs from the left operand to the right. */
  function CreateBinary(loc: Loc, op: BinaryOperator, ty: QualType, lhs: Expr, rhs: Expr): (r: Expr)
    ensures HeaderOf(r) == Some(Header(ExprType.Binary, None))
    ensures BinaryOperatorOf(r) == op && TypeOf(r) == ty
    ensures LocStart(r) == LocStart(lhs)
    ensures EndDefined(rhs) ==> EndDefined(r) && LocEnd(r) == LocEnd(rhs)
  {
    Expr.Binary(loc, ty, op, lhs, rhs)
  }

  /**
   * DefinedBinaryOperatorExpr::Create: operator `Defined`, the defined-operator
   * tag and an unresolved (empty) type. Since BinaryExpr::classof tests for the
   * Binary tag only, such a node is not `isa<BinaryExpr>`.
   */
  function CreateDefinedBinary(loc: Loc, lhs: Expr, rhs: Expr, name: string): (r: Expr)
    ensures HeaderOf(r) == Some(Header(DefinedBinaryOperator, None))
    ensures BinaryOperatorOf(r) == BinaryOperator.Defined && TypeOf(r) == NullType
    ensures IsDefinedOperatorBinaryExpr(HeaderOf(r).value) && !IsBinaryExpr(HeaderOf(r).value)
  {
    DefinedBinary(loc, NullType, lhs, rhs, name)
  }

  /** SubstringExpr::Create: type CHARACTER, a substring designator. */
  function CreateSubstring(loc: Loc, target: Expr, start: Option<Expr>, end: Option<Expr>): (r: Expr)
    ensures HeaderOf(r) == Some(Header(Designator, Some(DesignatorTy.Substring)))
    ensures TypeOf(r) == CharacterTy && LocStart(r) == LocStart(target)
    ensures end.None? && start.None? ==> EndDefined(r) && LocEnd(r) == loc
    ensures end.Some? && EndDefined(end.value) ==> EndDefined(r) && LocEnd(r) == LocEnd(end.value)
    ensures end.None? && start.Some? && EndDefined(start.value) ==> EndDefined(r) && LocEnd(r) == LocEnd(start.value)
  {
    Expr.Substring(loc, target, start, end)
  }

  /** ArrayElementExpr::Create: the target must have an array type; the element has its element type. */
  function CreateArrayElement(loc: Loc, target: Expr, subscripts: seq<Expr>): (r: Expr)
    requires TypeOf(target).ArrayTy?
    reads if target.Constant? then {target.c} else {}
    ensures HeaderOf(r) == Some(Header(Designator, Some(DesignatorTy.ArrayElement)))
    ensures TypeOf(target) == ArrayTy(TypeOf(r))
    ensures LocStart(r) == LocStart(target)
  {
    Expr.ArrayElement(loc, TypeOf(target).element, target, subscripts)
  }

  /** VarExpr::Create: marks the declaration as used and refers to it; the span covers the name. */
  method CreateVarExpr(loc: Loc, decl: VarDecl) returns (r: Expr)
    modifies decl
    ensures decl.usedAsVariable
    ensures r == Var(loc, decl) && TypeOf(r) == decl.ty
    ensures HeaderOf(r) == Some(Header(Designator, Some(ObjectName)))
    ensures LocStart(r) == loc && LocEnd(r) == loc + decl.nameLength
  {
    decl.usedAsVariable := true;
    r := Var(loc, decl);
  }
}
