/**
 * Code generation for CHARACTER expressions, kept to what it computes with
 * integers and which runtime routines it calls: a character value is a
 * pointer and a size_t length, an emitter owns a one-shot destination slot,
 * and the routines the generated code calls are recorded in order.
 */
module CharacterCodegen {
  import opened Wrappers
  import opened NumericStorage
  import opened Literals
  import ExprKinds

  /** A value of the target's size type, size_t: a 64-bit word. */
  type SizeWord = x: nat | x < WORD

  /** Size-type subtraction, which wraps modulo 2^64. */
  function SizeSub(a: SizeWord, b: SizeWord): (r: SizeWord)
    ensures b <= a ==> r == a - b
    ensures a < b ==> r + b == a + WORD
  {
    if b <= a then a - b else WORD + a - b
  }

  /** A GEP index: the size word read as a signed 64-bit offset. */
  function SignedOffset(x: SizeWord): (r: int)
    ensures x < WORD / 2 ==> r == x
    ensures r < WORD / 2 && -(WORD / 2) <= r
    ensures (r - x) % WORD == 0
  {
    if x < WORD / 2 then x else x - WORD
  }

  /** A pointer to characters: null, or a position in a buffer. */
  datatype CharPtr = Null | At(buffer: array<char>, offset: int)

  /** CreateGEP(Ptr, Index) on a pointer into a buffer. */
  function Advance(p: CharPtr, index: SizeWord): (r: CharPtr)
    requires p.At?
    ensures r.At? && r.buffer == p.buffer
    ensures index < WORD / 2 ==> r.offset == p.offset + index
  {
    At(p.buffer, p.offset + SignedOffset(index))
  }

  /** CharacterValueTy: a pointer and a length. */
  datatype CharacterValue = CharacterValue(ptr: CharPtr, len: SizeWord)

  /** `CharacterValueTy(nullptr, nullptr)`, the empty slot. */
  const NoValue: CharacterValue := CharacterValue(Null, 0)

  /** The runtime routines character code generation calls. */
  datatype RuntimeCall =
    | ConcatCall(dest: CharacterValue, lhs: CharacterValue, rhs: CharacterValue)
    | AssignmentCall(dest: CharacterValue, src: CharacterValue)
    | FunctionCall(result: CharacterValue)
    | LenTrimCall(arg: CharacterValue)
    | LexCompareCall(a: CharacterValue, b: CharacterValue)

  /** The character value a call writes into, if it writes one. */
  function WriteTarget(c: RuntimeCall): Option<CharacterValue> {
    match c
    case ConcatCall(d, _, _) => Some(d)
    case AssignmentCall(d, _) => Some(d)
    case FunctionCall(d) => Some(d)
    case _ => None
  }

  /** How many of `calls` write into `v`. */
  function CountWrites(calls: seq<RuntimeCall>, v: CharacterValue): (n: nat)
    ensures n <= |calls|
  {
    if |calls| == 0 then 0
    else CountWrites(calls[..|calls| - 1], v) + (if WriteTarget(calls[|calls| - 1]) == Some(v) then 1 else 0)
  }

  lemma {:induction false} CountWritesAppend(a: seq<RuntimeCall>, b: seq<RuntimeCall>, v: CharacterValue)
    ensures CountWrites(a + b, v) == CountWrites(a, v) + CountWrites(b, v)
    decreases |b|
  {
    if |b| > 0 {
      assert (a + b)[..|a + b| - 1] == a + b[..|b| - 1];
      CountWritesAppend(a, b[..|b| - 1], v);
    } else {
      assert a + b == a;
    }
  }

  lemma {:induction false} CountWritesNone(calls: seq<RuntimeCall>, v: CharacterValue)
    requires forall i :: 0 <= i < |calls| ==> WriteTarget(calls[i]) != Some(v)
    ensures CountWrites(calls, v) == 0
  {
    if |calls| > 0 {
      CountWritesNone(calls[..|calls| - 1], v);
    }
  }

  /** The code being compiled as far as code generation reads it: the runtime calls it has emitted so far. */
  class CodeGenFunction {
    var calls: seq<RuntimeCall>

    constructor()
      ensures calls == []
    {
      calls := [];
    }

    /** EmitCall*: appends one runtime call. */
    method EmitCall(c: RuntimeCall)
      modifies this
      ensures calls == old(calls) + [c]
    {
      calls := calls + [c];
    }
  }

  /**
   * The character expressions code generation distinguishes. `Operand`
   * stands for a dummy argument or local variable, a returned value, an
   * array element or an intrinsic call, whose value other code supplies;
   * `Parameter` is a named constant, which evaluates its initializer with
   * the same emitter. `Concat` carries the length selectors of its operands'
   * types and `Call` the length of the function's result; the start and end
   * of a `Substring` are the values of its starting and ending points.
   */
  datatype CharExpr =
    | Constant(data: string)
    | Operand(v: CharacterValue)
    | Parameter(init: CharExpr)
    | Concat(lhs: CharExpr, rhs: CharExpr, lhsLength: Option<SizeWord>, rhsLength: Option<SizeWord>)
    | Substring(target: CharExpr, start: Option<SizeWord>, end: Option<SizeWord>)
    | Call(resultLength: SizeWord)

  /** The nesting depth of an expression, which evaluation recurses on. */
  function Depth(e: CharExpr): (n: nat)
    ensures e.Concat? ==> n > Depth(e.lhs) && n > Depth(e.rhs)
    ensures e.Substring? ==> n > Depth(e.target)
    ensures e.Parameter? ==> n > Depth(e.init)
  {
    match e
    case Parameter(i) => 1 + Depth(i)
    case Concat(l, r, _, _) => 1 + (if Depth(l) < Depth(r) then Depth(r) else Depth(l))
    case Substring(t, _, _) => 1 + Depth(t)
    case _ => 0
  }

  /** Every operand's value points into a buffer. */
  predicate ValidExpr(e: CharExpr) {
    match e
    case Operand(v) => v.ptr.At?
    case Concat(l, r, _, _) => ValidExpr(l) && ValidExpr(r)
    case Substring(t, _, _) => ValidExpr(t)
    case Parameter(i) => ValidExpr(i)
    case _ => true
  }

  /**
   * Evaluating `e` writes into a preset destination: a concatenation or a
   * call, possibly under substrings or as the initializer of a named constant.
   */
  predicate Consumes(e: CharExpr) {
    match e
    case Concat(_, _, _, _) => true
    case Call(_) => true
    case Substring(t, _, _) => Consumes(t)
    case Parameter(i) => Consumes(i)
    case _ => false
  }

  /** A designator: an operand, possibly under substrings. */
  predicate IsDesignator(e: CharExpr) {
    match e
    case Operand(_) => true
    case Substring(t, _, _) => IsDesignator(t)
    case _ => false
  }

  /**
   * The pointer and length arithmetic of VisitSubstringExpr: with a start s
   * the pointer moves by s-1 and the length becomes e-(s-1), or the old
   * length minus s-1 without an end; with only an end the length becomes e.
   */
  function SubstringValue(str: CharacterValue, start: Option<SizeWord>, end: Option<SizeWord>): (r: CharacterValue)
    requires str.ptr.At?
    ensures r.ptr.At? && r.ptr.buffer == str.ptr.buffer
    ensures start.None? ==> r.ptr == str.ptr && r.len == end.GetOr(str.len)
  {
    if start.Some? then
      var s := SizeSub(start.value, 1);
      CharacterValue(Advance(str.ptr, s), SizeSub(end.GetOr(str.len), s))
    else if end.Some? then
      str.(len := end.value)
    else
      str
  }

  /**
   * A substring (s:e) with 1 <= s <= e+1 points at character s of its parent
   * and has length e-s+1, so it ends where character e of the parent ends;
   * (s:) runs to the parent's end.
   */
  lemma SubstringSelectsCharacters(str: CharacterValue, s: SizeWord, end: Option<SizeWord>)
    requires str.ptr.At? && 1 <= s && s - 1 < WORD / 2
    requires s <= end.GetOr(str.len) + 1
    ensures SubstringValue(str, Some(s), end).ptr.offset == str.ptr.offset + s - 1
    ensures SubstringValue(str, Some(s), end).len == end.GetOr(str.len) - s + 1
    ensures SubstringValue(str, Some(s), end).ptr.offset + SubstringValue(str, Some(s), end).len
            == str.ptr.offset + end.GetOr(str.len)
  {
  }

  /** A substring whose start is 0 reads the character before its parent and wraps its length. */
  lemma SubstringStartZeroWraps(str: CharacterValue, end: SizeWord)
    requires str.ptr.At?
    ensures SubstringValue(str, Some(0), Some(end)).ptr.offset == str.ptr.offset - 1
    ensures end < WORD - 1 ==> SubstringValue(str, Some(0), Some(end)).len == end + 1
  {
  }

  /** The value of a designator, which evaluates without calls. */
  function DesignatorValue(e: CharExpr): (r: CharacterValue)
    requires IsDesignator(e) && ValidExpr(e)
    ensures r.ptr.At?
  {
    match e
    case Operand(v) => v
    case Substring(t, s, en) => SubstringValue(DesignatorValue(t), s, en)
  }

  /** The length of a CHARACTER type: its length selector, or 1 without one. */
  function CharacterLength(lengthSelector: Option<SizeWord>): SizeWord {
    lengthSelector.GetOr(1)
  }

  /**
   * The size of the temporary a concatenation without a destination
   * allocates: the sum of its operands' type lengths, in size_t.
   */
  function ConcatTempSize(lhsLength: Option<SizeWord>, rhsLength: Option<SizeWord>): (n: SizeWord)
    ensures CharacterLength(lhsLength) + CharacterLength(rhsLength) < WORD ==>
      n == CharacterLength(lhsLength) + CharacterLength(rhsLength)
    ensures CharacterLength(lhsLength) + CharacterLength(rhsLength) >= WORD ==>
      n == CharacterLength(lhsLength) + CharacterLength(rhsLength) - WORD
  {
    var sum := CharacterLength(lhsLength) + CharacterLength(rhsLength);
    if sum < WORD then sum else sum - WORD
  }

  /** Without overflow the temporary is no shorter than either operand's type, and two characters long when neither has a length selector. */
  lemma ConcatTempHoldsOperands(lhsLength: Option<SizeWord>, rhsLength: Option<SizeWord>)
    requires CharacterLength(lhsLength) + CharacterLength(rhsLength) < WORD
    ensures ConcatTempSize(lhsLength, rhsLength) >= CharacterLength(lhsLength)
    ensures ConcatTempSize(lhsLength, rhsLength) >= CharacterLength(rhsLength)
    ensures lhsLength.None? && rhsLength.None? ==> ConcatTempSize(lhsLength, rhsLength) == 2
  {
    assert CharacterLength(lhsLength) >= 0;
  }

  // ---- CodeGenFunction::GetCharacterValueFromPtr ----

  /**
   * GetCharacterTypeLength as written computes the length and then falls off
   * the end of a function returning a value, so its caller receives no
   * defined length: None.
   */
  function GetCharacterTypeLengthAsWritten(lengthSelector: Option<SizeWord>): Option<SizeWord> {
    None
  }

  /** GetCharacterValueFromPtr as written: its length comes from GetCharacterTypeLength, so it has none. */
  function GetCharacterValueFromPtrAsWritten(storage: array<char>, lengthSelector: Option<SizeWord>): Option<CharacterValue> {
    match GetCharacterTypeLengthAsWritten(lengthSelector)
    case None => None
    case Some(n) => Some(CharacterValue(At(storage, 0), n))
  }

  /**
   * GetCharacterValueFromPtr as intended: the storage's first character and
   * the length of the storage's type, so a value made for storage of that
   * type covers the storage exactly.
   */
  function GetCharacterValueFromPtr(storage: array<char>, lengthSelector: Option<SizeWord>): (r: CharacterValue)
    ensures r.ptr == At(storage, 0)
    ensures storage.Length == CharacterLength(lengthSelector) ==> r.len == storage.Length
  {
    CharacterValue(At(storage, 0), CharacterLength(lengthSelector))
  }

  /**
   * As written, the temporary a concatenation without a destination
   * allocates gets no defined length, whatever its storage.
   */
  lemma ConcatTempLengthAsWrittenUndefined(storage: array<char>, lhsLength: Option<SizeWord>, rhsLength: Option<SizeWord>)
    ensures GetCharacterValueFromPtrAsWritten(storage, Some(ConcatTempSize(lhsLength, rhsLength))).None?
  {
  }

  /**
   * CharacterExprEmitter: evaluates character expressions for one code
   * generator and holds the destination a caller presets, which the first
   * concatenation or call evaluated takes.
   */
  class CharacterExprEmitter {
    const cgf: CodeGenFunction
    var dest: CharacterValue

    /** A new emitter has no destination. */
    constructor(cgf: CodeGenFunction)
      ensures this.cgf == cgf && dest == NoValue && !HasDestination()
    {
      this.cgf := cgf;
      dest := NoValue;
    }

    /** hasDestination: the slot holds a non-null pointer. */
    predicate HasDestination()
      reads this
    {
      dest.ptr.At?
    }

    /** takeDestination: hands out the slot's value and empties it. */
    method TakeDestination() returns (r: CharacterValue)
      modifies this
      ensures r == old(dest) && dest == NoValue && !HasDestination()
    {
      r := dest;
      dest := NoValue;
    }

    /** setDestination: the value must have a non-null pointer. */
    method SetDestination(v: CharacterValue)
      requires v.ptr.At?
      modifies this
      ensures dest == v && HasDestination()
    {
      dest := v;
    }

    /** VisitCharacterConstantExpr: a new global holding the value, with length strlen of the stored value. */
    method VisitCharacterConstant(data: string) returns (r: CharacterValue)
      ensures r.ptr.At? && fresh(r.ptr.buffer) && r.ptr.offset == 0
      ensures r.ptr.buffer[..] == data[..FirstNul(data)] + ['\0']
      ensures r.len == Strlen(StrncpyImage(data) + ['\0']) % WORD
    {
      CharacterDataStrlen(data);
      var k := FirstNul(data);
      var global := new char[k + 1](i => if 0 <= i < k then data[i] else '\0');
      assert global[..] == data[..k] + ['\0'];
      r := CharacterValue(At(global, 0), k % WORD);
    }

    /** The arithmetic part of VisitSubstringExpr, once the target has been evaluated. */
    method ApplySubstring(str: CharacterValue, start: Option<SizeWord>, end: Option<SizeWord>)
      returns (r: CharacterValue)
      requires str.ptr.At?
      ensures r == SubstringValue(str, start, end)
    {
      r := str;
      if start.Some? {
        var s := SizeSub(start.value, 1);
        r := r.(ptr := Advance(r.ptr, s));
        if end.Some? {
          r := r.(len := SizeSub(end.value, s));
        } else {
          r := r.(len := SizeSub(r.len, s));
        }
      } else if end.Some? {
        r := r.(len := end.value);
      }
    }

    /**
     * EmitExpr. A preset destination is taken by exactly the expressions that
     * consume it, which write into it once; every other value written is a
     * new temporary. Designators evaluate to their value without any call.
     */
    method EmitExpr(e: CharExpr) returns (r: CharacterValue)
      requires ValidExpr(e)
      modifies this, cgf
      decreases Depth(e), 2
      ensures r.ptr.At?
      ensures old(HasDestination()) ==> (HasDestination() <==> !Consumes(e))
      ensures !old(HasDestination()) ==> !HasDestination()
      ensures HasDestination() ==> dest == old(dest)
      ensures |cgf.calls| >= old(|cgf.calls|) && cgf.calls[..old(|cgf.calls|)] == old(cgf.calls)
      ensures forall i :: old(|cgf.calls|) <= i < |cgf.calls| && WriteTarget(cgf.calls[i]).Some? ==>
        WriteTarget(cgf.calls[i]).value.ptr.At?
        && (WriteTarget(cgf.calls[i]).value == old(dest) || fresh(WriteTarget(cgf.calls[i]).value.ptr.buffer))
      ensures forall i :: old(|cgf.calls|) <= i < |cgf.calls| ==> !cgf.calls[i].AssignmentCall?
      ensures CountWrites(cgf.calls[old(|cgf.calls|)..], old(dest))
              == if old(HasDestination()) && Consumes(e) then 1 else 0
      ensures old(HasDestination()) && (e.Concat? || e.Call?) ==> r == old(dest)
      ensures IsDesignator(e) ==> r == DesignatorValue(e) && cgf.calls == old(cgf.calls)
    {
      match e
      case Constant(data) =>
        r := VisitCharacterConstant(data);
        assert cgf.calls[old(|cgf.calls|)..] == [];
      case Operand(v) =>
        r := v;
        assert cgf.calls[old(|cgf.calls|)..] == [];
      case Parameter(init) =>
        r := EmitExpr(init);
      case Concat(lhs, rhs, lhsLength, rhsLength) =>
        r := VisitConcat(lhs, rhs, lhsLength, rhsLength);
      case Substring(target, start, end) =>
        var str := EmitExpr(target);
        r := ApplySubstring(str, start, end);
      case Call(resultLength) =>
        r := VisitCall(resultLength);
    }

    /**
     * VisitBinaryExprConcat: writes into the preset destination if there is
     * one, else into a new temporary as long as both operands' types.
     */
    method VisitConcat(lhs: CharExpr, rhs: CharExpr, lhsLength: Option<SizeWord>, rhsLength: Option<SizeWord>)
      returns (r: CharacterValue)
      requires ValidExpr(lhs) && ValidExpr(rhs)
      modifies this, cgf
      decreases Depth(Concat(lhs, rhs, lhsLength, rhsLength)), 1
      ensures !HasDestination()
      ensures old(HasDestination()) ==> r == old(dest)
      ensures !old(HasDestination()) ==>
        r.ptr.At? && fresh(r.ptr.buffer) && r.ptr.offset == 0 && r.len == ConcatTempSize(lhsLength, rhsLength)
        && r.ptr.buffer.Length == ConcatTempSize(lhsLength, rhsLength)
      ensures |cgf.calls| > old(|cgf.calls|) && cgf.calls[..old(|cgf.calls|)] == old(cgf.calls)
      ensures cgf.calls[|cgf.calls| - 1].ConcatCall? && cgf.calls[|cgf.calls| - 1].dest == r
      ensures r.ptr.At?
      ensures forall i :: old(|cgf.calls|) <= i < |cgf.calls| && WriteTarget(cgf.calls[i]).Some? ==>
        WriteTarget(cgf.calls[i]).value.ptr.At?
        && (WriteTarget(cgf.calls[i]).value == old(dest) || fresh(WriteTarget(cgf.calls[i]).value.ptr.buffer))
      ensures forall i :: old(|cgf.calls|) <= i < |cgf.calls| ==> !cgf.calls[i].AssignmentCall?
      ensures CountWrites(cgf.calls[old(|cgf.calls|)..], old(dest)) == if old(HasDestination()) then 1 else 0
    {
      var d := ConcatDestination(lhsLength, rhsLength);
      var n0 := |cgf.calls|;
      EmitConcatInto(d, lhs, rhs);
      r := d;
      ghost var nested := cgf.calls[n0..|cgf.calls| - 1];
      assert forall i :: 0 <= i < |nested| ==> nested[i] == cgf.calls[n0 + i];
      assert cgf.calls[n0..] == nested + [cgf.calls[|cgf.calls| - 1]];
      CountAfterLastCall(nested, cgf.calls[|cgf.calls| - 1], old(dest));
    }

    /** Evaluates both operands, which find no destination, then calls the runtime concatenation into `d`. */
    method EmitConcatInto(d: CharacterValue, lhs: CharExpr, rhs: CharExpr)
      requires !HasDestination() && d.ptr.At? && ValidExpr(lhs) && ValidExpr(rhs)
      modifies this, cgf
      decreases Depth(Concat(lhs, rhs, None, None)), 0
      ensures !HasDestination()
      ensures |cgf.calls| > old(|cgf.calls|) && cgf.calls[..old(|cgf.calls|)] == old(cgf.calls)
      ensures cgf.calls[|cgf.calls| - 1].ConcatCall? && cgf.calls[|cgf.calls| - 1].dest == d
      ensures forall i :: old(|cgf.calls|) <= i < |cgf.calls| - 1 && WriteTarget(cgf.calls[i]).Some? ==>
        WriteTarget(cgf.calls[i]).value.ptr.At? && fresh(WriteTarget(cgf.calls[i]).value.ptr.buffer)
      ensures forall i :: old(|cgf.calls|) <= i < |cgf.calls| ==> !cgf.calls[i].AssignmentCall?
    {
      var src1 := EmitExpr(lhs);
      var src2 := EmitExpr(rhs);
      cgf.EmitCall(ConcatCall(d, src1, src2));
    }

    /** The destination of a concatenation: the preset one, taken, or else a new temporary of the operands' size. */
    method ConcatDestination(lhsLength: Option<SizeWord>, rhsLength: Option<SizeWord>) returns (d: CharacterValue)
      modifies this
      ensures !HasDestination() && d.ptr.At?
      ensures old(HasDestination()) ==> d == old(dest)
      ensures !old(HasDestination()) ==>
        fresh(d.ptr.buffer) && d.ptr.offset == 0 && d.len == ConcatTempSize(lhsLength, rhsLength)
        && d.ptr.buffer.Length == ConcatTempSize(lhsLength, rhsLength)
    {
      if HasDestination() {
        d := TakeDestination();
      } else {
        var size := ConcatTempSize(lhsLength, rhsLength);
        var temp := new char[size];
        d := GetCharacterValueFromPtr(temp, Some(size));
      }
    }

    /**
     * VisitCallExpr: the result goes into the preset destination if there is
     * one, else into a new temporary as long as the function's result.
     */
    method VisitCall(resultLength: SizeWord) returns (r: CharacterValue)
      modifies this, cgf
      ensures !HasDestination()
      ensures old(HasDestination()) ==> r == old(dest)
      ensures !old(HasDestination()) ==>
        r.ptr.At? && fresh(r.ptr.buffer) && r.ptr.offset == 0 && r.len == resultLength
        && r.ptr.buffer.Length == resultLength
      ensures r.ptr.At? && cgf.calls == old(cgf.calls) + [FunctionCall(r)]
    {
      if HasDestination() {
        r := TakeDestination();
      } else {
        var temp := new char[resultLength];
        r := GetCharacterValueFromPtr(temp, Some(resultLength));
      }
      cgf.EmitCall(FunctionCall(r));
    }
  }

  /** After calls that never write into `v`, one more call writes into it once or not at all. */
  lemma CountAfterLastCall(nested: seq<RuntimeCall>, c: RuntimeCall, v: CharacterValue)
    requires forall i :: 0 <= i < |nested| ==> WriteTarget(nested[i]) != Some(v)
    ensures CountWrites(nested + [c], v) == if WriteTarget(c) == Some(v) then 1 else 0
  {
    CountWritesNone(nested, v);
    assert (nested + [c])[..|nested|] == nested;
  }

  /** EmitCharacterExpr: a new emitter, with no destination, evaluates the expression. */
  method EmitCharacterExpr(cgf: CodeGenFunction, e: CharExpr) returns (r: CharacterValue)
    requires ValidExpr(e)
    modifies cgf
    ensures r.ptr.At?
    ensures IsDesignator(e) ==> r == DesignatorValue(e) && cgf.calls == old(cgf.calls)
  {
    var ev := new CharacterExprEmitter(cgf);
    r := ev.EmitExpr(e);
  }

  /**
   * EmitCharacterAssignment: the right-hand side is evaluated with the
   * left-hand side preset as its destination, and the runtime assignment is
   * called only when that destination was not taken. Either way the
   * left-hand side is written exactly once.
   */
  method EmitCharacterAssignment(cgf: CodeGenFunction, lhs: CharExpr, rhs: CharExpr)
    requires IsDesignator(lhs) && ValidExpr(lhs) && ValidExpr(rhs)
    modifies cgf
    ensures |cgf.calls| >= old(|cgf.calls|) && cgf.calls[..old(|cgf.calls|)] == old(cgf.calls)
    ensures CountWrites(cgf.calls[old(|cgf.calls|)..], DesignatorValue(lhs)) == 1
    ensures !Consumes(rhs) <==>
      |cgf.calls| > old(|cgf.calls|) && cgf.calls[|cgf.calls| - 1].AssignmentCall?
      && cgf.calls[|cgf.calls| - 1].dest == DesignatorValue(lhs)
  {
    var n0 := |cgf.calls|;
    var d := EmitCharacterExpr(cgf, lhs);
    var ev := new CharacterExprEmitter(cgf);
    ev.SetDestination(d);
    var src := ev.EmitExpr(rhs);
    ghost var nested := cgf.calls[n0..];
    ghost var consumed := !ev.HasDestination();
    assert consumed <==> Consumes(rhs);
    if ev.HasDestination() {
      cgf.EmitCall(AssignmentCall(d, src));
    }
    AssignmentOutcome(nested, cgf.calls[n0 + |nested|..], d, consumed);
    assert cgf.calls[n0..] == nested + cgf.calls[n0 + |nested|..];
  }

  /**
   * The calls an assignment appends: those of the right-hand side, none of
   * them an assignment, then one assignment into `d` exactly when the
   * right-hand side did not consume `d`.
   */
  lemma AssignmentOutcome(nested: seq<RuntimeCall>, tail: seq<RuntimeCall>, d: CharacterValue, consumed: bool)
    requires forall i :: 0 <= i < |nested| ==> !nested[i].AssignmentCall?
    requires CountWrites(nested, d) == if consumed then 1 else 0
    requires consumed ==> tail == []
    requires !consumed ==> exists src :: tail == [AssignmentCall(d, src)]
    ensures CountWrites(nested + tail, d) == 1
    ensures !consumed <==>
      |nested + tail| > 0 && (nested + tail)[|nested + tail| - 1].AssignmentCall?
      && (nested + tail)[|nested + tail| - 1].dest == d
  {
    if consumed {
      assert nested + tail == nested;
    } else {
      CountWritesAppend(nested, tail, d);
      assert tail[..0] == [];
    }
  }

  // ---- intrinsics on character values ----

  /** What an intrinsic call yields: a size converted to INTEGER, or the result of a runtime call. */
  datatype RValue = SizeResult(n: SizeWord) | CallResult(call: RuntimeCall)

  /**
   * EmitIntrinsicCallCharacter with one argument: LEN is the value's length
   * field and emits nothing; LEN_TRIM calls the runtime. No other intrinsic
   * reaches it.
   */
  method EmitLengthIntrinsic(cgf: CodeGenFunction, f: ExprKinds.IntrinsicFunction, v: CharacterValue)
    returns (r: RValue)
    requires f == ExprKinds.LEN || f == ExprKinds.LEN_TRIM
    modifies cgf
    ensures f == ExprKinds.LEN ==> r == SizeResult(v.len) && cgf.calls == old(cgf.calls)
    ensures f == ExprKinds.LEN_TRIM ==> r == CallResult(LenTrimCall(v)) && cgf.calls == old(cgf.calls) + [LenTrimCall(v)]
  {
    if f == ExprKinds.LEN {
      r := SizeResult(v.len);
    } else {
      cgf.EmitCall(LenTrimCall(v));
      r := CallResult(LenTrimCall(v));
    }
  }

  predicate IsLexicalComparison(f: ExprKinds.IntrinsicFunction) {
    f == ExprKinds.LLE || f == ExprKinds.LLT || f == ExprKinds.LGE || f == ExprKinds.LGT
  }

  /** GetLexicalComparisonOp: the relational operator applied to the runtime comparison's result. */
  function GetLexicalComparisonOp(f: ExprKinds.IntrinsicFunction): (op: ExprKinds.BinaryOperator)
    requires IsLexicalComparison(f)
    ensures ExprKinds.IsRelational(op) && op != ExprKinds.Equal && op != ExprKinds.NotEqual
  {
    match f
    case LLE => ExprKinds.LessThanEqual
    case LLT => ExprKinds.LessThan
    case LGE => ExprKinds.GreaterThanEqual
    case LGT => ExprKinds.GreaterThan
  }

  /** A relational operator applied to a comparison result and zero. */
  predicate RelationHolds(op: ExprKinds.BinaryOperator, x: int, y: int)
    requires ExprKinds.IsRelational(op)
  {
    match op
    case Equal => x == y
    case NotEqual => x != y
    case LessThan => x < y
    case LessThanEqual => x <= y
    case GreaterThan => x > y
    case GreaterThanEqual => x >= y
  }

  /**
   * What LLE, LLT, LGE and LGT mean (ISO/IEC 1539-1:2010, sections 13.7.96
   * to 13.7.99) given the sign `c` of comparing the first string with the
   * second in the ASCII collating sequence.
   */
  predicate LexicallyOrdered(f: ExprKinds.IntrinsicFunction, c: int)
    requires IsLexicalComparison(f)
  {
    match f
    case LLE => c < 0 || c == 0
    case LLT => c < 0
    case LGE => c > 0 || c == 0
    case LGT => c > 0
  }

  /** Comparing the runtime result with zero by the mapped operator gives the intrinsic's meaning. */
  lemma LexicalComparisonMeaning(f: ExprKinds.IntrinsicFunction, c: int)
    requires IsLexicalComparison(f)
    ensures RelationHolds(GetLexicalComparisonOp(f), c, 0) <==> LexicallyOrdered(f, c)
  {
  }

  /** The four intrinsics map to four different operators. */
  lemma LexicalComparisonInjective(f: ExprKinds.IntrinsicFunction, g: ExprKinds.IntrinsicFunction)
    requires IsLexicalComparison(f) && IsLexicalComparison(g)
    ensures GetLexicalComparisonOp(f) == GetLexicalComparisonOp(g) <==> f == g
  {
  }

  /** A lexical comparison as emitted: the runtime comparison and the operator that compares its result with zero. */
  datatype Comparison = Comparison(op: ExprKinds.BinaryOperator, call: RuntimeCall)

  /**
   * EmitIntrinsicCallCharacter with two arguments, for LLE, LLT, LGE and LGT:
   * one runtime comparison of the two values, whose result is compared with
   * zero by the operator that gives the intrinsic's meaning.
   */
  method EmitLexicalComparison(cgf: CodeGenFunction, f: ExprKinds.IntrinsicFunction, a: CharacterValue, b: CharacterValue)
    returns (r: Comparison)
    requires IsLexicalComparison(f)
    modifies cgf
    ensures r.call == LexCompareCall(a, b) && cgf.calls == old(cgf.calls) + [r.call]
    ensures ExprKinds.IsRelational(r.op)
    ensures forall c :: RelationHolds(r.op, c, 0) <==> LexicallyOrdered(f, c)
  {
    cgf.EmitCall(LexCompareCall(a, b));
    r := Comparison(GetLexicalComparisonOp(f), LexCompareCall(a, b));
    forall c {
      LexicalComparisonMeaning(f, c);
    }
  }
}
