/** The C expression syntax of src/helix/Generation/Syntax/Expressions.cs and
    how each node prints. A node whose operation is missing throws when
    printed, and so does a cancelled `(&` or `(*` prefix too short to strip;
    both become a `Failure`. The printer takes a flag: `false` is the
    program as written, which cancels `*&` and `&*` by looking at the
    printed text, `true` is the corrected printer, which cancels them by
    looking at the syntax tree. */
module CExpressions {
  import opened Wrappers
  import Decimal

  datatype BinaryOperationKind =
    | Add | Subtract | Multiply | Modulo | FloorDivide
    | And | Or | Xor
    | EqualTo | NotEqualTo
    | GreaterThan | LessThan
    | GreaterThanOrEqualTo | LessThanOrEqualTo

  datatype CSyntax =
    | CIntLiteral(value: int)
    | CRegionAllocExpression(typ: CSyntax, lifetime: CSyntax, amount: int)
    | CIndexExpression(target: CSyntax, index: CSyntax)
    | CCompoundExpression(arguments: seq<CSyntax>, typ: CSyntax)
    | CBinaryExpression(left: CSyntax, right: CSyntax, operation: Option<BinaryOperationKind>)
    | CTernaryExpression(condition: CSyntax, positive: CSyntax, negative: CSyntax)
    | CVariableLiteral(name: string)
    | CPointerDereference(target: CSyntax)
    | CNot(target: CSyntax)
    | CAddressOf(target: CSyntax)
    | CInvoke(target: CSyntax, arguments: seq<CSyntax>)
    | CSizeof(target: CSyntax)
    | CStringLiteral(text: string)
    | CMemberAccess(target: CSyntax, memberName: string, isPointerAccess: bool)
    | CCast(typ: CSyntax, target: CSyntax)

  datatype SyntaxError = MissingOperation | SubstringOutOfRange

  /** `int.ToString()`. */
  function IntText(v: int): string {
    if v < 0 then "-" + Decimal.NatToString(-v) else Decimal.NatToString(v)
  }

  /** Reading back a printed integer. */
  function IntValue(s: string): int
    requires |s| > 0
    requires if s[0] == '-' then Decimal.AllDigits(s[1..]) else Decimal.AllDigits(s)
  {
    if s[0] == '-' then 0 - Decimal.DecimalValue(s[1..]) else Decimal.DecimalValue(s)
  }

  /** The C spelling of an operation; the logical connectives print as the
      bitwise ones. */
  function OperatorText(op: BinaryOperationKind): string {
    match op
    case Add => "+"
    case And => "&"
    case EqualTo => "=="
    case GreaterThan => ">"
    case GreaterThanOrEqualTo => ">="
    case LessThan => "<"
    case LessThanOrEqualTo => "<="
    case Multiply => "*"
    case NotEqualTo => "!="
    case Or => "|"
    case Subtract => "-"
    case Xor => "^"
    case Modulo => "%"
    case FloorDivide => "/"
  }

  predicate StartsWith(s: string, prefix: string) {
    |prefix| <= |s| && s[..|prefix|] == prefix
  }

  /** `string.Join(sep, parts)`. */
  function Join(sep: string, parts: seq<string>): string {
    if parts == [] then ""
    else if |parts| == 1 then parts[0]
    else parts[0] + sep + Join(sep, parts[1..])
  }

  /** `target.Substring(2, target.Length - 3)`: drops a two-character prefix
      and the last character, and throws on a text shorter than three. */
  function StripPrefix(t: string): Result<string, SyntaxError> {
    if |t| >= 3 then Success(t[2..|t| - 1]) else Failure(SubstringOutOfRange)
  }

  /** The text of a region allocation of `amount` values of type `t` from
      region `l`. */
  function RegionAllocText(t: string, l: string, amount: int): string {
    "(" + t + "*)_region_malloc(" + l + ", " + Multiplier(amount) + "sizeof(" + t + "))"
  }

  function BinaryText(l: string, op: BinaryOperationKind, r: string): string {
    "(" + l + " " + OperatorText(op) + " " + r + ")"
  }

  function MemberAccessText(t: string, memberName: string, isPointerAccess: bool): string {
    "(" + t + (if isPointerAccess then "->" else ".") + memberName + ")"
  }

  /** WriteToC of each node. */
  function WriteToC(e: CSyntax, structural: bool): Result<string, SyntaxError>
    decreases e
  {
    match e
    case CIntLiteral(v) => Success(IntText(v) + "U")
    case CRegionAllocExpression(typ, lifetime, amount) =>
      var t :- WriteToC(typ, structural);
      var l :- WriteToC(lifetime, structural);
      Success(RegionAllocText(t, l, amount))
    case CIndexExpression(target, index) =>
      var t :- WriteToC(target, structural);
      var i :- WriteToC(index, structural);
      Success(t + "[" + i + "]")
    case CCompoundExpression(arguments, typ) =>
      var args :- WriteAll(arguments, structural);
      var t :- WriteToC(typ, structural);
      Success("(" + t + "){ " + Join(", ", args) + " }")
    case CBinaryExpression(left, right, operation) =>
      if operation.None? then Failure(MissingOperation)
      else
        var l :- WriteToC(left, structural);
        var r :- WriteToC(right, structural);
        Success(BinaryText(l, operation.value, r))
    case CTernaryExpression(condition, positive, negative) =>
      var c :- WriteToC(condition, structural);
      var p :- WriteToC(positive, structural);
      var n :- WriteToC(negative, structural);
      Success("(" + c + " ? " + p + " : " + n + ")")
    case CVariableLiteral(name) => Success(name)
    case CPointerDereference(target) =>
      if structural && target.CAddressOf? then WriteToC(target.target, structural)
      else
        var t :- WriteToC(target, structural);
        if !structural && StartsWith(t, "(&") then StripPrefix(t) else Success("(*" + t + ")")
    case CNot(target) =>
      var t :- WriteToC(target, structural);
      Success("!" + t)
    case CAddressOf(target) =>
      if structural && target.CPointerDereference? then WriteToC(target.target, structural)
      else
        var t :- WriteToC(target, structural);
        if !structural && StartsWith(t, "(*") then StripPrefix(t) else Success("(&" + t + ")")
    case CInvoke(target, arguments) =>
      var args :- WriteAll(arguments, structural);
      var t :- WriteToC(target, structural);
      Success(t + "(" + Join(", ", args) + ")")
    case CSizeof(target) =>
      var t :- WriteToC(target, structural);
      Success("sizeof(" + t + ")")
    case CStringLiteral(text) => Success("\"" + text + "\"")
    case CMemberAccess(target, memberName, isPointerAccess) =>
      var t :- WriteToC(target, structural);
      Success(MemberAccessText(t, memberName, isPointerAccess))
    case CCast(typ, target) =>
      var t :- WriteToC(typ, structural);
      var x :- WriteToC(target, structural);
      Success("(" + t + ")" + x)
  }

  /** The printed arguments, or the first failure. */
  function WriteAll(args: seq<CSyntax>, structural: bool): Result<seq<string>, SyntaxError>
    decreases args
  {
    if args == [] then Success([])
    else
      var first :- WriteToC(args[0], structural);
      var rest :- WriteAll(args[1..], structural);
      Success([first] + rest)
  }

  /** Printing the program as written. */
  function Print(e: CSyntax): Result<string, SyntaxError> {
    WriteToC(e, false)
  }

  /** Printing with the cancellation decided on the syntax tree. */
  function PrintStructural(e: CSyntax): Result<string, SyntaxError> {
    WriteToC(e, true)
  }

  /** Reading back a printed integer gives the integer. */
  lemma IntTextRoundTrip(v: int)
    ensures |IntText(v)| > 0
    ensures var s := IntText(v);
      (if s[0] == '-' then Decimal.AllDigits(s[1..]) else Decimal.AllDigits(s)) && IntValue(s) == v
  {
    var s := IntText(v);
    if v < 0 {
      assert s[1..] == Decimal.NatToString(-v);
      Decimal.DecimalValueOfNatToString(-v);
    } else {
      assert Decimal.IsDigit(s[0]);
      Decimal.DecimalValueOfNatToString(v);
    }
  }

  /** Distinct integer literals print differently, each with the `U`
      suffix. */
  lemma IntLiteralInjective(m: int, n: int)
    ensures Print(CIntLiteral(m)).Success?
    ensures Print(CIntLiteral(m)).value[|Print(CIntLiteral(m)).value| - 1] == 'U'
    ensures Print(CIntLiteral(m)) == Print(CIntLiteral(n)) ==> m == n
  {
    if Print(CIntLiteral(m)) == Print(CIntLiteral(n)) {
      var a, b := IntText(m), IntText(n);
      assert a + "U" == b + "U";
      assert a == (a + "U")[..|a|];
      assert b == (b + "U")[..|b|];
      IntTextRoundTrip(m);
      IntTextRoundTrip(n);
    }
  }

  /** Dereferencing what prints as `(&x)` prints `x`. */
  lemma DereferenceStrips(e: CSyntax, x: string)
    requires Print(e) == Success("(&" + x + ")")
    ensures Print(CPointerDereference(e)) == Success(x)
  {
    var t := "(&" + x + ")";
    assert t[..2] == "(&";
    assert t[2..|t| - 1] == x;
  }

  /** Taking the address of what prints as `(*x)` prints `x`. */
  lemma AddressOfStrips(e: CSyntax, x: string)
    requires Print(e) == Success("(*" + x + ")")
    ensures Print(CAddressOf(e)) == Success(x)
  {
    var t := "(*" + x + ")";
    assert t[..2] == "(*";
    assert t[2..|t| - 1] == x;
  }

  /** `*&e` prints as `e` unless `e` already prints with a `(*` prefix. */
  lemma DereferenceOfAddressOf(e: CSyntax)
    requires Print(e).Success? && !StartsWith(Print(e).value, "(*")
    ensures Print(CPointerDereference(CAddressOf(e))) == Print(e)
  {
    DereferenceStrips(CAddressOf(e), Print(e).value);
  }

  /** `&*e` prints as `e` unless `e` already prints with a `(&` prefix. */
  lemma AddressOfDereference(e: CSyntax)
    requires Print(e).Success? && !StartsWith(Print(e).value, "(&")
    ensures Print(CAddressOf(CPointerDereference(e))) == Print(e)
  {
    AddressOfStrips(CPointerDereference(e), Print(e).value);
  }

  /** The printed-text test also fires on an index into an address: the
      dereference of `(&a)[0U]` prints as `a)[0U`, not as `(*(&a)[0U])`. */
  lemma IndexedAddressMisprints()
    ensures Print(CPointerDereference(CIndexExpression(CAddressOf(CVariableLiteral("a")), CIntLiteral(0))))
      == Success("a)[0U")
  {
    var zero, a := CIntLiteral(0), CVariableLiteral("a");
    assert IntText(0) + "U" == "0U";
    assert Print(zero) == WriteToC(zero, false) == Success("0U");
    assert Print(a) == WriteToC(a, false) == Success("a");
    assert "(&" + "a" + ")" == "(&a)";
    assert Print(CAddressOf(a)) == WriteToC(CAddressOf(a), false) == Success("(&a)");
    var t := "(&a)" + "[" + "0U" + "]";
    assert Print(CIndexExpression(CAddressOf(a), zero)) == WriteToC(CIndexExpression(CAddressOf(a), zero), false) == Success(t);
    assert StartsWith(t, "(&");
    assert t[2..|t| - 1] == "a)[0U";
  }

  /** The structural printer dereferences the indexed address. */
  lemma IndexedAddressStructural()
    ensures PrintStructural(CPointerDereference(CIndexExpression(CAddressOf(CVariableLiteral("a")), CIntLiteral(0))))
      == Success("(*(&a)[0U])")
  {
    var zero, a := CIntLiteral(0), CVariableLiteral("a");
    assert IntText(0) + "U" == "0U";
    assert PrintStructural(zero) == WriteToC(zero, true) == Success("0U");
    assert PrintStructural(a) == WriteToC(a, true) == Success("a");
    assert "(&" + "a" + ")" == "(&a)";
    assert PrintStructural(CAddressOf(a)) == WriteToC(CAddressOf(a), true) == Success("(&a)");
    var t := "(&a)" + "[" + "0U" + "]";
    var e := CIndexExpression(CAddressOf(a), zero);
    assert PrintStructural(e) == WriteToC(e, true) == Success(t);
    assert WriteToC(CPointerDereference(e), true) == Success("(*" + t + ")");
    assert "(*" + t + ")" == "(*(&a)[0U])";
  }

  /** An invocation prints its arguments before its target: when both
      throw, the argument's exception is the one raised. */
  lemma InvokeArgumentsFirst()
    ensures Print(CInvoke(CBinaryExpression(CVariableLiteral("a"), CVariableLiteral("b"), None),
                          [CAddressOf(CVariableLiteral("(*"))]))
      == Failure(SubstringOutOfRange)
  {
    var arg := CAddressOf(CVariableLiteral("(*"));
    assert WriteToC(CVariableLiteral("(*"), false) == Success("(*");
    assert WriteToC(arg, false) == Failure(SubstringOutOfRange);
    assert WriteAll([arg], false) == Failure(SubstringOutOfRange);
  }

  /** With the structural printer `*&e` and `&*e` always print as `e`. */
  lemma StructuralCancels(e: CSyntax)
    ensures PrintStructural(CPointerDereference(CAddressOf(e))) == PrintStructural(e)
    ensures PrintStructural(CAddressOf(CPointerDereference(e))) == PrintStructural(e)
  {
  }

  /** Trees without a dereference or an address-of. */
  predicate PointerFree(e: CSyntax)
    decreases e
  {
    match e
    case CPointerDereference(_) => false
    case CAddressOf(_) => false
    case CIntLiteral(_) => true
    case CVariableLiteral(_) => true
    case CStringLiteral(_) => true
    case CRegionAllocExpression(typ, lifetime, _) => PointerFree(typ) && PointerFree(lifetime)
    case CIndexExpression(target, index) => PointerFree(target) && PointerFree(index)
    case CCompoundExpression(arguments, typ) => AllPointerFree(arguments) && PointerFree(typ)
    case CBinaryExpression(left, right, _) => PointerFree(left) && PointerFree(right)
    case CTernaryExpression(c, p, n) => PointerFree(c) && PointerFree(p) && PointerFree(n)
    case CNot(target) => PointerFree(target)
    case CInvoke(target, arguments) => PointerFree(target) && AllPointerFree(arguments)
    case CSizeof(target) => PointerFree(target)
    case CMemberAccess(target, _, _) => PointerFree(target)
    case CCast(typ, target) => PointerFree(typ) && PointerFree(target)
  }

  predicate AllPointerFree(args: seq<CSyntax>)
    decreases args
  {
    args == [] || (PointerFree(args[0]) && AllPointerFree(args[1..]))
  }

  /** The two printers differ only where pointers are cancelled. */
  lemma {:induction false} PrintersAgree(e: CSyntax)
    requires PointerFree(e)
    ensures Print(e) == PrintStructural(e)
    decreases e
  {
    match e
    case CIntLiteral(_) =>
    case CVariableLiteral(_) =>
    case CStringLiteral(_) =>
    case CRegionAllocExpression(typ, lifetime, _) =>
      PrintersAgree(typ);
      PrintersAgree(lifetime);
    case CIndexExpression(target, index) =>
      PrintersAgree(target);
      PrintersAgree(index);
    case CCompoundExpression(arguments, typ) =>
      PrintersAgreeAll(arguments);
      PrintersAgree(typ);
    case CBinaryExpression(left, right, _) =>
      PrintersAgree(left);
      PrintersAgree(right);
    case CTernaryExpression(c, p, n) =>
      PrintersAgree(c);
      PrintersAgree(p);
      PrintersAgree(n);
    case CNot(target) =>
      PrintersAgree(target);
    case CInvoke(target, arguments) =>
      PrintersAgree(target);
      PrintersAgreeAll(arguments);
    case CSizeof(target) =>
      PrintersAgree(target);
    case CMemberAccess(target, _, _) =>
      PrintersAgree(target);
    case CCast(typ, target) =>
      PrintersAgree(typ);
      PrintersAgree(target);
  }

  lemma {:induction false} PrintersAgreeAll(args: seq<CSyntax>)
    requires AllPointerFree(args)
    ensures WriteAll(args, false) == WriteAll(args, true)
    decreases args
  {
    if args != [] {
      PrintersAgree(args[0]);
      PrintersAgreeAll(args[1..]);
    }
  }

  /** Different operations print differently. */
  lemma OperatorTextInjective(a: BinaryOperationKind, b: BinaryOperationKind)
    ensures OperatorText(a) == OperatorText(b) ==> a == b
    ensures 1 <= |OperatorText(a)| <= 2 && OperatorText(a)[0] != ' '
    ensures |OperatorText(a)| == 2 ==> OperatorText(a)[1] == '='
  {
  }

  /** The text of a binary expression is parenthesised and determines its
      operation. */
  lemma BinaryTextDeterminesOperation(l: string, r: string, a: BinaryOperationKind, b: BinaryOperationKind)
    ensures var t := BinaryText(l, a, r); |t| >= 2 && t[0] == '(' && t[|t| - 1] == ')'
    ensures BinaryText(l, a, r) == BinaryText(l, b, r) ==> a == b
  {
    var x, y := OperatorText(a), OperatorText(b);
    var prefix := "(" + l + " ";
    var s, s' := BinaryText(l, a, r), BinaryText(l, b, r);
    assert s == prefix + x + " " + r + ")";
    assert s' == prefix + y + " " + r + ")";
    if s == s' {
      OperatorTextInjective(a, b);
      OperatorTextInjective(b, a);
      assert s[|prefix|] == x[0] && s'[|prefix|] == y[0];
      assert s[|prefix| + 1] == (if |x| == 2 then x[1] else ' ');
      assert s'[|prefix| + 1] == (if |y| == 2 then y[1] else ' ');
      assert x == s[|prefix|..|prefix| + |x|];
      assert y == s'[|prefix|..|prefix| + |y|];
    }
  }

  /** A binary expression without an operation throws; with one, it prints
      its operands around the operation's text. */
  lemma BinaryPrints(left: CSyntax, right: CSyntax, op: BinaryOperationKind)
    ensures Print(CBinaryExpression(left, right, None)) == Failure(MissingOperation)
    ensures Print(left).Success? && Print(right).Success? ==>
      Print(CBinaryExpression(left, right, Some(op))) == Success(BinaryText(Print(left).value, op, Print(right).value))
  {
  }

  /** Member access is parenthesised, and prints `->` exactly when it is a
      pointer access. */
  lemma MemberAccessArrow(t: string, memberName: string, isPointerAccess: bool)
    ensures var s := MemberAccessText(t, memberName, isPointerAccess);
      && s[0] == '(' && s[|s| - 1] == ')'
      && (s[|t| + 1] == '-' <==> isPointerAccess)
      && (isPointerAccess ==> s[|t| + 1..|t| + 3] == "->")
    ensures MemberAccessText(t, memberName, true) != MemberAccessText(t, memberName, false)
  {
    var s1 := "(" + t + "->" + memberName + ")";
    var s2 := "(" + t + "." + memberName + ")";
    assert s1[|t| + 1] == '-' && s2[|t| + 1] == '.';
    assert s1[|t| + 1..|t| + 3] == "->";
  }

  /** A region allocation of one value prints no multiplier. */
  lemma RegionAllocSingle(t: string, l: string)
    ensures RegionAllocText(t, l, 1) == "(" + t + "*)_region_malloc(" + l + ", sizeof(" + t + "))"
  {
    var prefix := "(" + t + "*)_region_malloc(" + l + ", ";
    var suffix := "sizeof(" + t + "))";
    assert RegionAllocText(t, l, 1) == prefix + "" + suffix;
    assert prefix + "" == prefix;
  }

  /** What lies between a common prefix and suffix is determined. */
  lemma Between(prefix: string, x: string, y: string, suffix: string)
    requires prefix + x + suffix == prefix + y + suffix
    ensures x == y
  {
    var a := prefix + x + suffix;
    assert |x| == |y|;
    assert x == a[|prefix|..|prefix| + |x|];
  }

  /** The multiplier of a region allocation, empty for one value. */
  function Multiplier(amount: int): string {
    if amount == 1 then "" else IntText(amount) + " * "
  }

  /** The amount of a region allocation can be read off its text. */
  lemma RegionAllocAmount(t: string, l: string, m: int, n: int)
    ensures RegionAllocText(t, l, m) == RegionAllocText(t, l, n) ==> m == n
  {
    var prefix := "(" + t + "*)_region_malloc(" + l + ", ";
    var suffix := "sizeof(" + t + "))";
    var ma, mb := Multiplier(m), Multiplier(n);
    assert RegionAllocText(t, l, m) == prefix + ma + suffix;
    assert RegionAllocText(t, l, n) == prefix + mb + suffix;
    if RegionAllocText(t, l, m) == RegionAllocText(t, l, n) {
      Between(prefix, ma, mb, suffix);
      IntTextRoundTrip(m);
      IntTextRoundTrip(n);
      if m != 1 && n != 1 {
        assert IntText(m) == ma[..|ma| - 3];
        assert IntText(n) == mb[..|mb| - 3];
      }
    }
  }
}
