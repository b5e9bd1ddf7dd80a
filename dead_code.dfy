/*
 * Dead-code elimination on the flattened intermediate form ("Hmm"): the
 * statements of each body are visited last to first, keeping three sets of
 * names — the variables read by anything later, those read since their last
 * later assignment, and those written later — and a statement is dropped
 * when nothing later can observe it.
 *
 * The scanner is specified by the value functions Scan/ScanBody, with a flag
 * `corrected`: false follows the eliminator as written, true is the repaired
 * scanner described in the README findings. The class DeadCodeEliminator is
 * the visitor itself, with its three sets as fields, proved against Scan.
 */
module DeadCode {
  import opened Wrappers
  import opened Decimal

  // ---------------------------------------------------------------------
  // Literals: operands that name no variable
  // ---------------------------------------------------------------------

  const IntMax: nat := 2147483647

  /** A text accepted by a 32-bit signed integer parse: optional sign, digits, in range. */
  predicate IsIntText(s: string) {
    var negative := |s| > 0 && s[0] == '-';
    var digits := if |s| > 0 && (s[0] == '-' || s[0] == '+') then s[1..] else s;
    |digits| > 0 && AllDigits(digits) &&
    DecimalValue(digits) <= (if negative then IntMax + 1 else IntMax)
  }

  function LowerChar(c: char): char {
    if 'A' <= c <= 'Z' then (c as int + 32) as char else c
  }

  function Lower(s: string): (r: string)
    ensures |r| == |s|
    ensures forall i :: 0 <= i < |s| ==> r[i] == LowerChar(s[i])
  {
    seq(|s|, i requires 0 <= i < |s| => LowerChar(s[i]))
  }

  /** A text accepted by a boolean parse, in any letter case. */
  predicate IsBoolText(s: string) {
    Lower(s) == "true" || Lower(s) == "false"
  }

  predicate IsLiteral(v: string) {
    IsIntText(v) || IsBoolText(v) || v == "void"
  }

  lemma LiteralExamples()
    ensures IsLiteral("-12") && IsLiteral("+7") && IsLiteral("TRUE") && IsLiteral("void")
    ensures !IsLiteral("-") && !IsLiteral("x")
  {
    assert "-12"[1..] == "12" && "12"[..1] == "1";
    assert DecimalValue("12") == 12;
    assert "+7"[1..] == "7";
    assert Lower("TRUE") == "true";
    assert Lower("x") == "x";
    assert !IsDigit("x"[0]);
  }

  // ---------------------------------------------------------------------
  // Syntax
  // ---------------------------------------------------------------------

  /** The statements that compute a result from operands (their operands in visiting order). */
  datatype ExpressionKind =
    | AddressOf | ArrayLiteral | As | Binary | Dereference | Index
    | Invoke | Is | MemberAccess | New | Unary | VariableStatement

  datatype DeclarationKind = ForwardDeclaration | StructDeclaration | TypeDeclaration | UnionDeclaration

  datatype HmmSyntax =
    | Expression(kind: ExpressionKind, result: string, operands: seq<string>)
    | Assignment(variable: string, value: string)
    | Break
    | Continue
    | FunctionDeclaration(name: string, body: seq<HmmSyntax>)
    | Declaration(declared: DeclarationKind, name: string)
    | IfExpression(condition: string, result: string, affirmative: string, negative: string,
                   affirmativeBody: seq<HmmSyntax>, negativeBody: seq<HmmSyntax>)
    | Loop(body: seq<HmmSyntax>)
    | Return(operand: string)

  // ---------------------------------------------------------------------
  // The scanner's state and its specification
  // ---------------------------------------------------------------------

  datatype Usage = Usage(used: set<string>, usedSince: set<string>, written: set<string>)

  const Empty := Usage({}, {}, {})

  /** Reading `v`: literals are ignored. */
  function Use(u: Usage, v: string): Usage {
    if IsLiteral(v) then u else u.(used := u.used + {v}, usedSince := u.usedSince + {v})
  }

  function UseAll(u: Usage, vs: seq<string>): Usage
    decreases |vs|
  {
    if vs == [] then u else UseAll(Use(u, vs[0]), vs[1..])
  }

  function NonLiterals(vs: seq<string>): set<string> {
    set v | v in vs && !IsLiteral(v)
  }

  /** Reads `vs` only when the result `r` is needed later. */
  function UseIfNeeded(u: Usage, r: string, vs: seq<string>): Usage {
    if r in u.used then UseAll(u, vs) else u
  }

  /** Writing `x`: reads of `x` further on no longer see an earlier value. */
  function Overwrite(u: Usage, x: string): Usage {
    u.(usedSince := u.usedSince - {x}, written := u.written + {x})
  }

  /** A break or continue leaves the straight line: the corrected scanner forgets later writes. */
  function Interrupt(corrected: bool, u: Usage): Usage {
    if corrected then u.(written := {}) else u
  }

  /** The state before an if whose branches were scanned separately. */
  function Join(yes: Usage, no: Usage): Usage {
    Usage(yes.used + no.used, yes.usedSince + no.usedSince, yes.written * no.written)
  }

  function Keep(o: Option<HmmSyntax>): seq<HmmSyntax> {
    if o.Some? then [o.value] else []
  }

  /** Visits one statement given the state of everything after it. */
  function Scan(corrected: bool, u: Usage, s: HmmSyntax): (Usage, Option<HmmSyntax>)
    decreases s
  {
    match s
    case Expression(_, result, operands) =>
      if result in u.used then (UseAll(u, operands), Some(s)) else (u, None)
    case Assignment(x, v) =>
      if x in u.written && x !in u.usedSince then (u, None)
      else (Overwrite(Use(Use(u, x), v), x), Some(s))
    case Break => (Interrupt(corrected, u), Some(s))
    case Continue => (Interrupt(corrected, u), Some(s))
    case FunctionDeclaration(name, body) =>
      var (u', kept) := ScanBody(corrected, u, body);
      (u', Some(FunctionDeclaration(name, kept)))
    case Declaration(_, _) => (u, Some(s))
    case IfExpression(c, r, a, n, yes, no) =>
      if corrected then
        if yes == [] && no == [] && r !in u.used then (u, None)
        else
          var (uy, yes') := ScanBody(true, UseIfNeeded(u, r, [a]), yes);
          var (un, no') := ScanBody(true, UseIfNeeded(u, r, [n]), no);
          (Use(Join(uy, un), c), Some(IfExpression(c, r, a, n, yes', no')))
      else if yes == [] && no == [] then (u, None)
      else
        var (uy, yes') := ScanBody(false, UseIfNeeded(Use(u, c), r, [a, n]), yes);
        var (un, no') := ScanBody(false, uy, no);
        (un, Some(IfExpression(c, r, a, n, yes', no')))
    case Loop(body) =>
      var (u', kept) := ScanBody(corrected, if corrected then u.(written := {}) else u, body);
      (u', Some(Loop(kept)))
    case Return(x) => (Use(u, x), Some(s))
  }

  /** Visits a body last to first; the kept statements stay in their order. */
  function ScanBody(corrected: bool, u: Usage, body: seq<HmmSyntax>): (Usage, seq<HmmSyntax>)
    decreases body
  {
    if body == [] then (u, [])
    else
      var (u', rest) := ScanBody(corrected, u, body[1..]);
      var (u'', first) := Scan(corrected, u', body[0]);
      (u'', Keep(first) + rest)
  }

  // ---------------------------------------------------------------------
  // The visitor
  // ---------------------------------------------------------------------

  class DeadCodeEliminator {
    const corrected: bool
    var usedVariables: set<string>
    var usedSinceAssignment: set<string>
    var assignmentsTo: set<string>

    function State(): Usage
      reads this
    {
      Usage(usedVariables, usedSinceAssignment, assignmentsTo)
    }

    constructor (corrected: bool)
      ensures this.corrected == corrected && State() == Empty
    {
      this.corrected := corrected;
      usedVariables := {};
      usedSinceAssignment := {};
      assignmentsTo := {};
    }

    method Restore(u: Usage)
      modifies this
      ensures State() == u
    {
      usedVariables := u.used;
      usedSinceAssignment := u.usedSince;
      assignmentsTo := u.written;
    }

    method UseVariable(value: string)
      modifies this
      ensures State() == Use(old(State()), value)
    {
      if !IsLiteral(value) {
        usedVariables := usedVariables + {value};
        usedSinceAssignment := usedSinceAssignment + {value};
      }
    }

    method UseEach(values: seq<string>)
      modifies this
      ensures State() == UseAll(old(State()), values)
    {
      for i := 0 to |values|
        invariant UseAll(State(), values[i..]) == UseAll(old(State()), values)
      {
        assert values[i..][1..] == values[i + 1..];
        UseVariable(values[i]);
      }
    }

    method VisitExpression(s: HmmSyntax) returns (r: Option<HmmSyntax>)
      requires s.Expression?
      modifies this
      ensures (State(), r) == Scan(corrected, old(State()), s)
    {
      if s.result !in usedVariables {
        return None;
      }
      UseEach(s.operands);
      return Some(s);
    }

    method VisitAssignment(s: HmmSyntax) returns (r: Option<HmmSyntax>)
      requires s.Assignment?
      modifies this
      ensures (State(), r) == Scan(corrected, old(State()), s)
    {
      if s.variable in assignmentsTo && s.variable !in usedSinceAssignment {
        return None;
      }
      UseVariable(s.variable);
      UseVariable(s.value);
      usedSinceAssignment := usedSinceAssignment - {s.variable};
      assignmentsTo := assignmentsTo + {s.variable};
      return Some(s);
    }

    method VisitInterrupt(s: HmmSyntax) returns (r: Option<HmmSyntax>)
      requires s.Break? || s.Continue?
      modifies this
      ensures (State(), r) == Scan(corrected, old(State()), s)
    {
      if corrected {
        assignmentsTo := {};
      }
      return Some(s);
    }

    method VisitFunctionDeclaration(s: HmmSyntax) returns (r: Option<HmmSyntax>)
      requires s.FunctionDeclaration?
      modifies this
      ensures (State(), r) == Scan(corrected, old(State()), s)
      decreases s, 1
    {
      var kept := VisitBody(s.body);
      return Some(FunctionDeclaration(s.name, kept));
    }

    method VisitIfExpression(s: HmmSyntax) returns (r: Option<HmmSyntax>)
      requires s.IfExpression?
      modifies this
      ensures (State(), r) == Scan(corrected, old(State()), s)
      decreases s, 1
    {
      var yes, no := s.affirmativeBody, s.negativeBody;
      if corrected {
        if yes == [] && no == [] && s.result !in usedVariables {
          return None;
        }
        var after := State();
        if s.result in usedVariables {
          UseEach([s.affirmative]);
        }
        var yes' := VisitBody(yes);
        var whenYes := State();
        Restore(after);
        if s.result in usedVariables {
          UseEach([s.negative]);
        }
        var no' := VisitBody(no);
        Restore(Join(whenYes, State()));
        UseVariable(s.condition);
        return Some(IfExpression(s.condition, s.result, s.affirmative, s.negative, yes', no'));
      }
      if yes == [] && no == [] {
        return None;
      }
      UseVariable(s.condition);
      if s.result in usedVariables {
        UseEach([s.affirmative, s.negative]);
      }
      var yes' := VisitBody(yes);
      var no' := VisitBody(no);
      return Some(IfExpression(s.condition, s.result, s.affirmative, s.negative, yes', no'));
    }

    method VisitLoop(s: HmmSyntax) returns (r: Option<HmmSyntax>)
      requires s.Loop?
      modifies this
      ensures (State(), r) == Scan(corrected, old(State()), s)
      decreases s, 1
    {
      if corrected {
        assignmentsTo := {};
      }
      var kept := VisitBody(s.body);
      return Some(Loop(kept));
    }

    method VisitReturn(s: HmmSyntax) returns (r: Option<HmmSyntax>)
      requires s.Return?
      modifies this
      ensures (State(), r) == Scan(corrected, old(State()), s)
    {
      UseVariable(s.operand);
      return Some(s);
    }

    /** Dispatches on the statement, as the visitor's Accept does. */
    method Visit(s: HmmSyntax) returns (r: Option<HmmSyntax>)
      modifies this
      ensures (State(), r) == Scan(corrected, old(State()), s)
      decreases s, 2
    {
      match s
      case Expression(_, _, _) => r := VisitExpression(s);
      case Assignment(_, _) => r := VisitAssignment(s);
      case Break => r := VisitInterrupt(s);
      case Continue => r := VisitInterrupt(s);
      case FunctionDeclaration(_, _) => r := VisitFunctionDeclaration(s);
      case Declaration(_, _) => r := Some(s);
      case IfExpression(_, _, _, _, _, _) => r := VisitIfExpression(s);
      case Loop(_) => r := VisitLoop(s);
      case Return(_) => r := VisitReturn(s);
    }

    /** Visits the statements last to first and keeps the survivors in order. */
    method VisitBody(body: seq<HmmSyntax>) returns (kept: seq<HmmSyntax>)
      modifies this
      ensures (State(), kept) == ScanBody(corrected, old(State()), body)
      decreases body, 3
    {
      var i := |body|;
      kept := [];
      while i > 0
        invariant 0 <= i <= |body|
        invariant (State(), kept) == ScanBody(corrected, old(State()), body[i..])
      {
        i := i - 1;
        assert body[i..][1..] == body[i + 1..];
        var r := Visit(body[i]);
        kept := Keep(r) + kept;
      }
    }
  }
}
