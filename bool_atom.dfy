/*
 * Boolean atoms of the experimental flow analysis: integer comparisons
 * `a < b` / `a <= b` between constants and named values, and union tests
 * `id is field` / `id is not field`. A list of atoms stands for their
 * conjunction; TryUnionWith merges two atoms into one where it can.
 *
 * The constructor normalises `<=` against a constant into `<` by moving the
 * constant by one. IBoolAtom.cs does this in unchecked 32-bit arithmetic;
 * `exact` selects unbounded arithmetic instead.
 */
module BoolAtoms {
  import Int32

  datatype Argument = Constant(value: int) | Named(name: string)

  datatype ComparisonKind = LessThan | LessThanOrEqualTo

  datatype Atom =
    | Comparison(arg1: Argument, arg2: Argument, op: ComparisonKind)
    | UnionIs(isPositive: bool, identifier: string, unionField: string)

  /** What the named values hold and which field each union currently holds. */
  datatype Env = Env(values: string -> int, tags: string -> string)

  // ---------------------------------------------------------------------
  // Meaning of atoms
  // ---------------------------------------------------------------------

  function Value(a: Argument, env: Env): int {
    match a
    case Constant(v) => v
    case Named(n) => env.values(n)
  }

  predicate Compare(x: int, y: int, op: ComparisonKind) {
    if op == LessThan then x < y else x <= y
  }

  predicate Holds(atom: Atom, env: Env) {
    match atom
    case Comparison(a1, a2, op) => Compare(Value(a1, env), Value(a2, env), op)
    case UnionIs(positive, id, field) => (env.tags(id) == field) == positive
  }

  predicate AllHold(atoms: seq<Atom>, env: Env) {
    forall i :: 0 <= i < |atoms| ==> Holds(atoms[i], env)
  }

  /** A comparison built by the constructor: `<=` only between two named values. */
  predicate Normal(atom: Atom) {
    atom.Comparison? && atom.op == LessThanOrEqualTo ==> atom.arg1.Named? && atom.arg2.Named?
  }

  /** Every constant fits a C# `int`. */
  predicate InRange(atom: Atom) {
    atom.Comparison? ==>
      (atom.arg1.Constant? ==> Int32.InRange(atom.arg1.value)) &&
      (atom.arg2.Constant? ==> Int32.InRange(atom.arg2.value))
  }

  /** `c + d` as the constructor computes it. */
  function Shift(exact: bool, c: int, d: int): (r: int)
    ensures exact ==> r == c + d
    ensures !exact ==> Int32.InRange(r) && (Int32.InRange(c + d) ==> r == c + d)
  {
    if exact then c + d else Int32.Wrap(c + d)
  }

  // ---------------------------------------------------------------------
  // Operations
  // ---------------------------------------------------------------------

  /** The ComparisonAtom constructor: `x <= c` becomes `x < c+1`, `c <= x` becomes `c-1 < x`. */
  function MakeComparison(exact: bool, arg1: Argument, arg2: Argument, op: ComparisonKind): (r: Atom)
    ensures r.Comparison? && Normal(r)
    ensures op == LessThan ==> r == Comparison(arg1, arg2, op)
    ensures !exact && InRange(Comparison(arg1, arg2, op)) ==> InRange(r)
  {
    if op == LessThanOrEqualTo && arg2.Constant? then
      Comparison(arg1, Constant(Shift(exact, arg2.value, 1)), LessThan)
    else if op == LessThanOrEqualTo && arg1.Constant? then
      Comparison(Constant(Shift(exact, arg1.value, -1)), arg2, LessThan)
    else
      Comparison(arg1, arg2, op)
  }

  function Negate(exact: bool, atom: Atom): (r: Atom)
    ensures Normal(r)
    ensures atom.UnionIs? ==> r.UnionIs? && r.isPositive == !atom.isPositive
  {
    match atom
    case Comparison(a1, a2, op) =>
      if op == LessThan then MakeComparison(exact, a2, a1, LessThanOrEqualTo)
      else MakeComparison(exact, a2, a1, LessThan)
    case UnionIs(positive, id, field) => UnionIs(!positive, id, field)
  }

  function Min(a: int, b: int): int { if a <= b then a else b }

  function Max(a: int, b: int): int { if a >= b then a else b }

  /**
   * TryUnionWith. Comparison atoms have no value equality in IBoolAtom.cs, so
   * `identical` says whether `other` is the very same object as `atom`;
   * union atoms compare by value.
   */
  function TryUnionWith(atom: Atom, other: Atom, identical: bool): (r: seq<Atom>)
    requires identical ==> other == atom
    ensures |r| == 1 || r == [atom, other]
  {
    match atom
    case Comparison(a1, a2, _) =>
      if !other.Comparison? then [atom, other]
      else if identical then [atom]
      else if a1 == other.arg1 && a2.Constant? && other.arg2.Constant? then
        [Comparison(a1, Constant(Min(a2.value, other.arg2.value)), LessThan)]
      else if a2 == other.arg2 && a1.Constant? && other.arg1.Constant? then
        [Comparison(Constant(Max(a1.value, other.arg1.value)), a2, LessThan)]
      else [atom, other]
    case UnionIs(_, _, _) =>
      if other.UnionIs? && other == atom then [atom] else [atom, other]
  }

  // ---------------------------------------------------------------------
  // Constructor
  // ---------------------------------------------------------------------

  /** With exact arithmetic the constructor keeps the meaning of the comparison. */
  lemma MakeExact(arg1: Argument, arg2: Argument, op: ComparisonKind, env: Env)
    ensures Holds(MakeComparison(true, arg1, arg2, op), env) <==> Compare(Value(arg1, env), Value(arg2, env), op)
  {
  }

  /** In 32-bit arithmetic the meaning is kept unless the moved constant is the largest or smallest `int`. */
  lemma MakeWrapped(arg1: Argument, arg2: Argument, op: ComparisonKind, env: Env)
    requires arg2.Constant? && op == LessThanOrEqualTo ==> arg2.value != Int32.MaxValue
    requires arg1.Constant? && op == LessThanOrEqualTo ==> arg1.value != Int32.MinValue
    requires arg1.Constant? ==> Int32.InRange(arg1.value)
    requires arg2.Constant? ==> Int32.InRange(arg2.value)
    ensures Holds(MakeComparison(false, arg1, arg2, op), env) <==> Compare(Value(arg1, env), Value(arg2, env), op)
  {
  }

  /** `x <= int.MaxValue`, true of every `int`, is stored as `x < int.MinValue`, true of none. */
  lemma MakeAtMaxWraps(x: string)
    ensures MakeComparison(false, Named(x), Constant(Int32.MaxValue), LessThanOrEqualTo)
         == Comparison(Named(x), Constant(Int32.MinValue), LessThan)
    ensures forall env: Env :: Int32.InRange(env.values(x)) ==>
      Compare(env.values(x), Int32.MaxValue, LessThanOrEqualTo) &&
      !Holds(MakeComparison(false, Named(x), Constant(Int32.MaxValue), LessThanOrEqualTo), env)
  {
  }

  /** Symmetrically, `int.MinValue <= x` is stored as `int.MaxValue < x`. */
  lemma MakeAtMinWraps(x: string)
    ensures MakeComparison(false, Constant(Int32.MinValue), Named(x), LessThanOrEqualTo)
         == Comparison(Constant(Int32.MaxValue), Named(x), LessThan)
    ensures forall env: Env :: Int32.InRange(env.values(x)) ==>
      Compare(Int32.MinValue, env.values(x), LessThanOrEqualTo) &&
      !Holds(MakeComparison(false, Constant(Int32.MinValue), Named(x), LessThanOrEqualTo), env)
  {
  }

  // ---------------------------------------------------------------------
  // Negation
  // ---------------------------------------------------------------------

  /** With exact arithmetic a negated atom holds exactly when the atom does not. */
  lemma NegateExact(atom: Atom, env: Env)
    ensures Holds(Negate(true, atom), env) <==> !Holds(atom, env)
  {
  }

  /** In 32-bit arithmetic, `int.MaxValue < x` (never true) negates to `x < int.MinValue` (never true). */
  lemma NegateAtMaxWraps(x: string)
    ensures Negate(false, Comparison(Constant(Int32.MaxValue), Named(x), LessThan))
         == Comparison(Named(x), Constant(Int32.MinValue), LessThan)
    ensures forall env: Env :: Int32.InRange(env.values(x)) ==>
      !Holds(Comparison(Constant(Int32.MaxValue), Named(x), LessThan), env) &&
      !Holds(Negate(false, Comparison(Constant(Int32.MaxValue), Named(x), LessThan)), env)
  {
  }

  /** Moving a 32-bit constant down and back up (or up and back down) restores it. */
  lemma ShiftBack(exact: bool, c: int)
    requires Int32.InRange(c)
    ensures Shift(exact, Shift(exact, c, -1), 1) == c
    ensures Shift(exact, Shift(exact, c, 1), -1) == c
  {
    if !exact {
      if c == Int32.MinValue {
        assert Shift(false, c, -1) == Int32.MaxValue;
      } else if c == Int32.MaxValue {
        assert Shift(false, c, 1) == Int32.MinValue;
      }
    }
  }

  /**
   * Negating a constructed atom twice gives it back, in either arithmetic,
   * unless both sides are constants (`3 < 5` comes back as `4 < 6`).
   */
  lemma NegateInvolutive(exact: bool, atom: Atom)
    requires Normal(atom) && InRange(atom)
    requires atom.Comparison? ==> atom.arg1.Named? || atom.arg2.Named?
    ensures Negate(exact, Negate(exact, atom)) == atom
  {
    if atom.Comparison? {
      if atom.arg1.Constant? {
        ShiftBack(exact, atom.arg1.value);
      }
      if atom.arg2.Constant? {
        ShiftBack(exact, atom.arg2.value);
      }
    }
  }

  /** A union test negated twice equals the original: negation flips the polarity only. */
  lemma UnionIsDoubleNegation(exact: bool, positive: bool, id: string, field: string)
    ensures Negate(exact, UnionIs(positive, id, field)) == UnionIs(!positive, id, field)
    ensures Negate(exact, Negate(exact, UnionIs(positive, id, field))) == UnionIs(positive, id, field)
    ensures forall env: Env :: Holds(Negate(exact, UnionIs(positive, id, field)), env) <==> !Holds(UnionIs(positive, id, field), env)
  {
  }

  // ---------------------------------------------------------------------
  // Union
  // ---------------------------------------------------------------------

  /** The merged atoms hold together exactly when both atoms hold. */
  lemma UnionSound(atom: Atom, other: Atom, identical: bool, env: Env)
    requires identical ==> other == atom
    requires Normal(atom) && Normal(other)
    ensures AllHold(TryUnionWith(atom, other, identical), env) <==> Holds(atom, env) && Holds(other, env)
    ensures forall i :: 0 <= i < |TryUnionWith(atom, other, identical)| ==> Normal(TryUnionWith(atom, other, identical)[i])
  {
    var r := TryUnionWith(atom, other, identical);
    if |r| == 2 {
      assert AllHold(r, env) <==> Holds(r[0], env) && Holds(r[1], env);
    } else {
      assert AllHold(r, env) <==> Holds(r[0], env);
    }
  }

  /** Two constants: `3 < 5` negates to `5 < 4` and back to `4 < 6`, equivalent but not equal. */
  lemma NegateConstantsDrift(exact: bool)
    ensures Negate(exact, Comparison(Constant(3), Constant(5), LessThan)) == Comparison(Constant(5), Constant(4), LessThan)
    ensures Negate(exact, Negate(exact, Comparison(Constant(3), Constant(5), LessThan))) == Comparison(Constant(4), Constant(6), LessThan)
  {
  }

  /** Two bounds on one value merge into the tighter one: `a < c1`, `a < c2` give `a < min`. */
  lemma UnionUpperBounds(a: Argument, c1: int, c2: int)
    ensures TryUnionWith(Comparison(a, Constant(c1), LessThan), Comparison(a, Constant(c2), LessThan), false)
         == [Comparison(a, Constant(if c1 <= c2 then c1 else c2), LessThan)]
  {
  }

  /** `c1 < b`, `c2 < b` give `max < b`, unless the first arguments already matched. */
  lemma UnionLowerBounds(b: Argument, c1: int, c2: int)
    requires c1 != c2 || b.Named?
    ensures TryUnionWith(Comparison(Constant(c1), b, LessThan), Comparison(Constant(c2), b, LessThan), false)
         == [Comparison(Constant(if c1 >= c2 then c1 else c2), b, LessThan)]
  {
  }

  /** Two equal comparisons that are distinct objects are both kept, comparisons having no value equality. */
  lemma EqualComparisonsBothKept(x: string, y: string)
    ensures TryUnionWith(Comparison(Named(x), Named(y), LessThan), Comparison(Named(x), Named(y), LessThan), false)
         == [Comparison(Named(x), Named(y), LessThan), Comparison(Named(x), Named(y), LessThan)]
    ensures TryUnionWith(Comparison(Named(x), Named(y), LessThan), Comparison(Named(x), Named(y), LessThan), true)
         == [Comparison(Named(x), Named(y), LessThan)]
  {
  }

  /** Union tests merge only when equal; a comparison never merges with a union test. */
  lemma UnionIsMerges(u: Atom, other: Atom)
    requires u.UnionIs?
    ensures TryUnionWith(u, other, false) == if other == u then [u] else [u, other]
    ensures other.Comparison? ==> TryUnionWith(other, u, false) == [other, u]
  {
  }
}
