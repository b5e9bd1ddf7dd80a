/*
 * What the dead-code scanner keeps and drops, how its state evolves, and the
 * four places where the scanner as written drops a statement a later one
 * still observes, each next to the property the corrected scanner has.
 */
module DeadCodeProperties {
  import opened Wrappers
  import opened DeadCode

  // ---------------------------------------------------------------------
  // Reading operands
  // ---------------------------------------------------------------------

  lemma {:induction false} UseAllAdds(u: Usage, vs: seq<string>)
    ensures UseAll(u, vs) == u.(used := u.used + NonLiterals(vs), usedSince := u.usedSince + NonLiterals(vs))
    decreases |vs|
  {
    if vs != [] {
      UseAllAdds(Use(u, vs[0]), vs[1..]);
      NonLiteralsCons(vs);
    }
  }

  lemma NonLiteralsCons(vs: seq<string>)
    requires vs != []
    ensures NonLiterals(vs) == (if IsLiteral(vs[0]) then {} else {vs[0]}) + NonLiterals(vs[1..])
  {
    forall v ensures v in NonLiterals(vs) <==> v in (if IsLiteral(vs[0]) then {} else {vs[0]}) + NonLiterals(vs[1..]) {
      if v in vs && v != vs[0] {
        var i :| 0 <= i < |vs| && vs[i] == v;
        assert vs[1..][i - 1] == v;
      }
    }
  }

  // ---------------------------------------------------------------------
  // One statement at a time
  // ---------------------------------------------------------------------

  /** An expression survives exactly when its result is read later; then its operands are read. */
  lemma ExpressionRule(corrected: bool, u: Usage, k: ExpressionKind, r: string, operands: seq<string>)
    ensures var (u', o) := Scan(corrected, u, Expression(k, r, operands));
      && (o == None <==> r !in u.used)
      && (o == None ==> u' == u)
      && (o != None ==> o == Some(Expression(k, r, operands)))
      && (o != None ==> u' == u.(used := u.used + NonLiterals(operands), usedSince := u.usedSince + NonLiterals(operands)))
  {
    UseAllAdds(u, operands);
  }

  /** An assignment is dropped exactly when the variable is written again later before any read. */
  lemma AssignmentRule(corrected: bool, u: Usage, x: string, v: string)
    ensures var (u', o) := Scan(corrected, u, Assignment(x, v));
      && (o == None <==> x in u.written && x !in u.usedSince)
      && (o == None ==> u' == u)
      && (o != None ==> x in u'.written && x !in u'.usedSince && (!IsLiteral(x) ==> x in u'.used))
      && (o != None && v != x && !IsLiteral(v) ==> v in u'.used && v in u'.usedSince)
  {
  }

  /** Control transfers, declarations and returns are never removed; a return reads its operand. */
  lemma AlwaysKept(corrected: bool, u: Usage, s: HmmSyntax)
    requires s.Break? || s.Continue? || s.Declaration? || s.Return?
    ensures Scan(corrected, u, s).1 == Some(s)
    ensures s.Return? && !IsLiteral(s.operand) ==> s.operand in Scan(corrected, u, s).0.usedSince
  {
  }

  /** As written, an if is dropped exactly when both of its bodies are empty. */
  lemma AsWrittenIfDropped(u: Usage, c: string, r: string, a: string, n: string, yes: seq<HmmSyntax>, no: seq<HmmSyntax>)
    ensures Scan(false, u, IfExpression(c, r, a, n, yes, no)).1 == None <==> yes == [] && no == []
  {
  }

  /** Corrected, an if is dropped exactly when both bodies are empty and its result is not read later. */
  lemma CorrectedIfDropped(u: Usage, c: string, r: string, a: string, n: string, yes: seq<HmmSyntax>, no: seq<HmmSyntax>)
    ensures Scan(true, u, IfExpression(c, r, a, n, yes, no)).1 == None <==> yes == [] && no == [] && r !in u.used
  {
  }

  // ---------------------------------------------------------------------
  // Invariants of the scan
  // ---------------------------------------------------------------------

  /** Whatever is read later stays read: the used set only grows while scanning backwards. */
  lemma {:induction false} ScanGrows(corrected: bool, u: Usage, s: HmmSyntax)
    ensures u.used <= Scan(corrected, u, s).0.used
    decreases s
  {
    match s
    case Expression(_, _, operands) => UseAllAdds(u, operands);
    case FunctionDeclaration(_, body) => ScanBodyGrows(corrected, u, body);
    case IfExpression(c, r, a, n, yes, no) =>
      if corrected {
        UseAllAdds(u, [a]);
        UseAllAdds(u, [n]);
        ScanBodyGrows(true, UseIfNeeded(u, r, [a]), yes);
        ScanBodyGrows(true, UseIfNeeded(u, r, [n]), no);
      } else {
        var u1 := UseIfNeeded(Use(u, c), r, [a, n]);
        UseAllAdds(Use(u, c), [a, n]);
        ScanBodyGrows(false, u1, yes);
        ScanBodyGrows(false, ScanBody(false, u1, yes).0, no);
      }
    case Loop(body) =>
      ScanBodyGrows(corrected, if corrected then u.(written := {}) else u, body);
    case _ =>
  }

  lemma {:induction false} ScanBodyGrows(corrected: bool, u: Usage, body: seq<HmmSyntax>)
    ensures u.used <= ScanBody(corrected, u, body).0.used
    decreases body
  {
    if body != [] {
      ScanBodyGrows(corrected, u, body[1..]);
      ScanGrows(corrected, ScanBody(corrected, u, body[1..]).0, body[0]);
    }
  }

  /** No literal is ever recorded as a variable. */
  ghost predicate Clean(u: Usage) {
    (forall v :: v in u.used ==> !IsLiteral(v)) && (forall v :: v in u.usedSince ==> !IsLiteral(v))
  }

  lemma {:induction false} ScanClean(corrected: bool, u: Usage, s: HmmSyntax)
    requires Clean(u)
    ensures Clean(Scan(corrected, u, s).0)
    decreases s, 1
  {
    match s
    case Expression(_, _, operands) => UseAllAdds(u, operands);
    case FunctionDeclaration(_, body) => ScanBodyClean(corrected, u, body);
    case IfExpression(c, r, a, n, yes, no) => IfClean(corrected, u, c, r, a, n, yes, no);
    case Loop(body) =>
      ScanBodyClean(corrected, if corrected then u.(written := {}) else u, body);
    case _ =>
  }

  lemma {:induction false} IfClean(corrected: bool, u: Usage, c: string, r: string, a: string, n: string,
                                   yes: seq<HmmSyntax>, no: seq<HmmSyntax>)
    requires Clean(u)
    ensures Clean(Scan(corrected, u, IfExpression(c, r, a, n, yes, no)).0)
    decreases IfExpression(c, r, a, n, yes, no), 0
  {
    if corrected {
      var ua := UseIfNeeded(u, r, [a]);
      var un := UseIfNeeded(u, r, [n]);
      UseIfNeededClean(u, r, [a]);
      UseIfNeededClean(u, r, [n]);
      ScanBodyClean(true, ua, yes);
      ScanBodyClean(true, un, no);
      JoinUseClean(ScanBody(true, ua, yes).0, ScanBody(true, un, no).0, c);
    } else {
      var u1 := UseIfNeeded(Use(u, c), r, [a, n]);
      UseClean(u, c);
      UseIfNeededClean(Use(u, c), r, [a, n]);
      ScanBodyClean(false, u1, yes);
      ScanBodyClean(false, ScanBody(false, u1, yes).0, no);
    }
  }

  lemma UseClean(u: Usage, v: string)
    requires Clean(u)
    ensures Clean(Use(u, v))
  {
  }

  lemma UseIfNeededClean(u: Usage, r: string, vs: seq<string>)
    requires Clean(u)
    ensures Clean(UseIfNeeded(u, r, vs))
  {
    UseAllAdds(u, vs);
  }

  lemma JoinUseClean(yes: Usage, no: Usage, c: string)
    requires Clean(yes) && Clean(no)
    ensures Clean(Use(Join(yes, no), c))
  {
  }

  lemma {:induction false} ScanBodyClean(corrected: bool, u: Usage, body: seq<HmmSyntax>)
    requires Clean(u)
    ensures Clean(ScanBody(corrected, u, body).0)
    decreases body, 2
  {
    if body != [] {
      ScanBodyClean(corrected, u, body[1..]);
      ScanClean(corrected, ScanBody(corrected, u, body[1..]).0, body[0]);
    }
  }

  // ---------------------------------------------------------------------
  // The output is the input with statements deleted, in the same order
  // ---------------------------------------------------------------------

  /** `t` is `s` with statements deleted from its nested bodies. */
  ghost predicate Prunes(t: HmmSyntax, s: HmmSyntax)
    decreases s
  {
    match s
    case FunctionDeclaration(name, body) =>
      t.FunctionDeclaration? && t.name == name && PrunesAll(t.body, body)
    case IfExpression(c, r, a, n, yes, no) =>
      && t.IfExpression? && t.condition == c && t.result == r && t.affirmative == a && t.negative == n
      && PrunesAll(t.affirmativeBody, yes) && PrunesAll(t.negativeBody, no)
    case Loop(body) => t.Loop? && PrunesAll(t.body, body)
    case _ => t == s
  }

  /** `kept` is a subsequence of `body`, each kept statement pruning the one it came from. */
  ghost predicate PrunesAll(kept: seq<HmmSyntax>, body: seq<HmmSyntax>)
    decreases body
  {
    if body == [] then kept == []
    else
      || (|kept| > 0 && Prunes(kept[0], body[0]) && PrunesAll(kept[1..], body[1..]))
      || PrunesAll(kept, body[1..])
  }

  lemma {:induction false} ScanPrunes(corrected: bool, u: Usage, s: HmmSyntax)
    ensures Scan(corrected, u, s).1.Some? ==> Prunes(Scan(corrected, u, s).1.value, s)
    decreases s
  {
    match s
    case FunctionDeclaration(_, body) => ScanBodyPrunes(corrected, u, body);
    case IfExpression(c, r, a, n, yes, no) =>
      if corrected {
        ScanBodyPrunes(true, UseIfNeeded(u, r, [a]), yes);
        ScanBodyPrunes(true, UseIfNeeded(u, r, [n]), no);
      } else {
        var u1 := UseIfNeeded(Use(u, c), r, [a, n]);
        ScanBodyPrunes(false, u1, yes);
        ScanBodyPrunes(false, ScanBody(false, u1, yes).0, no);
      }
    case Loop(body) =>
      ScanBodyPrunes(corrected, if corrected then u.(written := {}) else u, body);
    case _ =>
  }

  lemma {:induction false} ScanBodyPrunes(corrected: bool, u: Usage, body: seq<HmmSyntax>)
    ensures PrunesAll(ScanBody(corrected, u, body).1, body)
    decreases body
  {
    if body != [] {
      var (u', rest) := ScanBody(corrected, u, body[1..]);
      var (_, first) := Scan(corrected, u', body[0]);
      ScanBodyPrunes(corrected, u, body[1..]);
      ScanPrunes(corrected, u', body[0]);
      var kept := Keep(first) + rest;
      if first.Some? {
        assert kept[0] == first.value && kept[1..] == rest;
      } else {
        assert kept == rest;
      }
    }
  }

  /** Scanning `[s] + rest` scans `rest`, then `s` in the state `rest` leaves. */
  lemma ScanBodyCons(corrected: bool, u: Usage, s: HmmSyntax, rest: seq<HmmSyntax>)
    ensures var (u1, k1) := ScanBody(corrected, u, rest);
      var (u2, o) := Scan(corrected, u1, s);
      ScanBody(corrected, u, [s] + rest) == (u2, Keep(o) + k1)
  {
    assert ([s] + rest)[1..] == rest;
  }

  lemma ScanBodyOne(corrected: bool, u: Usage, s: HmmSyntax)
    ensures ScanBody(corrected, u, [s]) == (Scan(corrected, u, s).0, Keep(Scan(corrected, u, s).1))
  {
    ScanBodyCons(corrected, u, s, []);
    assert [s] + [] == [s];
    assert ScanBody(corrected, u, []) == (u, []);
    assert Keep(Scan(corrected, u, s).1) + [] == Keep(Scan(corrected, u, s).1);
  }

  /** A two-statement body: the second statement is scanned first, the first
      in the state it leaves. */
  lemma ScanBodyTwo(corrected: bool, u: Usage, s: HmmSyntax, t: HmmSyntax,
                    u1: Usage, ot: Option<HmmSyntax>, u2: Usage, os: Option<HmmSyntax>)
    requires Scan(corrected, u, t) == (u1, ot) && Scan(corrected, u1, s) == (u2, os)
    ensures ScanBody(corrected, u, [s, t]) == (u2, Keep(os) + Keep(ot))
  {
    ScanBodyCons(corrected, u, s, [t]);
    ScanBodyOne(corrected, u, t);
    assert [s] + [t] == [s, t];
  }

  /** Scanning a concatenation scans the tail first and continues into the head. */
  lemma {:induction false} ScanBodyAppend(corrected: bool, u: Usage, front: seq<HmmSyntax>, back: seq<HmmSyntax>)
    ensures var (u2, k2) := ScanBody(corrected, u, back);
      var (u1, k1) := ScanBody(corrected, u2, front);
      ScanBody(corrected, u, front + back) == (u1, k1 + k2)
    decreases front
  {
    var (u2, k2) := ScanBody(corrected, u, back);
    if front == [] {
      assert front + back == back;
      assert ScanBody(corrected, u2, front) == (u2, []);
      assert [] + k2 == k2;
    } else {
      ScanBodyAppend(corrected, u, front[1..], back);
      var (u1, k1) := ScanBody(corrected, u2, front[1..]);
      var (u0, o) := Scan(corrected, u1, front[0]);
      assert front == [front[0]] + front[1..];
      AppendStep(corrected, u, front[0], front[1..], back, u2, k2, u1, k1, u0, o);
    }
  }

  /** The step of ScanBodyAppend: from `tail + back` to `[s] + tail + back`. */
  lemma AppendStep(corrected: bool, u: Usage, s: HmmSyntax, tail: seq<HmmSyntax>, back: seq<HmmSyntax>,
                   u2: Usage, k2: seq<HmmSyntax>, u1: Usage, k1: seq<HmmSyntax>, u0: Usage, o: Option<HmmSyntax>)
    requires ScanBody(corrected, u, back) == (u2, k2) && ScanBody(corrected, u2, tail) == (u1, k1)
    requires ScanBody(corrected, u, tail + back) == (u1, k1 + k2)
    requires Scan(corrected, u1, s) == (u0, o)
    ensures ScanBody(corrected, u2, [s] + tail) == (u0, Keep(o) + k1)
    ensures ScanBody(corrected, u, [s] + tail + back) == (u0, Keep(o) + k1 + k2)
  {
    ConcatAssoc([s], tail, back);
    ScanBodyCons(corrected, u, s, tail + back);
    ScanBodyCons(corrected, u2, s, tail);
    ConcatAssoc(Keep(o), k1, k2);
  }

  lemma ConcatAssoc<T>(a: seq<T>, b: seq<T>, c: seq<T>)
    ensures a + (b + c) == a + b + c
  {
  }

  // ---------------------------------------------------------------------
  // Corrected scanner: the properties the findings restore
  // ---------------------------------------------------------------------

  /** The two branches are scanned from the same state: swapping them swaps the kept bodies. */
  lemma IfSymmetric(u: Usage, c: string, r: string, a: string, n: string, yes: seq<HmmSyntax>, no: seq<HmmSyntax>)
    ensures var (u1, o1) := Scan(true, u, IfExpression(c, r, a, n, yes, no));
      var (u2, o2) := Scan(true, u, IfExpression(c, r, n, a, no, yes));
      && u1 == u2
      && (o1 == None <==> o2 == None)
      && (o1.Some? ==> o2 == Some(IfExpression(c, r, n, a, o1.value.negativeBody, o1.value.affirmativeBody)))
  {
    var uy := ScanBody(true, UseIfNeeded(u, r, [a]), yes).0;
    var un := ScanBody(true, UseIfNeeded(u, r, [n]), no).0;
    assert Join(uy, un) == Join(un, uy);
  }

  /** What survives in the negative body does not depend on the affirmative body. */
  lemma BranchesIndependent(u: Usage, c: string, r: string, a: string, n: string,
                            yes1: seq<HmmSyntax>, yes2: seq<HmmSyntax>, no: seq<HmmSyntax>)
    requires no != []
    ensures Scan(true, u, IfExpression(c, r, a, n, yes1, no)).1.Some?
    ensures Scan(true, u, IfExpression(c, r, a, n, yes2, no)).1.Some?
    ensures Scan(true, u, IfExpression(c, r, a, n, yes1, no)).1.value.negativeBody
         == Scan(true, u, IfExpression(c, r, a, n, yes2, no)).1.value.negativeBody
  {
  }

  /** The condition is read before either body runs, so it counts as read before the if. */
  lemma ConditionStaysUsed(u: Usage, c: string, r: string, a: string, n: string, yes: seq<HmmSyntax>, no: seq<HmmSyntax>)
    requires !IsLiteral(c)
    requires Scan(true, u, IfExpression(c, r, a, n, yes, no)).1.Some?
    ensures c in Scan(true, u, IfExpression(c, r, a, n, yes, no)).0.usedSince
  {
  }

  /** The last assignment of a loop body is never dropped: the next iteration may read it. */
  lemma LoopKeepsLastAssignment(u: Usage, body: seq<HmmSyntax>, x: string, v: string)
    ensures var o := Scan(true, u, Loop(body + [Assignment(x, v)])).1;
      o.Some? && o.value.Loop? && |o.value.body| > 0 && o.value.body[|o.value.body| - 1] == Assignment(x, v)
  {
    var entry := u.(written := {});
    ScanBodyAppend(true, entry, body, [Assignment(x, v)]);
    var (u2, k2) := ScanBody(true, entry, [Assignment(x, v)]);
    assert [Assignment(x, v)][1..] == [];
    assert k2 == [Assignment(x, v)];
  }

  // ---------------------------------------------------------------------
  // The findings, on small programs
  // ---------------------------------------------------------------------

  /** `r = if c then a else n` with no statements in either branch, then `return r`. */
  function ValueIf(c: string, r: string, a: string, n: string): seq<HmmSyntax> {
    [IfExpression(c, r, a, n, [], []), Return(r)]
  }

  /** As written: the if that defines `r` is removed although the return reads `r`. */
  lemma EmptyIfLosesResult(c: string, r: string, a: string, n: string)
    ensures ScanBody(false, Empty, ValueIf(c, r, a, n)).1 == [Return(r)]
  {
    var after := Use(Empty, r);
    assert Scan(false, Empty, Return(r)) == (after, Some(Return(r)));
    assert Scan(false, after, IfExpression(c, r, a, n, [], [])) == (after, None);
    ScanBodyTwo(false, Empty, IfExpression(c, r, a, n, [], []), Return(r), after, Some(Return(r)), after, None);
    assert Keep(None) + Keep(Some(Return(r))) == [Return(r)];
  }

  lemma EmptyIfKept(c: string, r: string, a: string, n: string)
    requires !IsLiteral(r)
    ensures ScanBody(true, Empty, ValueIf(c, r, a, n)).1 == ValueIf(c, r, a, n)
  {
    var after := Use(Empty, r);
    var cond := IfExpression(c, r, a, n, [], []);
    assert Scan(true, Empty, Return(r)) == (after, Some(Return(r)));
    assert r in after.used;
    assert ScanBody(true, UseIfNeeded(after, r, [a]), []).1 == [];
    assert ScanBody(true, UseIfNeeded(after, r, [n]), []).1 == [];
    var (u2, o) := Scan(true, after, cond);
    assert o == Some(cond);
    ScanBodyTwo(true, Empty, cond, Return(r), after, Some(Return(r)), u2, o);
    assert Keep(o) + Keep(Some(Return(r))) == ValueIf(c, r, a, n);
  }

  /** As written, an if whose two branches each assign `x` keeps only the first assignment. */
  lemma AsWrittenIfStep(u: Usage, c: string, r: string, a: string, n: string, x: string, one: string, two: string)
    requires x !in u.written
    ensures var (u', o) := Scan(false, u, IfExpression(c, r, a, n, [Assignment(x, one)], [Assignment(x, two)]));
      && o == Some(IfExpression(c, r, a, n, [Assignment(x, one)], []))
      && x in u'.written && x !in u'.usedSince
  {
    var entry := UseIfNeeded(Use(u, c), r, [a, n]);
    UseAllAdds(Use(u, c), [a, n]);
    ScanBodyOne(false, entry, Assignment(x, one));
    var thenDone := ScanBody(false, entry, [Assignment(x, one)]).0;
    ScanBodyOne(false, thenDone, Assignment(x, two));
  }

  /** Corrected, both assignments survive and the condition counts as read before the if. */
  lemma CorrectedIfStep(u: Usage, c: string, r: string, a: string, n: string, x: string, one: string, two: string)
    requires x !in u.written
    ensures var (u', o) := Scan(true, u, IfExpression(c, r, a, n, [Assignment(x, one)], [Assignment(x, two)]));
      && o == Some(IfExpression(c, r, a, n, [Assignment(x, one)], [Assignment(x, two)]))
      && (!IsLiteral(c) ==> c in u'.usedSince)
  {
    var yesEntry := UseIfNeeded(u, r, [a]);
    var noEntry := UseIfNeeded(u, r, [n]);
    UseAllAdds(u, [a]);
    UseAllAdds(u, [n]);
    ScanBodyOne(true, yesEntry, Assignment(x, one));
    ScanBodyOne(true, noEntry, Assignment(x, two));
  }

  /** `if c { x = one } else { x = two }; return x`. */
  function BothBranchesAssign(c: string, r: string, a: string, n: string, x: string, one: string, two: string): seq<HmmSyntax> {
    [IfExpression(c, r, a, n, [Assignment(x, one)], [Assignment(x, two)]), Return(x)]
  }

  /** As written: the else-branch assignment is dropped, because the then-branch's write is taken to follow it. */
  lemma BranchesShareState(c: string, r: string, a: string, n: string, x: string, one: string, two: string)
    ensures ScanBody(false, Empty, BothBranchesAssign(c, r, a, n, x, one, two)).1
         == [IfExpression(c, r, a, n, [Assignment(x, one)], []), Return(x)]
  {
    var cond := IfExpression(c, r, a, n, [Assignment(x, one)], [Assignment(x, two)]);
    var after := Use(Empty, x);
    assert Scan(false, Empty, Return(x)) == (after, Some(Return(x)));
    AsWrittenIfStep(after, c, r, a, n, x, one, two);
    var (u2, o) := Scan(false, after, cond);
    ScanBodyTwo(false, Empty, cond, Return(x), after, Some(Return(x)), u2, o);
    assert Keep(o) + Keep(Some(Return(x))) == [IfExpression(c, r, a, n, [Assignment(x, one)], []), Return(x)];
  }

  lemma BothBranchesKept(c: string, r: string, a: string, n: string, x: string, one: string, two: string)
    ensures ScanBody(true, Empty, BothBranchesAssign(c, r, a, n, x, one, two)).1
         == BothBranchesAssign(c, r, a, n, x, one, two)
  {
    var cond := IfExpression(c, r, a, n, [Assignment(x, one)], [Assignment(x, two)]);
    var after := Use(Empty, x);
    assert Scan(true, Empty, Return(x)) == (after, Some(Return(x)));
    CorrectedIfStep(after, c, r, a, n, x, one, two);
    var (u2, o) := Scan(true, after, cond);
    ScanBodyTwo(true, Empty, cond, Return(x), after, Some(Return(x)), u2, o);
    assert Keep(o) + Keep(Some(Return(x))) == [cond, Return(x)];
  }

  /** `c = t; if c { c = f } else { c = g }; return c`: the if reads the first value of `c`. */
  function ConditionRewritten(c: string, r: string, a: string, n: string, t: string, f: string, g: string): seq<HmmSyntax> {
    [Assignment(c, t), IfExpression(c, r, a, n, [Assignment(c, f)], [Assignment(c, g)]), Return(c)]
  }

  /** As written: `c = t` is dropped, because both branches' writes to `c` are taken to follow the read. */
  lemma ConditionReadTooEarly(c: string, r: string, a: string, n: string, t: string, f: string, g: string)
    ensures ScanBody(false, Empty, ConditionRewritten(c, r, a, n, t, f, g)).1
         == [IfExpression(c, r, a, n, [Assignment(c, f)], []), Return(c)]
  {
    var cond := IfExpression(c, r, a, n, [Assignment(c, f)], [Assignment(c, g)]);
    var after := Use(Empty, c);
    assert Scan(false, Empty, Return(c)) == (after, Some(Return(c)));
    AsWrittenIfStep(after, c, r, a, n, c, f, g);
    var (u2, o) := Scan(false, after, cond);
    ScanBodyTwo(false, Empty, cond, Return(c), after, Some(Return(c)), u2, o);
    assert Scan(false, u2, Assignment(c, t)) == (u2, None);
    ScanBodyCons(false, Empty, Assignment(c, t), [cond, Return(c)]);
    assert [Assignment(c, t)] + [cond, Return(c)] == ConditionRewritten(c, r, a, n, t, f, g);
    assert Keep(None) + (Keep(o) + Keep(Some(Return(c)))) == [IfExpression(c, r, a, n, [Assignment(c, f)], []), Return(c)];
  }

  lemma ConditionReadKept(c: string, r: string, a: string, n: string, t: string, f: string, g: string)
    requires !IsLiteral(c)
    ensures ScanBody(true, Empty, ConditionRewritten(c, r, a, n, t, f, g)).1
         == ConditionRewritten(c, r, a, n, t, f, g)
  {
    var cond := IfExpression(c, r, a, n, [Assignment(c, f)], [Assignment(c, g)]);
    var after := Use(Empty, c);
    assert Scan(true, Empty, Return(c)) == (after, Some(Return(c)));
    CorrectedIfStep(after, c, r, a, n, c, f, g);
    var (u2, o) := Scan(true, after, cond);
    ScanBodyTwo(true, Empty, cond, Return(c), after, Some(Return(c)), u2, o);
    assert Scan(true, u2, Assignment(c, t)).1 == Some(Assignment(c, t));
    ScanBodyCons(true, Empty, Assignment(c, t), [cond, Return(c)]);
    assert [Assignment(c, t)] + [cond, Return(c)] == ConditionRewritten(c, r, a, n, t, f, g);
    assert Keep(Some(Assignment(c, t))) + (Keep(o) + Keep(Some(Return(c)))) == ConditionRewritten(c, r, a, n, t, f, g);
  }

  /** `loop { if x { break }; x = y }; x = z`: the next iteration reads `x = y`. */
  function LoopCarried(x: string, r: string, a: string, n: string, y: string, z: string): seq<HmmSyntax> {
    [Loop([IfExpression(x, r, a, n, [Break], []), Assignment(x, y)]), Assignment(x, z)]
  }

  /** As written: the loop's `x = y` is dropped because `x = z` after the loop is taken to follow it. */
  lemma LoopCarriedDropped(x: string, r: string, a: string, n: string, y: string, z: string)
    requires !IsLiteral(x)
    ensures ScanBody(false, Empty, LoopCarried(x, r, a, n, y, z)).1
         == [Loop([IfExpression(x, r, a, n, [Break], [])]), Assignment(x, z)]
  {
    var test := IfExpression(x, r, a, n, [Break], []);
    var after := Overwrite(Use(Use(Empty, x), z), x);
    assert Scan(false, Empty, Assignment(x, z)) == (after, Some(Assignment(x, z)));
    AsWrittenLoopDrops(after, x, r, a, n, y);
    var loop := Loop([test, Assignment(x, y)]);
    var (u2, o2) := Scan(false, after, loop);
    ScanBodyTwo(false, Empty, loop, Assignment(x, z), after, Some(Assignment(x, z)), u2, o2);
    assert Keep(o2) + Keep(Some(Assignment(x, z))) == [Loop([test]), Assignment(x, z)];
  }

  /** As written, a loop ending in `x = y` loses it when `x` is overwritten after the loop unread. */
  lemma AsWrittenLoopDrops(after: Usage, x: string, r: string, a: string, n: string, y: string)
    requires x in after.written && x !in after.usedSince
    ensures Scan(false, after, Loop([IfExpression(x, r, a, n, [Break], []), Assignment(x, y)])).1
         == Some(Loop([IfExpression(x, r, a, n, [Break], [])]))
  {
    var test := IfExpression(x, r, a, n, [Break], []);
    assert Scan(false, after, Assignment(x, y)) == (after, None);
    var (u1, o1) := Scan(false, after, test);
    AsWrittenBreakTest(after, x, r, a, n);
    ScanBodyTwo(false, after, test, Assignment(x, y), after, None, u1, o1);
    assert Keep(o1) + Keep(None) == [test];
  }

  /** As written, `if x { break }` is kept whatever state follows it. */
  lemma AsWrittenBreakTest(u: Usage, x: string, r: string, a: string, n: string)
    ensures Scan(false, u, IfExpression(x, r, a, n, [Break], [])).1 == Some(IfExpression(x, r, a, n, [Break], []))
  {
    var entry := UseIfNeeded(Use(u, x), r, [a, n]);
    ScanBodyOne(false, entry, Break);
  }

  lemma LoopCarriedKept(x: string, r: string, a: string, n: string, y: string, z: string)
    requires !IsLiteral(x)
    ensures ScanBody(true, Empty, LoopCarried(x, r, a, n, y, z)).1 == LoopCarried(x, r, a, n, y, z)
  {
    var test := IfExpression(x, r, a, n, [Break], []);
    ScanBodyOne(true, Empty, Assignment(x, z));
    var after := ScanBody(true, Empty, [Assignment(x, z)]).0;
    ScanBodyCons(true, Empty, Loop([test, Assignment(x, y)]), [Assignment(x, z)]);
    var entry := after.(written := {});
    ScanBodyOne(true, entry, Assignment(x, y));
    var carried := ScanBody(true, entry, [Assignment(x, y)]).0;
    ScanBodyCons(true, entry, test, [Assignment(x, y)]);
    ScanBodyOne(true, UseIfNeeded(carried, r, [a]), Break);
    assert ScanBody(true, UseIfNeeded(carried, r, [n]), []).1 == [];
    assert ScanBody(true, entry, [test, Assignment(x, y)]).1 == [test, Assignment(x, y)];
  }
}
