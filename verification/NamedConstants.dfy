/**
 * Constants with names: untyped constant declarations and enum members, whose values may refer to
 * each other. The reference semantics unfolds names without any cache or cycle check, to a depth.
 */
module NamedConstants {
  import opened Wrappers
  import opened Carriers
  import opened ConstInts
  import opened ConstExprs

  type EnumId = nat

  datatype Member = Member(owner: EnumId, index: nat)

  datatype ConstDecl = ConstDecl(typed: bool, initializer: Option<Expr>)

  /** What a name can mean where an expression stands: enum members first, then local constants, then frames outward. */
  datatype Scope = Scope(
    members: map<string, Member>,
    locals: map<string, ConstDecl>,
    frames: seq<map<string, ConstDecl>>)

  /** An enum: the explicit value, if any, of each member, and the scope of its declaration. */
  datatype EnumDecl = EnumDecl(explicit: seq<Option<Expr>>, scope: Scope)

  type Program = map<EnumId, EnumDecl>

  // ------------------------------------------------------------------ lookup

  function FindInFrames(frames: seq<map<string, ConstDecl>>, name: string): Option<ConstDecl> {
    if frames == [] then None
    else if name in frames[0] then Some(frames[0][name])
    else FindInFrames(frames[1..], name)
  }

  function FindConst(s: Scope, name: string): Option<ConstDecl> {
    if name in s.locals && s.locals[name].initializer.Some? then Some(s.locals[name])
    else FindInFrames(s.frames, name)
  }

  /** The expression an untyped constant stands for; a typed constant has storage and is not folded. */
  function Body(s: Scope, name: string): Option<Expr> {
    var decl := FindConst(s, name);
    if decl.None? || decl.value.typed then None else decl.value.initializer
  }

  function FrameNames(frames: seq<map<string, ConstDecl>>): set<string> {
    if frames == [] then {} else frames[0].Keys + FrameNames(frames[1..])
  }

  function ConstNames(s: Scope): set<string> {
    s.locals.Keys + FrameNames(s.frames)
  }

  lemma {:induction false} FoundIsNamed(frames: seq<map<string, ConstDecl>>, name: string)
    ensures FindInFrames(frames, name).Some? <==> name in FrameNames(frames)
  {
    if frames != [] { FoundIsNamed(frames[1..], name); }
  }

  lemma BodyIsNamed(s: Scope, name: string)
    requires Body(s, name).Some?
    ensures name in ConstNames(s)
  {
    FoundIsNamed(s.frames, name);
  }

  // ------------------------------------------------------------------ reference semantics

  /** An explicit member value: an unsigned constant beyond the signed range is refused. */
  function OrdinalOf(c: Option<ConstInt>): Option<Int64> {
    if c.None? || (c.value.carrier.Unsigned? && c.value.pattern >= TWO_TO_63) then None else Some(c.value.value)
  }

  function NextOrdinal(previous: Option<Int64>): Option<Int64> {
    if previous.None? then Some(0)
    else if previous.value == TWO_TO_63 - 1 then None
    else Some(previous.value + 1)
  }

  /** Evaluation that follows at most `d` names in a row. */
  function Eval(p: Program, s: Scope, e: Expr, d: nat): Folded
    decreases d, 1, e
  {
    match e
    case Literal(n) => Folded(Some(FromLiteral(n)), false)
    case Ordinal(value) => Folded(Some(FromValue(value)), false)
    case Plus(a) => Eval(p, s, a, d)
    case Negate(a) => ApplyNegate(Eval(p, s, a, d))
    case Complement(a) => Folded(None, Eval(p, s, a, d).overflow)
    case Binary(op, l, r) => Combine(op, Eval(p, s, l, d), Eval(p, s, r, d))
    case Cast(target, a) => ApplyCast(target, Eval(p, s, a, d))
    case Variable(_, _) => Folded(None, false)
    case Name(name) =>
      if d == 0 then Folded(None, false)
      else if name in s.members then FromOrdinal(OrdinalAt(p, s.members[name].owner, s.members[name].index, d - 1))
      else
        var body := Body(s, name);
        if body.None? then Folded(None, false) else Eval(p, s, body.value, d - 1)
  }

  function FromOrdinal(v: Option<Int64>): Folded {
    if v.None? then Folded(None, false) else Folded(Some(FromValue(v.value)), false)
  }

  /** The declared ordinal of a member: its explicit value, else one more than the previous, else zero. */
  function OrdinalAt(p: Program, owner: EnumId, index: nat, d: nat): Option<Int64>
    decreases d, 0, index
  {
    if owner !in p || index >= |p[owner].explicit| then None
    else
      var previous := if index == 0 then None else OrdinalAt(p, owner, index - 1, d);
      if index > 0 && previous.None? then None
      else if p[owner].explicit[index].None? then NextOrdinal(previous)
      else if d == 0 then None
      else OrdinalOf(Eval(p, p[owner].scope, p[owner].explicit[index].value, d - 1).result)
  }

  /** The value an expression has, whatever the depth needed. */
  ghost predicate Denotes(p: Program, s: Scope, e: Expr, c: ConstInt) {
    exists d: nat :: Eval(p, s, e, d).result == Some(c)
  }

  /** Some depth of unfolding finds a value out of range. */
  ghost predicate MayOverflow(p: Program, s: Scope, e: Expr) {
    exists d: nat :: Eval(p, s, e, d).overflow
  }

  ghost predicate HasOrdinal(p: Program, owner: EnumId, index: nat, v: Int64) {
    exists d: nat :: OrdinalAt(p, owner, index, d) == Some(v)
  }

  // ------------------------------------------------------------------ more depth changes nothing found

  predicate Grows(f: Folded, g: Folded) {
    && (f.result.Some? ==> g.result == f.result)
    && (f.overflow ==> g.overflow)
    && (f.overflow ==> f.result.None?)
    && (g.overflow ==> g.result.None?)
  }

  lemma CombineGrows(op: Op, l: Folded, r: Folded, l': Folded, r': Folded)
    requires Grows(l, l') && Grows(r, r')
    ensures Grows(Combine(op, l, r), Combine(op, l', r'))
  {
    hide FoldBinary;
    if l.result.Some? && r.result.Some? { FoldBinaryComputes(op, l.result.value, r.result.value); }
    if l'.result.Some? && r'.result.Some? { FoldBinaryComputes(op, l'.result.value, r'.result.value); }
  }

  lemma NegateGrows(f: Folded, g: Folded)
    requires Grows(f, g)
    ensures Grows(ApplyNegate(f), ApplyNegate(g))
  {
  }

  lemma {:induction false} EvalGrows(p: Program, s: Scope, e: Expr, d: nat, d': nat)
    requires d <= d'
    ensures Grows(Eval(p, s, e, d), Eval(p, s, e, d'))
    decreases d, 1, e
  {
    hide Combine, ApplyNegate, FromLiteral, FromValue, Convert;
    match e
    case Plus(a) => EvalGrows(p, s, a, d, d');
    case Negate(a) =>
      EvalGrows(p, s, a, d, d');
      NegateGrows(Eval(p, s, a, d), Eval(p, s, a, d'));
    case Complement(a) => EvalGrows(p, s, a, d, d');
    case Binary(op, l, r) =>
      EvalGrows(p, s, l, d, d');
      EvalGrows(p, s, r, d, d');
      CombineGrows(op, Eval(p, s, l, d), Eval(p, s, r, d), Eval(p, s, l, d'), Eval(p, s, r, d'));
    case Cast(target, a) => EvalGrows(p, s, a, d, d');
    case Name(name) => NameGrows(p, s, name, d, d');
    case _ =>
  }

  lemma {:induction false} NameGrows(p: Program, s: Scope, name: string, d: nat, d': nat)
    requires d <= d'
    ensures Grows(Eval(p, s, Name(name), d), Eval(p, s, Name(name), d'))
    decreases d, 0, name
  {
    hide FromValue;
    if d' > 0 {
      if name in s.members {
        var m := s.members[name];
        if d > 0 && OrdinalAt(p, m.owner, m.index, d - 1).Some? { OrdinalGrows(p, m.owner, m.index, d - 1, d' - 1); }
      } else if Body(s, name).Some? {
        if d > 0 {
          EvalGrows(p, s, Body(s, name).value, d - 1, d' - 1);
        } else {
          FlaggedNothing(p, s, Name(name), d');
        }
      }
    }
  }

  lemma {:induction false} OrdinalGrows(p: Program, owner: EnumId, index: nat, d: nat, d': nat)
    requires d <= d' && OrdinalAt(p, owner, index, d).Some?
    ensures OrdinalAt(p, owner, index, d') == OrdinalAt(p, owner, index, d)
    decreases d, 0, index
  {
    hide NextOrdinal, OrdinalOf;
    if index > 0 { OrdinalGrows(p, owner, index - 1, d, d'); }
    if p[owner].explicit[index].Some? {
      EvalGrows(p, p[owner].scope, p[owner].explicit[index].value, d - 1, d' - 1);
      NothingHasNoOrdinal();
    }
  }

  lemma NothingHasNoOrdinal()
    ensures OrdinalOf(None) == None
  {
  }

  /** A raised flag comes without a constant, through names as well. */
  lemma {:induction false} FlaggedNothing(p: Program, s: Scope, e: Expr, d: nat)
    ensures Eval(p, s, e, d).overflow ==> Eval(p, s, e, d).result.None?
    decreases d, e
  {
    hide FoldBinary, FromValue, FromLiteral, Convert;
    match e
    case Plus(a) => FlaggedNothing(p, s, a, d);
    case Negate(a) => FlaggedNothing(p, s, a, d);
    case Complement(a) =>
    case Cast(_, a) => FlaggedNothing(p, s, a, d);
    case Binary(op, l, r) =>
      FlaggedNothing(p, s, l, d);
      FlaggedNothing(p, s, r, d);
      if Eval(p, s, l, d).result.Some? && Eval(p, s, r, d).result.Some? {
        FoldBinaryComputes(op, Eval(p, s, l, d).result.value, Eval(p, s, r, d).result.value);
      }
    case Name(name) =>
      if d > 0 && name !in s.members && Body(s, name).Some? { FlaggedNothing(p, s, Body(s, name).value, d - 1); }
    case _ =>
  }

  /** An expression denotes at most one constant, and none if some depth finds an overflow. */
  lemma DenotesOnce(p: Program, s: Scope, e: Expr, d: nat, d': nat)
    requires Eval(p, s, e, d).result.Some?
    ensures !Eval(p, s, e, d').overflow
    ensures Eval(p, s, e, d').result.Some? ==> Eval(p, s, e, d').result == Eval(p, s, e, d).result
  {
    hide Eval;
    if d <= d' { EvalGrows(p, s, e, d, d'); } else { EvalGrows(p, s, e, d', d); }
  }

  lemma OrdinalOnce(p: Program, owner: EnumId, index: nat, d: nat, d': nat)
    requires OrdinalAt(p, owner, index, d).Some? && OrdinalAt(p, owner, index, d').Some?
    ensures OrdinalAt(p, owner, index, d) == OrdinalAt(p, owner, index, d')
  {
    hide OrdinalAt;
    if d <= d' { OrdinalGrows(p, owner, index, d, d'); } else { OrdinalGrows(p, owner, index, d', d); }
  }

  /** A member has an ordinal only if all members before it have. */
  lemma {:induction false} OrdinalsArePrefix(p: Program, owner: EnumId, i: nat, j: nat, d: nat)
    requires i <= j && OrdinalAt(p, owner, j, d).Some?
    ensures OrdinalAt(p, owner, i, d).Some?
    decreases j
  {
    if i < j { OrdinalsArePrefix(p, owner, i, j - 1, d); }
  }

  // ------------------------------------------------------------------ full unfolding

  /**
   * Replace every constant name by its initializer and every enum member by its ordinal; nothing if
   * depth `d` is not enough.
   */
  function Unfold(p: Program, s: Scope, e: Expr, d: nat): Option<Expr>
    decreases d, e
  {
    match e
    case Literal(_) => Some(e)
    case Ordinal(_) => Some(e)
    case Variable(_, _) => Some(e)
    case Plus(a) =>
      var x := Unfold(p, s, a, d);
      if x.None? then None else Some(Plus(x.value))
    case Negate(a) =>
      var x := Unfold(p, s, a, d);
      if x.None? then None else Some(Negate(x.value))
    case Complement(a) =>
      var x := Unfold(p, s, a, d);
      if x.None? then None else Some(Complement(x.value))
    case Cast(target, a) =>
      var x := Unfold(p, s, a, d);
      if x.None? then None else Some(Cast(target, x.value))
    case Binary(op, l, r) =>
      var x, y := Unfold(p, s, l, d), Unfold(p, s, r, d);
      if x.None? || y.None? then None else Some(Binary(op, x.value, y.value))
    case Name(name) =>
      if d == 0 then None
      else if name in s.members then
        var v := OrdinalAt(p, s.members[name].owner, s.members[name].index, d - 1);
        if v.None? then None else Some(Ordinal(v.value))
      else
        var body := Body(s, name);
        if body.None? then None else Unfold(p, s, body.value, d - 1)
  }

  /** The reference semantics is folding of the fully unfolded expression, and gives nothing if there is none. */
  lemma {:induction false} EvalIsFoldOfUnfolded(p: Program, s: Scope, e: Expr, d: nat)
    ensures var t := Unfold(p, s, e, d);
            if t.Some? then Eval(p, s, e, d) == Fold(t.value) else Eval(p, s, e, d).result.None?
    decreases d, e
  {
    hide FoldBinary, FoldNegate, Convert, FromLiteral, FromValue;
    match e
    case Plus(a) => EvalIsFoldOfUnfolded(p, s, a, d);
    case Negate(a) => EvalIsFoldOfUnfolded(p, s, a, d);
    case Complement(a) => EvalIsFoldOfUnfolded(p, s, a, d);
    case Cast(_, a) => EvalIsFoldOfUnfolded(p, s, a, d);
    case Binary(_, l, r) =>
      EvalIsFoldOfUnfolded(p, s, l, d);
      EvalIsFoldOfUnfolded(p, s, r, d);
    case Name(name) =>
      if d > 0 && name !in s.members && Body(s, name).Some? { EvalIsFoldOfUnfolded(p, s, Body(s, name).value, d - 1); }
    case _ =>
  }

  // ------------------------------------------------------------------ cycles

  predicate Mentions(e: Expr, name: string) {
    match e
    case Plus(a) => Mentions(a, name)
    case Negate(a) => Mentions(a, name)
    case Complement(a) => Mentions(a, name)
    case Cast(_, a) => Mentions(a, name)
    case Binary(_, l, r) => Mentions(l, name) || Mentions(r, name)
    case Name(n) => n == name
    case _ => false
  }

  /** Each name is a constant whose initializer mentions the next. */
  predicate Chain(s: Scope, path: seq<string>) {
    forall i :: 0 <= i < |path| - 1 ==> IsStep(s, path[i], path[i + 1])
  }

  predicate IsStep(s: Scope, from: string, to: string) {
    from !in s.members && Body(s, from).Some? && Mentions(Body(s, from).value, to)
  }

  /** Every operand is needed: a value at some depth gives every mentioned name a value at that depth. */
  lemma {:induction false} MentionedHasValue(p: Program, s: Scope, e: Expr, name: string, d: nat)
    requires Mentions(e, name) && Eval(p, s, e, d).result.Some?
    ensures Eval(p, s, Name(name), d).result.Some?
    decreases e
  {
    hide FoldBinary, FoldNegate, Convert;
    match e
    case Plus(a) => MentionedHasValue(p, s, a, name, d);
    case Negate(a) => MentionedHasValue(p, s, a, name, d);
    case Complement(a) =>
    case Cast(_, a) => MentionedHasValue(p, s, a, name, d);
    case Binary(_, l, r) => MentionedHasValue(p, s, if Mentions(l, name) then l else r, name, d);
    case Name(_) =>
  }

  lemma {:induction false} ChainDescends(p: Program, s: Scope, path: seq<string>, d: nat)
    requires |path| > 0 && Chain(s, path) && Eval(p, s, Name(path[0]), d).result.Some?
    ensures d >= |path| - 1 && Eval(p, s, Name(path[|path| - 1]), d - (|path| - 1)).result.Some?
    decreases path
  {
    if |path| > 1 {
      assert IsStep(s, path[0], path[1]);
      MentionedHasValue(p, s, Body(s, path[0]).value, path[1], d - 1);
      forall i | 0 <= i < |path| - 2 ensures IsStep(s, path[1..][i], path[1..][i + 1]) {
        assert IsStep(s, path[i + 1], path[i + 2]);
      }
      ChainDescends(p, s, path[1..], d - 1);
    }
  }

  /** A constant on a cycle of definitions has no value, however long the cycle is. */
  lemma {:induction false} CycleDenotesNothing(p: Program, s: Scope, path: seq<string>, d: nat)
    requires |path| > 1 && Chain(s, path) && path[0] == path[|path| - 1]
    ensures Eval(p, s, Name(path[0]), d).result.None?
    decreases d
  {
    hide Eval;
    if Eval(p, s, Name(path[0]), d).result.Some? {
      ChainDescends(p, s, path, d);
      CycleDenotesNothing(p, s, path, d - (|path| - 1));
    }
  }

  /** A value is the fold of some full unfolding, and conversely. */
  lemma DenotesIsUnfolding(p: Program, s: Scope, e: Expr, c: ConstInt)
    ensures Denotes(p, s, e, c) <==>
            exists d: nat :: Unfold(p, s, e, d).Some? && Fold(Unfold(p, s, e, d).value).result == Some(c)
  {
    hide Eval, Unfold, Fold;
    if Denotes(p, s, e, c) {
      var d: nat :| Eval(p, s, e, d).result == Some(c);
      EvalIsFoldOfUnfolded(p, s, e, d);
      assert Unfold(p, s, e, d).Some?;
    }
    if d: nat :| Unfold(p, s, e, d).Some? && Fold(Unfold(p, s, e, d).value).result == Some(c) {
      EvalIsFoldOfUnfolded(p, s, e, d);
      assert Eval(p, s, e, d).result == Some(c);
    }
  }

  // ------------------------------------------------------------------ ordinals, in numbers

  /** Whatever an expression denotes, its views agree or its pattern is cut to its carrier. */
  lemma {:induction false} EvalMade(p: Program, s: Scope, e: Expr, d: nat)
    ensures var r := Eval(p, s, e, d).result; r.Some? ==> Made(r.value)
    decreases d, e
  {
    hide FoldBinary, FoldNegate, Convert, FromLiteral, FromValue, Made;
    match e
    case Literal(n) => MadeFromLiteral(n);
    case Ordinal(value) => MadeFromValue(value);
    case Plus(a) => EvalMade(p, s, a, d);
    case Negate(a) =>
      EvalMade(p, s, a, d);
      var r := Eval(p, s, a, d).result;
      if r.Some? { MadeByNegate(r.value); }
    case Complement(a) =>
    case Cast(target, a) =>
      var r := Eval(p, s, a, d).result;
      if r.Some? { ConvertReads(r.value, target); }
    case Binary(op, l, r) =>
      var x, y := Eval(p, s, l, d).result, Eval(p, s, r, d).result;
      if x.Some? && y.Some? { MadeByBinary(op, x.value, y.value); }
    case Name(name) =>
      if d > 0 {
        if name in s.members {
          var v := OrdinalAt(p, s.members[name].owner, s.members[name].index, d - 1);
          if v.Some? { MadeFromValue(v.value); }
        } else if Body(s, name).Some? {
          EvalMade(p, s, Body(s, name).value, d - 1);
        }
      }
    case Variable(_, _) =>
  }

  lemma MadeFromLiteral(n: UInt64)
    ensures Made(FromLiteral(n))
  {
    FromLiteralOk(n);
  }

  lemma MadeFromValue(value: Int64)
    ensures Made(FromValue(value)) && Meaning(FromValue(value)) == value
  {
    FromValueOk(value);
  }

  lemma MadeByNegate(c: ConstInt)
    requires Made(c)
    ensures FoldNegate(c).result.Some? ==> Made(FoldNegate(c).result.value)
  {
    FoldNegateExact(c);
  }

  lemma MadeByBinary(op: Op, l: ConstInt, r: ConstInt)
    ensures var f := FoldBinary(op, l, r).result; f.Some? ==> Made(f.value)
  {
    FoldBinaryComputes(op, l, r);
  }

  /** A first member without a value is zero. */
  lemma FirstOrdinalIsZero(p: Program, owner: EnumId, v: Int64)
    requires owner in p && |p[owner].explicit| > 0 && p[owner].explicit[0].None?
    ensures HasOrdinal(p, owner, 0, v) <==> v == 0
  {
    assert OrdinalAt(p, owner, 0, 0) == Some(0);
    if HasOrdinal(p, owner, 0, v) {
      var d: nat :| OrdinalAt(p, owner, 0, d) == Some(v);
    }
  }

  /** A later member without a value is one more than the member before it, if that leaves room. */
  lemma NextOrdinalIsOneMore(p: Program, owner: EnumId, index: nat, v: Int64)
    requires owner in p && 0 < index < |p[owner].explicit| && p[owner].explicit[index].None?
    ensures HasOrdinal(p, owner, index, v) <==>
            v > -0x8000_0000_0000_0000 && HasOrdinal(p, owner, index - 1, v - 1)
  {
    if HasOrdinal(p, owner, index, v) {
      var d: nat :| OrdinalAt(p, owner, index, d) == Some(v);
      assert OrdinalAt(p, owner, index - 1, d) == Some(v - 1);
    }
    if v > -0x8000_0000_0000_0000 && HasOrdinal(p, owner, index - 1, v - 1) {
      var d: nat :| OrdinalAt(p, owner, index - 1, d) == Some(v - 1);
      assert OrdinalAt(p, owner, index, d) == Some(v);
    }
  }

  /** Members without values are numbered from zero. */
  lemma {:induction false} PlainEnumIsNumbered(p: Program, owner: EnumId, index: nat)
    requires owner in p && index < |p[owner].explicit| && index <= 0x7fff_ffff_ffff_ffff
    requires forall i :: 0 <= i <= index ==> p[owner].explicit[i].None?
    ensures HasOrdinal(p, owner, index, index)
  {
    hide HasOrdinal;
    if index == 0 {
      FirstOrdinalIsZero(p, owner, 0);
    } else {
      PlainEnumIsNumbered(p, owner, index - 1);
      NextOrdinalIsOneMore(p, owner, index, index);
    }
  }

  /** An explicit value is the ordinal, if it has a signed 64-bit form and the member before has an ordinal. */
  lemma ExplicitOrdinalIsValue(p: Program, owner: EnumId, index: nat, before: Int64, v: Int64)
    requires owner in p && index < |p[owner].explicit| && p[owner].explicit[index].Some?
    requires index > 0 ==> HasOrdinal(p, owner, index - 1, before)
    ensures HasOrdinal(p, owner, index, v) <==>
            exists c :: Denotes(p, p[owner].scope, p[owner].explicit[index].value, c) && Meaning(c) == v
  {
    hide Meaning, OrdinalOf, Eval, Made;
    var s, e := p[owner].scope, p[owner].explicit[index].value;
    if HasOrdinal(p, owner, index, v) {
      var d: nat :| OrdinalAt(p, owner, index, d) == Some(v);
      EvalMade(p, s, e, d - 1);
      OrdinalOfMeans(Eval(p, s, e, d - 1).result);
    }
    if c :| Denotes(p, s, e, c) && Meaning(c) == v {
      var d: nat :| Eval(p, s, e, d).result == Some(c);
      var k := d + 1;
      if index > 0 {
        var j: nat :| OrdinalAt(p, owner, index - 1, j) == Some(before);
        k := if j > d then j else d + 1;
        OrdinalGrows(p, owner, index - 1, j, k);
      }
      EvalGrows(p, s, e, d, k - 1);
      EvalMade(p, s, e, k - 1);
      OrdinalOfMeans(Some(c));
      assert OrdinalAt(p, owner, index, k) == OrdinalOf(Some(c));
    }
  }

  lemma OrdinalOfMeans(c: Option<ConstInt>)
    requires c.Some? ==> Made(c.value)
    ensures OrdinalOf(c) ==
            if c.Some? && Meaning(c.value) < 0x8000_0000_0000_0000 then Some(Meaning(c.value)) else None
  {
    if c.Some? { WrapInRange(Signed(64), Meaning(c.value)); }
  }

  /** The name of a member stands for its ordinal. */
  lemma NameOfMember(p: Program, s: Scope, name: string, c: ConstInt)
    requires name in s.members
    ensures Denotes(p, s, Name(name), c) ==> HasOrdinal(p, s.members[name].owner, s.members[name].index, c.value)
    ensures Denotes(p, s, Name(name), c) ==> Meaning(c) == c.value
    ensures forall v: Int64 :: HasOrdinal(p, s.members[name].owner, s.members[name].index, v) ==>
              Denotes(p, s, Name(name), FromValue(v)) && Meaning(FromValue(v)) == v
  {
    var owner, index := s.members[name].owner, s.members[name].index;
    hide OrdinalAt;
    if Denotes(p, s, Name(name), c) {
      var d: nat :| Eval(p, s, Name(name), d).result == Some(c);
      FromValueOk(OrdinalAt(p, owner, index, d - 1).value);
    }
    forall v: Int64 | HasOrdinal(p, owner, index, v)
      ensures Denotes(p, s, Name(name), FromValue(v)) && Meaning(FromValue(v)) == v
    {
      var d: nat :| OrdinalAt(p, owner, index, d) == Some(v);
      assert Eval(p, s, Name(name), d + 1).result == Some(FromValue(v));
      FromValueOk(v);
    }
  }
}
