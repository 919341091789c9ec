/**
 * The folder as it runs: a visiting set and an overflow flag shared along one evaluation, and a
 * cache of enum ordinals with an in-progress set shared by all of them.
 */
module ConstEvaluator {
  import opened Wrappers
  import opened ConstInts
  import opened ConstExprs
  import opened NamedConstants

  type Slots = seq<Option<Int64>>

  /** The cache rows of the enums being evaluated; nothing writes them until control returns there. */
  type Pending = map<EnumId, Slots>

  // ------------------------------------------------------------------ what an evaluation may miss

  /** At depth `d` no empty slot of an enum in progress has an ordinal. */
  ghost predicate Held(p: Program, pending: Pending, d: nat) {
    forall owner, i: nat :: owner in pending && i < |pending[owner]| && pending[owner][i].None? ==>
      OrdinalAt(p, owner, i, d).None?
  }

  /** Nor has any name on the way here a value. */
  ghost predicate Blocked(p: Program, s: Scope, visiting: set<string>, pending: Pending, d: nat) {
    && (forall n :: n in visiting ==> Eval(p, s, Name(n), d).result.None?)
    && Held(p, pending, d)
  }

  /** At depth `d` no name on the way here overflows. */
  ghost predicate Quiet(p: Program, s: Scope, visiting: set<string>, d: nat) {
    forall n :: n in visiting ==> !Eval(p, s, Name(n), d).overflow
  }

  /** A result that is right, and that is missing only where the reference semantics needs a blocked name. */
  ghost predicate Finds(p: Program, s: Scope, e: Expr, visiting: set<string>, pending: Pending, r: Option<ConstInt>) {
    && (r.Some? ==> Denotes(p, s, e, r.value))
    && (forall d: nat :: Blocked(p, s, visiting, pending, d) && Eval(p, s, e, d).result.Some? ==> r.Some?)
  }

  /** The flag goes up exactly when the reference semantics overflows, blocked names aside. */
  ghost predicate Flags(p: Program, s: Scope, e: Expr, visiting: set<string>, pending: Pending, before: bool,
                        after: bool) {
    && (before ==> after)
    && (after && !before ==> MayOverflow(p, s, e))
    && (forall d: nat :: Blocked(p, s, visiting, pending, d) && Quiet(p, s, visiting, d) ==>
          Eval(p, s, e, d).overflow ==> after)
  }

  // ------------------------------------------------------------------ one lemma per kind of expression

  lemma LeafTells(p: Program, s: Scope, e: Expr, visiting: set<string>, pending: Pending, flag: bool)
    requires e.Literal? || e.Ordinal? || e.Variable?
    ensures Finds(p, s, e, visiting, pending, Fold(e).result)
    ensures Flags(p, s, e, visiting, pending, flag, flag)
  {
    assert forall d: nat :: Eval(p, s, e, d) == Fold(e);
    assert Eval(p, s, e, 0) == Fold(e);
  }

  function Unary(e: Expr, f: Folded): Folded
    requires e.Plus? || e.Negate? || e.Complement? || e.Cast?
  {
    match e
    case Plus(_) => f
    case Negate(_) => ApplyNegate(f)
    case Complement(_) => Folded(None, f.overflow)
    case Cast(target, _) => ApplyCast(target, f)
  }

  lemma UnaryEval(p: Program, s: Scope, e: Expr, d: nat)
    requires e.Plus? || e.Negate? || e.Complement? || e.Cast?
    ensures Eval(p, s, e, d) == Unary(e, Eval(p, s, e.operand, d))
  {
  }

  lemma UnaryNeedsOperand(e: Expr, f: Folded)
    requires e.Plus? || e.Negate? || e.Complement? || e.Cast?
    ensures f.result.None? ==> Unary(e, f) == f
    ensures f.overflow ==> Unary(e, f).overflow
    ensures Unary(e, f).result == Unary(e, Folded(f.result, false)).result
    ensures Unary(e, f).overflow == (f.overflow || Unary(e, Folded(f.result, false)).overflow)
  {
    hide FoldNegate, Convert;
  }

  lemma UnaryTells(p: Program, s: Scope, e: Expr, visiting: set<string>, pending: Pending,
                   r: Option<ConstInt>, before: bool, after: bool)
    requires e.Plus? || e.Negate? || e.Complement? || e.Cast?
    requires Finds(p, s, e.operand, visiting, pending, r)
    requires Flags(p, s, e.operand, visiting, pending, before, after)
    ensures var f := Unary(e, Folded(r, after));
            Finds(p, s, e, visiting, pending, f.result) && Flags(p, s, e, visiting, pending, before, f.overflow)
  {
    hide Blocked, Quiet, Unary, Eval;
    var f := Unary(e, Folded(r, after));
    UnaryNeedsOperand(e, Folded(r, after));
    forall d: nat ensures Eval(p, s, e, d) == Unary(e, Eval(p, s, e.operand, d)) {
      UnaryEval(p, s, e, d);
    }
    forall d: nat ensures
        && (Eval(p, s, e, d).result.Some? ==> Eval(p, s, e.operand, d).result.Some?)
        && Eval(p, s, e, d).overflow ==
             (Eval(p, s, e.operand, d).overflow || Unary(e, Folded(Eval(p, s, e.operand, d).result, false)).overflow)
    {
      UnaryNeedsOperand(e, Eval(p, s, e.operand, d));
    }
    if r.Some? {
      var d: nat :| Eval(p, s, e.operand, d).result == r;
      UnaryNeedsOperand(e, Eval(p, s, e.operand, d));
      forall d': nat | Eval(p, s, e.operand, d').result.Some?
        ensures Eval(p, s, e.operand, d').result == r
      {
        DenotesOnce(p, s, e.operand, d, d');
      }
      forall d': nat | Eval(p, s, e, d').result.Some? ensures f.result.Some? {
        UnaryNeedsOperand(e, Eval(p, s, e.operand, d'));
      }
    }
    UnaryNeedsOperand(e, Folded(None, false));
  }

  lemma BinaryTells(p: Program, s: Scope, e: Expr, visiting: set<string>, pending: Pending,
                    l: Option<ConstInt>, r: Option<ConstInt>, before: bool, between: bool, after: bool)
    requires e.Binary?
    requires Finds(p, s, e.left, visiting, pending, l) && Flags(p, s, e.left, visiting, pending, before, between)
    requires Finds(p, s, e.right, visiting, pending, r) && Flags(p, s, e.right, visiting, pending, between, after)
    ensures var f := Combine(e.op, Folded(l, false), Folded(r, after));
            Finds(p, s, e, visiting, pending, f.result) && Flags(p, s, e, visiting, pending, before, f.overflow)
  {
    hide Blocked, Quiet, Eval, FoldBinary;
    forall d: nat ensures Eval(p, s, e, d) == Combine(e.op, Eval(p, s, e.left, d), Eval(p, s, e.right, d)) {
      BinaryEval(p, s, e, d);
    }
    if l.Some? && r.Some? {
      var i: nat :| Eval(p, s, e.left, i).result == l;
      var j: nat :| Eval(p, s, e.right, j).result == r;
      var k := if i < j then j else i;
      EvalGrows(p, s, e.left, i, k);
      EvalGrows(p, s, e.right, j, k);
      assert Eval(p, s, e, k) == Combine(e.op, Eval(p, s, e.left, k), Eval(p, s, e.right, k));
      forall d: nat ensures
          && (Eval(p, s, e.left, d).result.Some? ==> Eval(p, s, e.left, d).result == l)
          && (Eval(p, s, e.right, d).result.Some? ==> Eval(p, s, e.right, d).result == r)
      {
        DenotesOnce(p, s, e.left, i, d);
        DenotesOnce(p, s, e.right, j, d);
      }
    }
  }

  lemma BinaryEval(p: Program, s: Scope, e: Expr, d: nat)
    requires e.Binary?
    ensures Eval(p, s, e, d) == Combine(e.op, Eval(p, s, e.left, d), Eval(p, s, e.right, d))
  {
  }

  lemma UnboundTells(p: Program, s: Scope, name: string, visiting: set<string>, pending: Pending, flag: bool)
    requires name in visiting || (name !in s.members && Body(s, name).None?)
    ensures Finds(p, s, Name(name), visiting, pending, None)
    ensures Flags(p, s, Name(name), visiting, pending, flag, flag)
  {
    if name !in visiting {
      assert forall d: nat :: Eval(p, s, Name(name), d) == Folded(None, false);
    }
  }

  /** The least depth at which a name has a value. */
  lemma FirstValue(p: Program, s: Scope, name: string, d: nat) returns (first: nat)
    requires Eval(p, s, Name(name), d).result.Some?
    ensures 0 < first <= d && Eval(p, s, Name(name), first).result == Eval(p, s, Name(name), d).result
    ensures Eval(p, s, Name(name), first - 1).result.None?
  {
    first := d;
    while Eval(p, s, Name(name), first - 1).result.Some?
      invariant 0 < first <= d && Eval(p, s, Name(name), first).result == Eval(p, s, Name(name), d).result
      decreases first
    {
      EvalGrows(p, s, Name(name), first - 1, first);
      first := first - 1;
    }
  }

  /** The least depth at which a name overflows. */
  lemma FirstFlag(p: Program, s: Scope, name: string, d: nat) returns (first: nat)
    requires Eval(p, s, Name(name), d).overflow
    ensures 0 < first <= d && Eval(p, s, Name(name), first).overflow
    ensures !Eval(p, s, Name(name), first - 1).overflow
  {
    first := d;
    while Eval(p, s, Name(name), first - 1).overflow
      invariant 0 < first <= d && Eval(p, s, Name(name), first).overflow
      decreases first
    {
      first := first - 1;
    }
  }

  lemma BodyEval(p: Program, s: Scope, name: string, d: nat)
    requires name !in s.members && Body(s, name).Some?
    ensures Eval(p, s, Name(name), d + 1) == Eval(p, s, Body(s, name).value, d)
    ensures Eval(p, s, Name(name), 0) == Folded(None, false)
  {
  }

  lemma BlockedShrinks(p: Program, s: Scope, visiting: set<string>, pending: Pending, d: nat, e: nat)
    requires Blocked(p, s, visiting, pending, d) && e <= d
    ensures Blocked(p, s, visiting, pending, e)
    ensures Quiet(p, s, visiting, d) ==> Quiet(p, s, visiting, e)
  {
    hide Eval, OrdinalAt;
    HeldShrinks(p, pending, d, e);
    forall n | n in visiting ensures Grows(Eval(p, s, Name(n), e), Eval(p, s, Name(n), d)) {
      EvalGrows(p, s, Name(n), e, d);
    }
  }

  lemma HeldShrinks(p: Program, pending: Pending, d: nat, e: nat)
    requires Held(p, pending, d) && e <= d
    ensures Held(p, pending, e)
  {
    hide OrdinalAt;
    forall owner, i: nat | owner in pending && i < |pending[owner]| && pending[owner][i].None?
      ensures OrdinalAt(p, owner, i, e).None?
    {
      if OrdinalAt(p, owner, i, e).Some? { OrdinalGrows(p, owner, i, e, d); }
    }
  }

  /**
   * Cycle detection loses nothing: a name's value at its least depth never depends on the name
   * itself, so refusing the names on the way cannot hide it.
   */
  lemma NameTells(p: Program, s: Scope, name: string, visiting: set<string>, pending: Pending,
                  r: Option<ConstInt>, before: bool, after: bool)
    requires name !in visiting && name !in s.members && Body(s, name).Some?
    requires Finds(p, s, Body(s, name).value, visiting + {name}, pending, r)
    requires Flags(p, s, Body(s, name).value, visiting + {name}, pending, before, after)
    ensures Finds(p, s, Name(name), visiting, pending, r)
    ensures Flags(p, s, Name(name), visiting, pending, before, after)
  {
    hide Eval, Blocked, Quiet;
    var body := Body(s, name).value;
    if r.Some? {
      var d: nat :| Eval(p, s, body, d).result == r;
      BodyEval(p, s, name, d);
    }
    if after && !before {
      var d: nat :| Eval(p, s, body, d).overflow;
      BodyEval(p, s, name, d);
    }
    forall d: nat | Blocked(p, s, visiting, pending, d) && Eval(p, s, Name(name), d).result.Some?
      ensures r.Some?
    {
      var first := FirstValue(p, s, name, d);
      BodyEval(p, s, name, first - 1);
      BlockedWith(p, s, name, visiting, pending, d, first - 1);
      assert Eval(p, s, body, first - 1).result.Some?;
    }
    forall d: nat |
      Blocked(p, s, visiting, pending, d) && Quiet(p, s, visiting, d) && Eval(p, s, Name(name), d).overflow
      ensures after
    {
      var first := FirstFlag(p, s, name, d);
      BodyEval(p, s, name, first - 1);
      if Eval(p, s, Name(name), first - 1).result.Some? { DenotesOnce(p, s, Name(name), first - 1, d); }
      BlockedWith(p, s, name, visiting, pending, d, first - 1);
      assert Eval(p, s, body, first - 1).overflow;
    }
  }

  lemma BlockedWith(p: Program, s: Scope, name: string, visiting: set<string>, pending: Pending, d: nat, e: nat)
    requires Blocked(p, s, visiting, pending, d) && e <= d
    requires Eval(p, s, Name(name), e).result.None?
    ensures Blocked(p, s, visiting + {name}, pending, e)
    ensures Quiet(p, s, visiting, d) && !Eval(p, s, Name(name), e).overflow ==> Quiet(p, s, visiting + {name}, e)
  {
    hide Eval, Held;
    BlockedShrinks(p, s, visiting, pending, d, e);
  }

  // ------------------------------------------------------------------ enum members

  ghost predicate FindsOrdinal(p: Program, owner: EnumId, index: nat, pending: Pending, v: Option<Int64>) {
    && (v.Some? ==> HasOrdinal(p, owner, index, v.value))
    && (forall d: nat :: Held(p, pending, d) && OrdinalAt(p, owner, index, d).Some? ==> v.Some?)
  }

  lemma MemberTells(p: Program, s: Scope, name: string, visiting: set<string>, pending: Pending,
                    v: Option<Int64>, flag: bool)
    requires name in s.members
    requires FindsOrdinal(p, s.members[name].owner, s.members[name].index, pending, v)
    ensures Finds(p, s, Name(name), visiting, pending, FromOrdinal(v).result)
    ensures Flags(p, s, Name(name), visiting, pending, flag, flag)
  {
    hide OrdinalAt, Held, FromValue;
    var owner, index := s.members[name].owner, s.members[name].index;
    assert forall d: nat :: !Eval(p, s, Name(name), d).overflow;
    if v.Some? {
      var d: nat :| OrdinalAt(p, owner, index, d) == Some(v.value);
      assert Eval(p, s, Name(name), d + 1).result == FromOrdinal(v).result;
    }
    forall d: nat | Blocked(p, s, visiting, pending, d) && Eval(p, s, Name(name), d).result.Some?
      ensures v.Some?
    {
      HeldShrinks(p, pending, d, d - 1);
    }
  }

  /** Filled slots form a prefix, and each holds the ordinal its member is declared to have. */
  ghost predicate RowOk(p: Program, owner: EnumId, row: Slots) {
    && owner in p && |row| == |p[owner].explicit|
    && (forall i, j :: 0 <= i < j < |row| && row[j].Some? ==> row[i].Some?)
    && (forall i :: 0 <= i < |row| && row[i].Some? ==> HasOrdinal(p, owner, i, row[i].value))
  }

  /** Every filled slot of `old` is filled with the same value in `new`. */
  predicate RowKept(before: Slots, after: Slots) {
    && |before| == |after|
    && (forall i :: 0 <= i < |before| && before[i].Some? ==> after[i] == before[i])
  }

  predicate CacheKept(before: map<EnumId, Slots>, after: map<EnumId, Slots>) {
    forall owner :: owner in before ==> owner in after && RowKept(before[owner], after[owner])
  }

  /** The slot filled after its predecessors gets the declared ordinal. */
  lemma ImplicitOrdinal(p: Program, owner: EnumId, index: nat, previous: Option<Int64>)
    requires owner in p && index < |p[owner].explicit| && p[owner].explicit[index].None?
    requires if index == 0 then previous.None? else previous.Some? && HasOrdinal(p, owner, index - 1, previous.value)
    ensures var v := NextOrdinal(previous);
            && (v.Some? ==> HasOrdinal(p, owner, index, v.value))
            && (v.None? ==> forall d: nat :: OrdinalAt(p, owner, index, d).None?)
  {
    hide NextOrdinal;
    if index == 0 {
      assert forall d: nat :: OrdinalAt(p, owner, index, d) == NextOrdinal(None);
      assert OrdinalAt(p, owner, index, 0) == NextOrdinal(None);
    } else {
      var d: nat :| OrdinalAt(p, owner, index - 1, d) == previous;
      assert OrdinalAt(p, owner, index, d) == NextOrdinal(previous);
      forall d': nat
        ensures OrdinalAt(p, owner, index, d').Some? ==> OrdinalAt(p, owner, index, d') == NextOrdinal(previous)
      {
        if OrdinalAt(p, owner, index - 1, d').Some? { OrdinalOnce(p, owner, index - 1, d, d'); }
      }
    }
  }

  /** The least depth at which a member has an ordinal. */
  lemma FirstOrdinal(p: Program, owner: EnumId, index: nat, d: nat) returns (first: nat)
    requires OrdinalAt(p, owner, index, d).Some?
    ensures first <= d && OrdinalAt(p, owner, index, first).Some?
    ensures first > 0 ==> OrdinalAt(p, owner, index, first - 1).None?
  {
    first := d;
    while first > 0 && OrdinalAt(p, owner, index, first - 1).Some?
      invariant first <= d && OrdinalAt(p, owner, index, first).Some?
    {
      first := first - 1;
    }
  }

  lemma ExplicitEquation(p: Program, owner: EnumId, index: nat, d: nat)
    requires owner in p && index < |p[owner].explicit| && p[owner].explicit[index].Some?
    ensures OrdinalAt(p, owner, index, d).Some? ==>
              d > 0 && OrdinalAt(p, owner, index, d) ==
                  OrdinalOf(Eval(p, p[owner].scope, p[owner].explicit[index].value, d - 1).result)
    ensures d > 0 && (index == 0 || OrdinalAt(p, owner, index - 1, d).Some?) ==>
              OrdinalAt(p, owner, index, d) ==
                  OrdinalOf(Eval(p, p[owner].scope, p[owner].explicit[index].value, d - 1).result)
  {
    hide OrdinalOf, Eval;
  }

  /**
   * An explicit value evaluated while its own enum is in progress: what comes back is the declared
   * ordinal, and if nothing comes back the member has none at any unblocked depth.
   */
  lemma ExplicitOrdinal(p: Program, owner: EnumId, index: nat, row: Slots, pending: Pending, c: Option<ConstInt>)
    requires RowOk(p, owner, row) && owner !in pending && index < |row| && row[index].None?
    requires p[owner].explicit[index].Some?
    requires index == 0 || row[index - 1].Some?
    requires Finds(p, p[owner].scope, p[owner].explicit[index].value, {}, pending[owner := row], c)
    ensures var v := OrdinalOf(c);
            && (v.Some? ==> HasOrdinal(p, owner, index, v.value))
            && (v.None? ==> forall d: nat :: Held(p, pending, d) ==> OrdinalAt(p, owner, index, d).None?)
  {
    hide Eval, OrdinalAt, OrdinalOf;
    var s, e := p[owner].scope, p[owner].explicit[index].value;
    NothingHasNoOrdinal();
    if c.Some? {
      var d: nat :| Eval(p, s, e, d).result == c;
      var k := d + 1;
      if index > 0 {
        var j: nat :| OrdinalAt(p, owner, index - 1, j) == row[index - 1];
        k := if j > d then j else d + 1;
        OrdinalGrows(p, owner, index - 1, j, k);
      }
      EvalGrows(p, s, e, d, k - 1);
      ExplicitEquation(p, owner, index, k);
      forall d': nat | OrdinalAt(p, owner, index, d').Some? ensures OrdinalAt(p, owner, index, d') == OrdinalOf(c) {
        ExplicitEquation(p, owner, index, d');
        DenotesOnce(p, s, e, d, d' - 1);
      }
    } else {
      forall d: nat | Held(p, pending, d) ensures OrdinalAt(p, owner, index, d).None? {
        if OrdinalAt(p, owner, index, d).Some? {
          var first := FirstOrdinal(p, owner, index, d);
          ExplicitEquation(p, owner, index, first);
          HeldWith(p, owner, index, row, pending, d, first - 1);
        }
      }
    }
  }

  lemma HeldWith(p: Program, owner: EnumId, index: nat, row: Slots, pending: Pending, d: nat, e: nat)
    requires Held(p, pending, d) && e <= d && RowOk(p, owner, row)
    requires index < |row| && row[index].None? && (index == 0 || row[index - 1].Some?)
    requires OrdinalAt(p, owner, index, e).None?
    ensures Held(p, pending[owner := row], e)
  {
    hide OrdinalAt;
    HeldShrinks(p, pending, d, e);
    forall i: nat | i < |row| && row[i].None? ensures OrdinalAt(p, owner, i, e).None? {
      if OrdinalAt(p, owner, i, e).Some? { OrdinalsArePrefix(p, owner, index, i, e); }
    }
  }

  // ------------------------------------------------------------------ the evaluator

  /** The visiting set and overflow flag one evaluation passes along by reference. */
  class FoldState {
    var visiting: set<string>
    var overflow: bool

    constructor ()
      ensures visiting == {} && !overflow
    {
      visiting, overflow := {}, false;
    }
  }

  class Evaluator {
    const program: Program
    var cache: map<EnumId, Slots>
    var inProgress: set<EnumId>

    ghost predicate Valid()
      reads this
    {
      && inProgress <= cache.Keys
      && (forall owner :: owner in cache ==> RowOk(program, owner, cache[owner]))
    }

    ghost function PendingRows(): Pending
      reads this
      requires Valid()
    {
      map owner | owner in inProgress :: cache[owner]
    }

    constructor (program: Program)
      ensures Valid() && this.program == program && cache == map[] && inProgress == {}
    {
      this.program := program;
      cache, inProgress := map[], {};
    }

    /**
     * A constant expression from scratch. The cache and the cycle check are invisible: the result
     * is the value of the fully unfolded expression, and nothing only if no unfolding has one.
     */
    method EvaluateConst(s: Scope, e: Expr) returns (r: Option<ConstInt>, overflow: bool)
      requires Valid() && inProgress == {}
      modifies this`cache, this`inProgress
      ensures Valid() && inProgress == {} && CacheKept(old(cache), cache)
      ensures r.Some? ==> Denotes(program, s, e, r.value)
      ensures r.None? ==> forall c :: !Denotes(program, s, e, c)
      ensures overflow <==> MayOverflow(program, s, e)
    {
      hide Eval;
      var st := new FoldState();
      r := Evaluate(s, e, st);
      overflow := st.overflow;
      assert PendingRows() == map[];
      Unblocked(program, s, e, r, overflow);
    }

    /** An enum member's ordinal from scratch: the declared one, and nothing only if it has none. */
    method QueryOrdinal(m: Member) returns (v: Option<Int64>)
      requires Valid() && inProgress == {}
      modifies this`cache, this`inProgress
      ensures Valid() && inProgress == {} && CacheKept(old(cache), cache)
      ensures v.Some? ==> HasOrdinal(program, m.owner, m.index, v.value)
      ensures v.None? ==> forall w :: !HasOrdinal(program, m.owner, m.index, w)
    {
      hide OrdinalAt;
      v := MemberOrdinal(m);
      NothingHeld(program);
    }

    /** Evaluate one expression; terminates on every program, cyclic ones included. */
    method Evaluate(s: Scope, e: Expr, st: FoldState) returns (r: Option<ConstInt>)
      requires Valid()
      modifies this`cache, this`inProgress, st
      ensures Valid() && inProgress == old(inProgress) && PendingRows() == old(PendingRows())
      ensures CacheKept(old(cache), cache)
      ensures st.visiting == old(st.visiting)
      ensures Finds(program, s, e, st.visiting, PendingRows(), r)
      ensures Flags(program, s, e, st.visiting, PendingRows(), old(st.overflow), st.overflow)
      decreases program.Keys - inProgress, 2, ConstNames(s) - st.visiting, e
    {
      hide Finds, Flags, RowOk, FindsOrdinal, Fold, FoldBinary, FoldNegate, Convert, FromLiteral, FromValue;
      ghost var visiting, pending, before := st.visiting, PendingRows(), st.overflow;
      match e {
        case Literal(n) =>
          LeafTells(program, s, e, visiting, pending, before);
          LeafValue(e);
          r := Some(FromLiteral(n));
        case Ordinal(value) =>
          LeafTells(program, s, e, visiting, pending, before);
          LeafValue(e);
          r := Some(FromValue(value));
        case Variable(_, _) =>
          LeafTells(program, s, e, visiting, pending, before);
          LeafValue(e);
          r := None;
        case Plus(a) =>
          r := Evaluate(s, a, st);
          UnaryTells(program, s, e, visiting, pending, r, before, st.overflow);
        case Complement(a) =>
          r := Evaluate(s, a, st);
          UnaryTells(program, s, e, visiting, pending, r, before, st.overflow);
          r := None;
        case Cast(target, a) =>
          r := Evaluate(s, a, st);
          UnaryTells(program, s, e, visiting, pending, r, before, st.overflow);
          if r.Some? { r := Some(Convert(r.value, target)); }
        case Negate(a) =>
          r := Evaluate(s, a, st);
          UnaryTells(program, s, e, visiting, pending, r, before, st.overflow);
          if r.Some? {
            var f := FoldNegate(r.value);
            r := f.result;
            if f.overflow { st.overflow := true; }
          }
        case Binary(op, left, right) =>
          var x := Evaluate(s, left, st);
          ghost var between := st.overflow;
          var y := Evaluate(s, right, st);
          BinaryTells(program, s, e, visiting, pending, x, y, before, between, st.overflow);
          if x.None? || y.None? {
            r := None;
          } else {
            var f := FoldBinary(op, x.value, y.value);
            r := f.result;
            if f.overflow { st.overflow := true; }
          }
        case Name(name) =>
          r := EvaluateName(s, name, st);
      }
    }

    method EvaluateName(s: Scope, name: string, st: FoldState) returns (r: Option<ConstInt>)
      requires Valid()
      modifies this`cache, this`inProgress, st
      ensures Valid() && inProgress == old(inProgress) && PendingRows() == old(PendingRows())
      ensures CacheKept(old(cache), cache)
      ensures st.visiting == old(st.visiting)
      ensures Finds(program, s, Name(name), st.visiting, PendingRows(), r)
      ensures Flags(program, s, Name(name), st.visiting, PendingRows(), old(st.overflow), st.overflow)
      decreases program.Keys - inProgress, 2, ConstNames(s) - st.visiting, Name(name), 0
    {
      hide Finds, Flags, RowOk, FindsOrdinal, FindConst, ConstNames, FromValue;
      ghost var visiting, pending, before := st.visiting, PendingRows(), st.overflow;
      if name in s.members {
        var v := MemberOrdinal(s.members[name]);
        MemberTells(program, s, name, visiting, pending, v, before);
        r := if v.None? then None else Some(FromValue(v.value));
      } else if name in st.visiting {
        UnboundTells(program, s, name, visiting, pending, before);
        r := None;
      } else {
        st.visiting := st.visiting + {name};
        r := None;
        var body := FindBody(s, name);
        if body.Some? {
          BodyIsNamed(s, name);
          r := Evaluate(s, body.value, st);
          NameTells(program, s, name, visiting, pending, r, before, st.overflow);
        } else {
          UnboundTells(program, s, name, visiting, pending, before);
        }
        st.visiting := st.visiting - {name};
        assert st.visiting == visiting;
      }
    }

    /** Local constants with a value first, then the frames from the innermost outward. */
    method FindBody(s: Scope, name: string) returns (body: Option<Expr>)
      ensures body == Body(s, name)
    {
      if name in s.locals && s.locals[name].initializer.Some? {
        var decl := s.locals[name];
        return if decl.typed then None else decl.initializer;
      }
      var i := 0;
      while i < |s.frames| && name !in s.frames[i]
        invariant 0 <= i <= |s.frames|
        invariant FindInFrames(s.frames[i..], name) == FindInFrames(s.frames, name)
      {
        assert s.frames[i..][1..] == s.frames[i + 1..];
        i := i + 1;
      }
      if i == |s.frames| {
        assert s.frames[i..] == [];
        return None;
      }
      var decl := s.frames[i][name];
      return if decl.typed then None else decl.initializer;
    }

    /** The ordinal of a member, from the cache or by evaluating its enum. */
    method MemberOrdinal(m: Member) returns (v: Option<Int64>)
      requires Valid()
      modifies this`cache, this`inProgress
      ensures Valid() && inProgress == old(inProgress) && PendingRows() == old(PendingRows())
      ensures CacheKept(old(cache), cache)
      ensures FindsOrdinal(program, m.owner, m.index, PendingRows(), v)
      decreases program.Keys - inProgress, 1
    {
      hide OrdinalAt;
      if m.owner !in program || m.index >= |program[m.owner].explicit| {
        NoOrdinal(program, m.owner, m.index);
        return None;
      }
      var inserted := m.owner !in cache;
      if inserted {
        cache := cache[m.owner := EmptyRow(|program[m.owner].explicit|)];
      }
      if inserted || cache[m.owner][m.index].None? {
        EvaluateEnum(m.owner);
      }
      v := cache[m.owner][m.index];
    }

    /** Fill the slots of an enum in order until one cannot be evaluated. */
    method EvaluateEnum(owner: EnumId)
      requires Valid() && owner in cache
      modifies this`cache, this`inProgress
      ensures Valid() && inProgress == old(inProgress) && PendingRows() == old(PendingRows())
      ensures CacheKept(old(cache), cache)
      ensures forall i: nat :: i < |cache[owner]| ==> FindsOrdinal(program, owner, i, PendingRows(), cache[owner][i])
      decreases program.Keys - inProgress, 0
    {
      hide OrdinalAt, RowOk, FindsOrdinal, Held, RowKept;
      CacheKeptRefl(cache);
      RowOwner(program, owner, cache[owner]);
      if owner in inProgress {
        assert PendingRows()[owner] == cache[owner];
        PendingFinds(program, owner, PendingRows());
        return;
      }
      ghost var pending := PendingRows();
      inProgress := inProgress + {owner};
      FillRow(owner, pending);
      assert forall other :: other in pending ==> PendingRows()[other] == pending[other];
      inProgress := inProgress - {owner};
      assert inProgress == old(inProgress);
      assert PendingRows() == pending;
    }

    /** The slots before `index` are filled, and only this enum's row differs from the rows pending before it. */
    ghost predicate Filling(owner: EnumId, index: nat, previous: Option<Int64>, pending: Pending,
                            start: map<EnumId, Slots>)
      reads this
    {
      && Valid() && owner in inProgress
      && CacheKept(start, cache)
      && PendingRows() == pending[owner := cache[owner]]
      && index <= |cache[owner]|
      && (forall i :: 0 <= i < index ==> cache[owner][i].Some?)
      && (if index == 0 then previous.None? else previous == cache[owner][index - 1])
    }

    method FillRow(owner: EnumId, ghost pending: Pending)
      requires Valid() && owner in inProgress && owner !in pending && owner in program
      requires PendingRows() == pending[owner := cache[owner]]
      modifies this`cache, this`inProgress
      ensures Valid() && inProgress == old(inProgress) && CacheKept(old(cache), cache)
      ensures PendingRows() == pending[owner := cache[owner]]
      ensures forall i: nat :: i < |cache[owner]| ==> FindsOrdinal(program, owner, i, pending, cache[owner][i])
      decreases program.Keys - inProgress, 5
    {
      hide OrdinalAt, RowOk, FindsOrdinal, Held, RowKept;
      ghost var start := cache;
      CacheKeptRefl(cache);
      var size := |cache[owner]|;
      var previous: Option<Int64> := None;
      var index := 0;
      while index < size
        invariant inProgress == old(inProgress) && Filling(owner, index, previous, pending, start)
        invariant size == |cache[owner]|
        decreases size - index
      {
        var v := FillNext(owner, index, previous, pending, start);
        if v.None? { break; }
        previous := v;
        index := index + 1;
      }
      RowFinds(program, owner, cache[owner], index, pending);
    }

    /** One member: keep its slot if it is filled, else evaluate it and fill it. */
    method FillNext(owner: EnumId, index: nat, previous: Option<Int64>, ghost pending: Pending,
                    ghost start: map<EnumId, Slots>)
      returns (v: Option<Int64>)
      requires Filling(owner, index, previous, pending, start) && owner !in pending && index < |cache[owner]|
      modifies this`cache, this`inProgress
      ensures inProgress == old(inProgress) && owner in cache && |cache[owner]| == |old(cache[owner])|
      ensures v.Some? ==> Filling(owner, index + 1, v, pending, start)
      ensures v.None? ==> Filling(owner, index, previous, pending, start) && cache[owner][index].None?
      ensures v.None? ==> forall d: nat :: Held(program, pending, d) ==> OrdinalAt(program, owner, index, d).None?
      decreases program.Keys - inProgress, 4
    {
      hide OrdinalAt, RowOk, HasOrdinal, Held, RowKept;
      ghost var before := cache;
      if cache[owner][index].Some? {
        return cache[owner][index];
      }
      v := SlotValue(owner, index, previous, pending);
      CacheKeptTrans(start, before, cache);
      if v.Some? { Store(owner, index, v, start); }
    }

    /** Put a declared ordinal into the first empty slot of an enum in progress. */
    method Store(owner: EnumId, index: nat, v: Option<Int64>, ghost start: map<EnumId, Slots>)
      requires Valid() && owner in inProgress && CacheKept(start, cache)
      requires index < |cache[owner]| && cache[owner][index].None?
      requires forall i :: 0 <= i < index ==> cache[owner][i].Some?
      requires v.Some? && HasOrdinal(program, owner, index, v.value)
      modifies this`cache
      ensures Valid() && CacheKept(start, cache)
      ensures cache == old(cache)[owner := old(cache[owner])[index := v]]
    {
      hide HasOrdinal, RowOk, RowKept;
      FillSlot(program, owner, cache[owner], index, v);
      OneRowKept(cache, owner, cache[owner][index := v]);
      CacheKeptTrans(start, cache, cache[owner := cache[owner][index := v]]);
      cache := cache[owner := cache[owner][index := v]];
    }

    /** The value of the first empty slot of an enum in progress. */
    method SlotValue(owner: EnumId, index: nat, previous: Option<Int64>, ghost pending: Pending)
      returns (v: Option<Int64>)
      requires Valid() && owner in inProgress && owner !in pending
      requires PendingRows() == pending[owner := cache[owner]]
      requires index < |cache[owner]| && cache[owner][index].None?
      requires if index == 0 then previous.None? else previous.Some? && previous == cache[owner][index - 1]
      modifies this`cache, this`inProgress
      ensures Valid() && inProgress == old(inProgress) && PendingRows() == old(PendingRows())
      ensures CacheKept(old(cache), cache)
      ensures owner in cache && cache[owner] == old(cache[owner])
      ensures v.Some? ==> HasOrdinal(program, owner, index, v.value)
      ensures v.None? ==> forall d: nat :: Held(program, pending, d) ==> OrdinalAt(program, owner, index, d).None?
      decreases program.Keys - inProgress, 3
    {
      hide OrdinalAt, OrdinalOf, NextOrdinal, HasOrdinal, Finds, Flags, Held;
      ghost var row := cache[owner];
      assert PendingRows()[owner] == row;
      SlotsHaveOrdinals(program, owner, row);
      if program[owner].explicit[index].Some? {
        var st := new FoldState();
        var c := Evaluate(program[owner].scope, program[owner].explicit[index].value, st);
        assert PendingRows()[owner] == row;
        ExplicitOrdinal(program, owner, index, row, pending, c);
        v := OrdinalOf(c);
      } else {
        ImplicitOrdinal(program, owner, index, previous);
        v := NextOrdinal(previous);
      }
    }
  }

  lemma SlotsHaveOrdinals(p: Program, owner: EnumId, row: Slots)
    requires RowOk(p, owner, row)
    ensures forall i: nat :: i < |row| && row[i].Some? ==> HasOrdinal(p, owner, i, row[i].value)
  {
  }

  lemma FillSlot(p: Program, owner: EnumId, row: Slots, index: nat, v: Option<Int64>)
    requires RowOk(p, owner, row) && index < |row| && row[index].None?
    requires forall i :: 0 <= i < index ==> row[i].Some?
    requires v.Some? && HasOrdinal(p, owner, index, v.value)
    ensures RowOk(p, owner, row[index := v]) && RowKept(row, row[index := v])
  {
    hide HasOrdinal;
  }

  lemma CacheKeptRefl(a: map<EnumId, Slots>)
    ensures CacheKept(a, a)
  {
  }

  lemma RowOwner(p: Program, owner: EnumId, row: Slots)
    requires RowOk(p, owner, row)
    ensures owner in p
  {
  }

  lemma OneRowKept(a: map<EnumId, Slots>, owner: EnumId, row: Slots)
    requires owner in a && RowKept(a[owner], row)
    ensures CacheKept(a, a[owner := row])
  {
  }

  /** A re-entrant query answers from the row as it stands. */
  lemma PendingFinds(p: Program, owner: EnumId, pending: Pending)
    requires owner in pending && RowOk(p, owner, pending[owner])
    ensures forall i: nat :: i < |pending[owner]| ==> FindsOrdinal(p, owner, i, pending, pending[owner][i])
  {
    hide OrdinalAt;
  }

  lemma CacheKeptTrans(a: map<EnumId, Slots>, b: map<EnumId, Slots>, c: map<EnumId, Slots>)
    requires CacheKept(a, b) && CacheKept(b, c)
    ensures CacheKept(a, c)
  {
  }

  /** Filled up to the first member without an ordinal: every slot is what a query should find. */
  lemma RowFinds(p: Program, owner: EnumId, row: Slots, index: nat, pending: Pending)
    requires RowOk(p, owner, row) && index <= |row|
    requires forall i :: 0 <= i < index ==> row[i].Some?
    requires index < |row| ==> row[index].None?
    requires index < |row| ==> forall d: nat :: Held(p, pending, d) ==> OrdinalAt(p, owner, index, d).None?
    ensures forall i: nat :: i < |row| ==> FindsOrdinal(p, owner, i, pending, row[i])
  {
    hide OrdinalAt, Held;
    forall i: nat, d: nat | index <= i < |row| && Held(p, pending, d)
      ensures OrdinalAt(p, owner, i, d).None?
    {
      if OrdinalAt(p, owner, i, d).Some? { OrdinalsArePrefix(p, owner, index, i, d); }
    }
  }

  /** With nothing on the way and nothing in progress there is nothing to miss. */
  lemma Unblocked(p: Program, s: Scope, e: Expr, r: Option<ConstInt>, flag: bool)
    requires Finds(p, s, e, {}, map[], r) && Flags(p, s, e, {}, map[], false, flag)
    ensures r.None? ==> forall c :: !Denotes(p, s, e, c)
    ensures flag <==> MayOverflow(p, s, e)
  {
    assert forall d: nat :: Blocked(p, s, {}, map[], d) && Quiet(p, s, {}, d);
    hide Blocked, Quiet;
    if MayOverflow(p, s, e) {
      var d: nat :| Eval(p, s, e, d).overflow;
      assert Blocked(p, s, {}, map[], d);
    }
  }

  lemma NothingHeld(p: Program)
    ensures forall d: nat :: Held(p, map[], d)
  {
  }

  /** Whenever it is asked, during an evaluation or after it, a member has one ordinal. */
  lemma OrdinalUnique(p: Program, owner: EnumId, index: nat, v: Int64, w: Int64)
    requires HasOrdinal(p, owner, index, v) && HasOrdinal(p, owner, index, w)
    ensures v == w
  {
    hide OrdinalAt;
    var d: nat :| OrdinalAt(p, owner, index, d) == Some(v);
    var d': nat :| OrdinalAt(p, owner, index, d') == Some(w);
    OrdinalOnce(p, owner, index, d, d');
  }

  lemma LeafValue(e: Expr)
    requires e.Literal? || e.Ordinal? || e.Variable?
    ensures Fold(e).result ==
            match e
            case Literal(n) => Some(FromLiteral(n))
            case Ordinal(v) => Some(FromValue(v))
            case _ => None
  {
  }

  lemma NoOrdinal(p: Program, owner: EnumId, index: nat)
    requires owner !in p || index >= |p[owner].explicit|
    ensures forall d: nat :: OrdinalAt(p, owner, index, d).None?
  {
  }

  function EmptyRow(n: nat): (row: Slots)
    ensures |row| == n && forall i :: 0 <= i < n ==> row[i].None?
  {
    seq(n, _ => None)
  }
}
