/**
  The C++ statements the translator emits, and what they mean: blocks with labels and forward gotos,
  block-scoped temporaries, scope guards, and try blocks.
 */
module Cxx {
  import opened Wrappers
  import opened Carriers
  import opened Pascal

  /** Every Pascal loop owns one pair of labels, named after its number. */
  datatype Label = BreakLabel(n: nat) | ContinueLabel(n: nat)

  /** Block-scoped variables of the generated code. The two bounds of a `for` have no number. */
  datatype Temp =
    | FromBound
    | ToBound
    | Selector(name: string)
    | HandledFlag(n: nat)
    | Caught(n: nat)
    | SetCopy(n: nat)
    | Item(n: nat)

  type Temps = map<Temp, Val>

  datatype State = State(st: Store, tmp: Temps)

  /** Expressions over temporaries and variables, free of effects. */
  datatype Pure =
    | Const(n: int)
    | Ref(t: Temp)
    | VarRef(x: string)
    | Le(l: Pure, r: Pure)
    | Ge(l: Pure, r: Pure)
    | Eq(l: Pure, r: Pure)
    | And(l: Pure, r: Pure)
    | Or(l: Pure, r: Pure)
    | Not(p: Pure)
    | Conv(car: Carrier, p: Pure)
    | Step(car: Carrier, downto: bool, p: Pure)
    | Contains(members: Pure, p: Pure)
    | IsA(p: Pure, cls: nat)

  function Bool(b: bool): Val {
    Num(if b then 1 else 0)
  }

  function Look(isa: (nat, nat) -> bool, p: Pure, s: State): Val {
    match p
    case Const(n) => Num(n)
    case Ref(t) => if t in s.tmp then s.tmp[t] else Num(0)
    case VarRef(x) => Num(s.st.Get(x))
    case Le(l, r) => Bool(AsNum(Look(isa, l, s)) <= AsNum(Look(isa, r, s)))
    case Ge(l, r) => Bool(AsNum(Look(isa, l, s)) >= AsNum(Look(isa, r, s)))
    case Eq(l, r) => Bool(AsNum(Look(isa, l, s)) == AsNum(Look(isa, r, s)))
    case And(l, r) => Bool(Truth(Look(isa, l, s)) && Truth(Look(isa, r, s)))
    case Or(l, r) => Bool(Truth(Look(isa, l, s)) || Truth(Look(isa, r, s)))
    case Not(q) => Bool(!Truth(Look(isa, q, s)))
    case Conv(car, q) => Num(Wrap(car, AsNum(Look(isa, q, s))))
    case Step(car, downto, q) => Num(Wrap(car, Next(Wrap(car, AsNum(Look(isa, q, s))), downto)))
    case Contains(c, q) => Bool(AsNum(Look(isa, q, s)) in AsSet(Look(isa, c, s)))
    case IsA(q, cls) => Bool(isa(AsExc(Look(isa, q, s)).cls, cls))
  }

  /** An expression in statement position: translated Pascal, its negation, or a pure one. */
  datatype TExpr = Src(e: Expr) | NotSrc(e: Expr) | P(p: Pure)

  datatype TEval = TValue(v: Val, s: State) | TRaises(e: Exc, s: State)

  function EvalT(isa: (nat, nat) -> bool, x: TExpr, s: State): TEval {
    match x
    case Src(e) =>
      (match e(s.st)
       case Value(v, st1) => TValue(v, s.(st := st1))
       case Raises(exc, st1) => TRaises(exc, s.(st := st1)))
    case NotSrc(e) =>
      (match e(s.st)
       case Value(v, st1) => TValue(Bool(!Truth(v)), s.(st := st1))
       case Raises(exc, st1) => TRaises(exc, s.(st := st1)))
    case P(p) => TValue(Look(isa, p, s), s)
  }

  datatype Catch = Catch(t: Temp, code: Code)

  datatype CatchAll = NoCatchAll | CatchAll(code: Code)

  type Code = seq<TStmt>

  datatype TStmt =
    | TEmpty
    | TSet(x: string, e: TExpr)
    | TSetResult(e: TExpr)
    | TSetTemp(t: Temp, p: Pure)
    | TEvaluate(e: TExpr)
    | TBlock(code: Code)
    | TLet(t: Temp, e: TExpr, code: Code)        // { auto t = e; code }
    | TLocal(x: string, p: Pure, code: Code)     // { auto x = p; code }
    | TIf(cond: TExpr, thn: Code, els: Code)
    | TWhile(cond: TExpr, code: Code)
    | TDoWhile(code: Code, cond: TExpr)
    | TBreak
    | TContinue
    | TGoto(l: Label)
    | TLabel(l: Label)
    | TReturn
    | TThrow(e: TExpr)
    | TRethrow
    | TGuard(fin: Code, code: Code)              // { scope_exit guard([&]{ fin }); code }
    | TTry(code: Code, obj: Option<Catch>, all: CatchAll)

  /** How generated code ends. `Terminated` is the call of std::terminate, `IllFormed` stands for code
      that C++ rejects. */
  datatype TOut =
    | Falls(s: State)
    | Breaks(s: State)
    | Continues(s: State)
    | Goes(l: Label, s: State)
    | Returns(v: int, s: State)
    | Throws(e: Exc, s: State)
    | Terminated
    | IllFormed
    | TTimeout
  {
    predicate HasState() {
      !Terminated? && !IllFormed? && !TTimeout?
    }

    /** Leave the block that declared temporary `t`. */
    function Drop(t: Temp, outer: Temps): TOut {
      if HasState() then this.(s := s.(tmp := if t in outer then s.tmp[t := outer[t]] else s.tmp - {t}))
      else this
    }

    /** Leave the block that declared variable `x`. */
    function DropVar(x: string, outer: map<string, int>): TOut {
      if HasState() then this.(s := s.(st := s.st.Leave(x, outer))) else this
    }
  }

  /** Position of a label among the statements of a block, or -1. */
  function LabelAt(code: Code, l: Label): (k: int)
    ensures -1 <= k < |code|
  {
    if code == [] then -1
    else if code[0] == TLabel(l) then 0
    else
      var k := LabelAt(code[1..], l);
      if k < 0 then -1 else k + 1
  }

  /** Run one statement while `h` is the exception being handled. */
  function Exec(isa: (nat, nat) -> bool, t: TStmt, h: Option<Exc>, s: State, fuel: nat): TOut
    decreases fuel, t, 3
  {
    match t
    case TEmpty => Falls(s)
    case TSet(x, e) =>
      (match EvalT(isa, e, s)
       case TValue(v, s1) => Falls(s1.(st := s1.st.Set(x, AsNum(v))))
       case TRaises(exc, s1) => Throws(exc, s1))
    case TSetResult(e) =>
      (match EvalT(isa, e, s)
       case TValue(v, s1) => Falls(s1.(st := s1.st.(result := AsNum(v))))
       case TRaises(exc, s1) => Throws(exc, s1))
    case TSetTemp(x, p) => Falls(s.(tmp := s.tmp[x := Look(isa, p, s)]))
    case TEvaluate(e) =>
      (match EvalT(isa, e, s)
       case TValue(_, s1) => Falls(s1)
       case TRaises(exc, s1) => Throws(exc, s1))
    case TBlock(code) => ExecBlock(isa, code, h, s, fuel)
    case TLet(x, e, code) =>
      (match EvalT(isa, e, s)
       case TValue(v, s1) => ExecBlock(isa, code, h, s1.(tmp := s1.tmp[x := v]), fuel).Drop(x, s1.tmp)
       case TRaises(exc, s1) => Throws(exc, s1))
    case TLocal(x, p, code) =>
      ExecBlock(isa, code, h, s.(st := s.st.Set(x, AsNum(Look(isa, p, s)))), fuel).DropVar(x, s.st.vars)
    case TIf(cond, thn, els) =>
      (match EvalT(isa, cond, s)
       case TValue(v, s1) => ExecBlock(isa, if Truth(v) then thn else els, h, s1, fuel)
       case TRaises(exc, s1) => Throws(exc, s1))
    case TWhile(cond, code) =>
      if fuel == 0 then TTimeout else
      (match EvalT(isa, cond, s)
       case TValue(v, s1) =>
         if !Truth(v) then Falls(s1) else
         (match ExecBlock(isa, code, h, s1, fuel)
          case Falls(s2) => Exec(isa, t, h, s2, fuel - 1)
          case Continues(s2) => Exec(isa, t, h, s2, fuel - 1)
          case Breaks(s2) => Falls(s2)
          case o => o)
       case TRaises(exc, s1) => Throws(exc, s1))
    case TDoWhile(code, cond) =>
      if fuel == 0 then TTimeout else
      var o := ExecBlock(isa, code, h, s, fuel);
      if o.Falls? || o.Continues? then
        (match EvalT(isa, cond, o.s)
         case TValue(v, s2) => if Truth(v) then Exec(isa, t, h, s2, fuel - 1) else Falls(s2)
         case TRaises(exc, s2) => Throws(exc, s2))
      else if o.Breaks? then Falls(o.s)
      else o
    case TBreak => Breaks(s)
    case TContinue => Continues(s)
    case TGoto(l) => Goes(l, s)
    case TLabel(_) => Falls(s)
    case TReturn => Returns(s.st.result, s)
    case TThrow(e) =>
      (match EvalT(isa, e, s)
       case TValue(v, s1) => Throws(AsExc(v), s1)
       case TRaises(exc, s1) => Throws(exc, s1))
    case TRethrow => if h.Some? then Throws(h.value, s) else Terminated
    case TGuard(fin, code) =>
      var o := ExecBlock(isa, code, h, s, fuel);
      if !o.HasState() then o else AfterGuard(o, ExecBlock(isa, fin, h, o.s, fuel))
    case TTry(code, obj, all) =>
      (match ExecBlock(isa, code, h, s, fuel)
       case Throws(exc, s1) =>
         if obj.Some? && exc.asException then
           ExecBlock(isa, obj.value.code, Some(exc), s1.(tmp := s1.tmp[obj.value.t := Obj(exc)]), fuel)
             .Drop(obj.value.t, s1.tmp)
         else if all.CatchAll? then ExecBlock(isa, all.code, Some(exc), s1, fuel)
         else Throws(exc, s1)
       case o => o)
  }

  /** The guard's destructor runs the lambda, drops what it returns, and may not throw; no goto or
      break leaves a lambda. */
  function AfterGuard(o: TOut, f: TOut): TOut
    requires o.HasState()
  {
    match f
    case Falls(s1) => o.(s := s1)
    case Returns(_, s1) => o.(s := s1)
    case Throws(_, _) => Terminated
    case Terminated => Terminated
    case TTimeout => TTimeout
    case _ => IllFormed
  }

  function ExecBlock(isa: (nat, nat) -> bool, code: Code, h: Option<Exc>, s: State, fuel: nat): TOut
    decreases fuel, code, 1
  {
    if code == [] then Falls(s) else Resume(isa, Exec(isa, code[0], h, s, fuel), code[1..], h, fuel)
  }

  /** Go on after `o` with the statements `rest` of the same block: a goto is resolved there if its
      label is among them and leaves the block otherwise. */
  function Resume(isa: (nat, nat) -> bool, o: TOut, rest: Code, h: Option<Exc>, fuel: nat): TOut
    decreases fuel, rest, 2
  {
    match o
    case Falls(s1) => ExecBlock(isa, rest, h, s1, fuel)
    case Goes(l, s1) =>
      var k := LabelAt(rest, l);
      if k < 0 then o else ExecBlock(isa, rest[k + 1..], h, s1, fuel)
    case _ => o
  }

  lemma LabelAtAppend(a: Code, b: Code, l: Label)
    ensures LabelAt(a + b, l) ==
            if LabelAt(a, l) >= 0 then LabelAt(a, l)
            else if LabelAt(b, l) >= 0 then |a| + LabelAt(b, l)
            else -1
  {
    if a == [] {
      assert a + b == b;
    } else {
      assert (a + b)[1..] == a[1..] + b;
      LabelAtAppend(a[1..], b, l);
    }
  }

  /** Running a block is running its first part and going on with the second. */
  lemma {:induction false} ExecAppend(isa: (nat, nat) -> bool, a: Code, b: Code, h: Option<Exc>, s: State, fuel: nat)
    ensures ExecBlock(isa, a + b, h, s, fuel) == Resume(isa, ExecBlock(isa, a, h, s, fuel), b, h, fuel)
    decreases |a|, 0
  {
    if a == [] {
      assert a + b == b;
    } else {
      assert (a + b)[1..] == a[1..] + b && (a + b)[0] == a[0];
      ResumeAppend(isa, Exec(isa, a[0], h, s, fuel), a[1..], b, h, fuel);
    }
  }

  lemma {:induction false} ResumeAppend(isa: (nat, nat) -> bool, o: TOut, a: Code, b: Code, h: Option<Exc>, fuel: nat)
    ensures Resume(isa, o, a + b, h, fuel) == Resume(isa, Resume(isa, o, a, h, fuel), b, h, fuel)
    decreases |a|, 2
  {
    if o.Falls? {
      ExecAppend(isa, a, b, h, o.s, fuel);
    } else if o.Goes? {
      GotoAppend(isa, o.l, o.s, a, b, h, fuel);
    }
  }

  lemma GotoFound(isa: (nat, nat) -> bool, l: Label, s: State, rest: Code, h: Option<Exc>, fuel: nat, k: nat)
    requires LabelAt(rest, l) == k
    ensures Resume(isa, Goes(l, s), rest, h, fuel) == ExecBlock(isa, rest[k + 1..], h, s, fuel)
  {
  }

  lemma GotoLost(isa: (nat, nat) -> bool, l: Label, s: State, rest: Code, h: Option<Exc>, fuel: nat)
    requires LabelAt(rest, l) < 0
    ensures Resume(isa, Goes(l, s), rest, h, fuel) == Goes(l, s)
  {
  }

  lemma {:induction false} GotoAppend(isa: (nat, nat) -> bool, l: Label, s: State, a: Code, b: Code, h: Option<Exc>,
                                      fuel: nat)
    ensures Resume(isa, Goes(l, s), a + b, h, fuel) ==
            Resume(isa, Resume(isa, Goes(l, s), a, h, fuel), b, h, fuel)
    decreases |a|, 1
  {
    hide Exec, ExecBlock, Resume, LabelAt;
    LabelAtAppend(a, b, l);
    var k, j := LabelAt(a, l), LabelAt(b, l);
    if k >= 0 {
      GotoFound(isa, l, s, a + b, h, fuel, k);
      GotoFound(isa, l, s, a, h, fuel, k);
      assert (a + b)[k + 1..] == a[k + 1..] + b;
      ExecAppend(isa, a[k + 1..], b, h, s, fuel);
    } else {
      GotoLost(isa, l, s, a, h, fuel);
      if j >= 0 {
        GotoFound(isa, l, s, a + b, h, fuel, |a| + j);
        GotoFound(isa, l, s, b, h, fuel, j);
        assert (a + b)[|a| + j + 1..] == b[j + 1..];
      } else {
        GotoLost(isa, l, s, a + b, h, fuel);
        GotoLost(isa, l, s, b, h, fuel);
      }
    }
  }

  lemma ResumeNothing(isa: (nat, nat) -> bool, o: TOut, h: Option<Exc>, fuel: nat)
    ensures Resume(isa, o, [], h, fuel) == o
  {
    if o.Goes? {
      assert LabelAt([], o.l) == -1;
    } else if o.Falls? {
      assert ExecBlock(isa, [], h, o.s, fuel) == o;
    }
  }

  lemma ExecOne(isa: (nat, nat) -> bool, t: TStmt, h: Option<Exc>, s: State, fuel: nat)
    ensures ExecBlock(isa, [t], h, s, fuel) == Exec(isa, t, h, s, fuel)
  {
    assert [t][1..] == [];
    ResumeNothing(isa, Exec(isa, t, h, s, fuel), h, fuel);
  }
}
