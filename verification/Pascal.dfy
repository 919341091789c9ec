/**
  The structured Pascal statements that the translator lowers, and what they mean.

  An expression stands for its meaning: any function from a store to a value (or a raised exception)
  and the store its side effects leave. Statements run with a fuel that only loop iterations consume.
 */
module Pascal {
  import opened Wrappers
  import opened Carriers

  /** `cls` is the dynamic class; `asException` says whether the thrown pointer converts to the
      runtime's exception root class. */
  datatype Exc = Exc(cls: nat, asException: bool, id: int)

  datatype Val = Num(n: int) | Members(s: set<int>) | Obj(e: Exc)

  function AsNum(v: Val): int {
    match v
    case Num(n) => n
    case Members(_) => 0
    case Obj(e) => e.id
  }

  function AsSet(v: Val): set<int> {
    if v.Members? then v.s else {}
  }

  function AsExc(v: Val): Exc {
    if v.Obj? then v.e else Exc(0, false, 0)
  }

  predicate Truth(v: Val) {
    v.Num? && v.n != 0
  }

  /** Pascal variables, and the slot that holds the routine's result. */
  datatype Store = Store(vars: map<string, int>, result: int) {
    function Get(x: string): int {
      if x in vars then vars[x] else 0
    }

    function Set(x: string, v: int): Store {
      this.(vars := vars[x := v])
    }

    /** Leave a scope that declared `x`, inside a scope whose variables were `outer`. */
    function Leave(x: string, outer: map<string, int>): Store {
      this.(vars := if x in outer then vars[x := outer[x]] else vars - {x})
    }
  }

  datatype EvalResult = Value(v: Val, st: Store) | Raises(e: Exc, st: Store)

  type Expr = Store -> EvalResult

  datatype CaseLabel = Single(n: int) | Range(lo: int, hi: int)

  datatype Arm = Arm(labels: seq<CaseLabel>, body: Stmt)

  /** `on binder: cls do body`; no class means that every exception matches. */
  datatype Handler = Handler(cls: Option<nat>, binder: Option<string>, body: Stmt)

  datatype Stmt =
    | Empty
    | Assign(x: string, e: Expr)
    | AssignResult(e: Expr)
    | Eval(e: Expr)
    | Compound(stmts: seq<Stmt>)
    | If(cond: Expr, thn: Stmt, els: Option<Stmt>)
    | While(cond: Expr, body: Stmt)
    | Repeat(stmts: seq<Stmt>, cond: Expr)
    | For(x: string, car: Carrier, from: Expr, to: Expr, downto: bool, body: Stmt)
    | ForInSet(x: string, car: Carrier, lo: int, hi: int, e: Expr, body: Stmt)
    | Case(e: Expr, arms: seq<Arm>, els: Option<Stmt>)
    | Break
    | Continue
    | Exit(value: Option<Expr>)
    | Raise(e: Expr)
    | Reraise
    | TryFinally(stmts: seq<Stmt>, fin: seq<Stmt>)
    | TryExcept(stmts: seq<Stmt>, handlers: seq<Handler>, els: Option<Stmt>)

  /** How a run ends. `Undefined` is an error by Pascal's own rules; `Outside` appears only in strict
      worlds, at the places where the translation is known to behave differently. */
  datatype Outcome =
    | Done(st: Store)
    | Broke(st: Store)
    | Continued(st: Store)
    | Exited(st: Store)
    | Raised(e: Exc, st: Store)
    | Timeout
    | Undefined
    | Outside
  {
    predicate Ended() {
      !Timeout? && !Undefined? && !Outside?
    }
  }

  /** `isa` is the class relation. A strict world reports where the translation departs from Pascal. */
  datatype World = World(isa: (nat, nat) -> bool, strict: bool)

  predicate LabelMatches(l: CaseLabel, n: int) {
    match l
    case Single(m) => n == m
    case Range(lo, hi) => lo <= n <= hi
  }

  predicate ArmMatches(a: Arm, n: int) {
    exists l :: l in a.labels && LabelMatches(l, n)
  }

  /** Index of the first arm that lists `n`, or the number of arms. */
  function FirstArm(arms: seq<Arm>, n: int): (k: nat)
    ensures k <= |arms|
    ensures k < |arms| ==> ArmMatches(arms[k], n)
    ensures forall i :: 0 <= i < k ==> !ArmMatches(arms[i], n)
  {
    if arms == [] || ArmMatches(arms[0], n) then 0 else 1 + FirstArm(arms[1..], n)
  }

  predicate HandlerMatches(isa: (nat, nat) -> bool, h: Handler, e: Exc) {
    h.cls.Some? ==> isa(e.cls, h.cls.value)
  }

  /** Index of the first handler whose class the exception belongs to, or the number of handlers. */
  function FirstHandler(isa: (nat, nat) -> bool, hs: seq<Handler>, e: Exc): (k: nat)
    ensures k <= |hs|
    ensures k < |hs| ==> HandlerMatches(isa, hs[k], e)
    ensures forall i :: 0 <= i < k ==> !HandlerMatches(isa, hs[i], e)
  {
    if hs == [] || HandlerMatches(isa, hs[0], e) then 0 else 1 + FirstHandler(isa, hs[1..], e)
  }

  function Next(cur: int, downto: bool): int {
    if downto then cur - 1 else cur + 1
  }

  /** Statements that contain no statement. */
  predicate Leaf(s: Stmt) {
    s.Empty? || s.Assign? || s.AssignResult? || s.Eval? || s.Break? || s.Continue? || s.Exit? || s.Raise? || s.Reraise?
  }

  function RunLeaf(s: Stmt, h: Option<Exc>, st: Store): Outcome
    requires Leaf(s)
  {
    match s
    case Empty => Done(st)
    case Assign(x, e) =>
      (match e(st)
       case Value(v, st1) => Done(st1.Set(x, AsNum(v)))
       case Raises(exc, st1) => Raised(exc, st1))
    case AssignResult(e) =>
      (match e(st)
       case Value(v, st1) => Done(st1.(result := AsNum(v)))
       case Raises(exc, st1) => Raised(exc, st1))
    case Eval(e) =>
      (match e(st)
       case Value(_, st1) => Done(st1)
       case Raises(exc, st1) => Raised(exc, st1))
    case Break => Broke(st)
    case Continue => Continued(st)
    case Exit(value) =>
      if value.None? then Exited(st) else
      (match value.value(st)
       case Value(v, st1) => Exited(st1.(result := AsNum(v)))
       case Raises(exc, st1) => Raised(exc, st1))
    case Raise(e) =>
      (match e(st)
       case Value(v, st1) => Raised(AsExc(v), st1)
       case Raises(exc, st1) => Raised(exc, st1))
    case Reraise => if h.Some? then Raised(h.value, st) else Undefined
  }

  /** Run a statement while `h` is the exception being handled. */
  function Run(w: World, s: Stmt, h: Option<Exc>, st: Store, fuel: nat): Outcome
    decreases fuel, s, 1
  {
    match s
    case Compound(stmts) => RunSeq(w, stmts, h, st, fuel)
    case If(cond, thn, els) =>
      (match cond(st)
       case Value(v, st1) =>
         if Truth(v) then Run(w, thn, h, st1, fuel)
         else if els.Some? then Run(w, els.value, h, st1, fuel)
         else Done(st1)
       case Raises(exc, st1) => Raised(exc, st1))
    case While(cond, body) =>
      if fuel == 0 then Timeout else
      (match cond(st)
       case Value(v, st1) =>
         if !Truth(v) then Done(st1) else
         (match Run(w, body, h, st1, fuel)
          case Done(st2) => Run(w, s, h, st2, fuel - 1)
          case Continued(st2) => Run(w, s, h, st2, fuel - 1)
          case Broke(st2) => Done(st2)
          case o => o)
       case Raises(exc, st1) => Raised(exc, st1))
    case Repeat(stmts, cond) =>
      if fuel == 0 then Timeout else
      var o := RunSeq(w, stmts, h, st, fuel);
      if o.Done? || o.Continued? then
        (match cond(o.st)
         case Value(v, st2) => if Truth(v) then Done(st2) else Run(w, s, h, st2, fuel - 1)
         case Raises(exc, st2) => Raised(exc, st2))
      else if o.Broke? then Done(o.st)
      else o
    case For(x, car, from, to, downto, body) =>
      (match from(st)
       case Value(a, st1) =>
         (match to(st1)
          case Value(b, st2) =>
            var first, last := AsNum(a), AsNum(b);
            if (if downto then first < last else last < first) then Done(st2)
            else if !InRange(car, first) || !InRange(car, last) then Undefined
            else RunFor(w, x, first, last, downto, body, h, st2, fuel)
          case Raises(exc, st2) => Raised(exc, st2))
       case Raises(exc, st1) => Raised(exc, st1))
    case ForInSet(x, car, lo, hi, e, body) =>
      if lo > hi || !InRange(car, lo) || !InRange(car, hi) then Undefined else
      (match e(st)
       case Value(v, st1) => RunSet(w, x, AsSet(v), lo, hi, body, h, st1, fuel)
       case Raises(exc, st1) => Raised(exc, st1))
    case Case(e, arms, els) =>
      (match e(st)
       case Value(v, st1) =>
         var k := FirstArm(arms, AsNum(v));
         if k < |arms| then Run(w, arms[k].body, h, st1, fuel)
         else if els.Some? then Run(w, els.value, h, st1, fuel)
         else Done(st1)
       case Raises(exc, st1) => Raised(exc, st1))
    case TryFinally(stmts, fin) =>
      var o := RunSeq(w, stmts, h, st, fuel);
      if !o.Ended() then o else AfterFinally(w, o, RunSeq(w, fin, h, o.st, fuel))
    case TryExcept(stmts, handlers, els) =>
      var o := RunSeq(w, stmts, h, st, fuel);
      if !o.Raised? then o else
      var k := FirstHandler(w.isa, handlers, o.e);
      if k < |handlers| then
        if w.strict && !o.e.asException then Outside
        else Unbind(handlers[k].binder, o.st,
                    Run(w, handlers[k].body, Some(o.e), Bind(handlers[k].binder, o.e, o.st), fuel))
      else if els.Some? then Run(w, els.value, Some(o.e), o.st, fuel)
      else if handlers == [] then Done(o.st)
      else o
    case _ => RunLeaf(s, h, st)
  }

  function RunSeq(w: World, ss: seq<Stmt>, h: Option<Exc>, st: Store, fuel: nat): Outcome
    decreases fuel, ss, 0
  {
    if ss == [] then Done(st) else
    match Run(w, ss[0], h, st, fuel)
    case Done(st1) => RunSeq(w, ss[1..], h, st1, fuel)
    case o => o
  }

  /** The iterations of a `for` from `cur` to `last`. A body that changes the control variable breaks
      Pascal's rule for it. */
  function RunFor(w: World, x: string, cur: int, last: int, downto: bool, body: Stmt, h: Option<Exc>,
                  st: Store, fuel: nat): Outcome
    decreases fuel, body, 2
  {
    if fuel == 0 then Timeout else
    var o := Run(w, body, h, st.Set(x, cur), fuel);
    if o.Done? || o.Continued? then
      if o.st.Get(x) != cur then Undefined
      else if cur == last then Done(o.st)
      else RunFor(w, x, Next(cur, downto), last, downto, body, h, o.st, fuel - 1)
    else if o.Broke? then Done(o.st)
    else o
  }

  /** The iterations of a `for` over the members of `s` that lie between `cur` and `hi`. */
  function RunSet(w: World, x: string, s: set<int>, cur: int, hi: int, body: Stmt, h: Option<Exc>,
                  st: Store, fuel: nat): Outcome
    decreases fuel, body, 2
  {
    if fuel == 0 then Timeout else
    var o := if cur in s then Run(w, body, h, st.Set(x, cur), fuel) else Done(st);
    if o.Done? || o.Continued? then
      if cur == hi then Done(o.st) else RunSet(w, x, s, cur + 1, hi, body, h, o.st, fuel - 1)
    else if o.Broke? then Done(o.st)
    else o
  }

  /** A `finally` part that ended with `f` after a protected part that ended with `o`: it lets `o` go on
      unless it does not complete itself. */
  function AfterFinally(w: World, o: Outcome, f: Outcome): Outcome
    requires o.Ended()
  {
    if !f.Ended() then f
    else if !f.Done? then (if w.strict then Outside else f)
    else if w.strict && o.Exited? && f.st.result != o.st.result then Outside
    else o.(st := f.st)
  }

  function Bind(binder: Option<string>, e: Exc, st: Store): Store {
    if binder.Some? then st.Set(binder.value, e.id) else st
  }

  function Unbind(binder: Option<string>, outer: Store, o: Outcome): Outcome {
    if binder.Some? && o.Ended() then o.(st := o.st.Leave(binder.value, outer.vars)) else o
  }

  // ----- one iteration of a loop

  lemma RunWhileStep(w: World, cond: Expr, body: Stmt, h: Option<Exc>, st: Store, fuel: nat)
    requires fuel > 0
    ensures Run(w, While(cond, body), h, st, fuel) ==
            match cond(st)
            case Value(v, st1) =>
              if !Truth(v) then Done(st1) else
              (match Run(w, body, h, st1, fuel)
               case Done(st2) => Run(w, While(cond, body), h, st2, fuel - 1)
               case Continued(st2) => Run(w, While(cond, body), h, st2, fuel - 1)
               case Broke(st2) => Done(st2)
               case o => o)
            case Raises(exc, st1) => Raised(exc, st1)
  {
  }

  lemma RunSetStep(w: World, x: string, s: set<int>, cur: int, hi: int, body: Stmt, h: Option<Exc>, st: Store,
                   fuel: nat)
    requires fuel > 0
    ensures var o := if cur in s then Run(w, body, h, st.Set(x, cur), fuel) else Done(st);
            RunSet(w, x, s, cur, hi, body, h, st, fuel) ==
            if o.Done? || o.Continued? then
              if cur == hi then Done(o.st) else RunSet(w, x, s, cur + 1, hi, body, h, o.st, fuel - 1)
            else if o.Broke? then Done(o.st)
            else o
  {
  }

  lemma RunForStep(w: World, x: string, cur: int, last: int, downto: bool, body: Stmt, h: Option<Exc>, st: Store,
                   fuel: nat)
    requires fuel > 0
    ensures var o := Run(w, body, h, st.Set(x, cur), fuel);
            RunFor(w, x, cur, last, downto, body, h, st, fuel) ==
            if o.Done? || o.Continued? then
              if o.st.Get(x) != cur then Undefined
              else if cur == last then Done(o.st)
              else RunFor(w, x, Next(cur, downto), last, downto, body, h, o.st, fuel - 1)
            else if o.Broke? then Done(o.st)
            else o
  {
  }

  lemma RunOfLeaf(w: World, s: Stmt, h: Option<Exc>, st: Store, fuel: nat)
    requires Leaf(s)
    ensures Run(w, s, h, st, fuel) == RunLeaf(s, h, st)
  {
  }
}
