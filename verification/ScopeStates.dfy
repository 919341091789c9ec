/** The emitter's scope environment as a value: what declaration lookups and routine frames do to it. */
module ScopeStates {
  import opened Wrappers

  /** Types, declarations and class symbols, by identity. */
  type Id = nat

  /** A lexical context a declaration belongs to. */
  datatype Context = Context(id: Id, unit: string, preservesLocals: bool)

  datatype NestedFn = NestedFn(decl: Id, overloadIndex: nat)

  /** Everything that describes names local to the routine being emitted. */
  datatype Locals = Locals(
    names: set<string>,
    types: map<string, Id>,
    consts: map<string, Id>,
    untyped: map<string, Id>,
    nested: map<string, seq<NestedFn>>,
    forwards: set<string>,
    constParams: set<string>,
    absolutes: map<string, Id>)

  /** The routine being emitted and the result variables visible in it. */
  datatype Routine = Routine(
    name: string,
    params: seq<string>,
    isFunction: bool,
    isCtor: bool,
    resultType: Option<Id>,
    resultSlot: string,
    bareSlot: string,
    bareType: Option<Id>,
    outerName: string,
    outerSlot: string,
    outerType: Option<Id>)

  datatype State = State(
    unit: string,
    emissionUnit: string,
    cls: Option<Id>,
    routine: Routine,
    locals: Locals,
    withs: seq<Id>,
    typeScope: Option<Context>,
    depth: nat)

  const NO_LOCALS := Locals({}, map[], map[], map[], map[], {}, {}, map[])
  const NO_ROUTINE := Routine("", [], false, false, None, "", "", None, "", "", None)

  /** Mangled name of the result variable of a function not nested in another. */
  const RESULT_SLOT: string := "p_result"

  function NestedResultSlot(name: string): string {
    "p_result_" + name
  }

  // ------------------------------------------------------------------ declaration lookup

  function TargetUnit(ctx: Option<Context>, unit: string): string {
    if ctx.Some? then ctx.value.unit else unit
  }

  predicate Preserves(s: State, ctx: Option<Context>, unit: string) {
    && ctx.Some? && ctx.value.preservesLocals
    && (TargetUnit(ctx, unit) == "" || TargetUnit(ctx, unit) == s.unit)
  }

  /** Whether entering changes anything: nothing to enter, or already there with locals kept. */
  predicate Activates(s: State, ctx: Option<Context>, unit: string) {
    && !(ctx.None? && unit == "")
    && !(ctx == s.typeScope && Preserves(s, ctx, unit))
  }

  function Enter(s: State, ctx: Option<Context>, unit: string): State {
    if !Activates(s, ctx, unit) then s else Entered(s, ctx, TargetUnit(ctx, unit))
  }

  function Entered(s: State, ctx: Option<Context>, target: string): State {
    var switches := target != "" && target != s.unit;
    State(
      if switches then target else s.unit,
      if !switches then s.emissionUnit else if s.emissionUnit == "" then s.unit else s.emissionUnit,
      None,
      NO_ROUTINE,
      if Preserves(s, ctx, target) then s.locals else NO_LOCALS,
      if Preserves(s, ctx, target) then s.withs else [],
      ctx,
      s.depth)
  }

  /** What leaving puts back, given the state at entry and the state left behind. */
  function Leave(before: State, after: State, ctx: Option<Context>, unit: string): State {
    if !Activates(before, ctx, unit) then after
    else
      var keep := Preserves(before, ctx, unit);
      before.(locals := if keep then after.locals else before.locals,
              withs := if keep then after.withs else before.withs,
              depth := after.depth)
  }

  // ------------------------------------------------------------------ routine frames

  datatype Proc = Proc(
    name: string,
    params: seq<string>,
    isFunction: bool,
    isConstructor: bool,
    isClassMethod: bool,
    returnType: Option<Id>,
    bodyContext: Option<Context>,
    owner: Option<Id>,
    locals: seq<Local>)

  datatype Local =
    | Typed(name: string, typ: Id, isConst: bool)
    | Untyped(name: string, descriptor: Id, isConst: bool)
    | ConstLocal(name: string, decl: Id, deduced: Option<Id>)
    | NestedProc(name: string, decl: Id, isForward: bool)

  /** A function with a result, whose variable nested routines can reach. */
  predicate HasResult(r: Routine) {
    r.isFunction && r.resultType.Some?
  }

  function FrameRoutine(outer: Routine, pd: Proc, nested: bool): Routine {
    var oname := if HasResult(outer) then outer.name else outer.outerName;
    var oslot := if HasResult(outer) then outer.resultSlot else outer.outerSlot;
    var otype := if HasResult(outer) then outer.resultType else outer.outerType;
    var own := pd.isFunction && pd.returnType.Some?;
    var slot := if !own then "" else if otype.Some? then NestedResultSlot(pd.name) else RESULT_SLOT;
    Routine(pd.name, pd.params, pd.isFunction,
            !nested && !pd.isClassMethod && pd.isConstructor,
            pd.returnType, slot,
            if own then slot else oslot,
            if own then pd.returnType else otype,
            oname, oslot, otype)
  }

  function Setup(s: State, pd: Proc, nested: bool): State {
    s.(routine := FrameRoutine(s.routine, pd, nested),
       cls := if nested then s.cls else pd.owner,
       typeScope := pd.bodyContext,
       depth := s.depth + 1)
  }

  /** Frames save and restore everything but the units and the `with` stack. */
  function Restore(before: State, after: State): State {
    before.(unit := after.unit, emissionUnit := after.emissionUnit, withs := after.withs)
  }

  /** A function's implicit `Result` may not be declared again. */
  predicate Refused(s: State, name: string) {
    s.routine.bareType.Some? && name == "result"
  }

  function Declare(s: State, l: Local): State {
    if Refused(s, l.name) then s
    else
      var k := s.locals.(names := s.locals.names + {l.name});
      match l
      case Typed(name, typ, isConst) =>
        s.(locals := k.(types := k.types[name := typ],
                        constParams := if isConst then k.constParams + {name} else k.constParams))
      case Untyped(name, descriptor, isConst) =>
        s.(locals := k.(untyped := if name in k.untyped then k.untyped else k.untyped[name := descriptor],
                        constParams := if isConst then k.constParams + {name} else k.constParams))
      case ConstLocal(name, decl, deduced) =>
        s.(locals := k.(consts := k.consts[name := decl],
                        types := if deduced.Some? then k.types[name := deduced.value] else k.types))
      case NestedProc(name, decl, isForward) =>
        if isForward then s.(locals := k)
        else
          var overloads := if name in k.nested then k.nested[name] else [];
          s.(locals := k.(nested := k.nested[name := overloads + [NestedFn(decl, |overloads|)]]))
  }

  function Seed(s: State, ls: seq<Local>): State
    decreases ls
  {
    if ls == [] then s else Seed(Declare(s, ls[0]), ls[1..])
  }

  // ------------------------------------------------------------------ nested work

  /** Emission work as it nests: lookups, frames, `with` scopes, and declarations made in a routine body. */
  datatype Work =
    | Lookup(ctx: Option<Context>, unit: string, inner: seq<Work>)
    | Frame(pd: Proc, nested: bool, inner: seq<Work>)
    | With(binds: seq<Id>, inner: seq<Work>)
    | Declaration(local: Local)

  function Effect(w: Work, s: State): State {
    match w
    case Lookup(ctx, unit, inner) => Leave(s, Effects(inner, Enter(s, ctx, unit)), ctx, unit)
    case Frame(pd, nested, inner) => Restore(s, Effects(inner, Seed(Setup(s, pd, nested), pd.locals)))
    case With(binds, inner) =>
      var after := Effects(inner, s.(withs := s.withs + binds));
      after.(withs := CutTo(after.withs, |s.withs|))
    case Declaration(l) => Declare(s, l)
  }

  /** A `with` scope restores by depth, however many receivers it opened. */
  function CutTo(withs: seq<Id>, depth: nat): seq<Id> {
    if |withs| > depth then withs[..depth] else withs
  }

  function Effects(ws: seq<Work>, s: State): State {
    if ws == [] then s else Effects(ws[1..], Effect(ws[0], s))
  }

  /**
   * Work whose declarations are all undone by something inside it: a routine frame, or a lookup
   * that swaps the caller's locals out. `undone` says that something around it undoes them.
   */
  predicate Nested(w: Work, s: State, undone: bool)
    decreases w, 0
  {
    match w
    case Lookup(ctx, unit, inner) =>
      AllNested(inner, Enter(s, ctx, unit), undone || (Activates(s, ctx, unit) && !Preserves(s, ctx, unit)))
    case Frame(pd, nested, inner) => AllNested(inner, Seed(Setup(s, pd, nested), pd.locals), true)
    case With(binds, inner) => AllNested(inner, s.(withs := s.withs + binds), undone)
    case Declaration(_) => undone
  }

  predicate AllNested(ws: seq<Work>, s: State, undone: bool)
    decreases ws, 1
  {
    ws != [] ==> Nested(ws[0], s, undone) && AllNested(ws[1..], Effect(ws[0], s), undone)
  }

  predicate Balanced(w: Work, s: State) {
    Nested(w, s, false)
  }

  /** States that differ at most in the locals. */
  predicate SameButLocals(a: State, b: State) {
    a.(locals := b.locals) == b
  }

  lemma DeclareKeeps(s: State, l: Local)
    ensures SameButLocals(s, Declare(s, l))
  {
  }

  lemma {:induction false} SeedKeeps(s: State, ls: seq<Local>)
    ensures SameButLocals(s, Seed(s, ls))
    decreases ls
  {
    if ls != [] {
      DeclareKeeps(s, ls[0]);
      SeedKeeps(Declare(s, ls[0]), ls[1..]);
    }
  }

  /** Nested work changes locals at most, and nothing at all if it undoes its own declarations. */
  lemma {:induction false} NestedKeeps(w: Work, s: State, undone: bool)
    requires Nested(w, s, undone)
    ensures SameButLocals(s, Effect(w, s))
    ensures !undone ==> Effect(w, s) == s
    decreases w, 0
  {
    match w
    case Lookup(ctx, unit, inner) =>
      AllNestedKeep(inner, Enter(s, ctx, unit), undone || (Activates(s, ctx, unit) && !Preserves(s, ctx, unit)));
    case Frame(pd, nested, inner) =>
      SeedKeeps(Setup(s, pd, nested), pd.locals);
      AllNestedKeep(inner, Seed(Setup(s, pd, nested), pd.locals), true);
    case With(binds, inner) => AllNestedKeep(inner, s.(withs := s.withs + binds), undone);
    case Declaration(l) => DeclareKeeps(s, l);
  }

  lemma {:induction false} AllNestedKeep(ws: seq<Work>, s: State, undone: bool)
    requires AllNested(ws, s, undone)
    ensures SameButLocals(s, Effects(ws, s))
    ensures !undone ==> Effects(ws, s) == s
    decreases ws, 1
  {
    if ws != [] {
      NestedKeeps(ws[0], s, undone);
      AllNestedKeep(ws[1..], Effect(ws[0], s), undone);
    }
  }

  /** Where something around undoes declarations all work is nested. */
  lemma {:induction false} WorkNests(w: Work, s: State)
    ensures Nested(w, s, true)
    decreases w, 0
  {
    match w
    case Lookup(ctx, unit, inner) => AllWorkNests(inner, Enter(s, ctx, unit));
    case Frame(pd, nested, inner) => AllWorkNests(inner, Seed(Setup(s, pd, nested), pd.locals));
    case With(binds, inner) => AllWorkNests(inner, s.(withs := s.withs + binds));
    case Declaration(_) =>
  }

  lemma {:induction false} AllWorkNests(ws: seq<Work>, s: State)
    ensures AllNested(ws, s, true)
    decreases ws, 1
  {
    if ws != [] {
      WorkNests(ws[0], s);
      AllWorkNests(ws[1..], Effect(ws[0], s));
    }
  }

  /** Any well-nested sequence of lookups, frames and `with` scopes leaves every field as it found it. */
  lemma BalancedRestores(ws: seq<Work>, s: State)
    requires AllNested(ws, s, false)
    ensures Effects(ws, s) == s
  {
    AllNestedKeep(ws, s, false);
  }

  /**
   * The balance condition is needed: a declaration made straight inside a lookup that keeps the
   * caller's locals stays behind when the lookup ends.
   */
  lemma KeptLocalsLeak(s: State, ctx: Context, l: Local)
    requires ctx.preservesLocals && (ctx.unit == "" || ctx.unit == s.unit)
    requires l.name !in s.locals.names
    requires Some(ctx) != s.typeScope
    ensures l.name in Effect(Lookup(Some(ctx), "", [Declaration(l)]), s).locals.names
    ensures !Balanced(Lookup(Some(ctx), "", [Declaration(l)]), s)
  {
    var here := Enter(s, Some(ctx), "");
    assert [Declaration(l)][1..] == [];
    assert Effects([Declaration(l)], here) == Effects([], Declare(here, l));
    if Balanced(Lookup(Some(ctx), "", [Declaration(l)]), s) {
      NestedKeeps(Lookup(Some(ctx), "", [Declaration(l)]), s, false);
    }
  }

  // ------------------------------------------------------------------ what a lookup hides

  /** A routine frame pushed since the innermost active lookup. */
  datatype Pushed = Pushed(pd: Proc, nested: bool)

  /** A moment inside some work: the frames pushed since the innermost active lookup, and the state. */
  datatype Moment = Moment(frames: seq<Pushed>, state: State)

  /** Every moment of a piece of work started in `s` under `frames`. */
  function Moments(w: Work, s: State, frames: seq<Pushed>): seq<Moment>
    decreases w, 0
  {
    match w
    case Lookup(ctx, unit, inner) =>
      MomentsOfAll(inner, Enter(s, ctx, unit), if Activates(s, ctx, unit) then [] else frames)
    case Frame(pd, nested, inner) =>
      MomentsOfAll(inner, Seed(Setup(s, pd, nested), pd.locals), frames + [Pushed(pd, nested)])
    case With(binds, inner) => MomentsOfAll(inner, s.(withs := s.withs + binds), frames)
    case Declaration(_) => []
  }

  function MomentsOfAll(ws: seq<Work>, s: State, frames: seq<Pushed>): seq<Moment>
    decreases ws, 1
  {
    [Moment(frames, s)] +
    if ws == [] then [] else Moments(ws[0], s, frames) + MomentsOfAll(ws[1..], Effect(ws[0], s), frames)
  }

  /** The routine and the class that the pushed frames alone establish. */
  function RoutineOf(frames: seq<Pushed>): Routine {
    if frames == [] then NO_ROUTINE
    else
      var top := frames[|frames| - 1];
      FrameRoutine(RoutineOf(frames[..|frames| - 1]), top.pd, top.nested)
  }

  function ClassOf(frames: seq<Pushed>): Option<Id> {
    if frames == [] then None
    else
      var top := frames[|frames| - 1];
      if top.nested then ClassOf(frames[..|frames| - 1]) else top.pd.owner
  }

  /** Nothing of the routine and class at this moment comes from outside the innermost active lookup. */
  predicate OwnOnly(m: Moment) {
    m.state.routine == RoutineOf(m.frames) && m.state.cls == ClassOf(m.frames)
  }

  lemma PushKeepsOwn(s: State, frames: seq<Pushed>, pd: Proc, nested: bool)
    requires OwnOnly(Moment(frames, s))
    ensures OwnOnly(Moment(frames + [Pushed(pd, nested)], Seed(Setup(s, pd, nested), pd.locals)))
  {
    SeedKeeps(Setup(s, pd, nested), pd.locals);
    assert (frames + [Pushed(pd, nested)])[..|frames|] == frames;
  }

  lemma {:induction false} MomentsOwnOnly(w: Work, s: State, undone: bool, frames: seq<Pushed>)
    requires Nested(w, s, undone) && OwnOnly(Moment(frames, s))
    ensures forall m :: m in Moments(w, s, frames) ==> OwnOnly(m)
    decreases w, 0
  {
    hide OwnOnly, FrameRoutine;
    match w
    case Lookup(ctx, unit, inner) =>
      EnteredOwnsNothing(s, ctx, unit);
      AllMomentsOwnOnly(inner, Enter(s, ctx, unit), undone || (Activates(s, ctx, unit) && !Preserves(s, ctx, unit)),
                        if Activates(s, ctx, unit) then [] else frames);
    case Frame(pd, nested, inner) =>
      PushKeepsOwn(s, frames, pd, nested);
      AllMomentsOwnOnly(inner, Seed(Setup(s, pd, nested), pd.locals), true, frames + [Pushed(pd, nested)]);
    case With(binds, inner) =>
      OwnIgnoresRest(s, s.(withs := s.withs + binds), frames);
      AllMomentsOwnOnly(inner, s.(withs := s.withs + binds), undone, frames);
    case Declaration(_) =>
  }

  lemma {:induction false} AllMomentsOwnOnly(ws: seq<Work>, s: State, undone: bool, frames: seq<Pushed>)
    requires AllNested(ws, s, undone) && OwnOnly(Moment(frames, s))
    ensures forall m :: m in MomentsOfAll(ws, s, frames) ==> OwnOnly(m)
    decreases ws, 1
  {
    hide OwnOnly;
    if ws != [] {
      MomentsOwnOnly(ws[0], s, undone, frames);
      NestedKeeps(ws[0], s, undone);
      OwnIgnoresRest(s, Effect(ws[0], s), frames);
      AllMomentsOwnOnly(ws[1..], Effect(ws[0], s), undone, frames);
    }
  }

  /** No moment is passed over: the state after any first part is one, and so is each moment inside the next work. */
  lemma {:induction false} MomentsCover(ws: seq<Work>, s: State, frames: seq<Pushed>, k: nat)
    requires k <= |ws|
    ensures Moment(frames, Effects(ws[..k], s)) in MomentsOfAll(ws, s, frames)
    ensures k < |ws| ==>
              forall m :: m in Moments(ws[k], Effects(ws[..k], s), frames) ==> m in MomentsOfAll(ws, s, frames)
    decreases k
  {
    hide Effect, Moments;
    if k > 0 {
      MomentsCover(ws[1..], Effect(ws[0], s), frames, k - 1);
      assert ws[..k][1..] == ws[1..][..k - 1];
      assert k < |ws| ==> ws[1..][k - 1] == ws[k];
    } else {
      assert ws[..0] == [];
    }
  }

  lemma OwnIgnoresRest(s: State, t: State, frames: seq<Pushed>)
    requires OwnOnly(Moment(frames, s)) && s.routine == t.routine && s.cls == t.cls
    ensures OwnOnly(Moment(frames, t))
  {
  }

  lemma EnteredOwnsNothing(s: State, ctx: Option<Context>, unit: string)
    ensures Activates(s, ctx, unit) ==> OwnOnly(Moment([], Enter(s, ctx, unit)))
    ensures !Activates(s, ctx, unit) ==> Enter(s, ctx, unit) == s
  {
  }

  /**
   * At no moment inside an active lookup is any of the caller's class, routine or results visible:
   * whatever lookups, frames and `with` scopes nest in it, the routine and class are those the
   * frames pushed inside establish, and none before the first.
   */
  lemma LookupHidesCaller(s: State, ctx: Option<Context>, unit: string, inner: seq<Work>, m: Moment)
    requires Activates(s, ctx, unit)
    requires m in MomentsOfAll(inner, Enter(s, ctx, unit), [])
    ensures OwnOnly(m)
    ensures m.frames == [] ==> m.state.routine == NO_ROUTINE && m.state.cls == None
  {
    EnteredOwnsNothing(s, ctx, unit);
    AllWorkNests(inner, Enter(s, ctx, unit));
    AllMomentsOwnOnly(inner, Enter(s, ctx, unit), true, []);
  }

  /** Enter a list of lookups, each inside the one before. */
  function EnterAll(s: State, path: seq<(Option<Context>, string)>): State {
    if path == [] then s
    else
      var before := EnterAll(s, path[..|path| - 1]);
      Enter(before, path[|path| - 1].0, path[|path| - 1].1)
  }

  /** Each lookup of a path is entered in the state the ones before it leave. */
  lemma EnterAllStep(s: State, path: seq<(Option<Context>, string)>, ctx: Option<Context>, unit: string)
    ensures EnterAll(s, path + [(ctx, unit)]) == Enter(EnterAll(s, path), ctx, unit)
    ensures EnterAll(s, []) == s
  {
    assert (path + [(ctx, unit)])[..|path|] == path;
  }

  /** However lookups nest, names found in another unit are qualified for the unit emission started in. */
  lemma {:induction false} EmissionUnitIsOutermost(s: State, path: seq<(Option<Context>, string)>)
    requires s.unit != "" && s.emissionUnit == ""
    ensures var inside := EnterAll(s, path);
            && inside.unit != ""
            && (inside.emissionUnit == s.unit || (inside.emissionUnit == "" && inside.unit == s.unit))
  {
    if path != [] { EmissionUnitIsOutermost(s, path[..|path| - 1]); }
  }

  // ------------------------------------------------------------------ results of nested routines

  /** Set up the frames of routines nested in one another, outermost first. */
  function Nest(r: Routine, pds: seq<Proc>): Routine {
    if pds == [] then r
    else FrameRoutine(Nest(r, pds[..|pds| - 1]), pds[|pds| - 1], |pds| > 1)
  }

  predicate Returns(pd: Proc) {
    pd.isFunction && pd.returnType.Some?
  }

  /** The innermost function with a result among the routines, from the inside out. */
  function InnermostFunction(pds: seq<Proc>): (k: Option<nat>)
    ensures k.Some? ==> k.value < |pds| && Returns(pds[k.value])
  {
    if pds == [] then None
    else if Returns(pds[|pds| - 1]) then Some(|pds| - 1)
    else InnermostFunction(pds[..|pds| - 1])
  }

  function SlotOf(pds: seq<Proc>, k: nat): string
    requires k < |pds|
  {
    if InnermostFunction(pds[..k]).Some? then NestedResultSlot(pds[k].name) else RESULT_SLOT
  }

  lemma SlotOfLast(pds: seq<Proc>)
    requires pds != []
    ensures var last := |pds| - 1;
            SlotOf(pds, last) ==
            if InnermostFunction(pds[..last]).Some? then NestedResultSlot(pds[last].name) else RESULT_SLOT
  {
  }

  lemma SlotOfPrefix(pds: seq<Proc>, k: nat, n: nat)
    requires k < n <= |pds|
    ensures SlotOf(pds[..n], k) == SlotOf(pds, k) && pds[..n][k] == pds[k]
  {
    assert pds[..n][..k] == pds[..k];
  }

  /** `Result` names the innermost enclosing function's slot; the outer one is what the next routine in sees. */
  lemma {:induction false} ResultIsInnermost(pds: seq<Proc>)
    requires pds != []
    ensures var r := Nest(NO_ROUTINE, pds);
            var own, outer := InnermostFunction(pds), InnermostFunction(pds[..|pds| - 1]);
            && r.bareType == (if own.Some? then pds[own.value].returnType else None)
            && r.outerType == (if outer.Some? then pds[outer.value].returnType else None)
            && r.bareSlot == (if own.Some? then SlotOf(pds, own.value) else "")
            && r.outerSlot == (if outer.Some? then SlotOf(pds, outer.value) else "")
            && r.outerName == (if outer.Some? then pds[outer.value].name else "")
            && (HasResult(r) <==> Returns(pds[|pds| - 1]))
            && (HasResult(r) ==> r.resultSlot == r.bareSlot && r.resultType == r.bareType)
            && r.name == pds[|pds| - 1].name
  {
    hide SlotOf;
    var init := pds[..|pds| - 1];
    SlotOfLast(pds);
    if init != [] {
      ResultIsInnermost(init);
      var j := InnermostFunction(init[..|init| - 1]);
      if j.Some? { SlotOfPrefix(init, j.value, |init| - 1); }
      var k := InnermostFunction(init);
      if k.Some? { SlotOfPrefix(pds, k.value, |pds| - 1); }
    } else {
      assert Nest(NO_ROUTINE, init) == NO_ROUTINE;
    }
  }

  function OtherNames<T>(m: map<string, T>, name: string): map<string, T> {
    m - {name}
  }

  /** A declaration concerns its own name alone: everything known about other names stays. */
  lemma DeclarationIsLocal(s: State, l: Local)
    ensures var before, after := s.locals, Declare(s, l).locals;
            && after.names == (if Refused(s, l.name) then before.names else before.names + {l.name})
            && after.constParams - {l.name} == before.constParams - {l.name}
            && after.forwards == before.forwards && after.absolutes == before.absolutes
            && OtherNames(after.types, l.name) == OtherNames(before.types, l.name)
            && OtherNames(after.consts, l.name) == OtherNames(before.consts, l.name)
            && OtherNames(after.untyped, l.name) == OtherNames(before.untyped, l.name)
            && OtherNames(after.nested, l.name) == OtherNames(before.nested, l.name)
  {
    hide OtherNames;
    match l
    case Typed(name, typ, _) => UpdateIsLocal(s.locals.types, name, typ);
    case Untyped(name, descriptor, _) => UpdateIsLocal(s.locals.untyped, name, descriptor);
    case ConstLocal(name, decl, deduced) =>
      UpdateIsLocal(s.locals.consts, name, decl);
      if deduced.Some? { UpdateIsLocal(s.locals.types, name, deduced.value); }
    case NestedProc(name, decl, _) =>
      var overloads := if name in s.locals.nested then s.locals.nested[name] else [];
      UpdateIsLocal(s.locals.nested, name, overloads + [NestedFn(decl, |overloads|)]);
  }

  lemma UpdateIsLocal<T>(m: map<string, T>, name: string, t: T)
    ensures OtherNames(m[name := t], name) == OtherNames(m, name)
  {
  }

  /** The names a list of locals declares, in a routine that refuses `Result` or not. */
  function DeclaredNames(ls: seq<Local>, refusesResult: bool): set<string> {
    set l | l in ls && !(refusesResult && l.name == "result") :: l.name
  }

  /** Seeding a routine's scope brings exactly its locals into scope, `Result` excepted in functions. */
  lemma {:induction false} SeedDeclares(s: State, ls: seq<Local>)
    ensures Seed(s, ls).locals.names == s.locals.names + DeclaredNames(ls, s.routine.bareType.Some?)
    decreases ls
  {
    if ls != [] {
      DeclarationIsLocal(s, ls[0]);
      DeclareKeeps(s, ls[0]);
      SeedDeclares(Declare(s, ls[0]), ls[1..]);
      hide Declare, Seed;
      forall l ensures l in ls <==> l == ls[0] || l in ls[1..] {
      }
    }
  }

  /** Overloads of a nested routine are numbered by position, so their generated names differ. */
  ghost predicate OverloadsNumbered(k: Locals) {
    forall name, i :: name in k.nested && 0 <= i < |k.nested[name]| ==> k.nested[name][i].overloadIndex == i
  }

  lemma {:induction false} SeedNumbersOverloads(s: State, ls: seq<Local>)
    requires OverloadsNumbered(s.locals)
    ensures OverloadsNumbered(Seed(s, ls).locals)
    decreases ls
  {
    if ls != [] {
      DeclareNumbersOverloads(s, ls[0]);
      SeedNumbersOverloads(Declare(s, ls[0]), ls[1..]);
    }
  }

  lemma DeclareNumbersOverloads(s: State, l: Local)
    requires OverloadsNumbered(s.locals)
    ensures OverloadsNumbered(Declare(s, l).locals)
  {
  }

  /** In a function no local can be called `Result`. */
  lemma {:induction false} ResultNotShadowed(s: State, ls: seq<Local>)
    requires s.routine.bareType.Some? && "result" !in s.locals.names
    ensures "result" !in Seed(s, ls).locals.names
    decreases ls
  {
    if ls != [] {
      DeclareKeeps(s, ls[0]);
      ResultNotShadowed(Declare(s, ls[0]), ls[1..]);
    }
  }

  // ------------------------------------------------------------------ what a declaration records

  /** Each kind of local is recorded under its own name, in the tables of its kind and in no other. */
  lemma DeclareRecords(s: State, l: Local)
    requires s.routine.bareType.Some? ==> l.name != "result"
    ensures var was, k := s.locals, Declare(s, l).locals;
            && l.name in k.names
            && match l
               case Typed(n, t, c) =>
                 && n in k.types && k.types[n] == t && (n in k.constParams <==> c || n in was.constParams)
                 && k.consts == was.consts && k.untyped == was.untyped && k.nested == was.nested
               case Untyped(n, d, c) =>
                 && n in k.untyped && k.untyped[n] == (if n in was.untyped then was.untyped[n] else d)
                 && (n in k.constParams <==> c || n in was.constParams)
                 && k.types == was.types && k.consts == was.consts && k.nested == was.nested
               case ConstLocal(n, d, t) =>
                 && n in k.consts && k.consts[n] == d
                 && (t.Some? ==> n in k.types && k.types[n] == t.value)
                 && (t.None? ==> k.types == was.types)
                 && k.untyped == was.untyped && k.nested == was.nested && k.constParams == was.constParams
               case NestedProc(n, d, true) =>
                 && k.types == was.types && k.consts == was.consts && k.untyped == was.untyped
                 && k.nested == was.nested && k.constParams == was.constParams
               case NestedProc(n, d, false) =>
                 && n in k.nested && |k.nested[n]| == (if n in was.nested then |was.nested[n]| else 0) + 1
                 && (n in was.nested ==> k.nested[n][..|was.nested[n]|] == was.nested[n])
                 && k.nested[n][|k.nested[n]| - 1] == NestedFn(d, |k.nested[n]| - 1)
                 && k.types == was.types && k.consts == was.consts && k.untyped == was.untyped
                 && k.constParams == was.constParams
  {
  }

  /** A function has no local called `Result`: its declaration changes nothing. */
  lemma ResultIsRefused(s: State, l: Local)
    requires s.routine.bareType.Some? && l.name == "result"
    ensures Declare(s, l) == s
  {
  }

  /** Locals are declared one after another, so a later one is recorded over an earlier one. */
  lemma {:induction false} SeedInOrder(s: State, ls: seq<Local>)
    requires ls != []
    ensures Seed(s, ls) == Declare(Seed(s, ls[..|ls| - 1]), ls[|ls| - 1])
    decreases ls
  {
    hide Declare;
    if |ls| == 1 {
      assert ls[..0] == [] && ls[1..] == [];
    } else {
      SeedInOrder(Declare(s, ls[0]), ls[1..]);
      assert ls[1..][..|ls| - 2] == ls[..|ls| - 1][1..];
    }
  }

  /** The type a local gives its name, if it gives one. */
  function GivenType(l: Local): Option<Id> {
    match l
    case Typed(_, t, _) => Some(t)
    case ConstLocal(_, _, t) => t
    case _ => None
  }

  /** The type `name` has in `k`, if it has one. */
  function TypeIn(k: Locals, name: string): Option<Id> {
    if name in k.types then Some(k.types[name]) else None
  }

  /** Local `i` gives `name` a type and none after it does. */
  predicate GivesLast(ls: seq<Local>, name: string, i: nat) {
    && i < |ls| && ls[i].name == name && GivenType(ls[i]).Some?
    && forall j :: i < j < |ls| && ls[j].name == name ==> GivenType(ls[j]).None?
  }

  /** Of all locals of one name the last that gives a type decides it; without one the type stays as it was. */
  lemma {:induction false} SeedTypes(s: State, ls: seq<Local>, name: string)
    requires s.routine.bareType.Some? ==> name != "result"
    ensures forall i: nat :: GivesLast(ls, name, i) ==> TypeIn(Seed(s, ls).locals, name) == GivenType(ls[i])
    ensures (forall i :: 0 <= i < |ls| && ls[i].name == name ==> GivenType(ls[i]).None?) ==>
              TypeIn(Seed(s, ls).locals, name) == TypeIn(s.locals, name)
    decreases |ls|
  {
    hide Declare, TypeIn, GivenType, GivesLast, Seed;
    if ls == [] {
      SeedNothing(s);
      NoneGives(name);
    } else {
      var n := |ls| - 1;
      var init := ls[..n];
      SeedInOrder(s, ls);
      SeedTypes(s, init, name);
      SeedKeeps(s, init);
      DeclareTypes(Seed(s, init), ls[n], name);
      forall i: nat | GivesLast(ls, name, i)
        ensures i < |ls| && TypeIn(Seed(s, ls).locals, name) == GivenType(ls[i])
      {
        LastOfInit(ls, name, i);
      }
    }
  }

  lemma SeedNothing(s: State)
    ensures Seed(s, []) == s
  {
  }

  lemma NoneGives(name: string)
    ensures forall i: nat :: !GivesLast([], name, i)
  {
  }

  lemma LastOfInit(ls: seq<Local>, name: string, i: nat)
    requires GivesLast(ls, name, i)
    ensures i < |ls|
    ensures var n := |ls| - 1;
            if i == n then ls[n].name == name && GivenType(ls[n]).Some?
            else GivesLast(ls[..n], name, i) && ls[..n][i] == ls[i] && !(ls[n].name == name && GivenType(ls[n]).Some?)
  {
  }

  lemma DeclareTypes(s: State, l: Local, name: string)
    requires s.routine.bareType.Some? ==> name != "result"
    ensures TypeIn(Declare(s, l).locals, name) ==
            if l.name == name && GivenType(l).Some? then GivenType(l) else TypeIn(s.locals, name)
  {
  }

  /** A frame is one level deeper, in the scope of the routine's body, with the routine's own name and parameters. */
  lemma FrameStarts(s: State, pd: Proc, nested: bool)
    ensures var f := Seed(Setup(s, pd, nested), pd.locals);
            && f.depth == s.depth + 1 && f.typeScope == pd.bodyContext
            && f.cls == (if nested then s.cls else pd.owner)
            && f.unit == s.unit && f.emissionUnit == s.emissionUnit && f.withs == s.withs
            && f.routine.name == pd.name && f.routine.params == pd.params
            && f.routine.isFunction == pd.isFunction && f.routine.resultType == pd.returnType
            && (f.routine.isCtor <==> pd.isConstructor && !pd.isClassMethod && !nested)
            && (if !pd.isFunction || pd.returnType.None? then f.routine.resultSlot == ""
                else if (s.routine.isFunction && s.routine.resultType.Some?) || s.routine.outerType.Some?
                then f.routine.resultSlot == "p_result_" + pd.name
                else f.routine.resultSlot == "p_result")
  {
    SeedKeeps(Setup(s, pd, nested), pd.locals);
  }
}
