/** Which local names and `with` receivers can be seen at every moment of nested emission work. */
module Visibility {
  import opened Wrappers
  import opened ScopeStates

  // ------------------------------------------------------------------ what one lookup hides

  /** A lookup that keeps the caller's locals in sight: its context asks for it, in the caller's own unit. */
  predicate InSight(s: State, ctx: Option<Context>) {
    ctx.Some? && ctx.value.preservesLocals && (ctx.value.unit == "" || ctx.value.unit == s.unit)
  }

  /** A lookup that does something: it names a context or a unit, and is not there already. */
  predicate Opens(s: State, ctx: Option<Context>, unit: string) {
    (ctx.Some? || unit != "") && (ctx == s.typeScope ==> !InSight(s, ctx))
  }

  /** With no context and no unit there is nothing to enter, and in the context at hand nothing to change. */
  lemma IdleLookup(s: State, ctx: Option<Context>, unit: string, inner: seq<Work>)
    requires !Opens(s, ctx, unit)
    ensures Enter(s, ctx, unit) == s
    ensures Effect(Lookup(ctx, unit, inner), s) == Effects(inner, s)
  {
  }

  /** Without a context that keeps them, or in another unit, the caller's tables and receivers are all put aside. */
  lemma LookupPutsAside(s: State, ctx: Option<Context>, unit: string)
    requires ctx.Some? || unit != ""
    requires ctx.Some? ==> !ctx.value.preservesLocals || (ctx.value.unit != "" && ctx.value.unit != s.unit)
    ensures Opens(s, ctx, unit)
    ensures var k := Enter(s, ctx, unit).locals;
            && k.names == {} && k.types == map[] && k.consts == map[] && k.untyped == map[]
            && k.nested == map[] && k.forwards == {} && k.constParams == {} && k.absolutes == map[]
    ensures Enter(s, ctx, unit).withs == []
  {
  }

  /** A context of the same unit that keeps them leaves the caller's tables and receivers in sight. */
  lemma LookupKeepsInSight(s: State, ctx: Context, unit: string)
    requires ctx.preservesLocals && (ctx.unit == "" || ctx.unit == s.unit)
    ensures var k, was := Enter(s, Some(ctx), unit).locals, s.locals;
            && k.names == was.names && k.types == was.types && k.consts == was.consts && k.untyped == was.untyped
            && k.nested == was.nested && k.forwards == was.forwards && k.constParams == was.constParams
            && k.absolutes == was.absolutes
    ensures Enter(s, Some(ctx), unit).withs == s.withs
  {
  }

  /** An open lookup works in its declaration's context and unit, in no class or routine, no deeper than before. */
  lemma LookupMoves(s: State, ctx: Option<Context>, unit: string)
    requires Opens(s, ctx, unit)
    ensures var inside, target := Enter(s, ctx, unit), if ctx.Some? then ctx.value.unit else unit;
            && inside.typeScope == ctx && inside.depth == s.depth
            && inside.unit == (if target == "" then s.unit else target)
            && (inside.unit == s.unit ==> inside.emissionUnit == s.emissionUnit)
            && (inside.unit != s.unit && s.emissionUnit == "" ==> inside.emissionUnit == s.unit)
            && (s.emissionUnit != "" ==> inside.emissionUnit == s.emissionUnit)
            && inside.cls == None && inside.routine.name == "" && inside.routine.params == []
            && !inside.routine.isFunction && !inside.routine.isCtor
            && inside.routine.resultType == inside.routine.bareType == inside.routine.outerType == None
            && inside.routine.resultSlot == inside.routine.bareSlot == inside.routine.outerSlot == ""
            && inside.routine.outerName == ""
  {
  }

  // ------------------------------------------------------------------ names at every moment

  /** What a local adds to the names in scope: its own, unless a function's `Result` is in the way. */
  function Adds(s: State, l: Local): set<string> {
    if s.routine.bareType.Some? && l.name == "result" then {} else {l.name}
  }

  /** The names declared since the innermost lookup that put the caller's aside, once a piece of work is over. */
  function NamesAfter(w: Work, s: State, names: set<string>): set<string>
    decreases w, 0
  {
    match w
    case Lookup(ctx, unit, inner) =>
      if Opens(s, ctx, unit) && !InSight(s, ctx) then names else AllNamesAfter(inner, Enter(s, ctx, unit), names)
    case Frame(_, _, _) => names
    case With(binds, inner) => AllNamesAfter(inner, s.(withs := s.withs + binds), names)
    case Declaration(l) => names + Adds(s, l)
  }

  function AllNamesAfter(ws: seq<Work>, s: State, names: set<string>): set<string>
    decreases ws, 1
  {
    if ws == [] then names else AllNamesAfter(ws[1..], Effect(ws[0], s), NamesAfter(ws[0], s, names))
  }

  /** Names declared and receivers opened since the innermost lookup that put the caller's aside. */
  datatype View = View(names: set<string>, withs: seq<Id>, state: State)

  /** Every moment of a piece of work started in `s`, with what has been declared and opened by then. */
  function Views(w: Work, s: State, names: set<string>, withs: seq<Id>): seq<View>
    decreases w, 0
  {
    match w
    case Lookup(ctx, unit, inner) =>
      if Opens(s, ctx, unit) && !InSight(s, ctx) then ViewsOfAll(inner, Enter(s, ctx, unit), {}, [])
      else ViewsOfAll(inner, Enter(s, ctx, unit), names, withs)
    case Frame(pd, nested, inner) =>
      var frame := Setup(s, pd, nested);
      ViewsOfAll(inner, Seed(frame, pd.locals),
                 names + DeclaredNames(pd.locals, frame.routine.bareType.Some?), withs)
    case With(binds, inner) => ViewsOfAll(inner, s.(withs := s.withs + binds), names, withs + binds)
    case Declaration(_) => []
  }

  function ViewsOfAll(ws: seq<Work>, s: State, names: set<string>, withs: seq<Id>): seq<View>
    decreases ws, 1
  {
    [View(names, withs, s)] +
    if ws == [] then []
    else Views(ws[0], s, names, withs) + ViewsOfAll(ws[1..], Effect(ws[0], s), NamesAfter(ws[0], s, names), withs)
  }

  /** No moment is passed over: the state after any first part is viewed, and so is each one inside the next work. */
  lemma {:induction false} ViewsCover(ws: seq<Work>, s: State, names: set<string>, withs: seq<Id>, k: nat)
    requires k <= |ws|
    ensures var now, known := Effects(ws[..k], s), AllNamesAfter(ws[..k], s, names);
            && View(known, withs, now) in ViewsOfAll(ws, s, names, withs)
            && (k < |ws| ==> forall v :: v in Views(ws[k], now, known, withs) ==> v in ViewsOfAll(ws, s, names, withs))
    decreases k
  {
    hide Effect, Views, NamesAfter;
    if k > 0 {
      ViewsCover(ws[1..], Effect(ws[0], s), NamesAfter(ws[0], s, names), withs, k - 1);
      assert ws[..k][1..] == ws[1..][..k - 1];
      assert k < |ws| ==> ws[1..][k - 1] == ws[k];
    } else {
      assert ws[..0] == [];
    }
  }

  /** Whatever the tables record is recorded under a name in scope. */
  predicate Within(k: Locals) {
    && k.types.Keys <= k.names && k.consts.Keys <= k.names && k.untyped.Keys <= k.names
    && k.nested.Keys <= k.names && k.forwards <= k.names && k.constParams <= k.names
    && k.absolutes.Keys <= k.names
  }

  /** The names in scope are those, and no table knows another. */
  predicate Knows(s: State, names: set<string>) {
    s.locals.names == names && Within(s.locals)
  }

  /** Nothing local is visible but what was declared and opened. */
  predicate Accounted(v: View) {
    Knows(v.state, v.names) && v.state.withs == v.withs
  }

  lemma DeclareKnows(s: State, l: Local, names: set<string>)
    requires Knows(s, names)
    ensures Knows(Declare(s, l), names + Adds(s, l))
  {
  }

  lemma {:induction false} SeedKnows(s: State, ls: seq<Local>, names: set<string>)
    requires Knows(s, names)
    ensures Knows(Seed(s, ls), names + DeclaredNames(ls, s.routine.bareType.Some?))
    decreases ls
  {
    SeedDeclares(s, ls);
    SeedWithin(s, ls);
  }

  lemma {:induction false} SeedWithin(s: State, ls: seq<Local>)
    requires Within(s.locals)
    ensures Within(Seed(s, ls).locals)
    decreases ls
  {
    if ls != [] {
      DeclareKnows(s, ls[0], s.locals.names);
      hide Declare, Within;
      SeedWithin(Declare(s, ls[0]), ls[1..]);
    }
  }

  lemma EnterKnows(s: State, ctx: Option<Context>, unit: string, names: set<string>, withs: seq<Id>)
    requires Accounted(View(names, withs, s))
    ensures var inside := Enter(s, ctx, unit);
            if Opens(s, ctx, unit) && !InSight(s, ctx) then Accounted(View({}, [], inside))
            else Accounted(View(names, withs, inside))
  {
    if Opens(s, ctx, unit) {
      if InSight(s, ctx) { LookupKeepsInSight(s, ctx.value, unit); } else { LookupPutsAside(s, ctx, unit); }
    } else {
      IdleLookup(s, ctx, unit, []);
    }
  }

  /** Leaving a lookup: the caller's locals come back if they were put aside, else what was declared stays. */
  lemma LeaveLocals(s: State, after: State, ctx: Option<Context>, unit: string)
    ensures Leave(s, after, ctx, unit).locals ==
            if Opens(s, ctx, unit) && !InSight(s, ctx) then s.locals else after.locals
  {
  }

  lemma {:induction false} WorkKnows(w: Work, s: State, names: set<string>)
    requires Knows(s, names)
    ensures Knows(Effect(w, s), NamesAfter(w, s, names))
    decreases w, 0
  {
    hide Knows, Enter, Leave, Setup, Declare, Seed, Opens, InSight;
    match w
    case Lookup(ctx, unit, inner) =>
      var inside := Enter(s, ctx, unit);
      LeaveLocals(s, Effects(inner, inside), ctx, unit);
      if Opens(s, ctx, unit) && !InSight(s, ctx) {
        SameLocalsKnow(s, Effect(w, s), names);
      } else {
        AccountedByKnows(s, names);
        EnterKnows(s, ctx, unit, names, s.withs);
        AccountedByKnows(inside, names);
        AllWorkKnows(inner, inside, names);
        SameLocalsKnow(Effects(inner, inside), Effect(w, s), NamesAfter(w, s, names));
      }
    case Frame(pd, nested, inner) =>
      SameLocalsKnow(s, Effect(w, s), names);
    case With(binds, inner) =>
      var inside := s.(withs := s.withs + binds);
      SameLocalsKnow(s, inside, names);
      AllWorkKnows(inner, inside, names);
      SameLocalsKnow(Effects(inner, inside), Effect(w, s), NamesAfter(w, s, names));
    case Declaration(l) =>
      DeclareKnows(s, l, names);
  }

  lemma {:induction false} AllWorkKnows(ws: seq<Work>, s: State, names: set<string>)
    requires Knows(s, names)
    ensures Knows(Effects(ws, s), AllNamesAfter(ws, s, names))
    decreases ws, 1
  {
    hide Knows;
    if ws != [] {
      WorkKnows(ws[0], s, names);
      AllWorkKnows(ws[1..], Effect(ws[0], s), NamesAfter(ws[0], s, names));
    }
  }

  lemma SameLocalsKnow(s: State, t: State, names: set<string>)
    requires Knows(s, names) && t.locals == s.locals
    ensures Knows(t, names)
  {
  }

  lemma AccountedByKnows(s: State, names: set<string>)
    ensures Accounted(View(names, s.withs, s)) <==> Knows(s, names)
  {
  }

  lemma {:induction false} ViewsAccounted(w: Work, s: State, names: set<string>, withs: seq<Id>)
    requires Accounted(View(names, withs, s))
    ensures forall v :: v in Views(w, s, names, withs) ==> Accounted(v)
    decreases w, 0
  {
    hide Accounted, Enter, Setup, Seed, Opens, InSight;
    match w
    case Lookup(ctx, unit, inner) =>
      EnterKnows(s, ctx, unit, names, withs);
      if Opens(s, ctx, unit) && !InSight(s, ctx) { AllViewsAccounted(inner, Enter(s, ctx, unit), {}, []); }
      else { AllViewsAccounted(inner, Enter(s, ctx, unit), names, withs); }
    case Frame(pd, nested, inner) =>
      FrameAccounted(s, pd, nested, names, withs);
      var frame := Setup(s, pd, nested);
      AllViewsAccounted(inner, Seed(frame, pd.locals),
                        names + DeclaredNames(pd.locals, frame.routine.bareType.Some?), withs);
    case With(binds, inner) =>
      WithAccounted(s, binds, names, withs);
      AllViewsAccounted(inner, s.(withs := s.withs + binds), names, withs + binds);
    case Declaration(_) =>
  }

  lemma FrameAccounted(s: State, pd: Proc, nested: bool, names: set<string>, withs: seq<Id>)
    requires Accounted(View(names, withs, s))
    ensures var frame := Setup(s, pd, nested);
            Accounted(View(names + DeclaredNames(pd.locals, frame.routine.bareType.Some?), withs,
                           Seed(frame, pd.locals)))
  {
    SeedKnows(Setup(s, pd, nested), pd.locals, names);
    SeedKeeps(Setup(s, pd, nested), pd.locals);
  }

  lemma WithAccounted(s: State, binds: seq<Id>, names: set<string>, withs: seq<Id>)
    requires Accounted(View(names, withs, s))
    ensures Accounted(View(names, withs + binds, s.(withs := s.withs + binds)))
  {
  }

  /**
   * At every moment of any work the names in scope are exactly those declared, and the receivers on
   * the `with` stack exactly those opened, since the innermost lookup that put the caller's aside.
   */
  lemma {:induction false} AllViewsAccounted(ws: seq<Work>, s: State, names: set<string>, withs: seq<Id>)
    requires Accounted(View(names, withs, s))
    ensures forall v :: v in ViewsOfAll(ws, s, names, withs) ==> Accounted(v)
    decreases ws, 1
  {
    hide Accounted;
    if ws != [] {
      ViewsAccounted(ws[0], s, names, withs);
      NextAccounted(ws[0], s, names, withs);
      AllViewsAccounted(ws[1..], Effect(ws[0], s), NamesAfter(ws[0], s, names), withs);
    }
  }

  lemma NextAccounted(w: Work, s: State, names: set<string>, withs: seq<Id>)
    requires Accounted(View(names, withs, s))
    ensures Accounted(View(NamesAfter(w, s, names), withs, Effect(w, s)))
  {
    hide Effect, Nested;
    WorkNests(w, s);
    NestedKeeps(w, s, true);
    WorkKnows(w, s, names);
  }

  /** Inside a lookup that puts the caller's aside none of them is visible, at any moment of any work in it. */
  lemma LookupShowsOnlyItsOwn(s: State, ctx: Option<Context>, unit: string, inner: seq<Work>, v: View)
    requires ctx.Some? || unit != ""
    requires ctx.Some? ==> !ctx.value.preservesLocals || (ctx.value.unit != "" && ctx.value.unit != s.unit)
    requires v in ViewsOfAll(inner, Enter(s, ctx, unit), {}, [])
    ensures v.state.locals.names == v.names && v.state.withs == v.withs && Within(v.state.locals)
  {
    LookupPutsAside(s, ctx, unit);
    AllViewsAccounted(inner, Enter(s, ctx, unit), {}, []);
  }
}
