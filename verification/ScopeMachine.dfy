/** The same environment as the emitter holds it: one mutable object, with guards that save and put back. */
module ScopeMachine {
  import opened Wrappers
  import opened ScopeStates

  class Scope {
    var currentUnit: string
    var emissionUnit: string
    var classSymbol: Option<Id>
    var routine: Routine
    var locals: Locals
    var withStack: seq<Id>
    var typeScope: Option<Context>
    var blockDepth: nat

    constructor (unit: string)
      ensures Snapshot() == State(unit, "", None, NO_ROUTINE, NO_LOCALS, [], None, 0)
    {
      currentUnit, emissionUnit, classSymbol := unit, "", None;
      routine, locals := NO_ROUTINE, NO_LOCALS;
      withStack, typeScope, blockDepth := [], None, 0;
    }

    function Snapshot(): State
      reads this
    {
      State(currentUnit, emissionUnit, classSymbol, routine, locals, withStack, typeScope, blockDepth)
    }

    /** Push a frame for a routine: inherited results, own result slot, class, type scope, depth. */
    method SetupFrame(pd: Proc, nested: bool)
      modifies this
      ensures Snapshot() == Setup(old(Snapshot()), pd, nested)
    {
      var inheritedName, inheritedSlot, inheritedType := routine.outerName, routine.outerSlot, routine.outerType;
      if routine.isFunction && routine.resultType.Some? {
        inheritedName, inheritedSlot, inheritedType := routine.name, routine.resultSlot, routine.resultType;
      }
      typeScope := pd.bodyContext;
      var resultSlot, bareSlot, bareType := "", inheritedSlot, inheritedType;
      if pd.isFunction && pd.returnType.Some? {
        resultSlot := if inheritedType.Some? then NestedResultSlot(pd.name) else RESULT_SLOT;
        bareSlot, bareType := resultSlot, pd.returnType;
      }
      routine := routine.(
        name := pd.name,
        params := pd.params,
        isFunction := pd.isFunction,
        isCtor := !nested && !pd.isClassMethod && pd.isConstructor,
        resultType := pd.returnType,
        resultSlot := resultSlot,
        bareSlot := bareSlot,
        bareType := bareType,
        outerName := inheritedName,
        outerSlot := inheritedSlot,
        outerType := inheritedType);
      if !nested { classSymbol := pd.owner; }
      blockDepth := blockDepth + 1;
    }

    method DeclareLocal(l: Local)
      modifies this`locals
      ensures Snapshot() == Declare(old(Snapshot()), l)
    {
      if routine.bareType.Some? && l.name == "result" { return; }
      var k := locals.(names := locals.names + {l.name});
      match l {
        case Typed(name, typ, isConst) =>
          k := k.(types := k.types[name := typ]);
          if isConst { k := k.(constParams := k.constParams + {name}); }
        case Untyped(name, descriptor, isConst) =>
          if name !in k.untyped { k := k.(untyped := k.untyped[name := descriptor]); }
          if isConst { k := k.(constParams := k.constParams + {name}); }
        case ConstLocal(name, decl, deduced) =>
          k := k.(consts := k.consts[name := decl]);
          if deduced.Some? { k := k.(types := k.types[name := deduced.value]); }
        case NestedProc(name, decl, isForward) =>
          if !isForward {
            var overloads := if name in k.nested then k.nested[name] else [];
            k := k.(nested := k.nested[name := overloads + [NestedFn(decl, |overloads|)]]);
          }
      }
      locals := k;
    }

    method SeedScope(ls: seq<Local>)
      modifies this`locals
      ensures Snapshot() == Seed(old(Snapshot()), ls)
    {
      hide Declare;
      for i := 0 to |ls|
        invariant Seed(Snapshot(), ls[i..]) == Seed(old(Snapshot()), ls)
      {
        assert ls[i..][1..] == ls[i + 1..];
        DeclareLocal(ls[i]);
      }
      assert ls[|ls|..] == [];
    }

    /** Do a piece of emission work: every lookup, frame and `with` undoes what it set up. */
    method Execute(w: Work)
      modifies this
      ensures Snapshot() == Effect(w, old(Snapshot()))
      ensures Balanced(w, old(Snapshot())) ==> Snapshot() == old(Snapshot())
      decreases w, 1
    {
      hide Enter, Leave, Setup, Restore, Declare, Seed, Nested;
      ghost var start := Snapshot();
      match w {
        case Lookup(ctx, unit, inner) =>
          var guard := new DeclarationLookup(this, ctx, unit);
          ExecuteAll(inner);
          guard.Close(this, start, ctx, unit);
        case Frame(pd, nested, inner) =>
          var saved := new SavedFrame(this);
          SetupFrame(pd, nested);
          SeedScope(pd.locals);
          ExecuteAll(inner);
          saved.PutBack(this, start);
        case With(binds, inner) =>
          var size := |withStack|;
          withStack := withStack + binds;
          ExecuteAll(inner);
          PopWiths(size);
        case Declaration(l) =>
          DeclareLocal(l);
      }
      if Balanced(w, start) { NestedKeeps(w, start, false); }
    }

    method PopWiths(size: nat)
      modifies this`withStack
      ensures withStack == CutTo(old(withStack), size)
    {
      while |withStack| > size
        invariant CutTo(withStack, size) == CutTo(old(withStack), size)
      {
        withStack := withStack[..|withStack| - 1];
      }
    }

    method ExecuteAll(ws: seq<Work>)
      modifies this
      ensures Snapshot() == Effects(ws, old(Snapshot()))
      decreases ws, 0
    {
      hide Effect, Nested;
      if ws != [] {
        Execute(ws[0]);
        ExecuteAll(ws[1..]);
      }
    }
  }

  /** The guard of a declaration lookup: copies of what it overwrites, and the locals it swapped out. */
  class DeclarationLookup {
    var savedUnit: string
    var savedEmissionUnit: string
    var savedClassSymbol: Option<Id>
    var savedRoutine: Routine
    var savedLocals: Locals
    var savedWithStack: seq<Id>
    var savedTypeScope: Option<Context>
    var active: bool
    var keepsLocals: bool

    /** What is saved is what the scope held when the lookup was opened. */
    ghost predicate Remembers(before: State, ctx: Option<Context>, unit: string)
      reads this
    {
      && active == Activates(before, ctx, unit)
      && (active ==>
            && keepsLocals == Preserves(before, ctx, unit)
            && savedUnit == before.unit && savedEmissionUnit == before.emissionUnit
            && savedClassSymbol == before.cls && savedRoutine == before.routine
            && savedTypeScope == before.typeScope
            && (!keepsLocals ==> savedLocals == before.locals && savedWithStack == before.withs))
    }

    constructor (scope: Scope, ctx: Option<Context>, unit: string)
      modifies scope
      ensures scope.Snapshot() == Enter(old(scope.Snapshot()), ctx, unit)
      ensures Remembers(old(scope.Snapshot()), ctx, unit)
    {
      savedUnit, savedEmissionUnit, savedClassSymbol := scope.currentUnit, scope.emissionUnit, scope.classSymbol;
      savedRoutine, savedLocals := scope.routine, NO_LOCALS;
      savedWithStack, savedTypeScope := [], scope.typeScope;
      active, keepsLocals := false, false;
      new;
      if ctx.None? && unit == "" { return; }
      Open(scope, ctx, if ctx.Some? then ctx.value.unit else unit);
    }

    method Open(scope: Scope, ctx: Option<Context>, target: string)
      requires !active && savedLocals == NO_LOCALS && savedWithStack == []
      requires target == TargetUnit(ctx, target)
      requires savedUnit == scope.currentUnit && savedEmissionUnit == scope.emissionUnit
      modifies this`active, this`keepsLocals, this`savedLocals, this`savedWithStack
      modifies scope`currentUnit, scope`emissionUnit, scope`classSymbol, scope`routine, scope`locals,
          scope`withStack, scope`typeScope
      ensures keepsLocals == Preserves(old(scope.Snapshot()), ctx, target)
      ensures active == !(ctx == old(scope.typeScope) && keepsLocals)
      ensures if active then scope.Snapshot() == Entered(old(scope.Snapshot()), ctx, target)
              else scope.Snapshot() == old(scope.Snapshot())
      ensures active && !keepsLocals ==> savedLocals == old(scope.locals) && savedWithStack == old(scope.withStack)
    {
      var here := target == "" || target == scope.currentUnit;
      keepsLocals := ctx.Some? && ctx.value.preservesLocals && here;
      if ctx == scope.typeScope && here && keepsLocals { return; }
      if !keepsLocals { SwapLocals(scope); }
      HideCaller(scope);
      if !here {
        scope.emissionUnit := if savedEmissionUnit == "" then savedUnit else savedEmissionUnit;
        scope.currentUnit := target;
      }
      scope.typeScope := ctx;
      active := true;
    }

    method SwapLocals(scope: Scope)
      modifies this`savedLocals, this`savedWithStack, scope`locals, scope`withStack
      ensures savedLocals == old(scope.locals) && scope.locals == old(savedLocals)
      ensures savedWithStack == old(scope.withStack) && scope.withStack == old(savedWithStack)
    {
      savedLocals, scope.locals := scope.locals, savedLocals;
      savedWithStack, scope.withStack := scope.withStack, savedWithStack;
    }

    /** Caller-only bindings must not leak into declaration-owned expressions. */
    method HideCaller(scope: Scope)
      modifies scope`classSymbol, scope`routine
      ensures scope.classSymbol == None && scope.routine == NO_ROUTINE
    {
      scope.classSymbol := None;
      scope.routine := scope.routine.(
        name := "", params := [], isFunction := false, isCtor := false, resultType := None,
        resultSlot := "", bareSlot := "", bareType := None, outerName := "", outerSlot := "", outerType := None);
    }

    /** Put everything back; the swapped locals return, whatever was left in their place. */
    method Close(scope: Scope, ghost before: State, ghost ctx: Option<Context>, ghost unit: string)
      requires Remembers(before, ctx, unit)
      modifies this, scope
      ensures scope.Snapshot() == Leave(before, old(scope.Snapshot()), ctx, unit)
    {
      if !active { return; }
      scope.currentUnit, scope.emissionUnit, scope.classSymbol := savedUnit, savedEmissionUnit, savedClassSymbol;
      scope.routine := savedRoutine;
      if !keepsLocals { SwapLocals(scope); }
      scope.typeScope := savedTypeScope;
    }
  }

  /** What a routine frame saves: not the units, not the `with` stack. */
  class SavedFrame {
    var savedRoutine: Routine
    var savedClassSymbol: Option<Id>
    var savedLocals: Locals
    var savedTypeScope: Option<Context>
    var savedBlockDepth: nat

    ghost predicate Remembers(before: State)
      reads this
    {
      && savedRoutine == before.routine && savedClassSymbol == before.cls && savedLocals == before.locals
      && savedTypeScope == before.typeScope && savedBlockDepth == before.depth
    }

    constructor (scope: Scope)
      ensures Remembers(scope.Snapshot())
    {
      savedRoutine, savedClassSymbol, savedLocals := scope.routine, scope.classSymbol, scope.locals;
      savedTypeScope, savedBlockDepth := scope.typeScope, scope.blockDepth;
    }

    method PutBack(scope: Scope, ghost before: State)
      requires Remembers(before)
      modifies scope
      ensures scope.Snapshot() == Restore(before, old(scope.Snapshot()))
    {
      scope.routine, scope.classSymbol, scope.locals := savedRoutine, savedClassSymbol, savedLocals;
      scope.typeScope, scope.blockDepth := savedTypeScope, savedBlockDepth;
    }
  }
}
