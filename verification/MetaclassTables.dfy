/** Metaclass constructors and the values built for them: one signature, written twice, filled by search. */
module MetaclassTables {
  import opened Wrappers
  import opened Metaclasses

  // ------------------------------------------------------------------ implementation search

  /** The method a slot calls: a declared one in its owner, or the root's constructor. */
  datatype Impl = Method(owner: ClassId, sig: Sig) | RootCreate(owner: ClassId)

  predicate Matches(target: Callable, candidate: Sig) {
    && candidate.hasDecl
    && if ImplicitCreate(target) then candidate.kind == Constructor && candidate.paramCount == 0
       else && target.sig.value.hasDecl
            && candidate.kind == target.sig.value.kind
            && SigsMatch(candidate, target.sig.value)
  }

  function FirstMatching(target: Callable, sigs: seq<Sig>): Option<Sig> {
    if sigs == [] then None
    else if Matches(target, sigs[0]) then Some(sigs[0])
    else FirstMatching(target, sigs[1..])
  }

  function FindDeclared(reg: Registry, chain: seq<ClassId>, target: Callable): Option<Impl> {
    if chain == [] then None
    else
      var sig := FirstMatching(target, MethodsOf(reg, chain[0], target.name));
      if sig.Some? then Some(Method(chain[0], sig.value)) else FindDeclared(reg, chain[1..], target)
  }

  function FindRoot(reg: Registry, chain: seq<ClassId>): Option<Impl> {
    if chain == [] then None
    else if chain[0] in reg.classes && reg.classes[chain[0]].isRoot then Some(RootCreate(chain[0]))
    else FindRoot(reg, chain[1..])
  }

  function FindImpl(reg: Registry, concrete: ClassId, target: Callable): Option<Impl> {
    var declared := FindDeclared(reg, Ancestry(reg, concrete), target);
    if declared.Some? || !ImplicitCreate(target) then declared else FindRoot(reg, Ancestry(reg, concrete))
  }

  /** The search as it runs: up the parents, remembering the classes seen. */
  method SearchImpl(reg: Registry, concrete: ClassId, target: Callable) returns (r: Option<Impl>)
    ensures r == FindImpl(reg, concrete, target)
  {
    hide Matches;
    var seen: set<ClassId> := {};
    var ci := Some(concrete);
    while ci.Some? && ci.value in reg.classes && ci.value !in seen
      invariant FindDeclared(reg, Chain(reg, ci, seen), target) == FindDeclared(reg, Ancestry(reg, concrete), target)
      decreases reg.classes.Keys - seen
    {
      seen := seen + {ci.value};
      var sigs := MethodsOf(reg, ci.value, target.name);
      for i := 0 to |sigs|
        invariant FirstMatching(target, sigs[i..]) == FirstMatching(target, sigs)
      {
        assert sigs[i..][1..] == sigs[i + 1..];
        if Matches(target, sigs[i]) { return Some(Method(ci.value, sigs[i])); }
      }
      assert sigs[|sigs|..] == [];
      ci := reg.classes[ci.value].parent;
    }
    if !ImplicitCreate(target) { return None; }
    seen, ci := {}, Some(concrete);
    while ci.Some? && ci.value in reg.classes && ci.value !in seen
      invariant FindRoot(reg, Chain(reg, ci, seen)) == FindRoot(reg, Ancestry(reg, concrete))
      decreases reg.classes.Keys - seen
    {
      seen := seen + {ci.value};
      if reg.classes[ci.value].isRoot { return Some(RootCreate(ci.value)); }
      ci := reg.classes[ci.value].parent;
    }
    return None;
  }

  /** `sig` is the first match in the nearest class of the chain that has one. */
  ghost predicate NearestMatch(reg: Registry, chain: seq<ClassId>, target: Callable, at: nat, owner: ClassId,
                               sig: Sig) {
    && at < |chain| && chain[at] == owner
    && FirstMatch(target, MethodsOf(reg, owner, target.name), sig)
    && forall i :: 0 <= i < at ==> forall s :: s in MethodsOf(reg, chain[i], target.name) ==> !Matches(target, s)
  }

  ghost predicate FirstMatch(target: Callable, sigs: seq<Sig>, sig: Sig) {
    exists k ::
      && 0 <= k < |sigs| && sigs[k] == sig && Matches(target, sig)
      && forall j :: 0 <= j < k ==> !Matches(target, sigs[j])
  }

  lemma {:induction false} FirstMatchingMeans(target: Callable, sigs: seq<Sig>)
    ensures var r := FirstMatching(target, sigs);
            if r.Some? then FirstMatch(target, sigs, r.value)
            else forall s :: s in sigs ==> !Matches(target, s)
  {
    hide Matches;
    if sigs != [] {
      FirstMatchingMeans(target, sigs[1..]);
      if Matches(target, sigs[0]) {
        assert FirstMatch(target, sigs, sigs[0]);
      } else {
        var r := FirstMatching(target, sigs[1..]);
        if r.Some? {
          var k :|
            && 0 <= k < |sigs[1..]| && sigs[1..][k] == r.value
            && forall j :: 0 <= j < k ==> !Matches(target, sigs[1..][j]);
          forall j | 0 <= j < k + 1 ensures !Matches(target, sigs[j]) {
            if j > 0 { assert sigs[1..][j - 1] == sigs[j]; }
          }
          assert sigs[k + 1] == r.value;
        }
      }
    }
  }

  /** Walking up from the concrete class, the declared search stops at the first class with a match. */
  lemma {:induction false} FindDeclaredMeans(reg: Registry, chain: seq<ClassId>, target: Callable)
    ensures var r := FindDeclared(reg, chain, target);
            if r.Some? then
              && r.value.Method?
              && exists at: nat :: NearestMatch(reg, chain, target, at, r.value.owner, r.value.sig)
            else
              forall i :: 0 <= i < |chain| ==>
                forall s :: s in MethodsOf(reg, chain[i], target.name) ==> !Matches(target, s)
  {
    hide Matches, FirstMatch, MethodsOf;
    if chain != [] {
      var sigs := MethodsOf(reg, chain[0], target.name);
      FirstMatchingMeans(target, sigs);
      var r := FirstMatching(target, sigs);
      if r.Some? {
        assert NearestMatch(reg, chain, target, 0, chain[0], r.value);
      } else {
        FindDeclaredMeans(reg, chain[1..], target);
        var d := FindDeclared(reg, chain[1..], target);
        if d.Some? {
          var at: nat :| NearestMatch(reg, chain[1..], target, at, d.value.owner, d.value.sig);
          forall i | 0 <= i < at + 1
            ensures forall s :: s in MethodsOf(reg, chain[i], target.name) ==> !Matches(target, s)
          {
            if i > 0 { assert chain[1..][i - 1] == chain[i]; }
          }
          assert NearestMatch(reg, chain, target, at + 1, d.value.owner, d.value.sig);
        } else {
          forall i | 0 <= i < |chain|
            ensures forall s :: s in MethodsOf(reg, chain[i], target.name) ==> !Matches(target, s)
          {
            if i > 0 { assert chain[1..][i - 1] == chain[i]; }
          }
        }
      }
    }
  }

  /** The search sees only a callable's surface. */
  lemma {:induction false} SurfaceDecidesImpl(reg: Registry, concrete: ClassId, a: Callable, b: Callable)
    requires SameSurface(a, b)
    ensures FindImpl(reg, concrete, a) == FindImpl(reg, concrete, b)
  {
    SurfaceDecidesDeclared(reg, Ancestry(reg, concrete), a, b);
  }

  lemma {:induction false} SurfaceDecidesDeclared(reg: Registry, chain: seq<ClassId>, a: Callable, b: Callable)
    requires SameSurface(a, b)
    ensures FindDeclared(reg, chain, a) == FindDeclared(reg, chain, b)
  {
    if chain != [] {
      SurfaceDecidesFirst(MethodsOf(reg, chain[0], a.name), a, b);
      SurfaceDecidesDeclared(reg, chain[1..], a, b);
    }
  }

  lemma {:induction false} SurfaceDecidesFirst(sigs: seq<Sig>, a: Callable, b: Callable)
    requires SameSurface(a, b)
    ensures FirstMatching(a, sigs) == FirstMatching(b, sigs)
  {
    if sigs != [] { SurfaceDecidesFirst(sigs[1..], a, b); }
  }

  // ------------------------------------------------------------------ the two signatures

  /** A parameter of a metaclass constructor: the parent metaclass, or one slot of the class. */
  datatype Param = ParentParam(cls: ClassId) | SlotParam(cls: ClassId, callable: Callable)

  /** An argument of a metaclass constructor call; a slot without an implementation aborts when called. */
  datatype Arg = ParentArg(cls: ClassId, args: seq<Arg>) | SlotArg(cls: ClassId, callable: Callable, impl: Option<Impl>)

  /** The parent whose metaclass a metaclass extends. */
  function MetaParent(reg: Registry, c: ClassId): Option<ClassId>
    requires c in reg.classes
  {
    var p := reg.classes[c].parent;
    if p.Some? && p.value in reg.classes && reg.classes[p.value].isReference then p else None
  }

  ghost function ParentVisible(reg: Registry, c: ClassId): seq<Callable>
    requires c in reg.classes
  {
    var p := MetaParent(reg, c);
    if p.None? then [] else Visible(reg, p.value)
  }

  /** Slots a class adds: those its parent lacks, virtual ones, and every constructor. */
  function Own(visible: seq<Callable>, parent: seq<Callable>): seq<Callable> {
    if visible == [] then []
    else
      var c := visible[0];
      (if !HasSurface(c, parent) || Virtual(c) || Constructs(c) then [c] else []) + Own(visible[1..], parent)
  }

  method OwnCallables(visible: seq<Callable>, parent: seq<Callable>) returns (own: seq<Callable>)
    ensures own == Own(visible, parent)
  {
    hide SameSurface, Virtual;
    own := [];
    for i := 0 to |visible|
      invariant own + Own(visible[i..], parent) == Own(visible, parent)
    {
      assert visible[i..][1..] == visible[i + 1..];
      var c := visible[i];
      var same := false;
      for j := 0 to |parent|
        invariant same <==> exists k :: 0 <= k < j && SameSurface(c, parent[k])
      {
        if SameSurface(c, parent[j]) { same := true; }
      }
      if !same || Virtual(c) {
        own := own + [c];
        continue;
      }
      if Constructs(c) { own := own + [c]; }
    }
    assert visible[|visible|..] == [];
  }

  function SlotParams(c: ClassId, own: seq<Callable>): seq<Param> {
    if own == [] then []
    else (if Virtual(own[0]) then [] else [SlotParam(c, own[0])]) + SlotParams(c, own[1..])
  }

  /** The parameters the generated metaclass constructor declares. */
  ghost function Params(reg: Registry, c: ClassId): seq<Param>
    requires c in reg.classes
  {
    if Visible(reg, c) == [] then []
    else
      var p := MetaParent(reg, c);
      (if p.Some? && ParentVisible(reg, c) != [] then [ParentParam(p.value)] else [])
      + SlotParams(c, Own(Visible(reg, c), ParentVisible(reg, c)))
  }

  method DeclareParams(reg: Registry, c: ClassId) returns (params: seq<Param>)
    requires c in reg.classes
    ensures params == Params(reg, c)
  {
    hide Visible, Own, Virtual;
    var p := reg.classes[c].parent;
    var hasParent := p.Some? && p.value in reg.classes && reg.classes[p.value].isReference;
    var visible := CollectCallables(reg, c);
    var parent: seq<Callable> := [];
    if hasParent { parent := CollectCallables(reg, p.value); }
    var own := OwnCallables(visible, parent);
    if visible == [] { return []; }
    params := [];
    if hasParent && parent != [] { params := [ParentParam(p.value)]; }
    ghost var start := params;
    for i := 0 to |own|
      invariant params + SlotParams(c, own[i..]) == start + SlotParams(c, own)
    {
      assert own[i..][1..] == own[i + 1..];
      if Virtual(own[i]) { continue; }
      params := params + [SlotParam(c, own[i])];
    }
    assert own[|own|..] == [];
  }

  /**
   * The slot arguments: a filter over the visible callables, written independently of the one that
   * declares the slots.
   */
  function SlotArgs(reg: Registry, c: ClassId, visible: seq<Callable>, parent: seq<Callable>,
                    concrete: ClassId): seq<Arg> {
    if visible == [] then []
    else
      var x := visible[0];
      (if Virtual(x) || (HasSurface(x, parent) && !Constructs(x)) then []
       else [SlotArg(c, x, FindImpl(reg, concrete, x))])
      + SlotArgs(reg, c, visible[1..], parent, concrete)
  }

  /** The arguments built for the metaclass of `c` when the value describes `concrete`. */
  ghost function Args(reg: Registry, c: ClassId, concrete: ClassId): seq<Arg>
    requires Acyclic(reg) && c in reg.classes
    decreases |Ancestry(reg, c)|
  {
    AncestryStep(reg, c);
    var p := MetaParent(reg, c);
    (if p.Some? && ParentVisible(reg, c) != [] then [ParentArg(p.value, Args(reg, p.value, concrete))] else [])
    + SlotArgs(reg, c, Visible(reg, c), ParentVisible(reg, c), concrete)
  }

  method BuildArgs(reg: Registry, c: ClassId, concrete: ClassId) returns (args: seq<Arg>)
    requires Acyclic(reg) && c in reg.classes
    ensures args == Args(reg, c, concrete)
    decreases |Ancestry(reg, c)|
  {
    hide Visible, Virtual, FindImpl, SameSurface, Acyclic, Ancestry;
    AncestryStep(reg, c);
    var visible := CollectCallables(reg, c);
    var p := reg.classes[c].parent;
    var hasParent := p.Some? && p.value in reg.classes && reg.classes[p.value].isReference;
    var parent: seq<Callable> := [];
    if hasParent { parent := CollectCallables(reg, p.value); }
    args := [];
    if hasParent && parent != [] {
      var up := BuildArgs(reg, p.value, concrete);
      args := [ParentArg(p.value, up)];
    }
    ghost var start := args;
    for i := 0 to |visible|
      invariant args + SlotArgs(reg, c, visible[i..], parent, concrete) ==
          start + SlotArgs(reg, c, visible, parent, concrete)
    {
      assert visible[i..][1..] == visible[i + 1..];
      if Virtual(visible[i]) { continue; }
      if HasSurface(visible[i], parent) && !Constructs(visible[i]) { continue; }
      var impl := SearchImpl(reg, concrete, visible[i]);
      args := args + [SlotArg(c, visible[i], impl)];
    }
    assert visible[|visible|..] == [];
  }

  // ------------------------------------------------------------------ they agree

  /** One argument per parameter, of the same kind, class and slot, and so on up the parents. */
  ghost predicate Fits(reg: Registry, c: ClassId, args: seq<Arg>, concrete: ClassId)
    requires Acyclic(reg) && c in reg.classes
    decreases |Ancestry(reg, c)|
  {
    var params := Params(reg, c);
    && |args| == |params|
    && forall i :: 0 <= i < |args| ==>
         match params[i]
         case ParentParam(p) =>
           && MetaParent(reg, c) == Some(p) && args[i].ParentArg? && args[i].cls == p
           && (AncestryStep(reg, c); Fits(reg, p, args[i].args, concrete))
         case SlotParam(k, x) => args[i] == SlotArg(k, x, FindImpl(reg, concrete, x))
  }

  lemma {:induction false} FiltersAgree(reg: Registry, c: ClassId, visible: seq<Callable>, parent: seq<Callable>,
                                        concrete: ClassId)
    ensures var params, args := SlotParams(c, Own(visible, parent)), SlotArgs(reg, c, visible, parent, concrete);
            && |params| == |args|
            && forall i :: 0 <= i < |params| ==>
                 && params[i].SlotParam?
                 && args[i] == SlotArg(params[i].cls, params[i].callable,
                                       FindImpl(reg, concrete, params[i].callable))
  {
    hide HasSurface, Virtual, Constructs, FindImpl;
    if visible != [] {
      FiltersAgree(reg, c, visible[1..], parent, concrete);
      var rest := Own(visible[1..], parent);
      assert ([visible[0]] + rest)[1..] == rest;
      assert [] + rest == rest;
    }
  }

  /** The built arguments match the declared parameters in length, order and slot, through all parents. */
  lemma {:induction false} BuiltArgsFit(reg: Registry, c: ClassId, concrete: ClassId)
    requires Acyclic(reg) && c in reg.classes && reg.classes[c].isReference
    ensures Fits(reg, c, Args(reg, c, concrete), concrete)
    decreases |Ancestry(reg, c)|
  {
    hide Visible, FindImpl, Acyclic, Ancestry;
    AncestryStep(reg, c);
    VisibleIsSound(reg, c);
    FiltersAgree(reg, c, Visible(reg, c), ParentVisible(reg, c), concrete);
    var p := MetaParent(reg, c);
    if p.Some? { BuiltArgsFit(reg, p.value, concrete); }
  }

  // ------------------------------------------------------------------ calls through a class value

  lemma {:induction false} OwnMembers(visible: seq<Callable>, parent: seq<Callable>, x: Callable)
    ensures x in Own(visible, parent) <==> x in visible && (!HasSurface(x, parent) || Virtual(x) || Constructs(x))
  {
    hide HasSurface, Virtual, Constructs;
    if visible != [] { OwnMembers(visible[1..], parent, x); }
  }

  lemma {:induction false} SlotArgsMembers(reg: Registry, c: ClassId, visible: seq<Callable>, parent: seq<Callable>,
                                           concrete: ClassId, x: Callable)
    requires x in visible && !Virtual(x) && (!HasSurface(x, parent) || Constructs(x))
    ensures SlotArg(c, x, FindImpl(reg, concrete, x)) in SlotArgs(reg, c, visible, parent, concrete)
  {
    hide HasSurface, Virtual, Constructs, FindImpl;
    if x != visible[0] { SlotArgsMembers(reg, c, visible[1..], parent, concrete, x); }
  }

  /** Level `at` of the value built for `c` holds `impl` in the slot of `x`, unless `x` is virtual there. */
  ghost predicate Serves(reg: Registry, at: ClassId, concrete: ClassId, x: Callable, impl: Option<Impl>)
    requires Acyclic(reg)
  {
    && at in reg.classes
    && x in Own(Visible(reg, at), ParentVisible(reg, at))
    && (!Virtual(x) ==> SlotArg(at, x, impl) in Args(reg, at, concrete))
  }

  /** The value of `at` is part of the value of `c`: `at` is `c` or above it with reference classes between. */
  ghost predicate PartOf(reg: Registry, at: ClassId, c: ClassId)
    requires Acyclic(reg)
    decreases |Ancestry(reg, c)|
  {
    && c in reg.classes
    && (at == c || (MetaParent(reg, c).Some? && (AncestryStep(reg, c); PartOf(reg, at, MetaParent(reg, c).value))))
  }

  /**
   * Whatever class the reference is typed as, a callable it offers is served by a level of the
   * value whose slot holds the first match walking up from the concrete class.
   */
  lemma {:induction false} CallReachesNearest(reg: Registry, c: ClassId, concrete: ClassId, x: Callable)
    requires Acyclic(reg) && c in reg.classes && x in Visible(reg, c)
    ensures exists at, y ::
              && PartOf(reg, at, c) && SameSurface(x, y)
              && Serves(reg, at, concrete, y, FindImpl(reg, concrete, x))
    decreases |Ancestry(reg, c)|
  {
    hide Visible, FindImpl, Acyclic, Ancestry, Virtual;
    AncestryStep(reg, c);
    var visible, parent := Visible(reg, c), ParentVisible(reg, c);
    if !HasSurface(x, parent) || Virtual(x) || Constructs(x) {
      OwnMembers(visible, parent, x);
      SurfaceReflexive(x);
      if !Virtual(x) { SlotArgsMembers(reg, c, visible, parent, concrete, x); }
      assert Serves(reg, c, concrete, x, FindImpl(reg, concrete, x));
    } else {
      var i :| 0 <= i < |parent| && SameSurface(x, parent[i]);
      var z, p := parent[i], MetaParent(reg, c).value;
      SurfaceDecidesImpl(reg, concrete, x, z);
      CallReachesNearest(reg, p, concrete, z);
      var at, y :| PartOf(reg, at, p) && SameSurface(z, y) && Serves(reg, at, concrete, y, FindImpl(reg, concrete, z));
      SurfaceTransitive(x, z, y);
      assert PartOf(reg, at, c);
    }
  }

  lemma SurfaceReflexive(x: Callable)
    ensures SameSurface(x, x)
  {
  }

  lemma SurfaceTransitive(x: Callable, y: Callable, z: Callable)
    requires SameSurface(x, y) && SameSurface(y, z)
    ensures SameSurface(x, z)
  {
  }

  lemma {:induction false} LookupComesFrom(reg: Registry, chain: seq<ClassId>, name: Name, sig: Sig)
    requires sig in Lookup(reg, chain, name)
    ensures exists i :: 0 <= i < |chain| && sig in MethodsOf(reg, chain[i], name)
  {
    if sig in Lookup(reg, chain[1..], name) {
      LookupComesFrom(reg, chain[1..], name, sig);
      var i :| 0 <= i < |chain[1..]| && sig in MethodsOf(reg, chain[1..][i], name);
      assert chain[i + 1] == chain[1..][i];
    }
  }

  /**
   * No slot is left aborting by accident: a declared callable offered by a class has an
   * implementation for every class at or below it.
   */
  lemma ImplExists(reg: Registry, c: ClassId, concrete: ClassId, x: Callable)
    requires Acyclic(reg) && c in reg.classes && x in Visible(reg, c)
    requires x.sig.Some? && x.sig.value.hasDecl
    requires c in Ancestry(reg, concrete)
    ensures FindImpl(reg, concrete, x).Some?
  {
    hide Visible, Lookup, Acyclic, MethodsOf;
    VisibleIsSound(reg, c);
    LookupComesFrom(reg, Ancestry(reg, c), x.name, x.sig.value);
    var i :| 0 <= i < |Ancestry(reg, c)| && x.sig.value in MethodsOf(reg, Ancestry(reg, c)[i], x.name);
    var below := AncestorSuffix(reg, concrete, c);
    hide Ancestry;
    var chain := Ancestry(reg, concrete);
    assert chain[|below| + i] == Ancestry(reg, c)[i];
    FindDeclaredMeans(reg, chain, x);
    assert Matches(x, x.sig.value);
  }

  lemma {:induction false} FindRootMeans(reg: Registry, chain: seq<ClassId>)
    ensures FindRoot(reg, chain).Some? <==>
        exists i :: 0 <= i < |chain| && chain[i] in reg.classes && reg.classes[chain[i]].isRoot
  {
    if chain != [] {
      FindRootMeans(reg, chain[1..]);
      assert forall i :: 0 < i < |chain| ==> chain[i] == chain[1..][i - 1];
      if FindRoot(reg, chain[1..]).Some? {
        var i :| 0 <= i < |chain[1..]| && chain[1..][i] in reg.classes && reg.classes[chain[1..][i]].isRoot;
        assert chain[i + 1] == chain[1..][i];
      }
    }
  }

  /** The inherited constructor is found for every class that descends from the root. */
  lemma ImplicitCreateExists(reg: Registry, concrete: ClassId, x: Callable)
    requires ImplicitCreate(x)
    requires exists i :: 0 <= i < |Ancestry(reg, concrete)| && Ancestry(reg, concrete)[i] in reg.classes
                      && reg.classes[Ancestry(reg, concrete)[i]].isRoot
    ensures FindImpl(reg, concrete, x).Some?
  {
    FindRootMeans(reg, Ancestry(reg, concrete));
  }
}
