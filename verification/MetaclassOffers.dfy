/** What a metaclass offers and what its constructor takes, read off the registry entry by entry. */
module MetaclassOffers {
  import opened Wrappers
  import opened Metaclasses
  import opened MetaclassTables

  // ------------------------------------------------------------------ lookup

  /** Class `k` of the chain is nearer than `i` and declares `name` without any overload directive. */
  predicate Hides(reg: Registry, chain: seq<ClassId>, name: Name, k: nat, i: nat) {
    && k < i < |chain| && chain[k] in reg.classes && name in reg.classes[chain[k]].methods
    && forall s :: s in reg.classes[chain[k]].methods[name] ==> !s.overload
  }

  predicate DeclaresSig(reg: Registry, c: ClassId, name: Name, sig: Sig) {
    c in reg.classes && name in reg.classes[c].methods && sig in reg.classes[c].methods[name]
  }

  /** A method is found exactly if some class of the chain declares it and no nearer class hides its name. */
  lemma FoundMethods(reg: Registry, chain: seq<ClassId>, name: Name, sig: Sig)
    ensures sig in Lookup(reg, chain, name) <==>
              exists i: nat :: i < |chain| && DeclaresSig(reg, chain[i], name, sig)
                               && forall k: nat :: !Hides(reg, chain, name, k, i)
  {
    LookupMeans(reg, chain, name, sig);
    forall i: nat | i < |chain|
      ensures sig in MethodsOf(reg, chain[i], name) <==> DeclaresSig(reg, chain[i], name, sig)
      ensures Reaches(reg, chain, name, i) <==> forall k: nat :: !Hides(reg, chain, name, k, i)
    {
      ReachesUnhidden(reg, chain, name, i);
    }
    hide Lookup, Reaches, MethodsOf, Hides, DeclaresSig;
  }

  lemma ReachesUnhidden(reg: Registry, chain: seq<ClassId>, name: Name, i: nat)
    requires i < |chain|
    ensures Reaches(reg, chain, name, i) <==> forall k: nat :: !Hides(reg, chain, name, k, i)
  {
    forall k: nat | k < i
      ensures Hides(reg, chain, name, k, i) <==>
                Declares(reg, chain[k], name) && !KeepsInherited(MethodsOf(reg, chain[k], name))
    {
    }
    hide Declares, KeepsInherited, MethodsOf, Hides;
    if k: nat :| Hides(reg, chain, name, k, i) { HidesNearer(reg, chain, name, k, i); }
  }

  lemma HidesNearer(reg: Registry, chain: seq<ClassId>, name: Name, k: nat, i: nat)
    requires Hides(reg, chain, name, k, i)
    ensures k < i
  {
  }

  // ------------------------------------------------------------------ the entries

  /** Constructors and class methods have entries, class constructors and class destructors do not. */
  predicate HasEntry(sig: Sig) {
    match sig.kind
    case OtherMember => false
    case _ => sig.hasDecl ==> !sig.lifecycle
  }

  /** An entry under `name` for a method of that kind and those parameters. */
  predicate EntryFor(x: Callable, name: Name, sig: Sig) {
    && x.name == name && x.sig.Some? && x.sig.value.kind == sig.kind
    && x.sig.value.hasDecl == sig.hasDecl && (sig.hasDecl ==> x.sig.value.params == sig.params)
  }

  /** Every constructor and class method that lookup finds has an entry of its name, kind and parameters. */
  lemma EntryOfEach(reg: Registry, c: ClassId, name: Name, sig: Sig)
    requires c in reg.classes && name !in reg.builtin && sig in Lookup(reg, Ancestry(reg, c), name)
    requires sig.kind != OtherMember && (sig.hasDecl ==> !sig.lifecycle)
    ensures exists x :: x in Visible(reg, c) && EntryFor(x, name, sig)
  {
    VisibleIsComplete(reg, c, name, sig);
    var cs := Visible(reg, c);
    hide Visible;
    var i :| 0 <= i < |cs| && SameSurface(cs[i], Callable(name, Plain(name), Some(sig)));
    assert cs[i] in cs;
  }

  lemma EachEntry(reg: Registry, c: ClassId, x: Callable)
    requires c in reg.classes && x in Visible(reg, c)
    ensures match x.sig
            case Some(sig) =>
              && x.name !in reg.builtin && sig in Lookup(reg, Ancestry(reg, c), x.name)
              && (sig.kind == Constructor || sig.kind == ClassMethod) && !(sig.hasDecl && sig.lifecycle)
            case None => x.name == reg.create && reg.classes[c].isReference
  {
    VisibleIsSound(reg, c);
    if x.sig.Some? {
      LookupNamed(reg, c, x);
    }
  }

  lemma {:induction false} NamesAlongPlain(reg: Registry, chain: seq<ClassId>)
    ensures NamesAlong(reg, chain) !! reg.builtin
  {
    if chain != [] { NamesAlongPlain(reg, chain[1..]); }
  }

  lemma {:induction false} AddSigsNames(name: Name, sigs: seq<Sig>, cs: seq<Callable>)
    ensures forall x :: x in AddSigs(name, sigs, cs) ==> x in cs || x.name == name
    decreases sigs
  {
    hide Selected, SameSurface;
    if sigs != [] { AddSigsNames(name, sigs[1..], AddSig(name, sigs[0], cs)); }
  }

  lemma {:induction false} GatherNames(reg: Registry, chain: seq<ClassId>, names: seq<Name>, cs: seq<Callable>)
    ensures forall x :: x in Gather(reg, chain, names, cs) ==> x in cs || x.name in names
    decreases names
  {
    hide Lookup, AddSigs;
    if names != [] {
      var sigs := Lookup(reg, chain, names[0]);
      AddSigsNames(names[0], sigs, cs);
      GatherNames(reg, chain, names[1..], AddSigs(names[0], sigs, cs));
    }
  }

  lemma LookupNamed(reg: Registry, c: ClassId, x: Callable)
    requires c in reg.classes && x in Visible(reg, c) && x.sig.Some?
    ensures x.name !in reg.builtin
  {
    hide Lookup, Gather, Ancestry, NamesAlong, SlotFor;
    var chain := Ancestry(reg, c);
    var names := Sorted(NamesAlong(reg, chain));
    var raw := Gather(reg, chain, names, []);
    GatherNames(reg, chain, names, []);
    NamesAlongPlain(reg, chain);
    var i :| 0 <= i < |Visible(reg, c)| && Visible(reg, c)[i] == x;
    assert raw[i] in raw;
  }

  /** No two entries agree in name, kind and parameters, and the inherited constructor has one entry at most. */
  lemma EntriesDiffer(reg: Registry, c: ClassId, i: nat, j: nat)
    requires c in reg.classes && i < j < |Visible(reg, c)|
    ensures var x, y := Visible(reg, c)[i], Visible(reg, c)[j];
            && (x.sig.Some? ==> !EntryFor(y, x.name, x.sig.value))
            && x.sig.Some?
            && x.slot != y.slot
            && (y.sig.None? ==> j == |Visible(reg, c)| - 1 && x.name != reg.create)
  {
    VisibleIsSound(reg, c);
    var cs := Visible(reg, c);
    assert !SameSurface(cs[i], cs[j]);
    hide Gathered;
    hide SameSurface;
    EntriesDeclared(reg, c, i);
    EntriesDeclared(reg, c, j);
    EntryForIsSurface(cs[i], cs[j]);
  }

  lemma EntryForIsSurface(x: Callable, y: Callable)
    ensures x.sig.Some? && EntryFor(y, x.name, x.sig.value) ==> SameSurface(x, y)
  {
  }

  lemma EntriesDeclared(reg: Registry, c: ClassId, i: nat)
    requires c in reg.classes && i < |Visible(reg, c)|
    ensures var cs := Visible(reg, c);
            cs[i].sig.None? ==> i == |cs| - 1 && forall j :: 0 <= j < i ==> cs[j].name != reg.create
  {
    hide Lookup, Gather, Ancestry, NamesAlong, SlotFor;
    var chain := Ancestry(reg, c);
    var names := Sorted(NamesAlong(reg, chain));
    var raw := Gather(reg, chain, names, []);
    GatherKeeps(reg, chain, names, []);
    if i < |raw| { assert raw[i] in raw; }
    var cs := Visible(reg, c);
    if i == |raw| {
      forall j | 0 <= j < i ensures cs[j].name != reg.create {
        assert cs[j] == Numbered(raw)[j];
      }
    }
  }

  // ------------------------------------------------------------------ slot names

  /** The entries before position `n` that have `name`. */
  function Earlier(cs: seq<Callable>, n: nat, name: Name): set<nat> {
    set j: nat | j < n && j < |cs| && cs[j].name == name
  }

  lemma {:induction false} CountIsEarlier(cs: seq<Callable>, n: nat, name: Name)
    requires n <= |cs|
    ensures CountName(cs[..n], name) == |Earlier(cs, n, name)|
  {
    if n > 0 {
      CountIsEarlier(cs, n - 1, name);
      assert cs[..n][..n - 1] == cs[..n - 1];
      assert Earlier(cs, n, name) ==
             if cs[n - 1].name == name then Earlier(cs, n - 1, name) + {n - 1} else Earlier(cs, n - 1, name);
    }
  }

  /** A name of one entry is its slot; entries that share a name get numbered slots, counted from zero. */
  lemma SlotsNamed(reg: Registry, c: ClassId, i: nat)
    requires c in reg.classes && i < |Visible(reg, c)|
    ensures var cs := Visible(reg, c);
            cs[i].slot ==
            if forall j: nat :: j < |cs| && cs[j].name == cs[i].name ==> j == i then Plain(cs[i].name)
            else Indexed(cs[i].name, |Earlier(cs, i, cs[i].name)|)
  {
    hide Lookup, Gather, Ancestry, NamesAlong, SlotFor;
    var chain := Ancestry(reg, c);
    var raw := Gather(reg, chain, Sorted(NamesAlong(reg, chain)), []);
    var cs := Visible(reg, c);
    GatherKeeps(reg, chain, Sorted(NamesAlong(reg, chain)), []);
    hide Gathered;
    forall j | 0 <= j < |raw| ensures Numbered(raw)[j].name == raw[j].name == cs[j].name {
    }
    if i < |raw| {
      var name := raw[i].name;
      SlotInSet(raw, i);
      assert Earlier(raw, i, name) == Earlier(cs, i, name);
    }
  }

  lemma SlotInSet(cs: seq<Callable>, i: nat)
    requires i < |cs|
    ensures SlotFor(cs, i) ==
            if forall j: nat :: j < |cs| && cs[j].name == cs[i].name ==> j == i then Plain(cs[i].name)
            else Indexed(cs[i].name, |Earlier(cs, i, cs[i].name)|)
  {
    var name := cs[i].name;
    CountIsEarlier(cs, i, name);
    CountIsEarlier(cs, |cs|, name);
    assert cs[..|cs|] == cs;
    hide CountName;
    var all := Earlier(cs, |cs|, name);
    assert i in all;
    if j: nat :| j < |cs| && cs[j].name == name && j != i {
      assert {i, j} <= all;
      Within({i, j}, all);
    } else {
      assert all == {i};
    }
  }

  lemma Within(a: set<nat>, b: set<nat>)
    requires a <= b
    ensures |a| <= |b|
  {
    assert b == a + (b - a);
  }

  lemma {:induction false} AddSigsAfter(name: Name, sigs: seq<Sig>, cs: seq<Callable>)
    ensures var r := AddSigs(name, sigs, cs);
            && |cs| <= |r| && r[..|cs|] == cs
            && forall k :: |cs| <= k < |r| ==> r[k].name == name
    decreases sigs
  {
    hide Selected, SameSurface;
    if sigs != [] { AddSigsAfter(name, sigs[1..], AddSig(name, sigs[0], cs)); }
  }

  predicate InNameOrder(cs: seq<Callable>) {
    forall i, j :: 0 <= i < j < |cs| ==> cs[i].name <= cs[j].name
  }

  lemma {:induction false} GatherInOrder(reg: Registry, chain: seq<ClassId>, names: seq<Name>, cs: seq<Callable>)
    requires forall i, j :: 0 <= i < j < |names| ==> names[i] < names[j]
    requires InNameOrder(cs) && forall x, n :: x in cs && n in names ==> x.name <= n
    ensures InNameOrder(Gather(reg, chain, names, cs))
    decreases names
  {
    hide Lookup, AddSigs;
    if names != [] {
      var sigs := Lookup(reg, chain, names[0]);
      var next := AddSigs(names[0], sigs, cs);
      AddSigsAfter(names[0], sigs, cs);
      assert names[0] in names;
      assert forall i :: 0 <= i < |cs| ==> next[i] == cs[i] && cs[i] in cs;
      GatherInOrder(reg, chain, names[1..], next);
    }
  }

  /** The declared entries come in the order of their names. */
  lemma EntriesInOrder(reg: Registry, c: ClassId, i: nat, j: nat)
    requires c in reg.classes && i < j < |Visible(reg, c)| && Visible(reg, c)[j].sig.Some?
    ensures Visible(reg, c)[i].name <= Visible(reg, c)[j].name
  {
    hide Lookup, Gather, Ancestry, NamesAlong, SlotFor;
    var chain := Ancestry(reg, c);
    var names := Sorted(NamesAlong(reg, chain));
    GatherInOrder(reg, chain, names, []);
    var raw := Gather(reg, chain, names, []);
    assert Visible(reg, c)[i].name == Numbered(raw)[i].name;
  }

  // ------------------------------------------------------------------ implementations

  /** A declared method can serve an entry: its kind and parameters, or a bare constructor for the inherited one. */
  predicate Answers(x: Callable, s: Sig) {
    s.hasDecl
    && match x.sig
       case None => s.kind == Constructor && s.paramCount == 0
       case Some(t) => t.hasDecl && t.kind == s.kind && t.params == s.params
  }

  /** No class of the chain nearer than `at` declares a method that serves the entry. */
  ghost predicate NoneNearer(reg: Registry, chain: seq<ClassId>, x: Callable, at: nat) {
    forall k: nat, s :: k < at && k < |chain| && DeclaresSig(reg, chain[k], x.name, s) ==> !Answers(x, s)
  }

  /** The search takes a serving method of the nearest class that declares one; only the inherited constructor
      falls back on the root's, if the class descends from it. */
  lemma ImplIsNearest(reg: Registry, concrete: ClassId, x: Callable)
    ensures var chain := Ancestry(reg, concrete);
            match FindImpl(reg, concrete, x)
            case Some(Method(owner, s)) =>
              exists at: nat :: at < |chain| && chain[at] == owner && DeclaresSig(reg, owner, x.name, s)
                                && Answers(x, s) && NoneNearer(reg, chain, x, at)
            case Some(RootCreate(owner)) =>
              && x.sig.None? && NoneNearer(reg, chain, x, |chain|)
              && owner in chain && owner in reg.classes && reg.classes[owner].isRoot
            case None =>
              && NoneNearer(reg, chain, x, |chain|)
              && (x.sig.None? ==> forall k :: k in chain && k in reg.classes ==> !reg.classes[k].isRoot)
  {
    var chain := Ancestry(reg, concrete);
    FindDeclaredMeans(reg, chain, x);
    RootIsAncestor(reg, chain);
    hide Ancestry, FindDeclared, FindRoot;
    var d := FindDeclared(reg, chain, x);
    if d.Some? {
      var at: nat :| NearestMatch(reg, chain, x, at, d.value.owner, d.value.sig);
      assert NoneNearer(reg, chain, x, at);
      assert DeclaresSig(reg, chain[at], x.name, d.value.sig) && Answers(x, d.value.sig);
    } else {
      forall k: nat, s | k < |chain| && DeclaresSig(reg, chain[k], x.name, s) ensures !Answers(x, s) {
        assert s in MethodsOf(reg, chain[k], x.name);
      }
    }
  }

  lemma {:induction false} RootIsAncestor(reg: Registry, chain: seq<ClassId>)
    ensures match FindRoot(reg, chain)
            case Some(root) =>
              root.RootCreate? && root.owner in chain && root.owner in reg.classes && reg.classes[root.owner].isRoot
            case None => forall k :: k in chain && k in reg.classes ==> !reg.classes[k].isRoot
  {
    if chain != [] { RootIsAncestor(reg, chain[1..]); }
  }

  // ------------------------------------------------------------------ parameters and arguments

  /** Some entry of the parent's metaclass has the name, kind and parameters of `x`. */
  ghost predicate ParentHas(reg: Registry, c: ClassId, x: Callable)
    requires c in reg.classes
  {
    var p := reg.classes[c].parent;
    && p.Some? && p.value in reg.classes && reg.classes[p.value].isReference
    && exists y :: y in Visible(reg, p.value) && y.name == x.name
                   && match x.sig
                      case None => y.sig.None?
                      case Some(sig) => EntryFor(y, x.name, sig)
  }

  /** A class method declared virtual is reached through a virtual function and takes no slot. */
  predicate ThroughVirtual(x: Callable) {
    match x.sig
    case None => false
    case Some(sig) => sig.hasDecl && sig.isVirtual && sig.kind == ClassMethod
  }

  /**
   * An entry takes a parameter, and is given an argument, exactly if it is not a virtual class method
   * and the parent's metaclass has no such entry, constructors excepted: they always take one.
   */
  lemma TakesSlotIff(reg: Registry, c: ClassId, concrete: ClassId, x: Callable)
    requires Acyclic(reg) && c in reg.classes && x in Visible(reg, c)
    ensures var takes := !ThroughVirtual(x)
                         && (x.sig.None? || x.sig.value.kind == Constructor || !ParentHas(reg, c, x));
            && (takes <==> SlotParam(c, x) in Params(reg, c))
            && (takes <==> exists impl :: SlotArg(c, x, impl) in Args(reg, c, concrete))
  {
    var visible, parent := Visible(reg, c), ParentVisible(reg, c);
    HasSurfaceMeans(reg, c, x);
    AncestryStep(reg, c);
    ParamIff(c, visible, parent, x);
    ArgIff(reg, c, visible, parent, concrete, x);
    hide Visible, HasSurface, Own, SlotParams, SlotArgs, Acyclic, ParentHas;
    hide Ancestry, FindImpl;
    var up := if MetaParent(reg, c).Some? && parent != [] then
                [ParentArg(MetaParent(reg, c).value, Args(reg, MetaParent(reg, c).value, concrete))] else [];
    assert Args(reg, c, concrete) == up + SlotArgs(reg, c, visible, parent, concrete);
    forall impl
      ensures SlotArg(c, x, impl) in Args(reg, c, concrete) <==>
                SlotArg(c, x, impl) in SlotArgs(reg, c, visible, parent, concrete)
    {
    }
  }

  lemma HasSurfaceMeans(reg: Registry, c: ClassId, x: Callable)
    requires c in reg.classes
    ensures HasSurface(x, ParentVisible(reg, c)) <==> ParentHas(reg, c, x)
  {
    hide Visible;
    var parent := ParentVisible(reg, c);
    if y :| y in parent && y.name == x.name && match x.sig
                                               case None => y.sig.None?
                                               case Some(sig) => EntryFor(y, x.name, sig) {
      var i :| 0 <= i < |parent| && parent[i] == y;
      assert SameSurface(x, parent[i]);
    }
    if i :| 0 <= i < |parent| && SameSurface(x, parent[i]) {
      assert parent[i] in parent;
    }
  }

  lemma {:induction false} ParamIff(c: ClassId, visible: seq<Callable>, parent: seq<Callable>, x: Callable)
    requires x in visible
    ensures SlotParam(c, x) in SlotParams(c, Own(visible, parent)) <==>
              !ThroughVirtual(x) && (!HasSurface(x, parent) || x.sig.None? || x.sig.value.kind == Constructor)
  {
    OwnMembers(visible, parent, x);
    ParamsMembers(c, Own(visible, parent), x);
    hide HasSurface, Own, SlotParams;
  }

  lemma {:induction false} ParamsMembers(c: ClassId, own: seq<Callable>, x: Callable)
    ensures SlotParam(c, x) in SlotParams(c, own) <==> x in own && !ThroughVirtual(x)
  {
    if own != [] { ParamsMembers(c, own[1..], x); }
  }

  lemma {:induction false} ArgIff(reg: Registry, c: ClassId, visible: seq<Callable>, parent: seq<Callable>,
                                  concrete: ClassId, x: Callable)
    ensures (exists impl :: SlotArg(c, x, impl) in SlotArgs(reg, c, visible, parent, concrete)) <==>
              && x in visible && !ThroughVirtual(x)
              && (!HasSurface(x, parent) || x.sig.None? || x.sig.value.kind == Constructor)
  {
    hide HasSurface, FindImpl;
    if visible != [] {
      ArgIff(reg, c, visible[1..], parent, concrete, x);
      var y := visible[0];
      var rest := SlotArgs(reg, c, visible[1..], parent, concrete);
      var here := SlotArgs(reg, c, visible, parent, concrete);
      if impl :| SlotArg(c, x, impl) in rest { assert SlotArg(c, x, impl) in here; }
      if x == y && x !in visible[1..] && !ThroughVirtual(x)
         && (!HasSurface(x, parent) || x.sig.None? || x.sig.value.kind == Constructor) {
        assert SlotArg(c, x, FindImpl(reg, concrete, x)) in here;
      }
    }
  }

  /** The parent's metaclass comes first, exactly where both have entries; without entries nothing is declared. */
  lemma ParentComesFirst(reg: Registry, c: ClassId, parent: ClassId)
    requires c in reg.classes
    ensures var params, p := Params(reg, c), reg.classes[c].parent;
            && (Visible(reg, c) == [] ==> params == [])
            && (params != [] && params[0] == ParentParam(parent) <==>
                  Visible(reg, c) != [] && p == Some(parent) && parent in reg.classes
                  && reg.classes[parent].isReference && Visible(reg, parent) != [])
            && forall i :: 0 < i < |params| ==> params[i].SlotParam? && params[i].cls == c
  {
    hide Visible, Own;
    SlotsOnly(c, Own(Visible(reg, c), ParentVisible(reg, c)));
  }

  lemma {:induction false} SlotsOnly(c: ClassId, own: seq<Callable>)
    ensures forall i :: 0 <= i < |SlotParams(c, own)| ==>
              SlotParams(c, own)[i].SlotParam? && SlotParams(c, own)[i].cls == c
  {
    hide Virtual;
    if own != [] { SlotsOnly(c, own[1..]); }
  }
}
