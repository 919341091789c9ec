/** Class registry as the metaclass emitter reads it: ancestry, method lookup with hiding, callables. */
module Metaclasses {
  import opened Wrappers

  type ClassId = nat

  /** A name, as its rank in alphabetical order. */
  type Name = nat

  datatype Kind = Constructor | ClassMethod | OtherMember

  /** A method signature; `params` identifies the parameter list up to matching. */
  datatype Sig = Sig(hasDecl: bool, kind: Kind, params: nat, paramCount: nat, isVirtual: bool, lifecycle: bool,
                     overload: bool)

  datatype ClassInfo = ClassInfo(parent: Option<ClassId>, isReference: bool, isRoot: bool, methods: map<Name, seq<Sig>>)

  datatype Registry = Registry(classes: map<ClassId, ClassInfo>, builtin: set<Name>, create: Name)

  // ------------------------------------------------------------------ ancestry

  /** The class and its ancestors, nearest first, stopping at the first one met before. */
  function Chain(reg: Registry, c: Option<ClassId>, seen: set<ClassId>): seq<ClassId>
    decreases reg.classes.Keys - seen
  {
    if c.None? || c.value !in reg.classes || c.value in seen then []
    else [c.value] + Chain(reg, reg.classes[c.value].parent, seen + {c.value})
  }

  function Ancestry(reg: Registry, c: ClassId): seq<ClassId> {
    Chain(reg, Some(c), {})
  }

  /** No class is a proper ancestor of itself. */
  predicate Acyclic(reg: Registry) {
    forall c :: c in reg.classes ==> c !in Chain(reg, reg.classes[c].parent, {})
  }

  lemma {:induction false} ChainIgnores(reg: Registry, c: Option<ClassId>, seen: set<ClassId>, x: ClassId)
    requires x !in Chain(reg, c, seen)
    ensures Chain(reg, c, seen + {x}) == Chain(reg, c, seen)
    decreases reg.classes.Keys - seen
  {
    if c.Some? && c.value in reg.classes && c.value !in seen {
      ChainIgnores(reg, reg.classes[c.value].parent, seen + {c.value}, x);
      assert seen + {c.value} + {x} == seen + {x} + {c.value};
    }
  }

  lemma AncestryStep(reg: Registry, c: ClassId)
    requires Acyclic(reg) && c in reg.classes
    ensures var p := reg.classes[c].parent;
            Ancestry(reg, c) == [c] + if p.Some? then Ancestry(reg, p.value) else []
  {
    ChainIgnores(reg, reg.classes[c].parent, {}, c);
    assert {} + {c} == {c};
  }

  lemma {:induction false} ChainInRegistry(reg: Registry, c: Option<ClassId>, seen: set<ClassId>)
    ensures forall x :: x in Chain(reg, c, seen) ==> x in reg.classes
    decreases reg.classes.Keys - seen
  {
    if c.Some? && c.value in reg.classes && c.value !in seen {
      ChainInRegistry(reg, reg.classes[c.value].parent, seen + {c.value});
    }
  }

  /** An ancestor's own ancestry ends the descendant's. */
  lemma {:induction false} AncestorSuffix(reg: Registry, c: ClassId, t: ClassId) returns (below: seq<ClassId>)
    requires Acyclic(reg) && t in Ancestry(reg, c)
    ensures Ancestry(reg, c) == below + Ancestry(reg, t)
    decreases |Ancestry(reg, c)|
  {
    if c == t {
      below := [];
    } else {
      AncestryStep(reg, c);
      var rest := AncestorSuffix(reg, reg.classes[c].parent.value, t);
      below := [c] + rest;
    }
  }

  // ------------------------------------------------------------------ lookup

  function MethodsOf(reg: Registry, c: ClassId, name: Name): seq<Sig> {
    if c in reg.classes && name in reg.classes[c].methods then reg.classes[c].methods[name] else []
  }

  predicate Declares(reg: Registry, c: ClassId, name: Name) {
    c in reg.classes && name in reg.classes[c].methods
  }

  predicate KeepsInherited(sigs: seq<Sig>) {
    exists i :: 0 <= i < |sigs| && sigs[i].overload
  }

  /** The first class that declares the name hides the rest, unless its overload set keeps them. */
  function Lookup(reg: Registry, chain: seq<ClassId>, name: Name): seq<Sig> {
    if chain == [] then []
    else if !Declares(reg, chain[0], name) then Lookup(reg, chain[1..], name)
    else
      var sigs := MethodsOf(reg, chain[0], name);
      sigs + if KeepsInherited(sigs) then Lookup(reg, chain[1..], name) else []
  }

  /**
   * A method is found exactly if some class of the chain has it and every nearer class that declares the
   * name keeps inherited ones.
   */
  lemma {:induction false} LookupMeans(reg: Registry, chain: seq<ClassId>, name: Name, sig: Sig)
    ensures sig in Lookup(reg, chain, name) <==>
        exists i :: Reaches(reg, chain, name, i) && sig in MethodsOf(reg, chain[i], name)
  {
    if chain != [] {
      var tail := chain[1..];
      LookupMeans(reg, tail, name, sig);
      var open := Declares(reg, chain[0], name) ==> KeepsInherited(MethodsOf(reg, chain[0], name));
      if open && sig in Lookup(reg, tail, name) {
        var i :| Reaches(reg, tail, name, i) && sig in MethodsOf(reg, tail[i], name);
        ReachesTail(reg, chain, name, i + 1);
        assert chain[i + 1] == tail[i];
      }
      if sig in MethodsOf(reg, chain[0], name) { assert Reaches(reg, chain, name, 0); }
      forall i | Reaches(reg, chain, name, i) && sig in MethodsOf(reg, chain[i], name)
        ensures sig in Lookup(reg, chain, name)
      {
        if i > 0 {
          ReachesTail(reg, chain, name, i);
          assert tail[i - 1] == chain[i];
        }
      }
    }
  }

  /** No class nearer than position `i` hides `name`. */
  predicate Reaches(reg: Registry, chain: seq<ClassId>, name: Name, i: int) {
    && 0 <= i < |chain|
    && forall j :: 0 <= j < i && Declares(reg, chain[j], name) ==> KeepsInherited(MethodsOf(reg, chain[j], name))
  }

  lemma ReachesTail(reg: Registry, chain: seq<ClassId>, name: Name, i: int)
    requires 0 < i < |chain|
    ensures Reaches(reg, chain, name, i) <==>
              && (Declares(reg, chain[0], name) ==> KeepsInherited(MethodsOf(reg, chain[0], name)))
              && Reaches(reg, chain[1..], name, i - 1)
  {
    hide KeepsInherited, Declares, MethodsOf;
    assert forall j :: 0 < j < i ==> chain[j] == chain[1..][j - 1];
    assert forall j :: 0 <= j < i - 1 ==> chain[1..][j] == chain[j + 1];
  }

  // ------------------------------------------------------------------ callables

  datatype SlotName = Plain(name: Name) | Indexed(name: Name, index: nat)

  /** An entry of a metaclass: a declared signature, or the constructor every class inherits. */
  datatype Callable = Callable(name: Name, slot: SlotName, sig: Option<Sig>)

  predicate ImplicitCreate(c: Callable) {
    c.sig.None?
  }

  predicate SigsMatch(a: Sig, b: Sig) {
    if !a.hasDecl || !b.hasDecl then a.hasDecl == b.hasDecl else a.params == b.params
  }

  predicate SameSurface(a: Callable, b: Callable) {
    && a.name == b.name
    && if ImplicitCreate(a) || ImplicitCreate(b) then ImplicitCreate(a) && ImplicitCreate(b)
       else a.sig.value.kind == b.sig.value.kind && SigsMatch(a.sig.value, b.sig.value)
  }

  predicate HasSurface(c: Callable, cs: seq<Callable>) {
    exists i :: 0 <= i < |cs| && SameSurface(c, cs[i])
  }

  predicate Virtual(c: Callable) {
    && !ImplicitCreate(c)
    && c.sig.value.hasDecl
    && c.sig.value.kind == ClassMethod
    && c.sig.value.isVirtual
  }

  predicate Constructs(c: Callable) {
    ImplicitCreate(c) || c.sig.value.kind == Constructor
  }

  predicate Selected(sig: Sig) {
    !(sig.hasDecl && sig.lifecycle) && (sig.kind == Constructor || sig.kind == ClassMethod)
  }

  function AddSig(name: Name, sig: Sig, cs: seq<Callable>): seq<Callable> {
    var c := Callable(name, Plain(name), Some(sig));
    if Selected(sig) && !(exists i :: 0 <= i < |cs| && SameSurface(cs[i], c)) then cs + [c] else cs
  }

  function AddSigs(name: Name, sigs: seq<Sig>, cs: seq<Callable>): seq<Callable> {
    if sigs == [] then cs else AddSigs(name, sigs[1..], AddSig(name, sigs[0], cs))
  }

  function Gather(reg: Registry, chain: seq<ClassId>, names: seq<Name>, cs: seq<Callable>): seq<Callable> {
    if names == [] then cs
    else Gather(reg, chain, names[1..], AddSigs(names[0], Lookup(reg, chain, names[0]), cs))
  }

  function CountName(cs: seq<Callable>, name: Name): nat {
    if cs == [] then 0
    else CountName(cs[..|cs| - 1], name) + if cs[|cs| - 1].name == name then 1 else 0
  }

  /** An overloaded name gets one indexed slot per callable, in order. */
  function SlotFor(cs: seq<Callable>, i: nat): SlotName
    requires i < |cs|
  {
    if CountName(cs, cs[i].name) > 1 then Indexed(cs[i].name, CountName(cs[..i], cs[i].name)) else Plain(cs[i].name)
  }

  function Numbered(cs: seq<Callable>): seq<Callable> {
    seq(|cs|, i requires 0 <= i < |cs| => cs[i].(slot := SlotFor(cs, i)))
  }

  /** The names declared along a chain, except those the descriptor has slots for. */
  function NamesAlong(reg: Registry, chain: seq<ClassId>): set<Name> {
    if chain == [] then {}
    else
      (if chain[0] in reg.classes then reg.classes[chain[0]].methods.Keys - reg.builtin else {})
      + NamesAlong(reg, chain[1..])
  }

  lemma GreatestExists(s: set<nat>) returns (m: nat)
    requires s != {}
    ensures m in s && forall x :: x in s ==> x <= m
  {
    m :| m in s;
    var rest := s - {m};
    while rest != {}
      invariant m in s && forall x :: x in s && x !in rest ==> x <= m
      invariant rest <= s
    {
      var y :| y in rest;
      if y > m { m := y; }
      rest := rest - {y};
    }
  }

  /** The members of a set in increasing order. */
  ghost function Sorted(s: set<nat>): (r: seq<nat>)
    ensures forall x :: x in r <==> x in s
    ensures forall i, j :: 0 <= i < j < |r| ==> r[i] < r[j]
  {
    if s == {} then []
    else
      assert exists m :: m in s && forall x :: x in s ==> x <= m by { var m := GreatestExists(s); }
      var m :| m in s && forall x :: x in s ==> x <= m;
      Sorted(s - {m}) + [m]
  }

  lemma {:induction false} IncreasingUnique(a: seq<nat>, b: seq<nat>)
    requires forall x :: x in a <==> x in b
    requires forall i, j :: 0 <= i < j < |a| ==> a[i] < a[j]
    requires forall i, j :: 0 <= i < j < |b| ==> b[i] < b[j]
    ensures a == b
  {
    assert a != [] ==> a[0] in a;
    assert b != [] ==> b[0] in b;
    if a != [] {
      SameGreatest(a, b);
      InitMembers(a);
      InitMembers(b);
      var a', b' := a[..|a| - 1], b[..|b| - 1];
      forall x: nat ensures x in a' <==> x in b' {
        assert x in a' <==> x in a && x != a[|a| - 1];
        assert x in b' <==> x in b && x != b[|b| - 1];
      }
      IncreasingUnique(a', b');
      assert a == a[..|a| - 1] + [a[|a| - 1]] && b == b[..|b| - 1] + [b[|b| - 1]];
    }
  }

  lemma SameGreatest(a: seq<nat>, b: seq<nat>)
    requires a != [] && b != [] && forall x :: x in a <==> x in b
    requires forall i, j :: 0 <= i < j < |a| ==> a[i] < a[j]
    requires forall i, j :: 0 <= i < j < |b| ==> b[i] < b[j]
    ensures a[|a| - 1] == b[|b| - 1]
  {
    var x, y := a[|a| - 1], b[|b| - 1];
    assert x in b && y in a;
    var i :| 0 <= i < |b| && b[i] == x;
    var j :| 0 <= j < |a| && a[j] == y;
  }

  lemma InitMembers(a: seq<nat>)
    requires a != [] && forall i, j :: 0 <= i < j < |a| ==> a[i] < a[j]
    ensures forall z :: z in a[..|a| - 1] <==> z in a && z != a[|a| - 1]
  {
    var last := |a| - 1;
    forall z | z in a && z != a[last] ensures z in a[..last] {
      var i :| 0 <= i < |a| && a[i] == z;
      assert a[..last][i] == z;
    }
  }

  predicate HasName(cs: seq<Callable>, name: Name) {
    exists i :: 0 <= i < |cs| && cs[i].name == name
  }

  /** The callables a class value of `c` offers. */
  ghost function Visible(reg: Registry, c: ClassId): seq<Callable>
    requires c in reg.classes
  {
    var chain := Ancestry(reg, c);
    var cs := Numbered(Gather(reg, chain, Sorted(NamesAlong(reg, chain)), []));
    if reg.classes[c].isReference && !HasName(cs, reg.create)
    then cs + [Callable(reg.create, Plain(reg.create), None)] else cs
  }

  // ------------------------------------------------------------------ collection as the source runs it

  method WalkUp(reg: Registry, c: ClassId) returns (chain: seq<ClassId>)
    ensures chain == Ancestry(reg, c)
  {
    chain := [];
    var seen: set<ClassId> := {};
    var ci := Some(c);
    while ci.Some? && ci.value in reg.classes
      invariant chain + Chain(reg, ci, seen) == Ancestry(reg, c)
      decreases reg.classes.Keys - seen
    {
      if ci.value in seen { break; }
      seen := seen + {ci.value};
      chain := chain + [ci.value];
      ci := reg.classes[ci.value].parent;
    }
  }

  /** Insert into an increasing sequence, unless present already. */
  method Insert(names: seq<Name>, name: Name) returns (r: seq<Name>)
    requires forall i, j :: 0 <= i < j < |names| ==> names[i] < names[j]
    ensures forall i, j :: 0 <= i < j < |r| ==> r[i] < r[j]
    ensures forall x :: x in r <==> x in names || x == name
  {
    var i := 0;
    while i < |names| && names[i] < name
      invariant 0 <= i <= |names|
      invariant forall j :: 0 <= j < i ==> names[j] < name
    {
      i := i + 1;
    }
    if i < |names| && names[i] == name { return names; }
    r := names[..i] + [name] + names[i..];
    assert names == names[..i] + names[i..];
  }

  method SortedNames(reg: Registry, chain: seq<ClassId>) returns (names: seq<Name>)
    ensures names == Sorted(NamesAlong(reg, chain))
  {
    names := [];
    for i := 0 to |chain|
      invariant forall j, k :: 0 <= j < k < |names| ==> names[j] < names[k]
      invariant forall x :: x in names || x in NamesAlong(reg, chain[i..]) <==> x in NamesAlong(reg, chain)
    {
      assert chain[i..][1..] == chain[i + 1..];
      ghost var before := names;
      if chain[i] in reg.classes {
        var todo := reg.classes[chain[i]].methods.Keys - reg.builtin;
        while todo != {}
          invariant todo <= reg.classes[chain[i]].methods.Keys - reg.builtin
          invariant forall j, k :: 0 <= j < k < |names| ==> names[j] < names[k]
          invariant forall x :: x in names || x in todo <==>
                      x in before || x in reg.classes[chain[i]].methods.Keys - reg.builtin
        {
          var name :| name in todo;
          names := Insert(names, name);
          todo := todo - {name};
        }
      }
    }
    IncreasingUnique(names, Sorted(NamesAlong(reg, chain)));
  }

  method CollectCallables(reg: Registry, c: ClassId) returns (cs: seq<Callable>)
    requires c in reg.classes
    ensures cs == Visible(reg, c)
  {
    hide Lookup, Ancestry, NamesAlong, Numbered, Gather;
    var chain := WalkUp(reg, c);
    var names := SortedNames(reg, chain);
    var raw := GatherCallables(reg, chain, names);
    cs := NumberSlots(raw);
    var hasCreate := false;
    for i := 0 to |cs|
      invariant hasCreate <==> exists j :: 0 <= j < i && cs[j].name == reg.create
    {
      if cs[i].name == reg.create { hasCreate := true; }
    }
    if reg.classes[c].isReference && !hasCreate {
      cs := cs + [Callable(reg.create, Plain(reg.create), None)];
    }
  }

  method GatherCallables(reg: Registry, chain: seq<ClassId>, names: seq<Name>) returns (cs: seq<Callable>)
    ensures cs == Gather(reg, chain, names, [])
  {
    hide Lookup, Selected, SameSurface;
    cs := [];
    for i := 0 to |names|
      invariant Gather(reg, chain, names[i..], cs) == Gather(reg, chain, names, [])
    {
      assert names[i..][1..] == names[i + 1..];
      var sigs := LookupMethods(reg, chain, names[i]);
      ghost var before := cs;
      for j := 0 to |sigs|
        invariant AddSigs(names[i], sigs[j..], cs) == AddSigs(names[i], sigs, before)
      {
        assert sigs[j..][1..] == sigs[j + 1..];
        if !Selected(sigs[j]) { continue; }
        var callable := Callable(names[i], Plain(names[i]), Some(sigs[j]));
        var duplicate := exists k :: 0 <= k < |cs| && SameSurface(cs[k], callable);
        if !duplicate { cs := cs + [callable]; }
      }
      assert sigs[|sigs|..] == [];
    }
    assert names[|names|..] == [];
  }

  /** How often each name occurs. */
  method CountNames(cs: seq<Callable>) returns (counts: map<Name, nat>)
    ensures forall n: Name :: CountName(cs, n) == if n in counts then counts[n] else 0
  {
    counts := map[];
    for i := 0 to |cs|
      invariant forall n: Name :: CountName(cs[..i], n) == if n in counts then counts[n] else 0
    {
      CountNext(cs, i);
      var n := cs[i].name;
      counts := counts[n := (if n in counts then counts[n] else 0) + 1];
    }
    assert cs[..|cs|] == cs;
  }

  lemma CountNext(cs: seq<Callable>, i: nat)
    requires i < |cs|
    ensures forall n: Name :: CountName(cs[..i + 1], n) == CountName(cs[..i], n) + if cs[i].name == n then 1 else 0
  {
    assert cs[..i + 1][..i] == cs[..i];
  }

  method NumberSlots(raw: seq<Callable>) returns (cs: seq<Callable>)
    ensures cs == Numbered(raw)
  {
    hide CountName;
    var counts := CountNames(raw);
    var indexes: map<Name, nat> := map[];
    cs := [];
    NothingCounted(raw);
    for i := 0 to |raw|
      invariant |cs| == i && forall j :: 0 <= j < i ==> cs[j] == raw[j].(slot := SlotFor(raw, j))
      invariant forall n: Name :: CountName(raw, n) > 1 ==>
          CountName(raw[..i], n) == if n in indexes then indexes[n] else 0
    {
      CountNext(raw, i);
      CountPositive(raw, i);
      var n := raw[i].name;
      if counts[n] > 1 {
        var k := if n in indexes then indexes[n] else 0;
        cs := cs + [raw[i].(slot := Indexed(n, k))];
        indexes := indexes[n := k + 1];
      } else {
        cs := cs + [raw[i].(slot := Plain(n))];
      }
    }
    assert cs == Numbered(raw);
  }

  lemma NothingCounted(cs: seq<Callable>)
    ensures forall n: Name :: CountName(cs[..0], n) == 0
  {
  }

  method LookupMethods(reg: Registry, chain: seq<ClassId>, name: Name) returns (merged: seq<Sig>)
    ensures merged == Lookup(reg, chain, name)
  {
    merged := [];
    for i := 0 to |chain|
      invariant merged + Lookup(reg, chain[i..], name) == Lookup(reg, chain, name)
    {
      assert chain[i..][1..] == chain[i + 1..];
      if Declares(reg, chain[i], name) {
        var sigs := MethodsOf(reg, chain[i], name);
        merged := merged + sigs;
        if !KeepsInherited(sigs) { return; }
      }
    }
  }

  lemma {:induction false} CountPositive(cs: seq<Callable>, i: nat)
    requires i < |cs|
    ensures CountName(cs, cs[i].name) > 0
    ensures forall n: Name :: CountName(cs[..i], n) <= CountName(cs, n)
    decreases |cs|
  {
    var init := cs[..|cs| - 1];
    if i < |cs| - 1 {
      CountPositive(init, i);
      assert init[..i] == cs[..i] && init[i] == cs[i];
    }
  }

  // ------------------------------------------------------------------ facts about the callables

  predicate DistinctSurfaces(cs: seq<Callable>) {
    forall i, j :: 0 <= i < j < |cs| ==> !SameSurface(cs[i], cs[j])
  }

  /** What every callable gathered from a chain is. */
  ghost predicate Gathered(reg: Registry, chain: seq<ClassId>, c: Callable) {
    && c.sig.Some? && c.slot == Plain(c.name) && Selected(c.sig.value)
    && c.sig.value in Lookup(reg, chain, c.name)
  }

  lemma {:induction false} AddSigsKeeps(reg: Registry, chain: seq<ClassId>, name: Name, sigs: seq<Sig>,
                                        cs: seq<Callable>)
    requires DistinctSurfaces(cs) && forall c :: c in cs ==> Gathered(reg, chain, c)
    requires forall sig :: sig in sigs ==> sig in Lookup(reg, chain, name)
    ensures DistinctSurfaces(AddSigs(name, sigs, cs))
    ensures forall c :: c in AddSigs(name, sigs, cs) ==> Gathered(reg, chain, c)
    decreases sigs
  {
    hide Lookup, SameSurface, Selected;
    if sigs != [] {
      assert sigs[0] in sigs;
      AddSigsKeeps(reg, chain, name, sigs[1..], AddSig(name, sigs[0], cs));
    }
  }

  lemma {:induction false} GatherKeeps(reg: Registry, chain: seq<ClassId>, names: seq<Name>, cs: seq<Callable>)
    requires DistinctSurfaces(cs) && forall c :: c in cs ==> Gathered(reg, chain, c)
    ensures DistinctSurfaces(Gather(reg, chain, names, cs))
    ensures forall c :: c in Gather(reg, chain, names, cs) ==> Gathered(reg, chain, c)
    decreases names
  {
    hide Lookup, Gathered, DistinctSurfaces;
    if names != [] {
      var sigs := Lookup(reg, chain, names[0]);
      AddSigsKeeps(reg, chain, names[0], sigs, cs);
      GatherKeeps(reg, chain, names[1..], AddSigs(names[0], sigs, cs));
    }
  }

  lemma {:induction false} CountGrows(cs: seq<Callable>, i: nat, j: nat)
    requires i < j < |cs| && cs[i].name == cs[j].name
    ensures CountName(cs[..i], cs[i].name) < CountName(cs[..j], cs[i].name)
    decreases j
  {
    assert cs[..j][..j - 1] == cs[..j - 1];
    if i == j - 1 {
      assert cs[..j][j - 1] == cs[i];
    } else {
      PrefixCount(cs, i, j - 1);
    }
  }

  lemma {:induction false} PrefixCount(cs: seq<Callable>, i: nat, j: nat)
    requires i < j <= |cs|
    ensures CountName(cs[..i], cs[i].name) < CountName(cs[..j], cs[i].name)
    decreases j
  {
    assert cs[..j][..j - 1] == cs[..j - 1];
    assert cs[..j][j - 1] == cs[j - 1];
    if i < j - 1 { PrefixCount(cs, i, j - 1); }
  }

  lemma NumberedSlots(cs: seq<Callable>)
    ensures forall i, j :: 0 <= i < j < |cs| ==> Numbered(cs)[i].slot != Numbered(cs)[j].slot
  {
    forall i, j | 0 <= i < j < |cs| ensures Numbered(cs)[i].slot != Numbered(cs)[j].slot {
      if cs[i].name == cs[j].name {
        CountGrows(cs, i, j);
        CountPositive(cs, j);
        PrefixCount(cs, j, |cs|);
        assert cs[..|cs|] == cs;
      }
    }
  }

  /** A metaclass offers each surface once, in a slot of its own; a reference class always offers something. */
  lemma VisibleIsSound(reg: Registry, c: ClassId)
    requires c in reg.classes
    ensures var cs := Visible(reg, c);
            && DistinctSurfaces(cs)
            && (forall i, j :: 0 <= i < j < |cs| ==> cs[i].slot != cs[j].slot)
            && (forall x :: x in cs ==>
                  if x.sig.Some? then Selected(x.sig.value) && x.sig.value in Lookup(reg, Ancestry(reg, c), x.name)
                  else x.name == reg.create && reg.classes[c].isReference)
            && (reg.classes[c].isReference ==> HasName(cs, reg.create))
  {
    hide Lookup, Selected, Ancestry, NamesAlong;
    var chain := Ancestry(reg, c);
    var raw := Gather(reg, chain, Sorted(NamesAlong(reg, chain)), []);
    GatherKeeps(reg, chain, Sorted(NamesAlong(reg, chain)), []);
    NumberedSlots(raw);
    var cs := Numbered(raw);
    forall i | 0 <= i < |cs|
      ensures cs[i].slot.name == cs[i].name == raw[i].name && cs[i].sig == raw[i].sig && raw[i] in raw
    {
    }
    if reg.classes[c].isReference && !HasName(cs, reg.create) {
      var all := Visible(reg, c);
      assert all[|cs|].name == reg.create;
    }
  }

  /** `cs` offers the surface of `sig` under `name`. */
  ghost predicate Offers(cs: seq<Callable>, name: Name, sig: Sig) {
    exists i :: 0 <= i < |cs| && SameSurface(cs[i], Callable(name, Plain(name), Some(sig)))
  }

  lemma {:induction false} AddSigsOffers(name: Name, sigs: seq<Sig>, cs: seq<Callable>, other: Name, sig: Sig)
    ensures Offers(cs, other, sig) ==> Offers(AddSigs(name, sigs, cs), other, sig)
    ensures other == name && sig in sigs && Selected(sig) ==> Offers(AddSigs(name, sigs, cs), other, sig)
    decreases sigs
  {
    hide Selected, SameSurface;
    if sigs != [] {
      var next := AddSig(name, sigs[0], cs);
      AddSigsOffers(name, sigs[1..], next, other, sig);
      if Offers(cs, other, sig) {
        var i :| 0 <= i < |cs| && SameSurface(cs[i], Callable(other, Plain(other), Some(sig)));
        assert next[i] == cs[i];
      }
      if other == name && sig == sigs[0] && Selected(sig) { AddSigOffers(name, sig, cs); }
    }
  }

  lemma AddSigOffers(name: Name, sig: Sig, cs: seq<Callable>)
    requires Selected(sig)
    ensures Offers(AddSig(name, sig, cs), name, sig)
  {
    var c := Callable(name, Plain(name), Some(sig));
    if !(exists i :: 0 <= i < |cs| && SameSurface(cs[i], c)) {
      assert AddSig(name, sig, cs)[|cs|] == c;
      assert SameSurface(c, c);
    }
  }

  lemma {:induction false} GatherOffers(reg: Registry, chain: seq<ClassId>, names: seq<Name>, cs: seq<Callable>,
                                        name: Name, sig: Sig)
    ensures Offers(cs, name, sig) ==> Offers(Gather(reg, chain, names, cs), name, sig)
    ensures name in names && sig in Lookup(reg, chain, name) && Selected(sig) ==>
        Offers(Gather(reg, chain, names, cs), name, sig)
    decreases names
  {
    hide Lookup, Selected, Offers;
    if names != [] {
      var sigs := Lookup(reg, chain, names[0]);
      AddSigsOffers(names[0], sigs, cs, name, sig);
      GatherOffers(reg, chain, names[1..], AddSigs(names[0], sigs, cs), name, sig);
    }
  }

  lemma {:induction false} LookupIsNamed(reg: Registry, chain: seq<ClassId>, name: Name)
    requires Lookup(reg, chain, name) != [] && name !in reg.builtin
    ensures name in NamesAlong(reg, chain)
  {
    if !Declares(reg, chain[0], name) { LookupIsNamed(reg, chain[1..], name); }
  }

  /** Nothing that lookup finds is dropped: every constructor and class method has its surface offered. */
  lemma VisibleIsComplete(reg: Registry, c: ClassId, name: Name, sig: Sig)
    requires c in reg.classes && name !in reg.builtin
    requires sig in Lookup(reg, Ancestry(reg, c), name) && Selected(sig)
    ensures Offers(Visible(reg, c), name, sig)
  {
    hide Lookup, Selected, Ancestry, NamesAlong, Gather;
    var chain := Ancestry(reg, c);
    var names := Sorted(NamesAlong(reg, chain));
    LookupIsNamed(reg, chain, name);
    GatherOffers(reg, chain, names, [], name, sig);
    var raw := Gather(reg, chain, names, []);
    var i :| 0 <= i < |raw| && SameSurface(raw[i], Callable(name, Plain(name), Some(sig)));
    assert Visible(reg, c)[i] == raw[i].(slot := SlotFor(raw, i));
  }
}
