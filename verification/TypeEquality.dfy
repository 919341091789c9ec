/** Structural type equality, case by case in the source's order, and the canonical key it decides. */
module TypeEquality {
  import opened Wrappers

  type Id = nat

  datatype Family = IntegerFamily | BooleanFamily | CharFamily | WideCharFamily | EnumFamily

  datatype Domain = Domain(family: Family, low: int, high: int, enumKey: Option<Id>)

  /** A bound expression that evaluated to an ordinal. */
  datatype OrdinalValue = OrdinalValue(value: int, family: Family, enumKey: Option<Id>)

  /** A type expression where it is used: its descriptor and the declaration body behind it. */
  datatype Use = Unresolved | Resolved(descriptor: Id, shape: Shape)

  datatype Target = NoTarget | To(use: Use)

  datatype ArrayKind = Fixed | OpenArray | Dynamic

  /** A declaration body; `node` is its identity. */
  datatype Shape =
    | Named(node: Id, own: Option<Id>, ordinal: Option<Domain>)
    | Distinct(node: Id, underlying: Use)
    | Pointer(node: Id, target: Target)
    | Array(node: Id, kind: ArrayKind, packed: bool, dims: seq<Option<Domain>>, element: Use)
    | Set(node: Id, base: Option<Domain>, explicitBounds: Option<(int, int)>)
    | File(node: Id, isText: bool, content: Target)
    | Subrange(node: Id, lo: Option<OrdinalValue>, hi: Option<OrdinalValue>)
    | ShortString(node: Id, capacity: Option<int>)
    | Enum(node: Id, ordinal: Option<Domain>)
    | Nominal(node: Id)

  // ------------------------------------------------------------------ one registry

  /** What makes identities meaningful: one body per descriptor, one body per node, one domain per named type. */
  datatype Registry = Registry(bodies: Id -> Shape, nodes: Id -> Shape, domains: Id -> Option<Domain>)

  ghost predicate Registered(reg: Registry, u: Use) {
    u.Resolved? ==> reg.bodies(u.descriptor) == u.shape && RegisteredShape(reg, u.shape)
  }

  ghost predicate RegisteredShape(reg: Registry, s: Shape) {
    && reg.nodes(s.node) == s
    && match s
       case Named(_, own, ordinal) => (if own.Some? then reg.domains(own.value) == ordinal else ordinal.None?)
       case Distinct(_, underlying) => Registered(reg, underlying)
       case Pointer(_, target) => target.To? ==> Registered(reg, target.use)
       case Array(_, _, _, _, element) => Registered(reg, element)
       case File(_, _, content) => content.To? ==> Registered(reg, content.use)
       case _ => true
  }

  // ------------------------------------------------------------------ the source's test

  function DomainOfUse(u: Use): Option<Domain> {
    if u.Unresolved? then None else DomainOf(u.shape)
  }

  function Min(a: int, b: int): int {
    if a <= b then a else b
  }

  function Max(a: int, b: int): int {
    if a <= b then b else a
  }

  function DomainOf(s: Shape): Option<Domain> {
    match s
    case Distinct(_, underlying) => DomainOfUse(underlying)
    case Subrange(_, lo, hi) =>
      if lo.None? || hi.None? || lo.value.family != hi.value.family || lo.value.enumKey != hi.value.enumKey then None
      else
        Some(Domain(lo.value.family, Min(lo.value.value, hi.value.value), Max(lo.value.value, hi.value.value),
                    lo.value.enumKey))
    case Enum(_, ordinal) => ordinal
    case Named(_, _, ordinal) => ordinal
    case _ => None
  }

  /** A pointer, or a distinct type directly over one. */
  function PointerView(s: Shape): (p: Option<Shape>)
    ensures p.Some? ==> p.value.Pointer?
    ensures p.Some? ==> p.value == s || (s decreases to p.value)
  {
    if s.Pointer? then Some(s)
    else if s.Distinct? && s.underlying.Resolved? && s.underlying.shape.Pointer? then Some(s.underlying.shape)
    else None
  }

  predicate SameDomain(a: Option<Domain>, b: Option<Domain>) {
    a.Some? && b.Some? && a == b
  }

  function SetDomain(s: Shape): Option<Domain>
    requires s.Set?
  {
    if s.base.None? || s.explicitBounds.None? then s.base
    else Some(s.base.value.(low := s.explicitBounds.value.0, high := s.explicitBounds.value.1))
  }

  predicate SameUse(a: Use, b: Use)
    decreases a, 1
  {
    && a.Resolved? && b.Resolved?
    && (a.descriptor == b.descriptor || SameShape(a.shape, b.shape))
  }

  predicate SameTarget(a: Target, b: Target)
    decreases a, 2
  {
    if a.NoTarget? || b.NoTarget? then a.NoTarget? && b.NoTarget? else SameUse(a.use, b.use)
  }

  predicate SameShape(a: Shape, b: Shape)
    decreases a, 0
  {
    var ap, bp := PointerView(a), PointerView(b);
    if a.node == b.node then true
    else if ap.Some? && bp.Some? then SameTarget(ap.value.target, bp.value.target)
    else if SameDomain(DomainOf(a), DomainOf(b)) then true
    else
      match (a, b)
      case (Named(_, x, _), Named(_, y, _)) => x.Some? && x == y
      case (Array(_, ak, apk, adims, ae), Array(_, bk, bpk, bdims, be)) =>
        && ak == bk && apk == bpk && ak == Fixed && |adims| == |bdims|
        && (forall i :: 0 <= i < |adims| ==> SameDomain(adims[i], bdims[i]))
        && SameUse(ae, be)
      case (Set(_, _, _), Set(_, _, _)) => SameDomain(SetDomain(a), SetDomain(b))
      case (File(_, at, ac), File(_, bt, bc)) => at == bt && SameTarget(ac, bc)
      case (Subrange(_, alo, ahi), Subrange(_, blo, bhi)) =>
        && alo.Some? && ahi.Some? && blo.Some? && bhi.Some?
        && alo.value.family == ahi.value.family == blo.value.family == bhi.value.family
        && alo.value.enumKey == ahi.value.enumKey == blo.value.enumKey == bhi.value.enumKey
        && alo.value.value == blo.value.value && ahi.value.value == bhi.value.value
      case (ShortString(_, ac), ShortString(_, bc)) => ac.Some? && ac == bc
      case _ => false
  }

  // ------------------------------------------------------------------ the key

  /** What a type is, once everything the test looks through is looked through. */
  datatype Key =
    | NodeKey(node: Id)
    | DescriptorKey(descriptor: Id)
    | OrdinalKey(domain: Domain)
    | UntypedPointerKey
    | PointerKey(target: Key)
    | ArrayKey(packed: bool, dims: seq<Option<Domain>>, element: Key)
    | SetKey(domain: Domain)
    | UntypedFileKey(isText: bool)
    | FileKey(isText: bool, content: Key)
    | StringKey(capacity: int)

  function KeyOfUse(u: Use): Option<Key>
    decreases u, 1
  {
    if u.Unresolved? then None else Some(KeyOf(u.shape))
  }

  function KeyOf(s: Shape): Key
    decreases s, 0
  {
    var p := PointerView(s);
    if p.Some? then
      if p.value.target.NoTarget? then UntypedPointerKey
      else
        var k := KeyOfUse(p.value.target.use);
        if k.None? then NodeKey(s.node) else PointerKey(k.value)
    else if DomainOf(s).Some? then OrdinalKey(DomainOf(s).value)
    else
      match s
      case Named(_, own, _) => if own.Some? then DescriptorKey(own.value) else NodeKey(s.node)
      case Array(_, kind, packed, dims, element) =>
        var k := KeyOfUse(element);
        if kind == Fixed && k.Some? && (forall i :: 0 <= i < |dims| ==> dims[i].Some?) then
          ArrayKey(packed, dims, k.value)
        else NodeKey(s.node)
      case Set(_, _, _) => if SetDomain(s).Some? then SetKey(SetDomain(s).value) else NodeKey(s.node)
      case File(_, isText, content) =>
        if content.NoTarget? then UntypedFileKey(isText)
        else
          var k := KeyOfUse(content.use);
          if k.None? then NodeKey(s.node) else FileKey(isText, k.value)
      case ShortString(_, capacity) => if capacity.Some? then StringKey(capacity.value) else NodeKey(s.node)
      case _ => NodeKey(s.node)
  }

  /** The test decides equality of keys: its first-match order hides no case and doubles none. */
  lemma {:induction false} SameUseIsSameKey(reg: Registry, a: Use, b: Use)
    requires Registered(reg, a) && Registered(reg, b)
    ensures SameUse(a, b) <==> KeyOfUse(a).Some? && KeyOfUse(a) == KeyOfUse(b)
    decreases a, 1
  {
    if a.Resolved? && b.Resolved? { SameShapeIsSameKey(reg, a.shape, b.shape); }
  }

  lemma {:induction false} SameShapeIsSameKey(reg: Registry, a: Shape, b: Shape)
    requires RegisteredShape(reg, a) && RegisteredShape(reg, b)
    ensures SameShape(a, b) <==> KeyOf(a) == KeyOf(b)
    decreases a, 0
  {
    var ap, bp := PointerView(a), PointerView(b);
    if a.node == b.node {
      assert a == b;
    } else if ap.Some? && bp.Some? {
      PointersSameKey(reg, a, b);
    } else if DomainOf(a).Some? && DomainOf(b).Some? {
      DomainsSameKey(reg, a, b);
    } else {
      FormsSameKey(reg, a, b);
    }
  }

  lemma {:induction false} PointersSameKey(reg: Registry, a: Shape, b: Shape)
    requires RegisteredShape(reg, a) && RegisteredShape(reg, b) && a.node != b.node
    requires PointerView(a).Some? && PointerView(b).Some?
    ensures SameShape(a, b) <==> KeyOf(a) == KeyOf(b)
    decreases a, -1
  {
    var at, bt := PointerView(a).value.target, PointerView(b).value.target;
    ViewRegistered(reg, a);
    ViewRegistered(reg, b);
    if at.To? && bt.To? { SameUseIsSameKey(reg, at.use, bt.use); }
  }

  /** Ordinal types are compared by domain, whatever their form. */
  lemma DomainsSameKey(reg: Registry, a: Shape, b: Shape)
    requires RegisteredShape(reg, a) && RegisteredShape(reg, b) && a.node != b.node
    requires DomainOf(a).Some? && DomainOf(b).Some?
    ensures SameShape(a, b) <==> KeyOf(a) == KeyOf(b)
  {
    PointersHaveNoDomain(a);
    PointersHaveNoDomain(b);
    match (a, b)
    case (Named(_, x, _), Named(_, y, _)) =>
    case (Subrange(_, _, _), Subrange(_, _, _)) =>
    case _ =>
  }

  lemma {:induction false} FormsSameKey(reg: Registry, a: Shape, b: Shape)
    requires RegisteredShape(reg, a) && RegisteredShape(reg, b) && a.node != b.node
    requires PointerView(a).None? || PointerView(b).None?
    requires DomainOf(a).None? || DomainOf(b).None?
    ensures SameShape(a, b) <==> KeyOf(a) == KeyOf(b)
    decreases a, -1
  {
    PointersHaveNoDomain(a);
    PointersHaveNoDomain(b);
    match (a, b)
    case (Array(_, _, _, _, ae), Array(_, _, _, _, be)) => SameUseIsSameKey(reg, ae, be);
    case (File(_, _, ac), File(_, _, bc)) => if ac.To? && bc.To? { SameUseIsSameKey(reg, ac.use, bc.use); }
    case _ =>
  }

  lemma ViewRegistered(reg: Registry, s: Shape)
    requires RegisteredShape(reg, s) && PointerView(s).Some?
    ensures PointerView(s).value.target.To? ==> Registered(reg, PointerView(s).value.target.use)
  {
    if s.Distinct? { assert RegisteredShape(reg, s.underlying.shape); }
  }

  lemma PointersHaveNoDomain(s: Shape)
    ensures PointerView(s).Some? ==> DomainOf(s).None?
  {
    if s.Distinct? && s.underlying.Resolved? && s.underlying.shape.Pointer? {
      assert DomainOf(s.underlying.shape).None?;
    }
  }

  /** Hence it is an equivalence: reflexive on every resolved type, symmetric, transitive. */
  lemma SameIsEquivalence(reg: Registry, a: Use, b: Use, c: Use)
    requires Registered(reg, a) && Registered(reg, b) && Registered(reg, c)
    ensures SameUse(a, a) <==> a.Resolved?
    ensures SameUse(a, b) <==> SameUse(b, a)
    ensures SameUse(a, b) && SameUse(b, c) ==> SameUse(a, c)
  {
    hide SameUse, Registered;
    UnresolvedHasNoKey(a);
    SameUseIsSameKey(reg, a, a);
    SameUseIsSameKey(reg, a, b);
    SameUseIsSameKey(reg, b, a);
    SameUseIsSameKey(reg, b, c);
    SameUseIsSameKey(reg, a, c);
  }

  lemma UnresolvedHasNoKey(a: Use)
    ensures KeyOfUse(a).Some? <==> a.Resolved?
  {
  }

  /** Equal types have the same set of ordinal values, so one can index what the other indexes. */
  lemma SameHasSameDomain(reg: Registry, a: Use, b: Use)
    requires Registered(reg, a) && Registered(reg, b) && SameUse(a, b)
    ensures DomainOfUse(a) == DomainOfUse(b)
  {
    hide SameUse, Registered;
    SameUseIsSameKey(reg, a, b);
    KeyShowsDomain(a);
    KeyShowsDomain(b);
  }

  lemma KeyShowsDomain(a: Use)
    ensures DomainOfUse(a).Some? <==> KeyOfUse(a).Some? && KeyOfUse(a).value.OrdinalKey?
    ensures DomainOfUse(a).Some? ==> KeyOfUse(a) == Some(OrdinalKey(DomainOfUse(a).value))
  {
    if a.Resolved? { PointersHaveNoDomain(a.shape); }
  }

  /**
   * Reflexivity stops at an unresolved part: two separate fixed arrays over an unresolved element
   * differ, while each equals itself.
   */
  lemma UnresolvedElementsDiffer(a: Shape, b: Shape)
    requires a.Array? && b.Array? && a.node != b.node && a.element.Unresolved?
    ensures SameShape(a, a) && SameShape(b, b) && !SameShape(a, b)
  {
  }

  // ------------------------------------------------------------------ what equality means, form by form

  /** The values a subrange admits lie between its bounds, whichever order they are written in. */
  predicate Admits(s: Shape, x: int)
    requires s.Subrange? && s.lo.Some? && s.hi.Some?
  {
    s.lo.value.value <= x <= s.hi.value.value || s.hi.value.value <= x <= s.lo.value.value
  }

  /** Both bounds evaluate, to ordinals of one family and one enum. */
  predicate Evaluates(s: Shape) {
    && s.Subrange? && s.lo.Some? && s.hi.Some?
    && s.lo.value.family == s.hi.value.family && s.lo.value.enumKey == s.hi.value.enumKey
  }

  /** Two subranges are one type if and only if they are of one family and enum and admit the same values. */
  lemma SubrangesSameIff(reg: Registry, a: Use, b: Use)
    requires Registered(reg, a) && Registered(reg, b) && a.Resolved? && b.Resolved?
    requires Evaluates(a.shape) && Evaluates(b.shape)
    ensures SameUse(a, b) <==>
            && a.shape.lo.value.family == b.shape.lo.value.family
            && a.shape.lo.value.enumKey == b.shape.lo.value.enumKey
            && forall x :: Admits(a.shape, x) <==> Admits(b.shape, x)
  {
    SameUseIsSameKey(reg, a, b);
    var p, q := a.shape, b.shape;
    EndsAdmitted(p);
    EndsAdmitted(q);
    if forall x :: Admits(p, x) <==> Admits(q, x) {
      assert Admits(q, p.lo.value.value) && Admits(q, p.hi.value.value);
      assert Admits(p, q.lo.value.value) && Admits(p, q.hi.value.value);
    }
  }

  lemma EndsAdmitted(s: Shape)
    requires Evaluates(s)
    ensures Admits(s, s.lo.value.value) && Admits(s, s.hi.value.value)
  {
  }

  /** A subrange and a named or enumerated ordinal are one type iff they are of one family and admit the same values. */
  lemma SubrangeIsOrdinalIff(reg: Registry, a: Use, b: Use)
    requires Registered(reg, a) && Registered(reg, b) && a.Resolved? && b.Resolved?
    requires Evaluates(a.shape) && (b.shape.Named? || b.shape.Enum?) && a.shape.node != b.shape.node
    requires b.shape.ordinal.Some? && b.shape.ordinal.value.low <= b.shape.ordinal.value.high
    ensures SameUse(a, b) <==>
            && a.shape.lo.value.family == b.shape.ordinal.value.family
            && a.shape.lo.value.enumKey == b.shape.ordinal.value.enumKey
            && forall x :: Admits(a.shape, x) <==> b.shape.ordinal.value.low <= x <= b.shape.ordinal.value.high
  {
    SameUseIsSameKey(reg, a, b);
    var p, d := a.shape, b.shape.ordinal.value;
    EndsAdmitted(p);
    if forall x :: Admits(p, x) <==> d.low <= x <= d.high {
      assert d.low <= p.lo.value.value <= d.high && d.low <= p.hi.value.value <= d.high;
      assert Admits(p, d.low) && Admits(p, d.high);
    }
  }

  /** The bounds of a set's elements: the explicit ones if it has them, else those of its element type. */
  predicate ElementBounds(s: Shape, low: int, high: int)
    requires s.Set? && s.base.Some?
  {
    if s.explicitBounds.Some? then (low, high) == s.explicitBounds.value
    else low == s.base.value.low && high == s.base.value.high
  }

  /** Two sets are one type if and only if their elements are of one family and enum and have the same bounds. */
  lemma SetsSameIff(reg: Registry, a: Use, b: Use, i: int, j: int, k: int, l: int)
    requires Registered(reg, a) && Registered(reg, b) && a.Resolved? && b.Resolved?
    requires a.shape.Set? && b.shape.Set? && a.shape.base.Some? && b.shape.base.Some?
    requires ElementBounds(a.shape, i, j) && ElementBounds(b.shape, k, l)
    ensures SameUse(a, b) <==>
            && a.shape.base.value.family == b.shape.base.value.family
            && a.shape.base.value.enumKey == b.shape.base.value.enumKey
            && i == k && j == l
  {
    SameUseIsSameKey(reg, a, b);
  }

  /** The pointer behind a pointer type or a distinct type made directly from one. */
  predicate PointsTo(s: Shape, target: Target) {
    || (s.Pointer? && s.target == target)
    || (s.Distinct? && s.underlying.Resolved? && s.underlying.shape.Pointer? && s.underlying.shape.target == target)
  }

  /** Pointers, distinct or not, are one type if and only if their targets are. */
  lemma PointersSameIff(reg: Registry, a: Use, b: Use, p: Target, q: Target)
    requires Registered(reg, a) && Registered(reg, b) && a.Resolved? && b.Resolved?
    requires PointsTo(a.shape, p) && PointsTo(b.shape, q)
    requires p.To? ==> p.use.Resolved?
    ensures SameUse(a, b) <==> (p.NoTarget? && q.NoTarget?) || (p.To? && q.To? && SameUse(p.use, q.use))
  {
    SameUseIsSameKey(reg, a, b);
    if p.To? && q.To? {
      TargetRegistered(reg, a.shape, p);
      TargetRegistered(reg, b.shape, q);
      SameUseIsSameKey(reg, p.use, q.use);
    }
  }

  lemma TargetRegistered(reg: Registry, s: Shape, target: Target)
    requires RegisteredShape(reg, s) && PointsTo(s, target) && target.To?
    ensures Registered(reg, target.use)
  {
    if s.Distinct? {
      assert Registered(reg, s.underlying);
      PointeeRegistered(reg, s.underlying.shape);
    }
  }

  lemma PointeeRegistered(reg: Registry, s: Shape)
    requires RegisteredShape(reg, s) && s.Pointer? && s.target.To?
    ensures Registered(reg, s.target.use)
  {
  }

  /** A distinct type over an ordinal is that type; over anything but an ordinal or a pointer it is itself alone. */
  lemma DistinctSame(reg: Registry, a: Use, b: Use)
    requires Registered(reg, a) && Registered(reg, b) && a.Resolved? && b.Resolved?
    requires a.shape.Distinct? && a.shape.underlying.Resolved? && a.shape.node != b.shape.node
    ensures DomainOfUse(a.shape.underlying).Some? ==> SameUse(a, a.shape.underlying)
    ensures DomainOfUse(a.shape.underlying).None? && !a.shape.underlying.shape.Pointer? ==> !SameUse(a, b)
  {
    SameUseIsSameKey(reg, a, b);
    SameUseIsSameKey(reg, a, a.shape.underlying);
    KeyShowsDomain(a);
    KeyShowsDomain(a.shape.underlying);
    PointersHaveNoDomain(a.shape);
    if b.Resolved? && KeyOf(a.shape) == KeyOf(b.shape) && KeyOf(a.shape).NodeKey? { KeyNode(b.shape); }
  }

  /** A node key is the node's own. */
  lemma KeyNode(s: Shape)
    ensures KeyOf(s).NodeKey? ==> KeyOf(s).node == s.node
  {
  }

  /** Fixed arrays are one type iff packed alike, with index types of the same domains, and elements of one type. */
  lemma ArraysSameIff(reg: Registry, a: Use, b: Use)
    requires Registered(reg, a) && Registered(reg, b) && a.Resolved? && b.Resolved?
    requires a.shape.Array? && b.shape.Array? && a.shape.node != b.shape.node
    ensures SameUse(a, b) <==>
            && a.shape.kind == Fixed && b.shape.kind == Fixed && a.shape.packed == b.shape.packed
            && |a.shape.dims| == |b.shape.dims|
            && (forall i :: 0 <= i < |a.shape.dims| ==> a.shape.dims[i].Some? && a.shape.dims[i] == b.shape.dims[i])
            && SameUse(a.shape.element, b.shape.element)
  {
  }

  /** Shortstrings are one type iff their capacities evaluate to one number. */
  lemma StringsSameIff(reg: Registry, a: Use, b: Use)
    requires Registered(reg, a) && Registered(reg, b) && a.Resolved? && b.Resolved? && a.shape.node != b.shape.node
    requires a.shape.ShortString? && b.shape.ShortString?
    ensures SameUse(a, b) <==>
            && a.shape.capacity.Some? && b.shape.capacity.Some?
            && a.shape.capacity.value == b.shape.capacity.value
  {
    assert SameUse(a, b) <==> SameShape(a.shape, b.shape);
  }

  /** Files are one type iff both are text or neither is, and both are untyped or their contents are one type. */
  lemma FilesSameIff(reg: Registry, a: Use, b: Use)
    requires Registered(reg, a) && Registered(reg, b) && a.Resolved? && b.Resolved? && a.shape.node != b.shape.node
    requires a.shape.File? && b.shape.File?
    ensures var p, q := a.shape.content, b.shape.content;
            SameUse(a, b) <==>
            && a.shape.isText == b.shape.isText
            && ((p.NoTarget? && q.NoTarget?) || (p.To? && q.To? && SameUse(p.use, q.use)))
  {
    assert SameUse(a, b) <==> SameShape(a.shape, b.shape);
    assert SameShape(a.shape, b.shape) <==>
           a.shape.isText == b.shape.isText && SameTarget(a.shape.content, b.shape.content);
  }

  /** Records, classes and everything else nominal are one type only with themselves. */
  lemma NominalSameIff(reg: Registry, a: Use, b: Use)
    requires Registered(reg, a) && Registered(reg, b) && a.Resolved? && b.Resolved? && a.shape.Nominal?
    ensures SameUse(a, b) <==> a.shape.node == b.shape.node
  {
    SameUseIsSameKey(reg, a, b);
    if KeyOf(a.shape) == KeyOf(b.shape) { KeyNode(b.shape); }
  }
}
