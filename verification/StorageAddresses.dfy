/** Byte addresses composed for indexed and member storage, over nested arrays and records. */
module StorageAddresses {
  import opened Wrappers

  /** An array dimension: its lower bound and how many values its index type has. */
  datatype Dim = Dim(low: int, count: nat)

  datatype Field = Field(name: nat, offset: nat, typ: Type)

  datatype Type =
    | Scalar(size: nat)
    | Array(dims: seq<Dim>, element: Type)
    | Record(packed: bool, size: nat, fields: seq<Field>)

  /** A piece of storage, relative to the start of the whole. */
  datatype Place = Place(offset: int, typ: Type)

  // ------------------------------------------------------------------ layout

  function DimsSize(dims: seq<Dim>, element: nat): nat {
    if dims == [] then element
    else
      var rest := DimsSize(dims[1..], element);
      Times(dims[0].count, rest);
      dims[0].count * rest
  }

  function SizeOf(t: Type): nat {
    match t
    case Scalar(size) => size
    case Array(dims, element) => DimsSize(dims, SizeOf(element))
    case Record(_, size, _) => size
  }

  lemma Times(a: nat, b: nat)
    ensures a * b >= 0
  {
  }

  lemma Split(a: int, b: int, n: int)
    ensures (a + b + 1) * n == a * n + b * n + n
  {
  }

  /** Arrays have a dimension; record fields lie one after another inside the record. */
  ghost predicate WellFormed(t: Type) {
    match t
    case Scalar(_) => true
    case Array(dims, element) => dims != [] && WellFormed(element)
    case Record(_, size, fields) =>
      && (forall i :: 0 <= i < |fields| ==>
          WellFormed(fields[i].typ) && fields[i].offset + SizeOf(fields[i].typ) <= size)
      && (forall i, j :: 0 <= i < j < |fields| ==>
            fields[i].name != fields[j].name && fields[i].offset + SizeOf(fields[i].typ) <= fields[j].offset)
  }

  /** What is left of an array type after its first dimensions are selected. */
  function Rest(dims: seq<Dim>, element: Type): Type {
    if dims == [] then element else Array(dims, element)
  }

  lemma RestSize(dims: seq<Dim>, element: Type)
    ensures SizeOf(Rest(dims, element)) == DimsSize(dims, SizeOf(element))
  {
  }

  // ------------------------------------------------------------------ one index expression

  /** Size of what one more selected dimension leaves, built from the innermost dimension outward. */
  method ElementSizeAfter(dims: seq<Dim>, element: Type, selected: nat) returns (size: nat)
    requires selected < |dims|
    ensures size == SizeOf(Rest(dims[selected + 1..], element))
  {
    size := SizeOf(element);
    var dim := |dims|;
    while dim > selected + 1
      invariant selected + 1 <= dim <= |dims|
      invariant size == DimsSize(dims[dim..], SizeOf(element))
    {
      dim := dim - 1;
      assert dims[dim..][1..] == dims[dim + 1..];
      Times(dims[dim].count, size);
      size := dims[dim].count * size;
    }
    RestSize(dims[selected + 1..], element);
  }

  /** Position of an index tuple among the first `|indices|` dimensions, last index fastest. */
  function RowMajor(dims: seq<Dim>, indices: seq<int>): int
    requires |indices| <= |dims|
  {
    if indices == [] then 0
    else
      var last := |indices| - 1;
      RowMajor(dims, indices[..last]) * dims[last].count + (indices[last] - dims[last].low)
  }

  function Selected(t: Type, indices: seq<int>): Option<Place> {
    if !t.Array? || |indices| > |t.dims| then None
    else
      var rest := Rest(t.dims[|indices|..], t.element);
      Some(Place(RowMajor(t.dims, indices) * SizeOf(rest), rest))
  }

  lemma Horner(r: int, n: int, x: int, s: int)
    ensures (r * n + x) * s == r * (n * s) + x * s
  {
    assert (r * n + x) * s == r * n * s + x * s;
    assert r * n * s == r * (n * s);
  }

  /** The address of a possibly partial index: base plus the row-major position times the size selected. */
  method IndexAddress(base: int, t: Type, indices: seq<int>) returns (r: Option<Place>)
    ensures r == match Selected(t, indices)
                 case None => None
                 case Some(p) => Some(Place(base + p.offset, p.typ))
  {
    if !t.Array? { return None; }
    if |indices| > |t.dims| { return None; }
    var size := SizeOf(t.element);
    var address := base;
    for dim := 0 to |indices|
      invariant address == base + RowMajor(t.dims, indices[..dim]) * DimsSize(t.dims[dim..], size)
    {
      var step := ElementSizeAfter(t.dims, t.element, dim);
      RestSize(t.dims[dim + 1..], t.element);
      assert t.dims[dim..][1..] == t.dims[dim + 1..];
      assert indices[..dim + 1][..dim] == indices[..dim];
      Horner(RowMajor(t.dims, indices[..dim]), t.dims[dim].count, indices[dim] - t.dims[dim].low, step);
      address := address + (indices[dim] - t.dims[dim].low) * step;
    }
    assert indices[..|indices|] == indices;
    RestSize(t.dims[|indices|..], t.element);
    return Some(Place(address, Rest(t.dims[|indices|..], t.element)));
  }

  predicate IndicesInRange(dims: seq<Dim>, indices: seq<int>) {
    && |indices| <= |dims|
    && forall i :: 0 <= i < |indices| ==> dims[i].low <= indices[i] < dims[i].low + dims[i].count
  }

  function Count(dims: seq<Dim>): nat {
    DimsSize(dims, 1)
  }

  lemma {:induction false} CountAppend(dims: seq<Dim>, last: Dim)
    ensures DimsSize(dims + [last], 1) == DimsSize(dims, 1) * last.count
  {
    if dims == [] {
      assert dims + [last] == [last];
      assert DimsSize([last], 1) == last.count * DimsSize([last][1..], 1);
    } else {
      assert (dims + [last])[1..] == dims[1..] + [last];
      CountAppend(dims[1..], last);
      Associate(dims[0].count, DimsSize(dims[1..], 1), last.count);
    }
  }

  lemma Associate(a: int, b: int, c: int)
    ensures a * (b * c) == (a * b) * c
  {
  }

  /** In-range tuples are numbered below the number of tuples, distinct ones differently. */
  lemma {:induction false} RowMajorNumbers(dims: seq<Dim>, a: seq<int>, b: seq<int>)
    requires IndicesInRange(dims, a) && IndicesInRange(dims, b) && |a| == |b|
    ensures 0 <= RowMajor(dims, a) < Count(dims[..|a|])
    ensures RowMajor(dims, a) == RowMajor(dims, b) ==> a == b
  {
    if a == [] {
      assert dims[..0] == [];
    } else {
      var last := |a| - 1;
      var n := dims[last].count;
      RowMajorNumbers(dims, a[..last], b[..last]);
      assert dims[..|a|] == dims[..last] + [dims[last]];
      CountAppend(dims[..last], dims[last]);
      var r, s := RowMajor(dims, a[..last]), RowMajor(dims, b[..last]);
      var x, y := a[last] - dims[last].low, b[last] - dims[last].low;
      DigitBound(r, Count(dims[..last]), n, x);
      if r * n + x == s * n + y {
        SameDigits(n, r, x, s, y);
        assert a == a[..last] + [a[last]] && b == b[..last] + [b[last]];
      }
    }
  }

  lemma DigitBound(r: int, m: int, n: int, x: int)
    requires 0 <= r < m && 0 <= x < n
    ensures 0 <= r * n + x < m * n
  {
    Times(m - r - 1, n);
    Times(r, n);
    Split(m - r - 1, r, n);
  }

  lemma SameDigits(n: int, r: int, x: int, s: int, y: int)
    requires 0 <= x < n && 0 <= y < n && r * n + x == s * n + y
    ensures r == s && x == y
  {
    if r > s { DigitsApart(n, r, x, s, y); }
    if r < s { DigitsApart(n, s, y, r, x); }
  }

  lemma DigitsApart(n: int, r: int, x: int, s: int, y: int)
    requires 0 <= x < n && 0 <= y < n && r > s
    ensures r * n + x > s * n + y
  {
    SlotsApart(0, r - s, n);
    assert r * n == (r - s) * n + s * n;
  }

  /** Every position is some in-range tuple's: the numbering leaves no element out. */
  lemma {:induction false} EveryPositionIsReached(dims: seq<Dim>, n: int) returns (indices: seq<int>)
    requires 0 <= n < Count(dims)
    ensures |indices| == |dims| && IndicesInRange(dims, indices) && RowMajor(dims, indices) == n
    decreases |dims|
  {
    if dims == [] {
      indices := [];
    } else {
      var last := |dims| - 1;
      var init := dims[..last];
      assert dims == init + [dims[last]];
      CountAppend(init, dims[last]);
      var c := dims[last].count;
      var q, r := HighDigit(n, Count(init), c);
      var first := EveryPositionIsReached(init, q);
      indices := first + [dims[last].low + r];
      assert indices[..last] == first;
      RowMajorOfInit(dims, first);
      forall i | 0 <= i < |indices| ensures dims[i].low <= indices[i] < dims[i].low + dims[i].count {
        if i < last { assert init[i] == dims[i] && first[i] == indices[i]; }
      }
    }
  }

  lemma HighDigit(n: int, m: nat, c: nat) returns (q: int, r: int)
    requires 0 <= n < m * c
    ensures 0 <= q < m && 0 <= r < c && q * c + r == n
  {
    Positive(m, c);
    q, r := 0, n;
    while r >= c
      invariant 0 <= q && 0 <= r && q * c + r == n
      decreases r
    {
      assert (q + 1) * c == q * c + c;
      q, r := q + 1, r - c;
    }
    Monotone(m, q, c);
  }

  lemma Positive(m: nat, c: nat)
    requires 0 < m * c
    ensures c > 0
  {
  }

  lemma Monotone(m: nat, q: nat, c: nat)
    ensures m <= q ==> m * c <= q * c
  {
    if m <= q {
      Times(q - m, c);
      assert q * c == (q - m) * c + m * c;
    }
  }

  lemma {:induction false} RowMajorOfInit(dims: seq<Dim>, indices: seq<int>)
    requires |indices| < |dims|
    ensures RowMajor(dims[..|dims| - 1], indices) == RowMajor(dims, indices)
  {
    if indices != [] { RowMajorOfInit(dims, indices[..|indices| - 1]); }
  }

  // ------------------------------------------------------------------ packed layout

  /** Members laid out one behind another, without padding. */
  function Placed(members: seq<(nat, Type)>, start: nat): seq<Field> {
    if members == [] then []
    else [Field(members[0].0, start, members[0].1)] + Placed(members[1..], start + SizeOf(members[0].1))
  }

  function Total(members: seq<(nat, Type)>): nat {
    if members == [] then 0 else SizeOf(members[0].1) + Total(members[1..])
  }

  lemma {:induction false} PlacedInOrder(members: seq<(nat, Type)>, start: nat)
    ensures var fields := Placed(members, start);
            && |fields| == |members|
            && (forall i :: 0 <= i < |fields| ==>
                  && fields[i].name == members[i].0 && fields[i].typ == members[i].1
                  && start <= fields[i].offset && fields[i].offset + SizeOf(fields[i].typ) <= start + Total(members))
            && (forall i, j :: 0 <= i < j < |fields| ==>
                  fields[i].offset + SizeOf(fields[i].typ) <= fields[j].offset)
  {
    if members != [] { PlacedInOrder(members[1..], start + SizeOf(members[0].1)); }
  }

  /** A packed record is well-formed exactly if its members are and no two share a name; scalars always are. */
  lemma PackedIsWellFormed(members: seq<(nat, Type)>)
    ensures WellFormed(Record(true, Total(members), Placed(members, 0))) <==>
              && (forall i :: 0 <= i < |members| ==> WellFormed(members[i].1))
              && (forall i, j :: 0 <= i < j < |members| ==> members[i].0 != members[j].0)
    ensures forall size: nat :: WellFormed(Scalar(size))
    ensures forall dims, element :: WellFormed(Array(dims, element)) <==> |dims| > 0 && WellFormed(element)
  {
    PlacedInOrder(members, 0);
    var fields := Placed(members, 0);
    if WellFormed(Record(true, Total(members), fields)) {
      forall i | 0 <= i < |members| ensures WellFormed(members[i].1) {
        assert fields[i].typ == members[i].1;
      }
      forall i, j | 0 <= i < j < |members| ensures members[i].0 != members[j].0 {
        assert fields[i].name == members[i].0 && fields[j].name == members[j].0;
      }
    }
  }

  // ------------------------------------------------------------------ paths

  /** One selection: an index in the first remaining dimension, or a field. */
  datatype Step = Sub(index: int) | Member(name: nat)

  function FindField(fields: seq<Field>, name: nat): Option<Field> {
    if fields == [] then None
    else if fields[0].name == name then Some(fields[0])
    else FindField(fields[1..], name)
  }

  lemma {:induction false} FindFieldMeans(fields: seq<Field>, name: nat) returns (i: nat)
    requires FindField(fields, name).Some?
    ensures i < |fields| && fields[i] == FindField(fields, name).value && fields[i].name == name
  {
    if fields[0].name == name {
      i := 0;
    } else {
      var j := FindFieldMeans(fields[1..], name);
      i := j + 1;
    }
  }

  /** A field is found exactly if one has the name, and it is the first that does. */
  lemma {:induction false} FirstFieldIsFound(fields: seq<Field>, name: nat, i: nat)
    requires i < |fields| && fields[i].name == name && forall j :: 0 <= j < i ==> fields[j].name != name
    ensures FindField(fields, name) == Some(fields[i])
  {
    if i > 0 { FirstFieldIsFound(fields[1..], name, i - 1); }
  }

  /** One step from a piece of storage of type `t`: the offset it adds and the type it selects. */
  function Select(t: Type, step: Step): Option<Place> {
    match step
    case Sub(i) =>
      if !t.Array? || t.dims == [] then None
      else
        var rest := Rest(t.dims[1..], t.element);
        Some(Place((i - t.dims[0].low) * SizeOf(rest), rest))
    case Member(name) =>
      if !t.Record? then None
      else
        var f := FindField(t.fields, name);
        if f.None? then None else Some(Place(f.value.offset, f.value.typ))
  }

  function Walk(t: Type, path: seq<Step>): Option<Place>
    decreases path
  {
    if path == [] then Some(Place(0, t))
    else
      var here := Select(t, path[0]);
      if here.None? then None
      else
        var there := Walk(here.value.typ, path[1..]);
        if there.None? then None else Some(Place(here.value.offset + there.value.offset, there.value.typ))
  }

  predicate StepInRange(t: Type, step: Step) {
    step.Sub? && t.Array? && t.dims != [] ==> t.dims[0].low <= step.index < t.dims[0].low + t.dims[0].count
  }

  predicate PathInRange(t: Type, path: seq<Step>)
    decreases path
  {
    path != [] ==>
      && StepInRange(t, path[0])
      && (Select(t, path[0]).Some? ==> PathInRange(Select(t, path[0]).value.typ, path[1..]))
  }

  function Subs(indices: seq<int>): seq<Step> {
    if indices == [] then [] else [Sub(indices[0])] + Subs(indices[1..])
  }

  lemma {:induction false} WalkAppend(t: Type, p: seq<Step>, q: seq<Step>)
    ensures Walk(t, p + q) == match Walk(t, p)
                              case None => None
                              case Some(a) =>
                                match Walk(a.typ, q)
                                case None => None
                                case Some(b) => Some(Place(a.offset + b.offset, b.typ))
    decreases p
  {
    if p == [] {
      assert p + q == q;
    } else {
      assert (p + q)[0] == p[0] && (p + q)[1..] == p[1..] + q;
      var here := Select(t, p[0]);
      if here.Some? { WalkAppend(here.value.typ, p[1..], q); }
    }
  }

  /** A member step reaches the first field of its name, at its offset; an array or a scalar has none. */
  lemma MemberReaches(t: Type, name: nat, i: nat)
    requires t.Record? ==>
               i < |t.fields| && t.fields[i].name == name && forall j :: 0 <= j < i ==> t.fields[j].name != name
    ensures Walk(t, [Member(name)]) ==
            if t.Record? then Some(Place(t.fields[i].offset, t.fields[i].typ)) else None
  {
    if t.Record? { FirstFieldIsFound(t.fields, name, i); }
    WalkOne(t, Member(name));
  }

  /** Steps by index are in range exactly if the indices are, and member steps always are. */
  lemma {:induction false} RangeOfIndices(t: Type, indices: seq<int>)
    requires t.Array? && |indices| <= |t.dims|
    ensures PathInRange(t, Subs(indices)) <==>
              forall i :: 0 <= i < |indices| ==>
                t.dims[i].low <= indices[i] && indices[i] - t.dims[i].low < t.dims[i].count
    decreases |indices|
  {
    if indices != [] {
      var rest := Rest(t.dims[1..], t.element);
      assert Subs(indices)[1..] == Subs(indices[1..]);
      if |indices| > 1 {
        RangeOfIndices(rest, indices[1..]);
        assert forall i :: 0 <= i < |indices| - 1 ==>
                 rest.dims[i] == t.dims[i + 1] && indices[1..][i] == indices[i + 1];
        assert forall i :: 0 < i < |indices| ==> rest.dims[i - 1] == t.dims[i] && indices[1..][i - 1] == indices[i];
      } else {
        assert Subs(indices[1..]) == [];
      }
    }
  }

  lemma {:induction false} MembersInRange(t: Type, names: seq<nat>)
    ensures PathInRange(t, Members(names))
    decreases names
  {
    if names != [] {
      assert Members(names)[1..] == Members(names[1..]);
      var here := Select(t, Member(names[0]));
      if here.Some? { MembersInRange(here.value.typ, names[1..]); }
    }
  }

  lemma {:induction false} SubsAppend(a: seq<int>, b: seq<int>)
    ensures Subs(a + b) == Subs(a) + Subs(b)
  {
    if a == [] {
      assert a + b == b;
    } else {
      assert (a + b)[1..] == a[1..] + b;
      SubsAppend(a[1..], b);
    }
  }

  /** A multi-index addresses what selecting one dimension at a time does. */
  lemma {:induction false} IndexIsWalk(t: Type, indices: seq<int>)
    requires t.Array? && t.dims != [] && |indices| <= |t.dims|
    ensures Walk(t, Subs(indices)) == Selected(t, indices)
    decreases |indices|
  {
    if indices == [] {
      assert t.dims[0..] == t.dims;
    } else {
      var last := |indices| - 1;
      var init, x := indices[..last], indices[last];
      assert indices == init + [x];
      SubsAppend(init, [x]);
      assert Subs([x]) == [Sub(x)];
      IndexIsWalk(t, init);
      WalkAppend(t, Subs(init), [Sub(x)]);
      var before, after := Rest(t.dims[last..], t.element), Rest(t.dims[last + 1..], t.element);
      assert t.dims[last..][1..] == t.dims[last + 1..];
      RestSize(t.dims[last..], t.element);
      RestSize(t.dims[last + 1..], t.element);
      Horner(RowMajor(t.dims, init), t.dims[last].count, x - t.dims[last].low, SizeOf(after));
      WalkOne(before, Sub(x));
    }
  }

  lemma WalkOne(t: Type, step: Step)
    ensures Walk(t, [step]) == Select(t, step)
  {
    assert [step][1..] == [];
  }

  /** `a[i, j]` and `a[i][j]` are the same storage, at the same address. */
  lemma IndexComposes(t: Type, a: seq<int>, b: seq<int>)
    requires t.Array? && t.dims != [] && |a| + |b| <= |t.dims| && |a| < |t.dims|
    ensures var whole, first := Selected(t, a + b).value, Selected(t, a).value;
            var second := Selected(first.typ, b).value;
            whole == Place(first.offset + second.offset, second.typ)
  {
    IndexIsWalk(t, a + b);
    IndexIsWalk(t, a);
    SubsAppend(a, b);
    WalkAppend(t, Subs(a), Subs(b));
    IndexIsWalk(Selected(t, a).value.typ, b);
  }

  // ------------------------------------------------------------------ extents

  predicate Inside(p: Place, size: nat) {
    0 <= p.offset && p.offset + SizeOf(p.typ) <= size
  }

  predicate Disjoint(p: Place, q: Place) {
    p.offset + SizeOf(p.typ) <= q.offset || q.offset + SizeOf(q.typ) <= p.offset
  }

  lemma SelectInside(t: Type, step: Step)
    requires WellFormed(t) && StepInRange(t, step) && Select(t, step).Some?
    ensures Inside(Select(t, step).value, SizeOf(t)) && WellFormed(Select(t, step).value.typ)
  {
    match step
    case Sub(i) =>
      var rest := Rest(t.dims[1..], t.element);
      RestSize(t.dims[1..], t.element);
      SlotBound(i - t.dims[0].low, t.dims[0].count, SizeOf(rest));
    case Member(name) =>
      var i := FindFieldMeans(t.fields, name);
  }

  lemma SlotBound(k: int, n: int, s: nat)
    requires 0 <= k < n
    ensures 0 <= k * s && k * s + s <= n * s
  {
    Times(n - k - 1, s);
    Times(k, s);
    Split(n - k - 1, k, s);
  }

  lemma SlotsApart(k: int, j: int, s: nat)
    requires k < j
    ensures k * s + s <= j * s
  {
    Times(j - k - 1, s);
    Split(j - k - 1, k, s);
  }

  /** In-range selection stays inside the object, at any depth. */
  lemma {:induction false} WalkInside(t: Type, path: seq<Step>)
    requires WellFormed(t) && PathInRange(t, path) && Walk(t, path).Some?
    ensures Inside(Walk(t, path).value, SizeOf(t)) && WellFormed(Walk(t, path).value.typ)
    decreases path
  {
    if path != [] {
      SelectInside(t, path[0]);
      WalkInside(Select(t, path[0]).value.typ, path[1..]);
    }
  }

  lemma StepsApart(t: Type, a: Step, b: Step)
    requires WellFormed(t) && a != b && Select(t, a).Some? && Select(t, b).Some?
    ensures Disjoint(Select(t, a).value, Select(t, b).value)
  {
    if t.Array? {
      var s := SizeOf(Rest(t.dims[1..], t.element));
      var i, j := a.index - t.dims[0].low, b.index - t.dims[0].low;
      if i < j { SlotsApart(i, j, s); } else { SlotsApart(j, i, s); }
    } else {
      var i := FindFieldMeans(t.fields, a.name);
      var j := FindFieldMeans(t.fields, b.name);
    }
  }

  predicate Prefix(p: seq<Step>, q: seq<Step>) {
    |p| <= |q| && p == q[..|p|]
  }

  lemma PrefixTail(p: seq<Step>, q: seq<Step>)
    requires p != [] && q != [] && p[0] == q[0]
    ensures Prefix(p, q) <==> Prefix(p[1..], q[1..])
  {
    if |p| <= |q| {
      assert p == [p[0]] + p[1..];
      assert q[..|p|] == [q[0]] + q[1..][..|p| - 1];
    }
  }

  /**
   * Two selections into one object either lie along one path, and then the longer is inside the
   * shorter, or they share no byte.
   */
  lemma {:induction false} PathsApart(t: Type, p: seq<Step>, q: seq<Step>)
    requires WellFormed(t) && PathInRange(t, p) && PathInRange(t, q)
    requires Walk(t, p).Some? && Walk(t, q).Some? && !Prefix(p, q) && !Prefix(q, p)
    ensures Disjoint(Walk(t, p).value, Walk(t, q).value)
    decreases p
  {
    var a, b := Select(t, p[0]).value, Select(t, q[0]).value;
    SelectInside(t, p[0]);
    SelectInside(t, q[0]);
    if p[0] == q[0] {
      PrefixTail(p, q);
      PrefixTail(q, p);
      PathsApart(a.typ, p[1..], q[1..]);
    } else {
      StepsApart(t, p[0], q[0]);
      WalkInside(a.typ, p[1..]);
      WalkInside(b.typ, q[1..]);
    }
  }

  lemma PrefixContains(t: Type, p: seq<Step>, q: seq<Step>)
    requires WellFormed(t) && PathInRange(t, q) && Prefix(p, q) && Walk(t, q).Some?
    ensures Walk(t, p).Some?
    ensures var outer, inner := Walk(t, p).value, Walk(t, q).value;
            outer.offset <= inner.offset && inner.offset + SizeOf(inner.typ) <= outer.offset + SizeOf(outer.typ)
  {
    var rest := q[|p|..];
    assert q == p + rest;
    WalkAppend(t, p, rest);
    RangeSplits(t, p, rest);
    WalkInside(Walk(t, p).value.typ, rest);
  }

  lemma {:induction false} RangeSplits(t: Type, p: seq<Step>, q: seq<Step>)
    requires WellFormed(t) && PathInRange(t, p + q) && Walk(t, p).Some?
    ensures PathInRange(t, p) && PathInRange(Walk(t, p).value.typ, q) && WellFormed(Walk(t, p).value.typ)
    decreases p
  {
    if p == [] {
      assert p + q == q;
    } else {
      assert (p + q)[0] == p[0] && (p + q)[1..] == p[1..] + q;
      SelectInside(t, p[0]);
      RangeSplits(Select(t, p[0]).value.typ, p[1..], q);
    }
  }

  /** Distinct in-range index tuples of one length address disjoint storage inside the array. */
  lemma IndexTuplesApart(t: Type, a: seq<int>, b: seq<int>)
    requires WellFormed(t) && t.Array? && |a| == |b|
    requires IndicesInRange(t.dims, a) && IndicesInRange(t.dims, b) && a != b
    ensures var p, q := Selected(t, a).value, Selected(t, b).value;
            Inside(p, SizeOf(t)) && Inside(q, SizeOf(t)) && Disjoint(p, q)
  {
    RowMajorNumbers(t.dims, a, b);
    RowMajorNumbers(t.dims, b, a);
    var k := |a|;
    var rest := Rest(t.dims[k..], t.element);
    var s := SizeOf(rest);
    RestSize(t.dims[k..], t.element);
    SizeSplits(t.dims, k, SizeOf(t.element));
    var x, y := RowMajor(t.dims, a), RowMajor(t.dims, b);
    SlotBound(x, Count(t.dims[..k]), s);
    SlotBound(y, Count(t.dims[..k]), s);
    if x < y { SlotsApart(x, y, s); } else { SlotsApart(y, x, s); }
  }

  lemma {:induction false} SizeSplits(dims: seq<Dim>, k: nat, element: nat)
    requires k <= |dims|
    ensures DimsSize(dims, element) == Count(dims[..k]) * DimsSize(dims[k..], element)
  {
    if k == 0 {
      assert dims[..0] == [] && dims[0..] == dims;
    } else {
      SizeSplits(dims[1..], k - 1, element);
      assert dims[..k][1..] == dims[1..][..k - 1];
      assert dims[k..] == dims[1..][k - 1..];
      Associate(dims[0].count, Count(dims[1..][..k - 1]), DimsSize(dims[k..], element));
    }
  }

  // ------------------------------------------------------------------ scalars behind packed aggregates

  predicate Aggregate(t: Type) {
    !t.Scalar?
  }

  function Members(names: seq<nat>): seq<Step> {
    if names == [] then [] else [Member(names[0])] + Members(names[1..])
  }

  lemma {:induction false} MembersAppend(names: seq<nat>, name: nat)
    ensures Members(names + [name]) == Members(names) + [Member(name)]
  {
    if names == [] {
      assert names + [name] == [name];
      assert Members([name]) == [Member(name)] + Members([name][1..]);
    } else {
      assert (names + [name])[1..] == names[1..] + [name];
      MembersAppend(names[1..], name);
    }
  }

  /** Some step of the chain enters an aggregate that is a field of a packed record. */
  predicate CrossesPacked(t: Type, names: seq<nat>)
    decreases names
  {
    && names != []
    && Select(t, Member(names[0])).Some?
    && var next := Select(t, Member(names[0])).value.typ;
       (t.Record? && t.packed && Aggregate(next)) || CrossesPacked(next, names[1..])
  }

  lemma {:induction false} CrossesAppend(t: Type, names: seq<nat>, name: nat)
    requires Walk(t, Members(names)).Some?
    ensures var here := Walk(t, Members(names)).value.typ;
            CrossesPacked(t, names + [name]) <==>
            CrossesPacked(t, names) || CrossesPacked(here, [name])
    decreases names
  {
    if names == [] {
      assert names + [name] == [name];
    } else {
      assert (names + [name])[0] == names[0] && (names + [name])[1..] == names[1..] + [name];
      CrossesAppend(Select(t, Member(names[0])).value.typ, names[1..], name);
    }
  }

  /** A scalar behind a packed aggregate is loaded at the sum of the field offsets along its member chain. */
  method PackedScalarLoad(t: Type, names: seq<nat>) returns (r: Option<Place>)
    ensures r == if names != [] && Walk(t, Members(names)).Some? && CrossesPacked(t, names)
                    && Walk(t, Members(names)).value.typ.Scalar?
                 then Walk(t, Members(names)) else None
  {
    if names == [] { return None; }
    var current := t;
    var crossed := false;
    var offset := 0;
    for i := 0 to |names|
      invariant Walk(t, Members(names[..i])) == Some(Place(offset, current))
      invariant crossed <==> CrossesPacked(t, names[..i])
    {
      var field := Select(current, Member(names[i]));
      assert names[..i + 1] == names[..i] + [names[i]];
      MembersAppend(names[..i], names[i]);
      WalkAppend(t, Members(names[..i]), [Member(names[i])]);
      WalkOne(current, Member(names[i]));
      CrossesAppend(t, names[..i], names[i]);
      if field.None? {
        NoWalk(t, names, i + 1);
        return None;
      }
      assert CrossesPacked(current, [names[i]]) <==> current.Record? && current.packed && Aggregate(field.value.typ);
      if current.Record? && current.packed && Aggregate(field.value.typ) { crossed := true; }
      offset := offset + field.value.offset;
      current := field.value.typ;
    }
    assert names[..|names|] == names;
    if !crossed || Aggregate(current) { return None; }
    return Some(Place(offset, current));
  }

  lemma NoWalk(t: Type, names: seq<nat>, i: nat)
    requires i <= |names| && Walk(t, Members(names[..i])).None?
    ensures Walk(t, Members(names)).None?
  {
    MembersSplit(names, i);
    WalkAppend(t, Members(names[..i]), Members(names[i..]));
  }

  lemma {:induction false} MembersSplit(names: seq<nat>, i: nat)
    requires i <= |names|
    ensures Members(names) == Members(names[..i]) + Members(names[i..])
  {
    if i == 0 {
      assert names[..0] == [] && names[0..] == names;
    } else {
      MembersSplit(names[1..], i - 1);
      assert names[..i][1..] == names[1..][..i - 1];
      assert names[i..] == names[1..][i - 1..];
    }
  }

  /** Member `j` of the chain is a record or an array, and the record it is a field of is packed. */
  predicate EntersPacked(t: Type, names: seq<nat>, j: nat) {
    && j < |names|
    && Walk(t, Members(names[..j])).Some? && Walk(t, Members(names[..j + 1])).Some?
    && var outer, inner := Walk(t, Members(names[..j])).value.typ, Walk(t, Members(names[..j + 1])).value.typ;
       outer.Record? && outer.packed && (inner.Record? || inner.Array?)
  }

  /** A chain counts as behind a packed aggregate exactly if some member of it is one inside a packed record. */
  lemma {:induction false} CrossesPackedMeans(t: Type, names: seq<nat>)
    requires Walk(t, Members(names)).Some?
    ensures CrossesPacked(t, names) <==> exists j: nat :: EntersPacked(t, names, j)
    decreases |names|
  {
    hide Walk, CrossesPacked, EntersPacked;
    if names == [] {
      NothingEntered(t);
    } else {
      var n := |names| - 1;
      var init := names[..n];
      LastEnters(t, names);
      CrossesPackedMeans(t, init);
      forall j: nat ensures j != n ==> (EntersPacked(t, names, j) <==> EntersPacked(t, init, j)) {
        if j != n { EarlierEnters(t, names, j); }
      }
      EntersInside(t, init);
    }
  }

  lemma EntersInside(t: Type, names: seq<nat>)
    ensures forall j: nat :: EntersPacked(t, names, j) ==> j < |names|
  {
  }

  lemma NothingEntered(t: Type)
    ensures !CrossesPacked(t, [])
    ensures forall j: nat :: !EntersPacked(t, [], j)
  {
  }

  lemma EarlierEnters(t: Type, names: seq<nat>, j: nat)
    requires names != [] && j != |names| - 1
    ensures EntersPacked(t, names, j) <==> EntersPacked(t, names[..|names| - 1], j)
  {
    var init := names[..|names| - 1];
    if j < |init| { assert names[..j] == init[..j] && names[..j + 1] == init[..j + 1]; }
  }

  lemma LastEnters(t: Type, names: seq<nat>)
    requires names != [] && Walk(t, Members(names)).Some?
    ensures var init := names[..|names| - 1];
            && Walk(t, Members(init)).Some?
            && (CrossesPacked(t, names) <==> CrossesPacked(t, init) || EntersPacked(t, names, |names| - 1))
  {
    var n := |names| - 1;
    var init := names[..n];
    assert names == init + [names[n]] && names[..n + 1] == names;
    MembersAppend(init, names[n]);
    WalkAppend(t, Members(init), [Member(names[n])]);
    CrossesAppend(t, init, names[n]);
    WalkOne(Walk(t, Members(init)).value.typ, Member(names[n]));
    assert [names[n]][1..] == [];
  }
}
