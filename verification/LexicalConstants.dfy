/**
  Where an initializer's names are looked up. The folder unfolds an initializer in the scope of use; Pascal
  means the scope of its declaration. They agree where no initializer's name is declared again nearer.
 */
module LexicalConstants {
  import opened Wrappers
  import opened ConstInts
  import opened ConstExprs
  import opened NamedConstants

  /** Level 0 holds the local constants that have a value, level `k + 1` frame `k`. */
  predicate DeclaredAt(s: Scope, level: nat, name: string) {
    if level == 0 then name in s.locals && s.locals[name].initializer.Some?
    else level <= |s.frames| && name in s.frames[level - 1]
  }

  function DeclAt(s: Scope, level: nat, name: string): ConstDecl
    requires DeclaredAt(s, level, name)
  {
    if level == 0 then s.locals[name] else s.frames[level - 1][name]
  }

  /** The nearest level from `level` outward that declares the name. */
  function FindFrom(s: Scope, level: nat, name: string): (found: Option<nat>)
    ensures found.Some? ==> level <= found.value && DeclaredAt(s, found.value, name)
    ensures found.Some? ==> forall k :: level <= k < found.value ==> !DeclaredAt(s, k, name)
    ensures found.None? ==> forall k :: level <= k ==> !DeclaredAt(s, k, name)
    decreases |s.frames| + 1 - level
  {
    if level > |s.frames| then None
    else if DeclaredAt(s, level, name) then Some(level)
    else FindFrom(s, level + 1, name)
  }

  function BodyAt(s: Scope, level: nat, name: string): Option<Expr>
    requires DeclaredAt(s, level, name)
  {
    var decl := DeclAt(s, level, name);
    if decl.typed then None else decl.initializer
  }

  lemma {:induction false} FramesFromLevel(s: Scope, level: nat, name: string)
    requires 0 < level <= |s.frames| + 1
    ensures var found := FindFrom(s, level, name);
            FindInFrames(s.frames[level - 1..], name) ==
            if found.Some? then Some(DeclAt(s, found.value, name)) else None
    decreases |s.frames| + 1 - level
  {
    if level <= |s.frames| {
      assert s.frames[level - 1..][1..] == s.frames[level..];
      FramesFromLevel(s, level + 1, name);
    }
  }

  /** The folder's lookup is the search from level 0. */
  lemma LookupIsFind(s: Scope, name: string)
    ensures var found := FindFrom(s, 0, name);
            Body(s, name) == if found.Some? then BodyAt(s, found.value, name) else None
  {
    assert s.frames[0..] == s.frames;
    FramesFromLevel(s, 1, name);
  }

  /** Evaluation as Pascal means it: an initializer's names are looked up from the level of its declaration. */
  function LexicalEval(p: Program, s: Scope, level: nat, e: Expr, d: nat): Folded
    decreases d, 1, e
  {
    match e
    case Literal(n) => Folded(Some(FromLiteral(n)), false)
    case Ordinal(value) => Folded(Some(FromValue(value)), false)
    case Plus(a) => LexicalEval(p, s, level, a, d)
    case Negate(a) => ApplyNegate(LexicalEval(p, s, level, a, d))
    case Complement(a) => Folded(None, LexicalEval(p, s, level, a, d).overflow)
    case Binary(op, l, r) => Combine(op, LexicalEval(p, s, level, l, d), LexicalEval(p, s, level, r, d))
    case Cast(target, a) => ApplyCast(target, LexicalEval(p, s, level, a, d))
    case Variable(_, _) => Folded(None, false)
    case Name(name) =>
      if d == 0 then Folded(None, false)
      else if name in s.members then FromOrdinal(OrdinalAt(p, s.members[name].owner, s.members[name].index, d - 1))
      else
        var found := FindFrom(s, level, name);
        if found.None? || BodyAt(s, found.value, name).None? then Folded(None, false)
        else LexicalEval(p, s, found.value, BodyAt(s, found.value, name).value, d - 1)
  }

  /** No constant that the expression names is declared nearer than `level`. */
  ghost predicate Settled(s: Scope, level: nat, e: Expr) {
    forall name, k: nat :: Mentions(e, name) && name !in s.members && k < level ==> !DeclaredAt(s, k, name)
  }

  /** No name in the initializer of a visible constant is declared again between the use and that constant. */
  ghost predicate NothingCaptured(s: Scope) {
    forall name :: NotCaptured(s, name)
  }

  ghost predicate NotCaptured(s: Scope, name: string) {
    var found := FindFrom(s, 0, name);
    found.Some? && BodyAt(s, found.value, name).Some? ==> Settled(s, found.value, BodyAt(s, found.value, name).value)
  }

  /** Then the folder's value of any expression is the one Pascal means. */
  lemma {:induction false} FoldingIsLexical(p: Program, s: Scope, level: nat, e: Expr, d: nat)
    requires NothingCaptured(s) && Settled(s, level, e)
    ensures Eval(p, s, e, d) == LexicalEval(p, s, level, e, d)
    decreases d, e
  {
    hide NothingCaptured, FindFrom, FoldBinary, FoldNegate, FromLiteral, FromValue, Body;
    match e
    case Plus(a) => FoldingIsLexical(p, s, level, a, d);
    case Negate(a) => FoldingIsLexical(p, s, level, a, d);
    case Complement(a) => FoldingIsLexical(p, s, level, a, d);
    case Cast(_, a) => FoldingIsLexical(p, s, level, a, d);
    case Binary(_, l, r) =>
      FoldingIsLexical(p, s, level, l, d);
      FoldingIsLexical(p, s, level, r, d);
    case Name(name) =>
      if d > 0 && name !in s.members {
        LookupIsFind(s, name);
        SameFindIff(s, level, name);
        var found := FindFrom(s, 0, name);
        if found.Some? && BodyAt(s, found.value, name).Some? {
          Captures(s, name);
          FoldingIsLexical(p, s, found.value, BodyAt(s, found.value, name).value, d - 1);
        }
      }
    case _ =>
  }

  lemma Captures(s: Scope, name: string)
    requires NothingCaptured(s)
    ensures NotCaptured(s, name)
  {
  }

  /** A name is found where Pascal means it exactly if nothing nearer declares it again. */
  lemma SameFindIff(s: Scope, level: nat, name: string)
    ensures FindFrom(s, 0, name) == FindFrom(s, level, name) <==> forall k: nat :: k < level ==> !DeclaredAt(s, k, name)
  {
    var near, far := FindFrom(s, 0, name), FindFrom(s, level, name);
    if forall k: nat :: k < level ==> !DeclaredAt(s, k, name) {
      if near.Some? && far.Some? { assert !(near.value < far.value) && !(far.value < near.value); }
    } else {
      var k: nat :| k < level && DeclaredAt(s, k, name);
      assert near.Some? && near.value <= k;
    }
  }

  /** `const A = 1; B = A + 1` in a unit, seen from a routine that declares `A = 10`. */
  function Redeclared(a: string, b: string): Scope {
    Scope(map[], map[a := ConstDecl(false, Some(Literal(10)))],
          [map[a := ConstDecl(false, Some(Literal(1))), b := ConstDecl(false, Some(Successor(a)))]])
  }

  function Successor(a: string): Expr {
    Binary(Add, Name(a), Literal(1))
  }

  lemma RedeclaredLevels(a: string, b: string)
    requires a != b
    ensures var s := Redeclared(a, b);
            && FindFrom(s, 0, b) == Some(1) && BodyAt(s, 1, b) == Some(Successor(a))
            && FindFrom(s, 0, a) == Some(0) && BodyAt(s, 0, a) == Some(Literal(10))
            && FindFrom(s, 1, a) == Some(1) && BodyAt(s, 1, a) == Some(Literal(1))
            && s.members == map[]
  {
  }

  /** There the folder takes `B` for 11; Pascal means 2. */
  lemma CapturedName(a: string, b: string)
    requires a != b
    ensures Eval(map[], Redeclared(a, b), Name(b), 2).result == Some(FromLiteral(11))
    ensures LexicalEval(map[], Redeclared(a, b), 0, Name(b), 2).result == Some(FromLiteral(2))
    ensures !NothingCaptured(Redeclared(a, b))
  {
    FolderSeesNearest(a, b);
    LexicalSeesOwn(a, b);
    RedeclaredLevels(a, b);
    var s := Redeclared(a, b);
    hide Redeclared, Eval, LexicalEval;
    assert Mentions(Successor(a), a) && DeclaredAt(s, 0, a);
    assert !NotCaptured(s, b);
  }

  lemma FolderSeesNearest(a: string, b: string)
    requires a != b
    ensures Eval(map[], Redeclared(a, b), Name(b), 2).result == Some(FromLiteral(11))
  {
    var s := Redeclared(a, b);
    RedeclaredLevels(a, b);
    LookupIsFind(s, a);
    LookupIsFind(s, b);
    Sums(10);
    hide FoldBinary, FromLiteral, Body, FindFrom, Redeclared, BodyAt;
    assert Eval(map[], s, Name(a), 1) == Folded(Some(FromLiteral(10)), false);
    assert Eval(map[], s, Name(b), 2) == Eval(map[], s, Successor(a), 1);
  }

  lemma LexicalSeesOwn(a: string, b: string)
    requires a != b
    ensures LexicalEval(map[], Redeclared(a, b), 0, Name(b), 2).result == Some(FromLiteral(2))
  {
    var s := Redeclared(a, b);
    RedeclaredLevels(a, b);
    Sums(1);
    hide FoldBinary, FromLiteral, FindFrom, Redeclared, BodyAt;
    assert LexicalEval(map[], s, 1, Name(a), 1) == Folded(Some(FromLiteral(1)), false);
    assert LexicalEval(map[], s, 0, Name(b), 2) == LexicalEval(map[], s, 1, Successor(a), 1);
  }

  lemma Sums(n: nat)
    requires n < 100
    ensures FoldBinary(Add, FromLiteral(n), FromLiteral(1)) == Folded(Some(FromLiteral(n + 1)), false)
  {
    FromLiteralOk(n);
    FromLiteralOk(1);
    OperandIsMeaning(FromLiteral(n));
    OperandIsMeaning(FromLiteral(1));
    OperandMagnitude(FromLiteral(n));
    OperandMagnitude(FromLiteral(1));
  }
}
