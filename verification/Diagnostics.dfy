/** What the translator reports: a raise without an object that stands in no handler. */
module Diagnostics {
  import opened Wrappers
  import opened Pascal
  import opened Cxx
  import opened Lowering

  /** How many times a statement raises again outside every handler and else part of its own. */
  function Stray(s: Stmt): nat
    decreases s, 1
  {
    match s
    case Reraise => 1
    case Compound(stmts) => StraySeq(stmts)
    case If(_, thn, els) => Stray(thn) + StrayElse(els)
    case While(_, body) => Stray(body)
    case Repeat(stmts, _) => StraySeq(stmts)
    case For(_, _, _, _, _, body) => Stray(body)
    case ForInSet(_, _, _, _, _, body) => Stray(body)
    case Case(_, arms, els) => StrayArms(arms) + StrayElse(els)
    case TryFinally(stmts, fin) => StraySeq(fin) + StraySeq(stmts)
    case TryExcept(stmts, _, _) => StraySeq(stmts)
    case _ => 0
  }

  function StraySeq(ss: seq<Stmt>): nat
    decreases ss, 0
  {
    if ss == [] then 0 else Stray(ss[0]) + StraySeq(ss[1..])
  }

  function StrayElse(els: Option<Stmt>): nat
    decreases els, 0
  {
    if els.Some? then Stray(els.value) else 0
  }

  function StrayArms(arms: seq<Arm>): nat
    decreases arms, 0
  {
    if arms == [] then 0 else Stray(arms[0].body) + StrayArms(arms[1..])
  }

  /** What a part of a statement adds to the reports when it stands inside `depth` handlers. */
  predicate Reports(before: Counters, after: Counters, depth: nat, stray: nat) {
    after.errors == before.errors + if depth == 0 then stray else 0
  }

  /** Inside a handler nothing is reported; outside every such raise is, once, and nothing else. */
  lemma {:induction false} LowerReports(s: Stmt, c: Context, n: Counters)
    ensures Reports(n, Lower(s, c, n).n, c.handlers, Stray(s))
    decreases s, 1
  {
    match s
    case Compound(stmts) => SeqReports(stmts, c, n);
    case If(_, thn, els) =>
      LowerReports(thn, c, n);
      ElseReports(els, c, Lower(thn, c, n).n);
    case While(_, body) => LowerReports(body, c.Loop(n.loops + 1), n.(loops := n.loops + 1));
    case Repeat(stmts, _) => SeqReports(stmts, c.Loop(n.loops + 1), n.(loops := n.loops + 1));
    case For(_, _, _, _, _, body) => LowerReports(body, c.Loop(n.loops + 1), n.(loops := n.loops + 1));
    case ForInSet(_, _, _, _, _, body) => LowerReports(body, c.Loop(n.loops + 1), n.(loops := n.loops + 1));
    case Case(_, _, _) => CaseReports(s, c, n);
    case TryFinally(stmts, fin) =>
      SeqReports(fin, c, n.(tries := n.tries + 1));
      SeqReports(stmts, c, LowerSeq(fin, c, n.(tries := n.tries + 1)).n);
    case TryExcept(_, _, _) => ExceptReports(s, c, n);
    case _ =>
  }

  lemma {:induction false} CaseReports(s: Stmt, c: Context, n: Counters)
    requires s.Case?
    ensures Reports(n, Lower(s, c, n).n, c.handlers, Stray(s))
    decreases s, 0
  {
    var c' := c.(scope := c.scope + {FreshName(CaseName(n.cases + 1), c.scope)});
    ArmsReport(s.arms, c', n.(cases := n.cases + 1));
    ElseReports(s.els, c', LowerArms(s.arms, c', n.(cases := n.cases + 1)).1);
  }

  lemma {:induction false} ExceptReports(s: Stmt, c: Context, n: Counters)
    requires s.TryExcept?
    ensures Reports(n, Lower(s, c, n).n, c.handlers, Stray(s))
    decreases s, 0
  {
    var n1, inner := LowerSeq(s.stmts, c, n.(tries := n.tries + 1)).n, c.Handler(None);
    SeqReports(s.stmts, c, n.(tries := n.tries + 1));
    ExceptCounters(s, c, n);
    assert Stray(s) == StraySeq(s.stmts);
    if s.handlers == [] {
      ElseReports(s.els, inner, n1);
    } else {
      HandlersReport(s.handlers, c, n1);
      var n2 := LowerHandlers(s.handlers, c, n1).1;
      ElseReports(s.els, inner, n2);
      ElseReports(s.els, inner, LowerElse(s.els, inner, n2).n);
    }
    hide Lower, LowerSeq, LowerElse, LowerHandlers, Stray, StraySeq, StrayElse;
  }

  /** The counters behind a try statement with handlers: its parts in the order they are emitted. */
  lemma ExceptCounters(s: Stmt, c: Context, n: Counters)
    requires s.TryExcept?
    ensures var n1, inner := LowerSeq(s.stmts, c, n.(tries := n.tries + 1)).n, c.Handler(None);
            var n2 := LowerHandlers(s.handlers, c, n1).1;
            Lower(s, c, n).n ==
            if s.handlers == [] then LowerElse(s.els, inner, n1).n
            else if s.els.None? then n2
            else LowerElse(s.els, inner, LowerElse(s.els, inner, n2).n).n
  {
  }

  lemma {:induction false} SeqReports(ss: seq<Stmt>, c: Context, n: Counters)
    ensures Reports(n, LowerSeq(ss, c, n).n, c.handlers, StraySeq(ss))
    decreases ss, 0
  {
    if ss != [] {
      LowerReports(ss[0], c, n);
      SeqReports(ss[1..], c, Lower(ss[0], c, n).n);
    }
  }

  lemma {:induction false} ElseReports(els: Option<Stmt>, c: Context, n: Counters)
    ensures Reports(n, LowerElse(els, c, n).n, c.handlers, StrayElse(els))
    decreases els, 0
  {
    if els.Some? { LowerReports(els.value, c, n); }
  }

  lemma {:induction false} ArmsReport(arms: seq<Arm>, c: Context, n: Counters)
    ensures Reports(n, LowerArms(arms, c, n).1, c.handlers, StrayArms(arms))
    decreases arms, 0
  {
    if arms != [] {
      LowerReports(arms[0].body, c, n);
      ArmsReport(arms[1..], c, Lower(arms[0].body, c, n).n);
    }
  }

  lemma {:induction false} HandlersReport(hs: seq<Handler>, c: Context, n: Counters)
    ensures LowerHandlers(hs, c, n).1.errors == n.errors
    decreases hs, 0
  {
    if hs != [] {
      var first := hs[0];
      assert (hs decreases to first);
      assert (first decreases to first.body);
      LowerReports(first.body, c.Handler(first.binder), n);
      HandlersReport(hs[1..], c, Lower(first.body, c.Handler(first.binder), n).n);
    }
  }

  /** A routine is translated without a report if and only if every raise without an object stands in a handler. */
  lemma CleanIffNoStrayRaise(s: Stmt, scope: set<string>)
    ensures Lower(s, Context([], 0, scope), Counters(0, 0, 0, 0)).n.errors == 0 <==> Stray(s) == 0
  {
    LowerReports(s, Context([], 0, scope), Counters(0, 0, 0, 0));
  }
}
