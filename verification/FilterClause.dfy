/** The soft-delete query rewriter: removes "deleted_at IS NULL" from a WHERE tree. */
module FilterClause {
  // ----- condition trees -----

  /** AND and OR, and the other operators that take any number of arguments. */
  datatype NaryOp = And | Or | OtherNary(name: string)

  datatype UnaryOp = Not | Noop | OtherUnary(name: string)

  /** Sequel's expressions: complex expressions by arity, any other node with arguments, and
      leaves. The arities are the ones ComplexExpression checks when it is built. */
  datatype Expr =
    | Nil
    | Sym(name: string)
    | Lit(value: int)
    | Nary(nop: NaryOp, args: seq<Expr>)
    | Binary(bop: string, left: Expr, right: Expr)
    | Unary(uop: UnaryOp, arg: Expr)
    | Other(kind: string, parts: seq<Expr>)

  const TARGET := Binary("IS", Sym("deleted_at"), Nil)
  const TRUE := Unary(Noop, Lit(1))
  const FALSE := Unary(Not, Lit(1))

  // ----- the transformer -----

  function Reject(args: seq<Expr>): (r: seq<Expr>)
    ensures |r| <= |args|
    ensures forall i :: 0 <= i < |r| ==> r[i] in args && r[i] != TARGET
  {
    if args == [] then []
    else (if args[0] == TARGET then [] else [args[0]]) + Reject(args[1..])
  }

  /** The inherited transformation: rebuild the node, transforming its arguments. */
  function Super(e: Expr): Expr
    decreases e, 0
  {
    match e
    case Nary(op, args) => Nary(op, seq(|args|, i requires 0 <= i < |args| => V(args[i])))
    case Binary(op, l, r) => Binary(op, V(l), V(r))
    case Unary(op, a) => Unary(op, V(a))
    case Other(kind, parts) => Other(kind, seq(|parts|, i requires 0 <= i < |parts| => V(parts[i])))
    case _ => e
  }

  function V(e: Expr): Expr
    decreases e, 1
  {
    if e == TARGET then TRUE
    else
      match e
      case Nary(op, args) =>
        var kept := Reject(args);
        if |args| > 0 && kept == [] then TRUE
        else Nary(op, seq(|kept|, i requires 0 <= i < |kept| => assert kept[i] in args; V(kept[i])))
      case Binary(op, l, r) =>
        if l == TARGET && r == TARGET then Nil
        else if l == TARGET then Super(r)
        else if r == TARGET then Super(l)
        else Super(e)
      case Unary(op, a) => if a == TARGET then TRUE else Super(e)
      case _ => Super(e)
  }

  // ----- trees without a target -----

  predicate TargetFree(e: Expr) {
    e != TARGET
    && match e
       case Nary(_, args) => forall i :: 0 <= i < |args| ==> TargetFree(args[i])
       case Binary(_, l, r) => TargetFree(l) && TargetFree(r)
       case Unary(_, a) => TargetFree(a)
       case Other(_, parts) => forall i :: 0 <= i < |parts| ==> TargetFree(parts[i])
       case _ => true
  }

  lemma {:induction false} RejectNothing(args: seq<Expr>)
    requires forall i :: 0 <= i < |args| ==> args[i] != TARGET
    ensures Reject(args) == args
  {
    if args != [] {
      RejectNothing(args[1..]);
    }
  }

  /** A tree without a target comes back as it is. */
  lemma {:induction false} TargetFreeIsKept(e: Expr)
    requires TargetFree(e)
    ensures V(e) == e && Super(e) == e
  {
    match e
    case Nary(_, args) =>
      RejectNothing(args);
      forall i | 0 <= i < |args| ensures V(args[i]) == args[i] {
        TargetFreeIsKept(args[i]);
      }
    case Binary(_, l, r) =>
      TargetFreeIsKept(l);
      TargetFreeIsKept(r);
    case Unary(_, a) =>
      TargetFreeIsKept(a);
    case Other(_, parts) =>
      forall i | 0 <= i < |parts| ensures V(parts[i]) == parts[i] {
        TargetFreeIsKept(parts[i]);
      }
    case _ =>
  }

  // ----- SQL truth -----

  datatype Truth = T | F | U

  function AndT(a: Truth, b: Truth): Truth {
    if a == F || b == F then F else if a == T && b == T then T else U
  }

  function OrT(a: Truth, b: Truth): Truth {
    if a == T || b == T then T else if a == F && b == F then F else U
  }

  function NotT(a: Truth): Truth {
    match a case T => F case F => T case U => U
  }

  /** Three-valued truth; a comparison or any other node has the truth the row gives it. */
  function Eval(e: Expr, row: Expr -> Truth): Truth {
    match e
    case Lit(v) => if v == 1 then T else row(e)
    case Nary(And, args) => EvalAll(args, row)
    case Nary(Or, args) => EvalAny(args, row)
    case Unary(Not, a) => NotT(Eval(a, row))
    case Unary(Noop, a) => Eval(a, row)
    case _ => row(e)
  }

  function EvalAll(args: seq<Expr>, row: Expr -> Truth): Truth {
    if args == [] then T else AndT(Eval(args[0], row), EvalAll(args[1..], row))
  }

  function EvalAny(args: seq<Expr>, row: Expr -> Truth): Truth {
    if args == [] then F else OrT(Eval(args[0], row), EvalAny(args[1..], row))
  }

  /** Every target node read as TRUE, the rest of the tree as it is. */
  function AsTrue(e: Expr): Expr {
    if e == TARGET then TRUE
    else
      match e
      case Nary(op, args) => Nary(op, seq(|args|, i requires 0 <= i < |args| => AsTrue(args[i])))
      case Binary(op, l, r) => Binary(op, AsTrue(l), AsTrue(r))
      case Unary(op, a) => Unary(op, AsTrue(a))
      case Other(kind, parts) => Other(kind, seq(|parts|, i requires 0 <= i < |parts| => AsTrue(parts[i])))
      case _ => e
  }

  /** Targets sit only under ANDs. */
  predicate UnderAnds(e: Expr) {
    || e == TARGET
    || TargetFree(e)
    || (e.Nary? && e.nop == And && forall i :: 0 <= i < |e.args| ==> UnderAnds(e.args[i]))
  }

  lemma {:induction false} TargetFreeAsTrue(e: Expr)
    requires TargetFree(e)
    ensures AsTrue(e) == e
  {
    match e
    case Nary(_, args) =>
      forall i | 0 <= i < |args| ensures AsTrue(args[i]) == args[i] {
        TargetFreeAsTrue(args[i]);
      }
    case Binary(_, l, r) =>
      TargetFreeAsTrue(l);
      TargetFreeAsTrue(r);
    case Unary(_, a) =>
      TargetFreeAsTrue(a);
    case Other(_, parts) =>
      forall i | 0 <= i < |parts| ensures AsTrue(parts[i]) == parts[i] {
        TargetFreeAsTrue(parts[i]);
      }
    case _ =>
  }

  function MapV(args: seq<Expr>): seq<Expr> {
    seq(|args|, i requires 0 <= i < |args| => V(args[i]))
  }

  function MapAsTrue(args: seq<Expr>): seq<Expr> {
    seq(|args|, i requires 0 <= i < |args| => AsTrue(args[i]))
  }

  /** Every target read as what its place does not notice: TRUE under AND, FALSE under OR, and
      whatever makes the operator true where it has nothing but targets, NOT included. */
  function Neutral(e: Expr): Expr {
    if e == TARGET then TRUE
    else
      match e
      case Nary(op, args) =>
        var idle := if op == And || forall i :: 0 <= i < |args| ==> args[i] == TARGET then TRUE else FALSE;
        Nary(op, seq(|args|, i requires 0 <= i < |args| => if args[i] == TARGET then idle else Neutral(args[i])))
      case Unary(op, a) => Unary(op, if a == TARGET then (if op == Not then FALSE else TRUE) else Neutral(a))
      case _ => e
  }

  function MapNeutral(args: seq<Expr>, idle: Expr): seq<Expr> {
    seq(|args|, i requires 0 <= i < |args| => if args[i] == TARGET then idle else Neutral(args[i]))
  }

  lemma EvalFirst(e: Expr, rest: seq<Expr>, row: Expr -> Truth)
    ensures EvalAll([e] + rest, row) == AndT(Eval(e, row), EvalAll(rest, row))
    ensures EvalAny([e] + rest, row) == OrT(Eval(e, row), EvalAny(rest, row))
    ensures Eval(TRUE, row) == T && Eval(FALSE, row) == F
  {
    assert ([e] + rest)[1..] == rest;
    assert Eval(Lit(1), row) == T;
  }

  // Argument lists taken apart at the first argument.

  lemma FirstKept(args: seq<Expr>)
    requires args != []
    ensures MapV(Reject(args))
         == if args[0] == TARGET then MapV(Reject(args[1..])) else [V(args[0])] + MapV(Reject(args[1..]))
  {
    if args[0] == TARGET {
      assert Reject(args) == Reject(args[1..]);
    } else {
      MapFirst(args[0], Reject(args[1..]));
    }
  }

  lemma MapFirst(e: Expr, rest: seq<Expr>)
    ensures MapV([e] + rest) == [V(e)] + MapV(rest)
  {
    var all := [e] + rest;
    forall i | 0 <= i < |all| ensures MapV(all)[i] == ([V(e)] + MapV(rest))[i] {
      assert i > 0 ==> all[i] == rest[i - 1];
    }
  }

  lemma FirstAsTrue(args: seq<Expr>)
    requires args != []
    ensures MapAsTrue(args) == [AsTrue(args[0])] + MapAsTrue(args[1..])
  {
  }

  lemma FirstNeutral(args: seq<Expr>, idle: Expr)
    requires args != []
    ensures MapNeutral(args, idle)
         == [if args[0] == TARGET then idle else Neutral(args[0])] + MapNeutral(args[1..], idle)
  {
  }

  /** The rewritten tree has the truth of the original with its targets read as TRUE. */
  lemma {:induction false} RewriteKeepsMeaning(e: Expr, row: Expr -> Truth)
    requires UnderAnds(e)
    ensures Eval(V(e), row) == Eval(AsTrue(e), row)
    decreases e, 0
  {
    if TargetFree(e) {
      TargetFreeIsKept(e);
      TargetFreeAsTrue(e);
    } else if e != TARGET {
      RewriteKeepsConjunction(e.args, row);
      var kept := Reject(e.args);
      assert AsTrue(e) == Nary(And, MapAsTrue(e.args));
      if kept != [] {
        assert V(e) == Nary(And, MapV(kept));
      }
    }
  }

  lemma {:induction false} RewriteKeepsConjunction(args: seq<Expr>, row: Expr -> Truth)
    requires forall i :: 0 <= i < |args| ==> UnderAnds(args[i])
    ensures EvalAll(MapV(Reject(args)), row) == EvalAll(MapAsTrue(args), row)
    decreases args, 1
  {
    if args != [] {
      RewriteKeepsMeaning(args[0], row);
      RewriteKeepsConjunction(args[1..], row);
      FirstKept(args);
      FirstAsTrue(args);
      EvalFirst(AsTrue(args[0]), MapAsTrue(args[1..]), row);
      EvalFirst(V(args[0]), MapV(Reject(args[1..])), row);
    }
  }

  /** with_deleted: undoing the "alive" filter of a condition gives the condition back. */
  lemma WithDeletedRestores(p: Expr, row: Expr -> Truth)
    requires TargetFree(p)
    ensures Eval(V(Nary(And, [TARGET, p])), row) == Eval(p, row)
  {
    TargetFreeIsKept(p);
    assert [TARGET, p][1..] == [p] && Reject([p]) == [p];
    assert Reject([TARGET, p]) == [p];
    assert V(Nary(And, [TARGET, p])) == Nary(And, MapV([p])) && MapV([p]) == [p];
    assert EvalAll([p], row) == AndT(Eval(p, row), T);
  }

  // ----- outside conjunctions -----

  /** Targets sit only under ANDs, ORs and NOTs. */
  predicate Logical(e: Expr) {
    || e == TARGET
    || TargetFree(e)
    || (e.Nary? && !e.nop.OtherNary? && forall i :: 0 <= i < |e.args| ==> Logical(e.args[i]))
    || (e.Unary? && !e.uop.OtherUnary? && Logical(e.arg))
  }

  lemma {:induction false} TargetFreeNeutral(e: Expr)
    requires TargetFree(e)
    ensures Neutral(e) == e
  {
    match e
    case Nary(_, args) =>
      forall i | 0 <= i < |args| ensures args[i] != TARGET && Neutral(args[i]) == args[i] {
        TargetFreeNeutral(args[i]);
      }
    case Unary(_, a) =>
      TargetFreeNeutral(a);
    case _ =>
  }

  /** In every tree of ANDs, ORs and NOTs the rewrite has the truth of the original with its
      targets read as neutral. */
  lemma {:induction false} TargetsAreNeutral(e: Expr, row: Expr -> Truth)
    requires Logical(e)
    ensures Eval(V(e), row) == Eval(Neutral(e), row)
    decreases e, 0
  {
    if TargetFree(e) {
      TargetFreeIsKept(e);
      TargetFreeNeutral(e);
    } else if e.Unary? {
      if e.arg != TARGET {
        TargetsAreNeutral(e.arg, row);
      }
    } else if e != TARGET {
      var kept := Reject(e.args);
      RejectKeepsOthers(e.args);
      if kept == [] {
        assert forall i :: 0 <= i < |e.args| ==> e.args[i] in e.args;
        AllNeutral(e.args, row);
        assert Neutral(e) == Nary(e.nop, MapNeutral(e.args, TRUE));
      } else {
        var idle := if e.nop == And then TRUE else FALSE;
        assert kept[0] in e.args;
        assert Neutral(e) == Nary(e.nop, MapNeutral(e.args, idle));
        assert V(e) == Nary(e.nop, MapV(kept));
        ArgumentsAreNeutral(e.args, row);
      }
    }
  }

  lemma {:induction false} AllNeutral(args: seq<Expr>, row: Expr -> Truth)
    requires forall i :: 0 <= i < |args| ==> args[i] == TARGET
    ensures EvalAll(MapNeutral(args, TRUE), row) == T
    ensures args != [] ==> EvalAny(MapNeutral(args, TRUE), row) == T
  {
    if args != [] {
      AllNeutral(args[1..], row);
      FirstNeutral(args, TRUE);
      EvalFirst(TRUE, MapNeutral(args[1..], TRUE), row);
    }
  }

  lemma {:induction false} ArgumentsAreNeutral(args: seq<Expr>, row: Expr -> Truth)
    requires forall i :: 0 <= i < |args| ==> Logical(args[i])
    ensures EvalAll(MapV(Reject(args)), row) == EvalAll(MapNeutral(args, TRUE), row)
    ensures EvalAny(MapV(Reject(args)), row) == EvalAny(MapNeutral(args, FALSE), row)
    decreases args, 1
  {
    if args != [] {
      var first, rest := args[0], args[1..];
      TargetsAreNeutral(first, row);
      ArgumentsAreNeutral(rest, row);
      FirstKept(args);
      FirstNeutral(args, TRUE);
      FirstNeutral(args, FALSE);
      EvalFirst(V(first), MapV(Reject(rest)), row);
      EvalFirst(if first == TARGET then TRUE else Neutral(first), MapNeutral(rest, TRUE), row);
      EvalFirst(if first == TARGET then FALSE else Neutral(first), MapNeutral(rest, FALSE), row);
    }
  }

  /** Where a filter may stand for the rewrite to read it as TRUE: no OR mixes filters with other
      alternatives, and no NOT stands right above a filter. */
  predicate Placed(e: Expr) {
    || e == TARGET
    || TargetFree(e)
    || (e.Nary? && !e.nop.OtherNary?
        && (forall i :: 0 <= i < |e.args| ==> Placed(e.args[i]))
        && (e.nop == And || Unmixed(e.args)))
    || (e.Unary? && !e.uop.OtherUnary? && Placed(e.arg) && !(e.uop == Not && e.arg == TARGET))
  }

  predicate Unmixed(args: seq<Expr>) {
    (forall i :: 0 <= i < |args| ==> args[i] == TARGET) || (forall i :: 0 <= i < |args| ==> args[i] != TARGET)
  }

  /** In a tree of ANDs, ORs and NOTs the neutral reading is the reading as TRUE, filter by
      filter, exactly when every filter is placed so. */
  lemma {:induction false} NeutralIsTrueWherePlaced(e: Expr)
    requires Logical(e)
    ensures Neutral(e) == AsTrue(e) <==> Placed(e)
  {
    if TargetFree(e) {
      TargetFreeNeutral(e);
      TargetFreeAsTrue(e);
    } else if e.Nary? {
      forall i | 0 <= i < |e.args| ensures Neutral(e.args[i]) == AsTrue(e.args[i]) <==> Placed(e.args[i]) {
        NeutralIsTrueWherePlaced(e.args[i]);
      }
      NeutralArguments(e);
    } else if e.Unary? {
      NeutralIsTrueWherePlaced(e.arg);
    }
  }

  lemma NeutralArguments(e: Expr)
    requires e.Nary? && !e.nop.OtherNary?
    requires forall i :: 0 <= i < |e.args| ==> (Neutral(e.args[i]) == AsTrue(e.args[i]) <==> Placed(e.args[i]))
    ensures Neutral(e) == AsTrue(e)
       <==> (forall i :: 0 <= i < |e.args| ==> Placed(e.args[i])) && (e.nop == And || Unmixed(e.args))
  {
    var allTargets := forall i :: 0 <= i < |e.args| ==> e.args[i] == TARGET;
    var idle := if e.nop == And || allTargets then TRUE else FALSE;
    var neutral, asTrue := MapNeutral(e.args, idle), MapAsTrue(e.args);
    assert Neutral(e) == Nary(e.nop, neutral) && AsTrue(e) == Nary(e.nop, asTrue);
    if neutral == asTrue {
      forall i | 0 <= i < |e.args| ensures Placed(e.args[i]) && (e.args[i] == TARGET ==> idle == TRUE) {
        assert neutral[i] == asTrue[i];
      }
    }
  }

  /** Then the rewritten tree has the truth of the original with its filters read as TRUE. */
  lemma {:induction false} PlacedKeepsMeaning(e: Expr, row: Expr -> Truth)
    requires Placed(e)
    ensures Eval(V(e), row) == Eval(AsTrue(e), row)
  {
    PlacedIsLogical(e);
    NeutralIsTrueWherePlaced(e);
    TargetsAreNeutral(e, row);
  }

  lemma {:induction false} PlacedIsLogical(e: Expr)
    requires Placed(e)
    ensures Logical(e)
  {
    if e.Nary? && !TargetFree(e) {
      forall i | 0 <= i < |e.args| ensures Logical(e.args[i]) {
        PlacedIsLogical(e.args[i]);
      }
    } else if e.Unary? && !TargetFree(e) {
      PlacedIsLogical(e.arg);
    }
  }

  /** Filters under ANDs are placed so. */
  lemma {:induction false} UnderAndsIsPlaced(e: Expr)
    requires UnderAnds(e)
    ensures Placed(e)
  {
    if e.Nary? && !TargetFree(e) {
      forall i | 0 <= i < |e.args| ensures Placed(e.args[i]) {
        UnderAndsIsPlaced(e.args[i]);
      }
    }
  }

  /** F, then U, then T. */
  predicate AtMost(a: Truth, b: Truth) {
    a == F || b == T || a == b
  }

  /** Targets sit only under ANDs and ORs. */
  predicate UnderAndsAndOrs(e: Expr) {
    || e == TARGET
    || TargetFree(e)
    || (e.Nary? && !e.nop.OtherNary? && forall i :: 0 <= i < |e.args| ==> UnderAndsAndOrs(e.args[i]))
  }

  /** Under ANDs and ORs at any depth the rewrite is never truer than the original with its
      targets read as TRUE: it can lose rows and adds none. */
  lemma {:induction false} RewriteAddsNoRows(e: Expr, row: Expr -> Truth)
    requires UnderAndsAndOrs(e)
    ensures AtMost(Eval(V(e), row), Eval(AsTrue(e), row))
    decreases e, 0
  {
    if TargetFree(e) {
      TargetFreeIsKept(e);
      TargetFreeAsTrue(e);
    } else if e != TARGET {
      var kept := Reject(e.args);
      RejectKeepsOthers(e.args);
      ArgumentsAddNoRows(e.args, row);
      assert AsTrue(e) == Nary(e.nop, MapAsTrue(e.args));
      if kept == [] {
        assert forall i :: 0 <= i < |e.args| ==> e.args[i] in e.args;
        assert MapAsTrue(e.args) == MapNeutral(e.args, TRUE);
        AllNeutral(e.args, row);
      } else {
        assert V(e) == Nary(e.nop, MapV(kept));
      }
    }
  }

  lemma {:induction false} ArgumentsAddNoRows(args: seq<Expr>, row: Expr -> Truth)
    requires forall i :: 0 <= i < |args| ==> UnderAndsAndOrs(args[i])
    ensures AtMost(EvalAll(MapV(Reject(args)), row), EvalAll(MapAsTrue(args), row))
    ensures AtMost(EvalAny(MapV(Reject(args)), row), EvalAny(MapAsTrue(args), row))
    decreases args, 1
  {
    if args != [] {
      RewriteAddsNoRows(args[0], row);
      ArgumentsAddNoRows(args[1..], row);
      FirstKept(args);
      FirstAsTrue(args);
      EvalFirst(AsTrue(args[0]), MapAsTrue(args[1..]), row);
      EvalFirst(V(args[0]), MapV(Reject(args[1..])), row);
    }
  }

  /** Under NOT it adds rows: a negated target is true of every row instead of none. */
  lemma NegatedTargetIsTrue(row: Expr -> Truth)
    ensures Eval(V(Unary(Not, TARGET)), row) == T && Eval(AsTrue(Unary(Not, TARGET)), row) == F
  {
    assert Eval(TRUE, row) == Eval(Lit(1), row) == T;
  }

  /** A row that "alive OR public" read as TRUE keeps and the rewritten condition loses. */
  lemma DroppedUnderOrLosesRow()
    ensures var e := Nary(Or, [TARGET, Sym("public")]);
            Eval(V(e), (x: Expr) => F) == F && Eval(AsTrue(e), (x: Expr) => F) == T
  {
    var p, row := Sym("public"), (x: Expr) => F;
    var e := Nary(Or, [TARGET, p]);
    assert [TARGET, p][1..] == [p] && Reject([p]) == [p] && Reject([TARGET, p]) == [p];
    TargetFreeIsKept(p);
    DroppedUnderOr([TARGET, p], row);
    assert EvalAny([p], row) == OrT(Eval(p, row), F);
  }

  /** The row about which nothing is known. */
  const UNKNOWN: Expr -> Truth := (e: Expr) => U

  /** What is settled there is settled the same way in every row. */
  lemma {:induction false} SettledWithoutRow(e: Expr, row: Expr -> Truth)
    ensures Eval(e, UNKNOWN) != U ==> Eval(e, row) == Eval(e, UNKNOWN)
    decreases e, 0
  {
    match e
    case Nary(_, args) => ArgumentsSettled(args, row);
    case Unary(_, a) => SettledWithoutRow(a, row);
    case _ =>
  }

  lemma {:induction false} ArgumentsSettled(args: seq<Expr>, row: Expr -> Truth)
    ensures EvalAll(args, UNKNOWN) != U ==> EvalAll(args, row) == EvalAll(args, UNKNOWN)
    ensures EvalAny(args, UNKNOWN) != U ==> EvalAny(args, row) == EvalAny(args, UNKNOWN)
    decreases args, 1
  {
    if args != [] {
      SettledWithoutRow(args[0], row);
      ArgumentsSettled(args[1..], row);
    }
  }

  /** Dropping targets from an OR keeps its meaning on all rows exactly when the remaining
      alternatives are true without looking at the row. */
  lemma {:induction false} HarmlessUnderOr(args: seq<Expr>)
    requires TARGET in args && forall i :: 0 <= i < |args| ==> args[i] == TARGET || TargetFree(args[i])
    requires Reject(args) != []
    ensures var e := Nary(Or, args);
            (forall row :: Eval(V(e), row) == Eval(AsTrue(e), row)) <==> EvalAny(Reject(args), UNKNOWN) == T
  {
    var e := Nary(Or, args);
    forall row: Expr -> Truth
      ensures Eval(V(e), row) == EvalAny(Reject(args), row) && Eval(AsTrue(e), row) == T
      ensures EvalAny(Reject(args), UNKNOWN) == T ==> EvalAny(Reject(args), row) == T
    {
      DroppedUnderOr(args, row);
      ArgumentsSettled(Reject(args), row);
    }
    DroppedUnderOr(args, UNKNOWN);
  }

  /** Under OR a target is dropped rather than read as TRUE: the two agree exactly when one of
      the remaining alternatives is true. */
  lemma {:induction false} DroppedUnderOr(args: seq<Expr>, row: Expr -> Truth)
    requires TARGET in args && forall i :: 0 <= i < |args| ==> args[i] == TARGET || TargetFree(args[i])
    requires Reject(args) != []
    ensures var e := Nary(Or, args);
            && Eval(V(e), row) == EvalAny(Reject(args), row)
            && Eval(AsTrue(e), row) == T
            && (Eval(V(e), row) == Eval(AsTrue(e), row) <==> exists i :: 0 <= i < |Reject(args)| && Eval(Reject(args)[i], row) == T)
  {
    var e, kept := Nary(Or, args), Reject(args);
    forall i | 0 <= i < |kept| ensures V(kept[i]) == kept[i] {
      TargetFreeIsKept(kept[i]);
    }
    assert V(e) == Nary(Or, MapV(kept)) && MapV(kept) == kept;
    assert AsTrue(e) == Nary(Or, MapAsTrue(args));
    var i :| 0 <= i < |args| && args[i] == TARGET;
    assert Eval(TRUE, row) == T && MapAsTrue(args)[i] == TRUE;
    AnyIsTrue(MapAsTrue(args), row);
    AnyIsTrue(kept, row);
  }

  lemma {:induction false} AnyIsTrue(args: seq<Expr>, row: Expr -> Truth)
    ensures EvalAny(args, row) == T <==> exists i :: 0 <= i < |args| && Eval(args[i], row) == T
  {
    if args != [] {
      AnyIsTrue(args[1..], row);
      if i :| 0 <= i < |args| && Eval(args[i], row) == T {
        assert i > 0 ==> args[1..][i - 1] == args[i];
      }
    }
  }

  // ----- surviving targets -----

  /** What is left of an operand when its target argument is dropped. */
  function Core(e: Expr): Expr {
    if e.Binary? && e.left == TARGET then (if e.right == TARGET then Nil else e.right)
    else if e.Binary? && e.right == TARGET then e.left
    else e
  }

  /** An IS node, itself no target, whose operands shrink to deleted_at and nil. */
  predicate CollapsesToTarget(e: Expr) {
    && e.Binary? && e.bop == "IS" && e != TARGET && e.left != TARGET && e.right != TARGET
    && Core(e.left) == Sym("deleted_at") && Core(e.right) == Nil
  }

  predicate HasCollapsingIs(e: Expr) {
    e != TARGET
    && (CollapsesToTarget(e)
        || match e
           case Nary(_, args) => exists i :: 0 <= i < |args| && HasCollapsingIs(args[i])
           case Binary(_, l, r) => HasCollapsingIs(l) || HasCollapsingIs(r)
           case Unary(_, a) => HasCollapsingIs(a)
           case Other(_, parts) => exists i :: 0 <= i < |parts| && HasCollapsingIs(parts[i])
           case _ => false)
  }

  lemma RejectKeepsOthers(args: seq<Expr>)
    ensures forall e :: (e in Reject(args) <==> e in args && e != TARGET)
  {
    if args != [] {
      RejectKeepsOthers(args[1..]);
      assert forall e :: e in args <==> e == args[0] || e in args[1..];
    }
  }

  lemma LeafOfCore(e: Expr)
    ensures V(e) == Sym("deleted_at") <==> e != TARGET && Core(e) == Sym("deleted_at")
    ensures V(e) == Nil <==> e != TARGET && Core(e) == Nil
  {
  }

  /** No target survives the rewrite, exactly when no IS node shrinks to a new one. */
  lemma {:induction false} NoTargetSurvives(e: Expr)
    ensures TargetFree(V(e)) <==> !HasCollapsingIs(e)
    ensures e != TARGET ==> (TargetFree(Super(e)) <==> !HasCollapsingIs(e))
    decreases e
  {
    match e
    case Nary(op, args) =>
      forall i | 0 <= i < |args| ensures TargetFree(V(args[i])) <==> !HasCollapsingIs(args[i]) {
        NoTargetSurvives(args[i]);
      }
      NarySurvivors(op, args);
    case Binary(op, l, r) =>
      NoTargetSurvives(l);
      NoTargetSurvives(r);
      LeafOfCore(l);
      LeafOfCore(r);
    case Unary(_, a) =>
      NoTargetSurvives(a);
    case Other(kind, parts) =>
      forall i | 0 <= i < |parts| ensures TargetFree(V(parts[i])) <==> !HasCollapsingIs(parts[i]) {
        NoTargetSurvives(parts[i]);
      }
      assert V(e) == Super(e) == Other(kind, MapV(parts));
      assert forall i :: 0 <= i < |parts| ==> MapV(parts)[i] == V(parts[i]);
      if i :| 0 <= i < |parts| && HasCollapsingIs(parts[i]) {
        assert !TargetFree(MapV(parts)[i]);
      }
    case _ =>
  }

  lemma {:induction false} NarySurvivors(op: NaryOp, args: seq<Expr>)
    requires forall i :: 0 <= i < |args| ==> (TargetFree(V(args[i])) <==> !HasCollapsingIs(args[i]))
    ensures TargetFree(V(Nary(op, args))) <==> !HasCollapsingIs(Nary(op, args))
    ensures TargetFree(Super(Nary(op, args))) <==> !HasCollapsingIs(Nary(op, args))
  {
    var e, kept := Nary(op, args), Reject(args);
    RejectKeepsOthers(args);
    assert Super(e) == Nary(op, MapV(args));
    if |args| == 0 || kept != [] {
      assert V(e) == Nary(op, MapV(kept));
    }
    if i :| 0 <= i < |args| && HasCollapsingIs(args[i]) {
      assert args[i] in kept;
      var j :| 0 <= j < |kept| && kept[j] == args[i];
      assert !TargetFree(MapV(kept)[j]) && !TargetFree(MapV(args)[i]);
    } else {
      forall j | 0 <= j < |kept| ensures TargetFree(MapV(kept)[j]) {
        assert kept[j] in args;
      }
      assert forall i :: 0 <= i < |args| ==> TargetFree(MapV(args)[i]);
    }
  }

  /** A comparison or other two-argument node with the filter on one side becomes its other side. */
  lemma OtherOperandStays(op: string, p: Expr)
    requires TargetFree(p)
    ensures V(Binary(op, TARGET, p)) == p && V(Binary(op, p, TARGET)) == p
  {
    TargetFreeIsKept(p);
    assert Binary(op, TARGET, p) != TARGET && Binary(op, p, TARGET) != TARGET;
  }

  /** Hence a second rewrite changes nothing more. */
  lemma RewriteIsIdempotent(e: Expr)
    requires !HasCollapsingIs(e)
    ensures V(V(e)) == V(e)
  {
    NoTargetSurvives(e);
    TargetFreeIsKept(V(e));
  }

  /** An ill-formed comparison of the filter with the column itself leaves a target behind. */
  lemma CollapsedComparisonSurvives()
    ensures V(Binary("IS", Binary("=", TARGET, Sym("deleted_at")), Nil)) == TARGET
  {
  }
}
