/**
 * Conditions: the flat list of predicate specs a caller passes to the
 * condition constructor, the expression tree built from it, and the
 * operator-placement errors the constructor raises.
 *
 * The builder reads the specs left to right. Two operands with nothing
 * between them are joined by an implicit `and`; `and`/`or` fold the tree
 * built so far into the left side of a new node (left-deep); `not` binds to
 * the next operand and may repeat. A nested condition or an array is one
 * operand, grouped in parentheses when rendered.
 */
module Condition {
  import opened Wrappers
  import opened Fragments
  import opened Strings

  /** The right-hand side of a comparison: a literal value, or another column (`FieldString`). */
  datatype Rhs = Lit(v: Value) | FieldRef(name: string)

  datatype BinOp = And | Or {
    function Name(): string {
      match this
      case And => "and"
      case Or => "or"
    }
  }

  /** The condition tree. `Group` is a sub-condition or array used as one operand. */
  datatype Tree =
    | Leaf(field: string, pred: string, value: Rhs)
    | Not(operand: Tree)
    | Binary(op: BinOp, left: Tree, right: Tree)
    | Group(sub: Tree)

  /** What a caller may pass, one argument at a time. */
  datatype Spec =
    | Mapping(entries: seq<(string, Rhs)>)   // { key: value, ... } in key order
    | Equation(text: string)                 // "field=otherField"
    | Array(items: seq<Spec>)                // an explicit grouping
    | Nested(condition: Tree)                // an already built condition
    | BinaryToken(op: BinOp)                 // `and` / `or`
    | NotToken                               // `not`

  datatype Error =
    | ConditionRequired
    | MissingLeftHand(op: BinOp)
    | MissingRightHand(op: BinOp)
    | NotBetweenExpressions
    | CannotFollowNot(op: BinOp)
    | NotBeforeExpression
    | InvalidAfter(op: BinOp, previous: BinOp)
    | NotAnEquation(text: string)

  function Quoted(s: string): string {
    "\"" + s + "\""
  }

  /** The text of the error the constructor throws. */
  function Message(e: Error): string {
    match e
    case ConditionRequired => "condition required"
    case MissingLeftHand(op) => Quoted(op.Name()) + " " + "must include left hand" + " expression"
    case MissingRightHand(op) => Quoted(op.Name()) + " " + "must include right hand" + " expression"
    case NotBetweenExpressions =>
      Quoted("not") + " can only appear " + "between expressions" + " when an explicit binary operator is used"
    case CannotFollowNot(op) => Quoted(op.Name()) + " " + "cannot follow" + " " + Quoted("not")
    case NotBeforeExpression => Quoted("not") + " " + "must precede expression"
    case InvalidAfter(op, previous) => Quoted(op.Name()) + " " + "invalid after" + " " + Quoted(previous.Name())
    case NotAnEquation(text) => Quoted(text) + " is not of the form field=value"
  }

  /** A key split into its field name and its predicate suffix. */
  datatype KeyDetails = KeyDetails(key: string, pred: string)

  /**
   * `_extractPredicate`: `name[predicate]` gives the name and the predicate;
   * a key without a bracketed suffix keeps its name and the predicate `exact`.
   */
  function ExtractPredicate(key: string): (d: KeyDetails)
    ensures d == KeyDetails(key, "exact")
         || (key == d.key + "[" + d.pred + "]" && '[' !in d.key && d.pred != "")
  {
    var i := IndexOf(key, '[');
    if 0 <= i && i + 2 < |key| && key[|key| - 1] == ']' then
      assert key == key[..i] + "[" + key[i + 1..|key| - 1] + "]";
      KeyDetails(key[..i], key[i + 1..|key| - 1])
    else
      KeyDetails(key, "exact")
  }

  /** A suffixed key gives back exactly its name and its predicate. */
  lemma ExtractPredicateSuffix(name: string, pred: string)
    requires '[' !in name && pred != ""
    ensures ExtractPredicate(name + "[" + pred + "]") == KeyDetails(name, pred)
  {
    var key := name + "[" + pred + "]";
    assert key[|name|] == '[' && key[..|name|] == name;
    assert key[|name| + 1..|key| - 1] == pred;
    IndexOfFirst(key, '[', |name|);
  }

  /** A key with no `[` defaults to the predicate `exact`. */
  lemma ExtractPredicateDefault(key: string)
    requires '[' !in key
    ensures ExtractPredicate(key) == KeyDetails(key, "exact")
  {
  }

  /** One leaf from one key and its right-hand side. */
  function LeafOf(key: string, rhs: Rhs): Tree {
    var d := ExtractPredicate(key);
    Leaf(d.key, d.pred, rhs)
  }

  function Leaves(entries: seq<(string, Rhs)>): (leaves: seq<Tree>)
    ensures |leaves| == |entries|
  {
    if entries == [] then [] else [LeafOf(entries[0].0, entries[0].1)] + Leaves(entries[1..])
  }

  /**
   * `"field=other"`: an exact comparison of `field` with the column `other`.
   * The text before the first `=` is the field as written; it is not read
   * for a predicate suffix.
   */
  function ParseEquation(text: string): (r: Result<Tree, Error>)
    ensures r.Success? <==> '=' in text
    ensures r.Failure? ==> r.error == NotAnEquation(text)
    ensures r.Success? ==> r.value.Leaf? && r.value.pred == "exact" && r.value.value.FieldRef?
                           && '=' !in r.value.field
                           && text == r.value.field + "=" + r.value.value.name
  {
    var i := IndexOf(text, '=');
    if i < 0 then Failure(NotAnEquation(text))
    else
      assert text == text[..i] + "=" + text[i + 1..];
      Success(Leaf(text[..i], "exact", FieldRef(text[i + 1..])))
  }

  lemma ParseEquationSplits(key: string, other: string)
    requires '=' !in key
    ensures ParseEquation(key + "=" + other) == Success(Leaf(key, "exact", FieldRef(other)))
  {
    var text := key + "=" + other;
    assert text[|key|] == '=' && text[..|key|] == key && text[|key| + 1..] == other;
    IndexOfFirst(text, '=', |key|);
  }

  /** `k` negations around `t`. */
  function Nots(k: nat, t: Tree): Tree {
    if k == 0 then t else Not(Nots(k - 1, t))
  }

  /**
   * What the builder knows after a prefix of the specs: nothing yet but `nots`
   * negations; a complete expression; or a left side and a binary operator
   * awaiting its right side, after `nots` negations.
   */
  datatype State =
    | Empty(nots: nat)
    | Complete(tree: Tree)
    | Pending(left: Tree, op: BinOp, nots: nat)

  /** Consume one operand; after a complete expression this is the implicit `and`. */
  function Feed(st: State, x: Tree): State {
    match st
    case Empty(k) => Complete(Nots(k, x))
    case Complete(t) => Complete(Binary(And, t, x))
    case Pending(l, op, k) => Complete(Binary(op, l, Nots(k, x)))
  }

  function FeedAll(st: State, xs: seq<Tree>): State
    decreases xs
  {
    if xs == [] then st else FeedAll(Feed(st, xs[0]), xs[1..])
  }

  /** Consume `and` / `or`. */
  function BinaryStep(st: State, op: BinOp): Result<State, Error> {
    match st
    case Empty(k) => if k == 0 then Failure(MissingLeftHand(op)) else Failure(CannotFollowNot(op))
    case Complete(t) => Success(Pending(t, op, 0))
    case Pending(_, previous, k) => if k == 0 then Failure(InvalidAfter(op, previous)) else Failure(CannotFollowNot(op))
  }

  /** Consume `not`. */
  function NotStep(st: State): Result<State, Error> {
    match st
    case Empty(k) => Success(Empty(k + 1))
    case Complete(_) => Failure(NotBetweenExpressions)
    case Pending(l, op, k) => Success(Pending(l, op, k + 1))
  }

  /** The end of the specs: only a complete expression is a condition. */
  function Finish(st: State): Result<Tree, Error> {
    match st
    case Empty(k) => if k == 0 then Failure(ConditionRequired) else Failure(NotBeforeExpression)
    case Complete(t) => Success(t)
    case Pending(_, op, k) => if k == 0 then Failure(MissingRightHand(op)) else Failure(NotBeforeExpression)
  }

  /**
   * The condition constructor. No arguments is an error; a single argument
   * that is already a condition is returned as it is; otherwise the specs are
   * read left to right.
   */
  function Construct(specs: seq<Spec>): (r: Result<Tree, Error>)
    decreases specs, 2
    ensures specs == [] ==> r == Failure(ConditionRequired)
    ensures |specs| == 1 && specs[0].Nested? ==> r == Success(specs[0].condition)
  {
    if specs == [] then Failure(ConditionRequired)
    else if |specs| == 1 && specs[0].Nested? then Success(specs[0].condition)
    else
      var st :- Run(Empty(0), specs);
      Finish(st)
  }

  function Run(st: State, specs: seq<Spec>): Result<State, Error>
    decreases specs, 1
  {
    if specs == [] then Success(st)
    else
      var next :- Step(st, specs[0]);
      Run(next, specs[1..])
  }

  function Step(st: State, spec: Spec): Result<State, Error>
    decreases spec, 0
  {
    match spec
    case Mapping(entries) => Success(FeedAll(st, Leaves(entries)))
    case Equation(text) =>
      var leaf :- ParseEquation(text);
      Success(Feed(st, leaf))
    case Array(items) =>
      var sub :- Construct(items);
      Success(Feed(st, Group(sub)))
    case Nested(c) => Success(Feed(st, Group(c)))
    case BinaryToken(op) => BinaryStep(st, op)
    case NotToken => NotStep(st)
  }
}

/** Properties of the condition constructor. */
module ConditionLaws {
  import opened Wrappers
  import opened Condition
  import Strings

  /** Reading `p + s` is reading `p`, then `s` from where `p` left off. */
  function Then(r: Result<State, Error>, s: seq<Spec>): Result<State, Error> {
    match r
    case Success(mid) => Run(mid, s)
    case Failure(e) => Failure(e)
  }

  /** The end of a run: the tree of a complete expression, or the first error. */
  function Built(r: Result<State, Error>): Result<Condition.Tree, Error> {
    match r
    case Success(st) => Finish(st)
    case Failure(e) => Failure(e)
  }

  lemma RunCons(st: State, spec: Spec, rest: seq<Spec>)
    ensures Run(st, [spec] + rest) == Then(Step(st, spec), rest)
  {
    assert ([spec] + rest)[0] == spec && ([spec] + rest)[1..] == rest;
  }

  lemma ConstructRuns(specs: seq<Spec>)
    requires |specs| >= 2 || (|specs| == 1 && !specs[0].Nested?)
    ensures Construct(specs) == Built(Run(Empty(0), specs))
  {
  }

  lemma {:induction false} RunAppend(st: State, p: seq<Spec>, s: seq<Spec>)
    decreases p
    ensures Run(st, p + s) == Then(Run(st, p), s)
  {
    if p == [] {
      assert p + s == s;
    } else {
      RunCons(st, p[0], p[1..] + s);
      RunCons(st, p[0], p[1..]);
      assert p + s == [p[0]] + (p[1..] + s);
      assert p == [p[0]] + p[1..];
      match Step(st, p[0]) {
        case Success(next) => RunAppend(next, p[1..], s);
        case Failure(_) =>
      }
    }
  }

  /** A successfully built list of specs leaves the builder holding a complete expression: its tree, unless it was a lone condition. */
  lemma BuiltIsComplete(p: seq<Spec>)
    requires Construct(p).Success?
    ensures Run(Empty(0), p).Success? && Run(Empty(0), p).value.Complete?
    ensures !(|p| == 1 && p[0].Nested?) ==> Run(Empty(0), p).value == Complete(Construct(p).value)
  {
    if |p| == 1 && p[0].Nested? {
      RunCons(Empty(0), p[0], []);
      assert p == [p[0]] + [];
    } else {
      ConstructRuns(p);
    }
  }

  /** Specs appended to a built list are read from the complete expression that list leaves. */
  lemma Extend(p: seq<Spec>, tail: seq<Spec>)
    requires Construct(p).Success? && tail != []
    ensures Run(Empty(0), p).Success? && Run(Empty(0), p).value.Complete?
    ensures Construct(p + tail) == Built(Run(Run(Empty(0), p).value, tail))
  {
    BuiltIsComplete(p);
    ConstructRuns(p + tail);
    RunAppend(Empty(0), p, tail);
  }

  /** Two spec lists that every state reads alike can follow any prefix interchangeably. */
  lemma SameRuns(p: seq<Spec>, u: seq<Spec>, v: seq<Spec>)
    requires |p| + |u| >= 2 && |p| + |v| >= 2
    requires forall st :: Run(st, u) == Run(st, v)
    ensures Construct(p + u) == Construct(p + v)
  {
    ConstructRuns(p + u);
    ConstructRuns(p + v);
    RunAppend(Empty(0), p, u);
    RunAppend(Empty(0), p, v);
  }

  // ---- where operators may stand ----

  /** The role a spec plays in the sequence. */
  datatype Kind = Start | Operand | BinaryKind | NotKind

  function KindOf(spec: Spec): Kind {
    match spec
    case BinaryToken(_) => BinaryKind
    case NotToken => NotKind
    case _ => Operand
  }

  function Kinds(specs: seq<Spec>): (ks: seq<Kind>)
    ensures |ks| == |specs|
  {
    if specs == [] then [] else [KindOf(specs[0])] + Kinds(specs[1..])
  }

  /** The placement rules between neighbours: `and`/`or` only right after an operand, `not` never right after one. */
  predicate Allowed(previous: Kind, k: Kind) {
    && (k == BinaryKind ==> previous == Operand)
    && (k == NotKind ==> previous != Operand)
  }

  /** Every neighbouring pair is allowed and the sequence ends with an operand. */
  predicate Chain(ks: seq<Kind>) {
    && |ks| > 0
    && (forall i :: 0 < i < |ks| ==> Allowed(ks[i - 1], ks[i]))
    && ks[|ks| - 1] == Operand
  }

  /** The placement rules applied to a whole argument list, read from the start. */
  predicate WellPlaced(specs: seq<Spec>) {
    Chain([Start] + Kinds(specs))
  }

  /** An operand spec that yields at least one operand without error. */
  predicate Lexable(spec: Spec) {
    match spec
    case Mapping(entries) => entries != []
    case Equation(text) => '=' in text
    case Array(items) => Construct(items).Success?
    case _ => true
  }

  function StateKind(st: State): Kind {
    match st
    case Empty(k) => if k == 0 then Start else NotKind
    case Complete(_) => Operand
    case Pending(_, _, k) => if k == 0 then BinaryKind else NotKind
  }

  lemma {:induction false} FeedAllComplete(st: State, xs: seq<Condition.Tree>)
    decreases xs
    requires xs != []
    ensures FeedAll(st, xs).Complete?
  {
    if xs[1..] != [] {
      FeedAllComplete(Feed(st, xs[0]), xs[1..]);
    }
  }

  /** One step succeeds exactly when the placement rule allows it, and the builder then sits after that kind. */
  lemma StepKind(st: State, spec: Spec)
    requires Lexable(spec)
    ensures Step(st, spec).Success? <==> Allowed(StateKind(st), KindOf(spec))
    ensures Step(st, spec).Success? ==> StateKind(Step(st, spec).value) == KindOf(spec)
  {
    match spec
    case Mapping(entries) => FeedAllComplete(st, Leaves(entries));
    case Equation(text) => assert Strings.IndexOf(text, '=') >= 0;
    case Array(items) => StepArray(st, items);
    case Nested(_) =>
    case BinaryToken(_) =>
    case NotToken =>
  }

  /** An array that builds without error is read as its condition, grouped. */
  lemma StepArray(st: State, items: seq<Spec>)
    requires Construct(items).Success?
    ensures Step(st, Array(items)) == Success(Feed(st, Group(Construct(items).value)))
  {
  }

  lemma ChainCons(k: Kind, ks: seq<Kind>)
    requires ks != []
    ensures Chain([k] + ks) <==> Allowed(k, ks[0]) && Chain(ks)
  {
    var all := [k] + ks;
    assert all[1..] == ks;
    if Chain(all) {
      assert Allowed(all[0], all[1]);
      forall i | 0 < i < |ks|
        ensures Allowed(ks[i - 1], ks[i])
      {
        assert Allowed(all[i], all[i + 1]);
      }
    }
    if Allowed(k, ks[0]) && Chain(ks) {
      forall i | 0 < i < |all|
        ensures Allowed(all[i - 1], all[i])
      {
        if i > 1 {
          assert all[i - 1] == ks[i - 2] && all[i] == ks[i - 1];
        }
      }
    }
  }

  /** From any state, the rest of the specs are accepted exactly when the placement rules hold from that state's kind. */
  lemma {:induction false} RunAccepts(st: State, specs: seq<Spec>)
    decreases specs
    requires forall i :: 0 <= i < |specs| ==> Lexable(specs[i])
    ensures Built(Run(st, specs)).Success? <==> Chain([StateKind(st)] + Kinds(specs))
  {
    if specs == [] {
      assert [StateKind(st)] + Kinds(specs) == [StateKind(st)];
    } else {
      StepKind(st, specs[0]);
      ChainCons(StateKind(st), Kinds(specs));
      RunCons(st, specs[0], specs[1..]);
      assert specs == [specs[0]] + specs[1..];
      match Step(st, specs[0]) {
        case Success(next) =>
          forall i | 0 <= i < |specs[1..]|
            ensures Lexable(specs[1..][i])
          {
            assert specs[1..][i] == specs[i + 1];
          }
          RunAccepts(next, specs[1..]);
          if specs[1..] != [] {
            ChainCons(KindOf(specs[0]), Kinds(specs[1..]));
          } else {
            assert [KindOf(specs[0])] + Kinds(specs[1..]) == [KindOf(specs[0])];
          }
        case Failure(_) =>
      }
    }
  }

  /**
   * For argument lists whose operands are themselves well formed, the
   * constructor succeeds exactly when every operator stands where the
   * placement rules allow it.
   */
  lemma Placement(specs: seq<Spec>)
    requires forall i :: 0 <= i < |specs| ==> Lexable(specs[i])
    ensures Construct(specs).Success? <==> WellPlaced(specs)
  {
    if specs == [] {
      assert [Start] + Kinds(specs) == [Start];
    } else if |specs| == 1 && specs[0].Nested? {
      assert Kinds(specs) == [Operand];
    } else {
      ConstructRuns(specs);
      RunAccepts(Empty(0), specs);
    }
  }

  // ---- the errors the constructor raises ----

  /** `and`/`or` as the first argument has no left-hand expression. */
  lemma LeadingBinary(op: BinOp, s: seq<Spec>)
    ensures Construct([BinaryToken(op)] + s) == Failure(MissingLeftHand(op))
  {
    ConstructRuns([BinaryToken(op)] + s);
    RunCons(Empty(0), BinaryToken(op), s);
  }

  /** `and`/`or` as the last argument has no right-hand expression. */
  lemma TrailingBinary(p: seq<Spec>, op: BinOp)
    requires Construct(p).Success?
    ensures Construct(p + [BinaryToken(op)]) == Failure(MissingRightHand(op))
  {
    BuiltIsComplete(p);
    ConstructRuns(p + [BinaryToken(op)]);
    RunAppend(Empty(0), p, [BinaryToken(op)]);
    RunCons(Run(Empty(0), p).value, BinaryToken(op), []);
    assert [BinaryToken(op)] + [] == [BinaryToken(op)];
  }

  /** `not` right after a complete expression, with no binary operator before it, is refused. */
  lemma NotAfterExpression(p: seq<Spec>, s: seq<Spec>)
    requires Construct(p).Success?
    ensures Construct(p + [NotToken] + s) == Failure(NotBetweenExpressions)
  {
    BuiltIsComplete(p);
    ConstructRuns(p + [NotToken] + s);
    assert p + [NotToken] + s == p + ([NotToken] + s);
    RunAppend(Empty(0), p, [NotToken] + s);
    RunCons(Run(Empty(0), p).value, NotToken, s);
  }

  /** Two binary operators in a row: the second is invalid after the first. */
  lemma BinaryAfterBinary(p: seq<Spec>, previous: BinOp, op: BinOp, s: seq<Spec>)
    requires Construct(p).Success?
    ensures Construct(p + [BinaryToken(previous), BinaryToken(op)] + s) == Failure(InvalidAfter(op, previous))
  {
    BuiltIsComplete(p);
    var mid := Run(Empty(0), p).value;
    ConstructRuns(p + [BinaryToken(previous), BinaryToken(op)] + s);
    assert p + [BinaryToken(previous), BinaryToken(op)] + s == p + ([BinaryToken(previous)] + ([BinaryToken(op)] + s));
    RunAppend(Empty(0), p, [BinaryToken(previous)] + ([BinaryToken(op)] + s));
    RunCons(mid, BinaryToken(previous), [BinaryToken(op)] + s);
    RunCons(Pending(mid.tree, previous, 0), BinaryToken(op), s);
  }

  /** A binary operator straight after a leading `not` cannot follow it. */
  lemma BinaryAfterLeadingNot(op: BinOp, s: seq<Spec>)
    ensures Construct([NotToken, BinaryToken(op)] + s) == Failure(CannotFollowNot(op))
  {
    ConstructRuns([NotToken, BinaryToken(op)] + s);
    assert [NotToken, BinaryToken(op)] + s == [NotToken] + ([BinaryToken(op)] + s);
    RunCons(Empty(0), NotToken, [BinaryToken(op)] + s);
    RunCons(Empty(1), BinaryToken(op), s);
  }

  /** A binary operator straight after `not` in the middle of an expression cannot follow it. */
  lemma BinaryAfterNot(p: seq<Spec>, previous: BinOp, op: BinOp, s: seq<Spec>)
    requires Construct(p).Success?
    ensures Construct(p + [BinaryToken(previous), NotToken, BinaryToken(op)] + s) == Failure(CannotFollowNot(op))
  {
    BuiltIsComplete(p);
    var mid := Run(Empty(0), p).value;
    var tail := [BinaryToken(previous)] + ([NotToken] + ([BinaryToken(op)] + s));
    ConstructRuns(p + [BinaryToken(previous), NotToken, BinaryToken(op)] + s);
    assert p + [BinaryToken(previous), NotToken, BinaryToken(op)] + s == p + tail;
    RunAppend(Empty(0), p, tail);
    RunCons(mid, BinaryToken(previous), [NotToken] + ([BinaryToken(op)] + s));
    RunCons(Pending(mid.tree, previous, 0), NotToken, [BinaryToken(op)] + s);
    RunCons(Pending(mid.tree, previous, 1), BinaryToken(op), s);
  }

  /** `k` copies of `not`. */
  function NotTokens(k: nat): (specs: seq<Spec>)
    ensures |specs| == k
  {
    if k == 0 then [] else [NotToken] + NotTokens(k - 1)
  }

  lemma {:induction false} RunNots(k: nat, n: nat)
    ensures Run(Empty(n), NotTokens(k)) == Success(Empty(n + k))
  {
    if k > 0 {
      RunCons(Empty(n), NotToken, NotTokens(k - 1));
      RunNots(k - 1, n + 1);
    }
  }

  /** One or more `not` with no expression after them. */
  lemma NotsAlone(k: nat)
    requires k > 0
    ensures Construct(NotTokens(k)) == Failure(NotBeforeExpression)
  {
    ConstructRuns(NotTokens(k));
    RunNots(k, 0);
  }

  // ---- the shape of the tree ----

  /** `not` repeated before an operand nests, innermost last. */
  lemma NotChain(k: nat, key: string, rhs: Rhs)
    ensures Construct(NotTokens(k) + [Mapping([(key, rhs)])]) == Success(Nots(k, LeafOf(key, rhs)))
  {
    ConstructRuns(NotTokens(k) + [Mapping([(key, rhs)])]);
    RunNots(k, 0);
    RunAppend(Empty(0), NotTokens(k), [Mapping([(key, rhs)])]);
    assert 0 + k == k;
    RunCons(Empty(k), Mapping([(key, rhs)]), []);
    assert [Mapping([(key, rhs)])] + [] == [Mapping([(key, rhs)])];
    FeedOne(Empty(k), key, rhs);
  }

  /** A tree whose left spine repeats the one operator `op`: a chain `x op y op z ...` with no change of operator. */
  predicate SameOperator(t: Condition.Tree, op: BinOp) {
    match t
    case Binary(o, l, _) => o == op && SameOperator(l, op)
    case _ => true
  }

  /**
   * Appending `op {key: rhs}` to a built chain of the same operator makes that
   * chain the left side: chains are left-deep, and stay chains of `op`.
   */
  lemma LeftDeep(p: seq<Spec>, op: BinOp, key: string, rhs: Rhs)
    requires Construct(p).Success? && !(|p| == 1 && p[0].Nested?)
    requires SameOperator(Construct(p).value, op)
    ensures Construct(p + [BinaryToken(op), Mapping([(key, rhs)])])
         == Success(Binary(op, Construct(p).value, LeafOf(key, rhs)))
    ensures SameOperator(Construct(p + [BinaryToken(op), Mapping([(key, rhs)])]).value, op)
  {
    BuiltIsComplete(p);
    Extend(p, [BinaryToken(op), Mapping([(key, rhs)])]);
    OperatorThenKey(Construct(p).value, op, key, rhs);
  }

  /** After a complete expression `t`, reading `op {key: rhs}` completes `t op leaf`. */
  lemma OperatorThenKey(t: Condition.Tree, op: BinOp, key: string, rhs: Rhs)
    ensures Run(Complete(t), [BinaryToken(op), Mapping([(key, rhs)])]) == Success(Complete(Binary(op, t, LeafOf(key, rhs))))
  {
    var m := Mapping([(key, rhs)]);
    RunCons(Complete(t), BinaryToken(op), [m]);
    assert [BinaryToken(op), m] == [BinaryToken(op)] + [m];
    RunCons(Pending(t, op, 0), m, []);
    assert [m] + [] == [m];
    FeedOne(Pending(t, op, 0), key, rhs);
  }

  /** A one-key mapping feeds exactly its one leaf. */
  lemma FeedOne(st: State, key: string, rhs: Rhs)
    ensures Step(st, Mapping([(key, rhs)])) == Success(Feed(st, LeafOf(key, rhs)))
  {
    assert Leaves([(key, rhs)]) == [LeafOf(key, rhs)];
    assert FeedAll(st, [LeafOf(key, rhs)]) == FeedAll(Feed(st, LeafOf(key, rhs)), []);
  }

  /** An operand spec that produces at least one operand. */
  predicate IsOperand(spec: Spec) {
    KindOf(spec) == Operand && (spec.Mapping? ==> spec.entries != [])
  }

  /** After a complete expression, an operand is read the same with or without an explicit `and` before it. */
  lemma StepAfterAnd(t: Condition.Tree, b: Spec)
    requires IsOperand(b)
    ensures Step(Complete(t), b) == Step(Pending(t, And, 0), b)
  {
    if b.Mapping? {
      var xs := Leaves(b.entries);
      assert FeedAll(Complete(t), xs) == FeedAll(Feed(Complete(t), xs[0]), xs[1..]);
      assert FeedAll(Pending(t, And, 0), xs) == FeedAll(Feed(Pending(t, And, 0), xs[0]), xs[1..]);
    }
  }

  /** An operand spec that is read without error leaves a complete expression. */
  lemma OperandCompletes(st: State, a: Spec)
    requires IsOperand(a) && Step(st, a).Success?
    ensures Step(st, a).value.Complete?
  {
    if a.Mapping? {
      FeedAllComplete(st, Leaves(a.entries));
    }
  }

  /** From any state, an operand followed by another reads the same with an explicit `and` between them. */
  lemma RunImplicitAnd(st: State, a: Spec, b: Spec, s: seq<Spec>)
    requires IsOperand(a) && IsOperand(b)
    ensures Run(st, [a] + ([b] + s)) == Run(st, [a] + ([BinaryToken(And)] + ([b] + s)))
  {
    RunCons(st, a, [b] + s);
    RunCons(st, a, [BinaryToken(And)] + ([b] + s));
    if Step(st, a).Success? {
      OperandCompletes(st, a);
      var t := Step(st, a).value.tree;
      RunCons(Complete(t), BinaryToken(And), [b] + s);
      RunCons(Complete(t), b, s);
      RunCons(Pending(t, And, 0), b, s);
      StepAfterAnd(t, b);
    }
  }

  /** Neighbouring operands are joined by an implicit `and`: writing the `and` changes nothing. */
  lemma ImplicitAnd(p: seq<Spec>, a: Spec, b: Spec, s: seq<Spec>)
    requires IsOperand(a) && IsOperand(b)
    ensures Construct(p + [a, b] + s) == Construct(p + [a, BinaryToken(And), b] + s)
  {
    var implicit := [a] + ([b] + s);
    var explicit := [a] + ([BinaryToken(And)] + ([b] + s));
    assert p + [a, b] + s == p + implicit;
    assert p + [a, BinaryToken(And), b] + s == p + explicit;
    forall st
      ensures Run(st, implicit) == Run(st, explicit)
    {
      RunImplicitAnd(st, a, b, s);
    }
    SameRuns(p, implicit, explicit);
  }

  lemma {:induction false} FeedAllAppend(st: State, xs: seq<Condition.Tree>, ys: seq<Condition.Tree>)
    decreases xs
    ensures FeedAll(st, xs + ys) == FeedAll(FeedAll(st, xs), ys)
  {
    if xs != [] {
      assert (xs + ys)[0] == xs[0];
      assert (xs + ys)[1..] == xs[1..] + ys;
      FeedAllAppend(Feed(st, xs[0]), xs[1..], ys);
    } else {
      assert xs + ys == ys;
    }
  }

  lemma {:induction false} LeavesAppend(e1: seq<(string, Rhs)>, e2: seq<(string, Rhs)>)
    ensures Leaves(e1 + e2) == Leaves(e1) + Leaves(e2)
  {
    if e1 == [] {
      assert e1 + e2 == e2;
    } else {
      assert (e1 + e2)[0] == e1[0];
      assert (e1 + e2)[1..] == e1[1..] + e2;
      LeavesAppend(e1[1..], e2);
    }
  }

  /** A multi-key mapping reads as its keys given one mapping at a time, in key order. */
  lemma MappingSplits(st: State, e1: seq<(string, Rhs)>, e2: seq<(string, Rhs)>)
    ensures Run(st, [Mapping(e1 + e2)]) == Run(st, [Mapping(e1), Mapping(e2)])
  {
    LeavesAppend(e1, e2);
    FeedAllAppend(st, Leaves(e1), Leaves(e2));
    RunCons(st, Mapping(e1 + e2), []);
    RunCons(st, Mapping(e1), [Mapping(e2)]);
    RunCons(FeedAll(st, Leaves(e1)), Mapping(e2), []);
    assert [Mapping(e1 + e2)] + [] == [Mapping(e1 + e2)];
    assert [Mapping(e2)] + [] == [Mapping(e2)];
    assert [Mapping(e1)] + [Mapping(e2)] == [Mapping(e1), Mapping(e2)];
  }

  /** An array of specs is the condition built from them, used as one operand. */
  lemma ArrayIsSubCondition(p: seq<Spec>, items: seq<Spec>, s: seq<Spec>)
    requires Construct(items).Success?
    requires |p| + |s| > 0
    ensures Construct(p + [Array(items)] + s) == Construct(p + [Nested(Construct(items).value)] + s)
  {
    var c := Construct(items).value;
    AroundOne(p, Array(items), s);
    AroundOne(p, Nested(c), s);
    forall st
      ensures Run(st, [Array(items)] + s) == Run(st, [Nested(c)] + s)
    {
      RunArray(st, items, c, s);
    }
    SameRuns(p, [Array(items)] + s, [Nested(c)] + s);
  }

  /** Regrouping a concatenation, proved apart from the functions around it to keep the proofs that use it cheap. */
  lemma AroundOne<T>(p: seq<T>, x: T, s: seq<T>)
    ensures p + [x] + s == p + ([x] + s)
  {
  }

  lemma RunArray(st: State, items: seq<Spec>, c: Condition.Tree, s: seq<Spec>)
    requires Construct(items) == Success(c)
    ensures Run(st, [Array(items)] + s) == Run(st, [Nested(c)] + s)
  {
    StepArray(st, items);
    RunCons(st, Array(items), s);
    RunCons(st, Nested(c), s);
  }

  /** A built condition followed by an operator and a key is grouped as the left side. */
  lemma NestedLeft(c: Condition.Tree, op: BinOp, key: string, rhs: Rhs)
    ensures Construct([Nested(c), BinaryToken(op), Mapping([(key, rhs)])])
         == Success(Binary(op, Group(c), LeafOf(key, rhs)))
  {
    var tail := [BinaryToken(op), Mapping([(key, rhs)])];
    var specs := [Nested(c), BinaryToken(op), Mapping([(key, rhs)])];
    assert specs == [Nested(c)] + tail;
    ConstructRuns(specs);
    assert Construct(specs) == Built(Run(Empty(0), specs));
    RunCons(Empty(0), Nested(c), tail);
    assert Run(Empty(0), specs) == Run(Complete(Group(c)), tail);
    OperatorThenKey(Group(c), op, key, rhs);
  }

  /** Two conditions side by side are each grouped and joined by `and`; two bare keys are not grouped. */
  lemma NeighbouringConditions(c1: Condition.Tree, c2: Condition.Tree, k1: string, r1: Rhs, k2: string, r2: Rhs)
    ensures Construct([Nested(c1), Nested(c2)]) == Success(Binary(And, Group(c1), Group(c2)))
    ensures Construct([Mapping([(k1, r1)]), Mapping([(k2, r2)])]) == Success(Binary(And, LeafOf(k1, r1), LeafOf(k2, r2)))
  {
    ConstructRuns([Nested(c1), Nested(c2)]);
    RunCons(Empty(0), Nested(c1), [Nested(c2)]);
    RunCons(Complete(Group(c1)), Nested(c2), []);
    assert [Nested(c2)] + [] == [Nested(c2)];
    ConstructRuns([Mapping([(k1, r1)]), Mapping([(k2, r2)])]);
    FeedOne(Empty(0), k1, r1);
    FeedOne(Complete(LeafOf(k1, r1)), k2, r2);
    RunCons(Empty(0), Mapping([(k1, r1)]), [Mapping([(k2, r2)])]);
    RunCons(Complete(LeafOf(k1, r1)), Mapping([(k2, r2)]), []);
    assert [Mapping([(k2, r2)])] + [] == [Mapping([(k2, r2)])];
  }
}
