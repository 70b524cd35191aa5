/**
 * The condition test suite's cases, stated about the model. The suite
 * renders with a grammar whose `field` returns the name unchanged and whose
 * `value` writes the literal as JSON. The suite uses the default translator,
 * which is not part of this model; the cases here use only `exact`, written
 * `= %s`, and `gt`, written `> %s`.
 */
module ConditionExamples {
  import opened Wrappers
  import opened Fragments
  import G = Grammar
  import opened Condition
  import opened ConditionLaws
  import opened Rendering

  function Digit(d: nat): char
    requires d < 10
  {
    "0123456789"[d]
  }

  /** A natural number in decimal. */
  function Decimal(n: nat): string
    decreases n
  {
    if n < 10 then [Digit(n)] else Decimal(n / 10) + [Digit(n % 10)]
  }

  /** A literal written as JSON: a decimal integer, or a double-quoted string. */
  function Json(v: Value): string {
    match v
    case Num(n) => if n < 0 then "-" + Decimal(-n) else Decimal(n)
    case Txt(s) => "\"" + s + "\""
  }

  /** The test suite's grammar. */
  function Plain(): Dialect {
    Dialect(path => Str(path), v => Str(Json(v)))
  }

  /**
   * The operators the default translator gives `exact` and `gt`. Any other
   * predicate is mapped to `= %s` only so that the function is total; no
   * lemma here is stated for one.
   */
  function Operators(): Translator {
    (pred, isField) => if pred == "gt" then G.Template("> ", "") else G.Template("= ", "")
  }

  function Key(key: string, v: Value): Spec {
    Mapping([(key, Lit(v))])
  }

  function Eq(field: string, v: Value): Condition.Tree {
    Leaf(field, "exact", Lit(v))
  }

  /** A key without a predicate suffix compares for equality. */
  lemma BareKey(key: string, v: Value)
    requires forall i :: 0 <= i < |key| ==> key[i] != '['
    ensures LeafOf(key, Lit(v)) == Eq(key, v)
  {
    ExtractPredicateDefault(key);
  }

  /** `w({ id: 1 }, { name: 'Whitney' })` is `id = 1` and `name = 'Whitney'`. */
  lemma BuildsExpressions()
    ensures Construct([Key("id", Num(1)), Key("name", Txt("Whitney"))])
         == Success(Binary(And, Eq("id", Num(1)), Eq("name", Txt("Whitney"))))
  {
    var id, name := "id", "name";
    assert forall i :: 0 <= i < |id| ==> id[i] != '[';
    assert forall i :: 0 <= i < |name| ==> name[i] != '[';
    BareKey(id, Num(1));
    BareKey(name, Txt("Whitney"));
    NeighbouringConditions(Eq(id, Num(1)), Eq(id, Num(1)), id, Lit(Num(1)), name, Lit(Txt("Whitney")));
  }

  /** How the default grammar writes a leaf with a literal on its right. */
  lemma StandardLeaf(field: string, pred: string, v: Value, tr: Translator)
    requires '.' !in field
    ensures Show(Leaf(field, pred, Lit(v)), Standard(), tr)
         == "\"" + field + "\" " + tr(pred, false).before + "?" + tr(pred, false).after
  {
    G.FieldSimple(field);
  }

  /** Under the default grammar, two keys joined by `and` are two quoted fields, each compared with a placeholder ... */
  lemma DefaultStatementText(a: string, b: string, u: Value, v: Value)
    requires '.' !in a && '.' !in b
    ensures G.Joined(Render(Binary(And, Eq(a, u), Eq(b, v)), Standard(), Operators())).text
         == "\"" + a + "\" = ?" + " and " + "\"" + b + "\" = ?"
  {
    RenderText(Binary(And, Eq(a, u), Eq(b, v)), Standard(), Operators());
    StandardLeaf(a, "exact", u, Operators());
    StandardLeaf(b, "exact", v, Operators());
    StandardRegroup(a, b);
  }

  /** Regrouping a concatenation, proved apart from the functions around it to keep the proofs that use it cheap. */
  lemma StandardRegroup(a: string, b: string)
    ensures "\"" + a + "\" " + "= " + "?" + "" + " " + "and" + " " + ("\"" + b + "\" " + "= " + "?" + "")
         == "\"" + a + "\" = ?" + " and " + "\"" + b + "\" = ?"
  {
  }

  /** ... and the literals are its arguments, in order. */
  lemma DefaultStatementArgs(a: string, b: string, u: Value, v: Value)
    ensures G.Joined(Render(Binary(And, Eq(a, u), Eq(b, v)), Standard(), Operators())).args == [u, v]
  {
    BuildArgs(Binary(And, Eq(a, u), Eq(b, v)), Operators());
  }

  /** How the suite's grammar and translator write one leaf. */
  lemma PlainLeaf(field: string, pred: string, rhs: Rhs)
    requires pred == "exact" || pred == "gt"
    ensures Show(Leaf(field, pred, rhs), Plain(), Operators())
         == field + (if pred == "gt" then " > " else " = ")
            + (match rhs case Lit(v) => Json(v) case FieldRef(name) => name)
  {
    var format := Operators()(pred, rhs.FieldRef?);
    var r := TextOf(RhsPiece(rhs, Plain()));
    assert Show(Leaf(field, pred, rhs), Plain(), Operators()) == field + " " + (format.before + r + format.after);
  }

  /** A literal right-hand side is written as a value; a `FieldString` as a column. */
  lemma RightHandSides(a: string, v: Value, column: string)
    ensures Show(Eq(a, v), Plain(), Operators()) == a + " = " + Json(v)
    ensures Show(Leaf(a, "exact", FieldRef(column)), Plain(), Operators()) == a + " = " + column
  {
    PlainLeaf(a, "exact", Lit(v));
    PlainLeaf(a, "exact", FieldRef(column));
  }

  /** The string `'first=value'` compares two columns. */
  lemma EquationString()
    ensures ParseEquation("first=value") == Success(Leaf("first", "exact", FieldRef("value")))
  {
    var key := "first";
    assert forall i :: 0 <= i < |key| ==> key[i] != '=';
    assert key + "=" + "value" == "first=value";
    ParseEquationSplits(key, "value");
  }

  /** `_extractPredicate('id[gt]')`. */
  lemma ExtractsPredicate()
    ensures ExtractPredicate("id[gt]") == KeyDetails("id", "gt")
  {
    var id := "id";
    assert forall i :: 0 <= i < |id| ==> id[i] != '[';
    ExtractPredicateSuffix(id, "gt");
    assert id + "[" + "gt" + "]" == "id[gt]";
  }

  /** `_extractPredicate('address')`. */
  lemma DefaultsToExact()
    ensures ExtractPredicate("address") == KeyDetails("address", "exact")
  {
    var address := "address";
    assert forall i :: 0 <= i < |address| ==> address[i] != '[';
    ExtractPredicateDefault(address);
  }

  /** A predicate suffix reaches the translator: `{ 'id[gt]': 5 }` is a `gt` comparison of `id`. */
  lemma SuffixedKey(name: string, pred: string, v: Value)
    requires '[' !in name && pred != ""
    ensures Construct([Key(name + "[" + pred + "]", v)]) == Success(Leaf(name, pred, Lit(v)))
  {
    OneKey(name + "[" + pred + "]", v);
    ExtractPredicateSuffix(name, pred);
  }

  /**
   * `{ 'words[gt]': 200 }` under the default grammar: the statement
   * `"words" > ?` with the one argument `200`; the suite's grammar writes it `words > 200`.
   */
  lemma GreaterThan(name: string, v: Value)
    requires '.' !in name
    ensures G.Joined(Render(Leaf(name, "gt", Lit(v)), Standard(), Operators())) == Fragment("\"" + name + "\" > ?", [v])
    ensures Show(Leaf(name, "gt", Lit(v)), Plain(), Operators()) == name + " > " + Json(v)
  {
    var leaf := Leaf(name, "gt", Lit(v));
    StandardLeaf(name, "gt", v, Operators());
    RenderText(leaf, Standard(), Operators());
    BuildArgs(leaf, Operators());
    assert Literals(leaf) == [v];
    assert "\"" + name + "\" " + "> " + "?" + "" == "\"" + name + "\" > ?";
    PlainLeaf(name, "gt", Lit(v));
  }

  /** `w(w.and, { first: 'Whitney' })` and `w(w.or)`: no left-hand expression. */
  lemma LeftHandRequired(k: string, x: Value)
    ensures Construct([BinaryToken(And), Key(k, x)]) == Failure(MissingLeftHand(And))
    ensures Construct([BinaryToken(Or)]) == Failure(MissingLeftHand(Or))
  {
    LeadingBinary(And, [Key(k, x)]);
    LeadingBinary(Or, []);
    assert [BinaryToken(Or)] + [] == [BinaryToken(Or)];
  }

  /** A one-key mapping builds. */
  lemma OneKey(key: string, v: Value)
    ensures Construct([Key(key, v)]) == Success(LeafOf(key, Lit(v)))
  {
    NotChain(0, key, Lit(v));
    assert NotTokens(0) + [Key(key, v)] == [Key(key, v)];
  }

  /** `w({ first: 'Whitney' }, w.or)`: no right-hand expression. */
  lemma RightHandRequired(k: string, x: Value)
    ensures Construct([Key(k, x), BinaryToken(Or)]) == Failure(MissingRightHand(Or))
  {
    OneKey(k, x);
    TrailingBinary([Key(k, x)], Or);
    assert [Key(k, x)] + [BinaryToken(Or)] == [Key(k, x), BinaryToken(Or)];
  }

  /** `w({ first: 'Whitney' }, w.not, { first: 'Whit' })`: `not` between expressions needs a binary operator. */
  lemma NotBetween(k: string, x: Value, y: Value)
    ensures Construct([Key(k, x), NotToken, Key(k, y)]) == Failure(NotBetweenExpressions)
  {
    OneKey(k, x);
    NotAfterExpression([Key(k, x)], [Key(k, y)]);
    assert [Key(k, x)] + [NotToken] + [Key(k, y)] == [Key(k, x), NotToken, Key(k, y)];
  }

  /** `w({ first: 'Whitney' }, w.or, w.not, w.and, { first: 'Whit' })`: `and` cannot follow `not`. */
  lemma AndAfterNot(k: string, x: Value, y: Value)
    ensures Construct([Key(k, x), BinaryToken(Or), NotToken, BinaryToken(And), Key(k, y)])
         == Failure(CannotFollowNot(And))
  {
    OneKey(k, x);
    BinaryAfterNot([Key(k, x)], Or, And, [Key(k, y)]);
    assert [Key(k, x)] + [BinaryToken(Or), NotToken, BinaryToken(And)] + [Key(k, y)]
        == [Key(k, x), BinaryToken(Or), NotToken, BinaryToken(And), Key(k, y)];
  }

  /** `w(w.not)`: `not` must precede an expression. */
  lemma NotAlone()
    ensures Construct([NotToken]) == Failure(NotBeforeExpression)
  {
    NotsAlone(1);
    assert NotTokens(1) == [NotToken];
  }

  /** `w({ first: 'Whitney' }, w.and, w.or, { first: 'Whit' })`: `or` is invalid after `and`. */
  lemma OrAfterAnd(k: string, x: Value, y: Value)
    ensures Construct([Key(k, x), BinaryToken(And), BinaryToken(Or), Key(k, y)])
         == Failure(InvalidAfter(Or, And))
  {
    OneKey(k, x);
    BinaryAfterBinary([Key(k, x)], And, Or, [Key(k, y)]);
    assert [Key(k, x)] + [BinaryToken(And), BinaryToken(Or)] + [Key(k, y)]
        == [Key(k, x), BinaryToken(And), BinaryToken(Or), Key(k, y)];
  }

  /** `w()`: a condition is required. */
  lemma ArgumentRequired()
    ensures Construct([]) == Failure(ConditionRequired)
    ensures Message(ConditionRequired) == "condition required"
  {
  }

  /** `w(w.not, w.not, { first: 'Whitney' })`: repeated `not` nests ... */
  lemma DoubleNot()
    ensures Construct([NotToken, NotToken, Key("first", Txt("Whitney"))]) == Success(Not(Not(Eq("first", Txt("Whitney")))))
  {
    var first := "first";
    assert forall i :: 0 <= i < |first| ==> first[i] != '[';
    BareKey(first, Txt("Whitney"));
    NotChain(2, first, Lit(Txt("Whitney")));
    assert NotTokens(2) + [Key(first, Txt("Whitney"))] == [NotToken, NotToken, Key(first, Txt("Whitney"))];
  }

  /** ... and is written `not not first = "Whitney"`, without parentheses. */
  lemma DoubleNotText(a: string, v: Value)
    ensures Show(Not(Not(Eq(a, v))), Plain(), Operators()) == "not not " + a + " = " + Json(v)
  {
    var leaf := a + " = " + Json(v);
    PlainLeaf(a, "exact", Lit(v));
    assert Show(Eq(a, v), Plain(), Operators()) == leaf;
    assert Show(Not(Eq(a, v)), Plain(), Operators()) == "not " + leaf;
    TwoNots(a, Json(v));
  }

  /** Regrouping a concatenation, proved apart from the functions around it to keep the proofs that use it cheap. */
  lemma TwoNots(a: string, j: string)
    ensures "not " + ("not " + (a + " = " + j)) == "not not " + a + " = " + j
  {
  }

  function WhitOrWhitney(): Condition.Tree {
    Binary(Or, Eq("first", Txt("Whit")), Eq("first", Txt("Whitney")))
  }

  function WhitSpecs(): seq<Spec> {
    [Key("first", Txt("Whit")), BinaryToken(Or), Key("first", Txt("Whitney"))]
  }

  /** `w({ first: 'Whit' }, w.or, { first: 'Whitney' })`. */
  lemma WhitTree()
    ensures Construct(WhitSpecs()) == Success(WhitOrWhitney())
  {
    var first := "first";
    assert forall i :: 0 <= i < |first| ==> first[i] != '[';
    BareKey(first, Txt("Whit"));
    BareKey(first, Txt("Whitney"));
    OneKey(first, Txt("Whit"));
    LeftDeep([Key(first, Txt("Whit"))], Or, first, Lit(Txt("Whitney")));
    assert [Key(first, Txt("Whit"))] + [BinaryToken(Or), Key(first, Txt("Whitney"))] == WhitSpecs();
  }

  /** A built sub-condition, or the array of its specs, is one operand grouped in parentheses. */
  lemma SubConditions()
    ensures Construct([Nested(WhitOrWhitney()), BinaryToken(And), Key("last", Txt("Young"))])
         == Success(Binary(And, Condition.Group(WhitOrWhitney()), Eq("last", Txt("Young"))))
    ensures Construct([Array(WhitSpecs()), BinaryToken(And), Key("last", Txt("Young"))])
         == Success(Binary(And, Condition.Group(WhitOrWhitney()), Eq("last", Txt("Young"))))
  {
    var last := "last";
    assert forall i :: 0 <= i < |last| ==> last[i] != '[';
    BareKey(last, Txt("Young"));
    NestedLeft(WhitOrWhitney(), And, last, Lit(Txt("Young")));
    WhitTree();
    var rest := [BinaryToken(And), Key(last, Txt("Young"))];
    ArrayIsSubCondition([], WhitSpecs(), rest);
    assert [] + [Array(WhitSpecs())] + rest == [Array(WhitSpecs()), BinaryToken(And), Key(last, Txt("Young"))];
    assert [] + [Nested(WhitOrWhitney())] + rest == [Nested(WhitOrWhitney()), BinaryToken(And), Key(last, Txt("Young"))];
  }

  /** Two leaves joined by an operator are written with the operator's name between them. */
  lemma JoinedLeavesText(op: BinOp, a: string, b: string, u: Value, v: Value)
    ensures Show(Binary(op, Eq(a, u), Eq(b, v)), Plain(), Operators())
         == (a + " = " + Json(u)) + " " + op.Name() + " " + (b + " = " + Json(v))
  {
    PlainLeaf(a, "exact", Lit(u));
    PlainLeaf(b, "exact", Lit(v));
  }

  /** ... written `(first = "Whit" or first = "Whitney") and last = "Young"`: the sub-condition in parentheses. */
  lemma SubConditionText(a: string, b: string, c: string, u: Value, v: Value, w: Value)
    ensures Show(Binary(And, Condition.Group(Binary(Or, Eq(a, u), Eq(b, v))), Eq(c, w)), Plain(), Operators())
         == "(" + (a + " = " + Json(u)) + " or " + (b + " = " + Json(v)) + ") and " + (c + " = " + Json(w))
  {
    var sa, sb, sc := a + " = " + Json(u), b + " = " + Json(v), c + " = " + Json(w);
    JoinedLeavesText(Or, a, b, u, v);
    PlainLeaf(c, "exact", Lit(w));
    Regroup(sa, sb, sc);
  }

  /** Regrouping a concatenation, proved apart from the functions around it to keep the proofs that use it cheap. */
  lemma Regroup(sa: string, sb: string, sc: string)
    ensures "(" + (sa + " " + "or" + " " + sb) + ")" + " " + "and" + " " + sc == "(" + sa + " or " + sb + ") and " + sc
  {
  }

  /** `w(w({ first: 'Whitney' }), w({ last: 'Young' }))`: two conditions side by side ... */
  lemma NeighbouringGroups()
    ensures Construct([Nested(Eq("first", Txt("Whitney"))), Nested(Eq("last", Txt("Young")))])
         == Success(Binary(And, Condition.Group(Eq("first", Txt("Whitney"))), Condition.Group(Eq("last", Txt("Young")))))
  {
    NeighbouringConditions(Eq("first", Txt("Whitney")), Eq("last", Txt("Young")), "", Lit(Num(0)), "", Lit(Num(0)));
  }

  /** ... written `(first = "Whitney") and (last = "Young")`: each in its own parentheses. */
  lemma NeighbouringGroupsText(a: string, b: string, u: Value, v: Value)
    ensures Show(Binary(And, Condition.Group(Eq(a, u)), Condition.Group(Eq(b, v))), Plain(), Operators())
         == "(" + (a + " = " + Json(u)) + ") and (" + (b + " = " + Json(v)) + ")"
  {
    var sa, sb := a + " = " + Json(u), b + " = " + Json(v);
    PlainLeaf(a, "exact", Lit(u));
    PlainLeaf(b, "exact", Lit(v));
    var ga, gb := Condition.Group(Eq(a, u)), Condition.Group(Eq(b, v));
    assert Show(ga, Plain(), Operators()) == "(" + sa + ")";
    assert Show(gb, Plain(), Operators()) == "(" + sb + ")";
    GroupedPair(sa, sb);
  }

  /** Regrouping a concatenation, proved apart from the functions around it to keep the proofs that use it cheap. */
  lemma GroupedPair(sa: string, sb: string)
    ensures "(" + sa + ")" + " " + "and" + " " + ("(" + sb + ")") == "(" + sa + ") and (" + sb + ")"
  {
  }

  /** `w({ id: 1 }, w.and, { id: 2 }, w.and, { id: 3 })`: binary chains are left-deep. */
  lemma LeftDeepTree()
    ensures Construct([Key("id", Num(1)), BinaryToken(And), Key("id", Num(2)), BinaryToken(And), Key("id", Num(3))])
         == Success(Binary(And, Binary(And, Eq("id", Num(1)), Eq("id", Num(2))), Eq("id", Num(3))))
  {
    var id := "id";
    assert forall i :: 0 <= i < |id| ==> id[i] != '[';
    BareKey(id, Num(1));
    BareKey(id, Num(2));
    BareKey(id, Num(3));
    var one := Key(id, Num(1));
    OneKey(id, Num(1));
    LeftDeep([one], And, id, Lit(Num(2)));
    var two := [one, BinaryToken(And), Key(id, Num(2))];
    assert [one] + [BinaryToken(And), Key(id, Num(2))] == two;
    LeftDeep(two, And, id, Lit(Num(3)));
    assert two + [BinaryToken(And), Key(id, Num(3))]
        == [one, BinaryToken(And), Key(id, Num(2)), BinaryToken(And), Key(id, Num(3))];
  }

  /** `w(w.not, w.not, { id: 1 }, { id: 2 })`: `not` binds to the next operand only. */
  lemma NotBindsTightly()
    ensures Construct([NotToken, NotToken, Key("id", Num(1)), Key("id", Num(2))])
         == Success(Binary(And, Not(Not(Eq("id", Num(1)))), Eq("id", Num(2))))
  {
    var id := "id";
    assert forall i :: 0 <= i < |id| ==> id[i] != '[';
    BareKey(id, Num(1));
    BareKey(id, Num(2));
    var one, two := Key(id, Num(1)), Key(id, Num(2));
    NotChain(2, id, Lit(Num(1)));
    var nn := [NotToken, NotToken, one];
    assert NotTokens(2) + [one] == nn;
    ImplicitAnd([NotToken, NotToken], one, two, []);
    LeftDeep(nn, And, id, Lit(Num(2)));
    assert [NotToken, NotToken] + [one, two] + [] == [NotToken, NotToken, one, two];
    assert [NotToken, NotToken] + [one, BinaryToken(And), two] + [] == nn + [BinaryToken(And), two];
  }

  /** `field('articles.title')` is `"articles"."title"`: each part of the path quoted. */
  lemma QualifiedField(table: string, column: string)
    requires '.' !in table && '.' !in column
    ensures G.Field(table + "." + column) == "\"" + table + "\".\"" + column + "\""
  {
    G.FieldQualified(table, column);
    G.FieldSimple(column);
  }
}

/**
 * The error messages, read the way the test suite reads them: each test
 * matches a regular expression of the form `a.*b` or `a.*b.*c`, so each lemma
 * states that its message holds those parts in that order.
 */
module ConditionMessages {
  import opened Condition

  /** `p` occurs in `s` at index `i`. */
  predicate At(s: string, p: string, i: int) {
    0 <= i && i + |p| <= |s| && s[i..i + |p|] == p
  }

  /** `s` matches the regular expression `a.*b`. */
  predicate Matches2(s: string, a: string, b: string) {
    exists i, j :: 0 <= i <= j <= |s| && At(s, a, i) && At(s, b, j) && i + |a| <= j
  }

  /** `s` matches the regular expression `a.*b.*c`. */
  predicate Matches3(s: string, a: string, b: string, c: string) {
    exists i, j, k :: 0 <= i <= j <= k <= |s| && At(s, a, i) && At(s, b, j) && At(s, c, k) && i + |a| <= j && j + |b| <= k
  }

  lemma AtMiddle(x: string, p: string, y: string)
    ensures At(x + p + y, p, |x|)
  {
    assert (x + p + y)[|x|..|x| + |p|] == p;
  }

  lemma Matches2In(a: string, x: string, b: string, y: string)
    ensures Matches2(a + x + b + y, a, b)
  {
    AtMiddle([], a, x + b + y);
    assert [] + a + (x + b + y) == a + x + b + y;
    AtMiddle(a + x, b, y);
  }

  lemma Matches3In(a: string, x: string, b: string, y: string, c: string)
    ensures Matches3(a + x + b + y + c, a, b, c)
  {
    AtMiddle([], a, x + b + y + c);
    assert [] + a + (x + b + y + c) == a + x + b + y + c;
    AtMiddle(a + x, b, y + c);
    assert a + x + b + (y + c) == a + x + b + y + c;
    AtMiddle(a + x + b + y, c, []);
    assert a + x + b + y + c + [] == a + x + b + y + c;
  }

  /** `/"and".*must include left hand/i`, and the same for `or`. */
  lemma LeftHandText(op: BinOp)
    ensures Matches2(Message(MissingLeftHand(op)), "\"" + op.Name() + "\"", "must include left hand")
  {
    Matches2In(Quoted(op.Name()), " ", "must include left hand", " expression");
  }

  /** `/"and".*must include right hand/i`, and the same for `or`. */
  lemma RightHandText(op: BinOp)
    ensures Matches2(Message(MissingRightHand(op)), "\"" + op.Name() + "\"", "must include right hand")
  {
    Matches2In(Quoted(op.Name()), " ", "must include right hand", " expression");
  }

  /** `/"not".*between expressions/`. */
  lemma NotBetweenText()
    ensures Matches2(Message(NotBetweenExpressions), "\"not\"", "between expressions")
  {
    assert Quoted("not") == "\"not\"";
    Matches2In(Quoted("not"), " can only appear ", "between expressions", " when an explicit binary operator is used");
  }

  /** `/"and".*cannot follow.*"not"/`, and the same for `or`. */
  lemma CannotFollowText(op: BinOp)
    ensures Matches3(Message(CannotFollowNot(op)), "\"" + op.Name() + "\"", "cannot follow", "\"not\"")
  {
    assert Quoted("not") == "\"not\"";
    Matches3In(Quoted(op.Name()), " ", "cannot follow", " ", Quoted("not"));
  }

  /** `/"not".*must precede expression/`. */
  lemma PrecedeText()
    ensures Matches2(Message(NotBeforeExpression), "\"not\"", "must precede expression")
  {
    assert Quoted("not") == "\"not\"";
    Matches2In(Quoted("not"), " ", "must precede expression", "");
    assert Quoted("not") + " " + "must precede expression" + "" == Message(NotBeforeExpression);
  }

  /** `/"or".*invalid after.*"and"/`, for any two operators. */
  lemma InvalidAfterText(op: BinOp, previous: BinOp)
    ensures Matches3(Message(InvalidAfter(op, previous)), "\"" + op.Name() + "\"", "invalid after", "\"" + previous.Name() + "\"")
  {
    Matches3In(Quoted(op.Name()), " ", "invalid after", " ", Quoted(previous.Name()));
  }
}
