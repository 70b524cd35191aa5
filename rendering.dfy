/**
 * `Condition.build(grammar, translator)`: a post-order walk of the condition
 * tree that asks the grammar for fields, values and operator fragments and
 * the translator for each predicate's template, then joins the pieces into
 * one Fragment.
 */
module Rendering {
  import opened Wrappers
  import opened Fragments
  import opened Strings
  import opened Binding
  import G = Grammar
  import opened Condition

  /** The two grammar methods a dialect (or a test) overrides: how a field and how a value are rendered. */
  datatype Dialect = Dialect(field: string -> Piece, value: Value -> Piece)

  /** The default grammar: quoted dotted fields, and a `?` placeholder per value. */
  function Standard(): Dialect {
    Dialect(path => Str(G.Field(path)), v => Frag(G.Value(v)))
  }

  /** The translator: a predicate name, and whether the right side is a field, to its one-slot template. */
  type Translator = (string, bool) -> G.Template

  function RhsPiece(rhs: Rhs, d: Dialect): Piece {
    match rhs
    case Lit(v) => d.value(v)
    case FieldRef(name) => d.field(name)
  }

  /**
   * The pieces of a tree: a leaf is a grammar expression; `not` a unary
   * operation; `and`/`or` an operation on the two sides as they are; a
   * sub-condition is built on its own and grouped in parentheses.
   */
  function Render(t: Condition.Tree, d: Dialect, tr: Translator): seq<Piece> {
    match t
    case Leaf(field, pred, rhs) => G.Expression(d.field(field), tr(pred, rhs.FieldRef?), RhsPiece(rhs, d))
    case Not(x) => G.Unary("not", Render(x, d, tr))
    case Binary(op, l, r) => G.Operation(Render(l, d, tr), op.Name(), Render(r, d, tr))
    case Group(x) => G.Group(Frag(G.Joined(Render(x, d, tr))))
  }

  /** The SQL text of a tree, written directly. */
  function Show(t: Condition.Tree, d: Dialect, tr: Translator): string {
    match t
    case Leaf(field, pred, rhs) =>
      TextOf(d.field(field)) + " " + G.Fill(tr(pred, rhs.FieldRef?), TextOf(RhsPiece(rhs, d)))
    case Not(x) => "not " + Show(x, d, tr)
    case Binary(op, l, r) => Show(l, d, tr) + " " + op.Name() + " " + Show(r, d, tr)
    case Group(x) => "(" + Show(x, d, tr) + ")"
  }

  /** The text of the rendered pieces is the tree written directly. */
  lemma {:induction false} RenderText(t: Condition.Tree, d: Dialect, tr: Translator)
    ensures G.Joined(Render(t, d, tr)).text == Show(t, d, tr)
  {
    match t
    case Leaf(field, pred, rhs) =>
      G.ExpressionJoined(d.field(field), tr(pred, rhs.FieldRef?), RhsPiece(rhs, d));
    case Not(x) =>
      RenderText(x, d, tr);
      G.UnaryJoined("not", Render(x, d, tr));
    case Binary(op, l, r) =>
      RenderText(l, d, tr);
      RenderText(r, d, tr);
      G.OperationJoined(Render(l, d, tr), op.Name(), Render(r, d, tr));
    case Group(x) =>
      RenderText(x, d, tr);
      G.GroupJoined(Frag(G.Joined(Render(x, d, tr))));
  }

  /** `build`: render the tree and join the pieces into one Fragment. */
  method Build(t: Condition.Tree, d: Dialect, tr: Translator) returns (f: Fragment)
    ensures f == G.Joined(Render(t, d, tr))
    ensures f.text == Show(t, d, tr)
  {
    f := G.JoinFragments(Render(t, d, tr));
    RenderText(t, d, tr);
  }

  /** The literal right-hand sides of a tree's leaves, left to right; field references give none. */
  function Literals(t: Condition.Tree): seq<Value> {
    match t
    case Leaf(_, _, rhs) => if rhs.Lit? then [rhs.v] else []
    case Not(x) => Literals(x)
    case Binary(_, l, r) => Literals(l) + Literals(r)
    case Group(x) => Literals(x)
  }

  /** Under the default grammar, the bind arguments are exactly the leaves' literals in left-to-right order. */
  lemma {:induction false} BuildArgs(t: Condition.Tree, tr: Translator)
    ensures G.Joined(Render(t, Standard(), tr)).args == Literals(t)
  {
    var d := Standard();
    match t
    case Leaf(field, pred, rhs) =>
      G.ExpressionJoined(d.field(field), tr(pred, rhs.FieldRef?), RhsPiece(rhs, d));
    case Not(x) =>
      BuildArgs(x, tr);
      G.UnaryJoined("not", Render(x, d, tr));
    case Binary(op, l, r) =>
      BuildArgs(l, tr);
      BuildArgs(r, tr);
      G.OperationJoined(Render(l, d, tr), op.Name(), Render(r, d, tr));
    case Group(x) =>
      BuildArgs(x, tr);
      G.GroupJoined(Frag(G.Joined(Render(x, d, tr))));
  }

  /** No field name in the tree contains a `?`. */
  predicate MarkFree(t: Condition.Tree) {
    match t
    case Leaf(field, _, rhs) => '?' !in field && (rhs.FieldRef? ==> '?' !in rhs.name)
    case Not(x) => MarkFree(x)
    case Binary(_, l, r) => MarkFree(l) && MarkFree(r)
    case Group(x) => MarkFree(x)
  }

  /** No template of the translator contains a `?`. */
  ghost predicate TemplatesMarkFree(tr: Translator) {
    forall pred: string, isField: bool :: '?' !in tr(pred, isField).before && '?' !in tr(pred, isField).after
  }

  /** The statement the database runs: the default rendering with every literal standing in place of its placeholder. */
  function Shown(t: Condition.Tree, tr: Translator): seq<Sym> {
    match t
    case Leaf(field, pred, rhs) =>
      var format := tr(pred, rhs.FieldRef?);
      (match rhs
       case Lit(v) => Chars(G.Field(field) + " " + format.before) + [Bound(v)] + Chars(format.after)
       case FieldRef(name) => Chars(G.Field(field) + " " + G.Fill(format, G.Field(name))))
    case Not(x) => Chars("not ") + Shown(x, tr)
    case Binary(op, l, r) => Shown(l, tr) + Chars(" " + op.Name() + " ") + Shown(r, tr)
    case Group(x) => Chars("(") + Shown(x, tr) + Chars(")")
  }

  /** `value`: one placeholder, and its one argument binds exactly there. */
  lemma ValueBinds(v: Value)
    ensures Placeholders(G.Value(v).text) == |G.Value(v).args| == 1
    ensures Inline(G.Value(v).text, G.Value(v).args) == Some([Bound(v)])
  {
    assert G.Value(v).text == "?";
    assert "?"[1..] == [];
    assert Inline("?"[1..], [v][1..]) == Some([]);
    assert [Bound(v)] + [] == [Bound(v)];
  }

  lemma InlineLeaf(field: string, format: G.Template, v: Value)
    requires '?' !in field && '?' !in format.before && '?' !in format.after
    ensures Inline(G.Field(field) + " " + G.Fill(format, "?"), [v])
         == Some(Chars(G.Field(field) + " " + format.before) + [Bound(v)] + Chars(format.after))
  {
    var a := G.Field(field) + " " + format.before;
    G.FieldAbsent(field, '?');
    InlinePlain(a);
    InlinePlain(format.after);
    assert "?"[1..] == [] && [v][1..] == [];
    assert Inline("?"[1..], [v][1..]) == Some([]);
    assert [Bound(v)] + [] == [Bound(v)];
    assert Inline("?", [v]) == Some([Bound(v)]);
    InlineAppend(a, [], "?", [v]);
    assert [] + [v] == [v];
    InlineAppend(a + "?", [v], format.after, []);
    assert G.Field(field) + " " + G.Fill(format, "?") == a + "?" + format.after;
    assert [] + [v] + [] == [v];
  }

  lemma InlinePrefix(pre: string, text: string, args: seq<Value>)
    requires '?' !in pre && Inline(text, args).Some?
    ensures Inline(pre + text, args) == Some(Chars(pre) + Inline(text, args).value)
  {
    InlinePlain(pre);
    InlineAppend(pre, [], text, args);
    assert [] + args == args;
  }

  lemma InlineAround(pre: string, text: string, args: seq<Value>, post: string)
    requires '?' !in pre && '?' !in post && Inline(text, args).Some?
    ensures Inline(pre + text + post, args) == Some(Chars(pre) + Inline(text, args).value + Chars(post))
  {
    InlinePlain(pre);
    InlinePlain(post);
    InlineAppend(pre, [], text, args);
    assert [] + args == args;
    InlineAppend(pre + text, args, post, []);
    assert [] + args + [] == args;
  }

  /** The bound text of a tree, under the default grammar. */
  function Bind(t: Condition.Tree, tr: Translator): Option<seq<Sym>> {
    var f := G.Joined(Render(t, Standard(), tr));
    Inline(f.text, f.args)
  }

  lemma BindsLeaf(field: string, pred: string, rhs: Rhs, tr: Translator)
    requires MarkFree(Leaf(field, pred, rhs)) && TemplatesMarkFree(tr)
    ensures Bind(Leaf(field, pred, rhs), tr) == Some(Shown(Leaf(field, pred, rhs), tr))
  {
    var d := Standard();
    var format := tr(pred, rhs.FieldRef?);
    G.ExpressionJoined(d.field(field), format, RhsPiece(rhs, d));
    match rhs {
      case Lit(v) =>
        InlineLeaf(field, format, v);
        assert G.Joined(Render(Leaf(field, pred, rhs), d, tr)) == Fragment(G.Field(field) + " " + G.Fill(format, "?"), [v]);
      case FieldRef(name) =>
        G.FieldAbsent(field, '?');
        G.FieldAbsent(name, '?');
        assert '?' !in format.before && '?' !in format.after;
        assert G.Fill(format, G.Field(name)) == format.before + G.Field(name) + format.after;
        var text := G.Field(field) + " " + G.Fill(format, G.Field(name));
        InlinePlain(text);
        assert G.Joined(Render(Leaf(field, pred, rhs), d, tr)) == Fragment(text, []);
    }
  }

  /** The words and punctuation the renderer adds hold no placeholder. */
  lemma Unmarked(op: BinOp)
    ensures '?' !in "not " && '?' !in "(" && '?' !in ")" && '?' !in op.Name()
  {
    var not, name := "not ", op.Name();
    assert forall i :: 0 <= i < |not| ==> not[i] != '?';
    assert forall i :: 0 <= i < |name| ==> name[i] != '?';
  }

  /** Binding the pieces of `not` applied to pieces that bind to `sx`. */
  lemma UnaryBinds(rx: seq<Piece>, sx: seq<Sym>)
    requires Inline(G.Joined(rx).text, G.Joined(rx).args) == Some(sx)
    ensures Inline(G.Joined(G.Unary("not", rx)).text, G.Joined(G.Unary("not", rx)).args) == Some(Chars("not ") + sx)
  {
    var jx := G.Joined(rx);
    G.UnaryJoined("not", rx);
    assert "not" + " " + jx.text == "not " + jx.text;
    Unmarked(And);
    InlinePrefix("not ", jx.text, jx.args);
  }

  lemma BindsNot(x: Condition.Tree, tr: Translator)
    requires Bind(x, tr) == Some(Shown(x, tr))
    ensures Bind(Not(x), tr) == Some(Shown(Not(x), tr))
  {
    UnaryBinds(Render(x, Standard(), tr), Shown(x, tr));
  }

  lemma InlineBetween(a: Fragment, operator: string, b: Fragment)
    requires '?' !in operator && Inline(a.text, a.args).Some? && Inline(b.text, b.args).Some?
    ensures Inline(a.text + " " + operator + " " + b.text, a.args + b.args)
         == Some(Inline(a.text, a.args).value + Chars(" " + operator + " ") + Inline(b.text, b.args).value)
  {
    var mid := " " + operator + " ";
    InlinePlain(mid);
    InlineAppend(a.text, a.args, mid, []);
    assert a.args + [] == a.args;
    InlineAppend(a.text + mid, a.args, b.text, b.args);
    assert a.text + " " + operator + " " + b.text == a.text + mid + b.text;
  }

  /** Binding the pieces of an operation whose sides bind to `sl` and `sr`. */
  lemma OperationBinds(op: BinOp, rl: seq<Piece>, sl: seq<Sym>, rr: seq<Piece>, sr: seq<Sym>)
    requires Inline(G.Joined(rl).text, G.Joined(rl).args) == Some(sl)
    requires Inline(G.Joined(rr).text, G.Joined(rr).args) == Some(sr)
    ensures Inline(G.Joined(G.Operation(rl, op.Name(), rr)).text, G.Joined(G.Operation(rl, op.Name(), rr)).args)
         == Some(sl + Chars(" " + op.Name() + " ") + sr)
  {
    G.OperationJoined(rl, op.Name(), rr);
    Unmarked(op);
    InlineBetween(G.Joined(rl), op.Name(), G.Joined(rr));
  }

  lemma BindsBinary(op: BinOp, l: Condition.Tree, r: Condition.Tree, tr: Translator)
    requires Bind(l, tr) == Some(Shown(l, tr)) && Bind(r, tr) == Some(Shown(r, tr))
    ensures Bind(Binary(op, l, r), tr) == Some(Shown(Binary(op, l, r), tr))
  {
    OperationBinds(op, Render(l, Standard(), tr), Shown(l, tr), Render(r, Standard(), tr), Shown(r, tr));
  }

  /** Binding a group of a fragment that binds to `sx`. */
  lemma GroupBinds(jx: Fragment, sx: seq<Sym>)
    requires Inline(jx.text, jx.args) == Some(sx)
    ensures Inline(G.Joined(G.Group(Frag(jx))).text, G.Joined(G.Group(Frag(jx))).args) == Some(Chars("(") + sx + Chars(")"))
  {
    G.GroupJoined(Frag(jx));
    Unmarked(And);
    InlineAround("(", jx.text, jx.args, ")");
  }

  lemma BindsGroup(x: Condition.Tree, tr: Translator)
    requires Bind(x, tr) == Some(Shown(x, tr))
    ensures Bind(Condition.Group(x), tr) == Some(Shown(Condition.Group(x), tr))
  {
    GroupBinds(G.Joined(Render(x, Standard(), tr)), Shown(x, tr));
  }

  /**
   * Under the default grammar, binding the i-th argument to the i-th `?`
   * of the text gives back the condition with every literal in its own place:
   * the arguments come out in the order of their placeholders.
   */
  lemma {:induction false} BuildBinds(t: Condition.Tree, tr: Translator)
    requires MarkFree(t) && TemplatesMarkFree(tr)
    ensures Bind(t, tr) == Some(Shown(t, tr))
  {
    match t
    case Leaf(field, pred, rhs) =>
      BindsLeaf(field, pred, rhs, tr);
    case Not(x) =>
      BuildBinds(x, tr);
      BindsNot(x, tr);
    case Binary(op, l, r) =>
      BuildBinds(l, tr);
      BuildBinds(r, tr);
      BindsBinary(op, l, r, tr);
    case Group(x) =>
      BuildBinds(x, tr);
      BindsGroup(x, tr);
  }

  /** Under the default grammar there are exactly as many placeholders as bind arguments. */
  lemma BuildPlaceholders(t: Condition.Tree, tr: Translator)
    requires MarkFree(t) && TemplatesMarkFree(tr)
    ensures Placeholders(G.Joined(Render(t, Standard(), tr)).text) == |G.Joined(Render(t, Standard(), tr)).args|
  {
    BuildBinds(t, tr);
    var f := G.Joined(Render(t, Standard(), tr));
    InlineDefined(f.text, f.args);
  }

  /** A chain of `not` renders as that many `not ` prefixes, with no parentheses. */
  lemma {:induction false} NotsText(k: nat, t: Condition.Tree, d: Dialect, tr: Translator)
    ensures Show(Nots(k, t), d, tr) == Repeat("not ", k) + Show(t, d, tr)
  {
    if k > 0 {
      NotsText(k - 1, t, d, tr);
    }
  }
}
