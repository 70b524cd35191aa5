/**
 * The default SQL grammar: the combinators that turn field names, literal
 * values and operator templates into lists of pieces, and `JoinFragments`,
 * which flattens such a list into one Fragment.
 */
module Grammar {
  import opened Fragments
  import opened Strings

  /** `quote`: one identifier between double quotes, with no escaping. */
  function Quote(identifier: string): (q: string)
    ensures |q| == |identifier| + 2
    ensures q[0] == '"' && q[|q| - 1] == '"' && q[1..|q| - 1] == identifier
  {
    "\"" + identifier + "\""
  }

  function QuoteAll(parts: seq<string>): (qs: seq<string>)
    ensures |qs| == |parts|
  {
    if parts == [] then [] else [Quote(parts[0])] + QuoteAll(parts[1..])
  }

  /**
   * `field`: split a dotted path on `.`, quote every component and join them
   * back with `.`. The result is a plain string, so it binds no argument.
   */
  function Field(path: string): string {
    JoinWith(QuoteAll(Split(path, '.')), '.')
  }

  /** `value`: a single placeholder that carries the literal as its one argument. */
  function Value(v: Fragments.Value): Fragment {
    Fragment("?", [v])
  }

  /**
   * An operator format with exactly one `%s` slot, kept as the text before
   * and after the slot (the `%s` string form is `before + "%s" + after`).
   */
  datatype Template = Template(before: string, after: string)

  /** `util.format(template, s)` for a one-slot template. */
  function Fill(t: Template, s: string): string {
    t.before + s + t.after
  }

  /**
   * `expression`: the left side, a space, and a fragment whose text is the
   * right side's text put into the template and whose arguments are the
   * right side's (none when it is a plain string).
   */
  function Expression(lhs: Piece, format: Template, rhs: Piece): seq<Piece> {
    [lhs, Str(" "), Frag(Fragment(Fill(format, TextOf(rhs)), ArgsOf(rhs)))]
  }

  /** `operation`: left pieces, the operator between spaces, right pieces. */
  function Operation(lhs: seq<Piece>, operator: string, rhs: seq<Piece>): seq<Piece> {
    lhs + [Str(" "), Str(operator), Str(" ")] + rhs
  }

  /** `unary`: the operator, a space, then the operand's pieces. */
  function Unary(operator: string, operand: seq<Piece>): seq<Piece> {
    [Str(operator), Str(" ")] + operand
  }

  /** `group`: one piece between parentheses. */
  function Group(expression: Piece): seq<Piece> {
    [Str("("), expression, Str(")")]
  }

  /**
   * What `joinFragments` computes: the pieces' texts in order, and the
   * arguments of the Fragment pieces in the same order.
   */
  function Joined(pieces: seq<Piece>): Fragment {
    if pieces == [] then Fragment("", [])
    else
      var rest := Joined(pieces[1..]);
      Fragment(TextOf(pieces[0]) + rest.text, ArgsOf(pieces[0]) + rest.args)
  }

  /** Joining distributes over concatenation of piece lists. */
  lemma {:induction false} JoinedAppend(a: seq<Piece>, b: seq<Piece>)
    ensures Joined(a + b).text == Joined(a).text + Joined(b).text
    ensures Joined(a + b).args == Joined(a).args + Joined(b).args
  {
    if a == [] {
      assert a + b == b;
    } else {
      assert (a + b)[0] == a[0];
      assert (a + b)[1..] == a[1..] + b;
      JoinedAppend(a[1..], b);
    }
  }

  /** Joining one more piece appends its text and its arguments. */
  lemma JoinedSnoc(pieces: seq<Piece>, i: nat)
    requires i < |pieces|
    ensures Joined(pieces[..i + 1]).text == Joined(pieces[..i]).text + TextOf(pieces[i])
    ensures Joined(pieces[..i + 1]).args == Joined(pieces[..i]).args + ArgsOf(pieces[i])
  {
    var p := pieces[i];
    assert pieces[..i + 1] == pieces[..i] + [p];
    JoinedAppend(pieces[..i], [p]);
    assert [p][1..] == [];
    assert Joined([p]) == Fragment(TextOf(p) + "", ArgsOf(p) + []);
    assert TextOf(p) + "" == TextOf(p);
    assert ArgsOf(p) + [] == ArgsOf(p);
  }

  /** Joining a piece in front of a list prepends its text and arguments. */
  lemma JoinedCons(p: Piece, rest: seq<Piece>)
    ensures Joined([p] + rest) == Fragment(TextOf(p) + Joined(rest).text, ArgsOf(p) + Joined(rest).args)
  {
    assert ([p] + rest)[1..] == rest;
  }

  /** A list of plain strings joins to a fragment without arguments. */
  lemma {:induction false} JoinedStrings(pieces: seq<Piece>)
    requires forall i :: 0 <= i < |pieces| ==> pieces[i].Str?
    ensures Joined(pieces).args == []
  {
    if pieces != [] {
      JoinedStrings(pieces[1..]);
    }
  }

  /**
   * `joinFragments`: one pass over the pieces that pushes each text onto a
   * list of strings and appends each Fragment's arguments to the argument
   * list, then joins the strings with ''.
   */
  method JoinFragments(pieces: seq<Piece>) returns (f: Fragment)
    ensures f == Joined(pieces)
  {
    var strings: seq<string> := [];
    var args: seq<Value> := [];
    for i := 0 to |pieces|
      invariant Concat(strings) == Joined(pieces[..i]).text
      invariant args == Joined(pieces[..i]).args
    {
      var piece := pieces[i];
      ConcatSnoc(strings, TextOf(piece));
      JoinedSnoc(pieces, i);
      strings := strings + [TextOf(piece)];
      args := if piece.Frag? then args + piece.f.args else args;
    }
    assert pieces[..|pieces|] == pieces;
    f := Fragment(Concat(strings), args);
  }

  /** The quotes `Field` adds are the only change it makes to the path. */
  lemma FieldUnquotes(path: string)
    requires '"' !in path
    ensures Strip(Field(path), '"') == path
  {
    StripQuoted(Split(path, '.'));
    StripAbsent(path, '"');
  }

  lemma {:induction false} StripQuoted(parts: seq<string>)
    ensures Strip(JoinWith(QuoteAll(parts), '.'), '"') == Strip(JoinWith(parts, '.'), '"')
  {
    if |parts| == 1 {
      StripAppend("\"" + parts[0], "\"", '"');
      StripAppend("\"", parts[0], '"');
    } else if |parts| > 1 {
      var qs := QuoteAll(parts);
      assert qs[1..] == QuoteAll(parts[1..]);
      StripQuoted(parts[1..]);
      StripAppend(qs[0] + ['.'], JoinWith(qs[1..], '.'), '"');
      StripAppend(qs[0], ['.'], '"');
      StripAppend("\"" + parts[0], "\"", '"');
      StripAppend("\"", parts[0], '"');
      StripAppend(parts[0] + ['.'], JoinWith(parts[1..], '.'), '"');
      StripAppend(parts[0], ['.'], '"');
    }
  }

  /** Splitting `a.rest` for a dot-free `a` gives `a` followed by the parts of `rest`. */
  lemma {:induction false} SplitCons(a: string, rest: string)
    requires '.' !in a
    ensures Split(a + "." + rest, '.') == [a] + Split(rest, '.')
  {
    if a == [] {
      assert a + "." + rest == ['.'] + rest;
      assert (['.'] + rest)[1..] == rest;
    } else {
      assert (a + "." + rest)[1..] == a[1..] + "." + rest;
      SplitCons(a[1..], rest);
      assert a == [a[0]] + a[1..];
    }
  }

  /** Quoting adds only double quotes and dots: any other character absent from the path is absent from the result. */
  lemma FieldAbsent(path: string, c: char)
    requires c != '"' && c != '.' && c !in path
    ensures c !in Field(path)
  {
    var parts := Split(path, '.');
    SplitAbsent(path, '.', c);
    QuoteAllAbsent(parts, c);
    JoinAbsent(QuoteAll(parts), '.', c);
  }

  lemma {:induction false} QuoteAllAbsent(parts: seq<string>, c: char)
    requires c != '"'
    requires forall i :: 0 <= i < |parts| ==> c !in parts[i]
    ensures forall i :: 0 <= i < |QuoteAll(parts)| ==> c !in QuoteAll(parts)[i]
  {
    if parts != [] {
      QuoteAllAbsent(parts[1..], c);
      assert QuoteAll(parts) == [Quote(parts[0])] + QuoteAll(parts[1..]);
    }
  }

  /** A path with no dot is quoted as a whole. */
  lemma FieldSimple(name: string)
    requires '.' !in name
    ensures Field(name) == Quote(name)
  {
    assert Split(name, '.') == [name] by {
      SplitCons(name, "");
      assert name + "." + "" == name + ".";
      var parts := Split(name, '.');
      assert JoinWith(parts, '.') == name;
      SplitNoSep(name);
    }
  }

  lemma {:induction false} SplitNoSep(s: string)
    requires '.' !in s
    ensures Split(s, '.') == [s]
  {
    if s != [] {
      SplitNoSep(s[1..]);
      assert s == [s[0]] + s[1..];
    }
  }

  /** `field("table.column")` is the quoted table, a dot, and the quoted rest of the path. */
  lemma FieldQualified(table: string, rest: string)
    requires '.' !in table
    ensures Field(table + "." + rest) == Quote(table) + "." + Field(rest)
  {
    SplitCons(table, rest);
    var parts := Split(rest, '.');
    assert ([table] + parts)[1..] == parts;
    assert QuoteAll([table] + parts) == [Quote(table)] + QuoteAll(parts);
  }

  /** Two pieces join to their texts and arguments side by side. */
  lemma JoinedPair(p: Piece, q: Piece)
    ensures Joined([p, q]) == Fragment(TextOf(p) + TextOf(q), ArgsOf(p) + ArgsOf(q))
  {
    assert [q][1..] == [];
    assert Joined([q]) == Fragment(TextOf(q) + "", ArgsOf(q) + []);
    assert TextOf(q) + "" == TextOf(q);
    assert ArgsOf(q) + [] == ArgsOf(q);
    assert [p, q][1..] == [q];
  }

  /** Three pieces join to their texts and arguments side by side. */
  lemma JoinedTriple(p: Piece, q: Piece, r: Piece)
    ensures Joined([p, q, r]) == Fragment(TextOf(p) + TextOf(q) + TextOf(r), ArgsOf(p) + ArgsOf(q) + ArgsOf(r))
  {
    assert [p, q, r] == [p] + [q, r];
    JoinedCons(p, [q, r]);
    JoinedPair(q, r);
    Associative(TextOf(p), TextOf(q), TextOf(r));
    Associative(ArgsOf(p), ArgsOf(q), ArgsOf(r));
  }

  /** Regrouping a concatenation, proved apart from the functions around it to keep the proofs that use it cheap. */
  lemma Associative<T>(a: seq<T>, b: seq<T>, c: seq<T>)
    ensures a + (b + c) == a + b + c
  {
  }

  /** An expression joins to the left text, a space and the filled template, with the left then right arguments. */
  lemma ExpressionJoined(lhs: Piece, format: Template, rhs: Piece)
    ensures Joined(Expression(lhs, format, rhs))
         == Fragment(TextOf(lhs) + " " + Fill(format, TextOf(rhs)), ArgsOf(lhs) + ArgsOf(rhs))
  {
    var third := Frag(Fragment(Fill(format, TextOf(rhs)), ArgsOf(rhs)));
    JoinedTriple(lhs, Str(" "), third);
    assert ArgsOf(lhs) + [] + ArgsOf(rhs) == ArgsOf(lhs) + ArgsOf(rhs);
  }

  /** An operation adds exactly three plain pieces and no arguments between its operands. */
  lemma OperationJoined(lhs: seq<Piece>, operator: string, rhs: seq<Piece>)
    ensures |Operation(lhs, operator, rhs)| == |lhs| + |rhs| + 3
    ensures Joined(Operation(lhs, operator, rhs)).text
         == Joined(lhs).text + " " + operator + " " + Joined(rhs).text
    ensures Joined(Operation(lhs, operator, rhs)).args == Joined(lhs).args + Joined(rhs).args
  {
    var mid := [Str(" "), Str(operator), Str(" ")];
    var front := lhs + mid;
    JoinedTriple(Str(" "), Str(operator), Str(" "));
    var l, m, r := Joined(lhs), Joined(mid), Joined(rhs);
    assert m == Fragment(" " + operator + " ", []);
    JoinedAppend(lhs, mid);
    var f := Joined(front);
    assert f.text == l.text + m.text && f.args == l.args + [];
    JoinedAppend(front, rhs);
    assert Operation(lhs, operator, rhs) == front + rhs;
    SeqRegroup(l.text, operator, r.text);
    assert l.args + [] == l.args;
  }

  /** Regrouping a concatenation, proved apart from the functions around it to keep the proofs that use it cheap. */
  lemma SeqRegroup(l: string, operator: string, r: string)
    ensures l + (" " + operator + " ") + r == l + " " + operator + " " + r
  {
  }

  /** A unary operation prefixes the operator and a space and adds no arguments. */
  lemma UnaryJoined(operator: string, operand: seq<Piece>)
    ensures Joined(Unary(operator, operand)) == Fragment(operator + " " + Joined(operand).text, Joined(operand).args)
  {
    var pre := [Str(operator), Str(" ")];
    JoinedPair(Str(operator), Str(" "));
    JoinedAppend(pre, operand);
    var x := Joined(operand);
    assert [] + x.args == x.args;
  }

  /** A group wraps its piece's text in parentheses and keeps its arguments. */
  lemma GroupJoined(expression: Piece)
    ensures Joined(Group(expression)) == Fragment("(" + TextOf(expression) + ")", ArgsOf(expression))
  {
    JoinedTriple(Str("("), expression, Str(")"));
    assert [] + ArgsOf(expression) + [] == ArgsOf(expression);
  }
}
