/**
 * How an adapter pairs a rendered fragment's arguments with its text: the
 * i-th argument is bound to the i-th `?` placeholder, left to right.
 * `Inline` performs that pairing; it fails when the numbers differ.
 */
module Binding {
  import opened Wrappers
  import opened Fragments

  /** A character of SQL text, or a bind value standing at a placeholder. */
  datatype Sym = Ch(c: char) | Bound(v: Value)

  /** Text with no value bound in it. */
  function Chars(s: string): (syms: seq<Sym>)
    ensures |syms| == |s|
  {
    if s == [] then [] else [Ch(s[0])] + Chars(s[1..])
  }

  /** The number of `?` placeholders in a text. */
  function Placeholders(s: string): nat {
    if s == [] then 0 else (if s[0] == '?' then 1 else 0) + Placeholders(s[1..])
  }

  /** Replace the i-th `?` of `text` by `Bound(args[i])`; None when the counts differ. */
  function Inline(text: string, args: seq<Value>): Option<seq<Sym>> {
    if text == [] then
      if args == [] then Some([]) else None
    else if text[0] == '?' then
      if args == [] then None
      else match Inline(text[1..], args[1..])
        case Some(rest) => Some([Bound(args[0])] + rest)
        case None => None
    else match Inline(text[1..], args)
      case Some(rest) => Some([Ch(text[0])] + rest)
      case None => None
  }

  /** Binding succeeds exactly when there are as many placeholders as arguments. */
  lemma {:induction false} InlineDefined(text: string, args: seq<Value>)
    ensures Inline(text, args).Some? <==> Placeholders(text) == |args|
  {
    if text != [] {
      if text[0] == '?' {
        if args != [] {
          InlineDefined(text[1..], args[1..]);
        }
      } else {
        InlineDefined(text[1..], args);
      }
    }
  }

  /** Binding two texts and two argument lists side by side is binding their concatenations. */
  lemma {:induction false} InlineAppend(a: string, x: seq<Value>, b: string, y: seq<Value>)
    requires Inline(a, x).Some? && Inline(b, y).Some?
    ensures Inline(a + b, x + y) == Some(Inline(a, x).value + Inline(b, y).value)
  {
    if a == [] {
      assert x == [];
      assert a + b == b;
      assert x + y == y;
      assert Inline(a, x).value == [];
      assert Inline(a, x).value + Inline(b, y).value == Inline(b, y).value;
    } else {
      assert (a + b)[0] == a[0];
      assert (a + b)[1..] == a[1..] + b;
      if a[0] == '?' {
        assert x != [];
        assert (x + y)[0] == x[0];
        assert (x + y)[1..] == x[1..] + y;
        InlineAppend(a[1..], x[1..], b, y);
        var u := Inline(a[1..], x[1..]).value;
        assert Inline(a, x) == Some([Bound(x[0])] + u);
        var w := Inline(b, y).value;
        assert Inline(a + b, x + y) == Some([Bound(x[0])] + (u + w));
        assert [Bound(x[0])] + (u + w) == ([Bound(x[0])] + u) + w;
      } else {
        InlineAppend(a[1..], x, b, y);
        var u := Inline(a[1..], x).value;
        assert Inline(a, x) == Some([Ch(a[0])] + u);
        var w := Inline(b, y).value;
        assert Inline(a + b, x + y) == Some([Ch(a[0])] + (u + w));
        assert [Ch(a[0])] + (u + w) == ([Ch(a[0])] + u) + w;
      }
    }
  }

  /** Text without placeholders binds nothing and stands for itself. */
  lemma {:induction false} InlinePlain(s: string)
    requires '?' !in s
    ensures Inline(s, []) == Some(Chars(s))
  {
    if s != [] {
      InlinePlain(s[1..]);
    }
  }
}
