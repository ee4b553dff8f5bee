/** The pipeline on messages of a given shape. */
module Scenarios {
  import opened Wrappers
  import opened Text
  import opened Decimal
  import opened Pipeline

  /**
   * Every `$$` splits, so with three delimiters the text after the last one
   * is a formula segment: in `a$$b$$c$$d` both b and d are rendered.
   */
  lemma OddDelimitersRenderTrailing(a: string, b: string, c: string, d: string)
    requires NoDollar(a) && NoDollar(b) && NoDollar(c) && NoDollar(d)
    ensures Split(a + "$$" + (b + "$$" + (c + "$$" + d))) == [a, b, c, d]
    ensures Formulas(Split(a + "$$" + (b + "$$" + (c + "$$" + d)))) == [b, d]
  {
    var ps := [a, b, c, d];
    assert ps[1..] == [b, c, d] && ps[1..][1..] == [c, d] && ps[1..][1..][1..] == [d];
    assert JoinWith([c, d], Delim) == c + "$$" + d;
    assert JoinWith([b, c, d], Delim) == b + "$$" + (c + "$$" + d);
    assert JoinWith(ps, Delim) == a + "$$" + (b + "$$" + (c + "$$" + d));
    SplitOfJoin(ps);
    var v := Split(a + "$$" + (b + "$$" + (c + "$$" + d)));
    assert Formulas(v)[0] == v[1] && Formulas(v)[1] == v[3];
  }

  /** A message with one delimited formula: the three segments it splits into. */
  lemma OneFormulaSplit(a: string, f: string, b: string)
    requires NoDollar(a) && NoDollar(f) && NoDollar(b)
    ensures FindDelim(a + "$$" + (f + "$$" + b)).Some?
    ensures Split(a + "$$" + (f + "$$" + b)) == [a, f, b]
  {
    var ps := [a, f, b];
    assert ps[1..] == [f, b] && ps[1..][1..] == [b];
    assert JoinWith([f, b], Delim) == f + "$$" + b;
    assert JoinWith(ps, Delim) == a + "$$" + (f + "$$" + b);
    SplitOfJoin(ps);
  }

  /** A formula that renders and whose smiley is created is replaced by the next shortcut. */
  lemma OneFormulaAccepted(pending: Pending, id: nat, a: string, f: string, b: string,
                           render: string -> int, create: string -> bool)
    requires NoDollar(a) && NoDollar(f) && NoDollar(b)
    requires render(f) == 0 && create(Shortcut(id))
    ensures var text := a + Shortcut(id) + b;
      Sent(pending, id, a + "$$" + (f + "$$" + b), render, create)
        == Outcome(Some(text), Staged(text), id + 1, [f], [Shortcut(id)], None)
  {
    var m := a + "$$" + (f + "$$" + b);
    OneFormulaSplit(a, f, b);
    var v := Split(m);
    assert Formulas(v) == [f];
    assert Accepted(Formulas(v)[0], id + 0, render, create);
    SentAllAccepted(pending, id, m, render, create);
    assert Shortcuts(id, 1) == [Shortcut(id)];
    var r := Substituted(v, id);
    assert r == [a, Shortcut(id), b] by {
      assert r[0] == a && r[2] == b;
      assert v == [a, f, b];
      assert r[1] == Shortcut(id + 1 / 2);
    }
    assert Join(r) == a + Shortcut(id) + b by {
      assert r[..2][..1] == [a];
      assert Join([a]) == a;
      assert r[..2] == [a, Shortcut(id)];
      assert Join(r[..2]) == a + Shortcut(id);
    }
  }

  /** A formula whose renderer exits with code 2 drops the message and reports the code. */
  lemma OneFormulaFails(pending: Pending, id: nat, a: string, f: string, b: string,
                        render: string -> int, create: string -> bool)
    requires NoDollar(a) && NoDollar(f) && NoDollar(b)
    requires render(f) == 2
    ensures Sent(pending, id, a + "$$" + (f + "$$" + b), render, create)
      == Outcome(None, ErrorMark, id, [f], [], Some("Error creating smiley from '" + f + "', return code = 2"))
  {
    var m := a + "$$" + (f + "$$" + b);
    OneFormulaSplit(a, f, b);
    var v := Split(m);
    assert Formulas(v) == [f];
    assert !Accepted(Formulas(v)[0], id + 0, render, create);
    SentRejectedAt(pending, id, m, render, create, 0);
    assert Formulas(v)[..1] == [f];
    assert IntToDecimal(2) == "2";
    assert ErrorText(f, 2) == "Error creating smiley from '" + f + "', return code = 2";
  }
}
