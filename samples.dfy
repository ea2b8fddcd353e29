/** Worked instances: statement fragments of the repository's sample pages,
    and what the section walk makes of them. The strings are passed as
    parameters fixed by the precondition, which keeps the verifier from
    unfolding every function on every literal. */
module Samples {
  import opened Strings
  import opened Html
  import opened Inline
  import opened Markdown

  /** A character that does not occur in `s` keeps every string holding it
      out of `s`. */
  lemma AbsentCharNotContained(s: string, sub: string, c: char)
    requires c in sub && c !in s
    ensures !Contains(s, sub)
  {
    ContainsIff(s, sub);
    if Contains(s, sub) {
      var i: nat :| OccursAt(s, sub, i);
      OccursChars(s, sub, i);
    }
  }

  lemma OccursChars(s: string, sub: string, i: nat)
    requires OccursAt(s, sub, i)
    ensures forall c :: c in sub ==> c in s
  {
    forall c | c in sub
      ensures c in s
    {
      var j :| 0 <= j < |sub| && sub[j] == c;
      assert s[i..i + |sub|][j] == s[i + j];
    }
  }

  /** A `var` element is typeset from its stripped, rewritten text. */
  lemma VarPart(c: Node)
    requires IsElement(c, "var")
    ensures InlinePart(c) == "$" + SubscriptBraces(Strip(TextOf(c))) + "$"
  {
  }

  /** `<var>x_1</var>` is typeset as `$x_{1}$`: `$`, the rewritten name,
      `$`. */
  lemma SampleVar(v: Node, x: string)
    requires x == "x_1"
    requires v == Elem("var", [], "", [Text(x)])
    ensures InlinePart(v) == "$" + "x_{1}" + "$"
  {
    assert TextOf(v) == x by {
      assert v.children[..0] == [];
      assert TextOfAll(v.children) == TextOfAll([]) + TextOf(Text(x));
    }
    assert IsStripped(x);
    StripStripped(x);
    SubscriptBracesSimple();
    VarPart(v);
  }

  /** The children of `<p>Example with variable <var>x_1</var>.</p>`
      contribute the text with the variable in math mode. */
  lemma SampleParagraphParts(p: Node, a: string, x: string)
    requires a == "Example with variable " && x == "x_1"
    requires p == Elem("p", [], "", [Text(a), Elem("var", [], "", [Text(x)]), Text(".")])
    ensures InlineParts(p.children) == a + ("$" + "x_{1}" + "$") + "."
  {
    var cs := p.children;
    SampleVar(cs[1], x);
    assert cs[..1][..0] == [];
    assert InlineParts(cs[..1]) == a;
    assert cs[..2] == cs[..1] + [cs[1]];
    InlinePartsSnoc(cs[..1], cs[1]);
    assert cs == cs[..2] + [cs[2]];
    InlinePartsSnoc(cs[..2], cs[2]);
  }

  /** The raw `.text` of the same paragraph keeps the variable as written. */
  lemma SampleParagraphText(p: Node, a: string, x: string)
    requires a == "Example with variable " && x == "x_1"
    requires p == Elem("p", [], "", [Text(a), Elem("var", [], "", [Text(x)]), Text(".")])
    ensures TextOf(p) == a + x + "."
  {
    var cs := p.children;
    assert TextOf(cs[1]) == x by {
      assert cs[1].children[..0] == [];
      assert TextOfAll(cs[1].children) == TextOfAll([]) + TextOf(Text(x));
    }
    assert cs[..1][..0] == [];
    assert TextOfAll(cs[..1]) == a;
    assert cs[..2][..1] == cs[..1];
    assert TextOfAll(cs[..2]) == a + x;
    assert TextOfAll(cs) == TextOfAll(cs[..2]) + TextOf(cs[2]);
  }

  /** The paragraph is not a score line, so the section walk emits its
      inline text: the one line `Example with variable $x_{1}$.`. */
  lemma SampleParagraphLine(p: Node, a: string, x: string)
    requires a == "Example with variable " && x == "x_1"
    requires p == Elem("p", [], "", [Text(a), Elem("var", [], "", [Text(x)]), Text(".")])
    ensures ElementLines(p) == [a + ("$" + "x_{1}" + "$") + "."]
  {
    SampleParagraphParts(p, a, x);
    SampleParagraphText(p, a, x);
    var line := a + ("$" + "x_{1}" + "$") + ".";
    assert IsStripped(line);
    StripStripped(line);
    var raw := a + x + ".";
    assert '配' !in raw;
    assert 'S' !in raw;
    AbsentCharNotContained(raw, "配点", '配');
    AbsentCharNotContained(raw, "Score", 'S');
    ParagraphLines(p);
  }

  /** `<h3>Problem Statement</h3>` becomes a level-two heading framed by
      newlines. */
  lemma SampleHeadingLine(h: Node, t: string)
    requires t == "Problem Statement"
    requires h == Elem("h3", [], "", [Text(t)])
    ensures ElementLines(h) == ["\n## " + t + "\n"]
  {
    assert TextOf(h) == t by {
      assert h.children[..0] == [];
      assert TextOfAll(h.children) == TextOfAll([]) + TextOf(Text(t));
    }
    assert IsStripped(t);
    StripStripped(t);
    BlockLines(h);
  }

  /** The statement section of the URL sample page,
      `<section><h3>Problem Statement</h3><p>Example with variable
      <var>x_1</var>.</p></section>`, walks to a heading line followed by
      the converted paragraph, with the variable as `$x_{1}$`. */
  lemma SampleSection(sec: Node, t: string, a: string, x: string)
    requires t == "Problem Statement" && a == "Example with variable " && x == "x_1"
    requires sec == Elem("section", [], "", [
      Elem("h3", [], "", [Text(t)]),
      Elem("p", [], "", [Text(a), Elem("var", [], "", [Text(x)]), Text(".")])])
    ensures SectionLines(sec) == ["\n## " + t + "\n", a + ("$" + "x_{1}" + "$") + "."]
  {
    var cs := sec.children;
    SampleHeadingLine(cs[0], t);
    SampleParagraphLine(cs[1], a, x);
    ChildrenLinesStep(cs, 0);
    ChildrenLinesStep(cs, 1);
    assert cs[..0] == [];
    assert cs[..2] == cs;
  }
}
