/** The inline converter: the text of a paragraph or list item, with `var`
    turned into `$...$` math, `code` into backticks, `strong`/`em` into
    `**`/`*`, nested lists skipped and any other element converted by the
    same rules. */
module Inline {
  import opened Strings
  import opened Html

  /** The regular-expression class `\w`: `_` and the characters for which
      `isalnum()` holds. All of them in Latin-1 (letters, the ordinal
      indicators, the superscript digits and the vulgar fractions), the
      unaccented Greek letters, the kana letters with the prolonged-sound and
      iteration marks, the CJK unified ideographs and the full-width digits
      and Latin letters. */
  predicate IsWordChar(c: char)
  {
    if c < '\U{80}' then ('a' <= c <= 'z') || ('A' <= c <= 'Z') || ('0' <= c <= '9') || c == '_'
    else IsWideWordChar(c)
  }

  /** The word characters beyond ASCII. */
  predicate IsWideWordChar(c: char)
  {
    c == '\U{aa}' || c == '\U{b2}' || c == '\U{b3}' || c == '\U{b5}' || c == '\U{b9}' || c == '\U{ba}'
    || ('\U{bc}' <= c <= '\U{be}')
    || ('\U{c0}' <= c <= '\U{d6}') || ('\U{d8}' <= c <= '\U{f6}') || ('\U{f8}' <= c <= '\U{ff}')
    || ('\U{391}' <= c <= '\U{3a1}') || ('\U{3a3}' <= c <= '\U{3a9}') || ('\U{3b1}' <= c <= '\U{3c9}')
    || ('\U{3041}' <= c <= '\U{3096}') || ('\U{309d}' <= c <= '\U{309f}')
    || ('\U{30a1}' <= c <= '\U{30fa}') || ('\U{30fc}' <= c <= '\U{30ff}')
    || ('\U{4e00}' <= c <= '\U{9fff}')
    || ('\U{ff10}' <= c <= '\U{ff19}') || ('\U{ff21}' <= c <= '\U{ff3a}') || ('\U{ff41}' <= c <= '\U{ff5a}')
  }

  /** Length of the longest run of word characters at the start of `s`: what
      the greedy `\w+` consumes. */
  function WordRunLength(s: string): (k: nat)
    ensures k <= |s|
    ensures forall i :: 0 <= i < k ==> IsWordChar(s[i])
    ensures k < |s| ==> !IsWordChar(s[k])
  {
    if s != [] && IsWordChar(s[0]) then 1 + WordRunLength(s[1..]) else 0
  }

  /** `re.sub(r'_(\w+)', r'_{\1}', s)`: scanning from the left, an underscore
      followed by a word character starts a match whose group is the whole
      word run after it (later underscores included); the run is wrapped in
      braces and scanning resumes after it. */
  function SubscriptBraces(s: string): string
  {
    if |s| >= 2 && s[0] == '_' && IsWordChar(s[1]) then
      var t := s[1..];
      var j := WordRunLength(t);
      "_{" + t[..j] + "}" + SubscriptBraces(t[j..])
    else if s == [] then []
    else [s[0]] + SubscriptBraces(s[1..])
  }

  /** An underscore at `i` followed by a word character: a place where the
      pattern `_(\w+)` can start. */
  predicate SubscriptAt(s: string, i: nat)
  {
    i + 1 < |s| && s[i] == '_' && IsWordChar(s[i + 1])
  }

  predicate HasSubscript(s: string)
  {
    exists i :: 0 <= i < |s| && SubscriptAt(s, i)
  }

  /** `s` with every brace character removed. */
  function EraseBraces(s: string): (r: string)
    ensures '{' !in r && '}' !in r
  {
    if s == [] then []
    else (if s[0] == '{' || s[0] == '}' then [] else [s[0]]) + EraseBraces(s[1..])
  }

  lemma {:induction false} EraseBracesAppend(a: string, b: string)
    ensures EraseBraces(a + b) == EraseBraces(a) + EraseBraces(b)
  {
    if a == [] {
      assert a + b == b;
    } else {
      assert (a + b)[1..] == a[1..] + b;
      EraseBracesAppend(a[1..], b);
    }
  }

  lemma {:induction false} EraseBracesFree(w: string)
    requires '{' !in w && '}' !in w
    ensures EraseBraces(w) == w
  {
    if w != [] {
      assert w[0] in w;
      assert forall c :: c in w[1..] ==> c in w;
      EraseBracesFree(w[1..]);
    }
  }

  /** Erasing the braces of one rewritten match gives back `_` and the run. */
  lemma EraseBracesMatch(run: string, rest: string)
    requires '{' !in run && '}' !in run
    ensures EraseBraces("_{" + run + "}" + rest) == "_" + run + EraseBraces(rest)
  {
    var x := "_{" + run + "}" + rest;
    var tail := ['}'] + rest;
    assert x[0] == '_' && x[1..][0] == '{';
    assert x[1..][1..] == run + tail;
    EraseBracesAppend(run, tail);
    assert tail[1..] == rest;
    EraseBracesFree(run);
  }

  lemma WordRunHasNoBraces(s: string, k: nat)
    requires k <= |s|
    requires forall i :: 0 <= i < k ==> IsWordChar(s[i])
    ensures '{' !in s[..k] && '}' !in s[..k]
  {
  }

  /** The rewrite only inserts braces: with all braces erased, input and
      output are the same text. */
  lemma {:induction false} SubscriptBracesOnlyAddsBraces(s: string)
    ensures EraseBraces(SubscriptBraces(s)) == EraseBraces(s)
    decreases |s|
  {
    if |s| >= 2 && s[0] == '_' && IsWordChar(s[1]) {
      var t := s[1..];
      SubscriptBracesOnlyAddsBraces(t[WordRunLength(t)..]);
      ErasedMatchStep(s);
    } else if s != [] {
      SubscriptBracesOnlyAddsBraces(s[1..]);
      ErasedCopyStep(s);
    }
  }

  /** One rewritten match, erased, is the matched text. */
  lemma ErasedMatchStep(s: string)
    requires |s| >= 2 && s[0] == '_' && IsWordChar(s[1])
    requires var t := s[1..]; var j := WordRunLength(t);
      EraseBraces(SubscriptBraces(t[j..])) == EraseBraces(t[j..])
    ensures EraseBraces(SubscriptBraces(s)) == EraseBraces(s)
  {
    var t := s[1..];
    var j := WordRunLength(t);
    var run, rest := t[..j], t[j..];
    assert SubscriptBraces(s) == "_{" + run + "}" + SubscriptBraces(rest);
    WordRunHasNoBraces(t, j);
    EraseBracesMatch(run, SubscriptBraces(rest));
    assert EraseBraces(s) == "_" + EraseBraces(t);
    TakeDrop(t, j);
    EraseBracesAppend(run, rest);
    EraseBracesFree(run);
    AppendAssoc("_", run, EraseBraces(rest));
  }

  /** One copied character, erased, is that character erased. */
  lemma ErasedCopyStep(s: string)
    requires s != [] && !(|s| >= 2 && s[0] == '_' && IsWordChar(s[1]))
    requires EraseBraces(SubscriptBraces(s[1..])) == EraseBraces(s[1..])
    ensures EraseBraces(SubscriptBraces(s)) == EraseBraces(s)
  {
    assert s == [s[0]] + s[1..];
    EraseBracesAppend([s[0]], SubscriptBraces(s[1..]));
    EraseBracesAppend([s[0]], s[1..]);
  }

  /** Each match adds two characters, so the output is never shorter and is
      strictly longer as soon as there is something to match. */
  lemma {:induction false} SubscriptBracesLength(s: string)
    ensures |SubscriptBraces(s)| >= |s|
    ensures HasSubscript(s) ==> |SubscriptBraces(s)| > |s|
    decreases |s|
  {
    if |s| >= 2 && s[0] == '_' && IsWordChar(s[1]) {
      var t := s[1..];
      SubscriptBracesLength(t[WordRunLength(t)..]);
    } else if s != [] {
      SubscriptBracesLength(s[1..]);
      if HasSubscript(s) {
        var i :| 0 <= i < |s| && SubscriptAt(s, i);
        assert !SubscriptAt(s, 0);
        assert SubscriptAt(s[1..], i - 1);
      }
    }
  }

  /** Without an underscore followed by a word character the text is copied. */
  lemma {:induction false} SubscriptBracesNoMatch(s: string)
    requires !HasSubscript(s)
    ensures SubscriptBraces(s) == s
  {
    if s != [] {
      assert !SubscriptAt(s, 0);
      assert !HasSubscript(s[1..]) by {
        if HasSubscript(s[1..]) {
          var i :| 0 <= i < |s[1..]| && SubscriptAt(s[1..], i);
          assert SubscriptAt(s, i + 1);
        }
      }
      SubscriptBracesNoMatch(s[1..]);
    }
  }

  /** The rewrite leaves its input unchanged exactly when nothing matches. */
  lemma SubscriptBracesFixpoint(s: string)
    ensures SubscriptBraces(s) == s <==> !HasSubscript(s)
  {
    SubscriptBracesLength(s);
    if !HasSubscript(s) {
      SubscriptBracesNoMatch(s);
    }
  }

  /** A name without an underscore is copied. */
  lemma SubscriptBracesPlainName()
    ensures SubscriptBraces("a") == "a"
  {
  }

  /** `x_1` becomes `x_{1}`. */
  lemma SubscriptBracesSimple()
    ensures SubscriptBraces("x_1") == "x_{1}"
  {
    assert WordRunLength("1") == 1;
    assert SubscriptBraces("_1") == "_{1}";
  }

  /** The group absorbs later underscores: `a_i_j` becomes `a_{i_j}`. */
  lemma SubscriptBracesAbsorbs()
    ensures SubscriptBraces("a_i_j") == "a_{i_j}"
  {
    assert WordRunLength("i_j") == 3;
    assert SubscriptBraces("_i_j") == "_{i_j}";
  }

  /** A group after other text: `+y_2` becomes `+y_{2}`. */
  lemma SubscriptBracesLaterGroup()
    ensures SubscriptBraces("+y_2") == "+y_{2}"
  {
    assert WordRunLength("2") == 1;
    assert SubscriptBraces("_2") == "_{2}";
    assert SubscriptBraces("y_2") == "y_{2}";
  }

  /** Every separate group is braced, not only the first: `x_1+y_2` becomes
      `x_{1}+y_{2}`. */
  lemma SubscriptBracesEveryGroup()
    ensures SubscriptBraces("x" + "_1+y_2") == "x" + "_{1}+y_{2}"
  {
    SubscriptBracesFirstGroup();
    SubscriptBracesCopy('x', "_1+y_2");
  }

  /** A character that is not an underscore is copied as it is. */
  lemma SubscriptBracesCopy(c: char, rest: string)
    requires c != '_'
    ensures SubscriptBraces([c] + rest) == [c] + SubscriptBraces(rest)
  {
    assert ([c] + rest)[1..] == rest;
  }

  /** The first group of `x_1+y_2`: `_1+y_2` becomes `_{1}+y_{2}`. */
  lemma SubscriptBracesFirstGroup()
    ensures SubscriptBraces("_1+y_2") == "_{1}+y_{2}"
  {
    SubscriptBracesLaterGroup();
    assert WordRunLength("1+y_2") == 1;
  }

  /** One child's contribution to the converted text. */
  function InlinePart(c: Node): string
    decreases c, 2
  {
    match c
    case Text(s) => s
    case Elem(name, _, _, _) =>
      if name == "var" then "$" + SubscriptBraces(Strip(TextOf(c))) + "$"
      else if name == "code" then "`" + Strip(TextOf(c)) + "`"
      else if name == "ul" || name == "ol" then ""
      else if name == "strong" then "**" + Strip(TextOf(c)) + "**"
      else if name == "em" then "*" + Strip(TextOf(c)) + "*"
      else InlineText(c)
  }

  /** The contributions of `cs`, concatenated in order. */
  function InlineParts(cs: seq<Node>): string
    decreases cs, 0
  {
    if cs == [] then "" else InlineParts(cs[..|cs| - 1]) + InlinePart(cs[|cs| - 1])
  }

  /** `_convert_text_with_variables(element)`: the children's contributions,
      joined and stripped. */
  function InlineText(n: Node): (r: string)
    ensures IsStripped(r)
    decreases n, 1
  {
    match n
    case Text(_) => ""
    case Elem(_, _, _, cs) => Strip(InlineParts(cs))
  }

  predicate IsNestedList(c: Node)
  {
    IsElement(c, "ul") || IsElement(c, "ol")
  }

  function WithoutLists(cs: seq<Node>): seq<Node>
  {
    if cs == [] then []
    else WithoutLists(cs[..|cs| - 1]) + (if IsNestedList(cs[|cs| - 1]) then [] else [cs[|cs| - 1]])
  }

  lemma {:induction false} InlinePartsSnoc(cs: seq<Node>, c: Node)
    ensures InlineParts(cs + [c]) == InlineParts(cs) + InlinePart(c)
  {
    assert (cs + [c])[..|cs|] == cs;
  }

  /** Nested `ul`/`ol` children contribute nothing: removing them does not
      change the converted text. */
  lemma {:induction false} InlineIgnoresLists(cs: seq<Node>)
    ensures InlineParts(WithoutLists(cs)) == InlineParts(cs)
  {
    if cs != [] {
      var last := cs[|cs| - 1];
      InlineIgnoresLists(cs[..|cs| - 1]);
      if IsNestedList(last) {
        var init := cs[..|cs| - 1];
        assert InlinePart(last) == "";
        assert WithoutLists(init) + [] == WithoutLists(init);
        assert WithoutLists(cs) == WithoutLists(init);
        assert InlineParts(init) + "" == InlineParts(init);
        assert InlineParts(cs) == InlineParts(init);
      } else {
        InlinePartsSnoc(WithoutLists(cs[..|cs| - 1]), last);
      }
    }
  }

  /** Children that are all strings are passed through: the element's
      converted text is its stripped `.text`. */
  lemma {:induction false} InlinePlainText(cs: seq<Node>)
    requires forall i :: 0 <= i < |cs| ==> cs[i].Text?
    ensures InlineParts(cs) == TextOfAll(cs)
  {
    if cs != [] {
      InlinePlainText(cs[..|cs| - 1]);
    }
  }

  /** Any other child element contributes its own converted text, which is
      already stripped: a wrapper holding just that element converts to the
      same text as the element, because the outer strip changes nothing. */
  lemma NestedElementTransparent(w: Node, c: Node)
    requires w.Elem? && w.children == [c]
    requires c.Elem? && c.name !in {"var", "code", "ul", "ol", "strong", "em"}
    ensures InlineText(w) == InlineText(c)
  {
    assert [c][..0] == [];
    assert InlineParts([c]) == InlinePart(c);
    StripIdempotent(InlineParts(c.children));
  }
}
