/** The Markdown lines the problem parser emits, as functions of the document
    tree, the chosen language and the two limit patterns, with the properties
    of those lines. */
module Markdown {
  import opened Wrappers
  import opened Strings
  import opened Html
  import opened Inline

  /** The `-l/--language` choice. */
  datatype Language = Ja | En

  /** The class that marks the statement's subtree for `lang`. */
  function LangClass(lang: Language): string
  {
    match lang
    case Ja => "lang-ja"
    case En => "lang-en"
  }

  /** The two groups a limits pattern captures. */
  datatype Limits = Limits(time: string, memory: string)

  /** The Japanese and the English limits pattern, each a partial matcher on
      the text of the limits paragraph. */
  datatype LimitPatterns = LimitPatterns(japanese: string -> Option<Limits>, english: string -> Option<Limits>)

  // The searches the parser makes.

  predicate IsTitleTag(n: Node)
  {
    IsElement(n, "title")
  }

  predicate IsHeadingSpan(n: Node)
  {
    IsElement(n, "span") && "h2" in n.classes
  }

  /** A `p` whose `.string` mentions a time limit in either language. */
  predicate IsLimitsParagraph(n: Node)
  {
    IsElement(n, "p") &&
    match StringOf(n)
    case Some(s) => Contains(s, "実行時間制限") || Contains(s, "Time Limit")
    case None => false
  }

  predicate IsTaskStatement(n: Node)
  {
    IsElement(n, "div") && n.id == "task-statement"
  }

  function IsLangSpan(lang: Language): Node -> bool
  {
    n => IsElement(n, "span") && LangClass(lang) in n.classes
  }

  predicate IsSection(n: Node)
  {
    IsElement(n, "section")
  }

  // Title and limits.

  /** `_extract_title`: the stripped text of the first `title` element when
      that text is not empty, else the stripped text of the first `span.h2`,
      else nothing. */
  function ExtractTitle(doc: Node): (r: Option<string>)
    ensures r.Some? ==> IsStripped(r.value)
    ensures r.None? ==> Find(doc, IsHeadingSpan).None?
  {
    var title := Find(doc, IsTitleTag);
    if title.Some? && TextOf(title.value) != "" then Some(Strip(TextOf(title.value)))
    else
      match Find(doc, IsHeadingSpan)
      case Some(h) => Some(Strip(TextOf(h)))
      case None => None
  }

  /** The title as `parse` tests it: an absent title counts as empty. */
  function TitleText(doc: Node): string
  {
    match ExtractTitle(doc)
    case Some(t) => t
    case None => ""
  }

  function TitleLines(doc: Node): seq<string>
  {
    var t := TitleText(doc);
    if t != "" then ["# " + t + "\n"] else []
  }

  /** `_extract_limits`: the Japanese pattern on the limits paragraph's text,
      and the English pattern only when the Japanese one fails. */
  function ExtractLimits(doc: Node, patterns: LimitPatterns): (r: Option<Limits>)
    ensures r.Some? ==> Find(doc, IsLimitsParagraph).Some? && TextOf(Find(doc, IsLimitsParagraph).value) != ""
  {
    match Find(doc, IsLimitsParagraph)
    case None => None
    case Some(p) =>
      var text := TextOf(p);
      if text == "" then None
      else match patterns.japanese(text)
        case Some(l) => Some(l)
        case None => patterns.english(text)
  }

  function LimitsLines(doc: Node, patterns: LimitPatterns): seq<string>
  {
    match ExtractLimits(doc, patterns)
    case None => []
    case Some(l) => ["**Time Limit:** " + l.time, "**Memory Limit:** " + l.memory + "\n"]
  }

  // The section walk.

  /** The lines one child adds in `_parse_section`. */
  function ElementLines(e: Node): seq<string>
    decreases e, 2
  {
    match e
    case Text(_) => []
    case Elem(name, _, _, _) =>
      if name == "h3" then ["\n## " + Strip(TextOf(e)) + "\n"]
      else if name == "p" then
        var raw := TextOf(e);
        if Contains(raw, "配点") || Contains(raw, "Score") then ["\n**" + Strip(raw) + "**\n"]
        else
          var text := InlineText(e);
          if text != "" then [text] else []
      else if name == "ul" then ListLines(e, 0) + [""]
      else if name == "pre" then
        var code := Strip(TextOf(e));
        if code != "" then ["```", code, "```\n"] else []
      else if name == "div" then SectionLines(e)
      else []
  }

  /** `_parse_section(n)`: the lines of its children, in order. */
  function SectionLines(n: Node): seq<string>
    decreases n, 1
  {
    match n
    case Text(_) => []
    case Elem(_, _, _, cs) => ChildrenLines(cs)
  }

  function ChildrenLines(cs: seq<Node>): seq<string>
    decreases cs, 0
  {
    if cs == [] then [] else ChildrenLines(cs[..|cs| - 1]) + ElementLines(cs[|cs| - 1])
  }

  // The list walk.

  /** `_parse_list(ul, level)`: the lines of its `li` children, in order. */
  function ListLines(ul: Node, level: nat): seq<string>
    decreases ul, 1
  {
    match ul
    case Text(_) => []
    case Elem(_, _, _, cs) => ItemsLines(cs, level)
  }

  function ItemsLines(cs: seq<Node>, level: nat): seq<string>
    decreases cs, 0
  {
    if cs == [] then []
    else
      var last := cs[|cs| - 1];
      ItemsLines(cs[..|cs| - 1], level) + (if IsElement(last, "li") then ItemLines(last, level) else [])
  }

  /** One `li`: its bullet line when its inline text is not empty, then the
      lines of its first direct `ul` child one level deeper. */
  function ItemLines(li: Node, level: nat): seq<string>
    decreases li, 2
  {
    match li
    case Text(_) => []
    case Elem(_, _, _, cs) =>
      var text := InlineText(li);
      (if text != "" then [Indent(level) + "- " + text] else [])
      + match FirstNamed(cs, "ul")
        case Some(nested) => ListLines(nested, level + 1)
        case None => []
  }

  // Body selection and the whole output.

  /** The subtree whose content is walked: the language span inside the
      statement div, or the div itself when there is no such span. */
  function StatementContainer(doc: Node, lang: Language): (r: Option<Node>)
    ensures r.Some? <==> Find(doc, IsTaskStatement).Some?
  {
    match Find(doc, IsTaskStatement)
    case None => None
    case Some(div) =>
      match Find(div, IsLangSpan(lang))
      case Some(span) => Some(span)
      case None => Some(div)
  }

  /** `_parse_problem_content(c)`: each `section` descendant walked on its own,
      or `c` itself walked as one section when it has none. */
  function ContentLines(c: Node): seq<string>
  {
    var sections := FindAll(c, IsSection);
    if sections == [] then SectionLines(c) else SectionsLines(sections)
  }

  function SectionsLines(ss: seq<Node>): seq<string>
  {
    if ss == [] then [] else SectionsLines(ss[..|ss| - 1]) + SectionLines(ss[|ss| - 1])
  }

  function BodyLines(doc: Node, lang: Language): seq<string>
  {
    match StatementContainer(doc, lang)
    case None => []
    case Some(c) => ContentLines(c)
  }

  /** All lines `parse` appends: title, limits, then the statement body. */
  function DocumentLines(doc: Node, lang: Language, patterns: LimitPatterns): seq<string>
  {
    TitleLines(doc) + LimitsLines(doc, patterns) + BodyLines(doc, lang)
  }

  // Properties of the title.

  /** A line of the form `# ...` followed by a newline. */
  predicate IsTitleLine(l: string)
  {
    |l| >= 2 && l[0] == '#' && l[1] == ' ' && l[|l| - 1] == '\n'
  }

  predicate NoTitleLine(ls: seq<string>)
  {
    forall l :: l in ls ==> !IsTitleLine(l)
  }

  /** An inline text that is not empty never ends in a newline. */
  lemma InlineNotTitle(n: Node)
    ensures !IsTitleLine(InlineText(n))
  {
  }

  lemma {:induction false} ElementNoTitle(e: Node)
    ensures NoTitleLine(ElementLines(e))
    decreases e, 2
  {
    match e
    case Text(_) =>
    case Elem(name, _, _, _) =>
      if name == "p" {
        InlineNotTitle(e);
      } else if name == "ul" {
        ListNoTitle(e, 0);
      } else if name == "div" {
        SectionNoTitle(e);
      }
  }

  lemma {:induction false} SectionNoTitle(n: Node)
    ensures NoTitleLine(SectionLines(n))
    decreases n, 1
  {
    match n
    case Text(_) =>
    case Elem(_, _, _, cs) => ChildrenNoTitle(cs);
  }

  lemma {:induction false} ChildrenNoTitle(cs: seq<Node>)
    ensures NoTitleLine(ChildrenLines(cs))
    decreases cs, 0
  {
    if cs != [] {
      ChildrenNoTitle(cs[..|cs| - 1]);
      ElementNoTitle(cs[|cs| - 1]);
    }
  }

  lemma {:induction false} ListNoTitle(ul: Node, level: nat)
    ensures NoTitleLine(ListLines(ul, level))
    decreases ul, 1
  {
    match ul
    case Text(_) =>
    case Elem(_, _, _, cs) => ItemsNoTitle(cs, level);
  }

  lemma {:induction false} ItemsNoTitle(cs: seq<Node>, level: nat)
    ensures NoTitleLine(ItemsLines(cs, level))
    decreases cs, 0
  {
    if cs != [] {
      ItemsNoTitle(cs[..|cs| - 1], level);
      if IsElement(cs[|cs| - 1], "li") {
        ItemNoTitle(cs[|cs| - 1], level);
      }
    }
  }

  lemma {:induction false} ItemNoTitle(li: Node, level: nat)
    ensures NoTitleLine(ItemLines(li, level))
    decreases li, 2
  {
    match li
    case Text(_) =>
    case Elem(_, _, _, cs) =>
      var text := InlineText(li);
      if text != "" {
        var line := Indent(level) + "- " + text;
        assert line[|line| - 1] == text[|text| - 1];
      }
      match FirstNamed(cs, "ul")
      case Some(nested) => ListNoTitle(nested, level + 1);
      case None =>
  }

  lemma {:induction false} SectionsNoTitle(ss: seq<Node>)
    ensures NoTitleLine(SectionsLines(ss))
  {
    if ss != [] {
      SectionsNoTitle(ss[..|ss| - 1]);
      SectionNoTitle(ss[|ss| - 1]);
    }
  }

  lemma BodyNoTitle(doc: Node, lang: Language)
    ensures NoTitleLine(BodyLines(doc, lang))
  {
    match StatementContainer(doc, lang)
    case None =>
    case Some(c) =>
      if FindAll(c, IsSection) == [] {
        SectionNoTitle(c);
      } else {
        SectionsNoTitle(FindAll(c, IsSection));
      }
  }

  /** The output starts with a `# ...` line exactly when the extracted title
      is not empty, and that line is then `# <title>` and a newline: no limits
      or body line can be mistaken for it. */
  lemma FirstLineIsTitleIff(doc: Node, lang: Language, patterns: LimitPatterns)
    ensures var out := DocumentLines(doc, lang, patterns);
      (|out| > 0 && IsTitleLine(out[0])) <==> TitleText(doc) != ""
    ensures TitleText(doc) != "" ==> DocumentLines(doc, lang, patterns)[0] == "# " + TitleText(doc) + "\n"
  {
    var out := DocumentLines(doc, lang, patterns);
    if TitleText(doc) == "" && |out| > 0 {
      BodyNoTitle(doc, lang);
      assert out == LimitsLines(doc, patterns) + BodyLines(doc, lang);
      assert out[0] in LimitsLines(doc, patterns) || out[0] in BodyLines(doc, lang);
    }
  }

  /** A `title` element with some non-blank text gives the title, whatever
      `span.h2` holds. */
  lemma TitleTagWins(doc: Node)
    requires Find(doc, IsTitleTag).Some?
    requires !AllSpace(TextOf(Find(doc, IsTitleTag).value))
    ensures TitleLines(doc) == ["# " + Strip(TextOf(Find(doc, IsTitleTag).value)) + "\n"]
  {
  }

  /** A `title` element whose text is whitespace only gives no title line and
      no fallback to `span.h2`. */
  lemma BlankTitleTagSuppresses(doc: Node)
    requires Find(doc, IsTitleTag).Some?
    requires TextOf(Find(doc, IsTitleTag).value) != ""
    requires AllSpace(TextOf(Find(doc, IsTitleTag).value))
    ensures TitleLines(doc) == []
  {
  }

  /** Without a `title` element carrying text, the first `span.h2` decides. */
  lemma TitleFallsBackToHeading(doc: Node)
    requires Find(doc, IsTitleTag).None? || TextOf(Find(doc, IsTitleTag).value) == ""
    ensures TitleLines(doc) ==
      match Find(doc, IsHeadingSpan)
      case Some(h) => if AllSpace(TextOf(h)) then [] else ["# " + Strip(TextOf(h)) + "\n"]
      case None => []
  {
  }

  // Properties of the limits.

  /** The limits paragraph found always has text, since its `.string`
      mentions a marker. */
  lemma LimitsParagraphHasText(p: Node)
    requires IsLimitsParagraph(p)
    ensures TextOf(p) != ""
  {
    StringOfIsText(p);
  }

  /** The limits lines follow the title as an adjacent Time/Memory pair, or
      there are none and the body follows the title directly. */
  lemma LimitsPaired(doc: Node, lang: Language, patterns: LimitPatterns)
    ensures var out := DocumentLines(doc, lang, patterns);
      var i := |TitleLines(doc)|;
      match ExtractLimits(doc, patterns)
      case None => out == TitleLines(doc) + BodyLines(doc, lang)
      case Some(l) =>
        i + 1 < |out| && out[i] == "**Time Limit:** " + l.time
        && out[i + 1] == "**Memory Limit:** " + l.memory + "\n"
        && out[i + 2..] == BodyLines(doc, lang)
  {
    var t, body := TitleLines(doc), BodyLines(doc, lang);
    match ExtractLimits(doc, patterns)
    case None =>
      assert LimitsLines(doc, patterns) == [];
      AppendAssoc(t, [], body);
    case Some(l) =>
      var time, memory := "**Time Limit:** " + l.time, "**Memory Limit:** " + l.memory + "\n";
      assert LimitsLines(doc, patterns) == [time, memory];
      PairBetween(t, time, memory, body);
  }

  /** Two lines put between a prefix and a suffix sit right after the
      prefix, and the suffix follows them. */
  lemma PairBetween<T>(t: seq<T>, a: T, b: T, body: seq<T>)
    ensures var out := t + [a, b] + body;
      |t| + 1 < |out| && out[|t|] == a && out[|t| + 1] == b && out[|t| + 2..] == body
  {
    var out := t + [a, b] + body;
    assert out[|t| + 2..] == body;
  }

  /** The Japanese pattern is tried first: when it matches, the English one
      is never consulted, and when it does not, the English one decides. */
  lemma JapanesePatternFirst(doc: Node, patterns: LimitPatterns, other: string -> Option<Limits>)
    requires Find(doc, IsLimitsParagraph).Some?
    ensures var text := TextOf(Find(doc, IsLimitsParagraph).value);
      ExtractLimits(doc, patterns) ==
        if patterns.japanese(text).Some? then patterns.japanese(text) else patterns.english(text)
    ensures var text := TextOf(Find(doc, IsLimitsParagraph).value);
      patterns.japanese(text).Some? ==>
        ExtractLimits(doc, patterns) == ExtractLimits(doc, LimitPatterns(patterns.japanese, other))
  {
    LimitsParagraphHasText(Find(doc, IsLimitsParagraph).value);
  }

  // Properties of the body.

  /** Without `div#task-statement` nothing follows the title and limits. */
  lemma NoStatementNoBody(doc: Node, lang: Language, patterns: LimitPatterns)
    requires Find(doc, IsTaskStatement).None?
    ensures DocumentLines(doc, lang, patterns) == TitleLines(doc) + LimitsLines(doc, patterns)
  {
  }

  /** The language span is walked when present, else the whole div. */
  lemma LanguageFallback(doc: Node, lang: Language)
    requires Find(doc, IsTaskStatement).Some?
    ensures var div := Find(doc, IsTaskStatement).value;
      BodyLines(doc, lang) ==
        match Find(div, IsLangSpan(lang))
        case Some(span) => ContentLines(span)
        case None => ContentLines(div)
  {
  }

  /** Walking a list of children is walking each piece in turn. */
  lemma {:induction false} ChildrenLinesAppend(a: seq<Node>, b: seq<Node>)
    ensures ChildrenLines(a + b) == ChildrenLines(a) + ChildrenLines(b)
  {
    if b == [] {
      assert a + b == a;
    } else {
      var b' := b[..|b| - 1];
      assert (a + b)[..|a + b| - 1] == a + b';
      assert (a + b)[|a + b| - 1] == b[|b| - 1];
      ChildrenLinesAppend(a, b');
    }
  }

  /** The section walk after one more child. */
  lemma ChildrenLinesStep(cs: seq<Node>, i: nat)
    requires i < |cs|
    ensures ChildrenLines(cs[..i + 1]) == ChildrenLines(cs[..i]) + ElementLines(cs[i])
  {
    assert cs[..i + 1][..i] == cs[..i];
  }

  /** The list walk after one more child. */
  lemma ItemsLinesStep(cs: seq<Node>, i: nat, level: nat)
    requires i < |cs|
    ensures ItemsLines(cs[..i + 1], level) ==
      ItemsLines(cs[..i], level) + (if IsElement(cs[i], "li") then ItemLines(cs[i], level) else [])
  {
    assert cs[..i + 1][..i] == cs[..i];
  }

  /** The walk over sections after one more section. */
  lemma SectionsLinesStep(ss: seq<Node>, i: nat)
    requires i < |ss|
    ensures SectionsLines(ss[..i + 1]) == SectionsLines(ss[..i]) + SectionLines(ss[i])
  {
    assert ss[..i + 1][..i] == ss[..i];
  }

  /** String nodes and tags other than `h3`, `p`, `ul`, `pre` and `div` add
      nothing, and neither does a `pre` with blank text. */
  lemma SilentChildren(e: Node)
    ensures e.Text? ==> ElementLines(e) == []
    ensures e.Elem? && e.name !in {"h3", "p", "ul", "pre", "div"} ==> ElementLines(e) == []
    ensures IsElement(e, "pre") ==> (ElementLines(e) == [] <==> AllSpace(TextOf(e)))
  {
  }

  /** A child that adds nothing can be removed from anywhere in a section
      without changing its lines. */
  lemma SilentChildRemovable(a: seq<Node>, e: Node, b: seq<Node>)
    requires ElementLines(e) == []
    ensures ChildrenLines(a + [e] + b) == ChildrenLines(a + b)
  {
    ChildrenLinesAppend(a + [e], b);
    ChildrenLinesAppend(a, [e]);
    ChildrenLinesAppend(a, b);
    assert ChildrenLines([e]) == ChildrenLines([]) + ElementLines(e);
  }

  /** A non-blank `pre` adds exactly the opening fence, its stripped text and
      the closing fence with a newline; an `h3` adds one heading line; a `ul`
      adds its list lines and one empty line. */
  lemma BlockLines(e: Node)
    ensures IsElement(e, "pre") && !AllSpace(TextOf(e)) ==>
      ElementLines(e) == ["```", Strip(TextOf(e)), "```\n"]
    ensures IsElement(e, "h3") ==> ElementLines(e) == ["\n## " + Strip(TextOf(e)) + "\n"]
    ensures IsElement(e, "ul") ==> ElementLines(e) == ListLines(e, 0) + [""]
  {
  }

  /** A paragraph mentioning the score is bolded from its raw stripped text,
      with no `var` conversion; any other paragraph adds its inline text when
      that is not empty. */
  lemma ParagraphLines(e: Node)
    requires IsElement(e, "p")
    ensures Contains(TextOf(e), "配点") || Contains(TextOf(e), "Score") ==>
      ElementLines(e) == ["\n**" + Strip(TextOf(e)) + "**\n"]
    ensures !(Contains(TextOf(e), "配点") || Contains(TextOf(e), "Score")) ==>
      ElementLines(e) == if InlineText(e) == "" then [] else [InlineText(e)]
  {
  }

  // Properties of the list walk.

  /** `l` is a bullet at nesting level `j`: `2j` spaces, `- `, then a
      non-empty stripped text. */
  predicate BulletAt(l: string, j: nat)
  {
    2 * j + 2 < |l| && l[..2 * j + 2] == Indent(j) + "- " && IsStripped(l[2 * j + 2..])
  }

  /** Every line a list walk at level `k` emits is a bullet at level `k` or
      deeper. */
  lemma {:induction false} ListBullets(ul: Node, k: nat)
    ensures forall l :: l in ListLines(ul, k) ==> exists j :: k <= j && BulletAt(l, j)
    decreases ul, 1
  {
    match ul
    case Text(_) =>
    case Elem(_, _, _, cs) => ItemsBullets(cs, k);
  }

  lemma {:induction false} ItemsBullets(cs: seq<Node>, k: nat)
    ensures forall l :: l in ItemsLines(cs, k) ==> exists j :: k <= j && BulletAt(l, j)
    decreases cs, 0
  {
    if cs != [] {
      ItemsBullets(cs[..|cs| - 1], k);
      if IsElement(cs[|cs| - 1], "li") {
        ItemBullets(cs[|cs| - 1], k);
      }
    }
  }

  lemma {:induction false} ItemBullets(li: Node, k: nat)
    ensures forall l :: l in ItemLines(li, k) ==> exists j :: k <= j && BulletAt(l, j)
    decreases li, 2
  {
    match li
    case Text(_) =>
    case Elem(_, _, _, cs) =>
      var text := InlineText(li);
      var own := if text != "" then [Indent(k) + "- " + text] else [];
      if text != "" {
        var line := Indent(k) + "- " + text;
        assert line[..2 * k + 2] == Indent(k) + "- ";
        assert line[2 * k + 2..] == text;
        assert BulletAt(line, k);
      }
      match FirstNamed(cs, "ul")
      case Some(nested) =>
        ListBullets(nested, k + 1);
        assert ItemLines(li, k) == own + ListLines(nested, k + 1);
      case None =>
        assert ItemLines(li, k) == own;
  }

  /** Every line indented by one more level. */
  function Shifted(ls: seq<string>): (r: seq<string>)
    ensures |r| == |ls|
  {
    seq(|ls|, i requires 0 <= i < |ls| => "  " + ls[i])
  }

  lemma ShiftedAppend(a: seq<string>, b: seq<string>)
    ensures Shifted(a + b) == Shifted(a) + Shifted(b)
  {
  }

  /** Walking a list one level deeper is walking it at its own level and
      indenting every line by two more spaces. */
  lemma {:induction false} ListShift(ul: Node, k: nat)
    ensures ListLines(ul, k + 1) == Shifted(ListLines(ul, k))
    decreases ul, 1
  {
    match ul
    case Text(_) =>
    case Elem(_, _, _, cs) => ItemsShift(cs, k);
  }

  lemma {:induction false} ItemsShift(cs: seq<Node>, k: nat)
    ensures ItemsLines(cs, k + 1) == Shifted(ItemsLines(cs, k))
    decreases cs, 0
  {
    if cs != [] {
      var last := cs[|cs| - 1];
      ItemsShift(cs[..|cs| - 1], k);
      var tail := if IsElement(last, "li") then ItemLines(last, k) else [];
      if IsElement(last, "li") {
        ItemShift(last, k);
      }
      ShiftedAppend(ItemsLines(cs[..|cs| - 1], k), tail);
    }
  }

  lemma {:induction false} ItemShift(li: Node, k: nat)
    ensures ItemLines(li, k + 1) == Shifted(ItemLines(li, k))
    decreases li, 2
  {
    match li
    case Text(_) =>
    case Elem(_, _, _, cs) =>
      var text := InlineText(li);
      var own := if text != "" then [Indent(k) + "- " + text] else [];
      var own' := if text != "" then [Indent(k + 1) + "- " + text] else [];
      BulletShift(text, k);
      var nested := if FirstNamed(cs, "ul").Some? then ListLines(FirstNamed(cs, "ul").value, k + 1) else [];
      var nested' := if FirstNamed(cs, "ul").Some? then ListLines(FirstNamed(cs, "ul").value, k + 2) else [];
      assert ItemLines(li, k) == own + nested;
      assert ItemLines(li, k + 1) == own' + nested';
      if FirstNamed(cs, "ul").Some? {
        ListShift(FirstNamed(cs, "ul").value, k + 1);
      }
      assert nested' == Shifted(nested);
      ShiftedAppend(own, nested);
  }

  /** The bullet of an item, one level deeper, is the same bullet with two
      more leading spaces. */
  lemma BulletShift(text: string, k: nat)
    ensures (if text != "" then [Indent(k + 1) + "- " + text] else []) ==
      Shifted(if text != "" then [Indent(k) + "- " + text] else [])
  {
    if text != "" {
      assert Indent(k + 1) == "  " + Indent(k);
      AppendAssoc("  ", Indent(k), "- ");
      AppendAssoc("  ", Indent(k) + "- ", text);
    }
  }

  /** An item with empty inline text emits no bullet, yet its nested list is
      still walked one level deeper. */
  lemma EmptyItemStillRecurses(name: string, classes: seq<string>, id: string, cs: seq<Node>, k: nat)
    requires InlineText(Elem(name, classes, id, cs)) == ""
    ensures ItemLines(Elem(name, classes, id, cs), k) ==
      match FirstNamed(cs, "ul")
      case Some(nested) => ListLines(nested, k + 1)
      case None => []
  {
  }

  /** Only the first direct `ul` of an item is walked: another list appended
      to its children changes nothing. */
  lemma OnlyFirstNestedList(name: string, classes: seq<string>, id: string, cs: seq<Node>, extra: Node, k: nat)
    requires FirstNamed(cs, "ul").Some?
    requires IsElement(extra, "ul")
    ensures ItemLines(Elem(name, classes, id, cs + [extra]), k) == ItemLines(Elem(name, classes, id, cs), k)
  {
    FirstNamedAppend(cs, [extra], "ul");
    InlinePartsSnoc(cs, extra);
    assert InlinePart(extra) == "";
    assert InlineParts(cs) + "" == InlineParts(cs);
  }
}
