/** `AtCoderProblemParser`: one conversion of a parsed document into
    Markdown. The object owns an append-only buffer of lines; every method
    appends exactly the lines the functions of `Markdown` describe. */
module Parser {
  import opened Wrappers
  import opened Strings
  import opened Html
  import opened Inline
  import opened Markdown

  class ProblemParser {
    /** The parsed document; only the tree the HTML library yields is modelled. */
    const soup: Node
    const language: Language
    const patterns: LimitPatterns
    /** The Markdown lines emitted so far, in order. */
    var markdownContent: seq<string>

    constructor (soup: Node, language: Language, patterns: LimitPatterns)
      ensures this.soup == soup && this.language == language && this.patterns == patterns
      ensures markdownContent == []
    {
      this.soup := soup;
      this.language := language;
      this.patterns := patterns;
      markdownContent := [];
    }

    /** Appends the title line, the limits pair and the statement body, and
        returns the whole buffer joined by newlines. */
    method Parse() returns (md: string)
      modifies this
      ensures markdownContent == old(markdownContent) + DocumentLines(soup, language, patterns)
      ensures md == Join(markdownContent, "\n")
    {
      var title := TitleText(soup);
      if title != "" {
        markdownContent := markdownContent + ["# " + title + "\n"];
      }
      assert markdownContent == old(markdownContent) + TitleLines(soup);
      ghost var afterTitle := markdownContent;
      var limits := ExtractLimits(soup, patterns);
      if limits.Some? {
        var timeLine := "**Time Limit:** " + limits.value.time;
        var memoryLine := "**Memory Limit:** " + limits.value.memory + "\n";
        markdownContent := markdownContent + [timeLine];
        markdownContent := markdownContent + [memoryLine];
        AppendAssoc(afterTitle, [timeLine], [memoryLine]);
      }
      assert markdownContent == afterTitle + LimitsLines(soup, patterns);
      ghost var beforeBody := markdownContent;
      var taskStatement := Find(soup, IsTaskStatement);
      if taskStatement.Some? {
        LanguageFallback(soup, language);
        var langContent := Find(taskStatement.value, IsLangSpan(language));
        if langContent.Some? {
          ParseProblemContent(langContent.value);
        } else {
          ParseProblemContent(taskStatement.value);
        }
      }
      assert markdownContent == beforeBody + BodyLines(soup, language);
      AppendAssoc(old(markdownContent), TitleLines(soup), LimitsLines(soup, patterns));
      AppendAssoc(old(markdownContent), TitleLines(soup) + LimitsLines(soup, patterns), BodyLines(soup, language));
      md := Join(markdownContent, "\n");
    }

    /** Walks every `section` below `content`, or `content` itself when there
        is none. */
    method ParseProblemContent(content: Node)
      modifies this
      ensures markdownContent == old(markdownContent) + ContentLines(content)
    {
      var sections := FindAll(content, IsSection);
      if |sections| > 0 {
        var i := 0;
        while i < |sections|
          invariant 0 <= i <= |sections|
          invariant markdownContent == old(markdownContent) + SectionsLines(sections[..i])
        {
          SectionsLinesStep(sections, i);
          ParseSection(sections[i]);
          AppendAssoc(old(markdownContent), SectionsLines(sections[..i]), SectionLines(sections[i]));
          i := i + 1;
        }
        assert sections[..|sections|] == sections;
      } else {
        ParseSection(content);
      }
    }

    /** Appends the lines of each child of `section`, in order. */
    method ParseSection(section: Node)
      modifies this
      ensures markdownContent == old(markdownContent) + SectionLines(section)
      decreases section, 1
    {
      var children := Children(section);
      var i := 0;
      while i < |children|
        invariant 0 <= i <= |children|
        invariant markdownContent == old(markdownContent) + ChildrenLines(children[..i])
      {
        ChildrenLinesStep(children, i);
        ParseElement(children[i]);
        AppendAssoc(old(markdownContent), ChildrenLines(children[..i]), ElementLines(children[i]));
        i := i + 1;
      }
      assert children[..|children|] == children;
    }

    /** One iteration of the section walk: dispatches on the child's tag. */
    method ParseElement(element: Node)
      modifies this
      ensures markdownContent == old(markdownContent) + ElementLines(element)
      decreases element, 2
    {
      if element.Elem? {
        var raw := TextOf(element);
        if element.name == "h3" {
          markdownContent := markdownContent + ["\n## " + Strip(raw) + "\n"];
        } else if element.name == "p" {
          if Contains(raw, "配点") || Contains(raw, "Score") {
            markdownContent := markdownContent + ["\n**" + Strip(raw) + "**\n"];
          } else {
            var text := ConvertTextWithVariables(element);
            if text != "" {
              markdownContent := markdownContent + [text];
            }
          }
        } else if element.name == "ul" {
          ParseList(element, 0);
          markdownContent := markdownContent + [""];
        } else if element.name == "pre" {
          var codeText := Strip(raw);
          if codeText != "" {
            markdownContent := markdownContent + ["```"];
            markdownContent := markdownContent + [codeText];
            markdownContent := markdownContent + ["```\n"];
          }
        } else if element.name == "div" {
          ParseSection(element);
        }
      }
    }

    /** Appends the lines of each direct `li` child of `ul`, in order. */
    method ParseList(ul: Node, indentLevel: nat)
      modifies this
      ensures markdownContent == old(markdownContent) + ListLines(ul, indentLevel)
      decreases ul, 1
    {
      var children := Children(ul);
      var i := 0;
      while i < |children|
        invariant 0 <= i <= |children|
        invariant markdownContent == old(markdownContent) + ItemsLines(children[..i], indentLevel)
      {
        ItemsLinesStep(children, i, indentLevel);
        if IsElement(children[i], "li") {
          ParseItem(children[i], indentLevel);
          AppendAssoc(old(markdownContent), ItemsLines(children[..i], indentLevel), ItemLines(children[i], indentLevel));
        } else {
          assert ItemsLines(children[..i + 1], indentLevel) == ItemsLines(children[..i], indentLevel) + [];
        }
        i := i + 1;
      }
      assert children[..|children|] == children;
    }

    /** One iteration of the list walk: the item's bullet, indented two
        spaces per level, when its inline text is not empty, then the lines
        of its first direct `ul` child one level deeper. */
    method ParseItem(li: Node, indentLevel: nat)
      requires IsElement(li, "li")
      modifies this
      ensures markdownContent == old(markdownContent) + ItemLines(li, indentLevel)
      decreases li, 0
    {
      var indent := Indent(indentLevel);
      var liText := ConvertTextWithVariables(li);
      if liText != "" {
        markdownContent := markdownContent + [indent + "- " + liText];
      }
      ghost var afterBullet := markdownContent;
      var nestedUl := FirstNamed(li.children, "ul");
      if nestedUl.Some? {
        ParseList(nestedUl.value, indentLevel + 1);
      }
      AppendAssoc(old(markdownContent), if liText != "" then [indent + "- " + liText] else [],
        match nestedUl case Some(n) => ListLines(n, indentLevel + 1) case None => []);
      assert markdownContent == afterBullet + (match nestedUl case Some(n) => ListLines(n, indentLevel + 1) case None => []);
    }

    /** The inline text of `element`: its children's contributions gathered
        in order, joined and stripped. */
    method ConvertTextWithVariables(element: Node) returns (text: string)
      ensures text == InlineText(element)
      decreases element
    {
      var children := Children(element);
      var textParts: seq<string> := [];
      var i := 0;
      while i < |children|
        invariant 0 <= i <= |children|
        invariant Join(textParts, "") == InlineParts(children[..i])
      {
        var child := children[i];
        assert children[..i + 1][..i] == children[..i];
        var part: string;
        match child {
          case Text(s) =>
            part := s;
          case Elem(name, _, _, _) =>
            if name == "var" {
              var varText := Strip(TextOf(child));
              varText := SubscriptBraces(varText);
              part := "$" + varText + "$";
            } else if name == "code" {
              part := "`" + Strip(TextOf(child)) + "`";
            } else if name == "ul" || name == "ol" {
              part := "";
            } else if name == "strong" {
              part := "**" + Strip(TextOf(child)) + "**";
            } else if name == "em" {
              part := "*" + Strip(TextOf(child)) + "*";
            } else {
              part := ConvertTextWithVariables(child);
            }
        }
        if !(IsElement(child, "ul") || IsElement(child, "ol")) {
          JoinSnoc(textParts, part, "");
          textParts := textParts + [part];
        }
        assert part == InlinePart(child);
        i := i + 1;
      }
      assert children[..|children|] == children;
      text := Strip(Join(textParts, ""));
    }
  }
}
