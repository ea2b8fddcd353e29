# AtCoder problem page to Markdown: a verified model

This project models the converter that turns an AtCoder task page into
Markdown. It takes the page's parsed document tree and a language (`ja` or
`en`), and a `ProblemParser` object fills an append-only buffer of
Markdown lines in this order:

1. A title line, from the `<title>` element or else from `span.h2`.
2. The time and memory limits, as a pair of lines.
3. The statement body. This is the `span.lang-<lang>` inside
   `div#task-statement`, or the whole div when that span is missing. Each
   `section` of it is walked separately.

The walk turns elements into Markdown as follows:

- `h3` becomes a heading.
- `p` becomes a paragraph, or a bold score line.
- `ul` becomes an indented bullet list.
- `pre` becomes a fenced code block.
- `div` is walked recursively.
- Inline `var`, `code`, `strong` and `em` become `$...$`, backticks, `**`
  and `*`. Inside a `var`, `_x` becomes `_{x}`.

The result of `parse` is the buffer joined by newlines. The model also
covers two pieces of the command-line front end:

- the file name derived from a problem URL;
- the test that decides between URL and file input.

The project has these modules:

- `Wrappers`: `Option`.
- `Strings`: Python's `isspace`, `strip`, substring `in`, `join` and
  `"  " * n`.
- `Html`: the document tree, plus `.text`, `.string`, `find`, `find_all`
  and `find(..., recursive=False)`.
- `Inline`: the inline converter and the `re.sub(r'_(\w+)', r'_{\1}', ...)`
  rewrite.
- `Markdown`: the lines each step emits, as functions of the tree, with
  their properties.
- `Parser`: the `ProblemParser` class. Its methods append to
  `markdownContent`, and each is proved to append exactly the lines the
  matching `Markdown` function describes.
- `Cli`: the output file name and the input dispatch.
- `Samples`: fragments of the repository's sample pages, worked through.

There are two copies of the parser. `main.py:21-168` and
`atcoder_problem_converter/main.py:17-115` are the same statement for
statement, so one model serves both. The package copy is cited below.
`main.py`'s `main` only ever reads files; it is modelled as
`Cli.LegacyDispatch`.

Variable subscripts are rewritten by `re.sub(r'_(\w+)', r'_{\1}', ...)`,
which braces every non-overlapping `_` + word-run match. A match also
absorbs later underscores, so `x_1+y_2` gives `x_{1}+y_{2}` and `a_i_j`
gives `a_{i_j}`.

## Model

| member | source | states |
|---|---|---|
| Parser.ProblemParser.constructor | atcoder_problem_converter/main.py:12-15 | the buffer starts empty; the soup and language are stored |
| Parser.ProblemParser.Parse | atcoder_problem_converter/main.py:17-32 | appends exactly `DocumentLines`: the title lines, then the limits lines, then the body of the chosen container. Returns the whole buffer joined by `\n` in append order |
| Parser.ProblemParser.ParseProblemContent | atcoder_problem_converter/main.py:53-59 | appends the lines of every `section` descendant in document order, or, when there is none, the lines of the container walked as one section |
| Parser.ProblemParser.ParseSection | atcoder_problem_converter/main.py:61-84 | appends the lines of each child in order (`SectionLines`) |
| Parser.ProblemParser.ParseElement | atcoder_problem_converter/main.py:63-84 | the tag dispatch inside the section loop. Appends exactly `ElementLines(element)` |
| Parser.ProblemParser.ParseList | atcoder_problem_converter/main.py:86-94 | appends exactly `ListLines(ul, level)`: the lines of each direct `li` child in order, other children adding nothing |
| Parser.ProblemParser.ParseItem | atcoder_problem_converter/main.py:89-94 | appends exactly `ItemLines(li, level)`: the bullet `2·level spaces, - , text` when the item's inline text is non-empty, then the lines of its first direct `ul` one level deeper |
| Parser.ProblemParser.ConvertTextWithVariables | atcoder_problem_converter/main.py:96-115 | the loop's joined and stripped parts equal the inline text `InlineText(element)` |
| Inline.InlinePart | atcoder_problem_converter/main.py:99-114 | one child's contribution: a string as is, `var` as `$` + the rewritten stripped text + `$`, `code` in backticks, `strong` in `**`, `em` in `*`, `ul`/`ol` nothing, any other element its own converted text |
| Inline.InlineParts | atcoder_problem_converter/main.py:97-115 | the contributions of the children concatenated in document order (`''.join(text_parts)`) |
| Inline.NestedElementTransparent | atcoder_problem_converter/main.py:113-115 | an element wrapping only another non-special element converts to the same text as that element: the inner result is already stripped, so the outer `.strip()` changes nothing |
| Inline.InlineText | atcoder_problem_converter/main.py:115 | the converted text never starts or ends with whitespace |
| Inline.InlineIgnoresLists | atcoder_problem_converter/main.py:107-108 | removing the nested `ul`/`ol` children does not change the converted text |
| Inline.InlinePlainText | atcoder_problem_converter/main.py:99-100 | children that are all strings pass through unchanged: the parts are the concatenated `.text` |
| Inline.SubscriptBraces | atcoder_problem_converter/main.py:103 | `re.sub(r'_(\w+)', r'_{\1}', s)` scanned from the left: a `_` followed by a word character starts a match whose group is the whole word run after it; the run is braced and scanning resumes after it. Its properties are the lemmas below |
| Inline.SubscriptBracesOnlyAddsBraces | atcoder_problem_converter/main.py:103 | with braces erased, the rewrite's output equals its input: only braces are inserted |
| Inline.SubscriptBracesLength | atcoder_problem_converter/main.py:103 | the output is never shorter than the input, and is strictly longer when some `_` is followed by a word character |
| Inline.SubscriptBracesFixpoint | atcoder_problem_converter/main.py:103 | the rewrite leaves the text unchanged if and only if no `_` is followed by a word character |
| Inline.SubscriptBracesPlainName | atcoder_problem_converter/main.py:101-104 | `a` stays `a` |
| Inline.SubscriptBracesSimple | atcoder_problem_converter/main.py:101-104 | `x_1` becomes `x_{1}` |
| Inline.SubscriptBracesAbsorbs | atcoder_problem_converter/main.py:103 | the group absorbs later underscores: `a_i_j` becomes `a_{i_j}` |
| Inline.SubscriptBracesEveryGroup | atcoder_problem_converter/main.py:103 | every separate group is braced: `x_1+y_2` becomes `x_{1}+y_{2}` |
| Inline.WordRunLength | atcoder_problem_converter/main.py:103 | the greedy `\w+` run: every character in it is a word character, and the next one is not |
| Markdown.ExtractTitle | atcoder_problem_converter/main.py:34-41 | the stripped text of the first `title` when that text is non-empty, else the stripped text of the first `span.h2`, else nothing. A title, when there is one, has no whitespace at either end; there is none only when no `span.h2` exists |
| Markdown.ExtractLimits | atcoder_problem_converter/main.py:43-51 | the Japanese pattern on the limits paragraph's text, else the English one. Limits are found only when a limits paragraph exists and its text is non-empty |
| Markdown.StatementContainer | atcoder_problem_converter/main.py:25-31 | the `span.lang-<lang>` inside `div#task-statement`, else the div; there is a container exactly when the div exists |
| Markdown.ContentLines | atcoder_problem_converter/main.py:53-59 | the lines of every `section` descendant walked in document order, or of the container walked as one section when it has none |
| Markdown.FirstLineIsTitleIff | atcoder_problem_converter/main.py:18-20 | the output's first line has the form `# ...\n` exactly when the extracted title is non-empty, and is then `# <title>\n`. No limits or body line has that form |
| Markdown.TitleTagWins | atcoder_problem_converter/main.py:35-37 | a `<title>` with non-blank text gives the title line, whatever `span.h2` holds |
| Markdown.BlankTitleTagSuppresses | atcoder_problem_converter/main.py:35-37 | a `<title>` whose text is non-empty but all whitespace gives no title line and no fallback to `span.h2` |
| Markdown.TitleFallsBackToHeading | atcoder_problem_converter/main.py:38-41 | with no `<title>` carrying text, the first `span.h2` decides: a title line when its text is not blank, else none |
| Markdown.LimitsParagraphHasText | atcoder_problem_converter/main.py:44-45 | the paragraph found by the `string=` search always has non-empty `.text` |
| Markdown.LimitsPaired | atcoder_problem_converter/main.py:21-24 | right after the title come either the adjacent pair `**Time Limit:** t` and `**Memory Limit:** m\n`, or no limits line at all, followed by the body |
| Markdown.JapanesePatternFirst | atcoder_problem_converter/main.py:46-50 | the Japanese pattern is tried first; the English pattern is consulted only when the Japanese one fails |
| Markdown.NoStatementNoBody | atcoder_problem_converter/main.py:25-26 | without `div#task-statement` nothing follows the title and limits |
| Markdown.LanguageFallback | atcoder_problem_converter/main.py:27-31 | the `span.lang-<lang>` inside the div is walked when it exists, else the whole div |
| Markdown.SilentChildren | atcoder_problem_converter/main.py:62-84 | string children and tags other than `h3`, `p`, `ul`, `pre`, `div` add nothing. A `pre` adds nothing exactly when its text is all whitespace |
| Markdown.SilentChildRemovable | atcoder_problem_converter/main.py:62-64 | removing a child that adds nothing does not change the section's lines |
| Markdown.BlockLines | atcoder_problem_converter/main.py:65-82 | a non-blank `pre` adds exactly the fence, its stripped text and the closing fence with a newline. `h3` adds `\n## <stripped>\n`. `ul` adds its list lines and then exactly one `""` |
| Markdown.ParagraphLines | atcoder_problem_converter/main.py:67-73 | a `p` whose text contains `配点` or `Score` adds `\n**<stripped raw text>**\n`, without inline conversion. Any other `p` adds its inline text only when that text is non-empty |
| Markdown.ListBullets | atcoder_problem_converter/main.py:86-94 | every line of a list walked at level k is, for some j ≥ k, 2j spaces, `- ` and a non-empty stripped text |
| Markdown.ListShift | main.py:126-139 | walking a list one level deeper prefixes every one of its lines with two more spaces and changes nothing else |
| Markdown.EmptyItemStillRecurses | atcoder_problem_converter/main.py:89-94 | an `li` with empty inline text emits no bullet, but its first direct `ul` is still walked one level deeper |
| Markdown.OnlyFirstNestedList | atcoder_problem_converter/main.py:92-94 | adding more direct `ul` children after the first leaves an item's lines unchanged |
| Markdown.BodyNoTitle | atcoder_problem_converter/main.py:25-31 | no line of the body has the form of a title line |
| Markdown.ChildrenLinesAppend | atcoder_problem_converter/main.py:62 | walking a concatenation of children is walking each part in turn |
| Html.TextOf | atcoder_problem_converter/main.py:36-37 | `.text`: the concatenation of every string below the node, in document order |
| Html.StringOf | atcoder_problem_converter/main.py:44 | `.string`: the one string reached through a chain of only children, or nothing when an element on the way has zero or several children |
| Html.FindAll | atcoder_problem_converter/main.py:54 | `find_all`: every node it returns satisfies the query |
| Html.FindAllIsFilter | atcoder_problem_converter/main.py:54 | `find_all` returns the strict descendants in document order that satisfy the query |
| Html.FindIsFirstOfFindAll | atcoder_problem_converter/main.py:25 | `find` returns the first result of `find_all`, or nothing when that is empty |
| Html.Find | atcoder_problem_converter/main.py:35 | a node that `find` returns satisfies the query |
| Html.FirstNamed | atcoder_problem_converter/main.py:92 | `find('ul', recursive=False)` returns the first direct child with that tag name: it has the name and no earlier child has it. It returns nothing exactly when no direct child has that name |
| Html.StringOfIsText | atcoder_problem_converter/main.py:44-45 | when `.string` exists it equals `.text` |
| Strings.IsSpace | atcoder_problem_converter/main.py:37 | `str.isspace()` for one character: the ASCII whitespace, the separators `\x1c`-`\x1f`, and the Unicode spaces and line and paragraph separators |
| Strings.Strip | atcoder_problem_converter/main.py:37 | `strip()` leaves no whitespace at either end, is empty exactly for all-whitespace input, and otherwise cuts exactly the whitespace prefix and suffix |
| Strings.StripIdempotent | atcoder_problem_converter/main.py:114-115 | stripping twice is stripping once: the nested element's stripped result, stripped again by the outer `.strip()`, is unchanged |
| Strings.Contains | atcoder_problem_converter/main.py:68 | `sub in s`: `sub` is a prefix of `s` or of some suffix of `s` |
| Strings.ContainsIff | atcoder_problem_converter/main.py:68 | `sub in s` holds exactly when `sub` occurs at some index of `s` |
| Strings.Join | atcoder_problem_converter/main.py:32 | `sep.join(parts)`: the parts in order with `sep` between neighbours, empty for no parts |
| Strings.JoinAppend | main.py:45 | joining two non-empty runs of lines is joining each and gluing them with one separator: the join keeps append order |
| Strings.Indent | atcoder_problem_converter/main.py:87 | `"  " * level` is 2·level spaces |
| Cli.DefaultOutputFromUrl | atcoder_problem_converter/main.py:135-142 | the derived file name always ends in `.md` and contains no `/` |
| Cli.RStripSlash | atcoder_problem_converter/main.py:136 | `rstrip('/')` gives a prefix of the input that does not end in `/`; everything cut off is `/` |
| Cli.LastSegment | atcoder_problem_converter/main.py:136 | `rsplit('/', 1)[-1]` gives a suffix of the input containing no `/`; it is the whole input or is preceded by a `/` |
| Cli.DefaultOutputAllSlashes | atcoder_problem_converter/main.py:138-139 | an empty or all-slash URL gives `problem.md` |
| Cli.DefaultOutputFromSegment | atcoder_problem_converter/main.py:136-141 | otherwise the name is the last non-empty segment, with `.md` appended only when it does not already end in `.md` |
| Cli.DefaultOutputKeepsMd | atcoder_problem_converter/main.py:140-141 | a URL ending in `.md` yields its last segment unchanged, which is a suffix of the URL |
| Cli.DefaultOutputTaskPage | atcoder_problem_converter/main.py:135-142 | `https://atcoder.jp/contests/abc419/tasks/abc419_e` gives `abc419_e.md` |
| Cli.MatchesUrlScheme | atcoder_problem_converter/main.py:195 | the anchored pattern `^https?://`: `http`, then `://` or `s://` |
| Cli.UrlSchemeIff | atcoder_problem_converter/main.py:195 | the pattern `^https?://` matches exactly the inputs starting with `http://` or `https://` |
| Cli.Dispatch | atcoder_problem_converter/main.py:195-198 | the input is fetched as a URL if and only if it starts with `http://` or `https://`; otherwise it is read as a file path. Either way the argument is passed on unchanged |
| Cli.LegacyDispatch | main.py:224 | the stand-alone script's `main` always reads the argument as a file |
| Cli.LegacyAgreesOnFiles | main.py:224 | the older script, which always reads a file, agrees with the package's dispatch exactly on inputs that are not URLs |
| Samples.SampleParagraphLine | atcoder_problem_converter/main.py:67-73 | `<p>Example with variable <var>x_1</var>.</p>` adds the one line `Example with variable $x_{1}$.` |
| Samples.SampleSection | atcoder_problem_converter/main.py:61-73 | the URL sample's section walks to `\n## Problem Statement\n` followed by that paragraph line |
| Samples.SampleVar | atcoder_problem_converter/main.py:101-104 | `<var>x_1</var>` is typeset as `$x_{1}$` |

## Left out

- HTML parsing. BeautifulSoup is not modelled, only the tree it produces
  (`Html.Node`). Attribute handling is limited to the `id` and the class
  list; a class query matches when the class is one of the element's
  classes.
- Comments and other special string nodes are not told apart from text. The
  model counts them in `.text` and passes them through in the inline
  converter.
- The two limits regular expressions are parameters (`LimitPatterns`),
  because no regex engine is modelled. What is proved is their order and
  that their result is emitted as a pair, not what they match.
- Inline.IsWordChar: `\w` is Unicode-aware in Python. The predicate is a
  subset of it: exact on Latin-1, the Hiragana and Katakana blocks and the
  CJK unified ideographs U+4E00-U+9FFF, but only the unaccented letters of
  Greek and only the digits and Latin letters of the full-width forms. Other
  scripts (Cyrillic, Hangul, accented Greek and so on) are treated as
  non-word characters.
- Markdown.IsLimitsParagraph: `string=re.compile(...)` is a regex search on
  `.string`. With these two literal alternatives that search is a substring
  test, which is what the model uses.
- `convert_file` and `convert_url`: file reading and writing, the HTTP
  fetch with its timeout and status check, `requests` import errors,
  `print` and `sys.exit`. They are I/O; only the pure steps between them
  (`_default_output_from_url`, the parser) are modelled.
- `Path` objects: `_default_output_from_url` returns `Path(tail)`. Since
  `tail` has no `/` and ends in `.md`, `Path` leaves it as it is, so a
  string is returned. `Path.with_suffix('.md')` for file input is not
  modelled.
- `argparse`: option parsing, the default language and its `ja`/`en`
  choices. The language is the `Markdown.Language` datatype.
- Parser.ProblemParser.ParseElement: this is the body of the source's
  section loop, pulled out as its own method. The tag dispatch is the same.
- Parser.ProblemParser.ParseItem: this is the body of the source's `li`
  loop in `_parse_list`, pulled out as its own method. The steps are the same.
