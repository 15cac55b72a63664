# A verified model of the blog build script

The model covers the core of `scripts/build.mjs`, the script that turns Markdown posts with a front-matter header into a static site. It covers:

- the HTML and XML escapers and the JSON-LD wrapper;
- the front-matter parser and the post validator;
- the Markdown converter in three passes (fence extraction, escaping, block loop), with its blockquote paragraph grouping;
- the inline formatter with its URL allowlist;
- the `{{key}}` template engine and the page assembly of `renderPage`, plus the post-list item;
- the top-level post loop, its draft filter, the date sort and the home-page and feed slices.

The steps that the script performs as loops over changing state are Dafny `method`s: the fence pass, the block loop and its inner run loops, the front-matter line loop, `parseInlineBlocks`, `render` and the post loop. Each method is proved equal to a specification function:

- `Fences.ExtractFences`, `Markdown.BuildBlocks`, `Markdown.ParseInlineBlocks` and `Markdown.MarkdownToHtml`;
- `FrontMatter.ParseFrontMatter`;
- `Template.Render` and `Template.RenderPage`;
- `Selection.ReadPosts`.

`validatePost`'s loop over the required fields and the `.map` calls (list items in the front matter, the paragraphs of a blockquote, the tags of a post-list item) compute a value without other effects, and are functions: `Validate.FirstMissing`, `FrontMatter.ListItems`, `Markdown.QuoteHtml` and `Template.TagsHtml`. The properties the site relies on are lemmas about those functions.

Files, one module each:

| file | module | what it holds |
|---|---|---|
| `js_text.dfy` | `JsText` | JavaScript string operations the script uses: `trim`, `toLowerCase`, `split(/\r?\n/)`, `split`/`join`, literal `replaceAll` |
| `escape.dfy` | `Escape` | `escapeHtml`, `escapeXml`, `wrapJsonLd`, and a decoder used to state the round trips |
| `front_matter.dfy` | `FrontMatter` | `parseFrontMatter` |
| `validate.dfy` | `Validate` | `validatePost`, the slug regular expression and a kebab-case reference definition |
| `url.dfy` | `Url` | `isSafeUrl` |
| `inline.dfy` | `Inline` | `inlineFormat`, with each regular expression written as a leftmost, shortest-match scanner |
| `inline_safety.dfy` | `InlineSafety` | what `inlineFormat` can emit: only its own tags, and only anchors with safe URLs |
| `image_safety.dfy` | `ImageSafety` | every image `inlineFormat` emits has a safe `src` |
| `fences.dfy` | `Fences` | the first two passes of `markdownToHtml` |
| `markdown.dfy` | `Markdown` | the block loop, `parseInlineBlocks` and the converter |
| `markdown_facts.dfy` | `MarkdownFacts` | properties of headings, lists, fences and paragraphs |
| `page_safety.dfy` | `PageSafety` | what the converter can emit when raw HTML is not allowed: only its own tags, safe links and images, closed attributes |
| `markdown_example.dfy` | `MarkdownExample` | a heading followed by a paragraph, worked out in full |
| `template.dfy` | `Template` | `render`, `umamiSnippet`, `renderPage`, `postListItemHtml` |
| `selection.dfy` | `Selection` | the post loop, the draft filter, the sort and the slices |

Modelling choices:

- A JavaScript string is a `seq<char>`, and a Dafny `char` is a Unicode scalar value, not a UTF-16 code unit. The model therefore does not see surrogate pairs; the one place where this changes a result is the string comparison (see Selection.LexLess under Left out). Whitespace (`\s`, `trim`) is the full ECMAScript set.
- A front-matter value is `Str`, `List` or `Bool`. Metadata is a `map`.
- A code-fence placeholder is a tagged line, `FencePh(k)`, rather than a string that starts with `\x00FENCE`.
- The object that `renderPage` builds is a sequence of key/value entries in insertion order. A spread keeps the position of a key that is already present; `delete` removes the entry.
- The site configuration is the `Site` record: title, URL, author, Umami settings, the current year and the site's JSON-LD text. `config.mjs` sets `POSTS_PER_RSS` to 20, and `Selection.PostsPerRss` has the same value.

## Model

| member | source | states |
|---|---|---|
| JsText.SplitLines | scripts/build.mjs:98 | splitting at `\r?\n` gives at least one piece, and no piece holds a line feed |
| JsText.ReplaceAllIsJoinOfSplit | scripts/build.mjs:302 | a literal replace-all is the split at the pattern joined with the replacement |
| JsText.ReplaceAllFree | scripts/build.mjs:302 | a literal replace-all of a pattern that does not occur changes nothing |
| JsText.SplitOnJoin | scripts/build.mjs:65 | splitting then joining with the same separator gives the text back |
| Escape.EscapeHtmlIsByChar | scripts/build.mjs:36-42 | the chain of four global replacements, `&` first, equals escaping each character on its own, so nothing is escaped twice |
| Escape.EscapeXmlIsByChar | scripts/build.mjs:44-51 | the same for the five XML replacements |
| Escape.EscapeHtmlSafe | scripts/build.mjs:36-42 | the output has no `<`, `>` or `"`, and every `&` in it begins `&amp;`, `&lt;`, `&gt;` or `&quot;` |
| Escape.EscapeXmlSafe | scripts/build.mjs:44-51 | the same, and no `'` is left either |
| Escape.EscapeHtmlRoundTrip | scripts/build.mjs:36-42 | decoding the entities of the output gives the input back |
| Escape.EscapeHtmlPlain | scripts/build.mjs:36-42 | text without `&`, `<`, `>` or `"` is left unchanged |
| Escape.EscapeXmlRoundTrip | scripts/build.mjs:44-51 | the same for the XML escaper |
| Escape.SplitClosersShape | scripts/build.mjs:341 | after every `</` is rewritten to `<\/`, no `<` is followed by `/` |
| Escape.WrapJsonLdCannotCloseEarly | scripts/build.mjs:339-343 | the block starts with the opening script tag, ends with `</script>`, and has no other `</` before that end |
| Escape.WrapJsonLdKeepsCleanJson | scripts/build.mjs:339-343 | JSON without `</` is embedded unchanged |
| FrontMatter.FindHeader | scripts/build.mjs:55 | a header match lies within the text, its group before the closing delimiter |
| FrontMatter.HeaderFoundIff | scripts/build.mjs:55-56 | a header is found if and only if the text opens with `---` and a line break and later has a line break followed by `---` |
| FrontMatter.ClosingAtIsNewlineDashes | scripts/build.mjs:55 | a closing delimiter is recognised exactly where a line break, with an optional `\r` before it, is followed by `---` |
| FrontMatter.StripQuotes | scripts/build.mjs:65-68 | one leading and one trailing quote are removed, each independently of the other |
| FrontMatter.ParseValueKinds | scripts/build.mjs:62-72 | a value is a list exactly when it is bracketed, with one item per comma piece; otherwise it is a boolean exactly when the quote-stripped text is `true` or `false`, and otherwise the quote-stripped string |
| FrontMatter.ListItemsShape | scripts/build.mjs:65 | a list value has one item more than it has commas, and no item holds a comma |
| FrontMatter.ParseLine | scripts/build.mjs:59-60 | a header line without `:` is ignored |
| FrontMatter.ParseLineFirstColon | scripts/build.mjs:59-62 | the key is the trimmed text before the first colon, and the value is parsed from the trimmed rest |
| FrontMatter.MetaOfHas | scripts/build.mjs:57-74 | a key is in the metadata exactly when some header line defines it |
| FrontMatter.MetaOfLast | scripts/build.mjs:73 | the last line that defines a key decides its value |
| FrontMatter.ReadMeta | scripts/build.mjs:57-74 | the line loop builds the metadata of the header lines |
| FrontMatter.ParseFrontMatter | scripts/build.mjs:54-77 | fails exactly when no header is found; otherwise the metadata comes from the header lines and the body is the trimmed text after the match |
| Validate.SlugMatchesIsKebab | scripts/build.mjs:85 | the slug pattern accepts exactly the non-empty runs of `[a-z0-9]` joined by single hyphens |
| Validate.SlugMatchesSafe | scripts/build.mjs:84-85 | an accepted slug has only `[a-z0-9-]` and starts and ends with a letter or digit, so it cannot climb out of the posts directory |
| Validate.SlugExamplesBadChars | scripts/build.mjs:85 | `My-Post`, `post_1` and `../etc` are rejected |
| Validate.SlugExamplesBadHyphens | scripts/build.mjs:85 | `-post`, `post-` and `a--b` are rejected |
| Validate.SlugExampleAccepted | scripts/build.mjs:85 | `my-post-2` is accepted |
| Validate.FirstMissing | scripts/build.mjs:80-83 | the first required field in order that is missing or falsy is named; none is named when all are truthy |
| Validate.ValidatePost | scripts/build.mjs:79-88 | accepts if and only if all five fields are truthy and the slug is kebab-case; a missing field is reported before a bad slug, and the first one in order is reported |
| Url.IsSafeUrlStart | scripts/build.mjs:242-251 | a URL is safe if and only if, lower-cased with leading whitespace removed, it starts with `http://`, `https://`, `mailto:`, `#` or `/` |
| Url.SafeUrlNotScript | scripts/build.mjs:242-251 | no safe URL starts with `javascript:`, `data:` or `vbscript:` in any letter case |
| Url.ScriptSchemesFail | scripts/build.mjs:242-251 | script schemes are rejected, however they are padded or cased |
| Url.UnsafeByFirst | scripts/build.mjs:244-250 | a URL whose first character opens none of the allowed prefixes is rejected |
| Url.UrlExampleUpperCase | scripts/build.mjs:243 | ` HTTPS://x` is accepted, because the URL is trimmed and lower-cased first |
| Url.SafeUpToQuote | scripts/build.mjs:261-273 | a safe URL stays safe when cut at its first `"`, which is where the emitted attribute ends |
| Inline.BoldAtShortest | scripts/build.mjs:255 | the bold scanner finds a match whenever the pattern matches, and takes the shortest one |
| Inline.ItalicAtShortest | scripts/build.mjs:257 | the same for italics |
| Inline.CodeAtMatch | scripts/build.mjs:259 | the code scanner returns a group exactly when the code pattern matches with that group |
| Inline.ImageAtMatch | scripts/build.mjs:261 | the image scanner returns the alt and URL groups exactly when the image pattern matches with them |
| Inline.LinkAtMatch | scripts/build.mjs:268 | the link scanner returns the text and URL groups exactly when the link pattern matches with them |
| Inline.ScanLeftmost | scripts/build.mjs:255-268 | a global replacement keeps the text before the leftmost match, substitutes the match and continues after it |
| Inline.ImageStepGate | scripts/build.mjs:261-266 | an image becomes an `<img>` tag for a safe URL and its alt text otherwise |
| Inline.LinkStepGate | scripts/build.mjs:268-273 | a link becomes an anchor for a safe URL and its label otherwise |
| Inline.LinkDegrades | scripts/build.mjs:268-273 | a link with an unsafe URL leaves only its label |
| Inline.ScriptLinkDegrades | scripts/build.mjs:267-273 | a link `[x](url)` whose `)`-free URL starts with `javascript:`, after any leading whitespace and in any letter case, becomes `x`, and the text after it goes on through the link pass; since the URL stops at the first `)`, `[x](javascript:alert(1))` leaves `x)` |
| Inline.InlineFormatPlain | scripts/build.mjs:253-275 | text without `*`, backquote or `[` passes through unchanged |
| Inline.InlineFormatLinksOnly | scripts/build.mjs:253-275 | without `*`, backquote or `!`, only the link pass changes anything |
| Inline.BoldOnly | scripts/build.mjs:253-275 | one `**...**` span on one line, in text with no other `*`, backquote or `[`, becomes a `strong` element and nothing else changes |
| InlineSafety.ApplyTags | scripts/build.mjs:255-273 | each pass keeps every `<` the opening of a tag the formatter emits |
| InlineSafety.FormatTagsClosed | scripts/build.mjs:255-259 | the formatting tags contain no anchor and leave no bare `<` at the end |
| InlineSafety.InlineFormatSafe | scripts/build.mjs:253-275 | on escaped text, every `<` in the output opens one of the formatter's own tags, and every anchor has a safe URL |
| ImageSafety.ApplyImages | scripts/build.mjs:255-273 | each pass, the link pass included, keeps every image's `src` a safe URL |
| ImageSafety.InlineFormatImages | scripts/build.mjs:253-275 | on escaped text, every `<img` in the output has a `src` that is a safe URL |
| Fences.ExtractFences | scripts/build.mjs:101-124 | the fence loop produces the lines and the fence blocks of the extraction state machine |
| Fences.ClosedFence | scripts/build.mjs:109-118 | a closed fence adds one fence block, the escaped and joined body with its language class, and one placeholder line |
| Fences.UnclosedFence | scripts/build.mjs:108-124 | an unclosed fence adds neither output lines nor a block |
| Fences.NoFences | scripts/build.mjs:108-124 | without an opening fence, every line passes through and there are no fence blocks |
| Fences.RunNumbered | scripts/build.mjs:117-118 | the placeholders count up from 0, one per fence block |
| Fences.EscapeLinesDecode | scripts/build.mjs:127-130 | with raw HTML allowed every line is left as it is; otherwise each text line becomes escaped text that decodes back to the original line; placeholder lines are always kept |
| Fences.EscapeKeepsPlaceholders | scripts/build.mjs:127-130 | escaping keeps the placeholders and their order |
| MarkdownFacts.FencesResolve | scripts/build.mjs:141-146 | every placeholder names a fence block that exists, so the block loop emits that block itself |
| MarkdownFacts.FenceBlockContent | scripts/build.mjs:113-117 | a fence block's content is escaped text that decodes to the fence's lines, whatever the raw-HTML setting |
| MarkdownFacts.FenceBlockClass | scripts/build.mjs:116 | the block has a language class exactly when the fence names a language |
| Markdown.RunBlock | scripts/build.mjs:171-217 | a run block takes the longest run of lines of its kind, at least one |
| Markdown.Front | scripts/build.mjs:137-221 | each block takes at least one line, so the block loop ends |
| Markdown.CollectRun | scripts/build.mjs:172-217 | each inner loop collects the run of its block kind |
| Markdown.QuoteStep | scripts/build.mjs:171-179 | the blockquote branch emits its block and moves past the run |
| Markdown.BulletStep | scripts/build.mjs:182-190 | the bullet-list branch emits its block and moves past the run |
| Markdown.NumberStep | scripts/build.mjs:193-201 | the numbered-list branch emits its block and moves past the run |
| Markdown.ParaStep | scripts/build.mjs:204-220 | the paragraph branch emits its block and moves past the run |
| Markdown.BlockStep | scripts/build.mjs:137-221 | one iteration emits the front block of the remaining lines, with the first matching test deciding |
| Markdown.NextBlock | scripts/build.mjs:137-221 | each iteration advances and keeps the rest of the output unchanged |
| Markdown.BlocksOfFront | scripts/build.mjs:137-221 | the blocks are emitted in input order |
| Markdown.BuildBlocks | scripts/build.mjs:133-221 | the block loop produces the blocks of the escaped lines |
| Markdown.MarkdownToHtml | scripts/build.mjs:91-224 | the converter is the three passes, with the blocks joined by newlines |
| PageSafety.ToHtmlSafe | scripts/build.mjs:91-224 | with raw HTML not allowed, every `<` in the output opens one of the converter's own tags, every anchor's `href` and every image's `src` is a safe URL, and no quoted attribute is left open |
| MarkdownExample.HeadingThenParagraph | scripts/build.mjs:91-224 | a `# ` heading line, a blank line and a plain paragraph line convert to an `h1` element and a `p` element, joined by a newline |
| MarkdownExample.HeadingAndBold | scripts/build.mjs:91-224 | `# Hi`, a blank line and `This is **bold**.` convert to `<h1>Hi</h1>` and `<p>This is <strong>bold</strong>.</p>` |
| MarkdownFacts.HeadingLevelIff | scripts/build.mjs:155-157 | a heading has level n, for n from 1 to 3, exactly when it starts with n `#` and then whitespace |
| MarkdownFacts.BulletIsOnlyBullet | scripts/build.mjs:149-171 | a bullet line is not blank, a heading, a rule or a quote |
| MarkdownFacts.BulletRunItems | scripts/build.mjs:182-190 | a bullet line opens a list with one item per line of the longest bullet run, each item the text after the marker |
| MarkdownFacts.BareQuoteContinues | scripts/build.mjs:171-213 | a bare `&gt;` opens a blockquote but does not stop a paragraph |
| MarkdownFacts.NumberIsOnlyNumber | scripts/build.mjs:149-193 | a numbered line is not blank, a heading, a rule, a quote or a bullet, so it reaches the ordered-list branch |
| MarkdownFacts.NumberRunItems | scripts/build.mjs:193-201 | a numbered line opens an ordered list with one item per line of the longest numbered run, each item the text after the number and dot |
| MarkdownFacts.ParagraphRunLines | scripts/build.mjs:204-217 | a paragraph takes the longest run of lines that pass the loop test, each line unchanged and in order, and stops at the first line that fails it |
| MarkdownFacts.WholeParagraph | scripts/build.mjs:204-219 | any number of lines that all pass the loop test form one paragraph holding exactly those lines |
| MarkdownFacts.BareQuoteJoinsParagraph | scripts/build.mjs:171-217 | a bare `&gt;` line after a paragraph line joins that paragraph instead of opening a blockquote |
| Markdown.ParseInlineBlocks | scripts/build.mjs:226-240 | the grouping loop produces the blockquote's paragraphs |
| Markdown.ParagraphsLines | scripts/build.mjs:228-238 | the groups hold exactly the non-blank lines, in order; no group is empty or holds a blank line |
| Markdown.ParagraphsSplit | scripts/build.mjs:231-233 | a blank line splits the groups |
| Markdown.ParagraphsWhole | scripts/build.mjs:234-238 | lines without a blank form one group |
| Template.Render | scripts/build.mjs:299-305 | replaces every placeholder of each key in turn with its value, or the empty string for a missing value; this is the corrected, literal substitution (see Findings), which equals the code as written when no value holds `$` |
| Template.SubstitutedOne | scripts/build.mjs:302 | one key replaces every occurrence of its placeholder |
| Template.SubstitutedAppend | scripts/build.mjs:301-303 | the keys are applied one after another, in entry order |
| Template.SubstitutedUntouched | scripts/build.mjs:299-305 | a template holding none of the given keys' placeholders comes back unchanged |
| Template.SubstitutedKeepsUnknown | scripts/build.mjs:299-305 | with keys free of braces, a placeholder whose key is not given stays where it is, and the text on each side of it is rendered as it would be on its own |
| Template.LaterKeyReachesValue | scripts/build.mjs:301-303 | a value that contains a later key's placeholder is itself substituted |
| Template.AsWrittenAgreesWithoutDollar | scripts/build.mjs:302 | values without `$` render the same as with literal substitution |
| Template.AsWrittenWhole | scripts/build.mjs:302 | as written, the value is read as a replacement pattern |
| Template.DollarPairCollapses | scripts/build.mjs:302 | as written, a value `$$` renders as `$` |
| Template.DollarAmpersandKeepsPlaceholder | scripts/build.mjs:302 | as written, a value `$&` renders the placeholder itself |
| Template.GetPut | scripts/build.mjs:402-407 | setting a key changes that key alone |
| Template.GetRemove | scripts/build.mjs:409-410 | `delete` removes the key and keeps every other key |
| Template.GetSpread | scripts/build.mjs:402 | after a spread, the spread object's keys win and the other keys keep their values |
| Template.UmamiSnippetGate | scripts/build.mjs:346-350 | the analytics tag appears exactly when both settings are set, and both attribute values are escaped |
| Template.JsonLdShape | scripts/build.mjs:380-381 | the site's block comes first and the page's own block follows when it is given; every block is safely wrapped |
| Template.RootClimbs | scripts/build.mjs:375-376 | below the top, the root is `../` repeated once per level |
| Template.CssUnderRoot | scripts/build.mjs:377 | the stylesheet path is the root followed by `assets/css/styles.css` |
| Template.JsUnderRoot | scripts/build.mjs:378 | the script path is the root followed by `assets/js/main.js` |
| Template.RenderPage | scripts/build.mjs:374-413 | the page is the base template rendered with the assembled variables, using the corrected `Render` |
| Template.GetPageVars | scripts/build.mjs:389-410 | each variable's value: the escaped field, the caller's value, or the default |
| Template.EscapedFieldsWin | scripts/build.mjs:383-407 | `title`, `description`, `og_title` and `og_description` are always the escaped versions, even when the caller passes raw ones |
| Template.PrivateKeysRemoved | scripts/build.mjs:409-410 | `_depth` and `_jsonLdExtra` never reach the template |
| Template.CallerOverrides | scripts/build.mjs:402 | any other key the caller passes overrides the default |
| Template.DefaultKept | scripts/build.mjs:389-401 | a key the caller does not pass keeps its default |
| Template.RootDefault | scripts/build.mjs:375-394 | unless overridden, `root` is `/` at depth 0 and `../` repeated `depth` times otherwise |
| Template.ContentDefault | scripts/build.mjs:400 | unless overridden, `content` is the page's content |
| Template.OgTypeDefault | scripts/build.mjs:401-402 | `og_type` is the caller's value or `website` |
| Template.PageVarsDistinct | scripts/build.mjs:389-410 | the assembled object has each key once |
| Template.PostListItemHtml | scripts/build.mjs:359-371 | the item can be built exactly when the title and description are strings, because `escapeHtml` throws on anything else |
| Template.ListItemHrefSafe | scripts/build.mjs:364 | for a validated post, the link's slug has only `[a-z0-9-]` and starts and ends with a letter or digit |
| Template.ListItemTextEscaped | scripts/build.mjs:360-368 | the title, description and tags are escaped |
| Template.TagsOnlyForArrays | scripts/build.mjs:360-362 | the tag list is present exactly when `tags` is an array |
| Selection.ReadFile | scripts/build.mjs:431-437 | one file: parsed, validated, then skipped as a draft or converted |
| Selection.ReadPosts | scripts/build.mjs:429-438 | the loop gives the posts of all files, or the first file's error |
| Selection.StepGivesValidPost | scripts/build.mjs:432-437 | a kept post is valid, not a draft, and its HTML is the conversion of its body |
| Selection.StepSkipsDrafts | scripts/build.mjs:434 | a file is skipped exactly when it is a valid post with `draft` set to true |
| Selection.StepErrorNamesFile | scripts/build.mjs:432-433 | an error names the file that caused it |
| Selection.PostsAreValid | scripts/build.mjs:429-438 | every listed post is valid, not a draft, and holds its converted body |
| Selection.PostsCount | scripts/build.mjs:429-438 | the kept posts and the skipped drafts account for every file |
| Selection.FirstFailure | scripts/build.mjs:430-433 | a failed build reports the first failing file |
| Selection.AllPass | scripts/build.mjs:430-438 | a successful build read every file without error |
| Selection.BuildStopsAtFirstBadFile | scripts/build.mjs:430-433 | the error is the earliest failing file's, and every file before it was read |
| Selection.LexLessTransitive | scripts/build.mjs:441 | string comparison is transitive |
| Selection.LexLessTotal | scripts/build.mjs:441 | of two different strings, one is less than the other |
| Selection.LexLessAsymmetric | scripts/build.mjs:441 | string comparison is asymmetric |
| Selection.NotOlderTransitive | scripts/build.mjs:441 | the newest-first order is transitive |
| Selection.InsertKeepsOrder | scripts/build.mjs:441 | inserting a post keeps a newest-first list newest-first |
| Selection.SortIsNewestFirst | scripts/build.mjs:441 | after the sort, dates never increase along the list |
| Selection.SortPermutes | scripts/build.mjs:441 | the sort neither loses nor adds posts |
| Selection.TakeNewest | scripts/build.mjs:500-550 | a slice of the first n posts takes min(n, count) posts, and each is at least as new as any post left out |
| Selection.HomeAndFeed | scripts/build.mjs:434-550 | the home page shows the newest min(5, n) posts and the feed the newest min(`POSTS_PER_RSS`, n), which is 20 in `config.mjs`; none is a draft, and all are valid |

## Left out

- File reading and writing, cleaning the output directory, copying assets and console output are left out. The post loop takes each file's text as a parameter, and the model identifies a file by its index.
- `displayDate` and `rfc822Date` depend on the host's clock, locale and `Date` library. The post-list item takes the displayed date as a parameter.
- The current year and `umamiCspOrigin`, which calls the platform URL parser, are `Site` fields.
- The JSON-LD builders are calls to `JSON.stringify`. The site's JSON-LD text is a `Site` field, and a page's extra JSON-LD is a parameter.
- Not modelled: `readingTime` (floating-point division), the RSS feed, sitemap and robots output beyond the slice they take, the post, writing, about, now and 404 page loops, and `isoDate` (the identity).
- JsText.Lower: lower-cases ASCII letters only. This is enough for the URL allowlist, whose prefixes are ASCII.
- A source line that begins with `\x00FENCE` is read as a fence placeholder whether or not raw HTML is allowed: the escaping pass returns such lines untouched before it looks at `allowHtml` (scripts/build.mjs:128), and the block loop then treats them as placeholders (scripts/build.mjs:141-146). The model tags placeholder lines instead, so it does not capture that collision in either mode.
- Markdown.ParaStep: the `if (pLines.length)` test is omitted. It always holds, because the paragraph branch is reached only on a line that passes its own loop test.
- Selection.SortByDate: the comparator returns `1` for equal dates, which is not a consistent comparator. The order of posts with equal dates is therefore up to the engine. The model uses a stable insertion sort, and only the newest-first order and the permutation are claimed.
- Selection.LexLess: it compares characters by Unicode scalar value. JavaScript's `>` on strings compares UTF-16 code units, so a character above U+FFFF, whose first code unit is a surrogate from U+D800, sorts below the characters U+E000 to U+FFFF there, but above them in the model. Dates made of ASCII digits and dashes are ordered the same way by both. A `date` that is not a string is compared through its string form (`JsString`); JavaScript would compare an array or a boolean differently.
- Template.PostListItemHtml: the `datetime` attribute holds the unescaped date, as in the script. A missing slug is written `undefined`.
- Template.RenderPage: the page is rendered with the corrected, literal `Render`. As written (scripts/build.mjs:302) the page is `RenderAsWritten(baseTemplate, PageVars(...))`; the two agree whenever no value holds `$` (Template.AsWrittenAgreesWithoutDollar), and Findings shows where they differ.
- Template.RenderPage: the object's entries are taken in insertion order. `Object.entries` lists integer-like keys such as `"0"` or `"404"` first, in ascending numeric order, and `render` applies the keys in that order, which can change the output (Template.LaterKeyReachesValue); no caller in the script passes such a key.
- Template.RenderPage: the caller's values are strings or missing. A number or object value, and a key named `__proto__`, are not modelled, and `_depth` is a separate natural-number parameter.

## Findings

| source | as written | input that shows it | evidently intended | confidence | as-written member | corrected member |
|---|---|---|---|---|---|---|
| scripts/build.mjs:302 | `replaceAll` is called with a string replacement, so JavaScript reads `$$`, `$&`, `` $` `` and `$'` in a value as replacement patterns | a value `$$` renders as `$`, and a value `$&` renders the placeholder `{{key}}` itself. A post body with such text in a code block, for example shell or regex examples, is changed on its way into the page. | each placeholder is replaced by the value literally, for example by passing a function that returns the value | not executed | Template.DollarPairCollapses | Template.Render |
