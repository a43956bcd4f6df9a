# proteus, modelled in Dafny

proteus turns a directory of markdown files into a static web site. It can
serve the site from memory or write it out as HTML files. This project
models the core of that generator and proves properties of the model:

- the markdown render hook: a push-down automaton over inline `<mark>` and
  `<ins>` spans that redirects output into frame buffers;
- the HTML tag stack;
- the heading trackers that build the table-of-contents tree;
- the AST walks that collect internal link and image references and
  rewrite links in place;
- the `<img>` lazy-loading pass over inline HTML;
- page configuration in a leading comment, with its banner and nav;
- the table of contents and the keyword box;
- the XOR-fold digest;
- the sitemap;
- URL and path normalisation;
- the serve- and generate-mode path mapping of the command line tool.

Operations that the Go code performs by updating state are methods:

- `TagStack.HtmlTagStack`, `MarkdownHeadings.HeadingTracker`,
  `KeywordIndex.Keywords`, `Sitemaps.Sitemap` and
  `MarkdownRenderer.RenderHook` are classes;
- the walks rewrite an `array` of AST nodes;
- the digest folds an `array` of bytes in place;
- loops are `while`/`for` loops with invariants.

Each method is proved against a specification function. The lemmas about
those functions state what the code promises.

These are parameters of the model rather than code in it:

- gomarkdown's parser, walk order and default HTML renderer (the walk is
  an event sequence; see `Ast`);
- golang.org/x/net/html and goquery;
- yaml decoding;
- `filepath.Join` and `filepath.Clean`;
- `url.JoinPath`;
- `xml.Marshal`;
- `Color.Hex`.

`filepath.Base` is written out for Unix paths, because `isHidden` depends
on its exact result. The SHA-256 digest of the empty message is the
constant from FIPS 180-4.

Modules follow the source files:

| module | source files |
|---|---|
| `Strs` | the Go string functions used |
| `Ast` | nodes, walk events, `Option`/`Result` |
| `TagStack` | gen/markdown/htmltagstack.go |
| `Dom` | gen/markdown/dom.go, gen/color/palette.go |
| `Html` | gen/markdown/html.go |
| `Style` | parseStyle and encodeStyle, written identically in gen/markdown/html.go and gen/renderer.go |
| `MarkdownRenderer` | gen/markdown/renderer.go |
| `MarkdownHeadings`, `HeadingScenarios` | gen/markdown/headingtracker.go and its test |
| `GenHeadings`, `GenHeadingScenarios` | gen/headingtracker.go and its test |
| `Refs` | the walk callback and walkHtmlDOMs, shared by the two parsers |
| `MarkdownParser` | gen/markdown/parser.go |
| `GenParser` | gen/parser.go |
| `GenRenderer` | gen/renderer.go |
| `PageConfigs` | gen/pageconfig.go |
| `Toc` | gen/toc.go |
| `KeywordIndex` | gen/markdown/keywords.go |
| `GenKeywords` | gen/keywords.go |
| `Hash` | gen/markdown/hash.go |
| `Sitemaps` | gen/sitemap.go |
| `Url` | gen/url.go |
| `Cli` | cmd/main.go |

## Model

| member | source | states |
|---|---|---|
| TagStack.HtmlTag.constructor | gen/markdown/htmltagstack.go:9-13 | a frame starts with an empty buffer and keeps its closing tag and close callback |
| TagStack.HtmlTag.Close | gen/markdown/htmltagstack.go:15-17 | closing a frame runs its callback on the frame's buffer |
| TagStack.HtmlTagStack.constructor | gen/markdown/htmltagstack.go:23-25 | a new stack is empty |
| TagStack.HtmlTagStack.Len | gen/markdown/htmltagstack.go:27-29 | the length is the number of frames |
| TagStack.HtmlTagStack.Empty | gen/markdown/htmltagstack.go:31-33 | empty exactly when there are no frames |
| TagStack.HtmlTagStack.Top | gen/markdown/htmltagstack.go:35-37 | the last frame pushed; only on a non-empty stack, where Go would index out of range |
| TagStack.HtmlTagStack.Push | gen/markdown/htmltagstack.go:39-47 | one fresh frame on top, with an empty buffer, the given closing tag and callback; the frames below are unchanged |
| TagStack.HtmlTagStack.Pop | gen/markdown/htmltagstack.go:49-51 | removes exactly the top frame; only on a non-empty stack |
| TagStack.PushPopRestores | gen/markdown/htmltagstack.go:39-51 | a push followed by a pop restores any stack |
| TagStack.LastInFirstOut | gen/markdown/htmltagstack.go:39-51 | two pushes come off in reverse order and leave the stack as it was |
| Dom.Highlight | gen/markdown/dom.go:36-43 | the output is the opening span with the colour, then the content, then `</span>` |
| Dom.HighlightVerbatim | gen/markdown/dom.go:36-43 | the content appears unescaped between the markup |
| Dom.HighlightInjective | gen/markdown/dom.go:36-43 | different contents in the same colour give different output |
| Dom.ConcatSlot | gen/markdown/dom.go:20-32 | each formatted piece can be read back verbatim at its offset |
| Dom.SlotsInOrder | gen/markdown/dom.go:20-32 | pieces lie one after another in the formatted output |
| Dom.BibliographyLayout | gen/markdown/dom.go:10-34 | the bibliography block holds the palette colours, cover, link, title and author, in template order |
| Dom.BibliographyFrame | gen/markdown/dom.go:20-27 | the block opens and closes with the fixed template markup |
| Html.FirstAttr | gen/markdown/html.go:62-74 | the first attribute with the name, or none exactly when no attribute has it |
| Html.GetTagAttrPtr | gen/markdown/html.go:62-74 | a nil node has no attribute; otherwise the first match in source order |
| Html.GetTagAttr | gen/markdown/html.go:76-83 | the value of the first attribute with the name, or "" when there is none |
| Html.SetTagAttr | gen/markdown/html.go:85-92 | updates the first attribute with the name in place, or appends `name=val`; the tag name is kept |
| Html.GetAfterSet | gen/markdown/html.go:76-92 | reading a name just set gives the value set |
| Html.SetKeepsOthers | gen/markdown/html.go:76-92 | setting a name leaves every other name's value unchanged |
| Html.SetAttrShape | gen/markdown/html.go:85-92 | either one attribute changes value in place or one is appended at the end |
| Html.GetTagOnlyAttr | gen/markdown/html.go:94-99 | the key and value of the sole attribute, or ("", "") unless there is exactly one |
| Style.ParseStyle | gen/markdown/html.go:101-119 | the loop builds the map the parts define, in order |
| Style.ParsePartColons | gen/markdown/html.go:106-116 | a part is a declaration exactly when it is non-empty after trimming and holds one `:` |
| Style.ParseKeys | gen/markdown/html.go:101-119 | a key is in the parsed map exactly when some part declares it |
| Style.ParseLastWins | gen/markdown/html.go:101-119 | a later declaration of a key overrides earlier ones |
| Style.EncodeStyle | gen/markdown/html.go:121-134 | `k:v` per key in ascending key order, joined by `;` |
| Style.CollectKeys | gen/markdown/html.go:122-125 | collects every key of the map exactly once, in any order |
| Style.DeclList | gen/markdown/html.go:128-131 | one `k:v` declaration per key, in key order |
| Style.EncodeOrder | gen/markdown/html.go:121-134 | the declarations come out one per key in ascending key order |
| Style.ParseEncode | gen/renderer.go:90-123 | parsing an encoded style gives the map back, when keys and values hold no `;`, `:` or surrounding space |
| MarkdownRenderer.NewRenderer | gen/markdown/renderer.go:36-62 | the renderer keeps the palette, code block style and suffix, with the colour map built from the palette |
| MarkdownRenderer.ColorMapKeys | gen/markdown/renderer.go:42-53 | the colour map's keys are the thirteen lowercased palette field names and the five aliases |
| MarkdownRenderer.ColorMapFields | gen/markdown/renderer.go:42-47 | every palette field keeps its own colour |
| MarkdownRenderer.ColorMapAliases | gen/markdown/renderer.go:49-53 | name, b, c, d and e select the red, green, blue, yellow and orange highlighters |
| MarkdownRenderer.WriteConcat | gen/markdown/renderer.go:104-106 | two writes to one writer equal one write of both strings |
| MarkdownRenderer.StepKeepsShape | gen/markdown/renderer.go:120-189 | every node event keeps the frames well nested and the writer valid |
| MarkdownRenderer.TopBufferOnly | gen/markdown/renderer.go:120-189 | while a frame is open, an event touches neither the document output nor any frame but the innermost, except the innermost frame's own closing literal |
| MarkdownRenderer.OpeningTopBufferOnly | gen/markdown/renderer.go:224-297 | an opening span with frames open only extends the innermost buffer or pushes above it |
| MarkdownRenderer.LinkRewrite | gen/markdown/renderer.go:158-162 | an internal link gets the suffix appended to its destination; an external one keeps it |
| MarkdownRenderer.MismatchedClose | gen/markdown/renderer.go:299-316 | a closing span that is not the innermost frame's literal is rendered by the library and leaves the frames alone |
| MarkdownRenderer.MatchingClose | gen/markdown/renderer.go:299-316 | the innermost frame's literal pops that frame and writes its finalized content to the writer it captured |
| MarkdownRenderer.MarkRule | gen/markdown/renderer.go:273-294 | `<mark KEY>` opens a highlight frame exactly when it has one attribute whose key is a known colour name |
| MarkdownRenderer.InsRule | gen/markdown/renderer.go:249-271 | `<ins>` opens a bibliography frame exactly when its type is `book_bib` |
| MarkdownRenderer.BibliographyDropsContent | gen/markdown/renderer.go:249-271 | what a bibliography frame buffers never reaches the output |
| MarkdownRenderer.ParseErrorTerminates | gen/markdown/renderer.go:229-233 | an unparsable span records the error and terminates the walk |
| MarkdownRenderer.ErrorOnlyWithTerminate | gen/markdown/renderer.go:120-316 | the hook records an error only together with Terminate |
| MarkdownRenderer.RunAppend | gen/markdown/renderer.go:64-94 | a walk that was not cut short continues: running a then b is running a + b |
| MarkdownRenderer.ParseErrorAbortsRender | gen/markdown/renderer.go:89-91 | once the walk reaches an unparsable span, Render returns "" and the error, whatever surrounds it |
| MarkdownRenderer.RenderHook.constructor | gen/markdown/renderer.go:64-88 | a hook starts with no frames, no error, reentry off and empty output over the given nodes |
| MarkdownRenderer.RenderHook.Write | gen/markdown/renderer.go:120-189 | a write goes to the named writer, which is the document output or one frame's buffer |
| MarkdownRenderer.RenderHook.RenderNode | gen/markdown/renderer.go:108-118 | the hook first, then the library's rendering when the hook declines |
| MarkdownRenderer.RenderHook.Render | gen/markdown/renderer.go:120-189 | the dispatch on the node type and frames; with reentry set, it declines and changes nothing |
| MarkdownRenderer.RenderHook.RenderNodeDefault | gen/markdown/renderer.go:191-200 | hands the node to the library with reentry set, then clears reentry |
| MarkdownRenderer.RenderHook.RenderCodeBlock | gen/markdown/renderer.go:202-211 | the library's code block wrapped in a div with the configured style |
| MarkdownRenderer.RenderHook.ProcessHTMLTag | gen/markdown/renderer.go:213-222 | a closing span goes to the closing handler, anything else to the opening handler |
| MarkdownRenderer.RenderHook.ProcessHTMLOpeningTag | gen/markdown/renderer.go:224-297 | a parse error, img lazy loading, ins and mark frames, or library rendering, as specified |
| MarkdownRenderer.RenderHook.ProcessHTMLClosingTag | gen/markdown/renderer.go:299-316 | pops the innermost frame on its literal, otherwise renders by the library |
| MarkdownRenderer.RenderHook.Close | gen/markdown/renderer.go:104-106 | a closed frame writes its finalized content to the writer it captured |
| MarkdownRenderer.Render | gen/markdown/renderer.go:64-94 | the document's HTML, or "" and the recorded error; the nodes end as the walk rewrote them |
| MarkdownHeadings.Gap | gen/markdown/headingtracker.go:19-27 | one single-placeholder list per skipped level |
| MarkdownHeadings.AttachLast | gen/markdown/headingtracker.go:52-57 | the list's last heading gets the children; the rest of the list is unchanged |
| MarkdownHeadings.QueueAfterAdd | gen/markdown/headingtracker.go:11-61 | add keeps the queue shaped, with one list per level up to the new one, and appends the placeholders and the new heading to the preorder |
| MarkdownHeadings.FirstAdd | gen/markdown/headingtracker.go:18-30 | the first add lays out placeholders for levels 1..level-1, then the heading |
| MarkdownHeadings.SameLevelAdd | gen/markdown/headingtracker.go:35-37 | an add at the current level appends to the top list |
| MarkdownHeadings.DeeperAdd | gen/markdown/headingtracker.go:38-49 | a deeper add pushes placeholder lists for the skipped levels, then a new list |
| MarkdownHeadings.ShallowerAdd | gen/markdown/headingtracker.go:50-60 | a shallower add closes the deeper lists into their parents and joins the list of its level |
| MarkdownHeadings.AddKeepsValid | gen/markdown/headingtracker.go:11-61 | every add keeps the queue's preorder equal to the added headings with their placeholders, and its depth at the last level |
| MarkdownHeadings.AddKeepsTracks | gen/markdown/headingtracker.go:11-61 | every add keeps the tracker's invariant: shaped queue, matching preorder and depth, levels at least 1 |
| MarkdownHeadings.Enqueue | gen/markdown/headingtracker.go:11-61 | the add's three branches and their loops compute QueueAfterAdd |
| MarkdownHeadings.AppendPlaceholders | gen/markdown/headingtracker.go:40-48 | the placeholder loop appends exactly Gap(lo, hi) |
| MarkdownHeadings.CloseLists | gen/markdown/headingtracker.go:52-57 | the closing loop nests the lists from the level down into one |
| MarkdownHeadings.HeadingTracker.constructor | gen/markdown/headingtracker.go:7-9 | a new tracker has an empty queue |
| MarkdownHeadings.HeadingTracker.Add | gen/markdown/headingtracker.go:11-61 | the queue becomes QueueAfterAdd of the old one; the invariant is kept |
| MarkdownHeadings.HeadingTracker.GetHeadings | gen/markdown/headingtracker.go:63-83 | the tree's named headings are exactly those added, in order; top-level headings share one level and children are one level deeper (corrected: [] instead of a panic) |
| MarkdownHeadings.HeadingsAsWritten | gen/markdown/headingtracker.go:63-83 | getHeadings as written, where some list survives the trim (the requires rules out the panic on `t.queue[0]`); the top level is exactly the first surviving list, which is non-empty |
| MarkdownHeadings.Headings | gen/markdown/headingtracker.go:63-83 | getHeadings corrected: empty exactly when no list survives the trim, where the source panics |
| MarkdownHeadings.Collapse | gen/markdown/headingtracker.go:77-80 | the collapse loop leaves each list as the nest of the lists from it on |
| MarkdownHeadings.HeadingsPreorder | gen/markdown/headingtracker.go:63-83 | the finished tree walks the queue's preorder minus the trimmed placeholder levels |
| MarkdownHeadings.HeadingsLeveled | gen/markdown/headingtracker.go:63-83 | the result is a forest at the first real level, each child one level below its parent |
| MarkdownHeadings.ExpectedNamed | gen/markdown/headingtracker.go:19-27 | placeholders carry no name, so the named entries are exactly the added ones |
| MarkdownHeadings.HeadingsAgree | gen/markdown/headingtracker.go:63-83 | where the source's getHeadings does not panic, the corrected one returns the same |
| MarkdownHeadings.NoHeadingsIndexesEmptyQueue | gen/markdown/headingtracker.go:82 | with no heading added, the source indexes an empty queue |
| MarkdownHeadings.UnnamedOnlyIndexesEmptyQueue | gen/markdown/headingtracker.go:66-82 | a document whose only heading is unnamed trims the whole queue, then indexes it |
| HeadingScenarios.FlatList | gen/markdown/headingtracker_test.go:15-34 | flat adds give three childless top-level headings |
| HeadingScenarios.SkippedHigherHeadings | gen/markdown/headingtracker_test.go:110-129 | starting at level 3 trims the placeholder levels 1 and 2 |
| HeadingScenarios.MissingHigherHeadings | gen/markdown/headingtracker_test.go:131-170 | going back to level 1 keeps an unnamed level-1 placeholder at the top |
| GenHeadings.HeadingTracker.constructor | gen/headingtracker.go:9-11 | a new tracker has an empty queue |
| GenHeadings.HeadingTracker.Add | gen/headingtracker.go:13-63 | the same queue update as the markdown tracker, for a heading without an ID |
| GenHeadings.HeadingTracker.GetHeadings | gen/headingtracker.go:65-85 | as written, requiring a surviving list; the named headings are those added, as a levelled forest |
| GenHeadingScenarios.NestedList | gen/headingtracker_test.go:36-108 | the nested test gives three top-level headings with 0, 3 and 3 children |
| Refs.WalkHtmlDOMs | gen/markdown/parser.go:148-195 | the img refs and the possibly re-serialised literal, or the library's error |
| Refs.InternalExact | gen/markdown/parser.go:160-177 | the img loop visits exactly the images with a present internal src, in document order |
| Refs.ImgRefsByIndex | gen/markdown/parser.go:160-177 | the k-th ref is the re-rooted src of the k-th internal image |
| Refs.LiteralKept | gen/markdown/parser.go:179-192 | without lazy loading, or with no internal image, the literal is unchanged |
| Refs.LiteralRewritten | gen/markdown/parser.go:179-192 | with lazy loading and an internal image, the literal is the serialised document, unwrapped |
| Refs.StripWrapped | gen/markdown/parser.go:197-200 | the serialiser's html/head/body wrapper is removed again |
| Refs.StripFirstOnly | gen/markdown/parser.go:197-200 | only the first opening wrapper is removed |
| Refs.StripNoWrapper | gen/markdown/parser.go:197-200 | a string without the wrappers is left alone |
| Refs.NodeRefs | gen/markdown/parser.go:98-131 | the callback keeps the node's kind and ignores headings |
| Refs.VisitNode | gen/markdown/parser.go:98-131 | rewrites node i in place as NodeRefs says, or reports its error |
| Refs.Walk | gen/markdown/parser.go:84-140 | the walk keeps the node count and the levels of the added headings |
| Refs.LeavingIgnored | gen/markdown/parser.go:86-88 | leaving events change nothing |
| Refs.InternalLink | gen/markdown/parser.go:98-109 | an internal link is recorded re-rooted and gets the suffix |
| Refs.InternalImage | gen/markdown/parser.go:111-121 | an internal image is recorded re-rooted; the node is unchanged |
| Refs.ExternalTarget | gen/markdown/parser.go:98-121 | external links and images are neither recorded nor changed |
| Refs.SpanVisit | gen/markdown/parser.go:123-131 | a span's refs are appended and its literal replaced; a library error stops the walk |
| Refs.HeadingVisit | gen/markdown/parser.go:91-96 | a heading is recorded only with exactly one child, under that child's text |
| Refs.HeadingIgnored | gen/parser.go:65-103 | the gen walk has no heading case |
| Refs.TerminateStops | gen/markdown/parser.go:137-139 | after Terminate nothing changes and the error is kept |
| Refs.WalkCollects | gen/markdown/parser.go:84-140 | the refs, and the headings in markdown mode, are those of the entered nodes, in walk order |
| GenParser.WalkMarkdownAST | gen/parser.go:39-114 | the walk's refs or its error; the nodes end rewritten as the walk says |
| GenParser.RefsInWalkOrder | gen/parser.go:39-114 | the refs are those of the entered nodes, read off the original tree, in walk order |
| GenParser.SpanErrorReturned | gen/parser.go:95-111 | a failing span as the first entered node makes the walk return its error |
| MarkdownParser.QueueOf | gen/markdown/parser.go:91-96 | the tracker's queue after adding the headings in order, with its invariant |
| MarkdownParser.Callback | gen/markdown/parser.go:65-135 | the walk callback on one event is Visit: leaving events and other nodes pass, headings go to the tracker, references are collected, an error stops the walk; the tracker's invariant is kept |
| MarkdownParser.BuildMarkdownContent | gen/markdown/parser.go:53-146 | refs and heading tree, or the walk's error; the nodes end as the walk rewrote them (headings from the corrected getHeadings) |
| MarkdownParser.RefsInWalkOrder | gen/markdown/parser.go:53-146 | the refs are those of the entered nodes in walk order |
| MarkdownParser.HeadingsInDocumentOrder | gen/markdown/parser.go:91-144 | the named headings of the tree are the document's recorded headings, in order |
| GenRenderer.RenderCodeBlock | gen/renderer.go:47-56 | the library's code block, verbatim, inside a div with the style; GoToNext, handled |
| GenRenderer.Render | gen/renderer.go:58-88 | handles exactly the code blocks; always GoToNext |
| GenRenderer.RenderPage | gen/renderer.go:15-39 | the page never fails, since this hook records no error |
| GenRenderer.DefaultUnlessCodeBlock | gen/renderer.go:58-88 | every other node is printed exactly as the default renderer prints it |
| GenRenderer.PageSplit | gen/renderer.go:15-39 | the page splits at any event boundary |
| PageConfigs.NewPageConfig | gen/pageconfig.go:47-54 | a nil map becomes an empty config |
| PageConfigs.ExtractAsWritten | gen/pageconfig.go:20-41 | extractPageConfig as written, on the inputs where its slice is in range (the requires); an error only when the open marker is present, and the content is always trimmed |
| PageConfigs.ExtractPageConfig | gen/pageconfig.go:20-41 | extractPageConfig with the close marker searched after the open marker; an error only when the open marker is present, and the content is always trimmed |
| PageConfigs.CommentAsWritten | gen/pageconfig.go:26-40 | the as-written branch after the open marker: a broken comment without a close marker, the decoder's error, or content that is trimmed |
| PageConfigs.AfterOpen | gen/pageconfig.go:26-40 | the corrected branch, searching only the text after the open marker: a broken comment, the decoder's error, or content that is trimmed |
| PageConfigs.NoComment | gen/pageconfig.go:21-24 | without the open marker the whole trimmed input is content and the config is empty |
| PageConfigs.BrokenComment | gen/pageconfig.go:26-29 | an open marker with no close marker after it is an error |
| PageConfigs.CommentRoundTrip | gen/pageconfig.go:20-41 | a page made of the open marker, a payload without the close marker, the close marker and the rest gives the decoded payload and the trimmed rest |
| PageConfigs.AsWrittenAgrees | gen/pageconfig.go:26-37 | where the source's slice is in range, the corrected search finds the same split |
| PageConfigs.OverlappingMarkers | gen/pageconfig.go:26-33 | on `<!--->` the source's slice bounds are reversed; the corrected version reports a broken comment |
| PageConfigs.StringOf | gen/pageconfig.go:56-90 | the string under a key, or "" when it is not a string |
| PageConfigs.Header | gen/pageconfig.go:92-106 | empty exactly when there is no banner; a string banner becomes its image |
| PageConfigs.Nav | gen/pageconfig.go:108-148 | the loop builds the nav anchors, or nothing when one entry is unusable |
| PageConfigs.NavLinksNone | gen/pageconfig.go:118-135 | one unusable entry empties the whole nav |
| PageConfigs.NavLinksAll | gen/pageconfig.go:118-135 | with every entry usable, there is one anchor per entry, in order |
| PageConfigs.NavEntryOf | gen/pageconfig.go:120-133 | `label=target` becomes `<a href="target">label</a>` |
| Toc.Decimal | gen/toc.go:39 | a non-empty string of decimal digits |
| Toc.RenderHeadingList | gen/toc.go:34-54 | the nested list of the headings, down to the maximum depth |
| Toc.RenderToC | gen/toc.go:22-32 | nothing for no headings; otherwise the list in a toc div with the fixed CSS |
| Toc.ListPruned | gen/toc.go:47-49 | headings below the maximum depth do not affect the output |
| Toc.ItemsAppend | gen/toc.go:40-52 | the items appear in list order |
| KeywordIndex.Keywords.constructor | gen/markdown/keywords.go:18-25 | a new index is empty and keeps the colour map |
| KeywordIndex.Keywords.Get | gen/markdown/keywords.go:38-40 | the keywords of the type in insertion order, or none |
| KeywordIndex.Keywords.Color | gen/markdown/keywords.go:42-44 | the type's colour, or "" |
| KeywordIndex.Keywords.Add | gen/markdown/keywords.go:27-36 | appends to the type's list; other types are unchanged |
| KeywordIndex.AddTwice | gen/markdown/keywords.go:27-36 | add keeps duplicates |
| GenKeywords.RenderKeywords | gen/keywords.go:44-84 | the deduplicated name box and the CSS with the grey and name colours filled in |
| GenKeywords.UniqueSpans | gen/keywords.go:50-63 | the dedupe loop writes one box per value, for its first entry, in list order |
| GenKeywords.DedupeCovers | gen/keywords.go:50-63 | every value of the list is shown |
| GenKeywords.DedupeDistinct | gen/keywords.go:50-63 | no value is shown twice |
| GenKeywords.DedupeFirst | gen/keywords.go:50-63 | each shown entry is the first of its value, and every first entry is shown |
| Hash.Fold | gen/markdown/hash.go:11-14 | byte i below n/2 becomes d[i] XOR d[n-1-i]; the rest is unchanged |
| Hash.FoldInPlace | gen/markdown/hash.go:11-18 | the in-place XOR loop leaves exactly Fold of the old bytes |
| Hash.Hex | gen/markdown/hash.go:20 | two lowercase hex digits per byte |
| Hash.UnhexHex | gen/markdown/hash.go:20 | the hex text reads back to the bytes |
| Hash.Hash20Of | gen/markdown/hash.go:8-21 | the digest text has 2*((len(b)+32)/2/2) lowercase hex digits |
| Hash.Hash20Length | gen/markdown/hash.go:8-21 | the digest text never has fewer than 16 hex digits |
| Hash.Folded | gen/markdown/hash.go:11-19 | the two folds truncated to a quarter: byte i is the XOR of four bytes at mirrored positions |
| Hash.Hash20 | gen/markdown/hash.go:8-21 | the two folds on a fresh array of b and the empty-input SHA-256 digest, truncated to a quarter, in hex |
| Hash.Hash20Bytes | gen/markdown/hash.go:9-20 | the digest text reads back to the folded bytes of b followed by the empty-input digest |
| Url.NormalizeDomain | gen/url.go:8-15 | always has an http(s) scheme; unchanged when it had one, otherwise `https://` in front |
| Url.NormalizeDomainIdempotent | gen/url.go:8-15 | normalising twice is normalising once |
| Url.StripLeadingSlashes | gen/url.go:19-21 | the stripping loop removes exactly the leading slashes |
| Url.NormalizeRelPath | gen/url.go:17-24 | Clean, then strip the leading slashes; the result never starts with `/` |
| Url.TrimOnlyLeading | gen/url.go:19-21 | only a run of leading slashes is removed; the rest is untouched |
| Sitemaps.Locs | gen/sitemap.go:52-58 | one URL per path |
| Sitemaps.LocsAt | gen/sitemap.go:52-58 | the i-th URL joins the base and the i-th path |
| Sitemaps.GenOutput | gen/sitemap.go:60-66 | marshal errors are returned; otherwise the XML declaration comes first |
| Sitemaps.GenResult | gen/sitemap.go:60-66 | an encoding error is returned unchanged; an encoding gets the XML declaration in front |
| Sitemaps.Sitemap.constructor | gen/sitemap.go:28-40 | the base gets an https scheme unless it has one; the xmlns is fixed; no paths or URLs yet |
| Sitemaps.Sitemap.Add | gen/sitemap.go:42-47 | appends the path without its leading slashes; earlier paths are unchanged |
| Sitemaps.Sitemap.Gen | gen/sitemap.go:49-67 | the paths are sorted in place; one URL per path is appended in sorted order; the result is marshalled and prefixed |
| Sitemaps.AddOrderIrrelevant | gen/sitemap.go:51-58 | the same paths added in any order give the same URLs |
| Sitemaps.GenTwice | gen/sitemap.go:52-58 | a second Gen appends the same URLs again |
| Cli.Base | cmd/main.go:168 | filepath.Base never returns an empty string |
| Cli.BaseOfJoin | cmd/main.go:168 | the base name of dir/name is name |
| Cli.HiddenIff | cmd/main.go:167-170 | a path is hidden exactly when its own name starts with a dot |
| Cli.CurrentDirHidden | cmd/main.go:167-170 | "." and "" count as hidden |
| Cli.ServePath | cmd/main.go:113-134 | the handler's path mapping: not found, render or copy, as specified |
| Cli.HtmlServedFromMarkdown | cmd/main.go:120-125 | a `.html` request is rendered from a `.md` file with the same stem |
| Cli.RootIsEntry | cmd/main.go:115-117 | "" and "/" serve the entry page |
| Cli.ServeCases | cmd/main.go:119-134 | not found outside the source directory or when hidden; `.html` and `.md` are rendered; anything else is copied |
| Cli.GenerateStep | cmd/main.go:66-102 | the walk callback's mapping: skip, skip the directory, make a directory, write HTML or copy |
| Cli.DestinationMirrorsSource | cmd/main.go:76-101 | under the source directory, every destination is the same relative path under the destination directory |
| Cli.EntryBecomesIndex | cmd/main.go:90-91 | the entry page becomes the destination's index.html |
| Cli.SkippedPaths | cmd/main.go:66-80 | the config is skipped; hidden directories with their contents and hidden files produce nothing |
| Cli.HiddenSourceSkipped | cmd/main.go:70-74 | a source directory whose own name starts with a dot, "." included, is skipped whole |

## Left out

- gomarkdown's parser, `ast.WalkFunc` and the default `html.Renderer`: the walk is a sequence of (node, entering) events over an array of nodes, and the default output is a function parameter.
- golang.org/x/net/html parsing and rendering, and goquery's DOM parse and serialisation: these are parameters. The img walk sees the parsed document as its sequence of `src` attributes.
- yaml.Unmarshal, filepath.Join/Clean, url.JoinPath, xml.Marshal and Color.Hex are function parameters. So is fmt's `%v` of non-string YAML values in header.
- All I/O: the flag parsing, file reads, writes and directory creation, `filepath.Walk`, the HTTP server, loadConfig and fileExists in cmd/main.go, the `w.Write` of responses and the debug `Printf` calls. A read error in serve mode also answers Not Found; that is not modelled.
- The type assertion `v.Children[0].(*ast.Text)` in the markdown parser panics on a single child that is not text: the model requires a single-child heading to have a Text child (`Refs.Readable`).
- The Go slice aliasing in hash20, where `Sum` may write into spare capacity of the caller's slice: the fold works on a fresh array.
- Hash.Hash20Of: determinism follows from it being a function; no separate lemma.
- time.Now and the `LastMod` field of sitemap URLs.
- Reflection in NewRenderer: the palette's thirteen fields are listed by name.
- parse in gen/parser.go and Parse in gen/markdown/parser.go only call the library parser and then the walk; the walk is modelled.
- isExternalLink and stripHTMLWrapper appear in both parser files, and parseStyle/encodeStyle in both html.go and renderer.go; each is modelled once.
- footer in gen/pageconfig.go is a constant block (`PageConfigs.Footer`).
- GenHeadings.HeadingTracker.GetHeadings: it keeps the source's panic on an empty trimmed queue as a precondition, without a corrected version, because none of the files modelled here calls this tracker; the fix is the one made in `MarkdownHeadings.Headings`.
- MarkdownParser.BuildMarkdownContent: it builds the document's headings with the corrected getHeadings (`MarkdownHeadings.Headings`), so a page with no heading, or whose only headings are unnamed, gives `Ok` with no headings where gen/markdown/parser.go:144 panics.
- `SkipChildren`: `MarkdownRenderer.Run` and `Refs.Walk` treat it like `GoToNext`, so the library's skipping of a node's children is not modelled; no hook or callback modelled here returns it.
- Url.NormalizeRelPath: filepath.Clean is a parameter, so nothing is proved about what Clean does.

## Findings

| source | as written | input that shows it | evidently intended | confidence | as-written member | corrected member |
|---|---|---|---|---|---|---|
| gen/markdown/headingtracker.go:63-82 | getHeadings trims every leading lone unnamed list and then returns `t.queue[0]` | a document with no heading, or whose only heading is unnamed (e.g. a level-2 heading with empty text) | return no headings | not executed | MarkdownHeadings.HeadingsAsWritten, MarkdownHeadings.NoHeadingsIndexesEmptyQueue, MarkdownHeadings.UnnamedOnlyIndexesEmptyQueue | MarkdownHeadings.Headings, MarkdownHeadings.HeadingTracker.GetHeadings |
| gen/pageconfig.go:26,33 | the close marker is searched in the whole trimmed input, and the payload is sliced from after the open marker to that index | `<!--->`: the close marker is found at 2, inside the open marker, and the slice [5:2] panics | search for the close marker after the open marker; report a broken comment otherwise | not executed | PageConfigs.ExtractAsWritten, PageConfigs.OverlappingMarkers | PageConfigs.ExtractPageConfig, PageConfigs.CommentRoundTrip |
