# Faleproxy rewriter, modelled in Dafny

Faleproxy is a small web service. It takes a URL in a `POST /fetch` request and
fetches that page. It then rewrites `YALE`, `Yale` and `yale` to `FALE`, `Fale`
and `fale` in two places. The first is every text node whose parent element lies
strictly inside `<body>`, which includes the text of a `<script>` or `<style>`
there. The second is the `<title>` text. A text node placed directly under
`<body>` is kept as it is. The service answers with the rewritten markup and the
new title. This project models the logic of the `/fetch` handler in `app.js` and
proves properties of it. There are six modules:

- `CaseText` (`casetext.dfy`) holds the ASCII case mapping. It also defines
  `ContainsIgnoreCase`, the `/yale/i` guard that decides whether a text is
  rewritten.
- `Replace` (`replace.dfy`) models `String.prototype.replace` with a global
  literal regular expression. The string is scanned from the left, every match
  is replaced, and the scan resumes after the replaced span. The lemmas cover
  when the function is the identity, the absence of the pattern afterwards,
  which characters can change, and which occurrences survive.
- `Rewriter` (`rewriter.dfy`) holds the three-stage substitution, `YALE→FALE`,
  then `Yale→Fale`, then `yale→fale`, behind the guard. The word pair is a
  parameter (`WordPair`), and `YaleFale` is the pair the service uses. The
  generic theorems need two conditions on the pair, `Compatible` and
  `Separated`, and both are proved for `YaleFale`.
- `Dom` (`dom.dfy`) models the parsed page as a tree of elements, text nodes and
  other nodes, which stand in for comments. It models the walk over the text
  children of the elements that `$('body *')` matches, and the rewrite of the
  `<title>` text. cheerio's in-place `replaceWith` and `text(...)` become
  functions that return the new tree.
- `Handler` (`handler.dfy`) decides the response. A missing or empty `url` gets
  400. A failed fetch gets 500, with or without the upstream status. Otherwise
  the answer is 200 with the rewritten page, its title and the original URL.
  The network fetch is a function parameter.
- `Scenarios` (`scenarios.dfy`) holds the concrete cases that the integration
  tests pin down, proved of the model.

Three behaviours of the code are worth stating outright:

- The walk selects `body *`, the elements strictly inside `<body>`, and rewrites
  their text children. A text node placed directly under `<body>` is therefore
  kept. A text node inside `<script>` or `<style>` within `<body>` is rewritten
  like any other. See `Dom.Selected` and `Dom.RewriteBodySlots`.
- The body walk does not single out `<title>`. The title text is kept out of the
  body walk only because `<title>` normally sits in `<head>`. A `title` element
  inside `<body>` has its text rewritten by the walk, and the title step then
  reads the result.
- `$('title').text()` concatenates the text of every `title` element, and
  `.text(x)` sets each of them. With several title elements, the reported title
  is the new text repeated once per element (`Dom.SetTitleReadBack`). With one
  title element it is the rewritten title text, and with none it is the empty
  string (`Dom.RewritePageTitle`).

## Model

| member | source | states |
|---|---|---|
| `CaseText.ContainsIgnoreCase` | app.js:45 | The `/yale/i` test as a scan from the left. It has no contract of its own; `ContainsIgnoreCaseIff` characterises it as "some window equals the word up to case". |
| `CaseText.ContainsIgnoreCaseIff` | app.js:45 | The left-to-right guard holds exactly when the target word occurs at some position, ignoring case (both directions). |
| `CaseText.LiteralFormFiresGuard` | app.js:45 | A text holding a literal spelling of the word that folds to it, such as `YALE`, `Yale` or `yale`, passes the case-insensitive guard. |
| `CaseText.CaseFormsFold` | app.js:46-48 | The upper-case, title-case and lower-case forms of a word all fold to the word. |
| `Replace.ReplaceAll` | app.js:46 | A global literal replace whose replacement has the pattern's length keeps the length of the string. |
| `Replace.ReplaceAllFreeIdentity` | app.js:46 | A string without the pattern is returned unchanged. |
| `Replace.ReplaceAllChanges` | app.js:46 | A string that holds the pattern is changed when the replacement differs from the pattern. |
| `Replace.ReplaceAllUnchangedIff` | app.js:46 | The replace is the identity exactly on strings without the pattern. |
| `Replace.ReplaceAllFree` | app.js:46-48 | After replacing `p` by `r`, the output holds no `p`. It also holds no `q` that was absent before, when `r` cannot overlap `q`. |
| `Replace.ReplaceAllSpans` | app.js:46 | Every changed character lies in a span where the input held the pattern and the output holds the replacement. Characters outside such spans are kept. |
| `Replace.ReplaceAllEveryOccurrence` | app.js:46 | For a pattern that cannot overlap itself, every occurrence in the input is replaced at its own position. |
| `Replace.ReplaceAllKeeps` | app.js:46-48 | An occurrence of a word that cannot overlap the pattern survives the replace at the same position. |
| `Replace.ReplaceAllBack` | app.js:46-48 | An occurrence in the output of a word that cannot overlap the replacement was already in the input at the same position. |
| `Replace.ReplaceAllChangedChar` | app.js:46 | A changed character was the pattern's character at some offset and became the replacement's character at that same offset. |
| `Rewriter.Substitute` | app.js:46-48 | The three chained replacements keep the length of the text when the two words have the same length. |
| `Rewriter.Rewrite` | app.js:45-48 | The guarded rewrite keeps the length of the text when the two words have the same length. |
| `Rewriter.SubstituteClean` | app.js:46-48 | After the three stages the text holds none of the three case forms of the target word. No stage brings back the pattern of an earlier stage. |
| `Rewriter.SubstituteCleanIdentity` | app.js:46-48 | On a text with none of the three case forms, the three stages change nothing. |
| `Rewriter.GuardMissImpliesClean` | app.js:45 | A text that fails the case-insensitive guard holds none of the three case forms. |
| `Rewriter.RewriteIsSubstitute` | app.js:45-48 | The guard never changes the outcome: the guarded rewrite equals the unconditional three-stage substitution. |
| `Rewriter.RewriteClean` | app.js:45-48 | A rewritten text holds none of `YALE`, `Yale` and `yale` (for the configured pair). |
| `Rewriter.RewriteUnchangedIff` | app.js:45-48 | The rewrite leaves a text unchanged exactly when the text holds none of the three case forms (both directions). |
| `Rewriter.RewriteIdempotent` | app.js:45-48 | Rewriting a rewritten text changes nothing. |
| `Rewriter.YaleFaleStages` | app.js:46-48 | The configured pair yields the stages `YALE→FALE`, `Yale→Fale` and `yale→fale`, in that order. |
| `Rewriter.YaleFaleCompatible` | app.js:46-48 | The configured pair meets the conditions of the cleanliness and idempotence theorems. |
| `Rewriter.YaleFaleSeparated` | app.js:46-48 | The configured case forms cannot overlap themselves or each other. No replacement can overlap a later stage's pattern. |
| `Rewriter.RewriteEveryOccurrence` | app.js:46-48 | Every occurrence of one of the three case forms in the input becomes the matching replacement at the same position in the output. |
| `Rewriter.RewriteSpans` | app.js:45-48 | Every character the rewrite changes lies inside an occurrence, in the input, of one of the three case forms. With `RewriteEveryOccurrence` this fixes the output completely. |
| `Rewriter.YaleFaleSpans` | app.js:45-48 | For the configured pair, a changed character lies in a `YALE`, `Yale` or `yale` of the input, within 4 characters of its start. |
| `Rewriter.StageChangedChar` | app.js:46-48 | When a stage's pattern and replacement differ only in the first letter, the stage changes a character only from the pattern's first letter to the replacement's first letter. |
| `Rewriter.YaleFaleChangedChars` | app.js:45-48 | The rewrite keeps the length. It changes only a `Y` into an `F` and a `y` into an `f`, and every other character stays. |
| `Dom.RewriteBody` | app.js:40-51 | The walk over one node. It has no contract of its own; `RewriteBodySlots` says which text nodes it rewrites, and `RewriteBodyMarkup` and `RewriteBodyTitleCount` say what it keeps. |
| `Dom.RewriteChildren` | app.js:40-51 | Rewriting the children of an element keeps their number. |
| `Dom.RewriteBodySlots` | app.js:40-51 | After the walk, the selected text nodes are rewritten and all other text nodes are kept. A node is selected when its parent lies strictly inside a `body` element. |
| `Dom.RewriteChildrenSlots` | app.js:40-51 | The same statement for the child list of one element. |
| `Dom.RewritePageBody` | app.js:40-51 | The body walk of a whole page keeps every tag, attribute, non-text node and the shape of the tree, and keeps the number of title elements. `PageBodySlots` gives its text nodes. |
| `Dom.PageBodySlots` | app.js:40-51 | For a whole page, the text nodes after the body walk are those before it, with the selected ones rewritten. |
| `Dom.RewriteBodyMarkup` | app.js:40-51 | The walk never changes a tag name, an attribute such as `href`, `src` or `alt`, a non-text node, or the shape of the tree. |
| `Dom.RewriteChildrenMarkup` | app.js:40-51 | The same statement for a list of children. |
| `Dom.TitleText` | app.js:54 | `$('title').text()`, the texts of all title elements in document order. It has no contract of its own. `TitleTextSlots` characterises it: with no title nested in another, it is the concatenated data of the text nodes that lie inside a `title` element. `TitleTextNoTitle` and `SetTitleReadBack` give the page without a title and the read-back after the write. |
| `Dom.SetTitle` | app.js:59 | `$('title').text(x)` keeps the number of title elements. `SetTitleChildren` says what it writes: every title element then holds the single text `x`. `SetTitleReadBack`, `SetTitleFrame` and `SetTitleSlots` give the read-back and what it keeps. |
| `Dom.TitleChildren` | app.js:54 | The child lists of the title elements, one per element that `$('title')` selects, so there are as many as there are title elements. |
| `Dom.SetTitleChildren` | app.js:59 | After `$('title').text(x)`, every title element holds exactly one child, the text `x`. |
| `Dom.SetTitleOfChildren` | app.js:59 | The same statement for a list of children. |
| `Dom.SetTitleReadBack` | app.js:59-66 | After every title is set to `x`, reading the title gives `x` once per `title` element. |
| `Dom.SetTitleOfReadBack` | app.js:59-66 | The same statement for a list of children. |
| `Dom.SetTitleFrame` | app.js:59 | The title write changes only what lies inside `title` elements. Every tag, attribute, non-text node and the nesting outside them stays. |
| `Dom.SetTitleOfFrame` | app.js:59 | The same statement for a list of children. |
| `Dom.SetTitleSlots` | app.js:59 | The title write keeps every text node outside the `title` elements, in document order. |
| `Dom.SetTitleOfSlots` | app.js:59 | The same statement for a list of children. |
| `Dom.RewriteBodyTitleCount` | app.js:40-51 | The body walk keeps the number of title elements. |
| `Dom.TextContentSlots` | app.js:54 | The text of a node is the data of its text nodes, in document order. |
| `Dom.TitleTextSlots` | app.js:54 | When no title element lies inside another, the title text is the data of exactly those text nodes that have a `title` element among their ancestors, in document order. |
| `Dom.TitleDataInside` | app.js:54 | Below a `title` element, every text node counts for the title text. |
| `Dom.RewriteBodyNoNested` | app.js:40-51 | The body walk does not nest one title element in another. |
| `Dom.PageTitleSlots` | app.js:40-54 | With no nested titles, the title text read after the body walk is the data of the title text nodes after the walk, with the selected ones rewritten. |
| `Dom.TitleTextNoTitle` | app.js:54 | A page without a title element has the empty title text. |
| `Dom.RewritePage` | app.js:53-66 | The whole page rewrite keeps the number of title elements. `RewritePageTitleChildren`, `RewritePageTitle` and `RewritePageKeeps` characterise the page and the title it reports. |
| `Dom.RewritePageTitleChildren` | app.js:53-60 | When the title text after the body walk contains the word in any case, every title element of the returned page holds exactly one text: that title text with the three literal forms replaced. Otherwise the returned page is the page after the body walk. |
| `Dom.RewritePageKeeps` | app.js:40-66 | The returned page keeps every tag, attribute and non-text node outside the titles. Its text nodes outside the titles are exactly the input's, with the selected ones rewritten. |
| `Dom.RewritePageTitle` | app.js:54-66 | With one title element, the reported title is the rewrite of the title text. With none, the reported title is empty and the page is the body walk's result. |
| `Handler.Decimal` | app.js:73 | The status is written as a non-empty string of decimal digits without a leading zero. |
| `Handler.DecimalRoundTrip` | app.js:73 | The digits in the error message read back as the upstream status. |
| `Handler.DecimalUnique` | app.js:73 | A digit string without a leading zero is the spelling of the number it denotes, so the message has exactly one way to write each status. |
| `Handler.FetchErrorMessage` | app.js:72-74 | Every failure message starts with `Failed to fetch content`. It is exactly that text when there was no upstream answer. |
| `Handler.Handle` | app.js:20-77 | The handler. It has no contract of its own; `MissingUrl`, `FetchOnce`, `HandleOutcomes` and `HandleStatus` characterise every response. |
| `Handler.MissingUrl` | app.js:24-26 | A missing or empty `url` gets 400 `URL is required`, whatever the fetcher would return, so no fetch is made. |
| `Handler.FetchOnce` | app.js:29 | With a usable `url`, the response depends on the fetcher only through its result for that URL. |
| `Handler.HandleOutcomes` | app.js:63-75 | A fetched page gets 200 with the rewritten page, its title and the URL as given. An upstream error status gets 500 with the message `Failed to fetch content: HTTP ` followed by `Decimal(status)`, and the status reads back from the message. No response gets 500 `Failed to fetch content`. |
| `Handler.HandleStatus` | app.js:24-75 | Every response has status 200, 400 or 500. Only 200 carries a page, and it always has `success` set and the request's URL. |
| `Scenarios.CaseForms` | app.js:46-48 | `YALE`, `Yale` and `yale` become `FALE`, `Fale` and `fale`. |
| `Scenarios.IrregularForm` | app.js:45-48 | `yALE` passes the guard, but no literal pattern matches it, so it is kept unchanged. |
| `Scenarios.TestPageTexts` | tests/integration.test.js:49-65 | The test page's heading, link text and title become `Welcome to Fale University`, `About Fale` and `Fale University Test Page`. |
| `Scenarios.SubstPara` | tests/integration.test.js:51 | The paragraph `Yale University is a private Ivy League research university in New Haven, Connecticut.` becomes `Fale University is a private ...`. The `y`s of `Ivy` and `university` are kept. |
| `Scenarios.SubstAdmissions` | tests/integration.no-nock.test.js:47 | The second link's text `Yale Admissions` becomes `Fale Admissions`. |
| `Scenarios.SubstNote` | tests/integration.no-nock.test.js:49 | The last paragraph `For more information, contact: info@yale.edu` becomes `... info@fale.edu`. The address is rewritten like any other text. |
| `Scenarios.BodyWalk` | tests/integration.no-nock.test.js:43-50 | On a body with a direct text, a heading, two paragraphs, two links and an image, the walk rewrites the five element texts. It keeps the direct text, the image and both links' `href`s. |
| `Scenarios.TestPage` | tests/integration.test.js:49-65 | On a page built on the test page, the reported title is `Fale University Test Page`, and the heading, both paragraphs and both link texts are rewritten. The text `Yale` directly under `<body>` is kept. The links keep `href="https://www.yale.edu/about"` and `href="https://www.yale.edu/admissions"`, and the image keeps `src` and `alt="Yale Logo"`. |
| `Scenarios.TestRequest` | tests/integration.test.js:44-74 | A request for the test page gets 200 with the rewritten page. A request for an unreachable address gets 500. |

## Left out

- The Express application, its middleware, static file serving, `GET /` and `app.listen` (app.js:1-17, 79-82) are framework wiring with no logic of the handler.
- The `axios.get(url)` fetch is network I/O. It is a function parameter that returns a parsed page, an upstream error status or no response. axios rejects every non-2xx status, so a fetched page stands for a 2xx answer.
- Parsing the markup with `cheerio.load` and serialising it with `$.html()` are library calls. The page is a tree value, and the `content` of a response is that tree, not markup text.
- `replaceWith(newText)` parses a string argument as markup. The model puts a text node holding the new string in its place, which is the same for text that holds no markup.
- Node kinds other than elements and text nodes (comments, doctype, processing instructions) are one `Comment` node kind. The text-node filter of app.js:40-41 skips them all.
- The `/i` flag is modelled as ASCII case folding. In a regular expression without the `u` flag, a non-ASCII character never matches an ASCII letter of `yale` ignoring case, so the two agree.
- `url` is an optional string. A JSON body whose `url` is another falsy value (`0`, `false`, `null`) is treated as missing. A non-string truthy value is outside the model.
- An exception thrown while parsing or rewriting a fetched body would also end in 500 `Failed to fetch content`. The model has no such exception, because its parse step is out of scope.
- The `console.error` logging at app.js:71 is output only.
