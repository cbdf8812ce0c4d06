# htmlSaver popup: a verified model of its string transformations

htmlSaver is a browser extension whose popup saves the current page as a
single HTML file. Around the browser plumbing, its popup script `popup.js`
does five things to strings and elements. This project models them in Dafny
and proves what they promise:

- **the page title** (`PageTitle`, `title.dfy`): the text of the first
  `<h1>` is trimmed, stripped of `/ \ : * ? " < > |` and cut to 100
  characters; when there is no heading, or it is blank, the title is
  `page`;
- **the file name** (`FileName`, `filename.dfy`):
  `title + "_" + stamp + ".html"`, where the stamp is the first 19
  characters of an ISO 8601 time with every `:` and `T` turned into `-`;
- **the fallback payload** (`Fallback`, `fallback.dfy`): a `Saved from`
  comment, then a warning that names the count and the first three URLs of
  the page's external resources (only when there are any), then a line
  break and the raw markup;
- **attribute URL normalisation** (`ResourceUrls`, `attributes.dfy`): every
  element of the cloned page has its `src`, `href`, `srcset` and `data-src`
  values resolved against the page. A stylesheet link has its `href`
  resolved a second time. Empty, `data:` and `blob:` values are skipped,
  and a value whose resolution throws is kept. This pass works in place,
  so it is an imperative method over an array of elements;
- **the `<style>` rewrite** (`StyleUrls`, `style.dfy`): every
  `url(...)` reference matched by `/url\((['"]?)([^'")]+)\1\)/g` gets its
  URL resolved inside the same quotes. A reference whose URL does not
  resolve is kept as it was.

`Strings` (`strings.dfy`) holds the JavaScript string primitives these rely
on: `trim`, `startsWith`, `join` and the decimal rendering of a count.

URL resolution (`new URL(x, location.href).href`) is a parameter of type
`Resolver = string -> Option<string>`. `None` stands for the constructor
throwing. The page location does not change during a capture, so it is
folded into the resolver. The clock is a parameter too: `FileName` and
`Payload` take the ISO time string. The script calls `new Date()` twice in
the fallback path (popup.js:173 and 177), so the model does not assume the
file name and the comment carry the same time.

The style rewrite follows how `String.prototype.replace` works with a
global pattern. The text is cut into pieces: single characters the scan
copies, and references handed to the callback. `Pieces` does the cutting
and `Render` puts the output together. At a given position the pattern has
at most one match, and `MatchAt` computes it: after `url(` a quote is taken
if there is one, the URL is the longest run of `[^'")]`, and the same quote
and `)` must follow. Backtracking cannot find another match, because a
shorter URL is followed by a character of the run.

The script lists `data-src` among the names it processes (popup.js:72),
but it reads element properties (`el[attr]`, popup.js:55-61). `data-src`
is not a property, so it is never rewritten: in a browser its value is
always `undefined`. The model follows the code. An element's properties are
a map from name to string, and a missing name reads as `undefined`, so
`data-src` is absent unless a caller puts it there.

## Model

| member | source | states |
|---|---|---|
| Strings.TrimStart | popup.js:36-38 | the leading whitespace is dropped: the result is a suffix, what was dropped is all whitespace, and the result does not start with whitespace |
| Strings.TrimEnd | popup.js:36-38 | the trailing whitespace is dropped: the result is a prefix, what was dropped is all whitespace, and the result does not end with whitespace |
| Strings.Trim | popup.js:36-38 | `trim()` never lengthens a string, and a non-empty result neither starts nor ends with whitespace |
| Strings.TrimIsCore | popup.js:36-38 | `trim()` is exactly the slice between the leading and trailing whitespace: any slice with whitespace around it and non-whitespace at both ends is the trimmed text |
| Strings.TrimBlank | popup.js:36 | `trim()` yields the empty (falsy) string exactly when the text is all whitespace |
| Strings.TrimIdempotent | popup.js:36-38 | trimming twice is trimming once |
| Strings.StartsWith | popup.js:58-59 | `startsWith(p)`; its meaning is given by StartsWithSplit |
| Strings.StartsWithSplit | popup.js:58-59 | a string starts with a prefix exactly when it is that prefix followed by the rest of the string |
| Strings.Join | popup.js:169 | `join(sep)` over strings; where each element and separator stands is given by JoinAt and JoinThree |
| Strings.DecimalString | popup.js:164-166 | the rendering of a count is non-empty, all digits and has no leading zero |
| Strings.DecimalRoundTrip | popup.js:164-166 | the rendering of a count reads back as that count |
| Strings.JoinAt | popup.js:166-169 | in `join(sep)` the i-th element stands at its offset and, unless it is the last, is followed by the separator; the last one ends the string |
| Strings.JoinThree | popup.js:166-169 | three strings joined are the first, the separator, the second, the separator and the third |
| PageTitle.RemoveUnsafe | popup.js:39 | the result has none of `/ \ : * ? " < > \|` and is no longer than the input |
| PageTitle.RemoveUnsafeCounts | popup.js:39 | the replace removes exactly the unsafe characters: every other character occurs as often as in the input |
| PageTitle.RemoveUnsafeKeepsSafe | popup.js:39 | text with no unsafe character passes through unchanged |
| PageTitle.RemoveUnsafeAppend | popup.js:39 | removal works piece by piece, so the kept characters stay in input order |
| PageTitle.Title | popup.js:34-43 | the title never contains an unsafe character and is at most 100 characters long |
| PageTitle.TitleDefault | popup.js:35-42 | with no `<h1>`, or one whose text is all whitespace, the title is `page` |
| PageTitle.TitleFromHeading | popup.js:36-40 | otherwise the title is a prefix of the trimmed, filtered text, of length min(100, its length) |
| PageTitle.TitleKeepsPlainHeading | popup.js:36-40 | a trimmed heading that is already safe and short enough is the title unchanged |
| PageTitle.TitleMayBeEmpty | popup.js:36-40 | the heading `???` is not blank, yet its title is empty, not `page` |
| PageTitle.TitleMayEndInSpace | popup.js:37-39 | trimming comes before filtering, so `a ?` gives the title `a ` with a trailing space |
| FileName.DashColonsAndT | popup.js:117 | `replace(/[:T]/g, "-")` keeps the length and replaces exactly the `:` and `T` characters by `-` |
| FileName.DateStamp | popup.js:117 | the stamp has min(19, n) characters and no `:` or `T` |
| FileName.FileName | popup.js:118 | the name starts with the title and ends with `.html` |
| FileName.DateStampOfIso | popup.js:117 | from a `YYYY-MM-DDTHH:MM:SS.sssZ` time the stamp has the form `YYYY-MM-DD-HH-MM-SS` and keeps every digit of the date and time of day |
| FileName.FileNameOfSafeTitle | popup.js:117-118 | a title without unsafe characters and a well-formed time give a name matching `^[^/\\:*?"<>\|]*_\d{4}-\d{2}-\d{2}-\d{2}-\d{2}-\d{2}\.html$` |
| FileName.FileNameMatchesPattern | popup.js:173-174 | every name built from a page title and a well-formed time matches that pattern |
| FileName.FileNameInjective | popup.js:118 | the title and the stamp can be read back from the name: equal names mean equal titles and stamps |
| Fallback.Urls | popup.js:168 | `map((r) => r.url)` keeps the length and takes each resource's URL in order |
| Fallback.ListedUrls | popup.js:166-168 | `slice(0, 3).map((r) => r.url)`; its URLs are placed in the warning by WarningListsUrl, and WarningIgnoresRest shows that nothing past the third matters |
| Fallback.Warning | popup.js:162-170 | the warning line; its contract is given by WarningEmptyIff, WarningStatesCount, WarningListsUrl and WarningForFive |
| Fallback.SavedFrom | popup.js:177 | the `Saved from` comment; PayloadLayout places it at the head of the payload |
| Fallback.Payload | popup.js:177 | the payload starts with the `Saved from` comment and ends with a line break followed by the unchanged markup |
| Fallback.WarningEmptyIff | popup.js:162-170 | the warning is empty exactly when there are no resources |
| Fallback.WarningStatesCount | popup.js:164-166 | right after the opening of a warning come digits that read back as the number of resources, followed by ` external resources not included (` |
| Fallback.WarningListsUrl | popup.js:166-169 | each of the first min(3, n) URLs stands, in order, at its place in the `, `-joined list, and the warning ends with `... -->` |
| Fallback.JoinedBetween | popup.js:164-169 | inside opening + joined list + closing, the i-th element stands after the opening at its offset in the list, and the closing ends the text |
| Fallback.WarningIgnoresRest | popup.js:166-168 | only the count and the first three URLs matter: tags and resources after the third do not change the warning |
| Fallback.WarningForFive | popup.js:162-170 | with five resources the warning states 5 and names exactly the first three URLs, joined by `, ` |
| Fallback.PayloadLayout | popup.js:177 | between the comment and the final line break the payload holds exactly the warning; with no resources it is comment, line break, markup |
| StyleUrls.TargetRunSpec | popup.js:80 | the URL group takes the longest run of `[^'")]` |
| StyleUrls.MatchAt | popup.js:80 | the match of the pattern at a position, within the text; MatchAtSound and MatchAtComplete show it finds exactly the occurrences there |
| StyleUrls.MatchAtSound | popup.js:80 | a match found at a position is an occurrence of the pattern there, with an admissible quote and URL |
| StyleUrls.MatchAtComplete | popup.js:80 | every occurrence of the pattern at a position is found, with exactly its quote and URL |
| StyleUrls.OccursAtText | popup.js:80 | an occurrence spelt out piece by piece is the text `url(` + quote + URL + quote + `)` |
| StyleUrls.TextOccursAt | popup.js:80 | the text of a reference, wherever it stands, is an occurrence there |
| StyleUrls.PiecesFrom | popup.js:79-80 | the scan of the global replace from a position on; PiecesFromText, PiecesFromRefs and PiecesAtOccurrence give its contract |
| StyleUrls.PiecesAt | popup.js:79-80 | one step of that scan: a match taken whole, or one character copied; PiecesAtOccurrence and RenderCopiesPlain give its contract |
| StyleUrls.Replacement | popup.js:81-88 | the callback's result; RewriteAtOccurrence places it in the output |
| StyleUrls.Rewrite | popup.js:79-90 | the whole replace; RewriteSingleReference, RewriteNoMatch and RewriteIdentity give its contract |
| StyleUrls.PiecesFromText | popup.js:79-80 | the pieces the scan cuts from a position on, put back together, are the text from there on |
| StyleUrls.PiecesFromRefs | popup.js:79-80 | every reference the scan hands to the callback is a match of the pattern |
| StyleUrls.PiecesText | popup.js:79-80 | the scan covers the whole text, and all of its references are matches of the pattern |
| StyleUrls.PiecesAtOccurrence | popup.js:79-81 | where a reference stands at a position the scan reaches, the scan takes it whole and resumes right after it |
| StyleUrls.RenderCopiesPlain | popup.js:79-90 | text in which no match begins is copied unchanged, including text where `url(` begins but the pattern fails |
| StyleUrls.RewriteAtOccurrence | popup.js:81-88 | a reference becomes `url(` + quote + resolved URL + quote + `)` with the same quote, or stays as it was when resolution throws, and the rewrite carries on after it |
| StyleUrls.RenderIdentity | popup.js:81-88 | with a resolver that never changes a URL, every piece renders as the text it stands for |
| StyleUrls.RewriteIdentity | popup.js:79-90 | with a resolver that never changes a URL, the rewrite leaves the style text as it is |
| StyleUrls.RewriteSingleReference | popup.js:79-90 | text free of `url(` followed by one reference: the text is kept, and the reference gets the resolved URL inside the same quotes |
| StyleUrls.NoMatchWhereNoneFound | popup.js:80 | where the match function finds nothing at any position, no occurrence of the pattern begins |
| StyleUrls.RewriteNoMatch | popup.js:79-90 | text in which the pattern matches nowhere comes out unchanged, for every resolver |
| StyleUrls.RewriteKeepsEmptyReference | popup.js:80 | `url()` is kept as it is, for every resolver: the URL group needs at least one character |
| StyleUrls.RewriteKeepsMismatchedQuotes | popup.js:80 | `url('a")` is kept as it is, for every resolver: the closing quote must be the opening one |
| ResourceUrls.ProcessAttributes | popup.js:53-68 | the loop over the names computes the specified new properties, taking the names in order |
| ResourceUrls.NormalizeClone | popup.js:71-92 | every element of the clone is processed in place by the per-element rule, and nothing else changes |
| ResourceUrls.NormalizeValue | popup.js:55-65 | the new value of one property; NormalizeValueCases states its three cases |
| ResourceUrls.NormalizedProps | popup.js:53-67 | the properties after one call of `processAttributes`; NormalizedPropsSpec gives its contract |
| ResourceUrls.ProcessElement | popup.js:71-91 | what the pass does to one element; ProcessElementProps, StylesheetLinkProps and ProcessElementIdentity give its contract |
| ResourceUrls.NormalizeValueCases | popup.js:55-65 | an empty, `data:` or `blob:` value is kept; a value whose resolution throws is kept; any other value becomes its resolution |
| ResourceUrls.NormalizeValueChanges | popup.js:57-62 | a value that is not skipped changes exactly when it resolves to something different |
| ResourceUrls.NormalizeValueIdempotent | popup.js:61 | when resolved URLs resolve to themselves, normalising twice is normalising once |
| ResourceUrls.NormalizedPropsSpec | popup.js:53-67 | for distinct names, each listed property that is present changes by the rule and every other property is kept; none is added or removed; a failed resolution does not stop the names after it |
| ResourceUrls.ProcessElementProps | popup.js:71-72 | on an element that is not a stylesheet link, only the four resource properties can change, each by the rule |
| ResourceUrls.StylesheetLinkProps | popup.js:72-77 | on a stylesheet link, with any resolver, `href` is normalised twice, the other resource properties once, and every other property is kept; none is added or removed |
| ResourceUrls.StylesheetSecondPass | popup.js:75-77 | when resolved URLs resolve to themselves, the second `href` pass on a stylesheet link changes nothing |
| ResourceUrls.NormalizedPropsIdentity | popup.js:53-67 | with a resolver that never changes a URL, processing any list of names changes nothing |
| ResourceUrls.ProcessElementIdentity | popup.js:71-91 | with a resolver that never changes a URL, the pass leaves every element as it was, `<style>` text included |

## Left out

- Browser and extension APIs are not modelled: `chrome.tabs.query`, `chrome.scripting.executeScript` and `world: "MAIN"` (popup.js:27-30, 124-128). They are host plumbing with no data transformation of their own.
- DOM work is not modelled: `cloneNode`, `createHTMLDocument`, `querySelectorAll`, the `<base>` insertion, `replaceWith` and `outerHTML` (popup.js:48-50, 95-103, 146-152). The element array given to `ResourceUrls.NormalizeClone` stands for the result of `querySelectorAll("*")`.
- URL resolution is the `Resolver` parameter. The URL parsing algorithm of the WHATWG URL Standard is not modelled, so the lemmas that need more than "some string or failure" say what they assume of the resolver.
- The clock is left out: the ISO time strings are parameters.
- The escaped-quote cleanup on the serialised markup (popup.js:113-115) is not modelled. It depends on lazy `.*?` matching, and it is a marshalling workaround rather than a designed transformation.
- `downloadFile` (popup.js:184-201) is left out: Blob, object URL, anchor click and timer are side effects only.
- The click handler's try/catch chain, `alert` and `console` output (popup.js:3-23, 64) are left out.
- The resource inventory of the fallback (`el.src || el.href`, `tagName`, popup.js:147-152) is DOM work and is not modelled. `Fallback.Resource` holds what it yields, with a missing URL taken as the empty string, which is how `join` prints `undefined`.
- PageTitle.Title: `substring(0, 100)` counts UTF-16 code units, and the model counts characters. A title with characters outside the Basic Multilingual Plane is therefore cut at a different place, and the JavaScript cut can split a surrogate pair.
- ResourceUrls.NormalizeValue: only string property values are modelled. A property holding an object, such as the `SVGAnimatedString` of an SVG `href`, makes `startsWith` throw; the script catches that and keeps the value. The model has no such values.
- `srcset` holds a list of candidates, but the script resolves it as one URL string, and so does the model.
- FileName.DateStampOfIso: `toISOString` writes years outside 0000-9999 with a sign and six digits. `IsIsoTimestamp` covers only four-digit years.
