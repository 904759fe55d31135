# eBay listing audit: extraction, CSV sheet and seller e-mail

This project models the core of a browser tool that audits an eBay listing. The core has three parts:

- **Extraction.** It takes a saved listing page and pulls out a `ParsedListingData` record: title, price, description HTML, item specifics and item number (`parseeBayListingHTML`).
- **The sheet.** It writes the audit result as an eleven-row CSV sheet (`generateCsvContent` with its `escapeCsv` helper).
- **The e-mail.** It composes a plain-text e-mail to the seller (`generateEmailContent`). The e-mail includes the rewritten description, flattened by `extractTextContent`.

The Dafny modules follow the source files:

- `Text` (`text.dfy`): JavaScript string behaviour the three files rely on.
  - `trim()` and the `\s` class.
  - ASCII `toLowerCase()`.
  - Leftmost regular-expression search.
  - `join`, single-character `replace`, and filtering.
- `Types` (`types.dfy`): the records passed between the parts (`ParsedListingData`, `AuditReport`, item specifics).
- `HtmlParser` (`html_parser.dfy`): `utils/htmlParser.ts`. The parsed page is a `Document` value.
  - `query` answers `querySelector`.
  - `queryAll` answers `querySelectorAll` for the item-specifics containers.
  - The description iframe, `document.title` and `body.textContent` are fields.
  - Each selector loop is a method, proved equal to a specification function. Properties are proved about those functions.
  - Each field is found by a first-qualifying-selector chain, with the source's fallbacks and thresholds.
  - Item specifics are pooled from four matchers and deduplicated as `new Map(...).values()` does.
- `CsvHelpers` (`csv_helpers.dfy`): `utils/csvHelpers.ts`.
  - The row pushes are a method, proved to write the eleven `SheetRows`.
  - Its partner is a CSV reader. The sheet it writes reads back to the same rows.
- `EmailHelpers` (`email_helpers.dfy`): `utils/emailHelpers.ts`.
  - `extractTextContent` is a loop over the block elements of the parsed HTML.
  - The body is built by appending, as in the source, and proved equal to `EmailBody`.
  - Lemmas state the structure of the body: the greeting, the introduction, the additions list and the sign-off.

Where the project's own documentation and the code disagree, the model follows the code:

- **Price.** The price cleanup turns every comma between two digits into a dot, thousands separators included. So "£1,234.56" becomes "£1.234.56", not "£1234.56" (`HtmlParser.CleanPriceSingleComma`). The replacement scans left to right and a digit it has used cannot start the next match, so in "1,2,3" only the first comma changes: "1.2,3" (`HtmlParser.AfterReplacedCommaKept`). A page with no price element gives the empty string, not "N/A" (`HtmlParser.MissingPriceIsEmpty`).
- **Dedup key.** The key runs the lower-cased label and value together with no separator (`HtmlParser.KeysRunTogether`).
- **Which duplicate survives.** The `Map` keeps the *last* pair with a key, at the position where that key *first* appeared (`HtmlParser.DedupLastWins`, `HtmlParser.DedupFirstOrder`).
- **The condition filter.** A label is dropped only when its trimmed text, lower-cased, is exactly "condition:". The test runs before the colon is removed, so a label "Condition" is kept (`HtmlParser.ConditionWithoutColonKept`).
- **No category.** There is no category field.
- **The identifier.** The identifier field is `itemNumber`. When no selector gives one, the page text is searched for "Item number:" followed by ten or more digits.
- **What the sheet reads.** The CSV writer reads `itemId`, `description` and `spec.name`/`spec.Name` from the parsed data. `ParsedListingData` has none of these fields. For an extracted listing, the sheet therefore shows:
  - "N/A" as every item number;
  - "See Original Listing" as the current description;
  - `undefined: <value>` for each specific.

  This is proved in `CsvHelpers.ListingSheetCells`.
- **Bullet points in the e-mail.** The comment on `generateEmailContent` promises no bullet points, but the additions are written as `- ` lines, and list items of the description get a `- ` prefix.

## Model

| member | source | states |
|---|---|---|
| Text.TrimShape | utils/htmlParser.ts:24 | `trim()` keeps one contiguous slice that neither starts nor ends with white space |
| Text.TrimKeepsNonSpace | utils/emailHelpers.ts:17 | `trim()` drops only white space: the non-space characters are kept, in order |
| Text.ReplaceChar | utils/emailHelpers.ts:20 | a global one-character replace has the same length, puts the new character at every position of the old one and changes nothing else |
| Text.WordsAreWords | utils/emailHelpers.ts:36 | every word is non-empty and holds no white space |
| Text.WordsTrim | utils/emailHelpers.ts:32 | `trim()` keeps every word |
| Text.WordsSpaceSplit | utils/emailHelpers.ts:32 | a non-empty run of white space between two strings separates their words |
| Text.WordsJoin | utils/emailHelpers.ts:32 | joining with a non-empty white-space separator gives the words of each string, in order |
| HtmlParser.DocumentTitleFallback | utils/htmlParser.ts:31-33 | the title taken from `document.title` is never empty |
| HtmlParser.RemoveFirstMatch | utils/htmlParser.ts:26 | a pattern replace without `g` leaves the string unchanged when the pattern matches nowhere |
| HtmlParser.RemoveLeftmostMatch | utils/htmlParser.ts:26 | when the pattern matches, the replace removes exactly the leftmost match |
| HtmlParser.DocumentTitleSuffixCut | utils/htmlParser.ts:32 | when "\| eBay" first occurs at a position with no line break after it, and no "Product details - eBay" in any case comes before it, the fallback is the trimmed text before it, or "N/A" when that is blank |
| HtmlParser.DocumentTitleProductDetailsCut | utils/htmlParser.ts:32 | without a "\| eBay" suffix, the first "Product details - eBay" in any case is removed, then the title is trimmed; "N/A" when nothing remains |
| HtmlParser.DocumentTitleUncut | utils/htmlParser.ts:32 | with neither pattern, the fallback is the trimmed `document.title`, or "N/A" when that is blank |
| HtmlParser.TitleOf | utils/htmlParser.ts:20-33 | the title is never empty and is either the selector chain's cleaned title or the `document.title` fallback |
| HtmlParser.ExtractTitle | utils/htmlParser.ts:20-33 | the title loop with its `break` computes `TitleOf`; the title is never empty |
| HtmlParser.FirstQualifying | utils/htmlParser.ts:21-29 | a selector loop returns the first selector whose element qualifies, or none |
| HtmlParser.TitleIgnoresLaterSelectors | utils/htmlParser.ts:21-28 | once a selector qualifies, the elements of later selectors do not affect the title |
| HtmlParser.TitleFallsBackAfterShortChain | utils/htmlParser.ts:21-33 | when the first element with more than 5 trimmed characters cleans to a short or empty title, the title is the `document.title` fallback |
| HtmlParser.TitleFromFirstQualifyingSelector | utils/htmlParser.ts:21-33 | the first element with more than 5 trimmed characters gives the title when its cleaned text is usable |
| HtmlParser.TitleWithoutSelectors | utils/htmlParser.ts:30-33 | with no qualifying element the title comes from `document.title` |
| HtmlParser.DecimalCommas | utils/htmlParser.ts:43 | only commas change, each into a dot, and only between two digits; the length is kept |
| HtmlParser.CommaBetweenDigitsBecomesDot | utils/htmlParser.ts:43 | a comma between two digits becomes a dot, unless the character two places to its left was itself a replaced comma |
| HtmlParser.AfterReplacedCommaKept | utils/htmlParser.ts:43 | two places right of a replaced comma nothing changes: the digit between them was used by that match |
| HtmlParser.SingleCommaBecomesDot | utils/htmlParser.ts:43 | a string whose only comma lies between two digits has exactly that comma turned into a dot |
| HtmlParser.CleanPrice | utils/htmlParser.ts:43 | the cleaned price holds only digits, `.`, `,`, `£`, `$` and `€`; it is as long as the raw price's price characters and equal to them at every position that is not a comma |
| HtmlParser.CleanPriceSingleComma | utils/htmlParser.ts:43 | a price of price characters with a single comma between digits, such as "£1,234.56", keeps every character but that comma, which becomes a dot |
| HtmlParser.CleanPriceKeepsDigits | utils/htmlParser.ts:43 | the cleanup keeps every digit of the raw price, in order |
| HtmlParser.MissingPriceIsEmpty | utils/htmlParser.ts:36-43 | with no non-blank price element, the "N/A" default is cleaned to the empty string |
| HtmlParser.ItemNumberInText | utils/htmlParser.ts:205-208 | a number is captured exactly when some position starts "Item number:" in any case, optional white space and 10 or more digits; it has at least 10 characters, all digits |
| HtmlParser.ItemNumberAtLeftmostLabel | utils/htmlParser.ts:205-208 | the capture is the run of digits after the leftmost such label and its white space |
| HtmlParser.ItemNumberOf | utils/htmlParser.ts:179-210 | the item number is "N/A" or more than 5 characters, all digits |
| HtmlParser.ItemNumberFromFirstSelector | utils/htmlParser.ts:189-199 | the first selector whose trimmed text has more than 5 digits gives the item number: the digits of that text |
| HtmlParser.ExtractItemNumber | utils/htmlParser.ts:179-210 | the selector loop followed by the text fallback computes `ItemNumberOf` |
| HtmlParser.ItemNumberIgnoresTextAfterSelector | utils/htmlParser.ts:189-210 | once a selector gives more than 5 digits, the page text is not consulted and the number is not "N/A" |
| HtmlParser.ItemNumberFromText | utils/htmlParser.ts:201-210 | with no qualifying selector, the number is the text match or "N/A" |
| HtmlParser.FrameDescription | utils/htmlParser.ts:46-57 | an iframe with a `srcdoc` and a non-blank body gives that body, trimmed; with no iframe or no `srcdoc` it gives "N/A"; never the empty string |
| HtmlParser.FrameStage | utils/htmlParser.ts:48-57 | the iframe branch computes `FrameDescription`; a `src`-only iframe contributes nothing |
| HtmlParser.SelectorDescription | utils/htmlParser.ts:75-84 | the description changes only when incomplete, and then to more than 50 characters |
| HtmlParser.SelectorDescriptionFirstWins | utils/htmlParser.ts:75-84 | an incomplete description is replaced by the trimmed inner HTML of the first selector with more than 50 trimmed characters |
| HtmlParser.SelectorDescriptionNone | utils/htmlParser.ts:76-84 | with no such selector the description is unchanged |
| HtmlParser.SelectorStage | utils/htmlParser.ts:75-84 | the selector loop computes `SelectorDescription` |
| HtmlParser.PageExcerpt | utils/htmlParser.ts:91-94 | page text of at most 10000 characters is kept whole; longer text is cut at 10000 and marked |
| HtmlParser.PageStage | utils/htmlParser.ts:86-106 | the main-content and body-text fallbacks compute `PageDescription` |
| HtmlParser.BoundDescription | utils/htmlParser.ts:108-111 | a description other than "N/A" over 20000 characters is cut to 20000 plus the marker; one of at most 20000 characters is unchanged |
| HtmlParser.DescriptionOf | utils/htmlParser.ts:46-111 | the description is never empty and never longer than 20000 characters plus the marker |
| HtmlParser.ExtractDescription | utils/htmlParser.ts:46-111 | the three attempts and the final bound, in order, compute `DescriptionOf` |
| HtmlParser.BoundDescriptionIdempotent | utils/htmlParser.ts:108-111 | bounding twice is the same as bounding once |
| HtmlParser.BoundMarksCut | utils/htmlParser.ts:108-111 | when the final cut fires, the description is exactly 20000 characters followed by the marker |
| HtmlParser.PageFallbackShape | utils/htmlParser.ts:87-94 | an incomplete description is replaced by the page note and an excerpt of the main content block |
| HtmlParser.BodyFallbackShape | utils/htmlParser.ts:95-104 | without a main content block, long body text gives the body note and an excerpt of the body text |
| HtmlParser.ExcerptFitsLimit | utils/htmlParser.ts:88-111 | a page fallback is never "N/A" and always fits under the 20000-character bound |
| HtmlParser.FrameDescriptionWins | utils/htmlParser.ts:50-111 | an iframe body of 50 or more characters settles the description; later stages are skipped |
| HtmlParser.ShortFrameDescriptionSurvives | utils/htmlParser.ts:75-106 | a short iframe body is kept when no selector or page fallback applies |
| HtmlParser.Pushed | utils/htmlParser.ts:133 | the value is kept; the label loses its first colon, when it has one, and nothing else |
| HtmlParser.MatchItem | utils/htmlParser.ts:129-135 | a labels-values item is pushed exactly when bold and light texts are non-blank and the label is not "condition:"; the pair is the trimmed bold text without its first colon and the trimmed light text |
| HtmlParser.MatchTerm | utils/htmlParser.ts:138-147 | a `dt` is pushed exactly when it is non-blank, not "condition:", and followed by a `DD` with text; the pair is the trimmed term without its first colon and the trimmed `DD` text |
| HtmlParser.MatchLabel | utils/htmlParser.ts:150-159 | a `label` is pushed exactly when it is non-blank, not "condition:", and followed by a `SPAN` or `DIV` with text; the pair is the trimmed label without its first colon and the trimmed sibling text |
| HtmlParser.MatchRow | utils/htmlParser.ts:162-171 | a table row is pushed exactly when it has two non-blank cells and the first is not "condition:"; the pair is the first cell without its first colon and the second cell, both trimmed |
| HtmlParser.PushMatches | utils/htmlParser.ts:129-135 | one matcher's `forEach` appends its matches in document order |
| HtmlParser.PushContainer | utils/htmlParser.ts:127-172 | the four matchers run in turn over one container |
| HtmlParser.PushContainers | utils/htmlParser.ts:127 | every container a selector finds contributes, in order |
| HtmlParser.CollectSpecifics | utils/htmlParser.ts:126-173 | the pool is the contributions of each selector's containers, selectors in order |
| HtmlParser.MatchedExactly | utils/htmlParser.ts:129-135 | one matcher's pushes are exactly the pairs it produces from the elements it visits |
| HtmlParser.ContainerPoolExactly | utils/htmlParser.ts:127-172 | a container contributes exactly the pairs one of the four matchers produces from its elements |
| HtmlParser.SelectorsPoolExactly | utils/htmlParser.ts:126-173 | a pair is pooled exactly when a matcher produces it from an element of a container that one of the selectors finds |
| HtmlParser.ConditionLabelDropped | utils/htmlParser.ts:132 | "CONDITION:" is dropped: the comparison ignores case |
| HtmlParser.ConditionWithoutColonKept | utils/htmlParser.ts:132-133 | "Condition" without a colon is kept |
| HtmlParser.Dedup | utils/htmlParser.ts:176 | deduplication never lengthens the list |
| HtmlParser.DedupDistinct | utils/htmlParser.ts:176 | no two kept pairs share a key |
| HtmlParser.DedupLastWins | utils/htmlParser.ts:176 | each kept pair is the last pair with its key |
| HtmlParser.DedupComplete | utils/htmlParser.ts:176 | every key of the pool is kept |
| HtmlParser.DedupFirstOrder | utils/htmlParser.ts:176 | kept pairs are ordered by where their keys first occur |
| HtmlParser.KeysRunTogether | utils/htmlParser.ts:176 | labels and values that run together to the same key collapse into one pair |
| HtmlParser.DedupKeepsPoolPairs | utils/htmlParser.ts:176 | every kept pair comes from the pool, and the key of every pooled pair is kept |
| HtmlParser.SpecificsFromPage | utils/htmlParser.ts:126-176 | every extracted specific is produced by a matcher on the page, and every pair a matcher produces on the page has its key among the specifics |
| HtmlParser.ParseListing | utils/htmlParser.ts:4-219 | `parseeBayListingHTML` returns the five extracted fields of `ListingOf` |
| HtmlParser.ListingInvariants | utils/htmlParser.ts:4-219 | for every page: title and description non-empty, description bounded, price of price characters keeping the raw price's digits in order, item number "N/A" or digits, every specific produced by a matcher on the page, keys distinct |
| CsvHelpers.EscapeCsv | utils/csvHelpers.ts:9-17 | a missing field is empty; a field without quote, comma or line feed is unchanged; any other field is quoted |
| CsvHelpers.EscapeCsvRoundTrip | utils/csvHelpers.ts:9-17 | reading an escaped field back gives the original text |
| CsvHelpers.ReadFieldEscaped | utils/csvHelpers.ts:91 | a reader takes exactly one escaped field back off the written text |
| CsvHelpers.ReadFieldsEncoded | utils/csvHelpers.ts:91 | a row written with `,` reads back as its cells |
| CsvHelpers.ReadRecordEncoded | utils/csvHelpers.ts:91 | a written row other than a single empty cell reads back as one record |
| CsvHelpers.SheetRoundTrip | utils/csvHelpers.ts:91 | rows joined with line feeds read back as the same rows |
| CsvHelpers.OrElse | utils/csvHelpers.ts:31 | the `or` of two optional strings is the first when it is present and non-empty, and the second otherwise |
| CsvHelpers.ItemCell | utils/csvHelpers.ts:22 | the item cell is the item id when truthy and "N/A" otherwise; never empty |
| CsvHelpers.GenerateCsvContent | utils/csvHelpers.ts:3-92 | the pushed rows, written out, are `EncodeSheet(SheetRows(...))` |
| CsvHelpers.SheetShape | utils/csvHelpers.ts:49-88 | eleven rows: three headers, blank spacers at rows 3, 4, 7, 8 and 9, one shared item cell, and the titles, rewrite and joined additions in their cells |
| CsvHelpers.SheetReadsBack | utils/csvHelpers.ts:49-91 | the written sheet parses back to exactly its eleven rows |
| Text.JoinInOrder | utils/csvHelpers.ts:41 | a join ends with its last element, after the join of the rest and the separator |
| CsvHelpers.ListingSheetCells | utils/csvHelpers.ts:22-73 | for an extracted listing, the item cells are "N/A", the current description is "See Original Listing", and each specific reads `undefined: <value>` |
| EmailHelpers.CollapseNewlines | utils/emailHelpers.ts:35 | no three line feeds remain in a row; a string without two line feeds in a row is unchanged; a leading non-line-feed character is kept; the result starts a word exactly when the input does |
| EmailHelpers.CollapseSpaces | utils/emailHelpers.ts:36 | no two white-space characters remain next to each other; a string without two in a row is unchanged, so a single white-space character stays as it is; a leading non-space character is kept; the result starts a word exactly when the input does |
| EmailHelpers.CollapseNewlinesAppend | utils/emailHelpers.ts:35 | a part that does not end in a line feed is consolidated apart from whatever follows it |
| EmailHelpers.CollapseSpacesAppend | utils/emailHelpers.ts:36 | a part that does not end in white space is consolidated apart from whatever follows it |
| EmailHelpers.CollapseNewlinesSplit | utils/emailHelpers.ts:35 | a run of two or more line feeds between a part that does not end and a part that does not start with a line feed becomes exactly "\n\n", and the parts are consolidated apart |
| EmailHelpers.CollapseSpacesSplit | utils/emailHelpers.ts:36 | a run of two or more white-space characters between a part that does not end and a part that does not start with white space becomes one space, and the parts are consolidated apart |
| EmailHelpers.CollapseNewlinesKeepsText | utils/emailHelpers.ts:35 | collapsing line feeds keeps every non-space character, in order |
| EmailHelpers.CollapseSpacesKeepsText | utils/emailHelpers.ts:36 | collapsing white space keeps every non-space character, in order |
| EmailHelpers.CollapseNewlinesKeepsWords | utils/emailHelpers.ts:35 | collapsing line feeds keeps the words: the maximal runs of non-space characters |
| EmailHelpers.CollapseSpacesKeepsWords | utils/emailHelpers.ts:36 | collapsing white space keeps the words |
| EmailHelpers.FlattenKeepsWords | utils/emailHelpers.ts:32-36 | trimming and both collapses together keep the words |
| EmailHelpers.PieceOf | utils/emailHelpers.ts:17-28 | a blank element contributes nothing; any other contributes exactly one paragraph: its trimmed text with every em dash turned into a hyphen, prefixed `- ` for `LI`; it is non-empty and has no em dash |
| EmailHelpers.ParagraphsClean | utils/emailHelpers.ts:16-29 | every paragraph is non-empty and has no em dash |
| EmailHelpers.ExtractTextContent | utils/emailHelpers.ts:9-39 | the element loop, join, trim and collapses compute `TextContentOf`; empty HTML gives "" |
| EmailHelpers.TextContentSingleSpaced | utils/emailHelpers.ts:32-38 | the extracted text never has two white-space characters in a row |
| EmailHelpers.TextContentKeepsText | utils/emailHelpers.ts:16-38 | the extracted text has exactly the non-space characters of the paragraphs, in order |
| EmailHelpers.TextContentWords | utils/emailHelpers.ts:16-38 | the words of the extracted text are the words of the paragraphs, paragraph after paragraph |
| EmailHelpers.ParagraphsEdges | utils/emailHelpers.ts:16-28 | every paragraph starts and ends with a character other than white space |
| EmailHelpers.CollapseTightJoin | utils/emailHelpers.ts:32-36 | between paragraphs that neither start nor end with white space and have no two white-space characters in a row, each "\n\n" of the join survives the line-feed step and becomes one space |
| EmailHelpers.TextContentSpacesParagraphs | utils/emailHelpers.ts:16-38 | when no paragraph has two white-space characters in a row, the plain text is exactly the paragraphs joined by single spaces |
| EmailHelpers.TextContentWithoutEmDash | utils/emailHelpers.ts:16-38 | the extracted text has no em dash |
| EmailHelpers.FirstPiece | utils/emailHelpers.ts:50 | the first piece of the split is a prefix of the title |
| EmailHelpers.FirstPieceEndsAtSeparator | utils/emailHelpers.ts:50 | the first piece holds no separator and ends at the leftmost one, or at the end of the title |
| EmailHelpers.ItemNameShape | utils/emailHelpers.ts:46-53 | the item name is the whole title, or a non-blank name that holds no separator |
| EmailHelpers.ItemNameWithoutSeparator | utils/emailHelpers.ts:46-53 | a title without a separator gives its trimmed self, or the title when that is blank |
| EmailHelpers.ItemNumberClause | utils/emailHelpers.ts:56 | the item-number clause is empty exactly when the item number is "N/A" |
| EmailHelpers.AppendBullets | utils/emailHelpers.ts:79-81 | the additions loop appends one `- ` line per addition, in order |
| EmailHelpers.GenerateEmailContent | utils/emailHelpers.ts:45-98 | the subject and the appended body are `Subject` and `EmailBody` |
| EmailHelpers.EmailStartsWithGreeting | utils/emailHelpers.ts:60 | the body starts with the greeting |
| EmailHelpers.EmailEndsWithSignOff | utils/emailHelpers.ts:95 | the body ends with the sign-off |
| EmailHelpers.EmailIntroduces | utils/emailHelpers.ts:61 | right after the greeting comes the introduction naming the item and its number clause |
| EmailHelpers.EmailListsAdditions | utils/emailHelpers.ts:77-85 | after the description section comes the additions list, or the no-additions sentence when there are none |
| EmailHelpers.EmailIgnoresCorrections | utils/emailHelpers.ts:86-87 | the corrections of the report do not affect the body |
| EmailHelpers.BulletsReadBack | utils/emailHelpers.ts:79-81 | the additions list reads back, line by line, to the additions, when none holds a line feed |

## Left out

- The HTML parser itself (`DOMParser`, `querySelector`, `querySelectorAll`, `nextElementSibling`, `tagName`) is not modelled.
  - The page is given as an already parsed `Document`, with the answers to each selector, in the order the browser would give.
  - `extractTextContent` receives its block elements (`h1`-`h6`, `p`, `li`) as a list of `Block`s next to the HTML string.
  - `generateEmailContent` passes those blocks through for the rewritten description.
- Regular expressions are not modelled by a general engine.
  - Each pattern the core uses is written out as its own matcher: leftmost match, greedy, `i` as ASCII case folding.
  - `\s` is the JavaScript white-space set.
- `toLowerCase()` is modelled on ASCII letters only.
- Strings are sequences of Unicode scalar values. JavaScript counts UTF-16 code units, so the 5-, 50-, 500-, 10000- and 20000-character thresholds agree only for text in the Basic Multilingual Plane.
- The `console.warn` for an iframe with only a `src` is left out: it is output only.
- EscapeCsv: a `number` field and `String(field)` are not modelled, and neither is `null` as distinct from `undefined`. Every cell the writer passes is a string.
- ItemCell: a non-string truthy `itemId` is not modelled; the source would stringify it.
- SpecificsText: only string-valued specifics are modelled.
  - An object specific is a list of key/value string pairs, in the order `Object.entries` returns them.
  - An array element is a record of optional `name`/`Name`/`value`/`Value` strings; a missing one prints as "undefined".
- GenerateEmailContent: the fixed wording of the e-mail is passed as a `Wording` record, and `SourceWording` holds the source's texts. The method and the lemmas about the body hold for every wording.
- ExtractDescription, `CollectSpecifics` and `GenerateEmailContent` call helper methods for the stages, the nested `forEach` loops and the additions loop. The source writes these inline.
- The rest of the application is not part of this model: the user interface, the generative-model service that produces the audit report, `constants.ts`, and the parts of `types.ts` that the core does not read.
