# Resumable product harvester, modelled in Dafny

The crawler walks the "all products" collection of a Shopify storefront
that loads more tiles as the page is scrolled. It resumes from a
partial-results file. It then scrolls until the page height and the
visible tile count stay unchanged for five scrolls in a row. After each
scroll that does not end the loop it walks every visible tile and turns
each tile whose name has not been seen into a product record (name,
price, description, rating, category, availability, image URL). Once 20 records are unsaved, it
writes the whole list to the partial-results file. It also saves when the
page raises an error, and once more at the end when anything is unsaved.

The save test runs once per pass, after the whole walk over the visible
tiles. A run stopped between passes therefore loses fewer than 20
records. A run killed during a pass also loses every record that pass
had added so far.

The model has six modules:

- `Optional` (`optional.dfy`): a value that may be absent, standing for
  Python's `None` next to a present value.
- `Text` (`text.dfy`): the Python string operations the crawler uses, over
  `seq<char>`. These are `startswith`, `in`, `replace` and `strip`.
- `Fields` (`fields.dfy`): the record and the per-field normalisers. These
  are `parse_price`, the sale-before-regular price choice, availability
  classification, image-URL completion and description stripping.
- `Ledger` (`ledger.dfy`): the dedup-and-accept walk over the tiles of one
  scroll, as a function of the seen names and the tiles, with its
  properties.
- `Progress` (`progress.dfy`): the stall counter that ends the scroll loop.
- `Harvest` (`harvest.dfy`): the harvest state as a class. Its fields are
  the ones `scrape_apniroots` mutates: the record list, the seen-names set,
  the unsaved counter, the previous height and count, and the stall
  counter. Each step of the loop is a method on it.

The page is not modelled. Each scroll hands the `Harvester` the page height
and the raw text of the visible tiles (`RawItem`). Every write to the
partial-results file is recorded in the ghost sequence `saves`.
`Checkpointed()` is what a restart would load. The class invariant ties
that to the list in memory: the saved list is always a prefix of it,
missing at most the unsaved records.

A price is kept as the cleaned numeral that Python's `float()` accepts,
not as a binary float. For example, `$12,345.67` gives `12345.67`. Because
every `.` is kept, `Rs. 40` gives `.40` (`ParsePriceAbbreviation`).

## Model

| member | source | states |
|---|---|---|
| Text.IsPrefix | crawler/crawl.py:203 | `s.startswith(p)`: `s` begins with the characters of `p` |
| Text.Contains | crawler/crawl.py:188-190 | Python's `sub in s`, by trying every start position from the left |
| Text.ContainsIffOccurs | crawler/crawl.py:188-190 | `sub in s`, as used for the availability phrases, holds exactly when `sub` occurs at some index of `s` |
| Text.ReplaceAll | crawler/crawl.py:202 | `str.replace` leaves a string without the pattern unchanged |
| Text.ReplaceAllJoin | crawler/crawl.py:202 | `replace` turns every occurrence into the replacement and keeps everything else: text cut at the pattern into pieces without its first character becomes the same pieces joined by the replacement |
| Text.ReplaceAllRemoves | crawler/crawl.py:202 | after replacing `{width}x` by a string that cannot start or complete a new occurrence, the pattern occurs nowhere |
| Text.ReplaceAllSkips | crawler/crawl.py:202 | a stretch without the pattern's first character passes through `replace` unchanged |
| Text.PrefixSurvivesReplace | crawler/crawl.py:202-203 | a prefix of the replaced URL that lacks the replacement's first character was a prefix of the original |
| Text.PrefixKeepsAbsent | crawler/crawl.py:203-204 | putting `https:` in front of a URL without `{width}x` does not create one |
| Text.IsSpace | crawler/crawl.py:172 | the whitespace set of Python's `str.isspace()`, which `strip()` removes |
| Text.TrimStart | crawler/crawl.py:172 | the left strip is a suffix of the input, everything removed is whitespace, and it does not start with whitespace |
| Text.TrimEnd | crawler/crawl.py:172 | the right strip is a prefix of the input, everything removed is whitespace, and it does not end with whitespace |
| Text.Strip | crawler/crawl.py:172 | the stripped description is no longer than the text, and neither starts nor ends with whitespace |
| Text.StripInText | crawler/crawl.py:172 | the stripped description occurs in the text with only whitespace before and after it |
| Text.StripIdempotent | crawler/crawl.py:172 | stripping twice is stripping once |
| Fields.Kept | crawler/crawl.py:42 | the characters `re.sub(r'[^\d.]', '', …)` keeps: an ASCII digit or the decimal point |
| Fields.Clean | crawler/crawl.py:42 | the cleaned price has only digits and points and is no longer than the text |
| Fields.CleanKeepsExactly | crawler/crawl.py:42 | the cleaned price keeps every digit and point of the text, as a multiset, and nothing else |
| Fields.CleanConcat | crawler/crawl.py:42 | cleaning distributes over concatenation |
| Fields.CleanKeepsKept | crawler/crawl.py:42 | text of digits and points is left unchanged by cleaning |
| Fields.CleanDropsOthers | crawler/crawl.py:42 | text without digits or points cleans to the empty string |
| Fields.CountConcat | crawler/crawl.py:43-46 | the number of points in a concatenation is the sum of the counts |
| Fields.DigitsIffNoPoint | crawler/crawl.py:43-46 | cleaned text is all digits exactly when it has no point |
| Fields.FirstPoint | crawler/crawl.py:43-46 | the index found is the first point, or the length when there is none |
| Fields.FirstPointAt | crawler/crawl.py:43-46 | in digits followed by a point, the first point is right after the digits |
| Fields.FloatSyntaxIffValid | crawler/crawl.py:43-46 | for cleaned text, `float()`'s grammar (digits, an optional point, digits, at least one digit) holds exactly when there is at most one point and at least one digit |
| Fields.FloatSyntax | crawler/crawl.py:43-46 | whether `float()` accepts a string of digits and points: digits with an optional point and optional digits after it, or a point followed by digits; `FloatSyntaxIffValid` equates it with the counting rule |
| Fields.ParsePrice | crawler/crawl.py:37-46 | a missing or empty text gives none; otherwise the price is present exactly when the cleaned text is a valid numeral, and it is that cleaned text |
| Fields.ParsePriceStable | crawler/crawl.py:37-46 | a property of the model's numeral string, not of the code: the numeral parses back to itself (the code's `parse_price` given its own float would raise in `re.sub`) |
| Fields.CleanPieces | crawler/crawl.py:42 | a currency sign, digits, thousands separators and digits clean to the digits alone |
| Fields.FloatSyntaxSplit | crawler/crawl.py:43-46 | digits, a point and digits form a numeral |
| Fields.ParsePriceAccepts | crawler/crawl.py:37-46 | any non-empty text whose cleaned form is a numeral parses to that numeral |
| Fields.ParsePriceGrouped | crawler/crawl.py:37-46 | a sign, digits, a thousands separator, digits, a point and digits parse to the digits around the point |
| Fields.ParsePriceExample | crawler/crawl.py:37-46 | `$12,345.67` parses to `12345.67` |
| Fields.ParsePriceAbbreviation | crawler/crawl.py:37-46 | `Rs. 40` parses to `.40`, because the abbreviation's point is kept |
| Fields.ParsePriceRejects | crawler/crawl.py:37-46 | `Free`, `1.2.3`, the empty text and a missing element all give none |
| Fields.PriceText | crawler/crawl.py:158-167 | the sale element's text is used whenever that element exists, else the regular element's text |
| Fields.Classify | crawler/crawl.py:181-194 | none exactly when the element or its text is missing; "In Stock" exactly when the text contains it; "Sold Out" exactly when it contains that but not "In Stock"; "Unknown" exactly for other non-empty text |
| Fields.ClassifyLabel | crawler/crawl.py:188-191 | a stored "In Stock" or "Sold Out" label occurs in the page text |
| Text.MissingFirstChar | crawler/crawl.py:188-190 | text lacking a phrase's first character does not contain the phrase |
| Fields.ClassifyInStockExample | crawler/crawl.py:188-189 | "In Stock Ready to ship" is in stock |
| Fields.ClassifySoldOutExample | crawler/crawl.py:190-191 | "Currently Sold Out" is sold out |
| Fields.ClassifyBothExample | crawler/crawl.py:188-191 | "Sold Out, In Stock soon" is in stock, because that phrase is checked first |
| Fields.ClassifyUnknownExample | crawler/crawl.py:192-193 | "Pre-order" is unknown |
| Fields.ImageUrl | crawler/crawl.py:197-209 | none exactly when the attribute is missing or empty; otherwise the URL starts with `http` and has no `{width}x`; it is the replaced attribute when that already starts with `http`, else `https:` in front of it; a finished URL comes back unchanged |
| Fields.ImageUrlRewrites | crawler/crawl.py:197-205 | for any attribute cut at its `{width}x` placeholders into pieces without `{`, the URL is those pieces joined by `1024x`, with `https:` in front unless it already starts with `http` |
| Fields.ImageUrlIdempotent | crawler/crawl.py:197-209 | normalising a normalised URL changes nothing |
| Fields.ImageUrlTemplate | crawler/crawl.py:202-205 | a protocol-relative template with one `{width}x` becomes `https:` plus the template with `1024x` in its place |
| Fields.ImageUrlExample | crawler/crawl.py:202-205 | `//cdn.example.com/img_{width}x.jpg` becomes `https://cdn.example.com/img_1024x.jpg` |
| Fields.Description | crawler/crawl.py:170-172 | no description element gives none; otherwise the element's text, stripped |
| Fields.Label | crawler/crawl.py:189-193 | the text stored for each of the three availability outcomes |
| Fields.Extract | crawler/crawl.py:151-209 | the record carries the tile's name, no rating and the fixed category; its price, availability and image URL are those of the normalisers, and its description is the stripped text; a present price is a valid numeral; a present URL starts with `http`; the description is present exactly when its element is, and does not start with whitespace |
| Ledger.Admits | crawler/crawl.py:150 | a tile is taken exactly when its name is present, non-empty and not yet seen |
| Ledger.NameSet | crawler/crawl.py:55 | the seen-names set built from a list of records: the name of every record whose name is non-empty |
| Ledger.NewRecords | crawler/crawl.py:144-155 | the records one walk over the tiles appends, in order, each accepted name seen by the later tiles; never more records than tiles |
| Ledger.NameSetAppend | crawler/crawl.py:155 | appending a named record adds exactly its name to the seen names |
| Ledger.NameSetConcat | crawler/crawl.py:55 | the seen names of a joined list are the union of the parts' names |
| Ledger.FreshConcat | crawler/crawl.py:150-155 | a run fresh after an earlier fresh run extends it freshly |
| Ledger.NewRecordsFresh | crawler/crawl.py:144-155 | the records one walk appends have non-empty names, none seen before and none repeated |
| Ledger.NewRecordsNames | crawler/crawl.py:144-155 | the names one walk appends are exactly the tiles' non-empty names not seen before |
| Ledger.NothingNewWhenAllSeen | crawler/crawl.py:150 | a walk over tiles whose names were all seen appends nothing |
| Ledger.Reharvest | crawler/crawl.py:144-155 | walking the same tiles again after a walk appends nothing |
| Ledger.FreshRunSize | crawler/crawl.py:150-155 | a fresh run has as many distinct names as records |
| Ledger.NewRecordsCount | crawler/crawl.py:144-212 | one walk appends exactly one record per distinct new non-empty name shown |
| Ledger.NewRecordsSplit | crawler/crawl.py:144-155 | the walk keeps tile order: walking `a` then `b` appends `a`'s records, then `b`'s as seen after `a`'s names were added |
| Ledger.NewRecordsFirstWins | crawler/crawl.py:150-155 | the first tile showing an unseen name yields a record built from that tile |
| Ledger.NewRecordsFirstOnly | crawler/crawl.py:150-155 | the only record with that name is the one built from its first tile; later tiles with the name add nothing |
| Ledger.NewRecordsExtracted | crawler/crawl.py:144-211 | every appended record is the extraction of one of the tiles walked |
| Progress.StallStep | crawler/crawl.py:128-135 | one scroll adds one to the counter exactly when height and count are both unchanged, and resets it to zero otherwise |
| Progress.StallCount | crawler/crawl.py:127-135 | `no_change_scroll_attempts` after a sequence of scrolls: `StallStep` applied to each snapshot and the one before it, in order; `StallCountIsRunLength` shows it is the length of the trailing run of unchanged snapshots |
| Progress.StallCountIsRunLength | crawler/crawl.py:127-138 | the stall counter is the length of the run of unchanged scrolls at the end, and the scroll before that run changed height or count |
| Progress.StopIffFiveRepeats | crawler/crawl.py:127-133 | the loop ends exactly when the last five scrolls each left height and count unchanged |
| Progress.FiveRepeatsStop | crawler/crawl.py:127-133 | five unchanged scrolls after the first sample end the loop |
| Progress.ChangeOnFourthResets | crawler/crawl.py:128-135 | any change on the fourth scroll, growth or shrink, restarts the count, so the fifth does not end the loop |
| Harvest.LoadPrevious | crawler/crawl.py:16-26 | the stored list when the file decodes, else an empty list |
| Harvest.AppendKeepsLedger | crawler/crawl.py:206-212 | appending a record whose non-empty name is unseen, adding the name and counting the record as unsaved keeps the dedup invariant: loaded records untouched, the set equal to the list's names, the run's names fresh and distinct, and the last save a prefix short of at most the unsaved records |
| Harvest.WalkStep | crawler/crawl.py:144-212 | one tile extends the list and the name set of the first `i` tiles to those of the first `i + 1`, by the record and the name it contributes when admitted |
| Harvest.Harvester.constructor | crawler/crawl.py:52-57 | the list is what was loaded, the seen names are its non-empty names, nothing is unsaved, and the first height and count are the previous snapshot |
| Harvest.Harvester.Accept | crawler/crawl.py:146-212 | a tile is appended, its name added and the unsaved counter bumped exactly when its name is present, non-empty and unseen; the ledger invariant is kept |
| Harvest.Harvester.WalkTiles | crawler/crawl.py:144-212 | the walk appends exactly `NewRecords` of the names seen before it, adds their names and counts them as unsaved |
| Harvest.Harvester.Observe | crawler/crawl.py:119-138 | the stall counter grows on an unchanged height and count and resets otherwise; the loop stops exactly when it reaches five; otherwise the new snapshot becomes the previous one |
| Harvest.Harvester.SaveIfDue | crawler/crawl.py:214-217 | with 20 or more unsaved records the whole list is saved and the counter reset, otherwise nothing changes |
| Harvest.Harvester.Collect | crawler/crawl.py:140-217 | after a scroll that did not stall: exactly the new records are appended and their names added; the list is saved and the counter reset exactly when 20 or more records are unsaved; fewer than 20 remain unsaved afterwards |
| Harvest.Harvester.Tick | crawler/crawl.py:105-217 | one pass of the loop: a stopping pass changes no record and saves nothing; any other pass appends exactly the new records, adds their names and saves when 20 are unsaved; the invariant between passes is kept |
| Harvest.Harvester.OnError | crawler/crawl.py:221-224 | an error saves the current list and ends the loop |
| Harvest.Harvester.Finish | crawler/crawl.py:228-230 | the final save happens exactly when records are unsaved, and afterwards a restart would load every record harvested |

## Left out

- The browser session is not modelled: navigation, the newsletter popup, scrolling, network-idle waits, sleeps and timeouts. The height and the tiles seen after each scroll are parameters.
- File I/O and JSON encoding are not modelled: a save is a ghost record of the list written. An `IOError` while saving is printed and swallowed, and the unsaved counter is still reset. The model treats every save as successful.
- The model does not claim an atomic file replacement. The code opens the partial-results file and writes it in place.
- `Harvest.LoadPrevious`: `Corrupt` means a JSON decode error only, the one error the code catches. A file that exists but cannot be opened raises out of the load, and so does one that is not valid UTF-8, such as a file cut mid-character by an interrupted write. Neither case is modelled.
- `Harvest.LoadPrevious`: a decodable file is assumed to hold a list of records, each with a string name. The missing name counts as the empty name. JSON that decodes to another shape is not modelled.
- `Fields.ParsePrice`: the price is the numeral `float()` accepts, not its binary floating-point value. Python's `\d` also matches non-ASCII digits. The model keeps ASCII digits only.
- `Fields.Extract`: a description element whose `text_content()` is `None` raises in the code. The model assumes the element has text.
- Stored availability keeps the code's behaviour. It is absent when the status element or its text is missing, rather than always one of the three labels.
- An error raised half-way through a pass is not modelled. `OnError` happens between passes, so a partly walked pass is not captured. An error raised before the loop starts is not modelled either.
- `main()` is not modelled: the copy to the final output file and the removal of the partial-results file.
- The search backend, the indexer and the frontend are not part of this model.
- Console logging and timestamps are not modelled.
