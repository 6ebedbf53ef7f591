# Group-pricing scraper core, modelled in Dafny

This project models the logic at the centre of a Broadway group-pricing scraper. The browser sits on one side and the screen on the other. The Streamlit app (`app.py`) does the following:

- keeps a list of scraping tasks;
- checks the list before a run;
- runs each task through the pricing scraper and captures any failure;
- turns the scraped rows into one text block per showtime.

Each block has a header line. Seat sections are split out, duplicate lines are removed, and the lines are sorted by seating group, then by price, highest first.

`scrape.py` does three things modelled here:

- It normalises the catalog of shows.
- It walks the pricing grid, which tags each row with its showtime header.
- It reads the one-or-two-date command-line argument.

`scrape_shows.py` cleans tour-listing tables, chooses show links on the tours page and fits the CSV header to the data.

All text is `string` (`seq<char>`). Prices and sort keys are exact `real`s. Browser, network, clock and file effects are parameters or are left out. Every operation that the source writes as a loop over changing variables is a `method`. Each such method is proved equal to a specification function, and the properties are lemmas about those functions.

Files, one module each:

- `basics.dfy`: `Option`, `Result`, JSON scalars with Python truthiness, and `Flatten`.
- `text.dfy`: the Python string operations used, on ASCII. These are `strip`, `lower`, `upper`, `capitalize`, `in`, `split`, `join`, whitespace `split()`, and decimal digits.
- `prices.dfy`: `normalize_price_display`, `extract_price_value`, `_categorize`.
- `pricing_header.dfy`: the showtime header of `format_pricing_by_date`.
- `pricing_text.dfy`: grouping, line building, de-duplication, sorting and block text of `format_pricing_by_date`.
- `dates.dfy`: `validate_date`, `format_date_for_task`, `parse_show_date`.
- `tasks.dfy`: `add_task`, `remove_task`, the validation in `run_all_tasks`, the run filter and loop, `run_scraping_task`, `get_show_date_constraints`.
- `catalog.dfy`: the show-normalisation loop of `get_broadway_shows`.
- `pricing_grid.dfy`: the row-extraction script of `scrape_pricing`.
- `date_args.dfy`: the date-argument rule of the command-line entry.
- `tour_tables.dfy`: header and cell cleaning, the link filter, and `save_data`'s header fitting.

Three behaviours of the code worth knowing:

- `run_scraping_task` reports `success: True` whenever `scrape_pricing` returns. This holds even when the returned dictionary carries an error and no rows. Only a raised exception gives `success: False`, with no data (`Tasks.RunScrapingTask`).
- The header pattern's `[APMapm]{2}` accepts any two of those letters, not only AM/PM.
- `add_task` numbers a new task by the list's length, so ids repeat after a removal (see Findings).

## Model

| member | source | states |
|---|---|---|
| Text.Strip | app.py:287 | the stripped text has no leading or trailing whitespace, is no longer than the input, and a text already stripped is unchanged |
| Text.JsTrim | scrape.py:260 | JavaScript's `trim`: the result has no leading or trailing JavaScript whitespace, is no longer than the input, and a trimmed text is unchanged |
| Text.JsTrimKeepsSeparator | scrape.py:267 | a text starting with an information separator (U+001C to U+001F) keeps it under `trim`, while Python's `strip` removes it |
| Text.SplitOn | app.py:287 | splitting on '/' gives at least one part and no part contains '/' |
| Text.Capitalize | app.py:232 | the first character is upper-cased and the rest lower-cased, with the length unchanged |
| Text.SplitWhitespace | scrape.py:290 | every word is non-empty and holds no whitespace |
| Prices.NormalizeValueSettled | app.py:193-194 | a normalised cell is a string exactly when the input was; a string result has no removable `.00` left and normalising it again changes nothing; any other value passes through unchanged |
| Prices.NormalizeLeavesNoDotZeroZero | app.py:195-197 | after normalisation, no `.00` remains that follows a digit and is not followed by a digit |
| Prices.NormalizeKeepsCleanPrice | app.py:195-197 | a stripped price with no such `.00` is returned exactly as it is: nothing else changes |
| Prices.NormalizeIdempotent | app.py:184-197 | normalising twice gives the same text as normalising once |
| Prices.NormalizeWholeDollars | app.py:187-188 | `$` + digits + `.00` normalises to `$` + digits |
| Prices.NormalizeExampleWhole | app.py:188 | "$169.00" becomes "$169" |
| Prices.NormalizeExampleCents | app.py:189 | "$169.50" is unchanged |
| Prices.NormalizeExampleRange | app.py:190 | "$99.00 - $299.00" becomes "$99 - $299" |
| Prices.ExtractPriceValue | app.py:172-182 | the sort value is never negative, and is 0 for a price with no digit; the value of the first number is stated by the lemmas below |
| Prices.LeadingNumberFirst | app.py:176-179 | in text without '$' or ',', the first run of digits, after a stretch without digits and followed by neither a digit nor a point, is read as its whole value whatever follows |
| Prices.LeadingDecimalFirst | app.py:176-179 | the first `digits.digits` after a stretch without digits is read as that decimal whatever follows the fraction |
| Prices.ExtractFirstWhole | app.py:176-179 | a price whose first number is a whole number (a prefix without digits before it, and no digit, point, '$' or ',' after it) sorts by that number, whatever text follows |
| Prices.ExtractFirstDecimal | app.py:176-179 | a price whose first number is `digits.digits` (a prefix without digits before it, and no digit, '$' or ',' after it) sorts by that decimal, whatever text follows |
| Prices.RangeSortsByFirstPrice | app.py:283-292 | the range "$99.00 - $299.00" is displayed as "$99 - $299" and sorts by its first price, 99 |
| Prices.ExtractWholeDollars | app.py:176-179 | "$" + digits reads as that whole number |
| Prices.ExtractDollarsAndCents | app.py:176-179 | "$" + digits + "." + digits reads as that decimal number |
| Prices.ExtractThousands | app.py:176-179 | a thousands comma is dropped before reading: "$a,b.f" reads as the number ab.f |
| Prices.WholeDollarSortKey | app.py:283-292 | the displayed form of "$n.00" sorts by exactly n |
| Prices.PremiumAlternatives | app.py:269 | the three premium spellings are matched exactly when the lower-cased text contains "premium" |
| Prices.OrchestraAlternatives | app.py:271 | the orchestra test is the same as containing "orch" |
| Prices.MezzanineAlternatives | app.py:273 | the mezzanine test is the same as containing "mezz" |
| Prices.BalconyAlternatives | app.py:275 | the balcony test is the same as containing "balc" |
| Prices.CategorizeByKeyword | app.py:266-277 | each of the five groups is chosen exactly when its keyword is present and no earlier keyword is: first match wins, and the function is total |
| Prices.PremiumRanksFirst | app.py:266-277 | a section naming premium is in the premium group, whose rank is at most every other section's rank |
| PricingHeader.ParseStampMatches | app.py:226 | the label scan succeeds exactly when the main showtime pattern matches the label |
| PricingHeader.ParseStampSound | app.py:226 | when the scan succeeds, its boundaries satisfy the pattern and its groups are read at them |
| PricingHeader.ParseStampComplete | app.py:226 | for every way the pattern matches, the scan finds those same boundaries and groups |
| PricingHeader.StampOfPattern | app.py:226-228 | a matching label yields the day, date and time groups at the match's boundaries |
| PricingHeader.ParseLeadingWordComplete | app.py:236-238 | whitespace, a word of letters, a rest without a newline and an optional final newline give that word and that rest |
| PricingHeader.ParseLeadingWordSound | app.py:236-238 | an accepted label is leading whitespace, the word and the rest, with at most one final newline |
| PricingHeader.ParseLeadingWordGroups | app.py:236-238 | the fallback's word is non-empty letters, and its rest starts with a non-letter and holds no newline |
| PricingHeader.TimeDisplay | app.py:228-230 | the displayed time has no space and no lower-case letter |
| PricingHeader.TimeDisplayOfClock | app.py:228-230 | `H:MM`, any spaces, then the meridiem gives `H:MM` plus the upper-cased meridiem |
| PricingHeader.WhenTextOfStamp | app.py:227-233 | a matching label gives the capitalised day, the date exactly as written, and the compacted time |
| PricingHeader.WhenTextOfWord | app.py:234-241 | a label of the fallback form gives its leading word capitalised followed by the rest verbatim |
| PricingHeader.WhenTextUnchanged | app.py:240-241 | a label without a leading word is kept as it is |
| PricingText.DateKeys | app.py:210-215 | the group keys are pairwise distinct |
| PricingText.DateKeysAreDates | app.py:211-215 | a date is a key exactly when some item has it; a missing `dateTime` counts as "Unknown Date" |
| PricingText.ItemsOn | app.py:211-215 | a group holds only items of its date, drawn from the input |
| PricingText.ItemInItsGroup | app.py:212-215 | every item is in the group of its own date |
| PricingText.GroupCounts | app.py:211-215 | an item occurs in its group exactly as often as in the input |
| PricingText.NoKeyNoItems | app.py:213-215 | a date that is not a key has no items |
| PricingText.NoDateNoItems | app.py:213-215 | a date no item has gets an empty group |
| PricingText.GroupByDate | app.py:210-215 | the grouping loop yields the keys in first-appearance order, and each key's items in input order |
| PricingText.LineFor | app.py:290-296 | each line's price key is non-negative and its seating rank is 0 to 4 |
| PricingText.KeptSections | app.py:287-289 | no kept section is empty, and there are at most as many as parts |
| PricingText.KeptSectionsAre | app.py:287-289 | a section is kept exactly when it is some part stripped and not empty |
| PricingText.ItemLinesAre | app.py:285-296 | an item's lines are exactly one line per section; with a '/' the sections are the non-empty stripped parts, otherwise the description itself |
| PricingText.ItemLinesShowPrice | app.py:283-296 | every line of an item ends in " - " and its display price, and sorts by that price's value |
| PricingText.AllLinesAre | app.py:280-296 | the collected lines are exactly the lines of the items |
| PricingText.AppendSections | app.py:286-292 | the section loop appends one line per non-empty stripped part, in order |
| PricingText.CollectLines | app.py:280-296 | the item loop collects every item's lines, in item order |
| PricingText.Dedupe | app.py:298-306 | after de-duplication the set of line texts is unchanged, no text repeats, and every kept line is an input line |
| PricingText.DedupeKeepsFirst | app.py:300-305 | the first line with a given text is the one kept |
| PricingText.DedupeStep | app.py:300-305 | one more line is kept exactly when its text was not seen before, and the seen texts grow by its text |
| PricingText.DedupeLines | app.py:300-306 | the loop with its seen-set computes that de-duplication |
| PricingText.TextBelowIrreflexive | app.py:309 | no text sorts before itself in Python's string order |
| PricingText.TextBelowAsymmetric | app.py:309 | Python's string order is asymmetric |
| PricingText.TextBelowTransitive | app.py:309 | Python's string order is transitive |
| PricingText.TextBelowTotal | app.py:309 | any two different texts are ordered one way or the other |
| PricingText.BeforeIrreflexive | app.py:309 | no line sorts before itself under (rank, -price, text) |
| PricingText.BeforeAsymmetric | app.py:309 | the sort key order is asymmetric and separates different lines |
| PricingText.BeforeTransitive | app.py:309 | the sort key order is transitive |
| PricingText.BeforeTotal | app.py:309 | any two different lines are ordered, so the sort has exactly one result |
| PricingText.Insert | app.py:309 | inserting into a sorted list keeps it sorted and adds exactly that line |
| PricingText.SortLines | app.py:309 | the sorted lines are a permutation of the input, ordered by (rank, -price, text) |
| PricingText.SortedPairwise | app.py:309 | in a sorted list no later line sorts before an earlier one |
| PricingText.SortedUnique | app.py:309 | two sorted lists with the same lines are equal, so any correct sort gives the same block |
| PricingText.BlockKeepsTexts | app.py:298-313 | a block holds exactly the distinct texts of its items' lines |
| PricingText.BlockLinesFrom | app.py:280-313 | every block line is the line of some section of some item, with that item's display price |
| PricingText.BlockTextsComplete | app.py:280-313 | every section of every item appears as "section - price" in the block |
| PricingText.BlockTextsDistinct | app.py:298-313 | no text appears twice in a block |
| PricingText.BlockOrder | app.py:308-313 | block lines go by seating rank, then by price, highest first; a premium line precedes an orchestra line whatever the prices |
| PricingHeader.HeaderLastLineEmpty | app.py:233 | the header ends in its newline, so split at newlines its last part is empty |
| PricingText.GroupTextLayout | app.py:260-315 | the block splits at newlines into the header's lines, then one line per sorted price line; the header itself ends in a newline |
| PricingText.TextLines | app.py:260-313 | the text list is the header followed by the sorted line texts |
| PricingText.FormatBlock | app.py:219-315 | one showtime's text is its header and its de-duplicated, sorted lines joined by newlines |
| PricingText.FormatGroups | app.py:218-315 | the loop over the keys builds the map from each key to the text of that key's items |
| PricingText.FormatPricingByDate | app.py:199-317 | no input gives an empty map; otherwise there is one text per distinct date, built from exactly that date's items |
| Dates.FormattedDateValidates | app.py:152-156 | a date the picker writes has the `MM/DD/YYYY` shape, passes `validate_date`, and its digits read back as that date |
| Dates.TaskDateValidates | app.py:92-97 | an empty date and a picked date both pass `validate_date` |
| Dates.DateOfParts | app.py:118-123 | a month, day and year text gives a date only when it names a real day |
| Dates.ParseShowDate | app.py:108-125 | `parse_show_date` gives only real days |
| Dates.ShowDateRoundTrip | app.py:108-125 | every real day written `M/D/YYYY` parses back to itself |
| Dates.ParseShowDateOfShape | app.py:108-115 | a `MM/DD/YYYY` text parses to its three numbers, and does so exactly when they name a real day |
| Tasks.WithoutTask | app.py:168-170 | removal never makes the list longer |
| Tasks.WithoutTaskHas | app.py:168-170 | a task remains exactly when it was in the list and its id differs from the removed one |
| Tasks.FreshId | app.py:158-166 | the corrected id is larger than every id in the list |
| Tasks.TaskList.constructor | app.py:56 | the session starts with no tasks |
| Tasks.TaskList.AddTask | app.py:158-166 | `add_task` as written appends a blank task numbered by the list's length |
| Tasks.TaskList.AddTaskWithFreshId | app.py:158-166 | the corrected add appends a blank task with an unused id and keeps ids distinct |
| Tasks.TaskList.RemoveTask | app.py:168-170 | `remove_task` rebuilds the list without that id and keeps ids distinct |
| Tasks.WithoutAbsentTask | app.py:168-170 | removing an id nobody has changes nothing |
| Tasks.WithoutTaskKeepsDistinct | app.py:168-170 | removal keeps the ids distinct |
| Tasks.WithoutTaskCount | app.py:168-170 | with distinct ids, removal takes out exactly one task when the id is present, and none otherwise |
| Tasks.FreshTaskKeepsDistinct | app.py:158-166 | the corrected id is new, and adding it keeps the ids distinct |
| Tasks.RemoveUndoesFreshAdd | app.py:158-170 | removing the task just added with a fresh id restores the list |
| Tasks.AddsOnlyNumberByPosition | app.py:158-166 | with adds only, ids equal positions and are therefore distinct |
| Tasks.AddAfterRemoveReusesId | app.py:158-170 | two tasks, remove the first, add one: both remaining tasks have id 1, and removing id 1 empties the list |
| Tasks.FreshAddAfterRemoveKeepsDistinct | app.py:158-170 | the same steps with the corrected add keep the ids distinct |
| Tasks.TaskProblem | app.py:346-358 | a task draws no complaint exactly when the run filter accepts it, and a complaint carries the task's number |
| Tasks.ValidateTasks | app.py:338-360 | the validation loop refuses an empty batch, otherwise stops at the first faulty task |
| Tasks.FirstProblemNone | app.py:346-358 | from any task on, validation finds no problem exactly when every remaining task is valid |
| Tasks.FirstProblemIs | app.py:346-358 | a found problem names a later task by its 1-based number, is that task's own complaint, and every task before it is valid |
| Tasks.CheckBatchOk | app.py:338-363 | a batch passes exactly when it is non-empty and every task has a show, a from date and well-formed dates |
| Tasks.CheckBatchErr | app.py:346-358 | a refused non-empty batch names its first faulty task by its 1-based number, with that task's first complaint; all earlier tasks are fine |
| Tasks.RunnableTasksAre | app.py:516-519 | the run keeps exactly the accepted tasks |
| Tasks.RunnableAfterCheck | app.py:516-519 | after the batch check passed, the run filter keeps every task |
| Tasks.SelectRunnable | app.py:516-519 | the filter loop keeps the accepted tasks in order |
| Tasks.RunIsolatesFaults | app.py:319-336 | in a run, the k-th result is for the k-th accepted task; it fails exactly when that task's scrape (asked for its own date range, the to date falling back to the from date) raised, and then carries the error text, no rows and no click; otherwise it carries the scraper's reply |
| Tasks.RunResultIsOwn | app.py:523-540 | a task's result depends only on its own scrape: two scrapers that agree on that task give it the same result, whatever they do for the other tasks |
| Tasks.RunnableTaskAsksWellFormedRange | app.py:322-323 | an accepted task asks the scraper for two non-empty, well-formed dates |
| Tasks.PickedTaskIsValid | app.py:346-358 | a task with a chosen show and picked dates passes validation |
| Tasks.RunTasks | app.py:521-540 | each accepted task yields exactly one result, in order, the batch's result for that task; `completed` counts them, and every result's task is accepted |
| Tasks.FirstShowWithUrl | app.py:133-138 | the search finds the first show with the task's link, and none only when no show has it |
| Tasks.FindShow | app.py:133-138 | the search loop with its early exit finds that show |
| Tasks.ShowDateOf | app.py:108-115 | a falsy catalog value gives no date; a parsed date is real; a value that is neither falsy nor a string raises |
| Tasks.GetShowDateConstraints | app.py:127-150 | the method computes the show-constrained range, with its defaults and errors |
| Tasks.ConstraintsAreDays | app.py:144-150 | both bounds are real days |
| Tasks.ConstraintsFromShowDates | app.py:143-150 | a show whose dates are written `M/D/YYYY` bounds the range by exactly those days |
| Tasks.ConstraintsDefault | app.py:129-141 | no link, or a link missing from the catalog, gives 2020-01-01 to 2030-12-31 |
| Catalog.FirstTruthy | scrape.py:104-105 | the `or` chain is truthy exactly when some key's value is, and then it is the first truthy value |
| Catalog.ShowUrl | scrape.py:110-114 | every link starts with "https://www.broadwayinbound.com/"; a slug starting with '/' is appended as it is, any other slug after one added '/' |
| Catalog.ShowUrlOneSlash | scrape.py:110-114 | the link is the site, one joining '/', and the slug with its first leading '/' (if any) removed, so the join never doubles the slug's own '/'; the character after the join is the slug's next character |
| Catalog.NormalizeShows | scrape.py:100-141 | the loop yields the kept shows and notes in record order, plus a count note unless an error ended it |
| Catalog.FailedStays | scrape.py:138-141 | once an error ends the loop, later records change nothing |
| Catalog.ScanFails | scrape.py:100-141 | an error ends the loop exactly when some record would raise |
| Catalog.ScanKeeps | scrape.py:100-120 | without an error, the shows are exactly the kept records' shows, in order |
| Catalog.ScanStopsAtCrash | scrape.py:100-141 | after an error, the shows are those kept before the first record that raised |
| Catalog.KeptShowFrom | scrape.py:103-120 | every listed show was kept by one record's step |
| Catalog.KeptShowsFrom | scrape.py:103-120 | every listed show comes from one record, with its title stripped and an absolute link |
| Catalog.KeepIff | scrape.py:103-116 | a record is listed exactly when its flag equals False and its slug and title are non-empty strings |
| Catalog.SkipAndDrop | scrape.py:109-129 | a record without pricing adds only a skip note; one with pricing but no slug or title leaves no trace |
| PricingGrid.PairRows | scrape.py:263-267 | an element gives min(#descriptions, #prices) rows |
| PricingGrid.NodeRows | scrape.py:258-269 | a header gives no row, and neither does an element before the first header |
| PricingGrid.GridRowsByNode | scrape.py:257-271 | the walk's rows are, in document order, each element's pairs tagged with the nearest header before it |
| PricingGrid.PartsFromAt | scrape.py:258-269 | the k-th part of the walk from node i is the rows of node i + k |
| PricingGrid.NodeRowAt | scrape.py:263-267 | each row of an element is its pair at that position, under the nearest header |
| PricingGrid.RowFromNode | scrape.py:258-269 | every row carries the trimmed text of the nearest earlier header (none in between) and the trimmed spans at one position of one element |
| PricingGrid.WalkIsRowsFrom | scrape.py:257-271 | the walk from any element, carrying the nearest header so far, produces exactly the rows of the elements from there on |
| PricingGrid.NearestIndex | scrape.py:258-262 | a current header is the stripped text of an earlier header element with only non-header elements after it |
| PricingGrid.HeaderResets | scrape.py:261-262 | the walk after one header stops at the next header |
| PricingGrid.PushPairs | scrape.py:263-267 | the innermost loop pushes the element's pairs in order |
| PricingGrid.WalkSection | scrape.py:259-270 | the sibling loop consumes the elements up to the next header |
| PricingGrid.ScrapeRows | scrape.py:253-273 | the script's nested loops compute exactly the walk's rows |
| DateArgs.ParseDateArgs | scrape.py:286-301 | an accepted line gives two `MM/DD/YYYY` dates, and a refusal gives the usage message |
| DateArgs.AcceptedWords | scrape.py:290-298 | an accepted line is one date word (from = to) or two date words, in the order typed |
| DateArgs.OneDate | scrape.py:286-296 | one date with any whitespace around it gives the range from that date to itself |
| DateArgs.TwoDates | scrape.py:286-298 | two dates separated by whitespace give the range (first, second) |
| DateArgs.RefusedCounts | scrape.py:295-301 | no words, or more than two, are refused |
| TourTables.CleanHeaderIsClean | scrape_shows.py:67 | a cleaned header is stripped and has no lower-case letter, so cleaning it again changes nothing |
| TourTables.RowValuesAre | scrape_shows.py:76-88 | only a ticket-column link can give no value; every other cell gives its stripped text |
| TourTables.TableRows | scrape_shows.py:73-91 | there are never more data rows than table rows |
| TourTables.TableRowsAre | scrape_shows.py:73-91 | a data row exists exactly for each table row with cells, and none is empty |
| TourTables.ReadRow | scrape_shows.py:74-88 | the cell loop computes the row's values |
| TourTables.ReadTable | scrape_shows.py:73-91 | the row loop keeps the non-empty rows, in order |
| TourTables.CollectShowLinks | scrape_shows.py:131-147 | the link loop with its seen-set chooses the show links |
| TourTables.ListBroadwayShows | scrape_shows.py:111-147 | the header row is fixed, and a protection-page title gives no shows |
| TourTables.ShowLinksComplete | scrape_shows.py:135-147 | every tour link with non-blank text has its address chosen |
| TourTables.ShowLinkFrom | scrape_shows.py:135-147 | every chosen show comes from the first tour link to its address with non-blank text; a blank-text link does not block a later one |
| TourTables.ShowLinksDistinct | scrape_shows.py:142-147 | no two chosen shows share an address |
| TourTables.ShowLinkAddress | scrape_shows.py:137-142 | every chosen address starts with "https://www.broadway.org/tours/" and has no '?' |
| TourTables.FitColumnsFits | scrape_shows.py:218-224 | the fitted header has the data's width, keeps the names it had within that width, names added columns by position, and refitting changes nothing |
| TourTables.SaveData | scrape_shows.py:215-230 | no data writes nothing; otherwise the rows go under the fitted header; padding extends the caller's list, cutting leaves it as it was |

## Left out

- Streamlit UI, session reruns, buttons, date pickers and the progress bar: presentation only. The session's task list is the `TaskList` class.
- Concurrency: `ThreadPoolExecutor` runs tasks in an unspecified completion order. `Tasks.RunTasks` runs them one after another in list order.
- Browser automation: all Playwright calls, `page.evaluate`, page titles, link attributes and cell texts. Their results are inputs: records, nodes, anchors, cells, titles. The scraper is a function parameter of `Tasks.RunScrapingTask`.
- The inline-JSON search and `json.loads` of `get_broadway_shows` are left out. The model starts from parsed records with scalar values.
- Clock: the `HH:MM:SS` timestamp is a parameter.
- Floating point: prices are exact reals. Float rounding and float `0.0 == False` in the pricing flag are not modelled.
- Text: `\s`, `\d`, `str.strip`, `split`, `upper`, `lower` and `capitalize` are modelled on ASCII, where Python's whitespace includes U+001C to U+001F. JavaScript's `trim` is modelled separately (`Text.JsTrim`) on tab to carriage return and space. Unicode whitespace, digits and case tables are left out.
- Dates.ParseShowDate: does not model `strptime`'s leniencies, such as a space before a single-digit day ("9/ 7/2019"). It does not model `int()`'s in the fallback at app.py:121, such as signs, underscores and whitespace around the month and day. The model reads month and day as digits of any length and the year as exactly four digits.
- Dates.DateText: for years below 1000 it zero-pads to four digits, where the platform's `strftime("%Y")` may not.
- Tasks.RunScrapingTask: the contents of the reply of `scrape_pricing` itself (browser automation) are not modelled.
- Debug and print messages are modelled as message kinds (`Catalog.Note`), not texts.
- PricingText: an item whose price is not a string would make `extract_price_value` raise. Items carry string prices or none, as the grid script produces them. A missing `show_title` (`None`) is the empty title.
- PricingText.SortLines: Python's Timsort is modelled as an insertion sort. `PricingText.SortedUnique` shows that every sort of the same lines by this total order gives the same list.
- PricingGrid: the grid is modelled as a flat sequence of sibling elements. Headers nested inside other elements are not modelled.
- The per-show page visits of `get_broadway_data`, and its exception handling, are browser automation and are left out.
- Writing the CSV file (pandas) is left out. `TourTables.SaveData` returns the columns and rows it would write.
- TourTables.SaveData: pandas raising `ValueError` when a later row is wider than the first (data `[["a"], ["b", "c"]]` under headers `["X"]`) is not modelled: the source writes nothing there, while the model still returns the columns and rows.

## Findings

| source | as written | input that shows it | evidently intended | confidence | as-written member | corrected member |
|---|---|---|---|---|---|---|
| app.py:161 | a new task's id is the current number of tasks | tasks with ids 0 and 1; `remove_task(0)`, then `add_task()` leaves two tasks with id 1, and `remove_task(1)` then deletes both | a new task gets an id that no task has | high; not executed | Tasks.AddAfterRemoveReusesId | Tasks.TaskList.AddTaskWithFreshId |
