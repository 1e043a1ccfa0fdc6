# tungsten-ui core, modelled in Dafny

tungsten-ui is a Django component library. Its browser script drives:

- table and list filters;
- a two-handle range slider;
- sortable tables;
- a combobox;
- a smart navbar, a toaster and tabs.

Its Python side assembles HTMX responses from a list of actions. A build script serialises Lucide icons to SVG strings.

This project models that logic as Dafny code and proves properties of it. Each module covers one part:

| module | file | models |
|---|---|---|
| `JsText` | `js_text.dfy` | the JavaScript string operations the components rely on: `trim`, `toLowerCase`, `includes`, `replace` with a character class, the default string order of `Array.prototype.sort()`, `new Set` deduplication, and the `x \|\| d` default |
| `FilterRules` | `filter_rules.dfy` | the filter state `{text, dropdowns, ranges}` shared by both filter hosts, and the rules for when each filter is active |
| `TableFilters` | `table_filter.dfy` | `TableFilter`: per-column declared filters, the cell value chain, fail-open visibility, and the reset operations |
| `GenericFilters` | `generic_filter.dfy` | `GenericFilter`: filters inferred from `data-<prefix><id>` attributes, fail-closed visibility, and the reset operations |
| `RangeSliders` | `range_slider.dfy` | `RangeSlider`: drag, track click, keyboard, `setRange`, `setMinMax`, and the `rangechange` events |
| `TableSorts` | `table_sort.dfy` | `sortTable` and `getCellSortValue` |
| `Comboboxes` | `combobox.dfy` | `ComboboxAutocomplete` |
| `Widgets` | `widgets.dfy` | the toaster store, `smartNavbar`, and the tab name in `showTabContent` |
| `Htmx` | `htmx.dfy` | the actions of `utils.py`, `HtmxResponse` with its constructor, `_update_trigger_header` and `add`, and the `+` operators |
| `LucideSvg` | `lucide_svg.dfy` | `createSVG` with its default attributes |

Where the source mutates state, the model uses classes: `TableFilter`, `GenericFilter`, `RangeSlider`, `SortableTable`, `Combobox`, `Toaster`, `SmartNavbar`, `TabGroup` and `HtmxResponse`. Their methods carry `modifies` clauses. Each method's `ensures` ties the new state to a pure function of the old state. The loops of the source are methods with loops:

- `applyAllFilters`;
- `_collect_content`, `_has_triggers` and the three loops of `_update_trigger_header`;
- `createSVG`;
- the header reset in `sortTable`;
- detection in both filter hosts.

The pure parts are functions, and lemmas state what the source promises about them.

Numbers are Dafny `real`s. `parseFloat` is a parameter `parse: string -> Option<real>`: `None` stands for `NaN`. `localeCompare` is a parameter, assumed antisymmetric wherever that matters.

Points where the hosts differ, as the source has them:

- Dropdown options in `GenericFilter` are the distinct values **untrimmed** (components.js:838), unlike TableFilter, whose options are trimmed (components.js:329-330).
- `TableFilter` lets a row whose value does not parse pass an active range (components.js:725): it is fail-open, unlike GenericFilter, which hides such an item (components.js:1175-1186).
- A `GenericFilter` id is a range when each non-blank value passes `parseFloat`, which accepts a numeric prefix. The model keeps the `parse` parameter abstract.
- When two `TableFilter` headers declare the same id, the last one sets the configuration, but range bounds an earlier range header stored stay. Under a dropdown configuration the range test treats them as active (components.js:720). TableFilters.DuplicateIdLeavesActiveRange states this; TableFilters.DistinctDetectionStartsAtRest states that with distinct ids detection leaves every filter inactive.

Where the source itself is wrong (see Findings), the classes run the corrected behaviour, and "## Left out" says so for each: TableFilters.TableFilter (the dropdown test), Comboboxes.Combobox (the keyboard list and the placeholder) and Htmx.HtmxResponse.Add (the swap flag and the 204 upgrade).

## Model

| member | source | states |
|---|---|---|
| JsText.OrDefault | tungsten_ui/static/tungsten_ui/js/components.js:1335-1340 | `parseFloat(x) \|\| d` gives the parsed number unless it is missing (NaN) or zero, and `d` otherwise |
| JsText.Trim | tungsten_ui/static/tungsten_ui/js/components.js:384-393 | the trimmed text is a contiguous slice of the input with a blank prefix and a blank suffix cut off, neither starts nor ends with white space, and is empty exactly when the input is all white space |
| JsText.TrimIdempotent | tungsten_ui/static/tungsten_ui/js/components.js:329-330 | trimming an already trimmed value changes nothing |
| JsText.ToLower | tungsten_ui/static/tungsten_ui/js/components.js:1587 | lower-casing keeps the length and maps each character through its ASCII lower-case |
| JsText.ToLowerIdempotent | tungsten_ui/static/tungsten_ui/js/components.js:1602 | lower-casing twice is lower-casing once |
| JsText.IncludesEmpty | tungsten_ui/static/tungsten_ui/js/components.js:1670 | every text includes the empty query |
| JsText.IncludesSelf | tungsten_ui/static/tungsten_ui/js/components.js:1670 | every text includes itself |
| JsText.RemoveCharsSpec | tungsten_ui/static/tungsten_ui/js/components.js:390 | `replace(/[...]/g, '')` leaves no character of the class, and every other character keeps its number of occurrences |
| JsText.RemoveCharsKeepsOrder | tungsten_ui/static/tungsten_ui/js/components.js:390 | the characters `replace` keeps come out in their original order |
| JsText.RemoveCharsKeepsClean | tungsten_ui/static/tungsten_ui/js/components.js:390 | text with no character of the class comes back unchanged |
| JsText.Units | tungsten_ui/static/tungsten_ui/js/components.js:337 | a character is one UTF-16 code unit inside the Basic Multilingual Plane and a high then a low surrogate above it, from which it is recovered |
| JsText.Utf16Injective | tungsten_ui/static/tungsten_ui/js/components.js:337 | two strings with the same UTF-16 code units are the same string |
| JsText.UnitsOrderedByKey | tungsten_ui/static/tungsten_ui/js/components.js:337 | the code units of two different characters compare as the characters' positions in the order: below U+D800, then above the Basic Multilingual Plane, then U+E000 to U+FFFF |
| JsText.StrLeIsUtf16Order | tungsten_ui/static/tungsten_ui/js/components.js:337 | the model's character-by-character string order is exactly the lexicographic order of the strings' UTF-16 code units |
| JsText.SupplementarySortsBeforeHighBmp | tungsten_ui/static/tungsten_ui/js/components.js:337 | the default sort order puts U+1F600 before U+FF01, because its leading surrogate is the smaller code unit |
| JsText.StrLeTotal | tungsten_ui/static/tungsten_ui/js/components.js:337 | the default sort order, lexicographic by UTF-16 code unit, compares any two strings |
| JsText.StrLeAntisymmetric | tungsten_ui/static/tungsten_ui/js/components.js:337 | two strings ordered both ways by UTF-16 code unit are equal |
| JsText.StrLeTransitive | tungsten_ui/static/tungsten_ui/js/components.js:337 | the default sort order is transitive |
| JsText.Insert | tungsten_ui/static/tungsten_ui/js/components.js:337 | inserting into a sorted list keeps it sorted and adds exactly the element |
| JsText.SortStrings | tungsten_ui/static/tungsten_ui/js/components.js:337 | `sort()` returns a permutation of its input sorted by UTF-16 code unit |
| JsText.Dedup | tungsten_ui/static/tungsten_ui/js/components.js:838 | `[...new Set(xs)]` has no repeated value and holds exactly the values of `xs` |
| JsText.SortedDistinct | tungsten_ui/static/tungsten_ui/js/components.js:838 | sorting the distinct values gives a list of exactly the input's values, strictly sorted by UTF-16 code unit |
| JsText.SortedDistinctSingleton | tungsten_ui/static/tungsten_ui/js/components.js:838 | one value gives a one-option list |
| JsText.StrictlySortedUnique | tungsten_ui/static/tungsten_ui/js/components.js:337 | two strictly sorted lists with the same values are equal, so the option list depends only on the set of values |
| FilterRules.Numbers | tungsten_ui/static/tungsten_ui/js/components.js:820 | `values.map(parseFloat).filter(!isNaN)` keeps exactly the parsed numbers, and is as long as the input exactly when every value parses |
| FilterRules.MinOf | tungsten_ui/static/tungsten_ui/js/components.js:825 | `Math.min(...xs)` is an element of `xs` no larger than any other |
| FilterRules.MaxOf | tungsten_ui/static/tungsten_ui/js/components.js:826 | `Math.max(...xs)` is an element of `xs` no smaller than any other |
| FilterRules.Span | tungsten_ui/static/tungsten_ui/js/components.js:825-835 | the domain's ends are values of the list, and every value lies inside it |
| FilterRules.RangeActiveIffMoved | tungsten_ui/static/tungsten_ui/js/components.js:721 | a range filter applies exactly when its min or max differs from the configured domain |
| FilterRules.TextPassesAt | tungsten_ui/static/tungsten_ui/js/components.js:699-701 | an active text query passes an item whose text holds the query, compared case-insensitively at some offset |
| FilterRules.QueryIsNotTrimmed | tungsten_ui/static/tungsten_ui/js/components.js:699-701 | the query is trimmed only to decide whether it is active: " a" is active and does not match "ab" |
| FilterRules.CountTrue | tungsten_ui/static/tungsten_ui/js/components.js:733 | the visible count is at most the number of rows, and equals it exactly when every row is shown |
| FilterRules.ClearDropdowns | tungsten_ui/static/tungsten_ui/js/components.js:745-749 | clearing the dropdown widgets one by one empties exactly their selections and keeps every other one |
| FilterRules.ResetRanges | tungsten_ui/static/tungsten_ui/js/components.js:751-755 | resetting the range widgets one by one puts each one configured as a range back at its domain, leaves one configured as a dropdown without active bounds, and keeps the others |
| FilterRules.CollectSpec | tungsten_ui/static/tungsten_ui/js/components.js:325-333 | collecting over values yields exactly what some value contributes |
| TableFilters.CellFilterValueSpec | tungsten_ui/static/tungsten_ui/js/components.js:375-394 | a non-empty `data-filter-<id>` is taken as it is; otherwise the trimmed badge text wins, then the trimmed mono/code text with exactly its characters other than `$ , €` kept in order, then the trimmed cell text |
| TableFilters.PlainMonoTextKept | tungsten_ui/static/tungsten_ui/js/components.js:387-391 | mono text without currency characters is read back as its trimmed text |
| TableFilters.ColumnValuesSpec | tungsten_ui/static/tungsten_ui/js/components.js:325-332 | a column's values are exactly the filter values of the rows that have the column's cell |
| TableFilters.CollectColumnSpec | tungsten_ui/static/tungsten_ui/js/components.js:325-332 | gathering over a column yields exactly what its cells' values yield |
| TableFilters.DropdownOptionsSpec | tungsten_ui/static/tungsten_ui/js/components.js:323-339 | the options are strictly sorted, and an option is offered exactly when some row's cell has a non-blank value that trims to it |
| TableFilters.RangeDomainSpec | tungsten_ui/static/tungsten_ui/js/components.js:344-370 | the domain spans the parsed cell values of the column when any parse, with both ends taken from them; otherwise it is 0..100 |
| TableFilters.ValueOfNumber | tungsten_ui/static/tungsten_ui/js/components.js:348-357 | every number in the domain computation comes from a cell of the column |
| TableFilters.DetectHeaderAt | tungsten_ui/static/tungsten_ui/js/components.js:316-371 | a header that declares an id of type dropdown or range sets that id's configuration to its column and kind; any other header changes nothing |
| TableFilters.DetectConfiguresDeclaredIds | tungsten_ui/static/tungsten_ui/js/components.js:316-371 | an id is configured exactly when some header declares it |
| TableFilters.DetectUsesLastHeader | tungsten_ui/static/tungsten_ui/js/components.js:316-371 | when headers repeat an id, the configuration comes from the last of them, with that header's column and kind |
| TableFilters.AddingDropdownKeepsAtRest | tungsten_ui/static/tungsten_ui/js/components.js:335-341 | configuring a dropdown with an empty selection keeps detection at rest: no selection, and every id configured as a range holds its domain; bounds an earlier header left under that id stay |
| TableFilters.AddingRangeKeepsAtRest | tungsten_ui/static/tungsten_ui/js/components.js:360-370 | configuring a range whose bounds equal its domain keeps detection at rest: no selection, and every id configured as a range holds its domain |
| TableFilters.DetectStartsAtRest | tungsten_ui/static/tungsten_ui/js/components.js:316-371 | right after detection no dropdown has a selection and every id configured as a range holds its domain; bounds under an id a later dropdown header took over are not covered |
| TableFilters.DistinctDetectionKeepsRangesRanges | tungsten_ui/static/tungsten_ui/js/components.js:316-371 | when no id is declared by two headers, every id holding range bounds after detection is configured as a range |
| TableFilters.DistinctDetectionStartsAtRest | tungsten_ui/static/tungsten_ui/js/components.js:316-371 | when no id is declared by two headers, right after detection no filter is active |
| TableFilters.DuplicateIdLeavesActiveRange | tungsten_ui/static/tungsten_ui/js/components.js:335-370 | a range header and then a dropdown header for the same id leave the range bounds behind; the range test (line 720) counts them as active, so a row outside them is hidden with no filter touched |
| TableFilters.AtRestShowsEveryRow | tungsten_ui/static/tungsten_ui/js/components.js:695-730 | with no active filter, every row is visible |
| TableFilters.MissingCellPasses | tungsten_ui/static/tungsten_ui/js/components.js:709-728 | fail-open: a row without the filtered cell passes that filter, and a value that does not parse passes the range |
| TableFilters.RelaxingNeverHides | tungsten_ui/static/tungsten_ui/js/components.js:705-730 | clearing a dropdown, or putting a range back at its domain, never hides a row that was shown |
| TableFilters.OfferedOptionKeepsItsRow | tungsten_ui/static/tungsten_ui/js/components.js:323-339 | with the corrected comparison, each offered option is produced by its row, and selecting it keeps that row |
| TableFilters.PriceCellValue | tungsten_ui/static/tungsten_ui/js/components.js:387-391 | mono text "12 €" has the filter value "12 ", keeping the space before the removed sign |
| TableFilters.PriceOptions | tungsten_ui/static/tungsten_ui/js/components.js:323-339 | a column holding only that cell offers the single option "12" |
| TableFilters.OfferedOptionHidesItsRowAsWritten | tungsten_ui/static/tungsten_ui/js/components.js:709-714 | as written, selecting the offered option "12" hides the row it came from, because "12 " is compared untrimmed |
| TableFilters.ResetShowsEveryRow | tungsten_ui/static/tungsten_ui/js/components.js:739-759 | after `resetAllFilters` no filter is active and every row is visible, given that every filter without a widget is inactive (OffWidgetAtRest: an empty selection, or bounds at a range configuration's domain), which detection guarantees when no id is declared twice (DistinctDetectionStartsAtRest) |
| TableFilters.TableFilter.constructor | tungsten_ui/static/tungsten_ui/js/components.js:284-373 | the configuration and initial filter state are those of detection over the header row, and every row is shown |
| TableFilters.TableFilter.Display | tungsten_ui/static/tungsten_ui/js/components.js:695-733 | each row is displayed as the test says, and the count is the number of rows displayed |
| TableFilters.TableFilter.ApplyAllFilters | tungsten_ui/static/tungsten_ui/js/components.js:689-737 | exactly the rows that pass every active filter are shown, and the count returned is the number shown; the dropdown test is the corrected, trimmed one (see Findings) |
| TableFilters.TableFilter.SetText | tungsten_ui/static/tungsten_ui/js/components.js:402-415 | the text filter becomes the input, nothing else in the filter state changes, and the display is re-applied |
| TableFilters.TableFilter.UpdateDropdownFilter | tungsten_ui/static/tungsten_ui/js/components.js:579-613 | the widget's checked values become its selection, nothing else changes, and the display is re-applied |
| TableFilters.TableFilter.OnSliderChange | tungsten_ui/static/tungsten_ui/js/components.js:526-531 | the slider's `rangechange` sets that range's bounds and re-applies the display |
| TableFilters.TableFilter.OnRangeInput | tungsten_ui/static/tungsten_ui/js/components.js:541-555 | each typed bound is its parsed value, or the domain end when missing or zero, and the display is re-applied |
| TableFilters.TableFilter.ResetRangeFilter | tungsten_ui/static/tungsten_ui/js/components.js:666-687 | a range goes back to its domain; an id configured as a dropdown gets undefined bounds, which never filter, so its entry is dropped; nothing else changes, and the display is re-applied |
| TableFilters.TableFilter.ResetAllFilters | tungsten_ui/static/tungsten_ui/js/components.js:739-759 | the filter state becomes the reset state (see ResetShowsEveryRow), and the display is re-applied |
| GenericFilters.FilterIds | tungsten_ui/static/tungsten_ui/js/components.js:797-808 | an id is detected exactly when some item has the attribute `data-<prefix><id>` |
| GenericFilters.AttrValuesSpec | tungsten_ui/static/tungsten_ui/js/components.js:815-817 | an id's values are exactly the non-blank values of its attribute across the items |
| GenericFilters.KindOfSpec | tungsten_ui/static/tungsten_ui/js/components.js:820-847 | an id is a range exactly when it has values and all parse, with the domain spanning the parsed values; otherwise its dropdown options are the sorted distinct values |
| GenericFilters.ConfigsAdding | tungsten_ui/static/tungsten_ui/js/components.js:811-848 | configuring one more id adds its configuration and keeps the others |
| GenericFilters.InitialStateAdding | tungsten_ui/static/tungsten_ui/js/components.js:835-846 | a new dropdown starts with an empty selection, and a new range starts with bounds at its domain |
| GenericFilters.AtRestShowsEveryItem | tungsten_ui/static/tungsten_ui/js/components.js:1147-1191 | with no active filter, every item is visible |
| GenericFilters.DetectionStartsAtRest | tungsten_ui/static/tungsten_ui/js/components.js:793-849 | right after detection no filter is active |
| GenericFilters.MissingValueFailsDropdown | tungsten_ui/static/tungsten_ui/js/components.js:1163-1172 | fail-closed: under an active dropdown, an item whose attribute is missing or empty is hidden |
| GenericFilters.UnparsedValueFailsRange | tungsten_ui/static/tungsten_ui/js/components.js:1175-1186 | fail-closed: under an active range, an item whose value is missing or does not parse is hidden |
| GenericFilters.OfferedOptionKeepsItsItem | tungsten_ui/static/tungsten_ui/js/components.js:836-847 | every value of a dropdown id is offered, and selecting it keeps the item that carries it |
| GenericFilters.RangeDomainSpansValues | tungsten_ui/static/tungsten_ui/js/components.js:820-835 | a range's domain contains every item's value, and both of its ends are values of some item |
| GenericFilters.CollectAllParse | tungsten_ui/static/tungsten_ui/js/components.js:820-821 | the collected values are non-empty and all parse exactly when some element contributes a value and every contributed value parses |
| GenericFilters.RangeIffAllParse | tungsten_ui/static/tungsten_ui/js/components.js:815-823 | an id is a range exactly when some item carries a non-blank value for it and every such value parses |
| GenericFilters.ResetShowsEveryItem | tungsten_ui/static/tungsten_ui/js/components.js:1193-1218 | after `resetAllFilters` no filter is active and every item is visible, given that every filter without a widget is inactive (OffWidgetAtRest: an empty selection, or bounds at a range configuration's domain), which detection always guarantees (DetectionStartsAtRest) |
| GenericFilters.GenericFilter.constructor | tungsten_ui/static/tungsten_ui/js/components.js:764-849 | the prefix defaults to `filter-`, every detected id is configured, dropdowns start empty, ranges start at their domains, and every item is shown |
| GenericFilters.GenericFilter.Display | tungsten_ui/static/tungsten_ui/js/components.js:1152-1188 | each item is displayed as the test says, and the count is the number displayed |
| GenericFilters.GenericFilter.ApplyAllFilters | tungsten_ui/static/tungsten_ui/js/components.js:1147-1191 | exactly the items that pass every active filter are shown, and the count returned is the number shown |
| GenericFilters.GenericFilter.SetText | tungsten_ui/static/tungsten_ui/js/components.js:864-877 | the text filter becomes the input, nothing else in the filter state changes, and the display is re-applied |
| GenericFilters.GenericFilter.UpdateDropdownFilter | tungsten_ui/static/tungsten_ui/js/components.js:1041-1073 | the widget's checked values become its selection, nothing else changes, and the display is re-applied |
| GenericFilters.GenericFilter.OnSliderChange | tungsten_ui/static/tungsten_ui/js/components.js:988-993 | the slider's `rangechange` sets that range's bounds and re-applies the display |
| GenericFilters.GenericFilter.OnRangeInput | tungsten_ui/static/tungsten_ui/js/components.js:1003-1017 | each typed bound is its parsed value, or the domain end when missing or zero, and the display is re-applied |
| GenericFilters.GenericFilter.ResetRangeFilter | tungsten_ui/static/tungsten_ui/js/components.js:1124-1145 | a range goes back to its domain; an id configured as a dropdown gets undefined bounds, which never filter, so its entry is dropped; nothing else changes, and the display is re-applied |
| GenericFilters.GenericFilter.ResetAllFilters | tungsten_ui/static/tungsten_ui/js/components.js:1193-1218 | the filter state becomes the reset state (see ResetShowsEveryItem), and the display is re-applied |
| RangeSliders.Round | tungsten_ui/static/tungsten_ui/js/components.js:1411 | `Math.round` gives the integer within half of the value, rounding halves up |
| RangeSliders.Snap | tungsten_ui/static/tungsten_ui/js/components.js:1429 | `Math.round(v / step) * step` is a multiple of the step, within half a step of the value |
| RangeSliders.SnapIsNearest | tungsten_ui/static/tungsten_ui/js/components.js:1411 | the multiple of the step chosen by rounding is within half a step of the value |
| RangeSliders.DragTarget | tungsten_ui/static/tungsten_ui/js/components.js:1409-1411 | the dragged-to value lies within the slider's bounds, and is a bound or a multiple of the step |
| RangeSliders.DragMinValue | tungsten_ui/static/tungsten_ui/js/components.js:1414 | the min handle never goes below `min`; when `min <= valueMax - step` it never goes above `valueMax - step`, equals the snapped pointer value when that lies in [`min`, `valueMax - step`], and stops at `valueMax - step` when the pointer is beyond it |
| RangeSliders.DragMaxValue | tungsten_ui/static/tungsten_ui/js/components.js:1416 | the max handle never goes above `max`; when `valueMin + step <= max` it never goes below `valueMin + step`, equals the snapped pointer value when that lies in [`valueMin + step`, `max`], and stops at `valueMin + step` when the pointer is below it |
| RangeSliders.DragMinStopsOneStepShort | tungsten_ui/static/tungsten_ui/js/components.js:1414 | on 0..100 with step 5 and the max handle at 50, dragging the min handle past it stops it at 45 |
| RangeSliders.DragKeepsSeparation | tungsten_ui/static/tungsten_ui/js/components.js:1402-1420 | a drag keeps the handles ordered, inside the bounds, and at least one step apart |
| RangeSliders.DragTouchesOnlyCurrentHandle | tungsten_ui/static/tungsten_ui/js/components.js:1402-1420 | a drag changes only the dragged handle's value, and nothing when no drag is in progress |
| RangeSliders.ArrowKeysKeepOrder | tungsten_ui/static/tungsten_ui/js/components.js:1477-1483 | arrow keys keep an ordered slider ordered: the moved handle is clamped to the bounds and to the other handle, so the handles may meet but never cross |
| RangeSliders.HomeOnMaxHandleCanCrossHandles | tungsten_ui/static/tungsten_ui/js/components.js:1457-1463 | Home on the max handle sets it to `min` with no cross-check, leaving `valueMax` below `valueMin` |
| RangeSliders.TrackClickMovesClosestHandle | tungsten_ui/static/tungsten_ui/js/components.js:1431-1439 | a click moves the min handle exactly when it is strictly closer to the target, otherwise the max handle, and never past the other handle |
| RangeSliders.TrackClickIsNotClamped | tungsten_ui/static/tungsten_ui/js/components.js:1427-1438 | a click past the end of the track puts the max handle beyond `max` |
| RangeSliders.SetRangeDoesNotReorder | tungsten_ui/static/tungsten_ui/js/components.js:1538-1539 | `setRange(80, 20)` clamps each value but leaves them crossed |
| RangeSliders.SetRangeClamps | tungsten_ui/static/tungsten_ui/js/components.js:1537-1547 | with well-formed bounds, `setRange` puts each value inside them, and keeps a value that already was inside |
| RangeSliders.ResetToDomain | tungsten_ui/static/tungsten_ui/js/components.js:1549-1555 | `setMinMax` then `setRange` with the same bounds puts both handles at the ends of the new domain |
| RangeSliders.RangeSlider.constructor | tungsten_ui/static/tungsten_ui/js/components.js:1333-1354 | each attribute is parsed, with 0, 100, 1, `min` and `max` as the `\|\|` defaults; no drag is in progress and no event has been emitted |
| RangeSliders.RangeSlider.TriggerChange | tungsten_ui/static/tungsten_ui/js/components.js:1526-1534 | emits one `rangechange` carrying the current values |
| RangeSliders.RangeSlider.StartDrag | tungsten_ui/static/tungsten_ui/js/components.js:1384-1389 | the drag starts on the given handle, and nothing is emitted |
| RangeSliders.RangeSlider.StopDrag | tungsten_ui/static/tungsten_ui/js/components.js:1391-1400 | the drag ends, and one event is emitted exactly when a drag was in progress |
| RangeSliders.RangeSlider.OnDrag | tungsten_ui/static/tungsten_ui/js/components.js:1402-1420 | the state becomes the drag transition of the old state, and nothing is emitted |
| RangeSliders.RangeSlider.OnTrackClick | tungsten_ui/static/tungsten_ui/js/components.js:1422-1443 | the state becomes the click transition, and one event is emitted unless a drag is in progress or a handle was clicked |
| RangeSliders.RangeSlider.HandleKeydown | tungsten_ui/static/tungsten_ui/js/components.js:1445-1487 | the state becomes the key transition, and an event is emitted for arrows, Home and End only |
| RangeSliders.RangeSlider.SetRange | tungsten_ui/static/tungsten_ui/js/components.js:1537-1547 | each value is clamped into the bounds on its own, and one event is always emitted |
| RangeSliders.RangeSlider.SetMinMax | tungsten_ui/static/tungsten_ui/js/components.js:1549-1555 | the bounds are replaced, both values are re-clamped, and nothing is emitted |
| TableSorts.DirectionToggles | tungsten_ui/static/tungsten_ui/js/components.js:135-136 | a header not currently `asc` sorts ascending, and a second click reverses the direction |
| TableSorts.Resorted | tungsten_ui/static/tungsten_ui/js/components.js:139-151 | after a click only the clicked header keeps `data-sorted`, holding the toggled direction |
| TableSorts.CellSortValue | tungsten_ui/static/tungsten_ui/js/components.js:209-238 | a non-empty `data-sort-value` is taken as it is; otherwise the trimmed text of the first of the `code` element, the mono or large span and the badge that exists, else the trimmed visible text |
| TableSorts.DescIsReversedAsc | tungsten_ui/static/tungsten_ui/js/components.js:189-201 | descending comparison is ascending comparison with the operands swapped |
| TableSorts.NumbersCompareByValue | tungsten_ui/static/tungsten_ui/js/components.js:186-190 | when both values parse after removing `$` and `,`, ascending puts the smaller number first and descending the larger |
| TableSorts.CompareAntisymmetric | tungsten_ui/static/tungsten_ui/js/components.js:185-201 | the comparator is antisymmetric whenever `localeCompare` is |
| TableSorts.RowCompareAntisymmetric | tungsten_ui/static/tungsten_ui/js/components.js:169-202 | the row comparator is antisymmetric whenever `localeCompare` is |
| TableSorts.InsertByContents | tungsten_ui/static/tungsten_ui/js/components.js:169 | one insertion step adds exactly the new row |
| TableSorts.InsertBySorted | tungsten_ui/static/tungsten_ui/js/components.js:169 | one insertion step keeps the rows ordered under an antisymmetric comparator |
| TableSorts.SortByPermutes | tungsten_ui/static/tungsten_ui/js/components.js:169-206 | the sorted rows are a permutation of the original rows, whatever the comparator |
| TableSorts.SortBySorted | tungsten_ui/static/tungsten_ui/js/components.js:169-206 | with an antisymmetric comparator every adjacent pair of the sorted rows is in order |
| TableSorts.NumericColumnAscends | tungsten_ui/static/tungsten_ui/js/components.js:169-206 | a column whose values are all numbers comes out in ascending numeric order after an ascending sort |
| TableSorts.SortableTable.constructor | tungsten_ui/static/tungsten_ui/js/components.js:126-132 | a table starts with no header sorted |
| TableSorts.SortableTable.SortTable | tungsten_ui/static/tungsten_ui/js/components.js:126-206 | returns the toggled direction, only the clicked header keeps `data-sorted`, the icons follow, and the rows become the sorted permutation; when a row lacks the cell, the rows keep their order |
| Comboboxes.HiddenFor | tungsten_ui/static/tungsten_ui/js/components.js:1663-1675 | filtering gives one hidden flag per option |
| Comboboxes.ShownIffMatches | tungsten_ui/static/tungsten_ui/js/components.js:1601-1603 | after typing, an option is shown exactly when its lower-cased text contains the lower-cased input; an empty input shows every option |
| Comboboxes.VisibleIndices | tungsten_ui/static/tungsten_ui/js/components.js:1719 | the shown options are listed exactly once each, in list order |
| Comboboxes.NoneVisibleIffAllHidden | tungsten_ui/static/tungsten_ui/js/components.js:1678-1679 | no option is shown exactly when every option is hidden |
| Comboboxes.Cursor | tungsten_ui/static/tungsten_ui/js/components.js:1619-1631 | ArrowDown and ArrowUp keep the cursor within -1 and the last shown entry, moving it by one where they can; other keys leave it |
| Comboboxes.CursorRoundTrip | tungsten_ui/static/tungsten_ui/js/components.js:1619-1631 | ArrowUp undoes an ArrowDown that moved, and ArrowDown undoes an ArrowUp from a highlighted entry |
| Comboboxes.CursorSaturates | tungsten_ui/static/tungsten_ui/js/components.js:1621 | ArrowDown stops at the last shown entry, and stays at -1 when nothing is shown |
| Comboboxes.KeyTargetsAsWritten | tungsten_ui/static/tungsten_ui/js/components.js:1616 | as written, the keyboard walks the shown options in order, followed by the placeholder when it is there |
| Comboboxes.KeyTargets | tungsten_ui/static/tungsten_ui/js/components.js:1719 | corrected, the keyboard walks exactly the shown options, in order |
| Comboboxes.SelectionOf | tungsten_ui/static/tungsten_ui/js/components.js:1703-1716 | choosing an option emits its value and text; choosing the placeholder emits neither |
| Comboboxes.PlaceholderAfterFilterAsWritten | tungsten_ui/static/tungsten_ui/js/components.js:1677-1689 | as written, the placeholder is added only when no option is shown |
| Comboboxes.PlaceholderAfterFilter | tungsten_ui/static/tungsten_ui/js/components.js:1677-1689 | corrected, the placeholder is there exactly when every option is hidden |
| Comboboxes.NothingMatchesX | tungsten_ui/static/tungsten_ui/js/components.js:1663-1675 | with the one option "a", the queries "x" and "xy" both hide it |
| Comboboxes.PlaceholderFlickersAsWritten | tungsten_ui/static/tungsten_ui/js/components.js:1677-1689 | as written, typing "x" then "xy" against option "a" shows the placeholder and then removes it, though nothing matches either time |
| Comboboxes.EnterSelectsPlaceholderAsWritten | tungsten_ui/static/tungsten_ui/js/components.js:1616-1637 | as written, after "x" matches nothing, ArrowDown then Enter chooses the placeholder and emits no value; the corrected list keeps the cursor at -1 |
| Comboboxes.KeyTargetsAreShownOptions | tungsten_ui/static/tungsten_ui/js/components.js:1718-1730 | every entry the corrected keyboard list reaches is a shown option |
| Comboboxes.Combobox.constructor | tungsten_ui/static/tungsten_ui/js/components.js:1567-1591 | all options shown, no placeholder, closed, cursor at -1, and no event emitted |
| Comboboxes.Combobox.Focus | tungsten_ui/static/tungsten_ui/js/components.js:1595-1598 | shows every option, removes the placeholder, and opens the list |
| Comboboxes.Combobox.Input | tungsten_ui/static/tungsten_ui/js/components.js:1601-1610 | filters by the lower-cased input and resets the cursor to -1; an empty query clears the hidden input |
| Comboboxes.Combobox.Close | tungsten_ui/static/tungsten_ui/js/components.js:1746-1751 | closes the list and resets the cursor to -1 |
| Comboboxes.Combobox.Select | tungsten_ui/static/tungsten_ui/js/components.js:1703-1716 | fills both inputs from the option, closes the list, and emits one change event |
| Comboboxes.Combobox.KeyDown | tungsten_ui/static/tungsten_ui/js/components.js:1613-1645 | keys are ignored while closed, and so are other keys while open; arrows move the cursor over the shown options; Enter with the cursor at least 0 fills both inputs from the option under it, closes the list and emits one change, and does nothing otherwise; Escape closes and keeps both inputs |
| Comboboxes.Combobox.ClickOption | tungsten_ui/static/tungsten_ui/js/components.js:1648-1653 | a click on a shown option fills both inputs from it, closes the list and emits one change; a click on a hidden one changes nothing |
| Comboboxes.Combobox.ClickOutside | tungsten_ui/static/tungsten_ui/js/components.js:1656-1660 | closes the list, clears the cursor, and keeps the options, placeholder, inputs and events |
| Comboboxes.AllShown | tungsten_ui/static/tungsten_ui/js/components.js:1692-1701 | with nothing hidden, the shown options are all options, in order |
| Widgets.KindOrInfo | tungsten_ui/static/tungsten_ui/js/components.js:64 | a missing or empty type becomes "info" |
| Widgets.WithoutSpec | tungsten_ui/static/tungsten_ui/js/components.js:68-69 | removal keeps exactly the notifications with another id |
| Widgets.RemoveUndoesAdd | tungsten_ui/static/tungsten_ui/js/components.js:61-69 | removing a notification whose id nobody else holds undoes adding it |
| Widgets.WithoutUnmatched | tungsten_ui/static/tungsten_ui/js/components.js:68-69 | removing an id that no notification holds changes nothing |
| Widgets.Toaster.constructor | tungsten_ui/static/tungsten_ui/js/components.js:59-60 | the store starts empty |
| Widgets.Toaster.Add | tungsten_ui/static/tungsten_ui/js/components.js:61-66 | appends one notification with the given id, its type defaulted to "info", and its content |
| Widgets.Toaster.Remove | tungsten_ui/static/tungsten_ui/js/components.js:68-69 | drops every notification with that id |
| Widgets.HiddenAfterScroll | tungsten_ui/static/tungsten_ui/js/components.js:103-118 | a move of at most 5 pixels keeps the state; a larger move down that ends below the first 200 pixels hides the navbar; a larger move up, or one that ends within the first 200 pixels, shows it |
| Widgets.HiddenChangesOnlyOnLargeMoves | tungsten_ui/static/tungsten_ui/js/components.js:110-118 | the hidden flag changes exactly on a move of more than 5 pixels: down and past 200 pixels to hide, up or into the first 200 pixels to show |
| Widgets.SlowScrollKeepsHidden | tungsten_ui/static/tungsten_ui/js/components.js:110 | scrolling in steps of at most 5 pixels never shows a hidden navbar, even at the top |
| Widgets.SmartNavbar.constructor | tungsten_ui/static/tungsten_ui/js/components.js:81-95 | the initial flags follow the current scroll position (past 50 and past 200), and transitions start disabled |
| Widgets.SmartNavbar.EnableTransitions | tungsten_ui/static/tungsten_ui/js/components.js:89-91 | the delayed callback enables transitions |
| Widgets.SmartNavbar.HandleScroll | tungsten_ui/static/tungsten_ui/js/components.js:101-121 | the background follows the 50-pixel threshold, the hidden flag follows the scroll rule, and the last position is updated |
| Widgets.TabNameSpec | tungsten_ui/static/tungsten_ui/js/components.js:1262-1264 | the tab name is the longest hyphen-free suffix of the radio input's id |
| Widgets.TabNameOfId | tungsten_ui/static/tungsten_ui/js/components.js:1261-1264 | for an id `tab-<group>-<tab>`, the tab is recovered exactly when it has no hyphen |
| Widgets.TabNameSuffix | tungsten_ui/static/tungsten_ui/js/components.js:1262-1264 | a hyphen-free suffix right after a hyphen is the tab name |
| Widgets.FirstWithTab | tungsten_ui/static/tungsten_ui/js/components.js:1267 | finds the first panel whose `data-tab` is the name, or none when no panel has it |
| Widgets.TabGroup.constructor | tungsten_ui/static/tungsten_ui/js/components.js:1255-1258 | one display flag per panel, none displayed |
| Widgets.TabGroup.ShowTabContent | tungsten_ui/static/tungsten_ui/js/components.js:1253-1270 | exactly the first panel named by the input's tab name is displayed, or none when no panel has that name |
| Htmx.Put | tungsten_ui/utils.py:128 | setting a key leaves a non-empty dict |
| Htmx.PutLookup | tungsten_ui/utils.py:128 | after `d[k] = v`, `k` maps to `v` and every other key keeps its value |
| Htmx.PutKeys | tungsten_ui/utils.py:128 | setting a key keeps the existing keys in order and adds a new key last |
| Htmx.Merge | tungsten_ui/utils.py:114 | `update` leaves an empty dict exactly when both are empty |
| Htmx.MergeLookup | tungsten_ui/utils.py:114 | after `d.update(e)`, a key holds the value `e` gives it last, or else its value in `d` |
| Htmx.MakeTrigger | tungsten_ui/utils.py:192-200 | a single name becomes a one-element list, and a list is kept as given |
| Htmx.ToastOf | tungsten_ui/utils.py:228-249 | each toast subclass fixes its variant: success, error, warning or info |
| Htmx.ToastPayloadFields | tungsten_ui/utils.py:218-225 | the toast payload holds the content and the variant as `type`, unless an extra keyword overrides either; every other extra key is carried as given |
| Htmx.ModalClosePayload | tungsten_ui/utils.py:263-267 | the modal-close payload names the modal, and has `resetForm` exactly when it was asked for |
| Htmx.MergedDataLookup | tungsten_ui/utils.py:109-114 | the merged trigger data gives each key the value of the last action that carries it |
| Htmx.TwoToastsKeepLast | tungsten_ui/utils.py:109-114 | two toasts in one response leave only the second in the header |
| Htmx.WithRawLookup | tungsten_ui/utils.py:124-128 | a raw name gets an empty payload unless the data already has it as a key, and the data keys keep their values |
| Htmx.MergedDataEmpty | tungsten_ui/utils.py:109-114 | the merged data is empty exactly when no action has trigger data |
| Htmx.AllRawEmpty | tungsten_ui/utils.py:116-119 | there is no raw name exactly when no action has raw triggers |
| Htmx.HeaderIffTriggers | tungsten_ui/utils.py:104-132 | an `HX-Trigger` header is set exactly when some action yields trigger data or raw triggers |
| Htmx.AppendKeeps | tungsten_ui/utils.py:89-102 | appending an action keeps every earlier trigger, and the first content stays first |
| Htmx.FirstContentAppend | tungsten_ui/utils.py:96-102 | the first content of the longer list is the earlier first content, or else the new action's |
| Htmx.HeaderMonotone | tungsten_ui/utils.py:104-132 | once a header is set, adding an action never unsets it |
| Htmx.InitConsistent | tungsten_ui/utils.py:70-87 | a new response is consistent: its header is its actions' header, the swap is off exactly when there is no content, and a 204 carries neither content nor trigger |
| Htmx.AddPreservesConsistent | tungsten_ui/utils.py:134-144 | the corrected `add` keeps a response consistent, and added content replaces the body (last wins) |
| Htmx.AddKeepsReswapNoneAsWritten | tungsten_ui/utils.py:134-144 | as written, adding content to a response without content keeps `HX-Reswap: none`, so the new body is not swapped in |
| Htmx.AddTriggerKeeps204AsWritten | tungsten_ui/utils.py:134-144 | as written, adding a trigger to an empty 204 response keeps the 204, which the constructor would have upgraded |
| Htmx.FirstVersusLastContent | tungsten_ui/utils.py:96-102 | the constructor keeps the first content, while `add` keeps the last |
| Htmx.EmptyContentSwaps | tungsten_ui/utils.py:76-87 | an empty content still counts as content: status 200, an empty body, and the swap left on |
| Htmx.RawOnlyHeader | tungsten_ui/utils.py:130-132 | with only raw triggers, the header is the names joined by ", ", duplicates kept |
| Htmx.PlusConcatenates | tungsten_ui/utils.py:24-36 | `+` concatenates the action lists in order, keeps a left response's status, and raises `TypeError` exactly when an operand is neither an action nor a response |
| Htmx.PlusAssociatesActions | tungsten_ui/utils.py:146-152 | grouping does not change the actions a chain of `+` collects |
| Htmx.CollectContent | tungsten_ui/utils.py:96-102 | returns the first content in action order, or none |
| Htmx.ComputeHasTriggers | tungsten_ui/utils.py:89-94 | returns whether some action yields trigger data or raw triggers |
| Htmx.MergeTriggerData | tungsten_ui/utils.py:109-114 | returns the trigger data of all actions, merged in order |
| Htmx.CollectRawTriggers | tungsten_ui/utils.py:116-119 | returns all raw names in order, duplicates kept |
| Htmx.AddRawTriggers | tungsten_ui/utils.py:124-128 | returns the data with each raw name not yet a key added with an empty payload |
| Htmx.HtmxResponse.constructor | tungsten_ui/utils.py:70-87 | the status becomes 200 from 204 when there is content or a trigger; the body is the first content or ""; the header is the actions' header; the swap is off exactly when there is no content |
| Htmx.HtmxResponse.UpdateTriggerHeader | tungsten_ui/utils.py:104-132 | sets the header computed from the actions, and leaves it unchanged when they give none |
| Htmx.HtmxResponse.Add | tungsten_ui/utils.py:134-144 | appends the action and recomputes the header; content replaces the body and turns the swap back on; content or a trigger upgrades a 204 (corrected `add`) |
| LucideSvg.CreateSvg | scripts/build-lucide.js:21-43 | the output is the opening tag with the default attributes, then one fragment per element in order, then `</svg>` |
| LucideSvg.DefaultAttributeString | scripts/build-lucide.js:8-27 | the default attributes render in declaration order as `key="value"`, separated by single spaces |
| LucideSvg.EmptyIcon | scripts/build-lucide.js:21-43 | an icon with no elements gives `<svg attrs>` followed by a newline, two spaces and `</svg>` |
| LucideSvg.BodyAppend | scripts/build-lucide.js:30-41 | the body of two element lists is the body of the first followed by the body of the second |
| LucideSvg.EmptyAttributeForms | scripts/build-lucide.js:31-40 | omitted or empty attributes render as `<tag />`, and a non-object value as `<tag/>` |
| LucideSvg.BodyRecoverable | scripts/build-lucide.js:43 | the body can be cut back out from between the fixed prefix and `</svg>` |
| LucideSvg.FragmentShape | scripts/build-lucide.js:31-40 | each fragment opens with `<` and the tag, and closes the element with `/>`, a newline and two spaces |

## Left out

- DOM plumbing. Class toggles, `innerHTML` option building, listener registration, focus and blur, `scrollIntoView`, the `setTimeout` re-initialisation and the global shortcuts are not modelled. Only the state the handlers change is.
- Pixel geometry. `getBoundingClientRect` is not modelled, and the drag or click position is an abstract fraction of the track. `updateSlider`, `updateAnimatedUnderline` and the styling of the displayed values are left out.
- Floating point. Numbers are exact reals, so IEEE rounding, `Infinity` and `NaN` arithmetic are not modelled. `parseFloat` is an abstract partial parse.
- Library calls. `localeCompare` is an abstract comparator, assumed antisymmetric where a lemma needs it. `Intl.NumberFormat` formatting is left out.
- Slider synchronisation inside the filter hosts. The filter hosts' calls to `setRange`/`setMinMax` and the `_isUpdatingFromSlider` guard are left out. The slider is modelled on its own in `RangeSliders`. The filter hosts receive its `rangechange` through `OnSliderChange`.
- `setupRangeSliderIntegration` (components.js:241-281) is DOM wiring around the same slider, so it is left out.
- TableFilters.TableFilter.ResetRangeFilter and GenericFilters.GenericFilter.ResetRangeFilter require the id to have a configuration. On an id without one the source throws a `TypeError`; that error path is not modelled.
- TableFilters.TableFilter.ResetAllFilters and GenericFilters.GenericFilter.ResetAllFilters require every range widget on the page to have a configuration, for the same reason.
- TableFilters.TableFilter.OnRangeInput and GenericFilters.GenericFilter.OnRangeInput require a range configuration. Typing into a range widget whose id is configured as a dropdown, where the source falls back to undefined bounds, is not modelled.
- TableSorts.SortableTable.SortTable: when a row lacks the clicked column's cell, the source throws inside the comparator, after the headers were updated. The model keeps the rows in their order in that case.
- TableSorts.SortBySorted does not state stability, and does not state that the comparator's order is total. The comparator mixes numeric and string comparison, so it is not transitive in general; only that each adjacent pair is in order is promised. For such an intransitive comparator the order `Array.prototype.sort` produces is implementation-defined; the model's insertion sort fixes one of the possible orders.
- JsText.ToLower lower-cases ASCII letters only. Unicode case mapping is not modelled.
- `Date.now()` in the toaster is not modelled: the id is passed in. Theme persistence in `localStorage` is left out.
- `render_to_string` and `json.dumps` are not modelled. A rendered template is content already rendered. The `HX-Trigger` header is kept as an ordered dictionary or a joined string rather than JSON text.
- The keyword arguments that `HtmxResponse` passes on to Django's `HttpResponse` are left out.
- Htmx.HtmxResponse: `actions or []` aliases the caller's list, which `add` then appends to. The model copies the list.
- `createSVG` turns attribute values into strings. The model takes the values as strings already.
- TableFilters.TableFilter runs the corrected dropdown test, which compares the trimmed cell value (see Findings). The source's untrimmed test is TableFilters.DropdownPassesAsWritten; a row that only the untrimmed test hides is shown by the model's class.
- Htmx.HtmxResponse.Add is the corrected `add` (see Findings): content turns the swap back on, and a trigger also upgrades a 204. The source's `add` does neither; its behaviour is stated by Htmx.AddKeepsReswapNoneAsWritten and Htmx.AddTriggerKeeps204AsWritten.
- Widgets.TabGroup.ShowTabContent looks only among the tab panels. The source's `querySelector('[data-tab=…]')` takes the first element of the group with that attribute, panel or not.
- Comboboxes.Combobox models the corrected keyboard list and placeholder rule (see Findings). The as-written versions are the separate functions named there. Comboboxes.Combobox.ClickOption covers clicks on options only, not on the placeholder.
- Comboboxes.Combobox: `scrollToSelected` and the positioning done by `openDropdown` are left out.
- The `HX-Reswap` header on the modelled response is a flag. Other response headers are not modelled.
- Other files of the repository are not part of this model: tg-confirm.js, htmx-handlers.js, lucide-loader.js, build-heroicons.js, the rest of build-lucide.js, components_tags.py and `__init__.py`.

## Findings

| source | as written | input that shows it | evidently intended | confidence | as-written member | corrected member |
|---|---|---|---|---|---|---|
| tungsten_ui/static/tungsten_ui/js/components.js:709-714 | the dropdown test compares the untrimmed cell value with options that were trimmed at detection (components.js:329-330) | a mono cell "12 €" has the value "12 " and offers the option "12"; selecting "12" hides that row | a row stays visible under an option its own cell produced | not executed | TableFilters.OfferedOptionHidesItsRowAsWritten | TableFilters.OfferedOptionKeepsItsRow |
| tungsten_ui/static/tungsten_ui/js/components.js:1616 | the keyboard walks `li:not(.hidden)`, which includes the "No results found" placeholder, while the highlight uses `:not(.no-results)` (line 1719) | option "a", type "x", then ArrowDown and Enter: the placeholder is chosen, setting the value to `undefined` | the keyboard walks the shown options only | not executed | Comboboxes.EnterSelectsPlaceholderAsWritten | Comboboxes.KeyTargetsAreShownOptions |
| tungsten_ui/static/tungsten_ui/js/components.js:1677-1689 | the count of shown entries includes an existing placeholder, so a second query that matches nothing removes it | option "a", type "x" and then "xy": the placeholder appears and then disappears | the placeholder is there exactly when no option matches | not executed | Comboboxes.PlaceholderFlickersAsWritten | Comboboxes.PlaceholderAfterFilter |
| tungsten_ui/utils.py:134-144 | `add` with content replaces the body but keeps the `HX-Reswap: none` set by the constructor (lines 84-87) | a toast-only response, then `add(Content("<tr></tr>"))`: the body is set, but HTMX is told not to swap it | content turns the swap back on | not executed | Htmx.AddKeepsReswapNoneAsWritten | Htmx.AddPreservesConsistent |
| tungsten_ui/utils.py:137-143 | `add` upgrades a 204 only for content, while the constructor also upgrades for triggers (lines 76-79) | an empty response, then `add(Trigger("refresh"))`: the status stays 204 with an `HX-Trigger` header | a trigger upgrades 204 to 200, as in the constructor | not executed | Htmx.AddTriggerKeeps204AsWritten | Htmx.HtmxResponse.Add |
