# Client-side logic of the expense dashboard, in Dafny

This project models the four pieces of client-side logic of the Next.js
expense dashboard whose behaviour can be stated exactly, and proves what they
promise:

- **`lib/format-utils.ts`** (module `FormatUtils`). The helpers are:
  - the money-field formatter `formatInputNumber`: cut at the first `.`, keep the digits, group them in threes from the right with spaces;
  - its inverse `parseInputNumber`: strip whitespace;
  - the date rearrangers `ymdToDmy` and `dmyToYmd`;
  - the live date mask `formatDateMask`.

  All are pure functions on strings.
- **`lib/error-utils.ts`** (module `ErrorUtils`). The validation-error normaliser `getErrorMessage` turns what the REST API returned as an error into one display string:
  - a falsy value gives a fixed text;
  - a string is returned as it is;
  - a truthy `detail` decides alone;
  - a field-to-messages map gives one translated, labelled line per message, joined by newlines.

  The two constant tables `fieldNames` and `errorMessages` are sequences of pairs in declaration order. The normaliser is stated for any pair of tables (`Tables`); `AppTables` is the dashboard's own pair. The decision chain is a function, `ErrorMessage`. The field-map branch, with its nested `forEach` and its table scan with `break`, is written as methods with loops (`CollectFieldLines`, `TranslateMessage`), and these are proved equal to that function.
- **`components/pagination.tsx`** (module `Pagination`). The `Pagination` component:
  - `getPageNumbers` builds the strip of page buttons and `...` markers with pushes inside loops. It is a method (`PageNumbers`, with the loop `PushRange`) proved equal to a specification function `PageList`.
  - `PageList` is in turn proved equal to an independent definition: the shown page numbers with a marker placed at every gap (`WithGaps(Shown(...))`).
  - The component's early exit and the previous/next disabling rules are `Render`.
- **`components/formatted-inputs.tsx`** (module `FormattedInputs`). The contents are:
  - the phone mask `formatPhone`;
  - what `MoneyInput` and `PhoneInput` show and report to their parent on an edit (`OnMoneyChange`, `OnPhoneChange`);
  - what they show for a new `value` prop (`MoneyDisplay`, `PhoneDisplay`).

  The React state is modelled as values: an edit returns the displayed text and the emitted value.

The module `Strings` writes the JavaScript string primitives these files use over `seq<char>`:
- `replace(/\D/g, "")` is `Digits`;
- `replace(/\s/g, "")` is `RemoveWhitespace`;
- `split` and `join` on one character are `Split` and `Join`;
- `includes` is `Contains`;
- `slice(0, n)` is `Take`.

`Chunks(s, sizes)` cuts a string into groups of the given sizes and is the reference shape for both masks. `Wrappers` holds `Option`.

## Model

| member | source | states |
|---|---|---|
| Strings.Digits | lib/format-utils.ts:48 | `replace(/\D/g, "")`: the result holds only digits and is no longer than the input |
| Strings.DigitsIdempotent | lib/format-utils.ts:48 | a string of digits is its own digit filter, so filtering twice is filtering once |
| Strings.DigitsAppend | lib/format-utils.ts:48 | the digit filter distributes over concatenation |
| Strings.RemoveWhitespace | lib/format-utils.ts:53 | `replace(/\s/g, "")`: no whitespace is left and the result is no longer than the input; a string without whitespace comes back unchanged and a string of whitespace only comes back empty. With `RemoveWhitespaceAppend`, applied character by character, this fixes the result for every input: each whitespace character is dropped and every other one is kept, in order |
| Strings.RemoveWhitespaceAppend | lib/format-utils.ts:53 | whitespace removal distributes over concatenation |
| Strings.RemoveWhitespaceOfDigits | lib/format-utils.ts:53 | a string of digits has no whitespace to remove |
| Strings.Split | lib/format-utils.ts:61 | `split` on one character: never empty, no part contains the separator, and rejoining the parts gives the input back |
| Strings.SplitJoin | lib/format-utils.ts:61 | splitting a join of separator-free parts gives the parts back |
| Strings.SplitCount | lib/format-utils.ts:69-70 | the number of parts of a split is one more than the number of separators |
| Strings.Join | lib/error-utils.ts:82 | `join` on one character; a definition without contract: `SplitJoin` states that splitting undoes it and `JoinEmpty` when it comes out empty |
| Strings.JoinEmpty | lib/error-utils.ts:82 | a join that comes out empty had at most one part, so two or more lines never join to the empty string |
| Strings.ContainsAt | lib/error-utils.ts:65 | a key occurring at some position of the message is found by `includes` |
| Strings.ContainsWitness | lib/error-utils.ts:65 | conversely, when `includes` holds the key occurs at some position |
| Strings.Contains | lib/error-utils.ts:65 | `includes`; a definition without contract: `ContainsAt` and `ContainsWitness` state that it holds exactly when the key occurs at some position |
| Strings.Take | lib/format-utils.ts:77 | `slice(0, n)`: the first `min(n, length)` characters |
| Strings.Chunks | components/formatted-inputs.tsx:118-122 | cutting by sizes yields between one group and one more group than there are sizes |
| Strings.ChunksShape | components/formatted-inputs.tsx:118-122 | every group but the last has exactly its size; the last is within its size and non-empty unless it is the only one; the groups concatenate to the input |
| Strings.ChunksOfDigits | components/formatted-inputs.tsx:118-122 | the groups of a digit string are digit strings |
| Strings.DigitsOfJoin | components/formatted-inputs.tsx:118-122 | removing the non-digit separators of a join of digit groups gives their concatenation |
| FormatUtils.IntegerPart | lib/format-utils.ts:43-46 | the part before the first `.`: a prefix of the input without `.`, the whole input when there is no `.` |
| FormatUtils.FormatInputNumber | lib/format-utils.ts:40-41 | the empty input stays empty rather than becoming `0` |
| FormatUtils.ParseInputNumber | lib/format-utils.ts:52-54 | the result has no whitespace and is no longer than the input; an input without whitespace is returned unchanged and an input of whitespace only becomes empty, so with `RemoveWhitespaceAppend` whitespace is dropped and everything else kept in order |
| FormatUtils.GroupThousands | lib/format-utils.ts:49 | the grouping regular expression on a digit string; no contract of its own: `GroupThousandsShort`, `GroupThousandsAppend`, `GroupThousandsUngroups` and `GroupThousandsShape` state what it computes |
| FormatUtils.GroupThousandsShort | lib/format-utils.ts:49 | at most three digits are left without a space |
| FormatUtils.GroupThousandsAppend | lib/format-utils.ts:49 | grouping a string followed by a multiple of three digits puts one space at the boundary |
| FormatUtils.GroupThousandsUngroups | lib/format-utils.ts:49 | the grouping only inserts whitespace: removing it gives the digits back |
| FormatUtils.GroupThousandsShape | lib/format-utils.ts:49 | split at spaces, the first group has one to three digits, every later group exactly three, and the groups concatenate to the input |
| FormatUtils.FormatInputNumberRoundTrip | lib/format-utils.ts:40-54 | for a string of digits, parsing the formatted value gives it back |
| FormatUtils.FormatInputNumberDigits | lib/format-utils.ts:43-49 | parsing the formatted value gives the digits before the first `.`; the result is empty exactly when there are none |
| FormatUtils.FormatInputNumberIgnoresFraction | lib/format-utils.ts:43-46 | everything from the first `.` on has no effect |
| FormatUtils.FormatInputNumberShape | lib/format-utils.ts:48-49 | the output is digit groups of one to three and then exactly three, separated by single spaces, concatenating to the kept digits; up to three digits come back unchanged |
| FormatUtils.YmdToDmy | lib/format-utils.ts:59-60 | the empty input gives the empty string |
| FormatUtils.DmyToYmd | lib/format-utils.ts:67-68 | the empty input gives the empty string |
| FormatUtils.YmdToDmyWellFormed | lib/format-utils.ts:61-63 | with three non-empty dash-free leading parts, the result is `d.m.y` of those parts verbatim, and further parts are ignored |
| FormatUtils.YmdToDmyChangesIffWellFormed | lib/format-utils.ts:59-64 | the input comes back unchanged exactly when one of the first three `-` parts is missing or empty |
| FormatUtils.DmyToYmdWellFormed | lib/format-utils.ts:69-72 | three dot-free parts `d.m.y` become `y-m-d` |
| FormatUtils.DmyToYmdAcceptsTwoDots | lib/format-utils.ts:67-73 | the result is non-empty exactly when the input has exactly two dots, so exactly three parts |
| Strings.CountPositive | lib/format-utils.ts:69-70 | a character counted at least once occurs in the string |
| Strings.CountOccurs | lib/format-utils.ts:69-70 | a character that occurs is counted at least once |
| FormatUtils.YmdRoundTrip | lib/format-utils.ts:59-73 | for three non-empty dash- and dot-free parts, `dmyToYmd(ymdToDmy(y-m-d))` is `y-m-d` |
| FormatUtils.DmyRoundTrip | lib/format-utils.ts:59-73 | for three non-empty dash- and dot-free parts, `ymdToDmy(dmyToYmd(d.m.y))` is `d.m.y` |
| FormatUtils.MalformedFallbacksDiffer | lib/format-utils.ts:59-73 | a non-empty text without separators is echoed by `ymdToDmy` but mapped to the empty string by `dmyToYmd` |
| FormatUtils.FormatDateMask | lib/format-utils.ts:76-86 | at most ten characters; `.` at index 2 and 5 and nowhere else; digits everywhere else |
| FormatUtils.MaskDigits | lib/format-utils.ts:77 | the kept digits are at most eight digits |
| FormatUtils.FormatDateMaskDigits | lib/format-utils.ts:76-86 | with its dots removed, the mask is the first `min(8, #digits)` digits of the input |
| FormatUtils.FormatDateMaskChunks | lib/format-utils.ts:79-85 | the mask is the kept digits cut into groups of 2, 2 and the rest, joined by `.` |
| FormatUtils.FormatDateMaskIdempotent | lib/format-utils.ts:76-86 | masking a masked value changes nothing |
| ErrorUtils.Messages | lib/error-utils.ts:52 | a value that is not an array counts as one message |
| ErrorUtils.Stringify | lib/error-utils.ts:56 | a string message as it is, any other value as its JSON text; a definition without contract, used by `Line` and `TranslateMessage` |
| ErrorUtils.Truthy | lib/error-utils.ts:40 | JavaScript truthiness of a `detail` value: a non-empty string, a JSON value other than `null`, `false` and `0`, or an array; a definition without contract, used by `ErrorMessage` and stated about in `DetailShadowsFields` |
| ErrorUtils.Detail | lib/error-utils.ts:40-41 | `error.detail`: absent exactly when no entry has the key `detail`, and otherwise the value of an entry with that key |
| ErrorUtils.FirstIndex | lib/error-utils.ts:64-69 | the first index, in table order, whose key passes the test; none before it passes; none when no key passes |
| ErrorUtils.Lookup | lib/error-utils.ts:60-61 | `table[key]` is present exactly when some entry has that key, and then it is that entry's value |
| ErrorUtils.Label | lib/error-utils.ts:72 | the field label: either the key itself or the label stored under that key, and never empty for a non-empty key; `LabelOfEntry` and `LabelOfUnknownKey` state which of the two is chosen |
| ErrorUtils.LabelOfEntry | lib/error-utils.ts:72 | on a table with distinct keys, a key stored with a non-empty label is shown as that label |
| ErrorUtils.LabelOfUnknownKey | lib/error-utils.ts:72 | a key missing from the field table is shown as itself |
| ErrorUtils.Translate | lib/error-utils.ts:56-70 | the translation is the message itself or one of the table's translations; `ExactTranslation`, `FirstContainedKeyWins` and `UnknownMessageUnchanged` state which one is chosen, and `TranslateMessage` is proved equal to it |
| ErrorUtils.TranslateMessage | lib/error-utils.ts:56-70 | the exact lookup, then the scan stopping at the first contained key, computes `Translate` |
| ErrorUtils.EntryLines | lib/error-utils.ts:54-79 | one line per message of a key |
| ErrorUtils.Line | lib/error-utils.ts:72-78 | one pushed line; no contract of its own: `SingleMessageLine` states its two forms and `LineNoNewline` that it stays on one line |
| ErrorUtils.FieldLines | lib/error-utils.ts:48-80 | the lines collected from a field map; no contract of its own: `FieldLinesCount`, `FieldLinesNoNewline` and `LinesPerMessage` state its properties, and `CollectFieldLines` is proved equal to it |
| ErrorUtils.ErrorMessage | lib/error-utils.ts:34-83 | the normaliser never returns the empty string |
| ErrorUtils.CollectFieldLines | lib/error-utils.ts:48-80 | the nested loops push exactly `FieldLines`: entry by entry, message by message |
| ErrorUtils.GetErrorMessage | lib/error-utils.ts:34-83 | the step-by-step normaliser returns `ErrorMessage`: falsy gives the unknown-error text, a string itself, a truthy `detail` its translation or the generic text, a field map its joined lines or the generic text |
| ErrorUtils.FieldLinesCount | lib/error-utils.ts:50-54 | the field-map branch produces as many lines as there are messages |
| ErrorUtils.NoMessagesGivesGeneric | lib/error-utils.ts:82 | a field map without messages yields the generic error text |
| ErrorUtils.DetailShadowsFields | lib/error-utils.ts:40-44 | with a truthy `detail` the other entries are never consulted: the result is that of `{detail}` alone |
| ErrorUtils.SingleMessageLine | lib/error-utils.ts:72-78 | one message under an ordinary key, a falsy `detail` included, gives `label: message`; under `non_field_errors` the bare translation |
| ErrorUtils.TranslateNoNewline | lib/error-utils.ts:56-70 | with single-line tables, translation adds no line break |
| ErrorUtils.LineNoNewline | lib/error-utils.ts:72-78 | with single-line tables, key and message, the line has no line break |
| ErrorUtils.FieldLinesNoNewline | lib/error-utils.ts:50-80 | with single-line tables and payload, no collected line has a line break |
| ErrorUtils.LinesPerMessage | lib/error-utils.ts:50-82 | with single-line tables and payload and at least one message, the result splits at newlines into exactly one line per message |
| ErrorUtils.GenericErrorSingleLine | lib/error-utils.ts:82 | the generic text is a single line |
| ErrorUtils.ExactTranslation | lib/error-utils.ts:60-61 | an exact key takes its own translation even when an earlier key also occurs in it |
| ErrorUtils.UnknownMessageUnchanged | lib/error-utils.ts:62-70 | a message containing no key is left as it is |
| ErrorUtils.FirstContainedKeyWins | lib/error-utils.ts:64-69 | among the keys contained in a message, the first in table order wins |
| ErrorUtils.AppTablesWellFormed | lib/error-utils.ts:1-32 | both tables of the dashboard have distinct keys, so first-match lookup agrees with JavaScript's last-wins object literal, and every translation in the message table is non-empty |
| ErrorUtils.AppFieldKeysDistinct | lib/error-utils.ts:1-20 | the field-label table has distinct keys |
| ErrorUtils.AppTablesSingleLine | lib/error-utils.ts:1-32 | no label and no translation of the dashboard's tables holds a line break |
| ErrorUtils.AppMessagesSingleLine | lib/error-utils.ts:22-32 | no translation holds a line break |
| ErrorUtils.AppLabelsSingleLine | lib/error-utils.ts:1-20 | no field label holds a line break |
| Pagination.PushRange | components/pagination.tsx:34-36 | the `for` loop appends pages `lo..hi` in order |
| Pagination.PageNumbers | components/pagination.tsx:15-47 | `getPageNumbers` builds exactly `PageList` |
| Pagination.PageList | components/pagination.tsx:15-47 | the strip `getPageNumbers` returns; no contract of its own: `PageListIsWithGaps`, `PageListEnds`, `PageListProperties`, `FewPagesShowAll` and `MarkersAppearWhen` state its properties |
| Pagination.Controls | components/pagination.tsx:51-89 | the previous button, the strip and the next button; no contract of its own: `Render` states when each button is disabled and `NavigationStaysInRange` where the enabled ones lead |
| Pagination.Render | components/pagination.tsx:12-92 | nothing is rendered exactly when there is at most one page; otherwise the strip is `PageList`, previous is disabled exactly on page 1, next exactly on the last page |
| Pagination.WithGaps | components/pagination.tsx:24-43 | the reference strip has at least one entry per page and starts and ends with the first and last page |
| Pagination.NumbersOfWithGaps | components/pagination.tsx:24-43 | dropping the markers of the reference strip gives the page numbers back |
| Pagination.WithGapsMarksGaps | components/pagination.tsx:24-43 | for increasing pages, adjacent buttons differ by one and every marker stands between pages at least two apart |
| Pagination.WithGapsConsecutive | components/pagination.tsx:18-21 | a run of consecutive pages gets no marker |
| Pagination.PageListIsWithGaps | components/pagination.tsx:15-47 | for a current page in range, the strip is the shown pages with a marker at every gap |
| Pagination.ShownPages | components/pagination.tsx:24-43 | the shown pages are strictly increasing, within `1..total`, and include the current page |
| Pagination.PageListEnds | components/pagination.tsx:18-43 | from two pages on, the strip starts with page 1, ends with the last page and has at most seven entries |
| Pagination.PageListProperties | components/pagination.tsx:24-43 | its page numbers are the window `max(2, c-1)..min(t-1, c+1)` framed by 1 and the last page, increasing, within range, include the current page, and markers sit exactly at gaps |
| Pagination.FewPagesShowAll | components/pagination.tsx:18-21 | up to seven pages the strip is exactly pages `1..total`, with no marker |
| Pagination.MarkersAppearWhen | components/pagination.tsx:26-40 | a leading marker appears exactly when the current page is past 3, a trailing one exactly when it is before `total - 2` |
| Pagination.NavigationStaysInRange | components/pagination.tsx:51-89 | every enabled button asks for a page within `1..total`, and previous and next are never both disabled |
| Pagination.PageNumberListed | components/pagination.tsx:62-72 | every page button of a strip is among its page numbers |
| FormattedInputs.FormatPhone | components/formatted-inputs.tsx:115-123 | empty exactly when the input has no digit; otherwise starts with `+` |
| FormattedInputs.KeptDigits | components/formatted-inputs.tsx:116 | the digits kept are at most twelve digits |
| FormattedInputs.FormatPhoneShort | components/formatted-inputs.tsx:119-122 | from four to twelve digits, the mask is `+`, the first three, a space, and the rest cut at 2, 3, 2 joined by spaces |
| FormattedInputs.FormatPhoneLong | components/formatted-inputs.tsx:122 | beyond twelve digits the mask is that of the first twelve |
| FormattedInputs.FormatPhoneChunks | components/formatted-inputs.tsx:115-123 | the mask is `+` then the first twelve digits cut into 3, 2, 3, 2 and the rest, joined by single spaces |
| FormattedInputs.FormatPhoneDigits | components/formatted-inputs.tsx:115-123 | the digits of the mask are the first `min(12, #digits)` digits of the input |
| FormattedInputs.PhoneGroupSizes | components/formatted-inputs.tsx:118-122 | one to five groups: each but the last full, the last non-empty and within its size, a fifth of at most two digits, together the kept digits |
| FormattedInputs.FormatPhoneGroups | components/formatted-inputs.tsx:118-122 | after the `+`, splitting at the spaces gives exactly those digit groups |
| FormattedInputs.FormatPhoneIdempotent | components/formatted-inputs.tsx:115-123 | masking a mask changes nothing |
| FormattedInputs.FormatPhoneOfDigits | components/formatted-inputs.tsx:115-123 | masking the digit-filtered input is masking the input |
| FormattedInputs.MoneyDisplay | components/formatted-inputs.tsx:19-25 | the shown money text, without its spaces, is the digits before the first `.`, and it is empty exactly when there are none |
| FormattedInputs.PhoneDisplay | components/formatted-inputs.tsx:128-134 | the effect's `value ? formatPhone(value) : ""` is `formatPhone(value)` for every input, the empty one included |
| FormattedInputs.OnMoneyChange | components/formatted-inputs.tsx:27-33 | a money edit emits the input's digits and shows their grouping; whitespace removal turns the shown text into the emitted value; the shown text is what the input displays for that value; both are empty together |
| FormattedInputs.OnPhoneChange | components/formatted-inputs.tsx:136-144 | a phone edit is taken exactly when the input has at most twelve digits. A rejected edit leaves the display as it was. A taken one emits the digits and shows their mask, whose digits are the emitted value, which is also what the input displays for that value |

## Left out

- `formatCurrency` and `formatFullCurrency` (`lib/format-utils.ts:1-38`) are not modelled. They depend on IEEE doubles, `toFixed` rounding and `Intl.NumberFormat`'s locale output.
- Numeric arguments of `formatInputNumber` are left out. `String(value)` of a number (exponent notation and the like) is JavaScript number formatting; only string inputs are modelled. `null` and `undefined` are likewise not represented.
- `FormatUtils.GroupThousands` is the regular expression `\B(?=(\d{3})+(?!\d))` applied to a string of digits. It is the only input that expression receives, and the model does not describe the expression on other text.
- `ErrorUtils.Json` carries the text `JSON.stringify` produced for a message that is not a string. The encoder itself is not modelled. Truthiness of a non-string `detail` or value is read off that text (`null`, `false`, `0`).
- `ErrorUtils.Payload` covers only the intended table semantics of `getErrorMessage`. Three JavaScript behaviours are not represented:
  - lookups that reach `Object.prototype` (a key such as `constructor`);
  - the engine's reordering of integer-like keys in `Object.entries`;
  - a truthy primitive other than a string is represented as an object without entries, and a top-level array is not represented at all.
- React state, effects and rendering are modelled as values:
  - `useState` and `useEffect` appear as the pure `MoneyDisplay`, `PhoneDisplay`, `OnMoneyChange` and `OnPhoneChange`;
  - the `onPageChange` callbacks are the buttons' `target` pages;
  - CSS classes, icons and the `key` props are left out.
- `DateInput` is modelled only through `FormatUtils.FormatDateMask`, which is what its `handleChange` hands to `onChange`. The `maxLength` of 10 is met by the mask's length bound.
- The rest of the dashboard is not part of this model: page components, REST calls, login and storage, route guarding, charts, and the presentational components.
