# Linux Helper: search and disclosure core

Linux Helper is a static Next.js knowledge-base site. Its pages are mostly fixed markup. The
logic they share is a small search-and-disclosure engine, which this project models and proves
things about:

- **Error search** (`app/errors/page.tsx`). A fixed database of error entries is filtered by a
  search box. The empty box shows everything. Otherwise an entry is kept when its lower-cased
  error text, meaning or one of its causes contains the lower-cased term. A count line reads
  `Found n error(s)`. An empty result shows a no-results card.
- **Single-open disclosure**. The errors page's `expandedError` and the `Accordion` component's
  `openIndex` follow one rule: clicking the open position closes it, and clicking any other
  position opens that one. `Accordion` is copied verbatim in `app/terminal/page.tsx:50-81` and
  `app/installation/page.tsx:50-81`, so it is modelled once (`Disclosure.Accordion`). Its table
  rows cite the terminal copy.
- **Troubleshooting checklist** (`app/troubleshooting/page.tsx`). A sparse record from step keys
  `item-<index>` to booleans. An absent key reads as unchecked, and a click flips one key.
- **Code blocks**. The troubleshooting page's variant splits its code on line feeds into rows,
  and numbers them when `showLineNumbers` is set (it is off by default); the other copies show
  the code as one block. A copy button hands the code to the clipboard, shows "Copied!" and
  schedules a reset 2000 ms later. The same `CodeBlock` copy logic appears in
  `app/terminal/page.tsx:23-40`, `app/installation/page.tsx:23-40`,
  `app/troubleshooting/page.tsx:17-36` and `app/errors/page.tsx:262-279`. It is modelled once (`CopyButton.CodeBlock`).

Each piece of state the pages keep in a React state cell is a Dafny `class`: `ErrorSearch.ErrorsPage`,
`Disclosure.Accordion`, `Checklist.ChecklistPage` and `CopyButton.CodeBlock`. Each handler is a
method whose new state is given by a pure transition function. The properties are proved as
lemmas about those functions.

The files are:

| file | module | contents |
|---|---|---|
| `wrappers.dfy` | `Wrappers` | `Option`, for the pages' `number \| null` cells |
| `text.dfy` | `Text` | lower-casing, `includes`, decimal rendering of indices |
| `lines.dfy` | `Lines` | `split('\n')`, its inverse, numbered rows |
| `disclosure.dfy` | `Disclosure` | the toggle rule and the `Accordion` |
| `errors.dfy` | `ErrorSearch` | entries, the filter, the count line, the errors page |
| `checklist.dfy` | `Checklist` | checked-step record, step keys, the checklist page |
| `copybutton.dfy` | `CopyButton` | copied flag, pending resets, the code block |

Behaviour of the code worth knowing, as the model captures it:

- **Overlapping copy clicks.** The code never clears an earlier `setTimeout`. With clicks at 0
  and at 1000 ms, the flag therefore drops at 2000 ms
  (`CopyButton.OverlappingClicksShortenAcknowledgement`). In general it drops at the earliest
  pending deadline (`CopyButton.ResetAtEarliestDeadline`).
- **Clipboard outcome.** The code does not await the promise of `navigator.clipboard.writeText`,
  so the flag rises whether that promise resolves or rejects.
- **Timer teardown.** The code does not cancel a pending reset when the component unmounts.
  Unmounting is outside this model.
- **Initial expanded entry.** The errors page starts with entry 0 expanded (`useState(0)`).

## Model

| member | source | states |
|---|---|---|
| Text.LowerChar | app/errors/page.tsx:296 | a lower-cased character is never upper-case; only upper-case letters change, each moving down by 32 |
| Text.Lower | app/errors/page.tsx:296 | `toLowerCase` keeps the length and lower-cases each character in place |
| Text.LowerIdempotent | app/errors/page.tsx:296 | lower-casing twice is lower-casing once |
| Text.IncludesIff | app/errors/page.tsx:299-301 | `includes` holds exactly when the term occurs at some position of the text |
| Text.Includes | app/errors/page.tsx:299-301 | a term that starts the text is included, and an included term is no longer than the text |
| Text.CharOfIncluded | app/errors/page.tsx:299-301 | every character of an included term occurs in the text |
| Text.Decimal | app/troubleshooting/page.tsx:231 | an index renders as a non-empty string of digits with no leading zero |
| Text.DecimalRoundTrip | app/troubleshooting/page.tsx:231 | reading back an index's rendering gives the index |
| Text.DecimalInjective | app/troubleshooting/page.tsx:231 | two indices render alike exactly when they are equal |
| Lines.Split | app/troubleshooting/page.tsx:25 | `split('\n')` gives one more piece than there are line feeds, and no piece holds a line feed |
| Lines.JoinSplit | app/troubleshooting/page.tsx:25 | joining the pieces with line feeds gives back the code |
| Lines.SplitJoin | app/troubleshooting/page.tsx:25 | splitting a join of line-feed-free pieces gives back the pieces |
| Lines.RenderLines | app/troubleshooting/page.tsx:41-45 | one row per piece, carrying that piece's text, numbered exactly when numbering is on |
| Lines.LineNumbersConsecutive | app/troubleshooting/page.tsx:43 | with numbering on, rows are numbered 1, 2, … up to the number of rows |
| Lines.RenderedTextIsCode | app/troubleshooting/page.tsx:41-45 | the rows' texts, joined by line feeds, are the code |
| Disclosure.Toggle | app/terminal/page.tsx:58 | a click closes the position exactly when it was the open one, and otherwise opens that position |
| Disclosure.OpenPositions | app/terminal/page.tsx:64-68 | the shown items are exactly the rendered positions equal to the open one, so there is at most one |
| Disclosure.OnlyLastClickedCanBeOpen | app/terminal/page.tsx:58 | after any clicks, either nothing is open or the last clicked position is |
| Disclosure.ToggleTwice | app/terminal/page.tsx:58 | two clicks on one position reopen it if it was open, and otherwise leave everything closed |
| Disclosure.ToggleOther | app/terminal/page.tsx:58 | a click on a different position opens that one, whatever was open |
| Disclosure.Accordion.constructor | app/terminal/page.tsx:51 | the first item starts open |
| Disclosure.Accordion.Click | app/terminal/page.tsx:58 | the new open position follows the toggle rule, and the open position stays a rendered item |
| Disclosure.Accordion.ShownItems | app/terminal/page.tsx:68 | at most one item shows its content: the one at the open position |
| ErrorSearch.SomeCauseIncludes | app/errors/page.tsx:301 | `causes.some(...)` holds exactly when some lower-cased cause includes the term |
| ErrorSearch.Matches | app/errors/page.tsx:298-301 | the empty term matches every entry, and every character of a matching term occurs in the entry's lower-cased error, meaning or some cause |
| ErrorSearch.MatchesIff | app/errors/page.tsx:298-301 | the filter callback keeps an entry exactly when the term occurs in its lower-cased error, meaning or some cause |
| ErrorSearch.Select | app/errors/page.tsx:297-302 | `filter` returns no more entries than it was given, each one from the input and accepted by the callback |
| ErrorSearch.SelectIsOrderedSelection | app/errors/page.tsx:297-302 | `filter` returns the input read at strictly increasing positions, and those are exactly the positions of the entries the callback keeps |
| ErrorSearch.AllPositionsListed | app/errors/page.tsx:294 | for the empty box every position is listed, once each and in order |
| ErrorSearch.SelectNoneKept | app/errors/page.tsx:297 | when the callback rejects every entry, `filter` returns nothing |
| ErrorSearch.Filter | app/errors/page.tsx:293-303 | an empty box returns the database unchanged; the result is never longer than the database |
| ErrorSearch.FilterIsOrderedSelection | app/errors/page.tsx:293-303 | the result is the database read at strictly increasing positions, and those are exactly the matching positions (all of them for an empty box) |
| ErrorSearch.FilterMembership | app/errors/page.tsx:296-301 | for a non-empty box, an entry is listed exactly when it is in the database and mentions the lower-cased term |
| ErrorSearch.SelectAllKept | app/errors/page.tsx:297 | entries the callback all accepts pass `filter` unchanged |
| ErrorSearch.SelectIdempotent | app/errors/page.tsx:297 | filtering an already filtered list with the same callback changes nothing |
| ErrorSearch.FilterIdempotent | app/errors/page.tsx:293-303 | searching the result again with the same term changes nothing |
| ErrorSearch.FilterIgnoresCase | app/errors/page.tsx:296 | terms with the same lower-case form give the same result |
| ErrorSearch.FilterOfLowered | app/errors/page.tsx:296 | a term and its lower-case form give the same result |
| ErrorSearch.FilterIgnoresDetail | app/errors/page.tsx:298-301 | solutions and examples are never searched: databases differing only there keep the same positions |
| ErrorSearch.CountNoun | app/errors/page.tsx:342 | the noun is "error" exactly for a count of 1, and "errors" otherwise |
| ErrorSearch.Summary | app/errors/page.tsx:340-344 | no count line for an empty box; otherwise `Found <count> <noun>` |
| ErrorSearch.RenderList | app/errors/page.tsx:349-406 | the no-results card exactly for an empty result; otherwise one row per entry, in order, expanded exactly at the expanded position |
| ErrorSearch.ExpandedRowIsShown | app/errors/page.tsx:353-367 | with the expanded position valid, the rows showing details are that one row, or none when it is null |
| ErrorSearch.ErrorsPage.OnlyExpandedEntryShown | app/errors/page.tsx:353-367 | on a valid page the rows showing details are exactly the entry `expandedError` names, or none when it is null |
| ErrorSearch.ErrorsPage.constructor | app/errors/page.tsx:290-291 | the box starts empty and entry 0 starts expanded, which is a valid position |
| ErrorSearch.ErrorsPage.OnSearchChange | app/errors/page.tsx:333-336 | typing stores the text and collapses every entry, which keeps the expanded position valid |
| ErrorSearch.ErrorsPage.OnEntryClick | app/errors/page.tsx:353 | a click on a rendered entry follows the toggle rule and keeps the expanded position valid |
| ErrorSearch.ErrorsPage.View | app/errors/page.tsx:340-406 | the count line shows exactly when the box is non-empty and reads `Found <n> <noun>` for the number of matches; the no-results card shows exactly when nothing matches, and otherwise there is one row per match |
| ErrorSearch.SearchWithoutMatch | app/errors/page.tsx:293-303 | searching `zzz` in a database whose texts have no `z` finds nothing, and the page shows the no-results card |
| Checklist.ToggleCheck | app/troubleshooting/page.tsx:56-61 | the clicked key's reading is negated, it becomes present, and every other key keeps its value |
| Checklist.IsChecked | app/troubleshooting/page.tsx:232 | an absent key reads as unchecked, and a present key reads as its value |
| Checklist.ToggleTwice | app/troubleshooting/page.tsx:56-60 | two clicks on one key give back its reading and touch no other key |
| Checklist.ToggleTwiceRestores | app/troubleshooting/page.tsx:56-60 | two clicks give back the very record exactly when the key was already present |
| Checklist.ToggleCommutes | app/troubleshooting/page.tsx:56-60 | clicks on different keys commute |
| Checklist.ItemKey | app/troubleshooting/page.tsx:231 | a step key is `item-` followed by the index |
| Checklist.ItemKeyInjective | app/troubleshooting/page.tsx:231 | distinct steps have distinct keys |
| Checklist.CheckedSteps | app/troubleshooting/page.tsx:231-232 | the checked steps are exactly those whose key reads as true |
| Checklist.ToggleFlipsOneStep | app/troubleshooting/page.tsx:231-239 | clicking a step adds it to or removes it from the checked steps, and changes no other step |
| Checklist.ChecklistPage.constructor | app/troubleshooting/page.tsx:54 | the record starts empty, so every step reads as unchecked |
| Checklist.ChecklistPage.StepChecked | app/troubleshooting/page.tsx:232 | a step reads as checked exactly when its key is present and true |
| Checklist.ChecklistPage.Toggle | app/troubleshooting/page.tsx:56-61 | the record becomes the toggled record |
| Checklist.ChecklistPage.ToggleStep | app/troubleshooting/page.tsx:239 | a step's box flips that step and leaves every other step as it was |
| CopyButton.Initial | app/terminal/page.tsx:23 | a fresh button is valid, with the flag down and no reset pending |
| CopyButton.Click | app/terminal/page.tsx:25-29 | a click raises the flag and adds exactly one reset, at the current time plus 2000, keeping every earlier one |
| CopyButton.Advance | app/terminal/page.tsx:28 | when time reaches `now`, the flag stays up exactly when no reset is due, and exactly the future resets stay pending |
| CopyButton.ClickValid | app/terminal/page.tsx:25-29 | a click keeps the resets in deadline order, each within 2000 ms of now, with one pending while the flag is up |
| CopyButton.AdvanceValid | app/terminal/page.tsx:28 | advancing time keeps the state valid |
| CopyButton.ResetAtEarliestDeadline | app/terminal/page.tsx:27-28 | a raised flag stays up exactly until the earliest pending deadline |
| CopyButton.LoneClickLastsTheDelay | app/terminal/page.tsx:27-28 | a click with no earlier reset pending shows the acknowledgement for exactly 2000 ms |
| CopyButton.OverlappingClicksShortenAcknowledgement | app/terminal/page.tsx:27-28 | after clicks at `t` and at `t + gap` (gap under 2000), the flag is still up before the second click but down at `t + 2000`, with only the second reset pending |
| CopyButton.AdvanceSorted | app/terminal/page.tsx:28 | on sorted deadlines, reaching a time past exactly the first `i` of them fires those and keeps the rest; the flag survives only when none fired |
| CopyButton.Label | app/terminal/page.tsx:40 | the label is "Copied!" exactly when the flag is up, and "Copy" otherwise |
| CopyButton.CodeBlock.constructor | app/terminal/page.tsx:23 | the button starts with the flag down and nothing copied |
| CopyButton.CodeBlock.HandleCopy | app/terminal/page.tsx:25-29 | the code goes to the clipboard verbatim, and the state follows `Click` and stays valid |
| CopyButton.CodeBlock.Tick | app/terminal/page.tsx:28 | running the due reset callbacks in deadline order gives the state `Advance` describes |
| CopyButton.CodeBlock.ButtonLabel | app/terminal/page.tsx:40 | the button reads "Copied!" exactly when the flag is up |

## Left out

- Rendering: the JSX markup, styling, icons and the static sections of every page. Only the
  state the markup reads is modelled.
- `navigator.clipboard.writeText` is a browser call. It is modelled as a log of the texts passed
  to it (`CopyButton.CodeBlock.clipboard`). Its promise and its outcome are not modelled.
- CopyButton.CodeBlock.HandleCopy: assumes the clipboard API exists. Where `navigator.clipboard`
  is undefined (a page not served securely), the call throws before `setCopied(true)`, so the
  flag stays down and no reset is scheduled; the model does not capture that path.
- Real time and the event loop: time is an integer clock that `CopyButton.CodeBlock.Tick` moves
  forward. Timer clamping and callbacks racing with clicks at the same instant are not modelled.
- Component teardown and unmount are outside the model. The code does not cancel pending resets.
- Text.LowerChar: maps ASCII upper-case letters only, for the reason given for `Text.Lower`.
- Text.Lower: lower-cases ASCII letters only, because JavaScript's `toLowerCase` applies Unicode
  case mapping and the model has no Unicode tables.
- The literal contents of `errorDatabase` (`app/errors/page.tsx:17-259`), `checklistItems`
  (`app/troubleshooting/page.tsx:63-194`) and the accordion items are data only. The model works
  over any database, and the errors page only assumes it is non-empty, as the literal is.
- `useMemo` caching of the filtered list is an optimisation with no effect on the result, so the
  filter is recomputed from the state.
- An accordion item's content may be a React node instead of a string. That only affects
  rendering, so it is modelled as a string.
- The `language` label of a code block, the step headings `Step {index + 1}` and the command
  lists of checklist steps are display only.
- The other pages (`app/page.tsx`, about, contact, cookies, privacy, adsense) and the layout are
  not part of this model. The contact form's submit stub logs and resets after a timer, with no
  backend.
