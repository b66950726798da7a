# catboard core, modelled in Dafny

catboard is a small kanban board: boards hold lanes, lanes hold columns,
columns hold items, and an item has a free-text description. This project
models the parts of the server (`app.py`) and of the item page script
(`static/item.js`) that compute something rather than route requests. It
proves what they guarantee.

- **Subtask relationships** (`Subtasks`). When an item is saved with a
  non-empty description, every relationship row the item starts is deleted,
  whatever its type. The description is then scanned for `subtask #N`. One
  subtask row (type 100) is added for each distinct existing item `N`, in
  order of first mention. The relationship table is a class,
  `RelationshipStore`, whose `Reconcile` method performs exactly these steps.
  Each captured digit run goes through `int()`. `int()` raises on a run of
  more than 4300 digits, leading zeros included, and the bare `except`
  passes over it, so `subtask_int` keeps its previous value. When the first
  reference is such a run, `subtask_int` was never bound, and reading it
  raises. The default database is SQLite, whose INTEGER holds 64 bits, so a
  value above 2^63 - 1 makes the existence query raise. Either failure comes
  after the delete was committed: the added rows are rolled back, and the
  item keeps no relationship rows at all. An overlong run after a good one
  adds nothing, because the stale value was handled already. The model
  includes both failures.
- **Child ordering** (`Ordering`). `list_reorder` shows the lanes of a board,
  or the columns of a lane, in the order of a stored comma-separated list of
  child IDs. The list also hides every child it does not name.
- **Sort spec editing** (`SortSpec`). The edit pages turn a submitted list of
  child names into that ID list, and turn a stored ID list back into names.
  The board page (lanes) and the lane page (columns) run the same code, so
  one model serves both; the table cites either copy.
- **Neighbours** (`Neighbours`). `prev_and_next_elems` gives the elements
  around a given element.
- **Description scans** (`Extract`, `CheckboxRegex`). `url_is_image` tests
  whether a link is an image. `extract_checkboxes` finds the checklist lines
  of a description. Both the server (Python's anchored `re.match`) and the
  page (JavaScript's unanchored `RegExp.exec`) use the checklist pattern
  `- \[(.?)\] (.*)`. `CheckboxRegex` models both engines on one definition.
  JavaScript reads the pattern without the `u` flag, so its `.?` takes one
  UTF-16 code unit and cannot take a character beyond U+FFFF as the box.
- **Checklist toggling** (`Checklist`). Clicking a checklist entry on the item
  page rewrites the description line by line, so that matching entries show
  the new state.
- `Text` holds the string primitives these use: `split`, `join`, `strip`,
  `lower`, `int`/`str` on digit strings, `list.index`. `Wrappers` holds
  `Option` and `Result`.

Absent (`None`) descriptions and sort specs are modelled as the empty
string. Every reader of those fields tests truthiness, so `None` and `""`
behave alike.

Where the code's behaviour may be surprising, the model follows the code:

- Saving an empty description leaves the item's relationships as they were.
  It does not clear them (`if item.description:` guards the delete).
- The checklist box may be empty: `- [] text` is a checkbox, because `.?`
  may match nothing.
- `url_is_image` needs no dot before the ending. `.../ajp` is an image,
  because `jpe?g?` admits `jp`.
- Showing the edit page for a spec that lists a deleted child raises
  `KeyError`. The model returns that error as a `Failure`.

The round trip from a submitted name list back to names needs only distinct
child IDs. Child IDs are database keys, so they are always distinct. Names
may repeat: the name-to-ID dictionary keeps the last child of a name, and
decoding gives back that same name.

## Model

| member | source | states |
|---|---|---|
| Subtasks.RelationshipStore.Reconcile | app.py:640-663 | Saving item `id`: the item set is unchanged. The table becomes `Reconciled` of the old table: untouched for an empty description; else every row `id` starts is removed, then the subtask rows are appended, or, when the loop raises (`Completes` fails), none are. The integrity fact that every row joins existing items is preserved. |
| Subtasks.RelationshipStore.AddSubtaskRows | app.py:645-661 | The loop over references, with the `subtask_ints` set. It succeeds iff `Completes(refs)`: the first capture converts, and every converted value fits SQLite's 64-bit INTEGER. On success it appends exactly one `(id, n, 100)` row per entry of `Targets(refs, items)`, in order; on failure the table is as before the loop. |
| Subtasks.RelationshipStore.SubtasksOf | app.py:619 | The listed relationships are exactly the rows with `item1 == id` and type 100. The query has no `order_by`; the model returns them in table order, a choice the source does not promise. |
| Subtasks.VisitRef | app.py:646-661 | One turn of the loop. It raises iff `subtask_int` is unbound (first capture unconvertible) or the value exceeds 2^63 - 1, and then the whole reference list fails `Completes`. Otherwise it keeps the loop state: the queued rows are `EdgesTo` of the targets so far, and `subtask_ints` holds exactly those targets. |
| Subtasks.RefValue | app.py:647-648 | `int()` of a captured run is `None` (raises) exactly when the run has more than 4300 digits. |
| Subtasks.RefValueOfMention | app.py:646-648 | `subtask #d` followed by a non-digit is a match whose run is exactly `d`. It converts to `int(d)` when `d` has at most 4300 digits, and raises otherwise. |
| Subtasks.MentionReadsBack | app.py:646-648 | Writing `subtask #` and `str(n)` refers to `n`, provided `str(n)` has at most 4300 digits. |
| Subtasks.ReconcileOverlongFirstRef | app.py:646-652 | A first reference of more than 4300 digits leaves `subtask_int` unbound. The save fails after the committed delete, so the item starts no rows, whatever the number's value. |
| Subtasks.ReconcileOverlongLaterRef | app.py:646-661 | `subtask #d1 subtask #d2`, with `d2` over 4300 digits, gives exactly the row for `d1` when that item exists, and none otherwise. The overlong run is passed over with the stale value. |
| Subtasks.OverlongLaterRefs | app.py:646-648 | The references of `subtask #d1 subtask #d2` are `int(d1)` and a failed conversion. |
| Subtasks.RefsFrom | app.py:646-648 | `findall` with `int()` on each capture (`None` where it raises), scanning from a position: each reference takes at least ten characters of what is left. |
| Subtasks.SubtaskRefs | app.py:646-648 | The references of a whole description, in order: at most one per ten characters. Which numbers occur is `SubtaskRefsMentions`. |
| Subtasks.RelationshipStore.constructor | app.py:76-95 | An empty table over the given items is valid. |
| Subtasks.DigitRun | app.py:646 | `\d+` takes the maximal run of digits: every character in it is a digit, and the next character is not. |
| Subtasks.RefsFromMentions | app.py:646 | `findall` scans left to right without overlaps, yet finds a number exactly when the description mentions it as `subtask #N` with `N` a whole digit run. No match swallows a later mention. |
| Subtasks.SubtaskRefsMentions | app.py:646 | The same for the whole description. |
| Subtasks.NoMarkerInsideRef | app.py:646 | No `subtask #` can start inside an earlier match, so skipping past a match loses nothing. |
| Subtasks.Targets | app.py:652-661 | The added subtasks are exactly the referred numbers that name existing items (nonexistent ones are skipped without error), and no two are alike. |
| Subtasks.TargetsInFirstMentionOrder | app.py:646-661 | The added subtasks come in order of first mention. |
| Subtasks.Without | app.py:643 | The bulk delete keeps exactly the rows not started by the item. |
| Subtasks.Outgoing | app.py:643 | The rows an item starts, whatever their type. |
| Subtasks.SubtaskEdges | app.py:619 | The rows an item starts with type 100. |
| Subtasks.EdgesTo | app.py:655-660 | As many rows as targets. A row is among them iff it is started by `id`, has type 100, and ends at a target. |
| Subtasks.ReconciledOutgoing | app.py:643-661 | After a save with a non-empty description, the rows the item starts are exactly one subtask row per distinct existing mentioned item, in first-mention order; none at all when the loop raises (`Completes` fails). Every other item's rows are unchanged. |
| Subtasks.ReconciledSubtaskRows | app.py:643-661 | `(id, n, 100)` is present afterwards iff the loop runs to its end (`Completes`), `n` exists and `n` is mentioned with at most 4300 digits. All rows the item starts are of type 100. |
| Subtasks.Reconciled | app.py:642-661 | The save as a value: an empty description leaves the table as it is; otherwise rows of other items are kept exactly, and every row the item then starts is a subtask row to an existing item. |
| Subtasks.ReconcileOversizeRef | app.py:643-652 | Mentioning a number above 2^63 - 1 leaves the table as the committed delete left it: the item starts no rows. |
| Subtasks.ReconcileKeepsOtherRows | app.py:643 | The delete is scoped: rows not started by the item survive in their order, and nothing else survives. |
| Subtasks.ReconcileIdempotent | app.py:642-661 | Saving the same description twice gives the same table as saving it once. |
| Subtasks.ReconciledValid | app.py:652-653 | Rows added point only at existing items, so a table joining existing items stays that way. |
| Subtasks.SelfReferenceKept | app.py:652-661 | An item that mentions itself becomes its own subtask iff the loop runs to its end; nothing rejects it. |
| Text.DigitsValueLeadingZero | app.py:648 | `int()` ignores a leading zero, so `#007` and `#7` name the same item. |
| Ordering.ListReorder | app.py:215-229 | The nested generator loops yield exactly `Reordered(children, spec)`. An empty spec yields the children unchanged, in order. |
| Ordering.Reordered | app.py:215-229 | What `list_reorder` yields: the children unchanged for an empty spec, and never anything but children. |
| Ordering.GatherSubset | app.py:221-226 | The nested loops yield only children. |
| Ordering.GatherCount | app.py:221-226 | Each child is shown once per listing of its ID: unlisted children are dropped, and a repeated ID repeats its children. |
| Ordering.ReorderedMembership | app.py:221-226 | With a non-empty spec, a child is shown iff it exists and its ID is listed. |
| Ordering.SelectCount | app.py:224-226 | One spec entry yields each child with that ID as often as it occurs, and no other child. |
| Ordering.SelectStale | app.py:224-226 | An ID no child carries yields nothing. |
| Ordering.StaleIdsSkipped | app.py:221-226 | Stale IDs are skipped silently: the result is that of the spec without them. |
| Ordering.SelectUnique | app.py:224-226 | With distinct child IDs, an ID yields exactly its one child. |
| Ordering.KnownIds | app.py:224-226 | The listed IDs that name a child, in order. |
| SortSpec.SubmitSortSpec | app.py:482-494 | The stored spec after a sort form is submitted. It is either the old spec, or a well-formed non-empty spec whose IDs all name children. |
| SortSpec.SubmitKnownNames | app.py:484-491 | When every stripped name is known, the spec stored is the comma-join of the mapped IDs, in the submitted order. |
| SortSpec.SubmitUnknownName | app.py:548-555 | One unknown name leaves the stored spec unchanged. |
| SortSpec.SubmitEmptyForm | app.py:546-555 | An empty form cannot clear the spec unless some child is named "". |
| SortSpec.FormNames | app.py:488-489 | One stripped name per comma-separated piece of the form, so always at least one. |
| SortSpec.IdsToSpec | app.py:486-491 | The joined `str()` of the IDs is empty, the value read as no spec, exactly when there are no IDs. |
| SortSpec.NameToId | app.py:484 | The name-to-ID dictionary's keys are exactly the children's names. |
| SortSpec.IdToName | app.py:455 | The ID-to-name dictionary's keys are exactly the children's IDs. |
| SortSpec.LookupAll | app.py:486-491 | `[m[k] for k in keys]` succeeds iff every key is present, giving the values in order. Otherwise it fails on the first missing key. |
| SortSpec.SpecOfIds | app.py:486-491 | A non-empty ID list joined with `,` is a well-formed spec that parses back to the same IDs. |
| SortSpec.DecodeSortSpec | app.py:458-462 | Decoding gives `None` for an empty spec, and `KeyError` iff some listed ID names no child. Otherwise it gives one name per ID, each the name of a child with that ID. |
| SortSpec.SubmitThenDecode | app.py:516-520 | Round trip: with distinct child IDs, a spec stored from known names decodes to exactly the stripped names that were submitted. |
| SortSpec.SubmitThenReorder | app.py:482-494 | With distinct child IDs, after known names are submitted, `list_reorder` shows exactly the named children, in the submitted order. |
| SortSpec.NameToIdValue | app.py:484 | The name-to-ID dictionary maps a name to the ID of a child with that name. |
| SortSpec.IdToNameEntry | app.py:455 | The ID-to-name dictionary knows exactly the children's IDs, and maps each to a name of a child with it. |
| SortSpec.DictOfKeys | app.py:455 | A dict comprehension's keys are the keys of its pairs. |
| SortSpec.DictOfValue | app.py:455 | Every value of a dict comprehension comes from a pair with its key. |
| SortSpec.DictOfLast | app.py:484 | In a dict comprehension, the last pair with a key wins. |
| SortSpec.UniqueNamedChild | app.py:455 | With distinct child IDs, an ID names at most one child. |
| SortSpec.GatherKnownUnique | app.py:221-226 | With distinct IDs that all name a child, reordering yields, for each ID, that child. |
| Neighbours.PrevAndNext | app.py:372-385 | The list form gives `(None, None)` for an empty list or a missing element. Otherwise it gives the neighbours of the first occurrence, with `None` exactly at either end. |
| Neighbours.NeighboursAdjacent | app.py:378-384 | When both neighbours exist, `prev, elem, next` stand side by side around the first occurrence. |
| Neighbours.PrevAndNextCsv | app.py:374-378 | The string form raises `ValueError` iff the element is a substring of the string but not one of its comma-separated pieces. |
| Neighbours.CsvAgreesWithList | app.py:376-385 | When the element is one of the pieces, the string form agrees with the list form on the pieces. |
| Neighbours.CsvSubstringRaises | app.py:374-378 | `"2"` in `"12,3"` reaches `index` and raises. |
| Neighbours.JoinHasPart | app.py:374 | Each piece of a joined string is a substring of it. |
| Text.IndexOf | app.py:378 | `list.index` gives the first position of the element. |
| Text.JoinSplit | app.py:589 | Joining the pieces of a split gives back the string. |
| Text.SplitJoin | static/item.js:15 | Splitting a join of separator-free pieces gives back the pieces. |
| Text.SplitAround | app.py:589 | Splitting at a separator splits both sides. |
| Text.Strip | app.py:488 | `strip()` gives a slice of its input with no whitespace at either end, and all that was cut is whitespace. |
| Text.DigitsValueOfNatToString | app.py:488 | `int(str(n)) == n`. |
| Text.Split | app.py:589 | `split` on one character gives at least one piece, and no piece holds the separator. |
| Text.Join | static/item.js:39 | `join` of no parts is empty, is at least as long as its first part, and holds the separator once there are two parts. |
| Text.Lower | app.py:572 | `lower()` lowers each character where it stands, at the same length, and leaves no ASCII capital. |
| Text.LowerSuffix | app.py:572 | Lowering commutes with taking a suffix. |
| Text.LowerKeepsSmall | app.py:572 | A string without ASCII capitals is its own lower case. |
| Text.DigitsValue | app.py:648 | `int()` of a digit string is zero exactly when every digit is `0`. |
| Text.NatToString | app.py:488 | `str()` of a number is a non-empty digit string without a leading zero. |
| Text.EndsWith | static/item.js:27 | Every string ends with the empty string. |
| CheckboxRegex.DotRun | app.py:588 | `(.*)` takes the longest prefix that `.` accepts. |
| CheckboxRegex.MatchAt | app.py:588 | The match at a position is greedy: a one-character group 1 beats an empty one, and the caption is the longest `.` run. It is absent iff no form of group 1 is accepted there. |
| CheckboxRegex.ExecFrom | static/item.js:17-18 | `exec` reports the leftmost position where the pattern's head stands, and the match there. |
| CheckboxRegex.ExecFromLeftmost | static/item.js:18 | No match exists before the reported one, and none anywhere when none is reported. |
| CheckboxRegex.ExecSkips | static/item.js:18 | The search passes over text without `-`. |
| CheckboxRegex.ExecAfterPrefix | static/item.js:18 | On `pre - [sym] t` with no `-` in `pre`, `exec` finds group 1 `sym` and caption `t` just after `pre`. |
| CheckboxRegex.MatchAtHead | app.py:588 | Where `- [sym] ` stands and `.` accepts the rest, the match has group 1 `sym` and caption the rest. |
| CheckboxRegex.ExecAtStart | static/item.js:18 | Where the anchored match succeeds, `exec` reports that match. |
| CheckboxRegex.DialectsAgree | app.py:588 | On a line without line terminators, both engines match alike at a position, provided the character where the box would stand is one UTF-16 code unit. |
| CheckboxRegex.AstralBoxDialects | static/item.js:17 | Where the engines part: `- [c] t` with `c` beyond U+FFFF matches for Python with group 1 `c`, and not at all at that position for JavaScript, whose `.?` reads one code unit. |
| CheckboxRegex.ExecMissesAstralBox | static/item.js:18 | `exec` finds nothing on `- [c] t` with `c` beyond U+FFFF and no `-` in `t`. |
| CheckboxRegex.Match | app.py:588 | `re.match` succeeds iff some form of group 1 is accepted at the start, and the line then begins with the head it read. |
| CheckboxRegex.Exec | static/item.js:18 | `exec` reports the match at the leftmost position where the pattern matches, and none when it matches nowhere. |
| CheckboxRegex.DotDialects | static/item.js:17 | JavaScript's `.` accepts a subset of what Python's accepts. |
| CheckboxRegex.NoMatchWithoutDash | app.py:588 | The pattern cannot match where there is no `-`. |
| CheckboxRegex.DotRunWhole | app.py:588 | `(.*)` takes the whole of a text that `.` accepts throughout. |
| Extract.UrlIsImage | app.py:570-572 | Truthy iff the lowercased link matches the image pattern under Python's `re.match`: any run of non-newline characters, then one of `jp`, `jpe`, `jpg`, `jpeg`, `png`, `gif`, then the end or a final newline. |
| Extract.ImagePatternAt | app.py:572 | The pattern matches iff the part before an optional final newline has no newline and ends in `jp`, `jpe`, `jpg`, `jpeg`, `png` or `gif`. |
| Extract.ImageByEnding | app.py:572 | On a one-line link of four characters or more, only the last four characters, lowercased, decide. |
| Extract.FinalNewlineIgnored | app.py:572 | Appending one newline changes nothing. |
| Extract.ImageWithoutDot | app.py:572 | No dot is needed: `http://example.com/ajp` is an image. |
| Extract.ImageExampleCapitalised | app.py:572 | `http://example.com/cat.PNG` is an image. |
| Extract.ImageExamplePage | app.py:572 | `http://example.com/page.html` is not. |
| Extract.ImageBeforeFinalNewline | app.py:572 | `a.jpeg` followed by a newline is an image. |
| Extract.ImageNotAcrossLines | app.py:572 | A newline before the ending defeats the match. |
| Extract.ImageLinks | app.py:621 | The images among the links: each link is kept as often as it occurs if it is an image, and never otherwise. |
| Extract.ImageLinksAppend | app.py:621 | The filter keeps order: the images of `a + b` are those of `a` followed by those of `b`. |
| Extract.ImageLinksAllImages | app.py:621 | A list of links that are all images is kept whole. |
| Extract.CheckboxOf | app.py:590-599 | A line yields a checkbox iff the anchored pattern accepts it. `done` iff group 1 is `x`; the text is group 2. |
| Extract.ExtractCheckboxes | app.py:575-601 | The loop returns `Checkboxes(text)`: nothing for an empty text, else one entry per matching line, in line order. It returns at most one entry per line. |
| Extract.Checkboxes | app.py:575-601 | `extract_checkboxes` as a value: nothing for an empty text, and at most one entry per line. |
| Extract.CheckboxLineShape | app.py:588-599 | A one-line text gives a checkbox iff it is `- [` + at most one character + `] ` + rest. The text is that rest, and `done` iff the character is `x`. |
| Extract.OneCharBox | app.py:594-599 | `- [c] t` gives `(c == 'x', t)`, so `[ ]` gives not done. |
| Extract.EmptyBox | app.py:594-599 | `- [] t` gives a checkbox that is not done. |
| Extract.NotCheckboxLine | app.py:590 | A line not starting with `-` gives nothing. |
| Extract.CheckboxesAppendLine | app.py:589-600 | A line appended to the text contributes its checkbox after those of the text. |
| Extract.CheckboxesOneLine | app.py:585-600 | A single-line text gives that line's checkbox, if any. |
| Checklist.NewMark | static/item.js:23-26 | The new box holds `x` iff the entry was unchecked, and is a space otherwise. |
| Checklist.ToggleCheckbox | static/item.js:3-40 | The `forEach` loop and the final join produce `Toggled(description, clicked, wasChecked)`. |
| Checklist.RewriteLine | static/item.js:18-37 | The `forEach` callback on one line produces `ToggleLine` of it. |
| Checklist.ToggleLine | static/item.js:19-36 | A line changes only where `exec` finds the pattern and the clicked text ends with the caption found. |
| Checklist.Toggled | static/item.js:15-39 | `toggle_checkbox` as a value: a one-line description is that line, rewritten. |
| Checklist.ToggleLines | static/item.js:18-37 | The number of lines is kept, and the line at each position is the rewrite of the input line there, on its own. |
| Checklist.ToggledLines | static/item.js:15-39 | The output's lines are the input's lines, each rewritten, so there are as many of them. |
| Checklist.ToggleLineNoNewline | static/item.js:27 | A rewritten line holds no newline. |
| Checklist.UnmatchedLineKept | static/item.js:34-36 | A line the pattern matches nowhere is copied unchanged. |
| Checklist.ToggleAfterPrefix | static/item.js:19-31 | A line `pre - [sym] t` with no `-` in `pre` becomes exactly `- [mark] t` when the clicked text ends with `t`, with `pre` dropped. Otherwise it is copied unchanged. |
| Checklist.EmptyCaptionAlwaysToggled | static/item.js:27-28 | An empty caption is rewritten whatever was clicked. |
| Checklist.RewrittenLineStable | static/item.js:18-28 | A rewritten line is left alone by the same click. |
| Checklist.ToggleLineIdempotent | static/item.js:18-37 | Toggling a line twice with the same click is toggling it once. |
| Checklist.ToggledIdempotent | static/item.js:3-40 | `toggle_checkbox` applied twice with the same click gives the result of applying it once. |
| Checklist.ToggledLineExtracts | static/item.js:27 | A rewritten line reads back on the server as a checkbox with the new state and the same caption. |
| Checklist.BrowserAgreesAtLineStart | static/item.js:18 | On a line free of line terminators, where the server's anchored match succeeds and the box character is one UTF-16 code unit, the browser finds the same match. |
| Checklist.BrowserFindsIndentedBox | static/item.js:18 | Where the two disagree: a line with text before the box is no checkbox to the server, yet the browser finds it and rewrites it. |
| Checklist.AstralBoxKept | static/item.js:17-36 | Where they disagree the other way: `- [c] t` with `c` beyond U+FFFF is a checkbox to the server, yet the browser copies the line unchanged when `t` holds no `-`. |

## Left out

- Flask routing, login and ownership checks, template rendering, redirects,
  `humanize` time formatting, `random.choice`, template reads from disk, and
  the `subprocess` git/hostname calls. None of these compute anything the
  model needs.
- `extract_links` and the `link_patterns` regex of `to_md.py`, and the
  markdown rendering. The list of extracted links is an input to
  `Extract.ImageLinks`.
- JSON export and import, and fetching from another instance: database
  reflection and network I/O.
- Transactions. The reconciler commits the delete separately from the
  inserts. The model performs the whole save as one state change. The two
  failures user input can cause in between are modelled by their outcome:
  an unbound `subtask_int` and a value above SQLite's 64-bit INTEGER. In
  both, the delete stays and the inserts are rolled back. Database errors not
  caused by the input are left out. On other databases the bound differs;
  the model uses SQLite's, the default.
- Subtasks.MaxStrDigits: the 4300-digit limit is CPython's default since
  3.11 (also in the 3.7-3.10 security releases). An interpreter without it,
  or one whose limit is changed by `sys.set_int_max_str_digits` or
  `PYTHONINTMAXSTRDIGITS`, converts longer runs; the model does not cover
  those settings.
- The relationship row's own primary key, and every relationship type other
  than 100, which only appear as rows to keep or delete.
- The writes of the item's name, assignee and description fields in the
  same handler. They are plain assignments; the description is the
  reconciler's input.
- `item_move` and the other single-field updates and moves: plain
  assignments.
- `cli.py` and the migrations: database administration and schema.
- The DOM side of `static/item.js`: reading the clicked entry's text and
  state, flipping the icon classes, the click listeners. The clicked text and
  prior state are inputs.
- Unicode: `\d` is modelled as ASCII `0`-`9` (Python's `\d` and `int()`
  also accept other Unicode decimal digits), and `lower()` lowercases only
  ASCII letters. `strip()` uses Python's full whitespace set.
- Ordering.WellFormedSpec: `int()` failures on a malformed stored spec are
  excluded by precondition. The handlers only ever store joined integers.
- Ordering.ListReorder: returns the whole sequence, not a lazy generator.
- SortSpec.SubmitSortSpec: an absent form field (`None`) is not modelled. Its
  `split` also raises and is caught, so the spec is again left unchanged.
- Neighbours.PrevAndNextCsv: only the string case's `ValueError` is
  modelled, as a `Failure`. The list case is `Neighbours.PrevAndNext`.
