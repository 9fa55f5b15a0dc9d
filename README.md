# Rename-SAAS client-side rename engine, in Dafny

This project models the part of Rename-SAAS that runs in the browser when a user renames a batch of files:

- **The name transformer.** `generateNewFilenames` splits each file's current name at its last dot. It runs the active rules in list order on the part before the dot and puts the extension back. The five rule kinds are prefix, suffix, literal replace-all, zero-padded numbering and date.
- **The export dispatch.** One file is saved under its new name. Any other number of files goes into `renamed.zip`.
- **The rule-list editor.** Add a rule with its kind's defaults, edit one field, remove a rule, move a rule up or down, save a preset.
- **The drop zone.** Each dropped file becomes a batch record.
- **The rename page.** It holds the batch, the rule list, the credit balance and the download flag. Its apply handlers debit one credit per file. Ledger and preset requests are recorded in a ghost log.

Modules:

- `Wrappers`: `Option`.
- `Seqs`: filtering and swapping.
- `Strings`: the JavaScript string built-ins the engine uses, written out over `seq<char>`.
- `RuleModel`: the data types, from `file.ts`.
- `RenameUtil`: `renameUtil.ts`.
- `RuleEditor`: the logic of `renameRules.tsx`.
- `Intake`: `dropZone.tsx`.
- `RenamePageState`: the class `Page`, which models `rename.tsx` together with the state `renameRules.tsx` keeps (the rule list and the preset name).

Behaviours of the code worth noting:

- **Apply gate.** The apply buttons are gated on the length of the whole rule list, not on the number of active rules. A list of inactive rules still debits one credit per file and changes no name.
- **History reason.** The reason of a rules apply lists the kind of every rule, inactive ones included, joined by `, `.
- **Download flag.** Dropping files and deleting a single file leave the download flag as it is. Only "delete all" clears it.
- **Date position.** A date rule puts the date in front of the name only when its `position` is `'prefix'`: a fresh date rule, a rule whose Prefix radio was clicked, or a preset rule that carries `'prefix'`. With `'suffix'` or with no `position` at all, the date goes after the name, even though the card then shows the Prefix radio as selected.
- **Moving a rule.** It triggers an apply that still sees the rule list from before the move. The batch is renamed, and the history reason written, in the old order, and one credit per file is debited (`Page.MoveRule`).
- **Balance update.** The shown balance changes only after the ledger answers the balance update with success. A failed request throws before the balance is set. The server refuses a new balance of `0`. This answer is the parameter `balanceAccepted`.

## Model

| member | source | states |
|---|---|---|
| RuleModel.TypeName | src/components/rename/file.ts:10 | the label of each rule kind: `prefix`, `suffix`, `replace`, `numbering`, `date` |
| Seqs.Filter | src/components/rename/util/renameUtil.ts:8 | `Array.prototype.filter`: keeps, in order, the elements the test accepts; the result is never longer and all of it passes the test |
| Seqs.MapIndexed | src/components/rename/util/renameUtil.ts:10-65 | `Array.prototype.map` with the index passed to the callback: same length, element `i` is the callback on element `i` and `i` |
| RuleModel.ParseTypeName | src/components/rename/file.ts:10 | a label is read as a rule kind only when it is that kind's own label |
| RuleModel.TypeNameRoundTrip | src/components/rename/file.ts:10 | every kind is recovered from its label, so the five labels are distinct |
| RuleModel.TypeNameHasNoComma | src/components/rename/file.ts:10 | no kind label is empty or contains a comma |
| Strings.NatDigits | src/components/rename/util/renameUtil.ts:43 | `toString` of a natural number: at least one digit, with a leading `0` exactly for zero |
| Strings.ParseNatDigits | src/components/rename/util/renameUtil.ts:43 | the digits of `n` read back as `n` |
| Strings.Decimal | src/components/rename/util/renameUtil.ts:43 | `toString` of an integer: at least one character, digits apart from a leading minus sign, and the sign is there exactly for a negative number |
| Strings.DecimalRoundTrip | src/components/rename/util/renameUtil.ts:43 | `toString` of any integer, with its minus sign, reads back as that integer |
| Strings.PadStart | src/components/rename/util/renameUtil.ts:43 | `padStart` gives length `max(width, |s|)`: pad characters in front and the original text at the end, never cut |
| Strings.PadStartValue | src/components/rename/util/renameUtil.ts:43 | zero padding keeps a digit string's value |
| Strings.IsWhitespace | src/components/rename/renameRules.tsx:100 | the characters `trim` removes: tab, line feed, vertical tab, form feed, carriage return, space, no-break space, byte order mark, the Unicode space separators and the line and paragraph separators |
| Strings.LastIndexOf | src/components/rename/util/renameUtil.ts:13-14 | `lastIndexOf` returns -1 exactly when the character is absent; otherwise the character is at the result and nowhere after it |
| Strings.ReplaceFirst | src/components/rename/util/renameUtil.ts:83-88 | `replace` with a string pattern substitutes at most once: the length is unchanged or differs by exactly one substitution |
| Strings.ReplaceAll | src/components/rename/util/renameUtil.ts:31-34 | a global literal replace whose replacement is as long as the pattern keeps the text's length |
| Strings.ReplaceFirstNoMatch | src/components/rename/util/renameUtil.ts:83-88 | `replace` with a string pattern that does not occur leaves the text alone |
| Strings.ReplaceFirstAt | src/components/rename/util/renameUtil.ts:83-88 | `replace` with a string pattern rewrites only its first occurrence |
| Strings.ReplaceAllNoMatch | src/components/rename/util/renameUtil.ts:31-34 | a global literal replace of an absent pattern leaves the text alone |
| Strings.ReplaceAllAt | src/components/rename/util/renameUtil.ts:31-34 | a global literal replace rewrites the leftmost occurrence and continues after it |
| Strings.ReplaceAllSelf | src/components/rename/util/renameUtil.ts:31-34 | replacing a pattern by itself leaves the text unchanged |
| Strings.TrimStart | src/components/rename/renameRules.tsx:100 | `trim` removes exactly the leading whitespace run |
| Strings.TrimEnd | src/components/rename/renameRules.tsx:100 | `trim` removes exactly the trailing whitespace run |
| Strings.Trim | src/components/rename/renameRules.tsx:100 | `trim` gives a text no longer than the input that neither starts nor ends with whitespace |
| Strings.TrimEmptyIffBlank | src/components/rename/renameRules.tsx:100 | a trimmed text is empty exactly when the text is whitespace only |
| Strings.FindFrom | src/pages/rename.tsx:93 | helper of the reference `Split` that reads a `join(', ')` back (nothing searches at this line): the first occurrence of a separator at or after a position, or -1 exactly when there is none |
| Strings.Join | src/pages/rename.tsx:93 | `join` of no parts is empty; otherwise the text starts with the first part |
| Strings.SplitJoin | src/pages/rename.tsx:93 | splitting a `join(', ')` of comma-free parts at the separator gives the parts back |
| RenameUtil.SplitExtension | src/components/rename/util/renameUtil.ts:13-14 | base and extension glue back to the name; the extension is empty exactly when the name has no dot, and otherwise starts at the last dot |
| RenameUtil.SplitExtensionOfJoin | src/components/rename/util/renameUtil.ts:13-14 | a base followed by a dot-led, dot-free extension splits back into the two |
| RenameUtil.IsRegExpSyntax | src/components/rename/util/renameUtil.ts:71 | the characters `escapeRegExp` puts a backslash before: `.` `*` `+` `?` `^` `$` `{` `}` `(` `)` `[` `]`, the vertical bar and the backslash |
| RenameUtil.EscapeRegExp | src/components/rename/util/renameUtil.ts:70-72 | escaping never shortens the text and leaves a text without syntax characters unchanged |
| RenameUtil.EscapeRegExpIsLiteral | src/components/rename/util/renameUtil.ts:70-72 | the escaped search text is a pattern without operators that matches exactly the search text |
| RenameUtil.Pad2 | src/components/rename/util/renameUtil.ts:77-80 | a date field is rendered with at least two digits |
| RenameUtil.Pad2Exact | src/components/rename/util/renameUtil.ts:77-80 | a field below 100 is exactly two digits that read back as the field |
| RenameUtil.FormatDate | src/components/rename/util/renameUtil.ts:75-89 | a format without any token letter is returned unchanged |
| RenameUtil.FormatDateDefault | src/components/rename/util/renameUtil.ts:75-89 | the default format gives year, month and day joined by dashes |
| RenameUtil.FormatDateFirstOccurrenceOnly | src/components/rename/util/renameUtil.ts:83-88 | example: the format `YYYY-YYYY` becomes the year followed by `-YYYY`, so only the first occurrence of a token is filled |
| RenameUtil.HasText | src/components/rename/util/renameUtil.ts:20-49 | the truthiness test on text, search and format: present and non-empty |
| RenameUtil.NumberOr | src/components/rename/util/renameUtil.ts:39-41 | `field || d`: a present non-zero field gives its own value, and an absent or zero field gives the default |
| RenameUtil.NumberAt | src/components/rename/util/renameUtil.ts:42 | the first file gets `start`; each later file gets the previous file's number plus `step` |
| RenameUtil.DateText | src/components/rename/util/renameUtil.ts:47-50 | a set, non-empty format is passed to `formatDate`, otherwise `YYYY-MM-DD` is, which gives year, month and day joined by dashes; a format without token letters is used as it is |
| RenameUtil.ApplyRule | src/components/rename/util/renameUtil.ts:18-56 | suffix, numbering and a date not placed in front keep the base whole at the start; prefix and a date placed in front keep it whole at the end |
| RenameUtil.IsActive | src/components/rename/util/renameUtil.ts:8 | a rule takes part exactly when its `active` flag is set |
| RenameUtil.ActiveRules | src/components/rename/util/renameUtil.ts:8 | only active rules remain, the list does not grow, and a list of active rules is kept whole |
| RenameUtil.FoldRules | src/components/rename/util/renameUtil.ts:17-57 | when every rule only appends, the base survives at the front of the result |
| RenameUtil.NumberLabel | src/components/rename/util/renameUtil.ts:38-44 | the label is the number's decimal text preceded by exactly enough zeros to reach `digits` (default 3) characters, never cut; a non-negative `start + i*step` reads back from it |
| RenameUtil.FoldRulesAppend | src/components/rename/util/renameUtil.ts:17-57 | running two rule lists one after the other is running their concatenation |
| RenameUtil.RenameName | src/components/rename/util/renameUtil.ts:10-59 | the new name ends with the extension of the name it came from |
| RenameUtil.ExtensionSurvivesRename | src/components/rename/util/renameUtil.ts:13-14 | a dotted name's extension is still split off the renamed name |
| RenameUtil.PrefixPrependsToName | src/components/rename/util/renameUtil.ts:19-22 | a prefix rule with text puts the text in front of the whole name |
| RenameUtil.SuffixInsertsBeforeExtension | src/components/rename/util/renameUtil.ts:24-27 | a suffix rule with text inserts it just before the extension |
| RenameUtil.SuffixOnDottedName | src/components/rename/util/renameUtil.ts:13-27 | example: suffix `_v2` on `report.final.docx` gives `report.final_v2.docx`, so only the last dot starts the extension |
| RenameUtil.DateBeforeName | src/components/rename/util/renameUtil.ts:51-52 | a date rule whose position is `'prefix'` puts the date and `_` in front of the whole name |
| RenameUtil.DateAfterName | src/components/rename/util/renameUtil.ts:53-54 | a date rule whose position is `'suffix'` or absent puts `_` and the date just before the extension |
| RenameUtil.EmptyTextIsNoOp | src/components/rename/util/renameUtil.ts:19-27 | a prefix or suffix rule whose text is absent or empty, as a cleared text box leaves it, changes no name |
| RenameUtil.EmptySearchIsNoOp | src/components/rename/util/renameUtil.ts:29-36 | a replace rule whose search text is absent or empty changes no name |
| RenameUtil.ReplaceRewritesBase | src/components/rename/util/renameUtil.ts:29-35 | a replace rule rewrites every occurrence in the base, never in the extension; an absent replacement text means the empty text |
| RenameUtil.ReplaceEveryOccurrence | src/components/rename/util/renameUtil.ts:31-34 | example: replacing `foo` with `bar` in `foofoobar` gives `barbarbar`, so every occurrence is rewritten, not just the first |
| RenameUtil.NewFilenames | src/components/rename/util/renameUtil.ts:4-66 | same length and order; in the model only `newName` changes; every new name keeps its old extension |
| RenameUtil.RenamedFile | src/components/rename/util/renameUtil.ts:10-64 | id, name, preview and original file are kept, and the new name ends with the extension of the name before |
| RenameUtil.RenameBatch | src/components/rename/util/renameUtil.ts:10-65 | one record per file, in order, each keeping its id and original file |
| RenameUtil.RenameFile | src/components/rename/util/renameUtil.ts:10-65 | the per-file loop over the active rules computes the file's new name |
| RenameUtil.GenerateNewFilenames | src/components/rename/util/renameUtil.ts:4-66 | the loop over the batch computes `NewFilenames` |
| RenameUtil.InactiveRuleHasNoEffect | src/components/rename/util/renameUtil.ts:8 | an inactive rule anywhere in the list has no effect on the batch |
| RenameUtil.NoActiveRuleKeepsBatch | src/components/rename/util/renameUtil.ts:8-64 | with no active rule, the batch is returned unchanged |
| RenameUtil.NumberingFollowsPosition | src/components/rename/util/renameUtil.ts:38-44 | a numbering rule numbers each file by its position in the batch, before its extension |
| RenameUtil.ZeroNumberingFieldsUseDefaults | src/components/rename/util/renameUtil.ts:39-41 | an explicit `0` start, step or digit count acts as unset: start 1, step 1, three digits |
| RenameUtil.ConfiguredNumbering | src/components/rename/util/renameUtil.ts:39-43 | with a non-zero start, step and digit count, file `i` gets `start + i*step` zero-padded to `digits` |
| RenameUtil.NegativeNumberPadsBeforeSign | src/components/rename/util/renameUtil.ts:43 | example: `-5` padded to three digits is `0-5`, so a negative number is padded in front of its minus sign |
| RenameUtil.DefaultNumberingLabels | src/components/rename/util/renameUtil.ts:39-43 | the default numbering labels the first three files `001`, `002`, `003` |
| RenameUtil.DownloadFiles | src/components/rename/util/renameUtil.ts:91-117 | a single file is saved under its new name; otherwise there is one `renamed.zip` entry per file, in order, named by the new name |
| RuleEditor.AddRule | src/components/rename/renameRules.tsx:20-32 | a new active rule with the kind's defaults is appended and the list before it is unchanged |
| RuleEditor.DefaultConfig | src/components/rename/renameRules.tsx:24-28 | a fresh rule has no text or search; its numbering fields equal the transformer's fallbacks 1, 1 and 3; only a date rule has a format and a position, `YYYY-MM-DD` and `'prefix'` |
| RuleEditor.FreshTextRuleIsNoOp | src/components/rename/renameRules.tsx:24-28 | a fresh prefix, suffix or replace rule changes no name |
| RuleEditor.FreshNumberingRule | src/components/rename/renameRules.tsx:24-25 | a fresh numbering rule appends `_` and the 1-based position padded to three digits |
| RuleEditor.FreshDateRule | src/components/rename/renameRules.tsx:26-27 | a fresh date rule puts `YYYY-MM-DD_` in front of the name |
| RuleEditor.UpdateConfig | src/components/rename/renameRules.tsx:43-49 | the edited field takes the new value and every other field keeps its own |
| RuleEditor.UpdateOne | src/components/rename/renameRules.tsx:36-50 | id and kind are kept; the switch sets `active` only, and a field edit changes that field only |
| RuleEditor.UpdateRule | src/components/rename/renameRules.tsx:34-53 | only rules with the id change; ids, kinds and order are kept; the switch sets `active` only, and a field edit changes that field only |
| RuleEditor.ConfigExtensionality | src/components/rename/file.ts:11-27 | configurations agreeing on every field are equal |
| RuleEditor.UpdateRuleIdempotent | src/components/rename/renameRules.tsx:34-53 | making the same edit twice is making it once |
| RuleEditor.UpdatesCommute | src/components/rename/renameRules.tsx:43-49 | edits of two different fields commute |
| RuleEditor.RemoveRule | src/components/rename/renameRules.tsx:55-57 | no rule with the id remains and the list does not grow |
| RuleEditor.RemoveRuleContents | src/components/rename/renameRules.tsx:55-57 | every rule with another id is kept exactly as often as before |
| RuleEditor.RemoveRuleKeepsOrder | src/components/rename/renameRules.tsx:55-57 | removal keeps the relative order |
| RuleEditor.AddThenRemove | src/components/rename/renameRules.tsx:20-57 | removing a rule just added under a fresh id gives the list back |
| RuleEditor.DeactivateIsRemove | src/components/rename/renameRules.tsx:39-57 | switching a rule off renames a batch exactly as removing it would |
| RuleEditor.IndexOf | src/components/rename/renameRules.tsx:60 | `findIndex`: the first position with the id, or -1 exactly when there is none |
| RuleEditor.AtBoundary | src/components/rename/renameRules.tsx:61-64 | a move is refused when the rule is first and moves up, or is last and moves down |
| RuleEditor.Moved | src/components/rename/renameRules.tsx:59-70 | a move is a permutation of the list |
| RuleEditor.MoveRule | src/components/rename/renameRules.tsx:59-72 | the copy-and-splice yields `Moved`; the list changes exactly when the rule is not already at the end it moves towards |
| RuleEditor.MoveUpThenDown | src/components/rename/renameRules.tsx:59-70 | moving a rule up and then down restores the list |
| RuleEditor.MoveDownThenUp | src/components/rename/renameRules.tsx:59-70 | with distinct ids, moving a rule down and then up restores the list |
| RuleEditor.IsBlankName | src/components/rename/renameRules.tsx:100 | `!presetName.trim()`: the trimmed name is empty |
| RuleEditor.BlankNameIsWhitespace | src/components/rename/renameRules.tsx:100 | a preset name is refused exactly when it is whitespace only |
| RuleEditor.SerializeRules | src/components/rename/renameRules.tsx:102-109 | the preset payload holds the rule list unchanged, in order |
| Intake.FileId | src/components/rename/dropZone.tsx:17 | a file id is `file-` followed by the UUID |
| Intake.FileIdInjective | src/components/rename/dropZone.tsx:17 | different UUIDs give different ids |
| Intake.WrapFile | src/components/rename/dropZone.tsx:13-21 | the record keeps the file's name as its new name, points back to the file, and has id `file-` and the UUID, and the preview URL |
| Intake.WrapDropped | src/components/rename/dropZone.tsx:13-22 | one record per accepted file, in order; it keeps the file's name as the new name, points back to the file, and has a `file-` id and a preview URL |
| Intake.DistinctUuidsGiveDistinctIds | src/components/rename/dropZone.tsx:13-22 | distinct UUIDs give a batch with distinct ids |
| Intake.DroppedFileIsUnrenamed | src/components/rename/dropZone.tsx:19 | a dropped file starts with its own name as its new name |
| Intake.RemoveFile | src/pages/rename.tsx:104-106 | no record with the id remains and the batch does not grow |
| Intake.RemoveFileContents | src/pages/rename.tsx:104-106 | every record with another id is kept exactly as often as before |
| Intake.RemoveUniqueFile | src/pages/rename.tsx:104-106 | with distinct ids, deleting a record's id removes exactly that record |
| RenamePageState.ApplyGate | src/pages/rename.tsx:65-89 | apply proceeds exactly when there are files, rules and at least one credit per file; it is refused, naming the files' count, exactly when credits are short |
| RenamePageState.TypeNames | src/pages/rename.tsx:93 | `rules.map(rule => rule.type)`: each rule's kind label, in list order |
| RenamePageState.RulesReason | src/pages/rename.tsx:93 | the reason is empty exactly when the rule list is empty |
| RenamePageState.RulesReasonListsEveryKind | src/pages/rename.tsx:93 | the history reason splits back into the kinds of all rules, in order |
| RenamePageState.DebitAmount | src/pages/rename.tsx:34 | the amount is a minus sign followed by digits |
| RenamePageState.DebitAmountReadsBack | src/pages/rename.tsx:34 | the history amount reads back as minus the files' count |
| RenamePageState.LedgerRequests | src/pages/rename.tsx:25-62 | without a user nothing is sent; with one, the balance update with the new credits, then a history entry for the same user with the reason |
| RenamePageState.LedgerRequestsAgree | src/pages/rename.tsx:25-62 | the history amount is the change that the balance update makes |
| RenamePageState.Page.constructor | src/pages/rename.tsx:19-23 | empty batch, empty rule list and preset name; balance and download flag from the parent |
| RenamePageState.Page.Commit | src/pages/rename.tsx:64-97 | when refused, nothing changes; otherwise the batch is `NewFilenames`, the balance update then the history entry are sent (with a user), and the download flag is set |
| RenamePageState.Page.ApplyRules | src/pages/rename.tsx:81-97 | the page's rules rename the batch; the reason is their kinds |
| RenamePageState.Page.ApplyPreset | src/pages/rename.tsx:64-79 | the preset's rules rename the batch; the reason is the preset's name |
| RenamePageState.Page.OnDrop | src/components/rename/dropZone.tsx:12-25 | the wrapped files are appended after the batch |
| RenamePageState.Page.HandleDelete | src/pages/rename.tsx:99-102 | the batch is emptied and the download flag cleared |
| RenamePageState.Page.HandleFileDelete | src/pages/rename.tsx:104-106 | the records with the id leave the batch |
| RenamePageState.Page.HandleDownload | src/pages/rename.tsx:108-110 | the export of the current batch |
| RenamePageState.Page.AddRule | src/components/rename/renameRules.tsx:20-32 | the rule list becomes `AddRule` of the old one |
| RenamePageState.Page.UpdateRule | src/components/rename/renameRules.tsx:34-53 | the rule list becomes `UpdateRule` of the old one |
| RenamePageState.Page.RemoveRule | src/components/rename/renameRules.tsx:55-57 | the rule list becomes `RemoveRule` of the old one |
| RenamePageState.Page.MoveRule | src/components/rename/renameRules.tsx:59-73 | the list is reordered; apply runs exactly when the rule moved, and it uses the list from before the move |
| RenamePageState.Page.EditPresetName | src/components/rename/renameRules.tsx:291 | the preset name field holds the typed text |
| RenamePageState.Page.SavePreset | src/components/rename/renameRules.tsx:75-115 | a blank name changes nothing; otherwise the rules are sent (with a user) and the name and rule list are cleared |
| RenamePageState.SavedPresetRenamesAlike | src/components/rename/renameRules.tsx:102-109 | a saved preset, applied, renames a batch like the rule list it came from; this follows directly from `SerializeRules` |

## Left out

- Replacement patterns: the replace rule's replacement text is inserted literally. JavaScript would expand `$&`, `$1` and `$$` in it. `ReplaceAll` does not model these patterns.
- RenameUtil.GenerateNewFilenames: one clock reading (`Clock`) serves the whole batch. The code reads `new Date()` afresh for every date rule and every file, so a batch that straddles midnight could mix two dates. This is not modelled.
- RenameUtil.NumberLabel: a digit count typed past the input's `max` (the field does not enforce it) reaches `padStart` unchanged. When the padded label would exceed the JavaScript engine's maximum string length, `padStart` throws a `RangeError` inside `generateNewFilenames`, before the batch is set or any credit is debited. The model has no string-length limit: it builds the label, and `Page.Commit` renames and debits.
- Number parsing: an unparsable numeric input (`parseInt` gives `NaN`) is modelled as an absent field. Both are falsy where read, so the defaults apply alike. Non-integer numbers, numbers of `1e21` or more, and JavaScript's floating-point range are not modelled.
- Browser and library effects: object URLs, the DOM link click, JSZip's archive encoding and its handling of two entries with the same name are not modelled. `Artifact` lists the entries as given.
- Random values: the UUIDs and preview URLs of dropped files, the random rule ids and the clock are parameters.
- Requests: they are modelled as an ordered log of the requests sent. The asynchronous interleaving of replies is not modelled. Neither are repeated clicks while a request is pending, nor the `used_at` timestamp of history entries. Whether a request succeeds is a parameter only where it changes page state, namely the balance update.
- The server (ledger, preset store, history) is not part of this model. Neither are the `presetSaved` event, the toasts, the show/hide toggle of the preset form, nor the `provider: "local"` field of dropped files.
- RenameUtil.NewFilenames: the model keeps each record's `name`. In the code, the spread `{...file, newName, originalFile}` copies only a `File`'s own properties, and `name` is a getter on its prototype, so after the first apply the record's `name` is undefined. Nothing in this model reads `name` after an apply: the base name comes from `newName`, and the preview reads `originalFile.name`.
- Intake.WrapDropped: the records are built as new values. The code adds the fields to each dropped `File` object in place (`Object.assign`), so a record and its `originalFile` are one object. The model keeps `originalFile` as an equal, separate value.
- Field edits: the rule card writes every field with a value of that field's type. An edit carrying a value of another type is not expressible in `RuleEditor.Update`.
