# Term manager dry run, modelled in Dafny

The term manager module applies taxonomy changes listed in a sheet: create,
delete, rename, move a term under a new parent, and merge terms. Before
anything is written, a dry run replays the sheet against an in-memory copy
of the taxonomy. That copy is a forest of term records keyed by vocabulary
name, term name and tid. The dry run records each row's failure on the row
and goes on with the next one. This project models that engine:

- `Php`: the PHP built-ins the engine relies on, stated over Dafny strings. These are `trim`, `empty`, `explode`/`implode`, the prefix test and the one-character occurrence count.
- `Errors`: the kinds of exception message, and a `Result` type.
- `Item` (TermManagerItem): the property bag, with its check of the `action` property.
- `Terms` (TermManagerDryRunItem): a term record, with its child set and `term_child_count`.
- `Tree` (TermManagerTree): the forest, plus:
  - the raw lookup (`getOriginalTreeItem`);
  - the active lookup (`getTreeItem`), which refuses tombstones (records marked delete, merge or rename);
  - `addTreeItem`, `formatKey` and the machine name.
- `Rules`: the five rules of TermManagerDryRunProcess. Each is a function from the forest before a row to the forest after it and the error the row raised, if any.
- `RuleProperties`: what each rule promises, as lemmas:
  - when it succeeds;
  - what it writes;
  - that a refused row leaves the forest unchanged, except for the writes the source makes before it throws.
- `Operations` (both TermManagerOperationList files): the ordered row list, its error list and its iterator, plus delimiter detection.
- `Process` (TermManagerDryRunProcess): the class whose methods change the shared tree. Each method is proved equal to its rule function. A run over a sheet is the rules applied row by row.
- `DryRun` (src/DryRun/TermManagerDryRun.php): the header-to-column mapping of `execute()`, and its row loop.
- `NodeManager` (TermNodeManager): the checks that decide whether a term is written to a node field, and `updateNode`.
- `Legacy` (src/TermManagerDryRun.php): the older copy of the engine. It is the same engine except for its handling of merge exceptions (see Findings).
- `ParentKeys`: the keys of the array getParents() builds. PHP stores a name that reads as a decimal integer as an integer key, and array_merge() renumbers those keys. This module models moveParent()'s ancestor test as written, compares it with the corrected ancestor test of `Rules`, and gives an input on which they differ (see Findings).

Forest records are values. A PHP object reference is modelled as the place
`Loc(vocabulary key, term key, tid)` where the record sits. The source changes
an object in place; the model writes the record back at its place and reads
it from there again. This keeps the source's aliasing:

- a merge whose source and target are the same record;
- a rename whose copy lands on the original;
- a move to the parent the term already has.

## Model

| member | source | states |
|---|---|---|
| Php.Trim | src/TermManagerTree.php:247-250 | trim() keeps no trim character at either end and never lengthens the string |
| Php.TrimSlice | src/TermManagerTree.php:247-250 | what trim() keeps is a slice of the string, and everything cut off before and after it is a trim character |
| Php.TrimIdempotent | src/TermManagerTree.php:247-250 | a trimmed key trims to itself, so formatKey() of a key is that key |
| Php.TrimLeftDrops | src/TermManagerTree.php:249 | ltrim() removes exactly a prefix of trim characters and keeps the rest |
| Php.Explode | src/DryRun/TermManagerDryRunProcess.php:360 | explode() yields one more piece than separators, none of which holds the separator |
| Php.ImplodeExplode | src/DryRun/TermManagerDryRunProcess.php:360 | joining explode()'s pieces with the separator gives the string back |
| Php.ExplodeImplode | src/DryRun/TermManagerDryRunProcess.php:360 | splitting a joined list of separator-free pieces gives the list back |
| Php.Occurrences | src/DryRun/TermManagerDryRun.php:300-306 | the match count is at most the length, and zero exactly when the character is absent |
| Php.OccurrencesAppend | src/DryRun/TermManagerDryRun.php:305-306 | counts over a concatenation add up |
| Php.OccurrencesImplodeSep | src/DryRun/TermManagerDryRun.php:305-306 | a joined list holds one separator fewer than pieces |
| Php.OccurrencesImplodeOther | src/DryRun/TermManagerDryRun.php:305-306 | any other character occurs in the join as often as in all pieces together |
| Php.ImplodeAbsent | src/DryRun/TermManagerDryRun.php:305-306 | a character absent from all pieces and distinct from the separator is absent from the join |
| Php.TrimAll | src/DryRun/TermManagerDryRunProcess.php:360 | array_map('trim') trims each element and keeps the length |
| Item.ParseAction | src/TermManagerItem.php:32-44 | a parsed action names exactly that string; an unparsed string names no action |
| Item.ParseActionName | src/TermManagerItem.php:32-44 | every allowed action's name parses back to it |
| Item.SetError | src/TermManagerItem.php:28-55 | `__set` throws exactly for the key `action` with a value outside the six allowed ones, and the error quotes the value |
| Item.PropertyBag.constructor | src/TermManagerItem.php:11 | a new bag holds no key |
| Item.PropertyBag.Set | src/TermManagerItem.php:28-55 | the value is stored even when invalid; the error is returned for an invalid action; nothing else changes |
| Item.PropertyBag.Get | src/TermManagerItem.php:65-69 | a stored key reads its value; an unset key reads null |
| Item.PropertyBag.Unset | src/TermManagerItem.php:86-88 | only that key is removed |
| Terms.AddChild | src/TermManagerDryRunItem.php:17-20 | the id joins the child set; the count is the new set's size; nothing else changes |
| Terms.RemoveChild | src/TermManagerDryRunItem.php:25-28 | only that id leaves the child set; the count follows; nothing else changes |
| Terms.SnapshotTerm | src/TermManagerTree.php:139-169 | a seeded record has no action, no lock, and counts its children |
| Terms.AddChildIdempotent | src/TermManagerDryRunItem.php:17-20 | adding the same child twice is adding it once |
| Terms.RemoveAbsentChild | src/TermManagerDryRunItem.php:25-28 | removing an id that is not a child changes nothing |
| Terms.AddThenRemoveChild | src/TermManagerDryRunItem.php:17-28 | adding a new child and removing it restores the record |
| Terms.IsParentByCount | src/TermManagerDryRunItem.php:33-35 | isParent() holds exactly when the kept count is positive |
| Terms.AddChildCount | src/TermManagerDryRunItem.php:17-20 | a new child raises the count by exactly one |
| Tree.FormatKey | src/TermManagerTree.php:247-250 | a key neither starts nor ends with a trim character and is no longer than the name |
| Tree.FormatKeySlice | src/TermManagerTree.php:247-250 | a key is the name with only trim characters cut off at its two ends, and a key is its own key |
| Tree.TidsAfterPut | src/TermManagerTree.php:233-239 | storing a record adds its tid to its own key and to no other key |
| Tree.WithItem | src/TermManagerTree.php:233-239 | addTreeItem() stores the record at its trimmed names and tid, replacing only a record with that same tid |
| Tree.WithItemOther | src/TermManagerTree.php:233-239 | every other place is left as it was |
| Tree.GetOriginalTreeItem | src/TermManagerTree.php:54-85 | empty key: nothing and no error. Non-empty tid: that record, or InvalidTid if the key lacks it. No tid: the single record, or Duplicated if there are several |
| Tree.GetTreeItem | src/TermManagerTree.php:98-134 | the raw lookup's record unless it is a tombstone (refused with the reason) or absent (NotFound); the raw lookup's errors pass through |
| Tree.LookupFrame | src/TermManagerTree.php:54-134 | a write outside the looked-up key leaves both lookups unchanged |
| Tree.RawLookupStable | src/TermManagerTree.php:54-85 | rewriting a held record leaves every raw lookup unchanged |
| Tree.FindAfterStore | src/TermManagerTree.php:54-85 | a stored active record is found afterwards by name (alone at its key) or by its tid |
| Tree.RawLookupSameKeys | src/TermManagerTree.php:54-85 | raw lookups depend only on the places of the forest |
| Tree.ActiveLookupStable | src/TermManagerTree.php:98-134 | rewriting a record without changing what the active lookup reads leaves every active lookup unchanged |
| Tree.SameViewLookups | src/TermManagerTree.php:98-134 | forests with the same places and lookup view give the same active lookups |
| Tree.PutKeepsInvariants | src/TermManagerTree.php:233-239 | a write keeps records at their own keys and child counts exact |
| Tree.BuildForestWellKeyed | src/TermManagerTree.php:139-169 | after seeding, every record sits at its own key and comes from the snapshot |
| Tree.BuildForestFinds | src/TermManagerTree.php:139-169 | a snapshot record is found at its key unless a later record has the same key |
| Tree.MachineName | src/TermManagerTree.php:258-260 | the machine name contains only `[a-z0-9_]` and is never longer than the name |
| Tree.ReplaceNonWordRuns | src/TermManagerTree.php:259 | the replacement keeps only word characters and `_` |
| Tree.ReplaceWordsOnly | src/TermManagerTree.php:259 | a name of word characters passes unchanged |
| Tree.ReplaceRun | src/TermManagerTree.php:259 | a run of other characters becomes a single `_` |
| Tree.MachineNameIdempotent | src/TermManagerTree.php:258-260 | a machine name is its own machine name |
| Tree.TermTree.constructor | src/TermManagerTree.php:139-169 | the tree holds the forest built from the snapshot |
| Tree.TermTree.AddTreeItem | src/TermManagerTree.php:233-239 | the tree becomes WithItem of the old tree |
| Tree.TermTree.Update | src/DryRun/TermManagerDryRunProcess.php:124-302 | a property write changes only the record at that place |
| Rules.AllowedFields | src/TermManagerTree.php:297-319 | the allowed fields are exactly the taxonomy fields that accept the vid |
| Rules.AllowedFieldsSnoc | src/TermManagerTree.php:310-316 | each loop pass appends the field exactly when it accepts the vid |
| Rules.GetVocabularyAllowedFields | src/TermManagerTree.php:297-319 | the loop yields the allowed fields, in storage order |
| Rules.NewTerm | src/DryRun/TermManagerDryRunProcess.php:250-256 | the created record has action create, no tid and no children |
| Rules.Unlink | src/DryRun/TermManagerDryRunProcess.php:380-393 | either the parent lookup's error with the forest unchanged, or the same places with the id removed from that parent |
| Rules.DetachAndMark | src/DryRun/TermManagerDryRunProcess.php:207-219 | moveParent's tail keeps the places of the forest |
| Rules.FirstDisallowedField | src/DryRun/TermManagerDryRunProcess.php:359-372 | the error names a field that refuses the vid and quotes the allowed fields; with no error, every field accepts the vid |
| Rules.FirstDisallowedAt | src/DryRun/TermManagerDryRunProcess.php:361-372 | the reported field is the first one that refuses the vocabulary |
| Rules.CountsMoved | src/DryRun/TermManagerDryRunProcess.php:376-377 | the target gets the source's node count and the source keeps none |
| Rules.MarkMerged | src/DryRun/TermManagerDryRunProcess.php:396-405 | the source is marked merged with the target's data, then the target is locked |
| Rules.MergeWrites | src/DryRun/TermManagerDryRunProcess.php:376-405 | merge's writes keep the places of the forest |
| RuleProperties.CreateSucceedsIff | src/DryRun/TermManagerDryRunProcess.php:231-265 | create succeeds exactly when the key holds no record, the named parent is active and the vocabulary has a vid |
| RuleProperties.CreateParentFound | src/DryRun/TermManagerDryRunProcess.php:260-263 | the second parent lookup finds what the first one found |
| RuleProperties.CreateFailsUnchanged | src/DryRun/TermManagerDryRunProcess.php:231-249 | a refused create changes nothing |
| RuleProperties.CreateResult | src/DryRun/TermManagerDryRunProcess.php:250-264 | one new record with action create; the parent gains the name as a child; nothing else changes |
| RuleProperties.CreateThenFind | src/DryRun/TermManagerDryRunProcess.php:257 | the created term is found by name by later rows |
| RuleProperties.DeleteSucceedsIff | src/DryRun/TermManagerDryRunProcess.php:276-302 | delete succeeds exactly when the term is active, unlocked and childless, and its named parent is active |
| RuleProperties.DeleteFailsUnchanged | src/DryRun/TermManagerDryRunProcess.php:276-292 | a refused delete changes nothing |
| RuleProperties.DeleteResult | src/DryRun/TermManagerDryRunProcess.php:290-301 | the record stays, marked delete; the parent loses its tid, or its name without a tid; nothing else changes |
| RuleProperties.DeleteThenRefused | src/TermManagerTree.php:98-134 | after a delete the raw lookup finds the record and the active lookup refuses it |
| RuleProperties.RenameSucceedsIff | src/DryRun/TermManagerDryRunProcess.php:124-146 | rename succeeds exactly when the trimmed name is non-empty, the term is active, and the new name is free or is the term itself under a changed name |
| RuleProperties.RenameFailsUnchanged | src/DryRun/TermManagerDryRunProcess.php:124-146 | a refused rename changes nothing |
| RuleProperties.RenameResult | src/DryRun/TermManagerDryRunProcess.php:148-158 | a copy with the new name and the same tid is stored; the original, unless the copy replaced it, is marked rename with the new name; nothing else changes |
| RuleProperties.RenameForest | src/DryRun/TermManagerDryRunProcess.php:148-158 | the forest after a rename is the copy stored over the marked original |
| RuleProperties.RenameThenOldRefused | src/TermManagerTree.php:98-134 | after a rename to another key the old name is refused as renamed |
| RuleProperties.RenameThenNewFound | src/DryRun/TermManagerDryRunProcess.php:154 | after a rename to another key the new name finds the copy |
| RuleProperties.DetachAndMarkResult | src/DryRun/TermManagerDryRunProcess.php:207-219 | the current parent loses the tid; the term records the new parent and the action; nothing else changes |
| RuleProperties.MoveParentFailure | src/DryRun/TermManagerDryRunProcess.php:172-212 | a move refused before its first write changes nothing; a failed unlink keeps the new parent's added child |
| RuleProperties.MoveParentResult | src/DryRun/TermManagerDryRunProcess.php:172-220 | the target gains the tid, the old parent loses it, and the term records the target as parent, with action move parent |
| RuleProperties.AddChildThenDetach | src/DryRun/TermManagerDryRunProcess.php:204-219 | a move's writes, stated against the forest before the target gained the child |
| RuleProperties.MoveParentUnderTarget | src/DryRun/TermManagerDryRunProcess.php:184-205 | the target is another record, and the move is the unlinking tail after the target gains the child |
| RuleProperties.MoveParentNoTargetResult | src/DryRun/TermManagerDryRunProcess.php:207-219 | a move without a target unlinks the term and keeps its parent fields |
| RuleProperties.MoveParentMarks | src/DryRun/TermManagerDryRunProcess.php:219 | a successful move keeps the places and marks the term move parent |
| RuleProperties.MoveParentOnce | src/DryRun/TermManagerDryRunProcess.php:175-181 | a term moved once is refused by a later move |
| RuleProperties.ParentNamesMonotone | src/DryRun/TermManagerDryRunProcess.php:415-426 | a longer walk up the parents finds every name a shorter one finds |
| RuleProperties.MoveUnderDescendantRefused | src/DryRun/TermManagerDryRunProcess.php:193-201 | a move under a record whose parent chain reaches the term is refused |
| RuleProperties.MoveUnderChildRefused | src/DryRun/TermManagerDryRunProcess.php:193-201 | a term cannot be moved under its own child |
| ParentKeys.MergeKeys | src/DryRun/TermManagerDryRunProcess.php:419-420 | storing a parent and merging the parents above it: a name that reads as an integer adds one renumbered integer key, any other name joins the string keys |
| ParentKeys.ParentKeysNames | src/DryRun/TermManagerDryRunProcess.php:415-426 | the string keys of getParents()'s array are exactly the parent names that do not read as integers, with at most one integer key per step of the walk |
| ParentKeys.IsSetInNames | src/DryRun/TermManagerDryRunProcess.php:196 | for a name that does not read as an integer, isset() on getParents()'s array holds exactly when the name is among the parent names |
| ParentKeys.AsWrittenAgrees | src/DryRun/TermManagerDryRunProcess.php:193-201 | the ancestor test as written and the corrected ancestor test part only when the name of the term to move reads as an integer |
| ParentKeys.AsWrittenUnderDescendantRefused | src/DryRun/TermManagerDryRunProcess.php:193-201 | the ancestor test as written refuses a move under a record whose parent chain reaches the term, when the term's name does not read as an integer |
| ParentKeys.YearIsIntegerKey | src/DryRun/TermManagerDryRunProcess.php:419 | PHP stores the name "2020" as the integer key 2020 |
| ParentKeys.NewsParents | src/DryRun/TermManagerDryRunProcess.php:415-426 | with Tags > News under Tags > 2020, the walk from News finds the name 2020, and PHP's array holds it under key 0 |
| ParentKeys.IntegerNameRefused | src/DryRun/TermManagerDryRunProcess.php:193-201 | the corrected ancestor test refuses moving 2020 under its child News and changes nothing |
| ParentKeys.IntegerNameCycle | src/DryRun/TermManagerDryRunProcess.php:193-201 | the ancestor test as written lets 2020 move under its child News, after which each names the other as its parent |
| RuleProperties.MergeRefused | src/DryRun/TermManagerDryRunProcess.php:317-373 | merge stops at the first failing check without changing anything |
| RuleProperties.MergeProceeds | src/DryRun/TermManagerDryRunProcess.php:317-406 | when every check passes, merge makes its writes on the source and target it found |
| RuleProperties.CountsMovedLookups | src/DryRun/TermManagerDryRunProcess.php:376-377 | moving node counts changes nothing a lookup reads |
| RuleProperties.CountsMovedParent | src/DryRun/TermManagerDryRunProcess.php:376-380 | moving node counts leaves the source's parent as it was |
| RuleProperties.MergeWritesOutcome | src/DryRun/TermManagerDryRunProcess.php:376-393 | the writes fail only when the named parent is refused, and the counts stay moved |
| RuleProperties.MergeWritesKeepNodes | src/DryRun/TermManagerDryRunProcess.php:376-377 | merging distinct records keeps the sum of their node counts and leaves every other count unchanged |
| RuleProperties.MergeWritesResult | src/DryRun/TermManagerDryRunProcess.php:376-405 | the source is marked merge, has no nodes and carries the target's data; the target holds both counts and is locked; the parent loses the source |
| RuleProperties.MergeWritesAlias | src/DryRun/TermManagerDryRunProcess.php:319-321 | a merge whose two names reach the same record zeroes its count, marks it merged into itself and locks it |
| RuleProperties.MergeSucceedsIff | src/DryRun/TermManagerDryRunProcess.php:317-406 | merge succeeds exactly when every check passes and the named parent is active |
| RuleProperties.MergeFailure | src/DryRun/TermManagerDryRunProcess.php:317-393 | a refused merge changes nothing, except that a failed unlink leaves the counts moved |
| RuleProperties.MergeWritesMarks | src/DryRun/TermManagerDryRunProcess.php:396-405 | later rows see the source marked merged and the target locked |
| RuleProperties.MergeThenLocked | src/DryRun/TermManagerDryRunProcess.php:434-441 | after a merge the source is refused as merged, and the locked target can be neither deleted nor merged away |
| RuleProperties.CrossVocabularyOneField | src/DryRun/TermManagerDryRunProcess.php:347-373 | with one field, a cross-vocabulary merge passes exactly when the trimmed field accepts the vocabulary |
| RuleProperties.CrossVocabularyFieldList | src/DryRun/TermManagerDryRunProcess.php:359-372 | a comma list is checked name by name; the error is the first refusing name, quoting the allowed fields |
| Operations.Operation.Get | src/TermManagerItem.php:65-69 | an unset column reads as null (empty) |
| Operations.Operation.Assign | src/TermManagerItem.php:28-55 | a column assignment stores the value, and sets the error exactly when an invalid action is assigned |
| Operations.EntryFor | src/Operations/TermManagerOperationList.php:39-48 | one error entry exactly when the row has an error |
| Operations.ErrorEntries | src/Operations/TermManagerOperationList.php:39-48 | the error list holds at most one entry per row |
| Operations.Failed | src/Operations/TermManagerOperationList.php:39-48 | the failed rows are the rows with an error, in order |
| Operations.ErrorEntriesAreFailedRows | src/Operations/TermManagerOperationList.php:39-62 | the error list pairs with the failed rows, one entry each, in order, naming the row and its error |
| Operations.NoErrorsNoEntries | src/Operations/TermManagerOperationList.php:39-48 | with no failed row the error list is empty |
| Operations.OperationList.constructor | src/Operations/TermManagerOperationList.php:31-33 | a new list is empty and at position 0 |
| Operations.OperationList.Add | src/Operations/TermManagerOperationList.php:39-48 | the row is always appended; an entry is appended exactly when the row has an error; the error list keeps matching the rows |
| Operations.OperationList.GetItems | src/Operations/TermManagerOperationList.php:53-55 | the rows in insertion order |
| Operations.OperationList.GetErrorList | src/Operations/TermManagerOperationList.php:60-62 | the entries in recording order |
| Operations.OperationList.Count | src/Operations/TermManagerOperationList.php:102-104 | the number of rows added |
| Operations.OperationList.Rewind | src/Operations/TermManagerOperationList.php:67-69 | the position returns to 0 and nothing else changes |
| Operations.OperationList.Current | src/Operations/TermManagerOperationList.php:74-76 | the row at the position, or null past the end |
| Operations.OperationList.Next | src/Operations/TermManagerOperationList.php:88-90 | the position advances by one and nothing else changes |
| Operations.OperationList.Iterate | src/TermManagerOperationList.php:114-151 | a foreach visits every row once, in order, at keys 0..count()-1, and leaves the position at count() |
| Operations.MaxCount | src/Operations/TermManagerOperationList.php:114-134 | the largest occurrence count of any candidate |
| Operations.FirstMax | src/Operations/TermManagerOperationList.php:114-134 | the first candidate that reaches the largest count |
| Operations.ScanPicksFirstMax | src/Operations/TermManagerOperationList.php:119-131 | the strict running maximum picks the first largest candidate when it beats the start and the row count |
| Operations.DetectDelimiterChoice | src/DryRun/TermManagerDryRun.php:298-319 | the default is kept unless some candidate occurs more often than there are newlines; then the first candidate with the largest count wins |
| Operations.DetectDelimiter | src/TermManagerDryRun.php:837-858 | the loop returns the specified choice |
| Operations.FixtureCommas | tests/src/Unit/TermManagerTestBase.php:38 | the test sheet holds nine commas |
| Operations.FixtureSpaces | tests/src/Unit/TermManagerTestBase.php:38 | the test sheet holds four spaces |
| Operations.FixtureDelimiter | tests/src/Unit/TermManagerTest.php:71 | on the test sheet the comma is detected |
| Process.RunWithSnoc | src/DryRun/TermManagerDryRun.php:110-129 | running one more row applies the step to the forest the earlier rows left |
| Process.PostStepIds | src/DryRun/TermManagerDryRunProcess.php:92-106 | the row takes tid, vid, target_vid and parent_tid from its record, and target_tid only when empty; a lookup error replaces the row's error |
| Process.RowError | src/DryRun/TermManagerDryRunProcess.php:43-106 | the recorded error is the post-step's, else the rule's, else the row's own |
| Process.NoRuleNoChange | src/DryRun/TermManagerDryRunProcess.php:43-88 | a row whose action names no rule leaves the forest unchanged |
| Process.RuleKeepsRecords | src/DryRun/TermManagerDryRunProcess.php:43-88 | no rule removes a record |
| Process.RunKeepsRecords | src/DryRun/TermManagerDryRunProcess.php:42-110 | no run removes a record |
| Process.RunWithRowAt | src/DryRun/TermManagerDryRunProcess.php:109 | row i of a run is the step applied to row i against the forest the earlier rows left |
| Process.RunRowAt | src/DryRun/TermManagerDryRunProcess.php:42-110 | every row is recorded, in order, as processed against the forest the earlier rows left |
| Process.RunKeepsSheetColumns | src/DryRun/TermManagerDryRunProcess.php:92-106 | a recorded row keeps every sheet column except the ids it takes |
| Process.DryRunProcess.constructor | src/DryRun/TermManagerDryRunProcess.php:34-37 | the process starts with an empty operation list |
| Process.DryRunProcess.Rename | src/DryRun/TermManagerDryRunProcess.php:124-159 | the method's tree and error are RenameRule's |
| Process.DryRunProcess.Create | src/DryRun/TermManagerDryRunProcess.php:231-265 | the method's tree and error are CreateRule's |
| Process.DryRunProcess.Delete | src/DryRun/TermManagerDryRunProcess.php:276-302 | the method's tree and error are DeleteRule's |
| Process.DryRunProcess.MoveParent | src/DryRun/TermManagerDryRunProcess.php:172-220 | the method's tree and error are MoveParentRule's |
| Process.DryRunProcess.Detach | src/DryRun/TermManagerDryRunProcess.php:207-219 | the tail's tree and error are DetachAndMark's |
| Process.DryRunProcess.CheckTargetFields | src/DryRun/TermManagerDryRunProcess.php:347-373 | the loop returns the cross-vocabulary error |
| Process.DryRunProcess.Merge | src/DryRun/TermManagerDryRunProcess.php:317-406 | the method's tree and error are MergeRule's |
| Process.DryRunProcess.MergeInto | src/DryRun/TermManagerDryRunProcess.php:376-405 | the writes' tree and error are MergeWrites' |
| Process.DryRunProcess.UnlinkFrom | src/DryRun/TermManagerDryRunProcess.php:380-393 | either the lookup error with the tree unchanged, or Unlink's forest |
| Process.DryRunProcess.MarkMergedInto | src/DryRun/TermManagerDryRunProcess.php:396-405 | the tree becomes MarkMerged of the old tree |
| Process.DryRunProcess.ProcessOperation | src/DryRun/TermManagerDryRunProcess.php:42-110 | the tree, the appended row and the appended error entry are ProcessStep's; the error list keeps matching the rows |
| Process.DryRunProcess.ProcessNext | src/DryRun/TermManagerDryRun.php:125-128 | processing a row extends the run by that row |
| Process.DryRunProcess.ApplyRule | src/DryRun/TermManagerDryRunProcess.php:43-88 | the switch's tree and error are RuleFor's |
| Process.DryRunProcess.TakeIds | src/DryRun/TermManagerDryRunProcess.php:92-106 | the row after the post-step is PostStep's |
| DryRun.FlipLast | src/DryRun/TermManagerDryRun.php:108 | array_flip keeps every header name, mapped to the index of its last occurrence |
| DryRun.RowColumns | src/DryRun/TermManagerDryRun.php:114-124 | exactly the default columns named by the header are set, each to its trimmed cell or "" for a short row |
| DryRun.RowError | src/DryRun/TermManagerDryRun.php:117-122 | the row's error is set exactly when the action cell is not allowed, and quotes it |
| DryRun.RowAction | src/DryRun/TermManagerDryRun.php:114-124 | the action handed on is the trimmed cell under the last "action" header, or "" without one |
| DryRun.ZeroActionDropped | src/DryRun/TermManagerDryRun.php:125-128 | an action cell of "0" is invalid, yet reads as empty, so the row is dropped unrecorded |
| DryRun.ProcessedSnoc | src/DryRun/TermManagerDryRun.php:125-128 | a row reaches processOperation() exactly when its action is not empty |
| DryRun.RunProcessedSnoc | src/DryRun/TermManagerDryRun.php:110-129 | one more sheet row extends the run only when its action is not empty |
| DryRun.DryRun.constructor | src/DryRun/TermManagerDryRun.php:74-85 | the dry run holds its process |
| DryRun.DryRun.MapRow | src/DryRun/TermManagerDryRun.php:112-124 | the column loop builds the row the mapping specifies |
| DryRun.DryRun.Execute | src/DryRun/TermManagerDryRun.php:94-141 | the tree and the operation list become those of running the rows with an action, in order; the error list keeps matching |
| DryRun.DryRun.ExecuteRow | src/DryRun/TermManagerDryRun.php:110-129 | one pass of the row loop extends the run by the row's processed part |
| NodeManager.NodeFieldNamePrefix | src/TermNodeManager.php:152-154 | checkNodeFieldName holds exactly when the needle is the string's prefix |
| NodeManager.NodeFieldNameExamples | tests/src/Unit/TermManagerTest.php:48-49 | "field_primary_category" starts with "field"; "primary_category" does not |
| NodeManager.FieldString | src/TermNodeManager.php:118 | an empty field reads ""; a one-value field reads its value |
| NodeManager.Node.constructor | src/TermNodeManager.php:60-63 | a node holds its field values and has not been saved |
| NodeManager.Node.SetAndSave | src/TermNodeManager.php:68-69 | the field holds exactly the term, and the node is saved once |
| NodeManager.Node.AppendAndSave | src/TermNodeManager.php:77-78 | the term is appended to the field, and the node is saved once |
| NodeManager.TermNodeManager.constructor | src/TermNodeManager.php:38-55 | the manager holds the cardinality of every taxonomy reference field, as getFieldSettings() reads it |
| NodeManager.TermNodeManager.CheckExistingTermInField | src/TermNodeManager.php:91-106 | true exactly when the node has the field and the tid is among its target ids |
| NodeManager.TermNodeManager.CheckPrimaryEntityFields | src/TermNodeManager.php:111-125 | true exactly when some listed field starts with "field", is a single-value taxonomy field, and holds a non-empty value equal to the tid |
| NodeManager.TermNodeManager.UpdateNode | src/TermNodeManager.php:60-86 | the result and the new values are Update's, and the node is saved exactly when it was written |
| NodeManager.UpdateTouchesOnlyField | src/TermNodeManager.php:64-85 | without the field or a resolved term nothing changes; a write changes only that field, which then holds the term |
| NodeManager.UpdateWrites | src/TermNodeManager.php:67-81 | single-value: always written with exactly the term. Multiple-value: written exactly when the term is in neither the field nor a primary field, and then appended |
| NodeManager.UpdateOnceMulti | src/TermNodeManager.php:73-81 | a second update of a multiple-value field with the same term writes nothing |
| NodeManager.FunctionalTestUpdates | tests/src/Functional/TermManagerTest.php:63-72 | with cat1 in the primary field: cat1 is refused for field_categories and cat2 is appended |
| Legacy.LegacyAgreesWith | src/TermManagerDryRun.php:92-141 | a run that nothing ended equals the run without the escape |
| Legacy.LegacyStopsWith | src/TermManagerDryRun.php:92-141 | a run an escape ended holds exactly the rows before the escaping one |
| Legacy.LegacyAgrees | src/TermManagerDryRun.php:626-694 | with no failing merge, the legacy engine does exactly what the process does |
| Legacy.LegacyStops | src/TermManagerDryRun.php:626-634 | when a merge throws, exactly the earlier rows are recorded, and the next row is a merge whose rule failed with that error |
| Legacy.SelfMergeEndsLegacyRun | src/TermManagerDryRun.php:626-634 | a sheet opening with a self-merge: the legacy engine records nothing, the process records every row |
| Legacy.SelfMergeRowLost | src/TermManagerDryRun.php:365-369 | the concrete self-merge row is lost by the legacy engine and recorded by the process |
| Legacy.LegacyDryRun.constructor | src/TermManagerDryRun.php:45-49 | the legacy dry run holds its process |
| Legacy.LegacyDryRun.ProcessOperation | src/TermManagerDryRun.php:626-694 | a failing merge escapes with the rule's forest and no row added; otherwise as the process's processOperation() |

## Left out

- Reading the file is left out: fopen/fgetcsv, the 1000-byte line limit and line-ending detection. `Execute` receives the header and the data rows already split. The delimiter is detected by `DetectDelimiter` on a text given to it.
- Seeding the tree from SQL (buildTermTree's query, the export query) is left out. The snapshot is an input list of records. The child ids the query would parse are given on each record.
- Vocabulary lookups and field allow-lists come from Drupal storage with drupal_static caching. They are the functions of `Rules.Env`: vid by name, allowed vids by field, and the taxonomy fields in storage order.
- Message texts (t() with placeholders) are left out. An error is its kind, plus the data the message names.
- PHP's loose `==` is modelled as string equality. Numeric strings such as "5" and "05" compare equal in PHP but not here. This applies to tids, names, and in_array in checkExistingTermInField.
- Process.DryRunProcess.MoveParent: getParents() recurses with no bound, so on a parent cycle (which the ancestor test as written can create, see `ParentKeys.IntegerNameCycle`) it never returns. The model's walk (`Rules.Ancestors`) stops after as many steps as the forest has records and returns the names met so far. The method also states the corrected ancestor test, not the ancestor test as written (see Findings).
- Rules.MoveParentRule: tests whether the term's name is among the target's parent names (`Rules.Ancestors`). The source tests isset() on getParents()'s array, whose integer-like keys are renumbered. That ancestor test as written is `ParentKeys.MoveParentRuleAsWritten`, and `ParentKeys.AsWrittenAgrees` bounds where the two differ.
- RuleProperties.MoveParentResult: states the writes of a move that the corrected ancestor test lets through. The source's test also lets through some moves under a descendant when the term's name reads as an integer, and some moves it refuses are accepted here (see Findings).
- RuleProperties.MoveUnderDescendantRefused: proved of the corrected ancestor test. The ancestor test as written refuses such a move only when the term's name does not read as an integer (`ParentKeys.AsWrittenUnderDescendantRefused`); for a name such as "2020" it can let the move through (`ParentKeys.IntegerNameCycle`).
- RuleProperties.MoveUnderChildRefused: proved of the corrected ancestor test, with the same gap: the source can move a term named like an integer under its own child.
- TermManagerOperationItem is not part of this model. Rows are taken to be TermManagerItem property bags, which validate only `action`.
- `execute()` in src/DryRun/TermManagerDryRun.php ends by reporting errors from its own operation list. Nothing ever fills that list, so the report is left out. The rows go to the process's list.
- The report CSV (outputCSV, report naming, the excluded-action filter) is left out.
- The batch and queue framework, the forms, the export controller and the UI are left out.
- The TermManager/TermsNodeManager entity wrappers and getFieldSettings() storage lookups are left out. Field cardinalities are the `settings` map of `NodeManager.TermNodeManager`.
- getTermFromNodeField() resolves a term from storage; its outcome is the `resolved` parameter of `UpdateNode`. checkNodeStatus() loads a node from storage and is left out.
- NodeManager.TermNodeManager.CheckPrimaryEntityFields: the listed fields are taken to be fields of the node, as the bundle's field definitions are. Reading a missing field, which Drupal would refuse, is not modelled.
- NodeManager.FieldString: getString() joins target ids with ", ". The model states only the empty and one-value cases.
- Node saves are counted (`saves`); persisting a node is left out.
- The legacy engine's create, delete, rename, move parent, lookups, post-step, default columns and delimiter detection are the same as the refactored ones, apart from the names of the storage helpers, and are modelled once. Only its merge exception handling is modelled separately, in `Legacy`.

## Findings

| source | as written | input that shows it | evidently intended | confidence | as-written member | corrected member |
|---|---|---|---|---|---|---|
| src/TermManagerDryRun.php:632 | the merge branch catches the unqualified `Exception`, which inside namespace Drupal\dennis_term_manager names a class that does not exist; the cross-vocabulary checks at :400 and :414 throw the unqualified `ErrorException`, which does not exist either; so a failing merge leaves processOperation() and execute(), and that row and every later row are never recorded | a sheet whose first row is `merge` of Tags > News into Tags > News (a self-merge) | record the merge's failure on the row and go on, as every other rule does and as src/DryRun/TermManagerDryRunProcess.php does with `\Exception` | not executed | Legacy.SelfMergeRowLost | Process.RunRowAt |
| src/DryRun/TermManagerDryRunProcess.php:415-426 | getParents() stores each parent under its name and array_merge()s the parents above it; a name that reads as a decimal integer becomes an integer key, and array_merge() renumbers integer keys from 0, so the isset($parents[$term->term_name]) test at :196 looks for a position, not a name (the legacy copy at src/TermManagerDryRun.php:258-270 and :226 is the same) | Tags > 2020 is a root and Tags > News sits under it; a move-parent row puts 2020 under News: getParents(News) is [0 => 2020], isset($parents["2020"]) is false, and the move goes through, leaving a parent cycle on which later getParents() calls never return | refuse a move under a record whose parent chain reaches the term, whatever the term's name | not executed | ParentKeys.IntegerNameCycle | ParentKeys.IntegerNameRefused |
