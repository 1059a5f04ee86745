# clongbox core in Dafny

This project models the core of clongbox, an editor for constructed languages. It covers:

- **The symbol inventory.** A `Language` holds phonemes and groups in two keyed arenas (slot maps). Each group owns a set of phoneme keys.
- **Import.** A document is imported in two steps. A regex pass collects category lines, rewrite rules, sound changes and lexicon lines. A tokenizer then turns each category into a group of phonemes, and the phonemes are deduplicated into the inventory.
- **Deferred-deletion iterators.** These hand out one item at a time. A deletion requested on the item handed out last is applied at the next step.
- **The focus.** A target names where a dragged element may go, and a buffer holds the element itself.
- **Editing.** The rule-field editor inserts and removes elements of a sound change. The sound-change list tool adds, deletes and reorders rules. The phoneme editor keeps its set of groups in step with the inventory.
- **Smaller types.** The selection, syllable and status-line types.

The code is mostly imperative, so the model is imperative too:

- `Language`, the iterators, `Focus`, the rule field, the sound-change list, the phoneme editor, the selection and the status cell are classes. Their methods state the new value of every field they may change, including the key allocators.
- Pure code is functions and lemmas: group names, the tokenizer, the import folds, the focus validity table and syllables.
- Loops of the source are `while` loops with invariants, each proved against a specification function:
  - the rewrite-source mask and the character walk of `LanguageRaw::parse`;
  - phoneme deduplication;
  - `collect_matches`;
  - the compile-and-partition loop;
  - the element walk of the rule-field editor;
  - `get_groups`;
  - the chip loop of the phoneme editor.

Modelling choices:

- **Keys.** Slot-map keys are naturals from a monotone allocator, so a key is never reused while it could still be referred to. Arena order is ascending key order.
- **`Language.Valid`.** It says that every member key of every group is a live phoneme. Every operation of `Language` preserves it.
- **Deletion iterators.** A deletion through `PhonemesMut` backed by the language cascades through the groups. The bare slot-map variant does not (Finding 3).
- **Regexes and parsers.** Regular expressions, `Phoneme::parse` and `SoundChange::parse` are not modelled. Their matches or verdicts are parameters.
- **`BiHashMap`.** The rewrite-rule bimap is a sequence of pairs with unique left sides and unique right sides. Inserting a pair evicts every pair that shares a side with it.
- **UI ids.** Interface ids (`egui::Id`) are naturals. The id of an addition point is identified with its focus target.
- **Representative phonemes in rules.** A rule compiled by `SoundChange::parse` may hold a representative phoneme in any field, so the rule editor's invariant allows that. Only the editor's own insertions are restricted: the focus lets a representative phoneme into Replacement only (`InsertAddsNoRep`, `NestedInsertAddsNoRep`).

The model follows the code, with four exceptions. These are the defects under "## Findings". Each has an as-written member, and the rest of the model uses the corrected behaviour:

- `LanguageImport.Parse` runs the corrected character walk (Finding 1).
- `RuleEditor.RuleField.NestedWalk` keeps the boundary flag up to date (Finding 2).
- `Inventory.PhonemesMut.Next` cascades a deletion through the groups for every walk (Finding 3).
- `DocumentImport.InitFromMatches` runs the corrected category push (Finding 4).

Where the source and its description disagree, the model follows the code:

- `focus.rs` has no `PhonemeEditorSelect`/`PhonemeEditorGroups` targets. It also has no `take`/`needs` methods, which `phoneme_editor.rs` and `sc_editor.rs` call. The focus is modelled as `focus.rs` defines it. The other files' uses of it become parameters (`taken` in `PhonemeEditor.Show`).
- `focus.rs` spells the phoneme buffer with a `rep: bool`, while its users spell it with a `PhonemeSrc`. The model uses the source (`src`). `rep == true` corresponds to `Rep`.
- Nothing in `phoneme_editor.rs` ever sets `rm` to true. Its removal branch is modelled as written.

## Model

| member | source | states |
|---|---|---|
| GroupNames.Display | src/types/group.rs:16-24 | a full name displays as `name (a)`, a bare abbreviation as the single character |
| GroupNames.DisplayInjective | src/types/group.rs:16-24 | two names with the same display form are the same name |
| GroupNames.Matches | src/types/group.rs:27-35 | a full name matches text starting with the name or the abbreviation; an abbreviation matches text whose first character it is |
| GroupNames.MatchesPrefixMonotone | src/types/group.rs:27-35 | extending matched text keeps the match |
| GroupNames.MatchesOwnDisplay | src/types/group.rs:16-35 | every name matches its own display form |
| LanguageImport.FindFrom | src/types/language.rs:31 | the result is an occurrence at or after the start, with none before it; None means no occurrence at all |
| LanguageImport.Find | src/types/language.rs:31 | `str::find`: the first occurrence of the pattern, or None when there is none |
| LanguageImport.FoundSources | src/types/language.rs:30-39 | the pushed sources are exactly the rewrite sources that occur in the category text |
| LanguageImport.MaskEntriesAreOccurrences | src/types/language.rs:28-39 | every mask entry is the first occurrence of some source and records that source's length |
| LanguageImport.Chars | src/types/language.rs:55-61 | each character of a text becomes a one-character phoneme, in order |
| LanguageImport.WalkPushesSingleChars | src/types/language.rs:41-65 | everything the walk pushes is one character of the text at an unmasked position |
| LanguageImport.WalkWithoutMask | src/types/language.rs:41-65 | with no rewrite source, the walk pushes every character |
| LanguageImport.WalkBeforeMask | src/types/language.rs:41-65 | before the only masked position, the walk pushes each character |
| LanguageImport.WalkAfterMask | src/types/language.rs:41-65 | after the masked position, the walk finishes the pending skip and then pushes every character |
| LanguageImport.SingleSourceWalk | src/types/language.rs:41-65 | corrected walk: only the source's own positions are left out |
| LanguageImport.Uncovered | src/types/language.rs:41-65 | the reference for the walk: every character that no source span covers is in the list |
| LanguageImport.WalkLeavesOutSpans | src/types/language.rs:41-65 | from any state the walk reaches with non-overlapping, non-empty spans, the corrected walk pushes exactly the uncovered characters, in order |
| LanguageImport.DisjointSourcesCategory | src/types/language.rs:24-65 | corrected: when the found sources' first occurrences do not overlap, a category yields the found sources, then exactly the characters outside them |
| LanguageImport.OverlappingSourcesRepeatChar | src/types/language.rs:41-65 | `abcd` with sources `ab` and `bc` yields `[ab, bc, c, d]`: with overlapping sources, a character inside a found source is pushed too |
| LanguageImport.SingleSourceWalkAsWritten | src/types/language.rs:48-54 | walk as written: the character after a source is left out too |
| LanguageImport.SkipDropsFollowingChar | src/types/language.rs:52-54 | `tsa` with source `ts` gives `[ts]` as written and `[ts, a]` corrected |
| LanguageImport.GetByRight | src/types/language.rs:69 | `get_by_right`: a rule whose right side is the key, or None when no rule has it |
| LanguageImport.GroupNameOf | src/types/language.rs:67-75 | the abbreviation is the key's first character; the name is full exactly when a rule's right side is the key, and its full name is that rule's left side |
| LanguageImport.WithGraphemes | src/types/language.rs:77-81 | each phoneme is paired with its romanization when there is one, otherwise with None |
| LanguageImport.Lefts | src/types/language.rs:30 | the rewrite sources are the rules' left sides, in rule order |
| LanguageImport.MaskSources | src/types/language.rs:28-39 | the loop builds exactly the mask and the list of found sources |
| LanguageImport.WalkChars | src/types/language.rs:41-65 | the skip-counter loop pushes exactly what the (corrected) walk specifies |
| LanguageImport.Parse | src/types/language.rs:17-87 | corrected (Finding 1): one entry per category, in order: the found sources, then the characters the corrected walk does not skip, with graphemes and group name |
| Inventory.StripMember | src/types/language.rs:187-191 | every group keeps its name and loses exactly the removed key |
| Inventory.BareStoreRemove | src/types/language.rs:349-351 | removal through the bare phoneme store drops the phoneme and leaves the groups untouched |
| Inventory.BareStoreRemoveDangles | src/types/language.rs:349-351 | after a bare removal, member keys are all live exactly when no group held the removed key |
| Inventory.BareStoreRemoveExample | src/types/language.rs:349-351 | a one-phoneme group left with a dangling key |
| Inventory.StripKeepsMembersLive | src/types/language.rs:187-193 | a cascading removal keeps every member key live |
| Inventory.AscendingKeys | src/types/language.rs:491-497 | the keys of a set in strictly ascending order, exactly its members |
| Inventory.Language.constructor | src/types/language.rs:90-102 | the default language is empty with no pending deletion |
| Inventory.Language.FromRaw | src/types/language.rs:104-152 | group i of the result is raw group i with its name, and its members are exactly the phonemes whose text occurs in raw group i; phoneme texts are distinct; every phoneme's text occurs in some raw group, and its grapheme is that of the text's first occurrence; member keys are live |
| Inventory.Language.PhonemeAdd | src/types/language.rs:183-185 | a fresh key maps to the phoneme; nothing else changes |
| Inventory.Language.PhonemeRemove | src/types/language.rs:187-193 | the phoneme is gone and every group loses its key |
| Inventory.Language.GroupAdd | src/types/language.rs:195-202 | a fresh key maps to an empty group with the name |
| Inventory.Language.GroupRemove | src/types/language.rs:204-206 | exactly that group is gone; phonemes are untouched |
| Inventory.Language.PhonemeRef | src/types/language.rs:483-489 | Some exactly for a live key, with its phoneme |
| Inventory.Language.GroupMemberInsert | src/types/language.rs:176-180 | `language[g].keys.insert(k)`: only group g changes, gaining k |
| Inventory.Language.GroupMemberRemove | src/types/language.rs:176-180 | `language[g].keys.remove(k)`: only group g changes, losing k |
| Inventory.Language.GroupRef | src/types/language.rs:556-569 | Some exactly for a live group, whose members are all live phonemes |
| Inventory.Language.Phonemes | src/types/language.rs:467-481 | Some exactly for a live group: its members in ascending key order, without repetition, all live |
| Inventory.Language.PhonemeRefMut | src/types/language.rs:515-538 | a queued deletion is applied first, cascading; the key is handed out exactly when live, and becomes the one a later deletion refers to |
| Inventory.Language.DeleteHandedOutPhoneme | src/types/language.rs:313-315 | callable only while `PhonemeRefMut` holds a phoneme; only the deletion flag is raised |
| Inventory.Language.GroupRefMut | src/types/language.rs:581-608 | a queued group deletion is applied first; the group is handed out exactly when live |
| Inventory.Language.DeleteHandedOutGroup | src/types/language.rs:423-425 | callable only for the group `GroupRefMut` handed out last; only its deletion is queued |
| Inventory.FirstGraphemeStable | src/types/language.rs:117-132 | once a phoneme text was seen, later duplicates do not change its grapheme |
| Inventory.FirstGraphemeAtEnd | src/types/language.rs:117-132 | a new phoneme text takes the grapheme of its first occurrence |
| Inventory.MemberKeysExtend | src/types/language.rs:117-135 | one more raw phoneme adds exactly its key to the group |
| Inventory.InternOne | src/types/language.rs:117-134 | a known text reuses its key; a new one gets the next key with its own grapheme |
| Inventory.InternPhonemes | src/types/language.rs:117-135 | the group's keys are the table's keys of its raw phonemes; the table stays consistent |
| Inventory.BuildInventory | src/types/language.rs:105-138 | one group per raw group in order, with the keys of its phoneme texts; every text has one phoneme with its first grapheme; member keys are live |
| Inventory.FlattenMembers | src/types/language.rs:117-135 | a raw phoneme is in the concatenation of all entries exactly when some entry lists it |
| Inventory.GroupMatchesRaw | src/types/language.rs:117-138 | after the conversion, group i holds exactly the keys whose text occurs in entry i, so its texts are the entry's texts |
| Inventory.PhonemesMatchRaw | src/types/language.rs:117-138 | after the conversion, no two phonemes share a text, and each has a raw text and the grapheme of its first occurrence |
| Inventory.Convert | src/types/language.rs:104-138 | the conversion stated without its lookup table: exact group members, distinct texts, first graphemes, live members |
| Inventory.PhonemesIter.constructor | src/types/language.rs:241-249 | a walk from the start over the snapshot |
| Inventory.PhonemesIter.Next | src/types/language.rs:254-270 | the next snapshot key with its phoneme, or None at the end |
| Inventory.PhonemesMut.constructor | src/types/language.rs:318-333 | a walk from the start over a snapshot of live keys |
| Inventory.PhonemesMut.Delete | src/types/language.rs:313-315 | a deletion is requested on the item handed out last |
| Inventory.PhonemesMut.Next | src/types/language.rs:339-380 | corrected (Finding 3): a requested deletion is applied with the cascade, for every walk; keys come out in snapshot order, none skipped or repeated, each live |
| Inventory.GroupsMut.constructor | src/types/language.rs:571-579 | a walk from the start over a snapshot of live group keys |
| Inventory.GroupsMut.Delete | src/types/language.rs:423-425 | the group handed out last is queued for removal |
| Inventory.GroupsMut.Next | src/types/language.rs:437-463 | a queued group is removed first; keys come out in snapshot order, each live |
| Inventory.PhonemesAll | src/types/language.rs:491-497 | a walk over every phoneme in ascending key order |
| Inventory.PhonemesMutOf | src/types/language.rs:499-513 | Some exactly for a live group, walking its members in ascending key order |
| Inventory.PhonemesMutAll | src/types/language.rs:540-547 | a deleting walk over every phoneme in ascending key order |
| Inventory.GroupsMutAll | src/types/language.rs:571-579 | a deleting walk over every group in ascending key order |
| DocumentImport.CollectMatches | src/state/mod.rs:53-73 | every match is pushed in order; Err exactly when some push failed, otherwise the final collection |
| DocumentImport.IndexOf | src/state/mod.rs:81 | the first position of the character, or None when it does not occur |
| DocumentImport.SplitOnce | src/state/mod.rs:81 | `split_once`: the text is the left part, the separator and the right part, and the left part holds no separator; None when there is no separator |
| DocumentImport.Splits | src/state/mod.rs:80-88 | at most one category per match, and exactly one when every match holds the separator |
| DocumentImport.CategoryFold | src/state/mod.rs:78-89 | the category pass keeps the split of every match, and fails exactly when some match has no `=` |
| DocumentImport.CategoryPushChecked | src/state/mod.rs:80-88 | corrected push: fails exactly on a match with no `=` or a leading `=`, leaving the categories unchanged; otherwise appends what the push as written appends, and its key is non-empty |
| DocumentImport.CheckedFoldAgrees | src/state/mod.rs:78-89 | where no match lacks `=` or starts with it, the corrected pass collects exactly what the pass as written does |
| DocumentImport.CheckedFoldKeysNonEmpty | src/state/mod.rs:78-89 | every category the corrected pass collects has a non-empty key |
| DocumentImport.CheckedFoldFails | src/state/mod.rs:78-89 | the corrected pass fails exactly when some match has no `=` or starts with one |
| DocumentImport.CategoryPushEmptyKey | src/state/mod.rs:80-88 | the match `==x` is accepted as written, with an empty key, and rejected corrected |
| DocumentImport.Evict | src/state/mod.rs:97 | keeps exactly the pairs sharing no side with the new pair; both sides stay unique |
| DocumentImport.BiInsert | src/state/mod.rs:97 | `BiHashMap::insert`: the new pair is present, pairs sharing a side are gone, the others stay, both sides stay unique |
| DocumentImport.RuleFold | src/state/mod.rs:91-103 | the rule pass keeps both sides unique and fails exactly when some match has no `\|` |
| DocumentImport.SoundChangeFold | src/state/mod.rs:105-113 | the sound-change pass keeps every match in order and never fails |
| DocumentImport.Lexicon | src/state/mod.rs:115-122 | a line is kept exactly when it matches no other pattern and matches the lexicon pattern |
| DocumentImport.LexiconAppend | src/state/mod.rs:115-122 | the lexicon of two joined line lists is the two lexicons joined |
| DocumentImport.PartitionCounts | src/state/mod.rs:164-185 | every raw rule is either compiled or broken |
| DocumentImport.CompiledSnoc | src/state/mod.rs:164-185 | one more raw rule extends exactly the list its compilation selects |
| DocumentImport.Partition | src/state/mod.rs:162-185 | the loop yields the compiled rules and the error texts, in order, together as many as the raw rules |
| DocumentImport.InitFromMatches | src/state/mod.rs:76-147 | corrected (Finding 4): Ok exactly when no category match lacks `=` or starts with it and every rule match has `\|`; then the categories are the split of every match, one per match, with non-empty keys; the rules are the bimap after inserting every rule match in order, with unique sides; sound changes and lexicon are as collected |
| Rules.WithBoundaryFlag | src/tools/sca/sc_editor.rs:183-190 | sets the flag of an environment field and keeps the kind |
| Focusing.IsValid | src/state/focus.rs:18-55 | a phoneme fits a rule target when it is not a representative or the field is Replacement; a group fits any target but None; Any fits a rule target that is not nested; a boundary fits at the head of EnvStart or the tail of EnvEnd |
| Focusing.Focus.constructor | src/state/focus.rs:67-72 | no target and an empty buffer |
| Focusing.Focus.Set | src/state/focus.rs:75-79 | the new target with the buffer emptied |
| Focusing.Focus.Clear | src/state/focus.rs:81-85 | no target and an empty buffer |
| Focusing.Focus.ShowIfValid | src/state/focus.rs:87-101 | the buffer takes the element only when the target accepts it and the button was clicked |
| RuleEditor.ElementOf | src/tools/sca/sc_editor.rs:172-194 | the element a taken buffer becomes, with the same key and representative flag |
| RuleEditor.Insert | src/tools/sca/sc_editor.rs:196-200 | insertion at the front or at the end, keeping the others in order |
| RuleEditor.LastClicked | src/tools/sca/sc_editor.rs:263-294 | the last index whose Remove was clicked, or None when there was no click |
| RuleEditor.RemoveAt | src/tools/sca/sc_editor.rs:313 | `Vec::remove`: one element fewer, the others in order |
| RuleEditor.InsertKeepsWellFormed | src/tools/sca/sc_editor.rs:170-205 | a top-level insertion at an offered point keeps the field invariant: boundaries only at an environment's edge, with the flag saying so |
| RuleEditor.NestedInsertKeepsWellFormed | src/tools/sca/sc_editor.rs:89-96 | an insertion into an `Any` keeps the field invariant |
| RuleEditor.RemoveKeepsWellFormed | src/tools/sca/sc_editor.rs:296-314 | a top-level removal that clears the flag for a boundary keeps the field invariant |
| RuleEditor.NestedRemoveKeepsWellFormed | src/tools/sca/sc_editor.rs:85-87 | a nested removal with the corrected flag keeps the field invariant |
| RuleEditor.InsertAddsNoRep | src/tools/sca/sc_editor.rs:170-205 | a top-level insertion into a field other than Replacement adds no representative phoneme |
| RuleEditor.NestedInsertAddsNoRep | src/tools/sca/sc_editor.rs:89-96 | an insertion into an `Any` of a field other than Replacement adds no representative phoneme |
| RuleEditor.RuleField.constructor | src/types/sc.rs:20 | an empty field without a boundary |
| RuleEditor.RuleField.Addition | src/tools/sca/sc_editor.rs:147-205 | a buffer aimed at this point becomes an element at the head or the tail, a boundary raises the flag, and the focus is cleared; the invariant is kept |
| RuleEditor.RuleField.NestedAddition | src/tools/sca/sc_editor.rs:89-96 | the same inside the `Any`, whose target inherits the position |
| RuleEditor.RuleField.ElementWalk | src/tools/sca/sc_editor.rs:263-314 | element i gets the head flag exactly at 0 and the tail flag exactly at the end; the last clicked element is removed, clearing the flag if it held a boundary |
| RuleEditor.RuleField.NestedWalk | src/tools/sca/sc_editor.rs:58-87 | corrected (Finding 2): the last clicked inner element is removed and the flag follows the boundaries left |
| RuleEditor.NestedRemovalAsWritten | src/tools/sca/sc_editor.rs:85-87 | the nested removal as written leaves the flag unchanged |
| RuleEditor.NestedRemovalStrandsEnvEnd | src/tools/sca/sc_editor.rs:85-87 | EnvEnd `[[#]]` keeps a raised flag with no boundary left; corrected, the flag is lowered |
| Selections.Selection.constructor | src/types/selection.rs:3-7 | the mode with its storage |
| Selections.Selection.IsSelected | src/types/selection.rs:36-44 | Single: the slot holds the key; Multiple: the set has it; None: never |
| Selections.Selection.Insert | src/types/selection.rs:10-20 | Single overwrites the slot, Multiple adds to the set, None does nothing; the key is then selected |
| Selections.Selection.Remove | src/types/selection.rs:22-34 | Single clears the slot only when it holds the key, Multiple removes it; the key is then not selected, the others are unchanged |
| Syllables.Len | src/types/syllable.rs:16-18 | zero exactly for no elements |
| Syllables.IsEmpty | src/types/syllable.rs:20-22 | empty exactly when the length is zero |
| Syllables.FoldValidSpec | src/types/syllable.rs:24-28 | the fold is true exactly when it starts true and meets no Invalid element |
| Syllables.IsValid | src/types/syllable.rs:24-28 | valid exactly when non-empty with no Invalid element |
| StatusLine.StatusCell.constructor | src/app/status.rs:23-27 | no message |
| StatusLine.StatusCell.SetOnHover | src/app/status.rs:31-47 | a hovered widget shows its hover message; an unhovered one clears only a hover it set |
| StatusLine.StatusCell.Set | src/app/status.rs:49-63 | a persistent message replaces anything but a hover |
| StatusLine.StatusCell.Clear | src/app/status.rs:74-78 | only a persistent message is removed |
| StatusLine.StatusCell.Get | src/app/status.rs:65-72 | the message of either kind, None when there is none |
| StatusLine.HoverPrecedence | src/app/status.rs:31-78 | a hover survives a later persistent message and a clear |
| RuleList.Swap | src/tools/sca/mod.rs:78 | `swap`: the two positions trade elements, the rest unchanged |
| RuleList.SwapPermutes | src/tools/sca/mod.rs:70-88 | a swap is a permutation of the rules |
| RuleList.ScaTool.constructor | src/tools/sca/mod.rs:9-13 | no active rule |
| RuleList.ScaTool.Add | src/tools/sca/mod.rs:184-189 | a default rule is appended and becomes active, with the cursor in range |
| RuleList.ScaTool.Delete | src/tools/sca/mod.rs:58-68 | the active rule is removed; the cursor stays, moves to the new last rule, or is dropped, and stays in range |
| RuleList.ScaTool.MoveUp | src/tools/sca/mod.rs:70-79 | unless first, the active rule swaps with the one above and stays active; a permutation |
| RuleList.ScaTool.MoveDown | src/tools/sca/mod.rs:81-88 | unless last, the active rule swaps with the one below and stays active; a permutation |
| RuleList.ScaTool.Click | src/tools/sca/mod.rs:92-95 | a clicked inactive rule becomes active |
| PhonemeEditing.GetGroups | src/tools/editors/phoneme_editor.rs:225-236 | exactly the live groups whose members include the key |
| PhonemeEditing.PhonemeEditor.constructor | src/tools/editors/phoneme_editor.rs:28-36 | an empty new-phoneme field |
| PhonemeEditing.PhonemeEditor.ParseNewPhoneme | src/tools/editors/phoneme_editor.rs:45-61 | a parsed phoneme gets a fresh key and is recorded only if none was; a failed parse marks the field |
| PhonemeEditing.PhonemeEditor.Show | src/tools/editors/phoneme_editor.rs:239-289 | a handed-over group joins in editor and language; a finished addition turns into editing with its groups; clear wins over removal; removal cascades; the editor stays in step |
| PhonemeEditing.PhonemeEditor.Set | src/tools/editors/phoneme_editor.rs:308-320 | a language phoneme becomes the edited one with exactly the groups holding it; a representative is ignored |
| PhonemeEditing.PhonemeEditor.SelectionRow | src/tools/editors/phoneme_editor.rs:64-146 | the lookup applies a queued deletion; a phoneme no longer live resets the editor; a new phoneme is parsed when its field loses focus: a parsed one is added under a fresh key, which becomes the recorded one unless one was recorded before, and a failure only marks the field; the queued deletion stays as it was |
| PhonemeEditing.PhonemeEditor.VisitChip | src/tools/editors/phoneme_editor.rs:156-186 | one chip: a queued group deletion is applied; a clicked live group leaves both the editor's set and, for the phoneme, the group |
| PhonemeEditing.PhonemeEditor.GroupPanel | src/tools/editors/phoneme_editor.rs:148-188 | over all chips in key order: at most the clicked live group is unlinked, and a queued group deletion is applied once |

## Left out

- Regular expressions are not modelled. Their matches and line tests are parameters, and so is the capture of romanization pairs (`src/state/mod.rs:124-136`); romanization arrives as a map.
- `Phoneme::parse` and `SoundChange::parse` are parameters. `src/types/phoneme.rs` and the sound-change parser are not part of this model.
- Slot-map generations are not modelled. A key is a natural that is never reused.
- `BiHashMap` and `HashMap` iteration order is unspecified. Rule order is taken as given, so the tokenizer tries the rewrite sources in sequence order.
- The `phoneme_table` vector built in hash order at `src/types/language.rs:140-143` is not modelled.
- Text offsets are character positions. The source uses UTF-8 byte offsets in both the mask and the walk, so the two agree.
- `usize` lengths and indices are unbounded naturals.
- Drawing, hovering, scrolling, widths and egui responses are not modelled. So are the Mutex and the static of the status line, which becomes one `StatusCell`, and the lifetime transmutes of the iterators.
- Focus ids are modelled through focus targets: an addition point takes the buffer exactly when the focus target equals its own.
- The focus targets `PhonemeEditorSelect` and `PhonemeEditorGroups` are not modelled, and neither is the focus traffic of the phoneme editor's buttons (`src/tools/editors/phoneme_editor.rs:118-130, 176-182, 193-210, 248-252`). `focus.rs` defines neither.
- The text widget that edits an existing phoneme (`widgets::phoneme_editor`) is not modelled. `src/sub/widgets.rs` is not part of this model.
- RuleEditor.RuleField.ElementWalk: does not model a leading insertion followed by the element walk in the same pass. There the stale `elements_len` of `src/tools/sca/sc_editor.rs:231` gives the last two elements the tail flag. Each modelled pass performs one user action.
- PhonemeEditing.PhonemeEditor.Show: requires the edited phoneme to be live when a group is handed over. The source would insert a stale key without checking. It also requires the handed-over group to be live, because the source indexes `state.language[key]` there (`src/tools/editors/phoneme_editor.rs:244`) and would panic on a stale group key.
- PhonemeEditing.PhonemeEditor.GroupPanel: takes at most one clicked chip per pass.
- `show` of the phoneme editor is three methods called in order: `Show`, `SelectionRow` and `GroupPanel`.
- The sound-change selector's scroll flag is modelled as a field. The scroll-area reset that consumes it is not modelled.
- LanguageImport.Parse: follows the corrected walk of Finding 1, not `src/types/language.rs:52-54` as written. The as-written walk is `LanguageImport.SingleSourceWalkAsWritten`.
- LanguageImport.Parse: "the found sources, then the characters outside them" is promised only when the found sources' first occurrences do not overlap (`DisjointSourcesCategory`). With overlapping sources the walk, like the code, pushes characters inside a later source (`OverlappingSourcesRepeatChar`).
- RuleEditor.RuleField.NestedWalk: follows the corrected nested removal of Finding 2. As written, `src/tools/sca/sc_editor.rs:85-87` leaves the boundary flag unchanged (`RuleEditor.NestedRemovalAsWritten`).
- Inventory.PhonemesMut.Next: models only the language-backed source, whose deletion cascades. The bare-store (`Err`) variant built by `group_ref_mut` and `GroupsMut` is not a branch of it. That variant removes the phoneme from the store only (`src/types/language.rs:349-351`), modelled as `Inventory.BareStoreRemove` (Finding 3).
- DocumentImport.InitFromMatches: follows the corrected category push of Finding 4. As written, a category match starting with `=` is accepted with an empty key (`DocumentImport.CategoryPushEmptyKey`), and the import later panics on it.
- The representative phonemes and their usages (`src/state/mod.rs:159-160`) are not modelled.
- `sc_field_editor.rs` is not part of this model.

## Findings

| source | as written | input that shows it | evidently intended | confidence | as-written member | corrected member |
|---|---|---|---|---|---|---|
| src/types/language.rs:52-54 | a masked position starts a skip of the source's full length, so the position after the source is skipped too | category `tsa` with rewrite source `ts` yields `[ts]` | the masked position and the skip cover exactly the source, so `tsa` yields `[ts, a]` | not executed | LanguageImport.SingleSourceWalkAsWritten | LanguageImport.SingleSourceWalk |
| src/tools/sca/sc_editor.rs:85-87 | removing an element inside an `Any` never touches the boundary flag | EnvEnd with flag raised holding `[[#]]`: remove the inner `#`, then the empty `Any`; the field is empty with the flag still raised, and no addition point is offered again | the flag follows the boundaries left, as the top-level removal at lines 296-311 does | not executed | RuleEditor.NestedRemovalStrandsEnvEnd | RuleEditor.RuleField.NestedWalk |
| src/types/language.rs:349-351 | deleting through a group's `PhonemesMut` (from `group_ref_mut` or `GroupsMut`) removes the phoneme from the store only, so its key stays in every group | phoneme 0 `a` in group V; delete it through V's phoneme walk; V still lists key 0, which later indexing panics on | the deletion cascades through the groups like `phoneme_remove` | not executed | Inventory.BareStoreRemoveExample | Inventory.PhonemesMut.Next |
| src/state/mod.rs:80-87 | a category match whose first character is `=` is split with an empty key, and `chars().next().unwrap()` at `src/types/language.rs:67` panics on it | the document line `==x` matches `\S=\S*` and yields the category `("", "=x")` | a category without a key is rejected as invalid data | not executed | DocumentImport.CategoryPushEmptyKey | DocumentImport.CheckedFoldKeysNonEmpty |
