# mergenotes merge engine, modelled in Dafny

This project models the merge engine of the mergenotes add-on for the Anki flashcard
application, and proves properties of that model.

The engine has five parts:

- the **comparison normaliser** `cfg_strip`. It applies, each behind its own flag:
  HTML stripping, punctuation removal and full-width digit folding. Then it trims
  whitespace.
- the **field and tag merger** `merge_fields` / `merge_tags`. It folds a donor note
  into a receiving note.
- the **chunk fold** `MergeNotes._merge_chunk`. It merges each note of a chunk into
  its successor. It then queues either the last note for writing back and the others
  for deletion, or every note for writing back.
- the **duplicate search** `deep_search_duplicates` and the **duplicate merge**
  `MergeDupes.op`. The search groups notes on equal normalised values of one field,
  and the merge folds each group as a chunk.
- the **card orderings** of `config.py` (`due_key`, the sort and custom field keys,
  the numeric key) and the ordering fix-up of `Config.__init__`.

The model also covers:

- the old single-file revision `mergenotes.py`: its `get_config` defaults, the raw
  field comparison, and the fold from the back in `merge_cards_fields`;
- the "Duplicate notes" action;
- the computations of the settings dialog.

The modules follow the source files:

- `merge_notes.dfy` (MergeNotes)
- `find_duplicates.dfy` (FindDuplicates)
- `merge_duplicates.dfy` (MergeDuplicates)
- `config.dfy` (Config)
- `legacy_mergenotes.dfy` (LegacyMergeNotes, for `mergenotes.py`)
- `duplicate_notes.dfy` (DuplicateNotes)
- `settings_dialog.dfy` (SettingsDialog)

Three modules hold what they share:

- `notes.dfy` (Notes): the host's note objects and cards. It also holds the tag merge
  both revisions use.
- `strings.dfy` (Strings): Python's `str.strip`, `str.replace`, `str(n)` and ASCII
  case mapping.
- `sorting.dfy` (Sorting): Python's tuple ordering and its stable `sorted` /
  `list.sort`.

## How the host is modelled

- **Notes.** A host note is a `class Note`:
  - `id`, `keys` (the note type's field names, in order), `sortf` and `cards` are
    constants;
  - `fields` and `tags` are variables that merging updates in place;
  - `NoteRec` is a value snapshot of a note.
- **Store.** The collection's notes are a `map<NoteId, NoteRec>`. An id outside it is
  a note that `col.get_note` does not find.
- **Host calls.** `stripHTMLMedia` is a function parameter `html`. The host's search
  result (`col.find_notes` on the query) is a parameter `found`.
- **Unordered iteration.** A Python `set` is iterated in an arbitrary order. This is
  modelled by a `:|` choice at every step of the loop.
- **Write-backs.** Calls that write back are modelled as queues the model returns or
  keeps:
  - `update_notes` and `remove_notes` are the `notesToUpdate` / `nidsToRemove` queues;
  - the old revision's `flush` and `remNotes` are the returned `flushed` and
    `removed` lists;
  - `add_note` is the returned list of notes to add.
- **Host guarantees.** `NoteRec.WellFormed` (and `Note.Valid`) states what the host
  guarantees of every note, and the operations that read a note require it:
  - the field map holds exactly the note type's field names;
  - those names are distinct;
  - the sort field index is in range;
  - the note has at least one card.

  The last one rules out two errors the code would raise on a note without cards: the
  `IndexError` of `ref_note.cards()[0]` (duplicate_notes.py:24) and the `ValueError` of
  `min` over no cards (merge_duplicates.py:37).
- **Errors.** Apart from those host guarantees and the empty chunk of `_merge_chunk`
  (see "## Left out"), an exception the code raises is modelled as an error value, not
  as a precondition:
  - a `KeyError` on a missing field is `None`;
  - a `NotFoundError` of `get_note`, which the code catches, skips the id;
  - the `AttributeError` of `MergeDupes.op` is `Raised(...)`;
  - an old-revision configuration under which `merge_cards_fields` fails is `None` from
    `Typed`; a non-string separator is `None` too, although the code fails on it only at
    its first append (see "## Left out").

Points where the code behaves differently than a reader might expect, each modelled
as the code does it:

- **Both modes fold pairwise.** With `delete_original_notes` set, a chunk is still
  folded pair by pair. Only the queueing differs: the last note is written back and
  the others are deleted.
- **`leech` is kept on the receiving note.** `leech` is never taken from a donor. A
  receiving note that already has `leech` keeps it, so the merged note has `leech`
  exactly when the receiving note had it.
- **Merged values are stripped.** A merged field is not the raw text. Both values are
  stripped before they are joined, and the donor's value is also stripped in place.
- **No furigana stage.** `cfg_strip` has no furigana stage.
- **The donor's field names are walked.** The field loop goes over the donor's field
  names and skips those the receiving note lacks.
- **"Only empty" tests the raw value.** The "only empty" test looks at the raw value
  of the receiving field, not its stripped form.

## Model

| member | source | states |
|---|---|---|
| MergeNotes.CharSet | merge_notes.py:31 | `set(config['punctuation_characters'])` holds exactly the characters of the configured string |
| MergeNotes.StripPunctuation | merge_notes.py:30-34 | the result is the input without any character of the punctuation set; the loop over the set in any order reaches that one result |
| Strings.Without | merge_notes.py:30-34 | every character left is from the input and not punctuation; every non-punctuation character of the input survives; the result is never longer |
| MergeNotes.FoldDigit | merge_notes.py:37-48 | a full-width digit becomes the ASCII digit of the same value; any other character is unchanged |
| MergeNotes.EqualDigitsEntries | merge_notes.py:37-48 | EQUAL_DIGITS has ten entries, in dictionary order; entry i maps full-width digit (i + 1) mod 10 to its ASCII digit |
| MergeNotes.NormalizeDigits | merge_notes.py:51-55 | after the ten `replace` calls the length is kept and every character is folded on its own |
| MergeNotes.NormalisedSpec | merge_notes.py:60-65 | digit folding leaves no full-width digit; punctuation removal leaves no punctuation except digits that folding produces; with every flag off the value is unchanged |
| MergeNotes.CfgStripSpec | merge_notes.py:58-66 | the compared form has no surrounding whitespace, no full-width digit when folding, no punctuation when stripping it; with every flag off it is `s.strip()` |
| MergeNotes.CfgStripIdempotent | merge_notes.py:58-66 | without HTML stripping, normalising a normalised value changes nothing, unless a punctuation character is an ASCII digit that folding creates |
| Strings.Strip | merge_notes.py:66 | `str.strip()` returns no longer a string that neither starts nor ends with whitespace |
| Strings.StripIdempotent | merge_notes.py:66 | stripping twice is stripping once |
| Strings.StripBlank | merge_notes.py:76 | `strip()` is empty exactly for a blank value, the test merge_fields applies to the donor |
| MergeNotes.InterpretSpecialChars | merge_notes.py:69-70 | no escape `\n`, `\t` or `\r` survives; the result is never longer; a separator without a backslash is unchanged |
| MergeNotes.InterpretNewline | merge_notes.py:70 | the separator written `a\nb` becomes a, newline, b |
| MergeNotes.MergeKeysFieldwise | merge_notes.py:73-89 | each field of the receiving note ends up merged from the two original values alone; fields the donor lacks are untouched; the donor's field is stripped only when merged |
| MergeNotes.MergeKeysSelf | merge_notes.py:73-89 | merging a note's fields into themselves changes nothing |
| MergeNotes.MergeFieldOutcome | merge_notes.py:74-89 | the receiving note keeps its stripped content; it gains the donor's stripped content unless "only empty" protects it or the normalised forms agree; a protected field is unchanged; a merged blank field takes the donor's value without separator; the donor's stripped content is kept |
| MergeNotes.JoinField | merge_notes.py:82-89 | both values are stripped in place and joined by the separator, which is left out when the receiving value is blank |
| MergeNotes.MergeField | merge_notes.py:74-89 | one turn of the loop changes field `f` of both notes as the test and the join prescribe, and no tags |
| MergeNotes.MergeFields | merge_notes.py:73-89 | the loop over the donor's field names leaves both notes' fields as the fieldwise specification says, tags untouched |
| MergeNotes.MergeTags | merge_notes.py:92-97 | the receiving note's tags become the tag merge of the two tag lists; its fields are untouched |
| Notes.MergedTagsSpec | merge_notes.py:92-97 | the receiving note keeps all its tags in place, gains every donor tag except `leech`, gains nothing else, and has no duplicate tag when it had none |
| Notes.MergedTagsNoLeech | merge_notes.py:94-95 | the receiving note has `leech` afterwards exactly when it had it before |
| MergeNotes.Pairs | merge_notes.py:100-102 | one pair per element but the last, each element with its successor, in order |
| MergeNotes.FieldsInNotes | merge_notes.py:105-109 | a name is in the set exactly when some note has that field |
| MergeNotes.CommonCountAll | merge_notes.py:114 | when the set holds all the note's field names, the key is the note's field count |
| MergeNotes.ReorderByFieldCount | merge_notes.py:112-114 | the reorder is a stable ascending sort on field counts: a permutation, sorted, notes with equal counts in their old order |
| Sorting.SortBy | merge_notes.py:114 | `sorted` returns a permutation of its input |
| Sorting.SortBySorted | merge_notes.py:114 | `sorted` output has no element that must come before an earlier one, ascending or descending |
| Sorting.SortByStable | merge_notes.py:114 | `sorted` is stable: the elements with one key keep their order |
| Sorting.SortByKeysIsSortBy | merge_duplicates.py:48 | `list.sort` computes each key once before moving anything, which sorts as the key function would |
| MergeNotes.MergePair | merge_notes.py:138-141 | one pair changes only contents and tags; the receiving note's tags are merged when tag merging is on; the donor keeps its tags |
| MergeNotes.PairMergeShape | merge_notes.py:138-141 | a pair merge keeps both notes' ids, note types and cards, and with tag merging off their tags |
| MergeNotes.PairMergeSpec | merge_notes.py:138-141 | the pair merge gives the receiving note what merge_fields and merge_tags compute |
| MergeNotes.FoldUpToAcc | merge_notes.py:138-141 | after k pairs, note k is the accumulated note and the notes after it are untouched |
| MergeNotes.AccTagsSpec | merge_notes.py:138-141 | with tag merging on, the accumulated tags of note k are its own tags plus every non-`leech` tag of notes 0 to k, and nothing else; `leech` exactly when note k had it |
| MergeNotes.AccFieldsContent | merge_notes.py:138-141 | when the field merge keeps content, accumulated field f of note k contains the stripped field f of every note from 0 to k |
| MergeNotes.FoldChunkLast | merge_notes.py:138-145 | the note the chunk keeps, the last one, is the accumulated note of the whole chunk |
| MergeNotes.FoldChunkTags | merge_notes.py:138-145 | with tag merging, the last note ends with all its own tags and every other non-`leech` tag of the chunk, and no others |
| MergeNotes.FoldChunkContent | merge_notes.py:138-145 | with the plain comparison and no "only empty", the last note contains every note's stripped content in each shared field |
| MergeNotes.FoldChunkShape | merge_notes.py:138-141 | the fold keeps every note's id, note type and cards, so each can be written back |
| MergeNotes.FoldChunkTagsOff | merge_notes.py:140-141 | with tag merging off, no note's tags change |
| MergeNotes.ChunkOrder | merge_notes.py:134-137 | the fold order is a permutation of the chunk, and the chunk itself when `avoid_content_loss` is off |
| MergeNotes.MergeInto | merge_notes.py:139-141 | one pair in place: both notes end as the pair merge of their old values |
| MergeNotes.MergeNeighbours | merge_notes.py:138-141 | one loop turn in place: note i merged into note i + 1, the chunk's values advance by one fold step |
| MergeNotes.FoldInPlace | merge_notes.py:138-141 | the loop leaves the notes holding the fold of their old values |
| MergeNotes.StoreById | merge_notes.py:151 | the dict comprehension: a new id goes last, a known id keeps its place and takes the new note |
| MergeNotes.NotesByCards | merge_notes.py:150-151 | the notes of the cards once per id, in the order the ids first occur |
| MergeNotes.NotesByCardsLast | merge_notes.py:150-151 | for an id several cards share, the note object loaded last is kept |
| MergeNotes.MergeNotesOp.constructor | merge_notes.py:120-124 | empty queues; the separator is the configured one with its escapes interpreted |
| MergeNotes.MergeNotesOp.MergeChunk | merge_notes.py:133-147 | the chunk, reordered when configured, holds the fold of its old values; the last note is queued for update and the others' ids for removal, or every note for update |
| MergeNotes.MergeNotesOp.QueueChunk | merge_notes.py:138-147 | the fold and the queueing after the reordering |
| MergeNotes.MergeNotesOp.QueueMerged | merge_notes.py:143-147 | the queues grow by the last note and the other ids, or by every note |
| FindDuplicates.NotesFromSearch | find_duplicates.py:19-24 | the loaded notes are, as a multiset, the found ids that exist and have the field, each loaded from the store |
| FindDuplicates.FoundHaveField | find_duplicates.py:19-24 | every note the search with a field name returns has that field |
| FindDuplicates.EntriesSound | find_duplicates.py:29-31 | every dictionary entry comes from a scanned note with the field, with its non-empty normalised value |
| FindDuplicates.EntriesComplete | find_duplicates.py:29-31 | every scanned note whose normalised value is non-empty has an entry |
| FindDuplicates.AddToBucket | find_duplicates.py:31 | `setdefault(v, []).append(id)` keeps the dictionary equal to the entries so far |
| FindDuplicates.BucketStep | find_duplicates.py:31 | a new value goes last in the keys, and the id goes last in its value's list |
| FindDuplicates.BucketReport | find_duplicates.py:32 | the final comprehension over the dictionary reports what the reference report of the entries does |
| FindDuplicates.ReportOfGroups | find_duplicates.py:28-32 | each reported value has at least two entries, and comes with exactly their ids in order |
| FindDuplicates.ReportOfOrder | find_duplicates.py:28-32 | values are reported in the order of their first entries, so none twice |
| FindDuplicates.ReportOfComplete | find_duplicates.py:28-32 | every value with at least two entries is reported |
| FindDuplicates.KeptComplete | find_duplicates.py:32 | the comprehension keeps every key with at least two ids |
| FindDuplicates.ScanNote | find_duplicates.py:29-31 | one loop turn adds the note's entry, if any, to the dictionary |
| FindDuplicates.ScanNotes | find_duplicates.py:27-32 | a KeyError (None) exactly when some note lacks the field; otherwise the reference report of the entries |
| FindDuplicates.ScanSized | find_duplicates.py:27-32 | each group has at least two distinct notes and a non-empty value |
| FindDuplicates.ScanFound | find_duplicates.py:27-32 | every note of a group was found, has the field and normalises to the group's value |
| FindDuplicates.ScanValuesOnce | find_duplicates.py:27-32 | no value heads two groups |
| FindDuplicates.ScanComplete | find_duplicates.py:27-32 | two found notes sharing a non-empty value are reported together, in that value's group |
| FindDuplicates.DeepSearchDuplicates | find_duplicates.py:27-32 | it fails exactly when a found note lacks the field, never for a field name; otherwise the groups are sized, found, unique by value and complete |
| FindDuplicates.FindDuplicates | find_duplicates.py:35-39 | with the option off, the host's own result; with it on, the deep search's groups |
| FindDuplicates.DeepReportRaises | merge_duplicates.py:46-49 | any non-empty deep-search report handed to MergeDupes.op as written raises the AttributeError |
| MergeDuplicates.SelectCount | merge_duplicates.py:26-32 | the loop keeps every occurrence of an existing id that passes the field filter, and drops every other id |
| MergeDuplicates.Retrievable | merge_duplicates.py:20-33 | the retrievable ids occur once each |
| MergeDuplicates.RetrievableSpec | merge_duplicates.py:20-33 | an id is retrievable exactly when it is in `nids`, exists, and passes the `has_field` filter |
| MergeDuplicates.LoadNote | merge_duplicates.py:27-32 | one id: its fresh note when it exists and passes the filter, nothing otherwise |
| MergeDuplicates.CarefullyGetNotes | merge_duplicates.py:20-33 | each retrievable id loaded once, whatever order the set yields, each note distinct and holding its stored value |
| MergeDuplicates.MinKey | merge_duplicates.py:37 | `min` returns one of the keys, and no key is smaller |
| MergeDuplicates.NoteCardsKeySpec | merge_duplicates.py:36-37 | a note's key is the key of one of its cards, and no card of the note has a smaller key |
| MergeDuplicates.SortedChunkSpec | merge_duplicates.py:48 | the sorted chunk is a permutation, sorted by the cards' keys in the configured direction |
| MergeDuplicates.MergeGroup | merge_duplicates.py:47-49 | a group is merged exactly when it retrieves at least two notes: sorted, folded, queued; otherwise the queues are unchanged |
| MergeDuplicates.MergeLoaded | merge_duplicates.py:49 | _merge_chunk on loaded notes: the fold of their stored values, queued as _merge_chunk queues |
| MergeDuplicates.MergeNext | merge_duplicates.py:46-49 | one loop turn keeps the loop's progress: chunks, groups and queues so far |
| MergeDuplicates.ProgressDone | merge_duplicates.py:46-53 | after the last group, exactly the groups with two notes became chunks, in order, each sorted and merged |
| MergeDuplicates.MergeDupesOp | merge_duplicates.py:43-53 | with `_merge_chunk` called: the groups with two or more retrievable notes, in order, each sorted and merged; the queues grow by what _merge_chunk queued for each |
| MergeDuplicates.OpAsWrittenFails | merge_duplicates.py:46-49 | as written, op completes exactly when no group has two retrievable notes, and otherwise raises the AttributeError |
| MergeDuplicates.OpAsWrittenCounterexample | merge_duplicates.py:47-49 | two stored notes reported as one group make op raise |
| MergeDuplicates.MergeDupes | merge_duplicates.py:56-69 | an empty report only says "Nothing to do."; any other runs the operation and reports the number of groups |
| Config.Names | config.py:59-61 | the names in the dictionary's order |
| Config.LookupByName | config.py:45-57 | every key function is found under its own name, and only listed names are found |
| Config.NameInjective | config.py:45-54 | no two key functions share a name |
| Config.FixedOrdering | config.py:67-71 | the ordering becomes valid; a valid one is kept; an unknown one becomes the first name, "Due"; nothing else changes |
| Config.AddonConfig.constructor | config.py:67-71 | the config object holds the stored dictionary with the ordering fixed up |
| Config.AddonConfig.OrdKey | config.py:73-75 | `ord_key` is the key function registered under the configured name |
| Config.DueKeyOrder | config.py:14-18 | cards are ordered by type, then by due number |
| Config.SortFieldKey | config.py:21-22 | the value of the note type's sort field |
| Config.CustomFieldKey | config.py:25-29 | the custom field when the note has it, the sort field otherwise |
| Config.ParseIntNat | config.py:37 | `int(str(n)) == n` |
| Config.ParseIntNegative | config.py:37 | `int(str(-n)) == -n` |
| Config.ParseIntBlank | config.py:36-39 | an empty or blank string does not parse |
| Config.ParseDigitsPlain | config.py:37 | a run of ASCII digits parses to its decimal value |
| Config.NumericKey | config.py:32-41 | `(int(s), s)`, or `(sys.maxsize, s)` when `int` raises ValueError |
| Config.NumericKeyParsableFirst | config.py:36-39 | parsable values below sys.maxsize sort before unparsable ones |
| Config.NumericKeyByValue | config.py:37 | parsable values sort by their integer value |
| Config.NumericKeyUnparsable | config.py:38-39 | unparsable values sort among themselves as strings |
| LegacyMergeNotes.GetKey | mergenotes.py:35-37 | `get_key` finds a key function exactly for the listed names, and gives None otherwise |
| LegacyMergeNotes.GetKeyName | mergenotes.py:29-41 | each key function is found under its own name and only there |
| LegacyMergeNotes.WithDefaultsSpec | mergenotes.py:45-52 | after the seven `cfg.get` assignments, a stored option is kept, a missing one takes its default, and no other key appears |
| LegacyMergeNotes.CompletedSpec | mergenotes.py:44-58 | the stored options are kept and the missing ones defaulted; only an ordering that is no name is replaced |
| LegacyMergeNotes.GetConfig | mergenotes.py:44-58 | get_config as written: the defaults filled in, and an unknown ordering replaced by the due_key function object |
| LegacyMergeNotes.Typed | mergenotes.py:76-110 | a dictionary gives settings exactly when the separator is a string, the ordering names a key function and `reverse_order`, handed to `sorted` unchecked, is a boolean; then the sort direction is that boolean, and the other three flags hold only when they are `True` |
| LegacyMergeNotes.GetConfigLosesOrdering | mergenotes.py:54-56 | as written, an unknown stored ordering stays unusable: get_key finds nothing under the function object |
| LegacyMergeNotes.GetConfigLosesRandom | mergenotes.py:54-56 | the stored ordering "Random" leaves no usable configuration |
| LegacyMergeNotes.FixedConfig | mergenotes.py:44-58 | with the fallback "Due", every option is present, the ordering always names a key function, and an unknown one gives due_key; with a string separator and a boolean `reverse_order` stored, merge_cards_fields can run |
| LegacyMergeNotes.FieldOutcome | mergenotes.py:70-81 | an empty or absent donor value, a protected field or an equal raw value leave the field alone; otherwise separator and donor value are appended, the separator even to an empty field; the receiving value stays in front |
| LegacyMergeNotes.MergeKeysFieldwise | mergenotes.py:69-81 | each field is merged on its own from the two original values; fields the donor lacks are untouched |
| LegacyMergeNotes.MergeKeysSelf | mergenotes.py:69-81 | merging a note into itself changes nothing, since raw values agree |
| LegacyMergeNotes.MergeField | mergenotes.py:73-81 | one turn of the loop: field `name` of the receiving note, tags untouched |
| LegacyMergeNotes.MergeFields | mergenotes.py:69-81 | the loop over the donor's items leaves the receiving note's fields as the fieldwise specification says; the donor is not changed |
| LegacyMergeNotes.MergePair | mergenotes.py:85-89 | append changes only contents and tags of the receiving note, and merges tags when configured |
| LegacyMergeNotes.Append | mergenotes.py:85-91 | the receiving note ends as the pair merge of the two old values |
| LegacyMergeNotes.LegacyMergeTags | mergenotes.py:61-66 | with tag merging on, append gives the receiving note merge_tags' result |
| LegacyMergeNotes.NoLeechAdded | mergenotes.py:63-64 | merge_tags never adds `leech` |
| LegacyMergeNotes.LegacyMergeTakesIn | mergenotes.py:69-81 | without "only empty", append keeps the receiving value and takes in the donor's for every field both have |
| LegacyMergeNotes.MergeKeysProtected | mergenotes.py:76-77 | under "only empty", a non-empty field of the receiving note is never changed |
| LegacyMergeNotes.OrderKeys | mergenotes.py:97 | each card's key is due_key or sort_field_key on its note |
| LegacyMergeNotes.CardOrder | mergenotes.py:97 | `sorted(cards)` as positions: one per card, each in range |
| LegacyMergeNotes.CardOrderSpec | mergenotes.py:97 | the positions list every card once, sorted stably by key and direction |
| LegacyMergeNotes.UniqueNotes | mergenotes.py:99-104 | the "include notes only once" loop gives the notes of the sorted cards with each repeated id dropped |
| LegacyMergeNotes.UniqueByIdSpec | mergenotes.py:99-104 | the kept ids are the first occurrences of the card notes' ids, each note is the first loaded for its id, and the notes are distinct |
| LegacyMergeNotes.BackFoldedAcc | mergenotes.py:106-108 | after the turns down to note i, the notes before i are untouched and the others hold their accumulated values |
| LegacyMergeNotes.BackAccContent | mergenotes.py:106-108 | without "only empty", note k ends up holding field f of every note from k on |
| LegacyMergeNotes.BackAccTags | mergenotes.py:106-108 | with tag merging, note k keeps its tags in front and gains every non-`leech` tag after it; `leech` only if it had it |
| LegacyMergeNotes.OnlyEmptyKeeps | mergenotes.py:76-77 | under "only empty" the fold never changes a non-empty field of any note |
| LegacyMergeNotes.LegacyMergeShape | mergenotes.py:85-89 | append keeps the receiving note's id, note type and cards |
| LegacyMergeNotes.AppendAt | mergenotes.py:107-108 | one turn of the second loop: note i + 1 appended to note i in place |
| LegacyMergeNotes.SelectNotes | mergenotes.py:96-104 | the first loop: the notes of the sorted cards, each id once; distinct, well formed, and all among the loaded notes |
| LegacyMergeNotes.FoldBack | mergenotes.py:106-108 | the second loop: the notes hold the fold from the back, and every note but the last is flushed, from the second-to-last down to the first |
| LegacyMergeNotes.RemovedAllButFirst | mergenotes.py:110-111 | the ids passed to remNotes are the note ids of the cards other than the first card's note, each once |
| LegacyMergeNotes.MergeCardsFields | mergenotes.py:95-111 | the cards sorted, their notes listed once, folded from the back into the first, the flushed notes in order, the ids after the first removed when configured; other loaded notes unchanged |
| DuplicateNotes.Draft.constructor | duplicate_notes.py:20 | a new note of the note type: every field present and empty, no tags |
| DuplicateNotes.CopiedTags | duplicate_notes.py:23 | a tag is copied exactly when it is neither `leech` nor `marked` |
| DuplicateNotes.CopiedTagsConcat | duplicate_notes.py:23 | the filter keeps the order of the tags |
| DuplicateNotes.CopiedTagsKeeps | duplicate_notes.py:23 | tags without `leech` and `marked` are copied exactly |
| DuplicateNotes.CopiedTagsIdempotent | duplicate_notes.py:23 | filtering twice is filtering once |
| DuplicateNotes.UndoLabelSingular | duplicate_notes.py:17 | "Duplicate note" is the name exactly when at most one note is duplicated |
| DuplicateNotes.UndoLabelCount | duplicate_notes.py:17 | the plural name "Duplicate N notes" determines N |
| DuplicateNotes.DuplicatedMessageCount | duplicate_notes.py:35 | the tooltip is singular exactly for at most one note, and a plural tooltip determines the count |
| DuplicateNotes.CopyNote | duplicate_notes.py:20-23 | the copy is a fresh note of the same note type with identical field contents and the filtered tags |
| DuplicateNotes.DuplicateNotesOp | duplicate_notes.py:16-26 | the undo entry's name, and one note to add per input, in order: same note type and fields, filtered tags, the deck of the input note's first card |
| SettingsDialog.GridStep | settings_dialog.py:39-44 | the next widget moves one column right while the row has room, and otherwise starts the next row at column 1 |
| SettingsDialog.WidgetsToGrid | settings_dialog.py:36-44 | one position per widget, in input order: row `1 + i div columns`, column `1 + i mod columns` |
| SettingsDialog.GridBounds | settings_dialog.py:37-44 | every row is at least 1, and every column is between 1 and the number of columns |
| SettingsDialog.GridIndex | settings_dialog.py:36-44 | the widget's index is recovered from its row and column |
| SettingsDialog.GridDistinct | settings_dialog.py:36-44 | no two widgets share a position |
| SettingsDialog.GridOrder | settings_dialog.py:36-44 | a later widget is in a later row, or further right in the same row |
| SettingsDialog.Capitalize | settings_dialog.py:57 | `capitalize()`: the first character upper case, the rest lower case, the length kept |
| SettingsDialog.CheckboxLabel | settings_dialog.py:55-57 | the caption is the key with each `_` read as a space, capitalised |
| SettingsDialog.CheckboxLabelClean | settings_dialog.py:57 | a caption holds no underscore, and deriving a caption from it changes nothing |
| SettingsDialog.UniqCharStr | settings_dialog.py:152-153 | the result has exactly the characters of the text, none twice, in whatever order the set yields |
| SettingsDialog.DistinctOnce | settings_dialog.py:152-153 | each character of the result occurs in it exactly once |
| Strings.NatToString | duplicate_notes.py:17 | `str(n)` is a non-empty run of ASCII digits with the decimal value n and no leading zero |
| Strings.NatToStringUnique | duplicate_notes.py:17 | that description determines `str(n)`: any digit run without a leading zero and with value n is it |

## Left out

- **UI.** The Qt UI is left out:
  - dialogs, layouts and tooltips;
  - menus and shortcuts (`grab_key.py`);
  - geometry saving and the hook wiring (`__init__.py`, `merge_notes/__init__.py`).
- **Entry points.**
  - `on_merge_selected` is not modelled. Note that its `OrderingChoices.get_key` call (merge_notes.py:163) names a method that `config.py`'s `OrderingChoices` (config.py:44-61) does not define, so a merge of two or more selected cards raises AttributeError there.
  - The old revision's `on_merge_selected` is not modelled either.
- **Logging.** The "Wrong ordering" message both ordering fix-ups print (config.py:70, mergenotes.py:55) is console output and is left out; only the replaced ordering is modelled.
- **Config persistence.** `AddonConfigManager`, `getConfig` / `writeConfig` and `fetch_config_toggleables` are left out. The configuration is a value: `Settings`, or the old revision's dictionary of `Value`s.
- **Host collaborators.** These are parameters or returned queues, not computations:
  - `stripHTMLMedia` is the parameter `html`.
  - The search (`find_notes`, `build_search_string`) is the parameter `found`.
  - `add_custom_undo_entry` / `merge_undo_entries`, `update_notes` / `remove_notes` / `add_note`, `flush`, `remNotes` and `CollectionOp(...).run_in_background()` are the returned or queued values named above.
  - The undo position handle is not modelled.
- **Set and dictionary order.** Set iteration order (`carefully_get_notes`, `strip_punctuation`, `uniq_char_str`) is an arbitrary choice at each step. Dictionary order is insertion order, as in Python.
- **Anki's tag semantics.**
  - `MergeNotes.MergeTags`: Anki's `has_tag` compares tags case-insensitively; the model compares them exactly.
  - `LegacyMergeNotes.Append`: the same holds for the old `hasTag` / `addTag`.
- **`Capitalize` and `CheckboxLabel`.** `str.capitalize()` is modelled for ASCII letters only, because other scripts need Unicode case tables. Python also uses the title case of the first character.
- **`Config.NumericKey`.** `int()` is modelled on ASCII input only: surrounding whitespace, a sign, and digits with single underscores between them. Unicode decimal digits are not accepted by the model.
- **`Strings.IsSpace`.** This is Python's `str.isspace` set as listed. Unicode tables beyond it are not modelled.
- **`Sorting.KeyLt`.** Python raises TypeError on comparing an int with a str. The model orders ints first instead, which no key of the plugin exercises.
- **`MergeNotes.MergeNotesOp.MergeChunk`.** With `delete_original_notes` on, an empty chunk fails at `notes[-1]`. The model requires a non-empty chunk in that case; every caller passes at least two notes.
- **`LegacyMergeNotes.Typed`.** `delete_original_notes`, `merge_tags` and `only_empty` are read with `is True`, so any other stored value counts as false, as in the code. `reverse_order` is passed to `sorted` unchecked: a string there is a TypeError, modelled as `None`. The stored values have no integer kind, so an integer `reverse_order`, which `sorted` accepts, cannot be expressed. The settings dialog's `setChecked` on such values is not modelled. A non-string `field_separator` gives `None` as well, so `MergeCardsFields` cannot represent a run on it. Yet the code reads the separator only when it appends a donor value (mergenotes.py:80-81), so a run in which every donor field is empty, protected or raw-equal completes. The model treats such a dictionary as unusable.

## Findings

| source | as written | input that shows it | evidently intended | confidence | as-written member | corrected member |
|---|---|---|---|---|---|---|
| merge_duplicates.py:49 | `self._merge_notes(chunk)` calls a method that neither `MergeDupes` nor `MergeNotes` defines, so AttributeError is raised | notes 1 and 2 stored and reported as the group `("x", [1, 2])` | `self._merge_chunk(chunk)` | high; not executed | MergeDuplicates.OpAsWrittenCounterexample | MergeDuplicates.MergeDupesOp |
| mergenotes.py:56 | an unknown ordering is replaced by `OrderingChoices.get_key("Due")`, the `due_key` function; `get_key` later finds no key function under it | stored ordering "Random" | `cfg['ordering'] = "Due"` | high; not executed | LegacyMergeNotes.GetConfigLosesRandom | LegacyMergeNotes.FixedConfig |
