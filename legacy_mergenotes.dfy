/** The older single-file revision of the add-on: the notes of the selected cards are
    collected once each in card order, folded from the back into the first of them with
    raw (unnormalised) comparisons, and all but the first are deleted. */
module LegacyMergeNotes {
  import opened Strings
  import opened Sorting
  import opened Notes
  import opened Config
  import MergeNotes

  // ---------------------------------------------------------------------------------
  // Configuration
  // ---------------------------------------------------------------------------------

  /** The two key functions of OrderingChoices. */
  datatype LegacyOrdering = ByDue | BySortField

  /** A value of the configuration dictionary: a JSON boolean or string, or a key
      function object. */
  datatype Value = BoolValue(b: bool) | StrValue(s: string) | KeyFunction(key: LegacyOrdering)

  function ChoiceName(o: LegacyOrdering): string {
    match o
    case ByDue => "Due"
    case BySortField => "Sort Field"
  }

  /** OrderingChoices.as_list(): the names, in the order of the dictionary. */
  const ChoiceNames: seq<string> := ["Due", "Sort Field"]

  /** `v in OrderingChoices.as_list()`. */
  predicate IsChoice(v: Value) {
    v.StrValue? && v.s in ChoiceNames
  }

  /** OrderingChoices.get_key: the key function registered under a configuration value;
      None is Python's None, returned for every value that is not one of the names. */
  function GetKey(v: Value): (r: Option<LegacyOrdering>)
    ensures r.Some? <==> IsChoice(v)
  {
    if v == StrValue("Due") then Some(ByDue)
    else if v == StrValue("Sort Field") then Some(BySortField)
    else None
  }

  /** Each key function is found under its own name and only there. */
  lemma GetKeyName(o: LegacyOrdering, v: Value)
    ensures GetKey(StrValue(ChoiceName(o))) == Some(o)
    ensures GetKey(v) == Some(o) <==> v == StrValue(ChoiceName(o))
  {
  }

  /** The seven options get_config fills in, each with its default. */
  const Defaults: map<string, Value> := map[
    "delete_original_notes" := BoolValue(false),
    "merge_tags" := BoolValue(true),
    "only_empty" := BoolValue(false),
    "reverse_order" := BoolValue(false),
    "field_separator" := StrValue(""),
    "shortcut" := StrValue("Ctrl+Alt+M"),
    "ordering" := StrValue("Due")]

  /** Python's `d.get(k, default)`. */
  function Get(d: map<string, Value>, k: string, default: Value): Value {
    if k in d then d[k] else default
  }

  /** `d[k] = d.get(k, default)`. */
  function SetDefault(d: map<string, Value>, k: string, default: Value): map<string, Value> {
    d[k := Get(d, k, default)]
  }

  /** The seven `cfg.get` assignments of get_config, in order. */
  function WithDefaults(stored: map<string, Value>): map<string, Value> {
    var d1 := SetDefault(stored, "delete_original_notes", BoolValue(false));
    var d2 := SetDefault(d1, "merge_tags", BoolValue(true));
    var d3 := SetDefault(d2, "only_empty", BoolValue(false));
    var d4 := SetDefault(d3, "reverse_order", BoolValue(false));
    var d5 := SetDefault(d4, "field_separator", StrValue(""));
    var d6 := SetDefault(d5, "shortcut", StrValue("Ctrl+Alt+M"));
    SetDefault(d6, "ordering", StrValue("Due"))
  }

  /** The dictionary get_config returns for the stored dictionary `stored`, where an
      ordering that names no key function is replaced by `fallback`. */
  function Completed(stored: map<string, Value>, fallback: Value): map<string, Value> {
    var filled := WithDefaults(stored);
    if IsChoice(filled["ordering"]) then filled else filled["ordering" := fallback]
  }

  /** After the `cfg.get` assignments every option is present: a stored value is kept,
      a missing option takes its default, and no other key appears. */
  lemma WithDefaultsSpec(stored: map<string, Value>)
    ensures forall k :: k in WithDefaults(stored) <==> k in stored || k in Defaults
    ensures forall k :: k in WithDefaults(stored) ==>
      WithDefaults(stored)[k] == if k in stored then stored[k] else Defaults[k]
  {
    WithDefaultsKeys(stored);
    WithDefaultsStored(stored);
    WithDefaultsMissing(stored);
  }

  lemma WithDefaultsKeys(stored: map<string, Value>)
    ensures WithDefaults(stored).Keys == stored.Keys + Defaults.Keys
  {
  }

  lemma WithDefaultsStored(stored: map<string, Value>)
    ensures forall k :: k in stored ==> k in WithDefaults(stored) && WithDefaults(stored)[k] == stored[k]
  {
  }

  lemma WithDefaultsMissing(stored: map<string, Value>)
    ensures forall k :: k in Defaults && k !in stored ==> k in WithDefaults(stored) && WithDefaults(stored)[k] == Defaults[k]
  {
    forall k | k in Defaults && k !in stored ensures k in WithDefaults(stored) && WithDefaults(stored)[k] == Defaults[k] {
      SetDefaultMissing(stored, k);
    }
  }

  /** A single option missing from the stored dictionary takes its default. */
  lemma SetDefaultMissing(stored: map<string, Value>, k: string)
    requires k in Defaults && k !in stored
    ensures k in WithDefaults(stored) && WithDefaults(stored)[k] == Defaults[k]
  {
    var d1 := SetDefault(stored, "delete_original_notes", BoolValue(false));
    var d2 := SetDefault(d1, "merge_tags", BoolValue(true));
    var d3 := SetDefault(d2, "only_empty", BoolValue(false));
    var d4 := SetDefault(d3, "reverse_order", BoolValue(false));
    var d5 := SetDefault(d4, "field_separator", StrValue(""));
    var d6 := SetDefault(d5, "shortcut", StrValue("Ctrl+Alt+M"));
    assert WithDefaults(stored) == SetDefault(d6, "ordering", StrValue("Due"));
    if k == "ordering" {
    } else if k == "shortcut" {
    } else if k == "field_separator" {
      assert k in d5 && d5[k] == Defaults[k];
    } else if k == "reverse_order" {
      assert k in d4 && d4[k] == Defaults[k];
    } else if k == "only_empty" {
      assert k in d3 && d3[k] == Defaults[k];
    } else if k == "merge_tags" {
      assert k in d2 && d2[k] == Defaults[k];
    } else {
      assert k == "delete_original_notes";
      assert k in d1 && d1[k] == Defaults[k];
    }
  }

  /** get_config's dictionary: the stored options are kept, the missing ones take their
      defaults, and only the ordering is replaced when it names no key function. */
  lemma CompletedSpec(stored: map<string, Value>, fallback: Value)
    ensures forall k :: k in Completed(stored, fallback) <==> k in stored || k in Defaults
    ensures forall k :: k in stored && k != "ordering" ==> Completed(stored, fallback)[k] == stored[k]
    ensures forall k :: k in Defaults && k !in stored && k != "ordering" ==> Completed(stored, fallback)[k] == Defaults[k]
    ensures var o := Get(stored, "ordering", StrValue("Due"));
      Completed(stored, fallback)["ordering"] == if IsChoice(o) then o else fallback
  {
    WithDefaultsSpec(stored);
  }

  /** get_config: every missing option takes its default; a stored ordering that is not
      one of the names is replaced by OrderingChoices.get_key("Due"), which is the due_key
      function itself rather than its name. */
  method GetConfig(stored: map<string, Value>) returns (cfg: map<string, Value>)
    ensures cfg == Completed(stored, KeyFunction(ByDue))
  {
    cfg := stored;
    cfg := SetDefault(cfg, "delete_original_notes", BoolValue(false));
    cfg := SetDefault(cfg, "merge_tags", BoolValue(true));
    cfg := SetDefault(cfg, "only_empty", BoolValue(false));
    cfg := SetDefault(cfg, "reverse_order", BoolValue(false));
    cfg := SetDefault(cfg, "field_separator", StrValue(""));
    cfg := SetDefault(cfg, "shortcut", StrValue("Ctrl+Alt+M"));
    cfg := SetDefault(cfg, "ordering", StrValue("Due"));
    if !IsChoice(cfg["ordering"]) {
      cfg := cfg["ordering" := KeyFunction(GetKey(StrValue("Due")).value)];
    }
  }

  /** The options merge_cards_fields reads, as the types it uses them at. */
  datatype LegacySettings = LegacySettings(
    deleteOriginalNotes: bool,
    mergeTags: bool,
    onlyEmpty: bool,
    reverseOrder: bool,
    fieldSeparator: string,
    ordering: LegacyOrdering)

  /** The options read from a completed dictionary. `delete_original_notes`, `merge_tags`
      and `only_empty` are compared with `is True`; `reverse_order` is handed to `sorted`
      as it is, which, of the values modelled, accepts only a boolean. None when the
      ordering names no key function or `reverse_order` is not a boolean, where
      merge_cards_fields fails, and also when the separator is not a string: the code
      fails on that only at its first appended field, so a run that appends nothing is
      one this model does not represent. */
  function Typed(cfg: map<string, Value>): (r: Option<LegacySettings>)
    requires forall k :: k in Defaults ==> k in cfg
    ensures r.Some? <==>
      cfg["field_separator"].StrValue? && GetKey(cfg["ordering"]).Some? && cfg["reverse_order"].BoolValue?
    ensures r.Some? ==> r.value.onlyEmpty == (cfg["only_empty"] == BoolValue(true))
    ensures r.Some? ==> r.value.reverseOrder == cfg["reverse_order"].b
  {
    var sep, ord, rev := cfg["field_separator"], GetKey(cfg["ordering"]), cfg["reverse_order"];
    if sep.StrValue? && ord.Some? && rev.BoolValue? then
      Some(LegacySettings(
        cfg["delete_original_notes"] == BoolValue(true),
        cfg["merge_tags"] == BoolValue(true),
        cfg["only_empty"] == BoolValue(true),
        rev.b,
        sep.s,
        ord.value))
    else None
  }

  /** As written, a stored ordering that is no name stays unusable: it becomes the
      due_key function, under which OrderingChoices.get_key finds nothing, so
      merge_cards_fields gets no key function. */
  lemma GetConfigLosesOrdering(stored: map<string, Value>)
    requires GetKey(Get(stored, "ordering", StrValue("Due"))).None?
    ensures GetKey(Completed(stored, KeyFunction(ByDue))["ordering"]).None?
    ensures Typed(Completed(stored, KeyFunction(ByDue))).None?
  {
  }

  /** The stored ordering "Random" shows it. */
  lemma GetConfigLosesRandom()
    ensures Typed(Completed(map["ordering" := StrValue("Random")], KeyFunction(ByDue))).None?
  {
    GetConfigLosesOrdering(map["ordering" := StrValue("Random")]);
  }

  /** get_config as intended: an unknown ordering is replaced by the name "Due". */
  function FixedConfig(stored: map<string, Value>): (cfg: map<string, Value>)
    ensures forall k :: k in Defaults ==> k in cfg
    ensures GetKey(cfg["ordering"]).Some?
    ensures GetKey(Get(stored, "ordering", StrValue("Due"))).None? ==> GetKey(cfg["ordering"]) == Some(ByDue)
    ensures (Get(stored, "field_separator", StrValue("")).StrValue?
      && Get(stored, "reverse_order", BoolValue(false)).BoolValue?) ==> Typed(cfg).Some?
  {
    Completed(stored, StrValue("Due"))
  }

  // ---------------------------------------------------------------------------------
  // merge_fields, merge_tags and append
  // ---------------------------------------------------------------------------------

  /** The test merge_fields applies to the donor's field `f`: the donor's value is not
      empty, the receiving note has the field, the "only empty" policy does not protect
      it, and the raw values differ. */
  predicate Appends(to: map<string, string>, from: map<string, string>, f: string, onlyEmpty: bool) {
    && f in from && from[f] != ""
    && f in to
    && !(onlyEmpty && to[f] != "")
    && to[f] != from[f]
  }

  /** One iteration of merge_fields on the receiving note's fields. */
  function FieldStep(to: map<string, string>, from: map<string, string>, f: string, sep: string,
                     onlyEmpty: bool): (r: map<string, string>)
    ensures r.Keys == to.Keys
  {
    if Appends(to, from, f, onlyEmpty) then to[f := to[f] + sep + from[f]] else to
  }

  /** merge_fields on the receiving note's fields, over the donor's field names `keys`. */
  function MergeKeys(to: map<string, string>, from: map<string, string>, keys: seq<string>, sep: string,
                     onlyEmpty: bool): (r: map<string, string>)
    ensures r.Keys == to.Keys
  {
    if keys == [] then to
    else FieldStep(MergeKeys(to, from, keys[..|keys| - 1], sep, onlyEmpty), from, keys[|keys| - 1], sep, onlyEmpty)
  }

  /** The receiving note's field `f` once merge_fields has visited it. */
  function Target(to: map<string, string>, from: map<string, string>, f: string, sep: string,
                  onlyEmpty: bool): string
    requires f in to
  {
    if Appends(to, from, f, onlyEmpty) then to[f] + sep + from[f] else to[f]
  }

  /** Merging a note's fields into themselves changes nothing: raw values agree. */
  lemma {:induction false} MergeKeysSelf(m: map<string, string>, keys: seq<string>, sep: string, onlyEmpty: bool)
    ensures MergeKeys(m, m, keys, sep, onlyEmpty) == m
  {
    if keys != [] {
      MergeKeysSelf(m, keys[..|keys| - 1], sep, onlyEmpty);
    }
  }

  /** Field names are visited once each, so every field is merged on its own from the
      two original values; fields the donor does not list are untouched. */
  lemma {:induction false} MergeKeysFieldwise(to: map<string, string>, from: map<string, string>,
                                              keys: seq<string>, sep: string, onlyEmpty: bool)
    requires Distinct(keys)
    ensures forall f :: f in to ==>
      MergeKeys(to, from, keys, sep, onlyEmpty)[f] == if f in keys then Target(to, from, f, sep, onlyEmpty) else to[f]
  {
    if keys != [] {
      var ks, g := keys[..|keys| - 1], keys[|keys| - 1];
      assert keys == ks + [g];
      assert Distinct(ks);
      assert g !in ks;
      MergeKeysFieldwise(to, from, ks, sep, onlyEmpty);
      var p := MergeKeys(to, from, ks, sep, onlyEmpty);
      assert g in to ==> p[g] == to[g];
      assert Appends(p, from, g, onlyEmpty) == Appends(to, from, g, onlyEmpty);
    }
  }

  /** What merge_fields does to one field: an empty or absent donor value, a protected
      note and a raw-equal value leave it alone; otherwise the separator and the donor's
      value are appended, the separator even to an empty field. The receiving note's
      value is always kept in front, and unless the field is protected the donor's value
      is in the result. */
  lemma FieldOutcome(to: map<string, string>, from: map<string, string>, f: string, sep: string, onlyEmpty: bool)
    requires f in to
    ensures var v := Target(to, from, f, sep, onlyEmpty);
      && ((f !in from || from[f] == "") ==> v == to[f])
      && (onlyEmpty && to[f] != "" ==> v == to[f])
      && (f in from && from[f] == to[f] ==> v == to[f])
      && (f in from && from[f] != "" && to[f] == "" ==> v == sep + from[f])
      && (Appends(to, from, f, onlyEmpty) ==> v == to[f] + sep + from[f])
      && to[f] <= v
      && (f in from && !(onlyEmpty && to[f] != "") ==> IsInfix(from[f], v))
  {
    var v := Target(to, from, f, sep, onlyEmpty);
    if f in from && !(onlyEmpty && to[f] != "") {
      if Appends(to, from, f, onlyEmpty) {
        assert from[f] == v[|to[f]| + |sep|..];
        assert from[f] <= v[|to[f]| + |sep|..];
      } else if from[f] == "" {
        assert from[f] <= v[0..];
      } else {
        assert from[f] <= v[0..];
      }
    }
  }

  /** One iteration of merge_fields: the donor's field `name`. */
  method MergeField(note1: Note, note2: Note, name: string, sep: string, onlyEmpty: bool)
    requires name in note2.fields
    modifies note1
    ensures note1.tags == old(note1.tags)
    ensures note1.fields == FieldStep(old(note1.fields), old(note2.fields), name, sep, onlyEmpty)
  {
    var value := note2.fields[name];
    if !(value != "" && name in note1.fields) {
      return;
    }
    if onlyEmpty && note1.fields[name] != "" {
      return;
    }
    if note1.fields[name] != note2.fields[name] {
      note1.fields := note1.fields[name := note1.fields[name] + sep + note2.fields[name]];
    }
  }

  /** One turn of merge_fields' loop: the donor's `i`-th field. */
  method MergeFieldTurn(note1: Note, note2: Note, ghost to0: map<string, string>, ghost from0: map<string, string>,
                        i: nat, sep: string, onlyEmpty: bool)
    requires i < |note2.keys| && note2.keys[i] in from0
    requires note2.fields == from0 && note1.fields == MergeKeys(to0, from0, note2.keys[..i], sep, onlyEmpty)
    requires note1 == note2 ==> to0 == from0
    modifies note1
    ensures note1.tags == old(note1.tags) && note2.fields == from0
    ensures note1.fields == MergeKeys(to0, from0, note2.keys[..i + 1], sep, onlyEmpty)
  {
    assert note2.keys[..i + 1][..i] == note2.keys[..i];
    MergeField(note1, note2, note2.keys[i], sep, onlyEmpty);
    if note1 == note2 {
      MergeKeysSelf(to0, note2.keys[..i + 1], sep, onlyEmpty);
      MergeKeysSelf(to0, note2.keys[..i], sep, onlyEmpty);
    }
  }

  /** merge_fields: the donor's fields in the order of its note type, each folded into
      the receiving note; the donor itself is not changed. */
  method MergeFields(note1: Note, note2: Note, sep: string, onlyEmpty: bool)
    requires note2.Valid()
    modifies note1
    ensures note1.fields == MergeKeys(old(note1.fields), old(note2.fields), note2.keys, sep, onlyEmpty)
    ensures note1.tags == old(note1.tags)
  {
    ghost var to0, from0 := note1.fields, note2.fields;
    assert forall i :: 0 <= i < |note2.keys| ==> note2.keys[i] in from0;
    for i := 0 to |note2.keys|
      invariant note1.tags == old(note1.tags) && note2.fields == from0
      invariant note1.fields == MergeKeys(to0, from0, note2.keys[..i], sep, onlyEmpty)
    {
      MergeFieldTurn(note1, note2, to0, from0, i, sep, onlyEmpty);
    }
    assert note2.keys[..|note2.keys|] == note2.keys;
  }

  /** The receiving note after append: merged fields, and merged tags when configured. */
  function MergePair(to: NoteRec, from: NoteRec, cfg: LegacySettings): (r: NoteRec)
    ensures MergeNotes.SameShape(r, to)
    ensures r.tags == if cfg.mergeTags then MergedTags(to.tags, from.tags) else to.tags
  {
    to.(fields := MergeKeys(to.fields, from.fields, from.keys, cfg.fieldSeparator, cfg.onlyEmpty),
        tags := if cfg.mergeTags then MergedTags(to.tags, from.tags) else to.tags)
  }

  /** append: adds the content of `note2` to `note1`; `note1` is then written back. */
  method Append(note1: Note, note2: Note, cfg: LegacySettings)
    requires note2.Valid()
    modifies note1
    ensures note1.Rec() == MergePair(old(note1.Rec()), old(note2.Rec()), cfg)
  {
    MergeFields(note1, note2, cfg.fieldSeparator, cfg.onlyEmpty);
    if cfg.mergeTags {
      MergeNotes.MergeTags(note1, note2);
    }
  }

  // ---------------------------------------------------------------------------------
  // merge_cards_fields
  // ---------------------------------------------------------------------------------

  /** The sort key of a card: due_key, or sort_field_key on the card's note. */
  function OrderKey(o: LegacyOrdering, c: Card, n: NoteRec): Key
    requires n.WellFormed()
  {
    match o
    case ByDue => DueKey(c)
    case BySortField => [StrPart(SortFieldKey(n))]
  }

  /** The key of every card, computed once before the sort; `rs[i]` is the note of card `i`. */
  function OrderKeys(o: LegacyOrdering, cards: seq<Card>, rs: seq<NoteRec>): (ks: seq<Key>)
    requires |rs| == |cards| && MergeNotes.AllWellFormed(rs)
    ensures |ks| == |cards| && forall i :: 0 <= i < |cards| ==> ks[i] == OrderKey(o, cards[i], rs[i])
  {
    seq(|cards|, i requires 0 <= i < |cards| => OrderKey(o, cards[i], rs[i]))
  }

  function Range(n: nat): (r: seq<int>)
    ensures |r| == n && forall i :: 0 <= i < n ==> r[i] == i
  {
    seq(n, i => i)
  }

  /** The positions of the cards in the order of `sorted(cards, key=..., reverse=...)`,
      where `ks` holds the keys of the cards. */
  function CardOrder(ks: seq<Key>, reverse: bool): (p: seq<int>)
    ensures |p| == |ks| && forall j :: 0 <= j < |p| ==> 0 <= p[j] < |ks|
  {
    CardOrderSpec(ks, reverse);
    SortByKeys<int>(Range(|ks|), ks, reverse)
  }

  /** The card order lists every position once, sorted stably by the keys. */
  lemma CardOrderSpec(ks: seq<Key>, reverse: bool)
    ensures multiset(SortByKeys<int>(Range(|ks|), ks, reverse)) == multiset(Range(|ks|))
    ensures |SortByKeys<int>(Range(|ks|), ks, reverse)| == |ks|
    ensures forall j :: 0 <= j < |ks| ==> 0 <= SortByKeys<int>(Range(|ks|), ks, reverse)[j] < |ks|
    ensures SortedBy(SortByKeys<int>(Range(|ks|), ks, reverse), CardKey(ks), reverse)
  {
    var key := CardKey(ks);
    var r := Range(|ks|);
    var p := SortByKeys<int>(r, ks, reverse);
    SortByKeysIsSortBy(r, ks, key, reverse);
    SortBySorted(r, key, reverse);
    assert |multiset(p)| == |multiset(r)|;
    MultisetMembers(r, p);
    forall j | 0 <= j < |p| ensures 0 <= p[j] < |ks| {
      var i :| 0 <= i < |r| && r[i] == p[j];
    }
  }

  /** The key of a card position. */
  function CardKey(ks: seq<Key>): int -> Key {
    (i: int) => if 0 <= i < |ks| then ks[i] else []
  }

  /** The elements of `s` at the positions `p`. */
  function Pick<T>(s: seq<T>, p: seq<int>): (r: seq<T>)
    requires forall j :: 0 <= j < |p| ==> 0 <= p[j] < |s|
    ensures |r| == |p| && forall j :: 0 <= j < |p| ==> r[j] == s[p[j]]
  {
    seq(|p|, j requires 0 <= j < |p| => s[p[j]])
  }

  /** The notes of `cardNotes` in order, each but the first with a given id left out. */
  function UniqueById(cardNotes: seq<Note>): (r: seq<Note>)
    ensures |r| <= |cardNotes|
  {
    if cardNotes == [] then []
    else
      var p := UniqueById(cardNotes[..|cardNotes| - 1]);
      var n := cardNotes[|cardNotes| - 1];
      if n.id in Ids(p) then p else p + [n]
  }

  /** "Include notes only once": the note of each card in turn, unless a note with its id
      is already listed. */
  method UniqueNotes(cardNotes: seq<Note>) returns (notes: seq<Note>)
    ensures notes == UniqueById(cardNotes)
  {
    notes := [];
    for j := 0 to |cardNotes|
      invariant notes == UniqueById(cardNotes[..j])
    {
      var note := cardNotes[j];
      var listed := Ids(notes);
      assert cardNotes[..j + 1][..j] == cardNotes[..j];
      if note.id !in listed {
        notes := notes + [note];
      }
    }
    assert cardNotes[..|cardNotes|] == cardNotes;
  }

  /** The notes kept are the first loaded for each id, listed by first appearance, so
      distinct objects. */
  lemma UniqueByIdSpec(cardNotes: seq<Note>)
    ensures Ids(UniqueById(cardNotes)) == FirstOccurrences(Ids(cardNotes))
    ensures forall k :: 0 <= k < |UniqueById(cardNotes)| ==>
      && UniqueById(cardNotes)[k].id in Ids(cardNotes)
      && UniqueById(cardNotes)[k] == cardNotes[FirstIndex(Ids(cardNotes), UniqueById(cardNotes)[k].id)]
    ensures Distinct(UniqueById(cardNotes))
  {
    UniqueByIdIds(cardNotes);
    UniqueByIdFirst(cardNotes);
    FirstOccurrencesDistinct(Ids(cardNotes));
    DistinctIdsDistinct(UniqueById(cardNotes));
  }

  lemma {:induction false} UniqueByIdIds(cardNotes: seq<Note>)
    ensures Ids(UniqueById(cardNotes)) == FirstOccurrences(Ids(cardNotes))
  {
    if cardNotes == [] {
      assert Ids(UniqueById([])) == [] == FirstOccurrences(Ids([]));
    } else {
      var init, x := cardNotes[..|cardNotes| - 1], cardNotes[|cardNotes| - 1];
      assert cardNotes == init + [x];
      UniqueByIdIds(init);
      IdsConcat(init, [x]);
      IdsConcat(UniqueById(init), [x]);
      FirstOccurrencesSnoc(Ids(init), x.id);
    }
  }

  lemma {:induction false} UniqueByIdFirst(cardNotes: seq<Note>)
    ensures forall k :: 0 <= k < |UniqueById(cardNotes)| ==>
      && UniqueById(cardNotes)[k].id in Ids(cardNotes)
      && UniqueById(cardNotes)[k] == cardNotes[FirstIndex(Ids(cardNotes), UniqueById(cardNotes)[k].id)]
  {
    if cardNotes != [] {
      var init, x := cardNotes[..|cardNotes| - 1], cardNotes[|cardNotes| - 1];
      assert cardNotes == init + [x];
      var p := UniqueById(init);
      UniqueByIdFirst(init);
      UniqueByIdIds(init);
      IdsConcat(init, [x]);
      var s := Ids(init);
      assert Ids(cardNotes) == s + [x.id];
      forall k | 0 <= k < |UniqueById(cardNotes)|
        ensures UniqueById(cardNotes)[k].id in s + [x.id]
        ensures UniqueById(cardNotes)[k] == cardNotes[FirstIndex(s + [x.id], UniqueById(cardNotes)[k].id)]
      {
        if k < |p| {
          assert UniqueById(cardNotes)[k] == p[k];
          FirstIndexPrefix(s, x.id, p[k].id);
        } else {
          assert x.id !in Ids(p);
          FirstUnlisted(s, x.id);
        }
      }
    }
  }

  lemma FirstOccurrencesSnoc<T>(s: seq<T>, x: T)
    ensures FirstOccurrences(s + [x]) ==
      if x in FirstOccurrences(s) then FirstOccurrences(s) else FirstOccurrences(s) + [x]
  {
    assert (s + [x])[..|s|] == s;
  }

  /** An element not among the first occurrences so far occurs first at the end. */
  lemma FirstUnlisted<T>(s: seq<T>, x: T)
    requires x !in FirstOccurrences(s)
    ensures FirstIndex(s + [x], x) == |s|
  {
    FirstOccurrencesMembers(s);
    forall i | 0 <= i < |s| ensures s[i] != x {
      assert s[i] in FirstOccurrences(s);
    }
    assert (s + [x])[..|s|] == s;
    FirstIndexUnique(s + [x], x, |s|);
  }

  /** Notes with distinct ids are distinct objects. */
  lemma DistinctIdsDistinct(ns: seq<Note>)
    requires Distinct(Ids(ns))
    ensures Distinct(ns)
  {
    forall i, j | 0 <= i < j < |ns| ensures ns[i] != ns[j] {
      assert Ids(ns)[i] != Ids(ns)[j];
    }
  }

  /** The first of the first occurrences is the first element. */
  lemma {:induction false} FirstOccurrencesHead<T>(s: seq<T>)
    requires s != []
    ensures FirstOccurrences(s) != [] && FirstOccurrences(s)[0] == s[0]
  {
    var init := s[..|s| - 1];
    assert s == init + [s[|s| - 1]];
    if init != [] {
      FirstOccurrencesHead(init);
      assert init[0] == s[0];
    }
  }

  /** The ids passed to remNotes, the ids of the notes after the first, are exactly the
      note ids of the cards other than the first card's, each once. */
  lemma RemovedAllButFirst(ids: seq<NoteId>)
    requires ids != []
    ensures FirstOccurrences(ids)[0] == ids[0]
    ensures forall x :: x in FirstOccurrences(ids)[1..] <==> x in ids && x != ids[0]
    ensures Distinct(FirstOccurrences(ids)[1..])
  {
    var f := FirstOccurrences(ids);
    FirstOccurrencesHead(ids);
    FirstOccurrencesMembers(ids);
    FirstOccurrencesDistinct(ids);
    forall x ensures x in f[1..] <==> x in ids && x != ids[0] {
      if x in f[1..] {
        var i :| 0 <= i < |f[1..]| && f[1..][i] == x;
        assert f[i + 1] == x && f[i + 1] != f[0];
        assert f[i + 1] in ids;
      }
      if x in ids && x != ids[0] {
        var i :| 0 <= i < |ids| && ids[i] == x;
        assert ids[i] in f;
        var g :| 0 <= g < |f| && f[g] == x;
        assert g != 0;
        assert f[1..][g - 1] == x;
      }
    }
    assert Distinct(f[1..]) by {
      forall i, j | 0 <= i < j < |f[1..]| ensures f[1..][i] != f[1..][j] {
        assert f[1..][i] == f[i + 1] && f[1..][j] == f[j + 1];
      }
    }
  }

  /** The receiving note's update, as a value: (receiving note, donor) to the result. */
  type MergeFn = (NoteRec, NoteRec) -> NoteRec

  /** append under one configuration, as a value. */
  function LegacyMerge(cfg: LegacySettings): MergeFn {
    (to: NoteRec, from: NoteRec) => MergePair(to, from, cfg)
  }

  /** Note `k` once the backward fold has passed it: the last note is unchanged, every
      other note has the accumulated next note appended. */
  function BackAcc(rs: seq<NoteRec>, k: nat, merge: MergeFn): NoteRec
    requires k < |rs|
    decreases |rs| - k
  {
    if k == |rs| - 1 then rs[k] else merge(rs[k], BackAcc(rs, k + 1, merge))
  }

  /** The notes once merge_cards_fields' second loop has come down to note `i`: each turn
      appends note `i + 1` to note `i`. */
  function BackFolded(rs: seq<NoteRec>, i: nat, merge: MergeFn): (r: seq<NoteRec>)
    requires i <= |rs|
    ensures |r| == |rs|
    decreases |rs| - i
  {
    if i + 1 >= |rs| then rs else BackStep(BackFolded(rs, i + 1, merge), i, merge)
  }

  /** After the turns down to note `i`, the notes before `i` are untouched and every other
      note holds its accumulated value. */
  lemma {:induction false} BackFoldedAcc(rs: seq<NoteRec>, i: nat, merge: MergeFn)
    requires i <= |rs|
    ensures forall k :: 0 <= k < |rs| ==>
      BackFolded(rs, i, merge)[k] == if k < i then rs[k] else BackAcc(rs, k, merge)
    decreases |rs| - i
  {
    if i + 1 < |rs| {
      BackFoldedAcc(rs, i + 1, merge);
    }
  }

  /** `append(notes[i], notes[i + 1])` on the notes as values. */
  function BackStep(p: seq<NoteRec>, i: nat, merge: MergeFn): seq<NoteRec>
    requires i + 1 < |p|
  {
    p[i := merge(p[i], p[i + 1])]
  }

  /** A merge that changes only contents and tags of the receiving note. */
  ghost predicate ShapeKeeping(merge: MergeFn) {
    forall a: NoteRec, b: NoteRec {:trigger merge(a, b)} :: MergeNotes.SameShape(merge(a, b), a)
  }

  lemma LegacyMergeShape(cfg: LegacySettings)
    ensures ShapeKeeping(LegacyMerge(cfg))
  {
    var merge := LegacyMerge(cfg);
    forall a: NoteRec, b: NoteRec ensures MergeNotes.SameShape(merge(a, b), a) {
      assert merge(a, b) == MergePair(a, b, cfg);
    }
  }

  /** Every accumulated note has the shape of the original. */
  lemma {:induction false} BackAccShape(rs: seq<NoteRec>, k: nat, merge: MergeFn)
    requires k < |rs| && ShapeKeeping(merge)
    ensures MergeNotes.SameShape(BackAcc(rs, k, merge), rs[k])
    decreases |rs| - k
  {
    if k < |rs| - 1 {
      BackAccShape(rs, k + 1, merge);
      assert MergeNotes.SameShape(merge(rs[k], BackAcc(rs, k + 1, merge)), rs[k]);
    }
  }

  /** A merge that, for field `f`, keeps the receiving note's value and takes in the
      donor's. */
  ghost predicate TakesIn(merge: MergeFn, f: string) {
    forall a: NoteRec, b: NoteRec {:trigger merge(a, b)} :: b.WellFormed() && f in a.fields && f in b.fields ==>
      && f in merge(a, b).fields
      && IsInfix(a.fields[f], merge(a, b).fields[f])
      && IsInfix(b.fields[f], merge(a, b).fields[f])
  }

  /** Without the "only empty" policy, append takes every field's donor value in. */
  lemma LegacyMergeTakesIn(cfg: LegacySettings, f: string)
    requires !cfg.onlyEmpty
    ensures TakesIn(LegacyMerge(cfg), f)
  {
    var merge := LegacyMerge(cfg);
    forall a: NoteRec, b: NoteRec | b.WellFormed() && f in a.fields && f in b.fields
      ensures f in merge(a, b).fields
      ensures IsInfix(a.fields[f], merge(a, b).fields[f]) && IsInfix(b.fields[f], merge(a, b).fields[f])
    {
      assert merge(a, b) == MergePair(a, b, cfg);
      MergeKeysFieldwise(a.fields, b.fields, b.keys, cfg.fieldSeparator, false);
      FieldOutcome(a.fields, b.fields, f, cfg.fieldSeparator, false);
      var v := merge(a, b).fields[f];
      assert a.fields[f] <= v[0..];
    }
  }

  /** Without the "only empty" policy, the fold leaves in note `k` the value of field
      `f` of every note from `k` on. */
  lemma {:induction false} BackAccContent(rs: seq<NoteRec>, k: nat, f: string, merge: MergeFn)
    requires k < |rs| && TakesIn(merge, f) && ShapeKeeping(merge)
    requires forall j :: k <= j < |rs| ==> rs[j].WellFormed() && f in rs[j].fields
    ensures f in BackAcc(rs, k, merge).fields
    ensures forall j :: k <= j < |rs| ==> IsInfix(rs[j].fields[f], BackAcc(rs, k, merge).fields[f])
    decreases |rs| - k
  {
    var acc := BackAcc(rs, k, merge);
    if k == |rs| - 1 {
      InfixRefl(rs[k].fields[f]);
    } else {
      var next := BackAcc(rs, k + 1, merge);
      BackAccContent(rs, k + 1, f, merge);
      BackAccShape(rs, k + 1, merge);
      MergeNotes.SameShapeWellFormed(next, rs[k + 1]);
      assert acc == merge(rs[k], next);
      forall j | k <= j < |rs| ensures IsInfix(rs[j].fields[f], acc.fields[f]) {
        if j > k {
          InfixTrans(rs[j].fields[f], next.fields[f], acc.fields[f]);
        }
      }
    }
  }

  /** A merge that gives the receiving note merge_tags' result. */
  ghost predicate MergesTagsIn(merge: MergeFn) {
    forall a: NoteRec, b: NoteRec {:trigger merge(a, b)} :: merge(a, b).tags == MergedTags(a.tags, b.tags)
  }

  lemma LegacyMergeTags(cfg: LegacySettings)
    requires cfg.mergeTags
    ensures MergesTagsIn(LegacyMerge(cfg))
  {
    var merge := LegacyMerge(cfg);
    forall a: NoteRec, b: NoteRec ensures merge(a, b).tags == MergedTags(a.tags, b.tags) {
      assert merge(a, b) == MergePair(a, b, cfg);
    }
  }

  /** With tag merging, note `k` keeps its own tags in front and gains every tag other
      than `leech` of the notes after it; it has `leech` only if it had it. */
  lemma {:induction false} BackAccTags(rs: seq<NoteRec>, k: nat, merge: MergeFn)
    requires k < |rs| && MergesTagsIn(merge)
    ensures rs[k].tags <= BackAcc(rs, k, merge).tags
    ensures forall j, t :: k <= j < |rs| && t in rs[j].tags && t != "leech" ==> t in BackAcc(rs, k, merge).tags
    ensures "leech" in BackAcc(rs, k, merge).tags <==> "leech" in rs[k].tags
    decreases |rs| - k
  {
    if k < |rs| - 1 {
      var next := BackAcc(rs, k + 1, merge);
      BackAccTags(rs, k + 1, merge);
      assert BackAcc(rs, k, merge).tags == MergedTags(rs[k].tags, next.tags);
      MergedTagsSpec(rs[k].tags, next.tags);
      NoLeechAdded(rs[k].tags, next.tags);
    }
  }

  lemma NoLeechAdded(to: seq<string>, from: seq<string>)
    ensures "leech" in MergedTags(to, from) <==> "leech" in to
  {
    MergedTagsNoLeech(to, from);
  }

  /** Under "only empty", merge_fields never changes a non-empty field of the receiving
      note, whatever the donor. */
  lemma {:induction false} MergeKeysProtected(to: map<string, string>, from: map<string, string>,
                                              keys: seq<string>, sep: string, f: string)
    requires f in to && to[f] != ""
    ensures MergeKeys(to, from, keys, sep, true)[f] == to[f]
  {
    if keys != [] {
      MergeKeysProtected(to, from, keys[..|keys| - 1], sep, f);
    }
  }

  /** Under "only empty" the fold never changes a non-empty field of any note, in
      particular of the note that is kept. */
  lemma OnlyEmptyKeeps(rs: seq<NoteRec>, k: nat, f: string, cfg: LegacySettings)
    requires cfg.onlyEmpty && k < |rs| && f in rs[k].fields && rs[k].fields[f] != ""
    ensures f in BackAcc(rs, k, LegacyMerge(cfg)).fields
    ensures BackAcc(rs, k, LegacyMerge(cfg)).fields[f] == rs[k].fields[f]
  {
    if k < |rs| - 1 {
      var next := BackAcc(rs, k + 1, LegacyMerge(cfg));
      assert BackAcc(rs, k, LegacyMerge(cfg)) == MergePair(rs[k], next, cfg);
      MergeKeysProtected(rs[k].fields, next.fields, next.keys, cfg.fieldSeparator, f);
    }
  }

  /** One turn of merge_cards_fields' second loop: `append(notes[i], notes[i + 1])`. */
  method AppendAt(notes: seq<Note>, i: nat, cfg: LegacySettings)
    requires i + 1 < |notes| && Distinct(notes) && notes[i + 1].Valid()
    modifies notes[i]
    ensures Recs(notes) == BackStep(old(Recs(notes)), i, LegacyMerge(cfg))
  {
    ghost var p := Recs(notes);
    Append(notes[i], notes[i + 1], cfg);
    forall j | 0 <= j < |notes| ensures Recs(notes)[j] == p[i := notes[i].Rec()][j] {
      if j != i {
        assert notes[j] != notes[i];
      }
    }
  }

  /** merge_cards_fields for the selected cards `cards`, where `loaded[i]` is the note
      object `cards[i].note()` returns: the cards are sorted by the configured key, their
      notes listed once each, each note from the back appended to the one before it, and
      the ids after the first removed when configured. `flushed` lists the notes written
      back by append, in order; `removed` is what is passed to remNotes. */
  method MergeCardsFields(cards: seq<Card>, loaded: seq<Note>, cfg: LegacySettings)
      returns (notes: seq<Note>, flushed: seq<NoteId>, removed: seq<NoteId>)
    requires |loaded| == |cards| && MergeNotes.AllValid(loaded)
    modifies loaded
    ensures notes == UniqueById(Pick(loaded, CardOrder(OrderKeys(cfg.ordering, cards, old(Recs(loaded))), cfg.reverseOrder)))
    ensures Recs(notes) == BackFolded(old(Recs(notes)), 0, LegacyMerge(cfg))
    ensures forall j :: 0 <= j < |loaded| && loaded[j] !in notes ==> unchanged(loaded[j])
    ensures |flushed| == (if notes == [] then 0 else |notes| - 1)
    ensures forall t :: 0 <= t < |flushed| ==> flushed[t] == notes[|notes| - 2 - t].id
    ensures removed == if cfg.deleteOriginalNotes && notes != [] then Ids(notes)[1..] else []
  {
    MergeNotes.ValidRecs(loaded);
    notes := SelectNotes(cards, loaded, Recs(loaded), cfg);
    flushed := FoldBack(notes, Recs(notes), cfg);
    removed := [];
    if cfg.deleteOriginalNotes {
      var ids := Ids(notes);
      removed := if ids == [] then [] else ids[1..];
    }
  }

  /** merge_cards_fields' first loop: the cards sorted by the configured key, and the note
      of each in turn unless its id is already listed. */
  method SelectNotes(cards: seq<Card>, loaded: seq<Note>, ghost rs: seq<NoteRec>, cfg: LegacySettings)
      returns (notes: seq<Note>)
    requires |loaded| == |cards| && Recs(loaded) == rs && MergeNotes.AllWellFormed(rs)
    ensures notes == UniqueById(Pick(loaded, CardOrder(OrderKeys(cfg.ordering, cards, rs), cfg.reverseOrder)))
    ensures Distinct(notes) && MergeNotes.AllWellFormed(Recs(notes))
    ensures forall k :: 0 <= k < |notes| ==> notes[k] in loaded
  {
    var ks := OrderKeys(cfg.ordering, cards, Recs(loaded));
    var order := CardOrder(ks, cfg.reverseOrder);
    var sorted := Pick(loaded, order);
    notes := UniqueNotes(sorted);
    UniqueByIdSpec(sorted);
    forall k | 0 <= k < |notes| ensures notes[k] in loaded && notes[k].Rec().WellFormed() {
      var g := FirstIndex(Ids(sorted), notes[k].id);
      assert notes[k] == sorted[g] == loaded[order[g]];
      assert loaded[order[g]].Rec() == rs[order[g]];
    }
  }

  /** merge_cards_fields' second loop: from the back, each note appended to the one before
      it; `flushed` lists the notes written back, in order. */
  method FoldBack(notes: seq<Note>, ghost rs: seq<NoteRec>, cfg: LegacySettings)
      returns (flushed: seq<NoteId>)
    requires Distinct(notes) && MergeNotes.AllWellFormed(rs) && Recs(notes) == rs
    modifies notes
    ensures Recs(notes) == BackFolded(rs, 0, LegacyMerge(cfg))
    ensures |flushed| == (if notes == [] then 0 else |notes| - 1)
    ensures forall t :: 0 <= t < |flushed| ==> flushed[t] == notes[|notes| - 2 - t].id
  {
    ghost var merge := LegacyMerge(cfg);
    flushed := [];
    var i: nat := if notes == [] then 0 else |notes| - 1;
    while i > 0
      invariant i == 0 || i < |notes|
      invariant Recs(notes) == BackFolded(rs, i, merge)
      invariant |flushed| == (if notes == [] then 0 else |notes| - 1 - i)
      invariant forall t :: 0 <= t < |flushed| ==> flushed[t] == notes[|notes| - 2 - t].id
    {
      FoldTurnValid(rs, i, cfg);
      AppendAt(notes, i - 1, cfg);
      flushed := flushed + [notes[i - 1].id];
      i := i - 1;
    }
  }

  /** The donor of each turn is well formed. */
  lemma FoldTurnValid(rs: seq<NoteRec>, i: nat, cfg: LegacySettings)
    requires 0 < i < |rs| && MergeNotes.AllWellFormed(rs)
    ensures BackFolded(rs, i, LegacyMerge(cfg))[i].WellFormed()
  {
    BackFoldedAcc(rs, i, LegacyMerge(cfg));
    LegacyMergeShape(cfg);
    BackAccShape(rs, i, LegacyMerge(cfg));
    MergeNotes.SameShapeWellFormed(BackAcc(rs, i, LegacyMerge(cfg)), rs[i]);
  }

}
