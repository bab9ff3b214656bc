/** The merge engine: the comparison normaliser, the field and tag merger and the
    chunk fold that leaves the content of a group of notes in one of them. */
module MergeNotes {
  import opened Strings
  import opened Sorting
  import opened Notes
  import opened Config

  /** The distinct characters of the configured punctuation string. */
  function CharSet(s: string): (p: set<char>)
    ensures forall c :: c in p <==> c in s
  {
    set c | c in s
  }

  /** strip_punctuation: each punctuation character, taken once and in no particular
      order, is deleted from `s` wherever it occurs. */
  method StripPunctuation(s0: string, punctuation: string) returns (s: string)
    ensures s == Without(s0, CharSet(punctuation))
  {
    s := s0;
    var remaining := CharSet(punctuation);
    ghost var done: set<char> := {};
    assert s == Without(s0, {}) by { WithoutNone(s0, {}); }
    while remaining != {}
      invariant remaining + done == CharSet(punctuation)
      invariant s == Without(s0, done)
      decreases remaining
    {
      var c :| c in remaining;
      if c in s {
        ReplaceCharByNothing(s, c);
        s := ReplaceAll(s, [c], []);
      } else {
        WithoutNone(s, {c});
      }
      WithoutUnion(s0, done, {c});
      done := done + {c};
      remaining := remaining - {c};
    }
  }

  /** The full-width digits U+FF10..U+FF19. */
  predicate IsFullWidthDigit(c: char) {
    '\U{FF10}' <= c <= '\U{FF19}'
  }

  /** The folding of one character that normalize_digits performs. */
  function FoldDigit(c: char): (d: char)
    ensures IsFullWidthDigit(c) ==> '0' <= d <= '9' && DigitValue(d) == c as int - 0xFF10
    ensures !IsFullWidthDigit(c) ==> d == c
  {
    if IsFullWidthDigit(c) then DigitChar(c as int - 0xFF10) else c
  }

  /** EQUAL_DIGITS, in the order of its dictionary: one to nine, then zero. */
  const EqualDigits: seq<(char, char)> := [
    ('\U{FF11}', '1'), ('\U{FF12}', '2'), ('\U{FF13}', '3'), ('\U{FF14}', '4'),
    ('\U{FF15}', '5'), ('\U{FF16}', '6'), ('\U{FF17}', '7'), ('\U{FF18}', '8'),
    ('\U{FF19}', '9'), ('\U{FF10}', '0')]

  /** Entry `i` of the table maps the full-width digit (i + 1) % 10 to its ASCII form. */
  lemma EqualDigitsEntries()
    ensures |EqualDigits| == 10
    ensures forall i :: 0 <= i < 10 ==>
      EqualDigits[i].0 as int == 0xFF10 + (i + 1) % 10 && EqualDigits[i].1 == FoldDigit(EqualDigits[i].0)
  {
  }

  /** Position in EqualDigits of a full-width digit. */
  function TableIndex(c: char): (i: nat)
    requires IsFullWidthDigit(c)
    ensures i < 10
  {
    (c as int - 0xFF10 + 9) % 10
  }

  /** A character after the first `k` table entries have been applied. */
  function FoldedBelow(c: char, k: nat): char {
    if IsFullWidthDigit(c) && TableIndex(c) < k then FoldDigit(c) else c
  }

  /** normalize_digits: every full-width digit becomes its ASCII digit. */
  method NormalizeDigits(s0: string) returns (s: string)
    ensures |s| == |s0|
    ensures forall i :: 0 <= i < |s0| ==> s[i] == FoldDigit(s0[i])
  {
    EqualDigitsEntries();
    s := s0;
    for k := 0 to |EqualDigits|
      invariant |s| == |s0|
      invariant forall i :: 0 <= i < |s| ==> s[i] == FoldedBelow(s0[i], k)
    {
      var (n1, n2) := EqualDigits[k];
      ghost var prev := s;
      if n1 in s {
        ReplaceCharByChar(s, n1, n2);
        s := ReplaceAll(s, [n1], [n2]);
      }
      forall i | 0 <= i < |s| ensures s[i] == FoldedBelow(s0[i], k + 1) {
        FoldedBelowStep(s0[i], prev[i], k);
      }
    }
  }

  /** Applying table entry `k` to a character that has seen the entries before it. */
  lemma FoldedBelowStep(c: char, d: char, k: nat)
    requires k < |EqualDigits| && d == FoldedBelow(c, k)
    ensures (if d == EqualDigits[k].0 then EqualDigits[k].1 else d) == FoldedBelow(c, k + 1)
  {
    EqualDigitsEntries();
    if IsFullWidthDigit(c) && TableIndex(c) == k {
      assert c == EqualDigits[k].0;
    }
  }

  /** The pointwise folding that NormalizeDigits computes. */
  function FoldDigits(s: string): (r: string)
    ensures |r| == |s| && forall i :: 0 <= i < |s| ==> r[i] == FoldDigit(s[i])
  {
    if s == [] then [] else [FoldDigit(s[0])] + FoldDigits(s[1..])
  }

  /** The optional stages of cfg_strip, in their order: HTML stripping, punctuation
      removal, digit folding. `html` is the host's stripHTMLMedia. */
  function Normalised(s: string, cfg: Settings, html: string -> string): string {
    var t1 := if cfg.htmlAgnosticComparison then Strip(html(s)) else s;
    var t2 := if cfg.stripPunctuationBeforeComparison then Without(t1, CharSet(cfg.punctuationCharacters)) else t1;
    if cfg.normalizeDigits then FoldDigits(t2) else t2
  }

  /** cfg_strip: the form of a field value that merging and duplicate search compare. */
  function CfgStrip(s: string, cfg: Settings, html: string -> string): string {
    Strip(Normalised(s, cfg, html))
  }

  /** What each stage guarantees of the normalised form. */
  lemma NormalisedSpec(s: string, cfg: Settings, html: string -> string)
    ensures var t := Normalised(s, cfg, html);
      && (cfg.normalizeDigits ==> forall i :: 0 <= i < |t| ==> !IsFullWidthDigit(t[i]))
      && (cfg.stripPunctuationBeforeComparison ==> forall i :: 0 <= i < |t| ==>
            t[i] !in cfg.punctuationCharacters || (cfg.normalizeDigits && '0' <= t[i] <= '9'))
      && (!cfg.htmlAgnosticComparison && !cfg.stripPunctuationBeforeComparison && !cfg.normalizeDigits ==> t == s)
  {
  }

  /** The compared form has no surrounding whitespace, no full-width digits when digits
      are normalised and no punctuation character when punctuation is stripped (save the
      ASCII digits that folding produces); with every option off it is the stripped value. */
  lemma CfgStripSpec(s: string, cfg: Settings, html: string -> string)
    ensures var r := CfgStrip(s, cfg, html);
      && (r == [] || (!IsSpace(r[0]) && !IsSpace(r[|r| - 1])))
      && (cfg.normalizeDigits ==> forall i :: 0 <= i < |r| ==> !IsFullWidthDigit(r[i]))
      && (cfg.stripPunctuationBeforeComparison ==> forall i :: 0 <= i < |r| ==>
            r[i] !in cfg.punctuationCharacters || (cfg.normalizeDigits && '0' <= r[i] <= '9'))
      && (!cfg.htmlAgnosticComparison && !cfg.stripPunctuationBeforeComparison && !cfg.normalizeDigits ==> r == Strip(s))
  {
    var t := Normalised(s, cfg, html);
    NormalisedSpec(s, cfg, html);
    StripInfix(t);
    InfixChars(Strip(t), t);
  }

  /** Normalising a normalised value again changes nothing, unless HTML stripping is on
      or a punctuation character is an ASCII digit that digit folding can produce. */
  lemma CfgStripIdempotent(s: string, cfg: Settings, html: string -> string)
    requires !cfg.htmlAgnosticComparison
    requires cfg.stripPunctuationBeforeComparison && cfg.normalizeDigits ==>
      forall i :: 0 <= i < |cfg.punctuationCharacters| ==> !('0' <= cfg.punctuationCharacters[i] <= '9')
    ensures CfgStrip(CfgStrip(s, cfg, html), cfg, html) == CfgStrip(s, cfg, html)
  {
    var r := CfgStrip(s, cfg, html);
    CfgStripSpec(s, cfg, html);
    if cfg.stripPunctuationBeforeComparison {
      WithoutNone(r, CharSet(cfg.punctuationCharacters));
    }
    if cfg.normalizeDigits {
      assert FoldDigits(r) == r;
    }
    assert Normalised(r, cfg, html) == r;
    StripUnpadded(r);
  }

  /** interpret_special_chars: the escapes \n, \t and \r of the configured separator
      become a newline, a tab and a carriage return. */
  function InterpretSpecialChars(s: string): (r: string)
    ensures NoPair(r, '\\', 'n') && NoPair(r, '\\', 't') && NoPair(r, '\\', 'r')
    ensures |r| <= |s|
    ensures '\\' !in s ==> r == s
  {
    var r1 := ReplaceAll(s, ['\\', 'n'], ['\n']);
    var r2 := ReplaceAll(r1, ['\\', 't'], ['\t']);
    var r3 := ReplaceAll(r2, ['\\', 'r'], ['\r']);
    ReplacePairLeavesNone(s, '\\', 'n', '\n', 't');
    ReplacePairLeavesNone(r1, '\\', 't', '\t', 'n');
    ReplacePairLeavesNone(r2, '\\', 'r', '\r', 'n');
    ReplacePairLeavesNone(r2, '\\', 'r', '\r', 't');
    if '\\' in s then r3
    else
      ReplaceAbsent(s, ['\\', 'n'], ['\n']);
      ReplaceAbsent(s, ['\\', 't'], ['\t']);
      ReplaceAbsent(s, ['\\', 'r'], ['\r']);
      r3
  }

  /** The separator written `a\nb` in the configuration becomes `a`, newline, `b`. */
  lemma InterpretNewline()
    ensures InterpretSpecialChars(['a', '\\', 'n', 'b']) == ['a', '\n', 'b']
  {
    var s := ['a', '\\', 'n', 'b'];
    assert s[..2] != ['\\', 'n'] && s[1..][..2] == ['\\', 'n'];
    var r1 := ['a', '\n', 'b'];
    assert ReplaceAll(s, ['\\', 'n'], ['\n']) == r1 by {
      assert s[1..][2..] == ['b'];
    }
    ReplaceAbsent(r1, ['\\', 't'], ['\t']);
    ReplaceAbsent(r1, ['\\', 'r'], ['\r']);
  }

  /** The test merge_fields applies to field `f` of the donor: the donor's value is not
      blank, the receiving note has the field, the "only empty" policy does not protect
      it, and the two normalised forms differ. `norm` is cfg_strip under the configuration
      in force (CfgStrip with the configuration's options). */
  predicate CanMerge(to: map<string, string>, from: map<string, string>, f: string,
                     cfg: Settings, norm: string -> string)
    requires f in from
  {
    && Strip(from[f]) != []
    && f in to
    && !(cfg.onlyEmpty && to[f] != [])
    && norm(to[f]) != norm(from[f])
  }

  /** The merged value: both stripped, joined by the separator unless the target is blank. */
  function Joined(to: string, from: string, sep: string): string {
    if Strip(to) != [] then Strip(to) + sep + Strip(from) else Strip(from)
  }

  /** One iteration of merge_fields on the two field maps (receiving note, donor). */
  function FieldStep(to: map<string, string>, from: map<string, string>, f: string, sep: string,
                     cfg: Settings, norm: string -> string): (r: (map<string, string>, map<string, string>))
    ensures r.0.Keys == to.Keys && r.1.Keys == from.Keys
  {
    if f in from && CanMerge(to, from, f, cfg, norm) then (to[f := Joined(to[f], from[f], sep)], from[f := Strip(from[f])])
    else (to, from)
  }

  /** merge_fields on the two field maps, over the donor's field names `keys` in order. */
  function MergeKeys(to: map<string, string>, from: map<string, string>, keys: seq<string>, sep: string,
                     cfg: Settings, norm: string -> string): (r: (map<string, string>, map<string, string>))
    ensures r.0.Keys == to.Keys && r.1.Keys == from.Keys
  {
    if keys == [] then (to, from)
    else
      var p := MergeKeys(to, from, keys[..|keys| - 1], sep, cfg, norm);
      FieldStep(p.0, p.1, keys[|keys| - 1], sep, cfg, norm)
  }

  /** Merging a note into itself changes nothing: every normalised form equals itself. */
  lemma {:induction false} MergeKeysSelf(m: map<string, string>, keys: seq<string>, sep: string,
                                         cfg: Settings, norm: string -> string)
    ensures MergeKeys(m, m, keys, sep, cfg, norm) == (m, m)
  {
    if keys != [] {
      MergeKeysSelf(m, keys[..|keys| - 1], sep, cfg, norm);
    }
  }

  /** The receiving note's field `f` after merge_fields. */
  function TargetField(to: map<string, string>, from: map<string, string>, f: string, sep: string,
                       cfg: Settings, norm: string -> string): string
    requires f in to
  {
    if f in from && CanMerge(to, from, f, cfg, norm) then Joined(to[f], from[f], sep) else to[f]
  }

  /** The donor's field `f` after merge_fields: stripped when it was merged. */
  function DonorField(to: map<string, string>, from: map<string, string>, f: string,
                      cfg: Settings, norm: string -> string): string
    requires f in from
  {
    if CanMerge(to, from, f, cfg, norm) then Strip(from[f]) else from[f]
  }

  /** Field names are visited once each, so every field ends up merged on its own,
      from the two original values; fields the donor lacks are untouched. */
  lemma {:induction false} MergeKeysFieldwise(to: map<string, string>, from: map<string, string>, keys: seq<string>,
                                              sep: string, cfg: Settings, norm: string -> string)
    requires Distinct(keys)
    ensures forall f :: f in to ==>
      MergeKeys(to, from, keys, sep, cfg, norm).0[f] == if f in keys then TargetField(to, from, f, sep, cfg, norm) else to[f]
    ensures forall f :: f in from ==>
      MergeKeys(to, from, keys, sep, cfg, norm).1[f] == if f in keys then DonorField(to, from, f, cfg, norm) else from[f]
  {
    if keys != [] {
      var ks := keys[..|keys| - 1];
      var g := keys[|keys| - 1];
      assert keys == ks + [g];
      assert Distinct(ks);
      assert g !in ks;
      MergeKeysFieldwise(to, from, ks, sep, cfg, norm);
      var p := MergeKeys(to, from, ks, sep, cfg, norm);
      assert g in from ==> p.1[g] == from[g];
      assert g in to ==> p.0[g] == to[g];
      assert g in from ==> CanMerge(p.0, p.1, g, cfg, norm) == CanMerge(to, from, g, cfg, norm);
    }
  }

  /** The assignments merge_fields makes to a field that passes the test. */
  method JoinField(addTo: Note, addFrom: Note, f: string, sep: string)
    requires f in addTo.fields && f in addFrom.fields && addTo != addFrom
    modifies addTo, addFrom
    ensures addTo.tags == old(addTo.tags) && addFrom.tags == old(addFrom.tags)
    ensures addTo.fields == old(addTo.fields)[f := Joined(old(addTo.fields)[f], old(addFrom.fields)[f], sep)]
    ensures addFrom.fields == old(addFrom.fields)[f := Strip(old(addFrom.fields)[f])]
  {
    ghost var to0, from0 := addTo.fields, addFrom.fields;
    ghost var dt, df := Strip(to0[f]), Strip(from0[f]);
    addTo.fields := addTo.fields[f := Strip(addTo.fields[f])];
    addFrom.fields := addFrom.fields[f := Strip(addFrom.fields[f])];
    if addTo.fields[f] != [] {
      addTo.fields := addTo.fields[f := addTo.fields[f] + sep + addFrom.fields[f]];
      assert addTo.fields == to0[f := dt + sep + df];
    } else {
      assert addTo.fields[f] + addFrom.fields[f] == df;
      addTo.fields := addTo.fields[f := addTo.fields[f] + addFrom.fields[f]];
      assert addTo.fields == to0[f := df];
    }
  }

  /** One iteration of merge_fields: field `f` of both notes. */
  method MergeField(addTo: Note, addFrom: Note, f: string, sep: string, cfg: Settings, norm: string -> string)
    requires f in addFrom.fields
    modifies addTo, addFrom
    ensures addTo.tags == old(addTo.tags) && addFrom.tags == old(addFrom.tags)
    ensures addTo.fields == FieldStep(old(addTo.fields), old(addFrom.fields), f, sep, cfg, norm).0
    ensures addTo != addFrom ==> addFrom.fields == FieldStep(old(addTo.fields), old(addFrom.fields), f, sep, cfg, norm).1
  {
    var canMerge := CanMerge(addTo.fields, addFrom.fields, f, cfg, norm);
    if canMerge {
      JoinField(addTo, addFrom, f, sep);
    }
  }

  /** merge_fields: folds the donor `addFrom` into `addTo`, field by field in the order
      of the donor's note type. */
  method MergeFields(addTo: Note, addFrom: Note, sep: string, cfg: Settings, norm: string -> string)
    requires addFrom.Valid()
    modifies addTo, addFrom
    ensures addTo.fields == MergeKeys(old(addTo.fields), old(addFrom.fields), addFrom.keys, sep, cfg, norm).0
    ensures addTo != addFrom ==>
      addFrom.fields == MergeKeys(old(addTo.fields), old(addFrom.fields), addFrom.keys, sep, cfg, norm).1
    ensures addTo.tags == old(addTo.tags) && addFrom.tags == old(addFrom.tags)
  {
    ghost var to0, from0 := addTo.fields, addFrom.fields;
    if addTo == addFrom {
      MergeKeysSelf(to0, addFrom.keys, sep, cfg, norm);
    }
    for i := 0 to |addFrom.keys|
      invariant addTo.tags == old(addTo.tags) && addFrom.tags == old(addFrom.tags)
      invariant addTo == addFrom ==> addTo.fields == to0
      invariant addTo != addFrom ==>
        (addTo.fields, addFrom.fields) == MergeKeys(to0, from0, addFrom.keys[..i], sep, cfg, norm)
    {
      assert addFrom.keys[..i + 1][..i] == addFrom.keys[..i];
      MergeField(addTo, addFrom, addFrom.keys[i], sep, cfg, norm);
      if addTo == addFrom {
        MergeKeysSelf(to0, [addFrom.keys[i]], sep, cfg, norm);
        assert FieldStep(to0, to0, addFrom.keys[i], sep, cfg, norm).0 == to0;
      }
    }
    assert addFrom.keys[..|addFrom.keys|] == addFrom.keys;
  }

  /** What merging does to one field: the receiving note keeps its own stripped content;
      it gains the donor's stripped content unless the "only empty" policy protects it or
      the two normalised forms agree; a protected note keeps its value exactly; a blank
      target takes the donor's value without a separator; the donor's stripped content
      is unchanged. */
  lemma MergeFieldOutcome(to: map<string, string>, from: map<string, string>, f: string, sep: string,
                          cfg: Settings, norm: string -> string)
    requires f in to && f in from
    ensures var v := TargetField(to, from, f, sep, cfg, norm);
      && IsInfix(Strip(to[f]), v)
      && (!(cfg.onlyEmpty && to[f] != []) ==>
            IsInfix(Strip(from[f]), v) || norm(to[f]) == norm(from[f]))
      && (cfg.onlyEmpty && to[f] != [] ==> v == to[f])
      && (CanMerge(to, from, f, cfg, norm) && Strip(to[f]) == [] ==> v == Strip(from[f]))
    ensures Strip(DonorField(to, from, f, cfg, norm)) == Strip(from[f])
  {
    var a, b := Strip(to[f]), Strip(from[f]);
    StripInfix(to[f]);
    StripInfix(from[f]);
    StripIdempotent(from[f]);
    if CanMerge(to, from, f, cfg, norm) {
      if a != [] {
        InfixOfConcat(a, sep + b);
        InfixOfConcat(sep, b);
        InfixTrans(b, sep + b, a + (sep + b));
        assert a + sep + b == a + (sep + b);
      } else {
        assert a <= b[0..];
        InfixRefl(b);
      }
    } else if !(cfg.onlyEmpty && to[f] != []) {
      if b == [] {
        assert b <= to[f][0..];
      }
    }
  }

  /** merge_tags: every donor tag other than `leech` that the receiving note lacks is
      appended to it, in the donor's order. */
  method MergeTags(addTo: Note, addFrom: Note)
    modifies addTo
    ensures addTo.tags == MergedTags(old(addTo.tags), old(addFrom.tags))
    ensures addTo.fields == old(addTo.fields)
  {
    var donor := addFrom.tags;
    ghost var t0 := addTo.tags;
    for i := 0 to |donor|
      invariant addTo.tags == MergedTags(t0, donor[..i])
      invariant addTo.fields == old(addTo.fields)
    {
      assert donor[..i + 1][..i] == donor[..i];
      var tag := donor[i];
      if tag == "leech" {
        continue;
      }
      if tag !in addTo.tags {
        addTo.tags := addTo.tags + [tag];
      }
    }
    assert donor[..|donor|] == donor;
  }

  /** pairs: each element with its successor, in order. */
  function Pairs<T>(s: seq<T>): (r: seq<(T, T)>)
    ensures |r| == if |s| < 2 then 0 else |s| - 1
    ensures forall i :: 0 <= i < |r| ==> r[i] == (s[i], s[i + 1])
  {
    if |s| < 2 then [] else [(s[0], s[1])] + Pairs(s[1..])
  }

  /** fields_in_notes: every field name of every note. */
  function FieldsInNotes(notes: seq<Note>): (r: set<string>)
    ensures forall f :: f in r <==> exists i :: 0 <= i < |notes| && f in notes[i].keys
  {
    if notes == [] then {}
    else
      var rest := FieldsInNotes(notes[1..]);
      assert forall i :: 1 <= i < |notes| ==> notes[i] == notes[1..][i - 1];
      NameSet(notes[0].keys) + rest
  }

  function NameSet(keys: seq<string>): (r: set<string>)
    ensures forall f :: f in r <==> f in keys
  {
    set f | f in keys
  }

  /** The reorder key: how many of the note's fields are in `all`. */
  function CommonCount(keys: seq<string>, all: set<string>): (n: nat)
    ensures n <= |keys|
  {
    if keys == [] then 0 else (if keys[0] in all then 1 else 0) + CommonCount(keys[1..], all)
  }

  /** When `all` holds every field name, the key is the note's field count. */
  lemma {:induction false} CommonCountAll(keys: seq<string>, all: set<string>)
    requires forall i :: 0 <= i < |keys| ==> keys[i] in all
    ensures CommonCount(keys, all) == |keys|
  {
    if keys != [] {
      CommonCountAll(keys[1..], all);
    }
  }

  function CommonFieldsKey(all: set<string>): Note -> Key {
    (n: Note) => [IntPart(CommonCount(n.keys, all))]
  }

  function FieldCountKey(): Note -> Key {
    (n: Note) => [IntPart(|n.keys|)]
  }

  /** reorder_by_common_fields: a stable ascending sort on the number of the note's
      fields found among all the chunk's fields. */
  function ReorderByCommonFields(notes: seq<Note>): seq<Note> {
    SortBy(notes, CommonFieldsKey(FieldsInNotes(notes)), false)
  }

  /** The reorder is a stable ascending sort on the notes' field counts: the union of
      all field names holds every field of every note. */
  lemma ReorderByFieldCount(notes: seq<Note>)
    ensures ReorderByCommonFields(notes) == SortBy(notes, FieldCountKey(), false)
    ensures multiset(ReorderByCommonFields(notes)) == multiset(notes)
    ensures SortedBy(ReorderByCommonFields(notes), FieldCountKey(), false)
    ensures forall k :: WithKey(ReorderByCommonFields(notes), FieldCountKey(), k) == WithKey(notes, FieldCountKey(), k)
  {
    var all := FieldsInNotes(notes);
    forall i | 0 <= i < |notes| ensures CommonFieldsKey(all)(notes[i]) == FieldCountKey()(notes[i]) {
      forall j | 0 <= j < |notes[i].keys| ensures notes[i].keys[j] in all {
        assert notes[i].keys[j] in notes[i].keys;
      }
      CommonCountAll(notes[i].keys, all);
    }
    SortByCongruent(notes, CommonFieldsKey(all), FieldCountKey(), false);
    SortBySorted(notes, FieldCountKey(), false);
    forall k {
      SortByStable(notes, FieldCountKey(), false, k);
    }
  }

  /** A pair merge: (receiving note, donor) to (receiving note, donor) afterwards. */
  type PairMergeFn = (NoteRec, NoteRec) -> (NoteRec, NoteRec)

  /** A field merge: (receiving fields, donor fields, donor field names) to receiving fields. */
  type FieldMergeFn = (map<string, string>, map<string, string>, seq<string>) -> map<string, string>

  /** A tag merge: (receiving tags, donor tags) to receiving tags. */
  type TagMergeFn = (seq<string>, seq<string>) -> seq<string>

  /** Two snapshots of one note differ at most in field contents and tags. */
  ghost predicate SameShape(a: NoteRec, b: NoteRec) {
    a.id == b.id && a.keys == b.keys && a.sortf == b.sortf && a.cards == b.cards && a.fields.Keys == b.fields.Keys
  }

  /** One pair of the chunk: the donor `from` merged into `to`, fields then tags. */
  function MergePair(to: NoteRec, from: NoteRec, sep: string, cfg: Settings, norm: string -> string): (r: (NoteRec, NoteRec))
    ensures SameShape(r.0, to) && SameShape(r.1, from)
    ensures r.0.tags == if cfg.mergeTags then MergedTags(to.tags, from.tags) else to.tags
    ensures r.1.tags == from.tags
  {
    var m := MergeKeys(to.fields, from.fields, from.keys, sep, cfg, norm);
    (to.(fields := m.0, tags := if cfg.mergeTags then MergedTags(to.tags, from.tags) else to.tags),
     from.(fields := m.1))
  }

  /** MergePair under one configuration, as a value: (receiving note, donor) to both results. */
  function PairMerge(sep: string, cfg: Settings, norm: string -> string): PairMergeFn {
    (to: NoteRec, from: NoteRec) => MergePair(to, from, sep, cfg, norm)
  }

  /** Only contents and tags differ, so the host's guarantees carry over. */
  lemma SameShapeWellFormed(a: NoteRec, b: NoteRec)
    requires SameShape(a, b) && b.WellFormed()
    ensures a.WellFormed()
  {
  }

  ghost predicate AllWellFormed(rs: seq<NoteRec>) {
    forall i :: 0 <= i < |rs| ==> rs[i].WellFormed()
  }

  /** Note by note, `r` differs from `rs` only in contents and tags. */
  ghost predicate SameShapes(r: seq<NoteRec>, rs: seq<NoteRec>) {
    |r| == |rs| && forall i :: 0 <= i < |rs| ==> SameShape(r[i], rs[i])
  }

  lemma SameShapesWellFormed(r: seq<NoteRec>, rs: seq<NoteRec>)
    requires SameShapes(r, rs) && AllWellFormed(rs)
    ensures AllWellFormed(r)
  {
    forall i | 0 <= i < |r| ensures r[i].WellFormed() {
      SameShapeWellFormed(r[i], rs[i]);
    }
  }

  /** A pair merge that changes only contents and tags of both notes. */
  ghost predicate ShapePreserving(merge: PairMergeFn) {
    forall a, b :: SameShape(merge(a, b).0, a) && SameShape(merge(a, b).1, b)
  }

  /** A pair merge that leaves the tags of both notes alone. */
  ghost predicate TagPreserving(merge: PairMergeFn) {
    forall a, b :: merge(a, b).0.tags == a.tags && merge(a, b).1.tags == b.tags
  }

  /** Merging a pair keeps both notes' ids, note types and cards, and with tag merging
      off it keeps their tags. */
  lemma PairMergeShape(sep: string, cfg: Settings, norm: string -> string)
    ensures ShapePreserving(PairMerge(sep, cfg, norm))
    ensures !cfg.mergeTags ==> TagPreserving(PairMerge(sep, cfg, norm))
  {
    var merge := PairMerge(sep, cfg, norm);
    forall a, b ensures SameShape(merge(a, b).0, a) && SameShape(merge(a, b).1, b) {
      assert merge(a, b) == MergePair(a, b, sep, cfg, norm);
    }
    if !cfg.mergeTags {
      forall a, b ensures merge(a, b).0.tags == a.tags && merge(a, b).1.tags == b.tags {
        assert merge(a, b) == MergePair(a, b, sep, cfg, norm);
      }
    }
  }

  /** Pair `k` of the chunk: note `k - 1` merged into note `k`. */
  function FoldStep(p: seq<NoteRec>, k: nat, merge: PairMergeFn): (r: seq<NoteRec>)
    requires 0 < k < |p|
    ensures |r| == |p|
  {
    var m := merge(p[k], p[k - 1]);
    p[k := m.0][k - 1 := m.1]
  }

  /** The chunk after its first `k` pairs have been merged. */
  function FoldUpTo(rs: seq<NoteRec>, k: nat, merge: PairMergeFn): (r: seq<NoteRec>)
    requires k == 0 || k < |rs|
    ensures |r| == |rs|
  {
    if k == 0 then rs else FoldStep(FoldUpTo(rs, k - 1, merge), k, merge)
  }

  /** _merge_chunk's loop over all consecutive pairs. */
  function FoldChunk(rs: seq<NoteRec>, merge: PairMergeFn): (r: seq<NoteRec>)
    ensures |r| == |rs|
  {
    if rs == [] then rs else FoldUpTo(rs, |rs| - 1, merge)
  }

  /** Note `k` once the fold has reached it: the original note `k` with the accumulated
      note `k - 1` merged in. */
  function Accumulated(rs: seq<NoteRec>, k: nat, merge: PairMergeFn): NoteRec
    requires k < |rs|
  {
    if k == 0 then rs[0] else merge(rs[k], Accumulated(rs, k - 1, merge)).0
  }

  /** After `k` pairs, note `k` is the accumulated note and the notes after it are
      untouched. */
  lemma {:induction false} FoldUpToAcc(rs: seq<NoteRec>, k: nat, merge: PairMergeFn)
    requires k < |rs|
    ensures FoldUpTo(rs, k, merge)[k] == Accumulated(rs, k, merge)
    ensures forall i :: k < i < |rs| ==> FoldUpTo(rs, k, merge)[i] == rs[i]
  {
    if k > 0 {
      FoldUpToAcc(rs, k - 1, merge);
    }
  }

  /** A shape-preserving merge keeps the shape of the whole chunk. */
  lemma {:induction false} FoldUpToShape(rs: seq<NoteRec>, k: nat, merge: PairMergeFn)
    requires k == 0 || k < |rs|
    requires ShapePreserving(merge)
    ensures SameShapes(FoldUpTo(rs, k, merge), rs)
  {
    if k > 0 {
      FoldUpToShape(rs, k - 1, merge);
      var p := FoldUpTo(rs, k - 1, merge);
      var m := merge(p[k], p[k - 1]);
      assert FoldUpTo(rs, k, merge) == p[k := m.0][k - 1 := m.1];
    }
  }

  /** A tag-preserving merge keeps the tags of the whole chunk. */
  lemma {:induction false} FoldUpToTags(rs: seq<NoteRec>, k: nat, merge: PairMergeFn)
    requires k == 0 || k < |rs|
    requires TagPreserving(merge)
    ensures forall i :: 0 <= i < |rs| ==> FoldUpTo(rs, k, merge)[i].tags == rs[i].tags
  {
    if k > 0 {
      FoldUpToTags(rs, k - 1, merge);
      var p := FoldUpTo(rs, k - 1, merge);
      var m := merge(p[k], p[k - 1]);
      assert FoldUpTo(rs, k, merge) == p[k := m.0][k - 1 := m.1];
    }
  }

  /** merge_fields on the receiving note's fields, the donor's fields and the donor's
      field names. */
  function FieldMerge(sep: string, cfg: Settings, norm: string -> string): FieldMergeFn {
    (to: map<string, string>, from: map<string, string>, keys: seq<string>) => MergeKeys(to, from, keys, sep, cfg, norm).0
  }

  /** What merge_tags does to the receiving note's tags, or nothing when tag merging is off. */
  function TagMerge(mergeTags: bool): TagMergeFn {
    (to: seq<string>, from: seq<string>) => if mergeTags then MergedTags(to, from) else to
  }

  /** The fields of note `k` once the fold has reached it: its own fields with the
      accumulated fields of note `k - 1` merged in. */
  function AccFields(rs: seq<NoteRec>, k: nat, fieldMerge: FieldMergeFn): map<string, string>
    requires k < |rs|
  {
    if k == 0 then rs[0].fields else fieldMerge(rs[k].fields, AccFields(rs, k - 1, fieldMerge), rs[k - 1].keys)
  }

  /** The tags of note `k` once the fold has reached it. */
  function AccTags(rs: seq<NoteRec>, k: nat, tagMerge: TagMergeFn): seq<string>
    requires k < |rs|
  {
    if k == 0 then rs[0].tags else tagMerge(rs[k].tags, AccTags(rs, k - 1, tagMerge))
  }

  /** A pair merge that gives the receiving note the tags `tagMerge` computes. */
  ghost predicate MergesTags(merge: PairMergeFn, tagMerge: TagMergeFn) {
    forall a, b {:trigger merge(a, b)} :: merge(a, b).0.tags == tagMerge(a.tags, b.tags)
  }

  /** A pair merge that gives the receiving note the fields `fieldMerge` computes from
      both notes' fields and the donor's field names. */
  ghost predicate MergesFields(merge: PairMergeFn, fieldMerge: FieldMergeFn) {
    forall a, b {:trigger merge(a, b)} :: merge(a, b).0.fields == fieldMerge(a.fields, b.fields, b.keys)
  }

  /** _merge_chunk's pair merge does to the receiving note what merge_fields and
      merge_tags do. */
  lemma PairMergeSpec(sep: string, cfg: Settings, norm: string -> string)
    ensures MergesTags(PairMerge(sep, cfg, norm), TagMerge(cfg.mergeTags))
    ensures MergesFields(PairMerge(sep, cfg, norm), FieldMerge(sep, cfg, norm))
  {
    var merge := PairMerge(sep, cfg, norm);
    forall a, b ensures merge(a, b).0.tags == TagMerge(cfg.mergeTags)(a.tags, b.tags) {
      assert merge(a, b) == MergePair(a, b, sep, cfg, norm);
    }
    forall a, b ensures merge(a, b).0.fields == FieldMerge(sep, cfg, norm)(a.fields, b.fields, b.keys) {
      assert merge(a, b) == MergePair(a, b, sep, cfg, norm);
    }
  }

  /** The accumulated note has note `k`'s shape. */
  lemma {:induction false} AccumulatedShape(rs: seq<NoteRec>, k: nat, merge: PairMergeFn)
    requires k < |rs| && ShapePreserving(merge)
    ensures SameShape(Accumulated(rs, k, merge), rs[k])
  {
    if k > 0 {
      AccumulatedShape(rs, k - 1, merge);
    }
  }

  /** The accumulated note has the accumulated tags. */
  lemma {:induction false} AccumulatedTags(rs: seq<NoteRec>, k: nat, merge: PairMergeFn, tagMerge: TagMergeFn)
    requires k < |rs| && MergesTags(merge, tagMerge)
    ensures Accumulated(rs, k, merge).tags == AccTags(rs, k, tagMerge)
  {
    if k > 0 {
      AccumulatedTags(rs, k - 1, merge, tagMerge);
    }
  }

  /** The accumulated note has the accumulated fields. */
  lemma {:induction false} AccumulatedFields(rs: seq<NoteRec>, k: nat, merge: PairMergeFn, fieldMerge: FieldMergeFn)
    requires k < |rs| && ShapePreserving(merge) && MergesFields(merge, fieldMerge)
    ensures Accumulated(rs, k, merge).fields == AccFields(rs, k, fieldMerge)
  {
    if k > 0 {
      AccumulatedFields(rs, k - 1, merge, fieldMerge);
      AccumulatedShape(rs, k - 1, merge);
    }
  }

  /** With tag merging on, the accumulated tags of note `k` are its own tags followed by every
      other tag of notes 0 to `k` except `leech`, and nothing else; `leech` is there exactly
      when note `k` had it. */
  lemma {:induction false} AccTagsSpec(rs: seq<NoteRec>, k: nat)
    requires k < |rs|
    ensures var acc := AccTags(rs, k, TagMerge(true));
      && rs[k].tags <= acc
      && (forall i, t :: 0 <= i <= k && t in rs[i].tags && t != "leech" ==> t in acc)
      && (forall t :: t in acc ==> t in rs[k].tags || exists i :: 0 <= i < k && t in rs[i].tags && t != "leech")
      && ("leech" in acc <==> "leech" in rs[k].tags)
  {
    if k > 0 {
      AccTagsSpec(rs, k - 1);
      var prev := AccTags(rs, k - 1, TagMerge(true));
      var acc := AccTags(rs, k, TagMerge(true));
      assert acc == MergedTags(rs[k].tags, prev);
      MergedTagsSpec(rs[k].tags, prev);
      MergedTagsNoLeech(rs[k].tags, prev);
      forall t | t in acc ensures t in rs[k].tags || exists i :: 0 <= i < k && t in rs[i].tags && t != "leech" {
        if t !in rs[k].tags {
          assert t in prev && t != "leech";
          if t !in rs[k - 1].tags {
            var i :| 0 <= i < k - 1 && t in rs[i].tags && t != "leech";
          }
        }
      }
    }
  }

  /** Under the plain comparison and no "only empty" policy, merge_fields leaves the
      receiving note's field `f` holding both notes' stripped content of it. */
  lemma MergeKeysContent(to: map<string, string>, from: map<string, string>, keys: seq<string>, f: string,
                         sep: string, cfg: Settings, norm: string -> string)
    requires Distinct(keys) && f in keys && f in to && f in from && !cfg.onlyEmpty
    requires forall s :: norm(s) == Strip(s)
    ensures IsInfix(Strip(to[f]), MergeKeys(to, from, keys, sep, cfg, norm).0[f])
    ensures IsInfix(Strip(from[f]), MergeKeys(to, from, keys, sep, cfg, norm).0[f])
  {
    MergeKeysFieldwise(to, from, keys, sep, cfg, norm);
    MergeFieldOutcome(to, from, f, sep, cfg, norm);
  }

  /** A field merge that keeps the receiving note's field names and, for field `f` of
      the donor's note type when both have it, the stripped content of both. */
  ghost predicate KeepsContent(fieldMerge: FieldMergeFn, f: string) {
    forall to, from, keys :: Distinct(keys) && f in keys && f in to && f in from ==>
      && f in fieldMerge(to, from, keys)
      && IsInfix(Strip(to[f]), fieldMerge(to, from, keys)[f])
      && IsInfix(Strip(from[f]), fieldMerge(to, from, keys)[f])
  }

  /** merge_fields keeps both contents under the plain comparison and no "only empty" policy. */
  lemma FieldMergeContent(f: string, sep: string, cfg: Settings, norm: string -> string)
    requires !cfg.onlyEmpty && forall s :: norm(s) == Strip(s)
    ensures KeepsContent(FieldMerge(sep, cfg, norm), f)
  {
    forall to, from, keys | Distinct(keys) && f in keys && f in to && f in from
      ensures && f in FieldMerge(sep, cfg, norm)(to, from, keys)
              && IsInfix(Strip(to[f]), FieldMerge(sep, cfg, norm)(to, from, keys)[f])
              && IsInfix(Strip(from[f]), FieldMerge(sep, cfg, norm)(to, from, keys)[f])
    {
      MergeKeysContent(to, from, keys, f, sep, cfg, norm);
    }
  }

  /** `v` contains the stripped content of field `f` of every note from 0 to `k`
      that has the field. */
  ghost predicate ContainsAll(rs: seq<NoteRec>, k: nat, f: string, v: string) {
    forall i :: 0 <= i <= k && i < |rs| && f in rs[i].fields ==> IsInfix(Strip(rs[i].fields[f]), v)
  }

  /** Containment up to note `k - 1` in `u` extends to note `k` in any `v` that holds
      the stripped `u` and the stripped field of note `k`. */
  lemma ContainsAllStep(rs: seq<NoteRec>, k: nat, f: string, u: string, v: string)
    requires 0 < k < |rs| && f in rs[k].fields
    requires ContainsAll(rs, k - 1, f, u) && IsInfix(Strip(u), v) && IsInfix(Strip(rs[k].fields[f]), v)
    ensures ContainsAll(rs, k, f, v)
  {
    forall i | 0 <= i <= k && i < |rs| && f in rs[i].fields ensures IsInfix(Strip(rs[i].fields[f]), v) {
      if i < k {
        InfixThroughStrip(rs[i].fields[f], u, v);
      }
    }
  }

  /** When every note is well formed and has field `f`, and the field merge keeps content,
      the accumulated field `f` of note `k` contains the stripped content of field `f` of
      every note from 0 to `k`. */
  lemma {:induction false} AccFieldsContent(rs: seq<NoteRec>, k: nat, f: string, fieldMerge: FieldMergeFn)
    requires k < |rs| && AllWellFormed(rs) && KeepsContent(fieldMerge, f)
    requires forall i :: 0 <= i < |rs| ==> f in rs[i].fields
    ensures f in AccFields(rs, k, fieldMerge)
    ensures ContainsAll(rs, k, f, AccFields(rs, k, fieldMerge)[f])
  {
    if k == 0 {
      StripInfix(rs[0].fields[f]);
    } else {
      AccFieldsContent(rs, k - 1, f, fieldMerge);
      var u, v := AccFields(rs, k - 1, fieldMerge), AccFields(rs, k, fieldMerge);
      assert v == fieldMerge(rs[k].fields, u, rs[k - 1].keys);
      assert rs[k - 1].WellFormed();
      ContainsAllStep(rs, k, f, u[f], v[f]);
    }
  }

  /** The note _merge_chunk keeps, the last one (`k`), is the accumulated note of the chunk. */
  lemma FoldChunkLast(rs: seq<NoteRec>, k: nat, merge: PairMergeFn)
    requires k + 1 == |rs|
    ensures FoldChunk(rs, merge)[k] == Accumulated(rs, k, merge)
  {
    FoldUpToAcc(rs, k, merge);
  }

  /** _merge_chunk with tag merging: the note it keeps (the last, `k`) ends up with all its
      own tags and every other tag of the chunk except `leech`, and no others. */
  lemma FoldChunkTags(rs: seq<NoteRec>, k: nat, sep: string, cfg: Settings, norm: string -> string)
    requires k + 1 == |rs| && cfg.mergeTags
    ensures var last := FoldChunk(rs, PairMerge(sep, cfg, norm))[k].tags;
      && rs[k].tags <= last
      && (forall i, t :: 0 <= i <= k && t in rs[i].tags && t != "leech" ==> t in last)
      && (forall t :: t in last ==> t in rs[k].tags || exists i :: 0 <= i < k && t in rs[i].tags && t != "leech")
      && ("leech" in last <==> "leech" in rs[k].tags)
  {
    FoldChunkLast(rs, k, PairMerge(sep, cfg, norm));
    PairMergeSpec(sep, cfg, norm);
    AccumulatedTags(rs, k, PairMerge(sep, cfg, norm), TagMerge(true));
    AccTagsSpec(rs, k);
  }

  /** _merge_chunk with the plain comparison and no "only empty" policy: the note it keeps
      (the last, `k`) contains the stripped content of every note of the chunk in each
      shared field. */
  lemma FoldChunkContent(rs: seq<NoteRec>, k: nat, f: string, sep: string, cfg: Settings, norm: string -> string)
    requires k + 1 == |rs| && AllWellFormed(rs) && !cfg.onlyEmpty
    requires forall s :: norm(s) == Strip(s)
    requires forall i :: 0 <= i < |rs| ==> f in rs[i].fields
    ensures f in FoldChunk(rs, PairMerge(sep, cfg, norm))[k].fields
    ensures forall i :: 0 <= i <= k ==>
      IsInfix(Strip(rs[i].fields[f]), FoldChunk(rs, PairMerge(sep, cfg, norm))[k].fields[f])
  {
    FoldChunkLast(rs, k, PairMerge(sep, cfg, norm));
    PairMergeSpec(sep, cfg, norm);
    PairMergeShape(sep, cfg, norm);
    AccumulatedFields(rs, k, PairMerge(sep, cfg, norm), FieldMerge(sep, cfg, norm));
    FieldMergeContent(f, sep, cfg, norm);
    AccFieldsContent(rs, k, f, FieldMerge(sep, cfg, norm));
  }

  /** Merging keeps every note's id, note type and cards: the host can write each back. */
  lemma FoldChunkShape(rs: seq<NoteRec>, sep: string, cfg: Settings, norm: string -> string)
    ensures SameShapes(FoldChunk(rs, PairMerge(sep, cfg, norm)), rs)
    ensures AllWellFormed(rs) ==> AllWellFormed(FoldChunk(rs, PairMerge(sep, cfg, norm)))
  {
    PairMergeShape(sep, cfg, norm);
    if rs != [] {
      FoldUpToShape(rs, |rs| - 1, PairMerge(sep, cfg, norm));
    }
    if AllWellFormed(rs) {
      SameShapesWellFormed(FoldChunk(rs, PairMerge(sep, cfg, norm)), rs);
    }
  }

  /** _merge_chunk with tag merging off leaves every note's tags alone. */
  lemma FoldChunkTagsOff(rs: seq<NoteRec>, sep: string, cfg: Settings, norm: string -> string)
    requires !cfg.mergeTags
    ensures forall i :: 0 <= i < |rs| ==> FoldChunk(rs, PairMerge(sep, cfg, norm))[i].tags == rs[i].tags
  {
    PairMergeShape(sep, cfg, norm);
    if rs != [] {
      FoldUpToTags(rs, |rs| - 1, PairMerge(sep, cfg, norm));
    }
  }

  /** The order in which _merge_chunk folds the notes. */
  function ChunkOrder(notes: seq<Note>, cfg: Settings): (r: seq<Note>)
    ensures multiset(r) == multiset(notes) && |r| == |notes|
    ensures forall i :: 0 <= i < |r| ==> r[i] in notes
    ensures !cfg.avoidContentLoss ==> r == notes
  {
    if cfg.avoidContentLoss then
      ReorderByFieldCount(notes);
      MultisetMembers(notes, ReorderByCommonFields(notes));
      assert |multiset(ReorderByCommonFields(notes))| == |multiset(notes)|;
      ReorderByCommonFields(notes)
    else notes
  }

  ghost predicate AllValid(ns: seq<Note>)
    reads ns
  {
    forall j :: 0 <= j < |ns| ==> ns[j].Valid()
  }

  lemma ValidRecs(ns: seq<Note>)
    requires AllValid(ns)
    ensures AllWellFormed(Recs(ns))
  {
  }

  /** The body of _merge_chunk's loop for one pair: fields, then tags when configured. */
  method MergeInto(addTo: Note, addFrom: Note, sep: string, cfg: Settings, norm: string -> string)
    requires addFrom.Valid() && addTo != addFrom
    modifies addTo, addFrom
    ensures addTo.Rec() == MergePair(old(addTo.Rec()), old(addFrom.Rec()), sep, cfg, norm).0
    ensures addFrom.Rec() == MergePair(old(addTo.Rec()), old(addFrom.Rec()), sep, cfg, norm).1
  {
    MergeFields(addTo, addFrom, sep, cfg, norm);
    if cfg.mergeTags {
      MergeTags(addTo, addFrom);
    }
  }

  /** One iteration of _merge_chunk's loop: note `i` merged into note `i + 1`. */
  method MergeNeighbours(ns: seq<Note>, i: nat, sep: string, cfg: Settings, norm: string -> string)
    requires i + 1 < |ns| && Distinct(ns) && ns[i].Valid()
    modifies ns[i], ns[i + 1]
    ensures Recs(ns) == FoldStep(old(Recs(ns)), i + 1, PairMerge(sep, cfg, norm))
  {
    var addFrom, addTo := ns[i], ns[i + 1];
    ghost var p := Recs(ns);
    MergeInto(addTo, addFrom, sep, cfg, norm);
    forall j | 0 <= j < |ns| ensures Recs(ns)[j] == p[i + 1 := addTo.Rec()][i := addFrom.Rec()][j] {
      if j != i && j != i + 1 {
        assert ns[j] != addTo && ns[j] != addFrom;
      }
    }
  }

  /** _merge_chunk's loop: each note merged into its successor, front to back. */
  method FoldInPlace(ns: seq<Note>, ghost rs: seq<NoteRec>, sep: string, cfg: Settings, norm: string -> string)
    requires Distinct(ns) && AllWellFormed(rs) && Recs(ns) == rs
    modifies ns
    ensures Recs(ns) == FoldChunk(rs, PairMerge(sep, cfg, norm))
  {
    ghost var merge := PairMerge(sep, cfg, norm);
    PairMergeShape(sep, cfg, norm);
    var ps := Pairs(ns);
    for i := 0 to |ps|
      invariant Recs(ns) == FoldUpTo(rs, i, merge)
    {
      FoldUpToShape(rs, i, merge);
      SameShapesWellFormed(FoldUpTo(rs, i, merge), rs);
      assert ns[i].Rec() == FoldUpTo(rs, i, merge)[i];
      MergeNeighbours(ns, i, sep, cfg, norm);
    }
  }

  /** The values of the dictionary `{note.id: note}` after storing `n` into a dictionary
      whose values, in key-insertion order, are `d`: a new id goes last, a known id keeps
      its place and takes the new note. */
  function StoreById(d: seq<NoteRec>, n: NoteRec): (r: seq<NoteRec>)
    requires Distinct(RecIds(d))
    ensures RecIds(r) == if n.id in RecIds(d) then RecIds(d) else RecIds(d) + [n.id]
    ensures forall i :: 0 <= i < |r| ==> if r[i].id == n.id then r[i] == n else i < |d| && r[i] == d[i]
  {
    if d == [] then [n]
    else if d[0].id == n.id then [n] + d[1..]
    else
      assert Distinct(RecIds(d[1..])) by {
        forall i, j | 0 <= i < j < |d[1..]| ensures RecIds(d[1..])[i] != RecIds(d[1..])[j] {
          assert RecIds(d)[i + 1] != RecIds(d)[j + 1];
        }
      }
      [d[0]] + StoreById(d[1..], n)
  }

  /** Index of the last occurrence of `x` in `s`. */
  function LastIndex<T(==)>(s: seq<T>, x: T): (j: nat)
    requires x in s
    ensures j < |s| && s[j] == x && forall j' :: j < j' < |s| ==> s[j'] != x
  {
    var k := |s| - 1;
    if s[k] == x then k
    else
      assert s == s[..k] + [s[k]];
      LastIndex(s[..k], x)
  }

  /** Appending an element other than `x` does not move the last occurrence of `x`. */
  lemma LastIndexPrefix<T>(s: seq<T>, y: T, x: T)
    requires x in s && x != y
    ensures LastIndex(s + [y], x) == LastIndex(s, x)
  {
    assert (s + [y])[..|s|] == s;
  }

  /** notes_by_cards: the note of each card, once per note id, in the order the ids
      first occur. `cardNotes` holds `card.note()` for each card in order. */
  function NotesByCards(cardNotes: seq<NoteRec>): (r: seq<NoteRec>)
    ensures RecIds(r) == FirstOccurrences(RecIds(cardNotes))
  {
    if cardNotes == [] then []
    else
      var k := |cardNotes| - 1;
      assert RecIds(cardNotes) == RecIds(cardNotes[..k]) + [cardNotes[k].id];
      FirstOccurrencesDistinct(RecIds(cardNotes[..k]));
      StoreById(NotesByCards(cardNotes[..k]), cardNotes[k])
  }

  /** Every note of `r` is the last note in `cn` with its id. */
  ghost predicate LastLoaded(r: seq<NoteRec>, cn: seq<NoteRec>) {
    forall i :: 0 <= i < |r| ==> r[i].id in RecIds(cn) && r[i] == cn[LastIndex(RecIds(cn), r[i].id)]
  }

  /** Storing the next card's note keeps every value the last one loaded for its id. */
  lemma StoreByIdLast(d: seq<NoteRec>, cn: seq<NoteRec>, n: NoteRec)
    requires Distinct(RecIds(d)) && LastLoaded(d, cn)
    ensures LastLoaded(StoreById(d, n), cn + [n])
  {
    var r, cn' := StoreById(d, n), cn + [n];
    var ids := RecIds(cn);
    assert RecIds(cn') == ids + [n.id];
    forall i | 0 <= i < |r| ensures r[i].id in RecIds(cn') && r[i] == cn'[LastIndex(RecIds(cn'), r[i].id)] {
      var x := r[i].id;
      if x == n.id {
        assert r[i] == n;
        assert LastIndex(ids + [n.id], x) == |cn|;
      } else {
        assert i < |d| && r[i] == d[i];
        LastIndexPrefix(ids, n.id, x);
        var j := LastIndex(ids, x);
        assert d[i] == cn[j] && cn'[j] == cn[j];
      }
    }
  }

  /** For an id that several cards share, notes_by_cards keeps the note object loaded last. */
  lemma {:induction false} NotesByCardsLast(cardNotes: seq<NoteRec>)
    ensures LastLoaded(NotesByCards(cardNotes), cardNotes)
  {
    if cardNotes != [] {
      var k := |cardNotes| - 1;
      var init := cardNotes[..k];
      assert cardNotes == init + [cardNotes[k]];
      NotesByCardsLast(init);
      FirstOccurrencesDistinct(RecIds(init));
      StoreByIdLast(NotesByCards(init), init, cardNotes[k]);
    }
  }

  /** What _merge_chunk queues for the notes `ns` of one chunk: `update` and `remove` are
      the queues afterwards, `update0` and `remove0` before. */
  ghost predicate Queued(delete: bool, update: seq<Note>, remove: seq<NoteId>,
                         update0: seq<Note>, remove0: seq<NoteId>, ns: seq<Note>) {
    && (delete ==> |ns| > 0)
    && update == update0 + (if delete then [ns[|ns| - 1]] else ns)
    && remove == remove0 + (if delete then Ids(ns)[..|ns| - 1] else [])
  }

  /** The merge collection operation: the notes to write back and the ids to delete,
      gathered over one or more chunks. */
  class MergeNotesOp {
    var notesToUpdate: seq<Note>
    var nidsToRemove: seq<NoteId>
    const separator: string
    const cfg: Settings
    /** cfg_strip under `cfg`, with the host's HTML stripper. */
    const norm: string -> string

    constructor (cfg: Settings, html: string -> string)
      ensures notesToUpdate == [] && nidsToRemove == []
      ensures separator == InterpretSpecialChars(cfg.fieldSeparator)
      ensures this.cfg == cfg && forall s :: norm(s) == CfgStrip(s, cfg, html)
    {
      notesToUpdate, nidsToRemove := [], [];
      separator := InterpretSpecialChars(cfg.fieldSeparator);
      this.cfg, norm := cfg, s => CfgStrip(s, cfg, html);
    }

    /** _merge_chunk: folds each note into its successor, then queues either the last
        note for update and the others for deletion, or every note for update. */
    method MergeChunk(notes: seq<Note>)
      requires cfg.deleteOriginalNotes ==> |notes| > 0
      requires forall n :: n in notes ==> n.Valid()
      requires Distinct(notes)
      modifies this, notes
      ensures Recs(ChunkOrder(notes, cfg)) == FoldChunk(old(Recs(ChunkOrder(notes, cfg))), PairMerge(separator, cfg, norm))
      ensures Queued(cfg.deleteOriginalNotes, notesToUpdate, nidsToRemove, old(notesToUpdate), old(nidsToRemove), ChunkOrder(notes, cfg))
    {
      var ns := notes;
      if cfg.avoidContentLoss {
        ns := ReorderByCommonFields(notes);
      }
      assert ns == ChunkOrder(notes, cfg);
      DistinctPermutation(notes, ns);
      ValidRecs(ns);
      QueueChunk(ns, Recs(ns));
    }

    /** _merge_chunk after the reordering. The queues hold the note objects themselves,
        so queueing them before the merging loop leaves the same queues as after it. */
    method QueueChunk(ns: seq<Note>, ghost rs: seq<NoteRec>)
      requires cfg.deleteOriginalNotes ==> |ns| > 0
      requires Distinct(ns) && AllWellFormed(rs) && Recs(ns) == rs
      modifies this, ns
      ensures Recs(ns) == FoldChunk(rs, PairMerge(separator, cfg, norm))
      ensures Queued(cfg.deleteOriginalNotes, notesToUpdate, nidsToRemove, old(notesToUpdate), old(nidsToRemove), ns)
    {
      QueueMerged(ns);
      assert forall i :: 0 <= i < |ns| ==> ns[i] as object != this as object;
      FoldInPlace(ns, rs, separator, cfg, norm);
    }

    /** The bookkeeping at the end of _merge_chunk: which notes to write back and which to delete. */
    method QueueMerged(ns: seq<Note>)
      requires cfg.deleteOriginalNotes ==> |ns| > 0
      modifies this`notesToUpdate, this`nidsToRemove
      ensures Queued(cfg.deleteOriginalNotes, notesToUpdate, nidsToRemove, old(notesToUpdate), old(nidsToRemove), ns)
    {
      if cfg.deleteOriginalNotes {
        nidsToRemove := nidsToRemove + Ids(ns)[..|ns| - 1];
        notesToUpdate := notesToUpdate + [ns[|ns| - 1]];
      } else {
        notesToUpdate := notesToUpdate + ns;
      }
    }
  }
}
