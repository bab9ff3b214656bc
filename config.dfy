/** The add-on's configuration and the card ordering keys it offers. */
module Config {
  import opened Strings
  import opened Sorting
  import opened Notes

  datatype Option<T> = None | Some(value: T)

  const ActionName: string := "Merge Notes"

  /** Python's sys.maxsize on a 64-bit build. */
  const MaxSize: int := 0x7FFF_FFFF_FFFF_FFFF

  /** The configuration dictionary, one field per key the merge engine reads. */
  datatype Settings = Settings(
    fieldSeparator: string,
    punctuationCharacters: string,
    htmlAgnosticComparison: bool,
    stripPunctuationBeforeComparison: bool,
    normalizeDigits: bool,
    onlyEmpty: bool,
    mergeTags: bool,
    deleteOriginalNotes: bool,
    avoidContentLoss: bool,
    reverseOrder: bool,
    applyWhenSearchingDuplicates: bool,
    ordering: string,
    customSortField: string)

  /** The key functions of OrderingChoices, in the order of its dictionary. */
  datatype Ordering =
    | Due | IntervalLength | CardId | DeckId
    | SortField | SortFieldNumeric | CustomField | CustomFieldNumeric

  const Choices: seq<Ordering> :=
    [Due, IntervalLength, CardId, DeckId, SortField, SortFieldNumeric, CustomField, CustomFieldNumeric]

  function Name(o: Ordering): string {
    match o
    case Due => "Due"
    case IntervalLength => "Interval length"
    case CardId => "Card ID"
    case DeckId => "Deck ID"
    case SortField => "Sort Field"
    case SortFieldNumeric => "Sort Field (numeric)"
    case CustomField => "Custom field"
    case CustomFieldNumeric => "Custom field (numeric)"
  }

  /** OrderingChoices.names(): the dictionary's keys in order. */
  function Names(): (r: seq<string>)
    ensures |r| == |Choices| && forall i :: 0 <= i < |r| ==> r[i] == Name(Choices[i])
  {
    seq(|Choices|, i requires 0 <= i < |Choices| => Name(Choices[i]))
  }

  /** First choice at index `from` or later whose name is `name`. */
  function LookupFrom(name: string, from: nat): (r: Option<Ordering>)
    requires from <= |Choices|
    ensures r.Some? ==> Name(r.value) == name && r.value in Choices
    ensures r.None? ==> forall i :: from <= i < |Choices| ==> Name(Choices[i]) != name
    decreases |Choices| - from
  {
    if from == |Choices| then None
    else if Name(Choices[from]) == name then Some(Choices[from])
    else LookupFrom(name, from + 1)
  }

  /** OrderingChoices()[name]; None stands for the KeyError of an unknown name. */
  function Lookup(name: string): Option<Ordering> {
    LookupFrom(name, 0)
  }

  /** Every choice is found by its own name, and only the listed names are found. */
  lemma LookupByName(o: Ordering, name: string)
    ensures Lookup(Name(o)) == Some(o)
    ensures Lookup(name).Some? <==> name in Names()
  {
    var r := Lookup(Name(o));
    assert Name(Choices[Index(o)]) == Name(o);
    if r.Some? { NameInjective(r.value, o); }
    if name in Names() {
      var i :| 0 <= i < |Names()| && Names()[i] == name;
      assert Name(Choices[i]) == name;
    }
  }

  function Index(o: Ordering): (i: nat)
    ensures i < |Choices| && Choices[i] == o
  {
    match o
    case Due => 0
    case IntervalLength => 1
    case CardId => 2
    case DeckId => 3
    case SortField => 4
    case SortFieldNumeric => 5
    case CustomField => 6
    case CustomFieldNumeric => 7
  }

  lemma NameInjective(a: Ordering, b: Ordering)
    requires Name(a) == Name(b)
    ensures a == b
  {
  }

  /** The configured ordering names a key function. */
  ghost predicate ValidOrdering(cfg: Settings) {
    Lookup(cfg.ordering).Some?
  }

  /** The fix-up of Config.__init__: an unknown ordering becomes the first name. */
  function FixedOrdering(stored: Settings): (r: Settings)
    ensures ValidOrdering(r) && r.ordering in Names()
    ensures ValidOrdering(stored) ==> r == stored
    ensures !ValidOrdering(stored) ==> r == stored.(ordering := "Due")
  {
    LookupByName(Due, stored.ordering);
    LookupByName(Due, "Due");
    if Lookup(stored.ordering).None? then stored.(ordering := Names()[0]) else stored
  }

  /** The add-on's Config object: the stored dictionary with the ordering fixed up. */
  class AddonConfig {
    var settings: Settings

    constructor (stored: Settings)
      ensures settings == FixedOrdering(stored)
    {
      settings := stored;
      new;
      if Lookup(settings.ordering).None? {
        settings := settings.(ordering := Names()[0]);
      }
    }

    /** Config.ord_key: the key function registered under the configured name. */
    function OrdKey(): (o: Ordering)
      reads this
      requires ValidOrdering(settings)
      ensures Name(o) == settings.ordering
    {
      Lookup(settings.ordering).value
    }
  }

  /** due_key: card type first, then due number. */
  function DueKey(c: Card): Key {
    [IntPart(c.ctype), IntPart(c.due)]
  }

  /** Cards are ordered by type, and by due number within one type. */
  lemma DueKeyOrder(c: Card, d: Card)
    ensures KeyLt(DueKey(c), DueKey(d)) <==>
      c.ctype < d.ctype || (c.ctype == d.ctype && c.due < d.due)
  {
    if c.ctype == d.ctype {
      KeyLtSameHead(IntPart(c.ctype), [IntPart(c.due)], [IntPart(d.due)]);
      KeyLtSingle(IntPart(c.due), IntPart(d.due));
    } else {
      var kc, kd := DueKey(c), DueKey(d);
      assert KeyLt(kc, kd) == PartLt(kc[0], kd[0]);
    }
  }

  /** sort_field_key: the value of the note type's sort field. */
  function SortFieldKey(n: NoteRec): (s: string)
    requires n.WellFormed()
    ensures s == n.fields[n.keys[n.sortf]]
  {
    n.fields[n.keys[n.sortf]]
  }

  /** custom_field_key: the custom field when the note has it, the sort field otherwise. */
  function CustomFieldKey(custom: string, n: NoteRec): (s: string)
    requires n.WellFormed()
    ensures custom in n.keys ==> s == n.fields[custom]
    ensures custom !in n.keys ==> s == SortFieldKey(n)
  {
    if custom in n.keys then n.fields[custom] else SortFieldKey(n)
  }

  /** Python's int(s) on ASCII input: surrounding whitespace, an optional sign,
      then digits with single underscores allowed between them. */
  function ParseInt(s: string): Option<int> {
    ParseSigned(Strip(s))
  }

  /** int() after the surrounding whitespace is gone. */
  function ParseSigned(t: string): Option<int> {
    if |t| > 0 && t[0] == '-' then
      match ParseDigits(t[1..])
      case Some(v) => Some(-v)
      case None => None
    else if |t| > 0 && t[0] == '+' then ParseDigits(t[1..])
    else ParseDigits(t)
  }

  function ParseDigits(body: string): (r: Option<int>)
    ensures r.Some? ==> r.value >= 0
  {
    if !ValidDigitGroups(body) then None
    else Some(DigitsValue(WithoutUnderscores(body)) as int)
  }

  predicate ValidDigitGroups(s: string) {
    && |s| > 0
    && '0' <= s[0] <= '9'
    && '0' <= s[|s| - 1] <= '9'
    && (forall i :: 0 <= i < |s| ==> ('0' <= s[i] <= '9' || s[i] == '_'))
    && (forall i :: 0 <= i < |s| - 1 ==> !(s[i] == '_' && s[i + 1] == '_'))
  }

  function WithoutUnderscores(s: string): (r: string)
    requires forall i :: 0 <= i < |s| ==> ('0' <= s[i] <= '9' || s[i] == '_')
    ensures AllDigits(r)
    ensures AllDigits(s) ==> r == s
  {
    if s == [] then []
    else (if s[0] == '_' then [] else [s[0]]) + WithoutUnderscores(s[1..])
  }

  /** A plain run of ASCII digits parses to its decimal value. */
  lemma ParseDigitsPlain(d: string)
    requires |d| > 0 && AllDigits(d)
    ensures ParseDigits(d) == Some(DigitsValue(d) as int)
  {
    assert ValidDigitGroups(d);
    assert WithoutUnderscores(d) == d;
  }

  /** int(str(n)) == n. */
  lemma ParseIntNat(n: nat)
    ensures ParseInt(NatToString(n)) == Some(n as int)
  {
    var d := NatToString(n);
    assert '0' <= d[0] <= '9' && '0' <= d[|d| - 1] <= '9';
    StripUnpadded(d);
    assert ParseSigned(d) == ParseDigits(d);
    ParseDigitsPlain(d);
  }

  /** int(str(-n)) == -n. */
  lemma ParseIntNegative(n: nat)
    ensures ParseInt("-" + NatToString(n)) == Some(-(n as int))
  {
    var d := NatToString(n);
    var m := "-" + d;
    assert m[1..] == d && m[|m| - 1] == d[|d| - 1];
    StripUnpadded(m);
    ParseDigitsPlain(d);
    assert ParseSigned(m) == Some(-(n as int));
  }

  /** An empty or blank string does not parse. */
  lemma ParseIntBlank(s: string)
    requires AllSpace(s)
    ensures ParseInt(s) == None
  {
    StripBlank(s);
  }

  /** generic_numeric_key: (int(s), s), or (sys.maxsize, s) when int(s) fails. */
  function NumericKey(s: string): (k: Key)
    ensures ParseInt(s).Some? ==> k == [IntPart(ParseInt(s).value), StrPart(s)]
    ensures ParseInt(s).None? ==> k == [IntPart(MaxSize), StrPart(s)]
  {
    match ParseInt(s)
    case Some(v) => [IntPart(v), StrPart(s)]
    case None => [IntPart(MaxSize), StrPart(s)]
  }

  /** Parsable values below sys.maxsize come before every unparsable value. */
  lemma NumericKeyParsableFirst(a: string, b: string)
    requires ParseInt(a).Some? && ParseInt(a).value < MaxSize && ParseInt(b).None?
    ensures KeyLt(NumericKey(a), NumericKey(b))
  {
  }

  /** Parsable values are ordered by their integer value first. */
  lemma NumericKeyByValue(a: string, b: string)
    requires ParseInt(a).Some? && ParseInt(b).Some? && ParseInt(a).value < ParseInt(b).value
    ensures KeyLt(NumericKey(a), NumericKey(b))
  {
  }

  /** Unparsable values are ordered among themselves as strings. */
  lemma NumericKeyUnparsable(a: string, b: string)
    requires ParseInt(a).None? && ParseInt(b).None?
    ensures KeyLt(NumericKey(a), NumericKey(b)) <==> StrLt(a, b)
  {
    KeyLtSameHead(IntPart(MaxSize), [StrPart(a)], [StrPart(b)]);
    KeyLtSingle(StrPart(a), StrPart(b));
  }

  /** The key of a card under one ordering; `note` is the card's note. */
  function CardKey(o: Ordering, custom: string, c: Card, note: NoteRec): Key
    requires note.WellFormed()
  {
    match o
    case Due => DueKey(c)
    case IntervalLength => [IntPart(c.ivl)]
    case CardId => [IntPart(c.id)]
    case DeckId => [IntPart(c.did)]
    case SortField => [StrPart(SortFieldKey(note))]
    case SortFieldNumeric => NumericKey(SortFieldKey(note))
    case CustomField => [StrPart(CustomFieldKey(custom, note))]
    case CustomFieldNumeric => NumericKey(CustomFieldKey(custom, note))
  }
}
