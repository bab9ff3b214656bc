/** The browser's "Duplicate notes" action: every selected note is copied into a new
    note of the same note type, in the deck of its first card, inside one undo step. */
module DuplicateNotes {
  import opened Notes
  import opened Strings

  /** The note the collection is asked to add: its note type's field names, its field
      contents, its tags and the deck it goes to. The host assigns its id and cards. */
  datatype Added = Added(keys: seq<string>, fields: map<string, string>, tags: seq<string>, deck: int)

  /** A new note of a given note type (`Note(col, note_type)`): every field empty, no tags. */
  class Draft {
    const keys: seq<string>
    var fields: map<string, string>
    var tags: seq<string>

    constructor (keys: seq<string>)
      ensures this.keys == keys && tags == []
      ensures forall k :: k in fields <==> k in keys
      ensures forall k :: k in fields ==> fields[k] == ""
    {
      this.keys := keys;
      fields := map k | k in keys :: "";
      tags := [];
    }
  }

  /** The tags a copy receives: the reference note's, without `leech` and `marked`. */
  function CopiedTags(tags: seq<string>): (r: seq<string>)
    ensures forall t :: t in r <==> t in tags && t != "leech" && t != "marked"
    ensures |r| <= |tags|
  {
    if tags == [] then []
    else (if tags[0] == "leech" || tags[0] == "marked" then [] else [tags[0]]) + CopiedTags(tags[1..])
  }

  /** The filter keeps the order of the tags: filtering a concatenation filters each part. */
  lemma {:induction false} CopiedTagsConcat(a: seq<string>, b: seq<string>)
    ensures CopiedTags(a + b) == CopiedTags(a) + CopiedTags(b)
  {
    if a == [] {
      assert a + b == b;
    } else {
      assert (a + b)[1..] == a[1..] + b;
      CopiedTagsConcat(a[1..], b);
    }
  }

  /** Tags without `leech` and `marked` are copied exactly, in their order. */
  lemma {:induction false} CopiedTagsKeeps(tags: seq<string>)
    requires forall i :: 0 <= i < |tags| ==> tags[i] != "leech" && tags[i] != "marked"
    ensures CopiedTags(tags) == tags
  {
    if tags != [] {
      CopiedTagsKeeps(tags[1..]);
    }
  }

  /** Filtering twice is filtering once. */
  lemma CopiedTagsIdempotent(tags: seq<string>)
    ensures CopiedTags(CopiedTags(tags)) == CopiedTags(tags)
  {
    var r := CopiedTags(tags);
    forall i | 0 <= i < |r| ensures r[i] != "leech" && r[i] != "marked" {
      assert r[i] in r;
    }
    CopiedTagsKeeps(r);
  }

  /** The undo entry's name. */
  function UndoLabel(n: nat): string {
    if n > 1 then "Duplicate " + NatToString(n) + " notes" else "Duplicate note"
  }

  /** The singular name is used exactly when at most one note is duplicated. */
  lemma UndoLabelSingular(n: nat)
    ensures UndoLabel(n) == "Duplicate note" <==> n <= 1
  {
    if n > 1 {
      var d := NatToString(n);
      assert UndoLabel(n)[10] == d[0];
      assert "Duplicate note"[10] == 'n';
    }
  }

  /** The plural name tells the number of notes: two plural names agree only for the
      same count. */
  lemma UndoLabelCount(m: nat, n: nat)
    requires UndoLabel(m) == UndoLabel(n)
    ensures m == n || (m <= 1 && n <= 1)
  {
    UndoLabelSingular(m);
    UndoLabelSingular(n);
    if m > 1 && n > 1 {
      var a, b := NatToString(m), NatToString(n);
      var l := UndoLabel(m);
      assert l[10..|l| - 6] == a;
      assert UndoLabel(n)[10..|l| - 6] == b;
      assert DigitsValue(a) == m && DigitsValue(b) == n;
    }
  }

  /** The tooltip shown once the operation has finished. */
  function DuplicatedMessage(n: nat): string {
    if n > 1 then NatToString(n) + " notes duplicated." else "Note duplicated."
  }

  /** The tooltip is singular exactly for at most one note, and a plural tooltip tells
      the number of notes. */
  lemma DuplicatedMessageCount(m: nat, n: nat)
    ensures DuplicatedMessage(m) == "Note duplicated." <==> m <= 1
    ensures DuplicatedMessage(m) == DuplicatedMessage(n) ==> m == n || (m <= 1 && n <= 1)
  {
    if m > 1 {
      assert DuplicatedMessage(m)[0] == NatToString(m)[0];
    }
    if m > 1 && n > 1 && DuplicatedMessage(m) == DuplicatedMessage(n) {
      var a, b := NatToString(m), NatToString(n);
      var l := DuplicatedMessage(m);
      assert l[..|l| - 18] == a;
      assert DuplicatedMessage(n)[..|l| - 18] == b;
      assert DigitsValue(a) == m && DigitsValue(b) == n;
    }
    if n > 1 {
      assert DuplicatedMessage(n)[0] == NatToString(n)[0];
    }
  }

  /** One copy: a new note of the reference note's type, each field copied in the note
      type's order, the tags filtered. */
  method CopyNote(ref: Note) returns (copy: Draft)
    requires ref.Valid()
    ensures fresh(copy) && copy.keys == ref.keys
    ensures copy.fields == ref.fields && copy.tags == CopiedTags(ref.tags)
  {
    copy := new Draft(ref.keys);
    for i := 0 to |ref.keys|
      invariant forall k :: k in copy.fields <==> k in ref.keys
      invariant forall j :: 0 <= j < i ==> copy.fields[ref.keys[j]] == ref.fields[ref.keys[j]]
    {
      copy.fields := copy.fields[ref.keys[i] := ref.fields[ref.keys[i]]];
    }
    forall k | k in ref.fields ensures copy.fields[k] == ref.fields[k] {
      var j :| 0 <= j < |ref.keys| && ref.keys[j] == k;
    }
    copy.tags := CopiedTags(ref.tags);
  }

  /** duplicate_notes_op: the undo entry's name and, in order, one note to add per input
      note, with the same note type and field contents, the filtered tags, and the deck
      of the input note's first card. */
  method DuplicateNotesOp(notes: seq<Note>) returns (undoName: string, added: seq<Added>)
    requires forall i :: 0 <= i < |notes| ==> notes[i].Valid()
    ensures forall i :: 0 <= i < |notes| ==> |notes[i].cards| > 0
    ensures undoName == UndoLabel(|notes|) && |added| == |notes|
    ensures forall i :: 0 <= i < |notes| ==>
      && added[i].keys == notes[i].keys
      && added[i].fields == notes[i].fields
      && added[i].tags == CopiedTags(notes[i].tags)
      && added[i].deck == notes[i].cards[0].did
  {
    undoName := UndoLabel(|notes|);
    added := [];
    for i := 0 to |notes|
      invariant |added| == i
      invariant forall k :: 0 <= k < i ==>
        && added[k].keys == notes[k].keys
        && added[k].fields == notes[k].fields
        && added[k].tags == CopiedTags(notes[k].tags)
        && added[k].deck == notes[k].cards[0].did
    {
      var copy := CopyNote(notes[i]);
      added := added + [Added(copy.keys, copy.fields, copy.tags, notes[i].cards[0].did)];
    }
  }
}
