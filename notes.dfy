/** The host application's notes and cards, as the plugin sees them. */
module Notes {

  type NoteId = int

  /** The card attributes the ordering keys read: type, due number, interval, id and deck. */
  datatype Card = Card(id: int, ctype: int, due: int, ivl: int, did: int)

  /** A note as a value: its id, the field names of its note type in order, the field
      contents, its tags, the index of the note type's sort field and its cards. */
  datatype NoteRec = NoteRec(
    id: NoteId,
    keys: seq<string>,
    fields: map<string, string>,
    tags: seq<string>,
    sortf: nat,
    cards: seq<Card>)
  {
    /** What the host guarantees of every note: the field map holds exactly the note
        type's field names, which are distinct; the sort field exists; at least one card. */
    ghost predicate WellFormed() {
      && (forall f :: f in fields <==> f in keys)
      && Distinct(keys)
      && sortf < |keys|
      && |cards| > 0
    }
  }

  ghost predicate Distinct<T>(s: seq<T>) {
    forall i, j :: 0 <= i < j < |s| ==> s[i] != s[j]
  }

  /** A host note object. Merging changes its field contents and its tags in place;
      its id, note type and cards never change. */
  class Note {
    const id: NoteId
    const keys: seq<string>
    const sortf: nat
    const cards: seq<Card>
    var fields: map<string, string>
    var tags: seq<string>

    /** The host loading a stored note (`col.get_note`). */
    constructor (r: NoteRec)
      ensures Rec() == r
    {
      id, keys, sortf, cards := r.id, r.keys, r.sortf, r.cards;
      fields, tags := r.fields, r.tags;
    }

    function Rec(): NoteRec
      reads this
    {
      NoteRec(id, keys, fields, tags, sortf, cards)
    }

    ghost predicate Valid()
      reads this
    {
      Rec().WellFormed()
    }
  }

  /** The current values of a sequence of note objects. */
  function Recs(ns: seq<Note>): (r: seq<NoteRec>)
    reads ns
    ensures |r| == |ns| && forall i :: 0 <= i < |ns| ==> r[i] == ns[i].Rec()
  {
    if ns == [] then [] else [ns[0].Rec()] + Recs(ns[1..])
  }

  function Ids(ns: seq<Note>): (r: seq<NoteId>)
    ensures |r| == |ns| && forall i :: 0 <= i < |ns| ==> r[i] == ns[i].id
  {
    if ns == [] then [] else [ns[0].id] + Ids(ns[1..])
  }

  function RecIds(rs: seq<NoteRec>): (r: seq<NoteId>)
    ensures |r| == |rs| && forall i :: 0 <= i < |rs| ==> r[i] == rs[i].id
  {
    if rs == [] then [] else [rs[0].id] + RecIds(rs[1..])
  }

  /** Each element once, at the position of its first occurrence. */
  function FirstOccurrences<T(==)>(s: seq<T>): (r: seq<T>)
    ensures |r| <= |s|
  {
    if s == [] then []
    else
      var p := FirstOccurrences(s[..|s| - 1]);
      var x := s[|s| - 1];
      assert s == s[..|s| - 1] + [x];
      if x in p then p else p + [x]
  }

  /** FirstOccurrences lists each element once. */
  lemma {:induction false} FirstOccurrencesDistinct<T>(s: seq<T>)
    ensures Distinct(FirstOccurrences(s))
  {
    if s != [] {
      var init, x := s[..|s| - 1], s[|s| - 1];
      FirstOccurrencesDistinct(init);
      assert s == init + [x];
      var p := FirstOccurrences(init);
      if x !in p {
        assert multiset(p)[x] == 0;
        DistinctAppend(p, x);
      }
    }
  }

  /** FirstOccurrences keeps exactly the elements of the sequence. */
  lemma {:induction false} FirstOccurrencesMembers<T>(s: seq<T>)
    ensures forall i :: 0 <= i < |FirstOccurrences(s)| ==> FirstOccurrences(s)[i] in s
    ensures forall i :: 0 <= i < |s| ==> s[i] in FirstOccurrences(s)
  {
    if s != [] {
      var init, x := s[..|s| - 1], s[|s| - 1];
      FirstOccurrencesMembers(init);
      assert s == init + [x];
      var p, r := FirstOccurrences(init), FirstOccurrences(s);
      assert r == if x in p then p else p + [x];
      forall i | 0 <= i < |r| ensures r[i] in s {
        if i < |p| { assert p[i] in init; } else { assert r[i] == x; }
      }
      forall i | 0 <= i < |s| ensures s[i] in r {
        if i < |init| { assert init[i] in p; } else { assert s[i] == x; }
      }
    }
  }

  /** Index of the first occurrence of `x` in `s`. */
  function FirstIndex<T(==)>(s: seq<T>, x: T): (k: nat)
    requires x in s
    ensures k < |s| && s[k] == x && x !in s[..k]
  {
    if s[0] == x then 0
    else
      assert s == [s[0]] + s[1..];
      1 + FirstIndex(s[1..], x)
  }

  /** The elements of FirstOccurrences come in the order of their first occurrences. */
  lemma {:induction false} FirstOccurrencesOrdered<T>(s: seq<T>)
    ensures forall i, j :: 0 <= i < j < |FirstOccurrences(s)| ==>
      && FirstOccurrences(s)[i] in s && FirstOccurrences(s)[j] in s
      && FirstIndex(s, FirstOccurrences(s)[i]) < FirstIndex(s, FirstOccurrences(s)[j])
  {
    FirstOccurrencesMembers(s);
    if s != [] {
      var s' := s[..|s| - 1];
      var x := s[|s| - 1];
      assert s == s' + [x];
      FirstOccurrencesOrdered(s');
      FirstOccurrencesMembers(s');
      var p, r := FirstOccurrences(s'), FirstOccurrences(s);
      assert r == if x in p then p else p + [x];
      forall i, j | 0 <= i < j < |r| ensures FirstIndex(s, r[i]) < FirstIndex(s, r[j]) {
        assert r[i] == p[i];
        if j < |p| {
          FirstIndexAppendLt(s', x, p[i], p[j]);
        } else {
          assert r[j] == x;
          FirstIndexAppendNew(s', x, p[i]);
        }
      }
    }
  }

  /** Appending keeps the order of first occurrences already present. */
  lemma FirstIndexAppendLt<T>(s: seq<T>, x: T, a: T, b: T)
    requires a in s && b in s && FirstIndex(s, a) < FirstIndex(s, b)
    ensures FirstIndex(s + [x], a) < FirstIndex(s + [x], b)
  {
    FirstIndexPrefix(s, x, a);
    FirstIndexPrefix(s, x, b);
  }

  /** An appended new element occurs first after every element already present. */
  lemma FirstIndexAppendNew<T>(s: seq<T>, x: T, a: T)
    requires a in s && x !in s
    ensures FirstIndex(s + [x], a) < FirstIndex(s + [x], x)
  {
    FirstIndexPrefix(s, x, a);
    assert (s + [x])[..|s|] == s;
    FirstIndexUnique(s + [x], x, |s|);
  }

  lemma FirstIndexPrefix<T>(s: seq<T>, x: T, y: T)
    requires y in s
    ensures FirstIndex(s + [x], y) == FirstIndex(s, y)
  {
    var k := FirstIndex(s, y);
    var t := s + [x];
    assert t[k] == y;
    assert t[..k] == s[..k];
    FirstIndexUnique(t, y, k);
  }

  lemma FirstIndexUnique<T>(s: seq<T>, x: T, k: nat)
    requires k < |s| && s[k] == x && x !in s[..k]
    ensures FirstIndex(s, x) == k
  {
  }

  /** Anki's `add_tag` guarded by the plugin's `leech` test: what each donor tag does to
      the receiving note's tag list in both revisions of `merge_tags`. */
  function AddDonorTag(tags: seq<string>, t: string): seq<string> {
    if t == "leech" || t in tags then tags else tags + [t]
  }

  /** The receiving note's tags after walking the donor's tags in order. */
  function MergedTags(to: seq<string>, from: seq<string>): seq<string> {
    if from == [] then to
    else AddDonorTag(MergedTags(to, from[..|from| - 1]), from[|from| - 1])
  }

  /** The receiving note keeps all its tags, in place, and gains only donor tags
      other than `leech`, none of them twice. */
  lemma {:induction false} MergedTagsSpec(to: seq<string>, from: seq<string>)
    ensures var r := MergedTags(to, from);
      && to <= r
      && (forall t :: t in from && t != "leech" ==> t in r)
      && (forall t :: t in r ==> t in to || (t in from && t != "leech"))
      && (Distinct(to) ==> Distinct(r))
  {
    if from != [] {
      var from' := from[..|from| - 1];
      var last := from[|from| - 1];
      MergedTagsSpec(to, from');
      assert from == from' + [last];
      forall t | t in from && t != "leech" ensures t in MergedTags(to, from) {
        if t != last { assert t in from'; }
      }
    }
  }

  /** The receiving note has `leech` afterwards exactly when it had it before. */
  lemma MergedTagsNoLeech(to: seq<string>, from: seq<string>)
    ensures "leech" in MergedTags(to, from) <==> "leech" in to
  {
    MergedTagsSpec(to, from);
  }

  /** An element of a sequence without repetitions occurs in it once. */
  lemma {:induction false} DistinctCount<T>(s: seq<T>, x: T)
    requires Distinct(s)
    ensures multiset(s)[x] <= 1
  {
    if s != [] {
      assert s == [s[0]] + s[1..];
      assert Distinct(s[1..]) by {
        forall i, j | 0 <= i < j < |s[1..]| ensures s[1..][i] != s[1..][j] {
          assert s[1..][i] == s[i + 1] && s[1..][j] == s[j + 1];
        }
      }
      DistinctCount(s[1..], x);
    }
  }

  /** The number of occurrences of `x` in `s`. */
  function Count<T(==)>(s: seq<T>, x: T): (r: nat)
    ensures r <= |s|
  {
    if s == [] then 0 else (if s[0] == x then 1 else 0) + Count(s[1..], x)
  }

  lemma {:induction false} CountIsMultiplicity<T>(s: seq<T>, x: T)
    ensures Count(s, x) == multiset(s)[x]
  {
    if s != [] {
      CountIsMultiplicity(s[1..], x);
      assert s == [s[0]] + s[1..];
    }
  }

  /** `t` reorders `s`: every value occurs as often in each. */
  ghost predicate Reorders<T(!new)>(s: seq<T>, t: seq<T>) {
    forall x :: Count(s, x) == Count(t, x)
  }

  lemma ReordersIsMultiset<T(!new)>(s: seq<T>, t: seq<T>)
    ensures Reorders(s, t) <==> multiset(s) == multiset(t)
  {
    forall x ensures Count(s, x) == multiset(s)[x] && Count(t, x) == multiset(t)[x] {
      CountIsMultiplicity(s, x);
      CountIsMultiplicity(t, x);
    }
    if multiset(s) != multiset(t) {
      var x :| multiset(s)[x] != multiset(t)[x];
      assert Count(s, x) != Count(t, x);
    }
  }

  /** A permutation of a sequence without repetitions has none either. */
  lemma DistinctPermutation<T>(s: seq<T>, t: seq<T>)
    requires Distinct(s) && multiset(s) == multiset(t)
    ensures Distinct(t)
  {
    forall i, j | 0 <= i < j < |t| ensures t[i] != t[j] {
      if t[i] == t[j] {
        var x := t[i];
        assert t == t[..j] + [t[j]] + t[j + 1..];
        assert x in t[..j];
        assert multiset(t)[x] >= 2;
        DistinctCount(s, x);
      }
    }
  }

  /** Every element of a permutation occurs in the original. */
  lemma MultisetMembers<T>(s: seq<T>, t: seq<T>)
    requires multiset(s) == multiset(t)
    ensures forall i :: 0 <= i < |t| ==> t[i] in s
  {
    forall i | 0 <= i < |t| ensures t[i] in s {
      assert t[i] in multiset(t);
    }
  }

  /** Concatenation regroups. */
  lemma AppendAssoc<T>(a: seq<T>, b: seq<T>, c: seq<T>)
    ensures a + (b + c) == (a + b) + c
  {
  }

  /** Appending an element the sequence lacks keeps it free of repetitions. */
  lemma DistinctAppend<T>(s: seq<T>, x: T)
    requires Distinct(s) && multiset(s)[x] == 0
    ensures Distinct(s + [x])
  {
    forall i | 0 <= i < |s| ensures (s + [x])[i] != x {
      assert s[i] in multiset(s);
    }
  }

  /** `rest` lists the elements of `s`, each once. */
  ghost predicate Enumerates<T>(rest: seq<T>, s: set<T>) {
    && Distinct(rest)
    && |rest| == |s|
    && (forall i :: 0 <= i < |rest| ==> rest[i] in s)
    && (forall x :: x in s ==> exists i :: 0 <= i < |rest| && rest[i] == x)
  }

  /** Taking one element out of the set takes it out of the listing. */
  lemma EnumeratesRemove<T>(rest: seq<T>, s: set<T>, j: nat)
    requires Enumerates(rest, s) && j < |rest|
    ensures Enumerates(rest[..j] + rest[j + 1..], s - {rest[j]})
  {
    var r := rest[..j] + rest[j + 1..];
    forall x | x in s - {rest[j]} ensures exists i :: 0 <= i < |r| && r[i] == x {
      var i :| 0 <= i < |rest| && rest[i] == x;
      if i < j { assert r[i] == x; } else { assert r[i - 1] == x; }
    }
  }

  /** The set of the elements of a sequence without repetitions has as many elements. */
  lemma {:induction false} DistinctCard<T>(s: seq<T>)
    requires Distinct(s)
    ensures |set x | x in s| == |s|
  {
    if s != [] {
      var t := s[..|s| - 1];
      var y := s[|s| - 1];
      assert Distinct(t) by {
        forall i, j | 0 <= i < j < |t| ensures t[i] != t[j] {
          assert t[i] == s[i] && t[j] == s[j];
        }
      }
      DistinctCard(t);
      assert y !in t by {
        forall i | 0 <= i < |t| ensures t[i] != y {
          assert t[i] == s[i];
        }
      }
      assert s == t + [y];
      assert (set x | x in s) == (set x | x in t) + {y};
    }
  }

  /** The first occurrences of a sequence list the set of its elements. */
  lemma EnumeratesFirstOccurrences<T>(s: seq<T>)
    ensures Enumerates(FirstOccurrences(s), set x | x in s)
  {
    var f := FirstOccurrences(s);
    var e := set x | x in s;
    FirstOccurrencesMembers(s);
    FirstOccurrencesDistinct(s);
    DistinctCard(f);
    forall x | x in e ensures exists i :: 0 <= i < |f| && f[i] == x {
      var k :| 0 <= k < |s| && s[k] == x;
      assert s[k] in f;
    }
    assert (set x | x in f) == e by {
      forall x | x in e ensures x in f {
        var k :| 0 <= k < |s| && s[k] == x;
        assert s[k] in f;
      }
      forall i | 0 <= i < |f| ensures f[i] in e {
        assert f[i] in s;
      }
    }
  }

  /** Removing one position removes one occurrence of its element. */
  lemma MultisetRemove<T>(s: seq<T>, j: nat)
    requires j < |s|
    ensures multiset(s) == multiset(s[..j] + s[j + 1..]) + multiset{s[j]}
  {
    assert s == s[..j] + [s[j]] + s[j + 1..];
  }

  lemma IdsConcat(a: seq<Note>, b: seq<Note>)
    ensures Ids(a + b) == Ids(a) + Ids(b)
  {
    assert |Ids(a + b)| == |Ids(a) + Ids(b)|;
    forall i | 0 <= i < |a + b| ensures Ids(a + b)[i] == (Ids(a) + Ids(b))[i] {
      if i < |a| { assert (a + b)[i] == a[i]; } else { assert (a + b)[i] == b[i - |a|]; }
    }
  }

  lemma IdsTake(s: seq<Note>, j: nat)
    requires j <= |s|
    ensures Ids(s[..j]) == Ids(s)[..j]
  {
    assert |Ids(s[..j])| == |Ids(s)[..j]|;
    forall k | 0 <= k < j ensures Ids(s[..j])[k] == Ids(s)[..j][k] {
      assert s[..j][k] == s[k];
    }
  }

  lemma IdsDrop(s: seq<Note>, j: nat)
    requires j <= |s|
    ensures Ids(s[j..]) == Ids(s)[j..]
  {
    assert |Ids(s[j..])| == |Ids(s)[j..]|;
    forall k | 0 <= k < |s| - j ensures Ids(s[j..])[k] == Ids(s)[j..][k] {
      assert s[j..][k] == s[j + k];
    }
  }
}
