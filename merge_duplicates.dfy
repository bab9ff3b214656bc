/** Merging the groups of duplicate notes that the host's duplicate search reports. */
module MergeDuplicates {
  import opened Strings
  import opened Sorting
  import opened Notes
  import opened Config
  import opened MergeNotes

  /** The collection's stored notes by id, as `col.get_note` loads them; an id outside the
      map is a note that does not exist. */
  type Store = map<NoteId, NoteRec>

  /** What the host guarantees of its store: each note is filed under its own id. */
  ghost predicate ValidStore(store: Store) {
    forall id :: id in store ==> store[id].id == id && store[id].WellFormed()
  }

  /** `not has_field or has_field in note.keys()`: no filter when the field name is
      absent or empty. */
  predicate PassesFilter(keys: seq<string>, hasField: Option<string>) {
    hasField.None? || hasField.value == "" || hasField.value in keys
  }

  /** The ids of `ids` that the store holds and whose note passes the filter, in order. */
  function Select(ids: seq<NoteId>, store: Store, hasField: Option<string>): (r: seq<NoteId>)
  {
    if ids == [] then []
    else
      var x := ids[|ids| - 1];
      Select(ids[..|ids| - 1], store, hasField)
        + (if x in store && PassesFilter(store[x].keys, hasField) then [x] else [])
  }

  lemma SelectSnoc(ids: seq<NoteId>, x: NoteId, store: Store, hasField: Option<string>)
    ensures Select(ids + [x], store, hasField) == Select(ids, store, hasField) + Select([x], store, hasField)
  {
    assert (ids + [x])[..|ids|] == ids;
    assert [x][..0] == [];
  }

  /** Select keeps every occurrence of a passing id and drops every other id. */
  lemma {:induction false} SelectCount(ids: seq<NoteId>, store: Store, hasField: Option<string>, x: NoteId)
    ensures multiset(Select(ids, store, hasField))[x] ==
      if x in store && PassesFilter(store[x].keys, hasField) then multiset(ids)[x] else 0
  {
    if ids != [] {
      var init, y := ids[..|ids| - 1], ids[|ids| - 1];
      SelectCount(init, store, hasField, x);
      assert ids == init + [y];
      assert multiset(ids) == multiset(init) + multiset{y};
      var tail := if y in store && PassesFilter(store[y].keys, hasField) then [y] else [];
      assert Select(ids, store, hasField) == Select(init, store, hasField) + tail;
      assert multiset(Select(ids, store, hasField)) == multiset(Select(init, store, hasField)) + multiset(tail);
    }
  }

  /** Selecting from a permutation selects a permutation. */
  lemma SelectPermutation(a: seq<NoteId>, b: seq<NoteId>, store: Store, hasField: Option<string>)
    requires multiset(a) == multiset(b)
    ensures multiset(Select(a, store, hasField)) == multiset(Select(b, store, hasField))
  {
    forall x ensures multiset(Select(a, store, hasField))[x] == multiset(Select(b, store, hasField))[x] {
      SelectCount(a, store, hasField, x);
      SelectCount(b, store, hasField, x);
    }
  }

  lemma {:induction false} SelectDistinct(ids: seq<NoteId>, store: Store, hasField: Option<string>)
    requires Distinct(ids)
    ensures Distinct(Select(ids, store, hasField))
  {
    if ids != [] {
      var init, x := ids[..|ids| - 1], ids[|ids| - 1];
      assert Distinct(init) by {
        forall i, j | 0 <= i < j < |init| ensures init[i] != init[j] {
          assert init[i] == ids[i] && init[j] == ids[j];
        }
      }
      SelectDistinct(init, store, hasField);
      if x in store && PassesFilter(store[x].keys, hasField) {
        SelectCount(init, store, hasField, x);
        assert multiset(init)[x] == 0;
        DistinctAppend(Select(init, store, hasField), x);
      }
    }
  }

  /** The ids carefully_get_notes returns notes for, each once: the distinct ids of
      `nids` that exist and pass the field filter, in first-occurrence order. */
  function Retrievable(store: Store, nids: seq<NoteId>, hasField: Option<string>): (r: seq<NoteId>)
    ensures Distinct(r)
  {
    FirstOccurrencesDistinct(nids);
    SelectDistinct(FirstOccurrences(nids), store, hasField);
    Select(FirstOccurrences(nids), store, hasField)
  }

  /** An id is retrievable exactly when it occurs in `nids`, exists and passes the filter. */
  lemma RetrievableSpec(store: Store, nids: seq<NoteId>, hasField: Option<string>, x: NoteId)
    ensures x in Retrievable(store, nids, hasField) <==>
      x in nids && x in store && PassesFilter(store[x].keys, hasField)
  {
    var f := FirstOccurrences(nids);
    FirstOccurrencesMembers(nids);
    SelectCount(f, store, hasField, x);
    if x in nids {
      var k :| 0 <= k < |nids| && nids[k] == x;
      assert nids[k] in f;
    }
    if x in f {
      var k :| 0 <= k < |f| && f[k] == x;
      assert f[k] in nids;
    }
  }

  /** The note objects hold the stored values of their notes. */
  ghost predicate Loaded(ns: seq<Note>, store: Store)
    reads ns
  {
    forall i :: 0 <= i < |ns| ==> ns[i].id in store && ns[i].Rec() == store[ns[i].id]
  }

  lemma LoadedAppend(a: seq<Note>, b: seq<Note>, store: Store)
    requires Loaded(a, store) && Loaded(b, store)
    ensures Loaded(a + b, store) && Ids(a + b) == Ids(a) + Ids(b)
  {
  }

  /** The body of carefully_get_notes' loop for one id: the note when it exists and
      passes the filter, nothing otherwise (the NotFoundError is caught). */
  method LoadNote(store: Store, nid: NoteId, hasField: Option<string>) returns (found: seq<Note>)
    requires ValidStore(store)
    ensures Loaded(found, store) && Ids(found) == Select([nid], store, hasField)
    ensures forall i :: 0 <= i < |found| ==> fresh(found[i])
  {
    found := [];
    if nid in store {
      var note := new Note(store[nid]);
      if hasField.None? || hasField.value == "" || hasField.value in note.keys {
        found := [note];
      }
    }
  }

  /** The progress of a loop over the set of the elements of `all`: `order` lists the
      elements visited so far, `rest` those still `pending`. */
  ghost predicate Visiting(rest: seq<NoteId>, pending: set<NoteId>, order: seq<NoteId>, all: seq<NoteId>) {
    Enumerates(rest, pending) && multiset(order) + multiset(rest) == multiset(all)
  }

  lemma VisitStep(rest: seq<NoteId>, pending: set<NoteId>, order: seq<NoteId>, all: seq<NoteId>, j: nat)
    requires Visiting(rest, pending, order, all) && j < |rest|
    ensures Visiting(rest[..j] + rest[j + 1..], pending - {rest[j]}, order + [rest[j]], all)
  {
    EnumeratesRemove(rest, pending, j);
    MultisetRemove(rest, j);
  }

  lemma VisitPick(rest: seq<NoteId>, pending: set<NoteId>, order: seq<NoteId>, all: seq<NoteId>)
    requires Visiting(rest, pending, order, all) && pending != {}
    ensures |rest| > 0 && rest[0] in pending
  {
  }

  lemma VisitIndex(rest: seq<NoteId>, pending: set<NoteId>, order: seq<NoteId>, all: seq<NoteId>, x: NoteId)
      returns (j: nat)
    requires Visiting(rest, pending, order, all) && x in pending
    ensures j < |rest| && rest[j] == x
  {
    j :| 0 <= j < |rest| && rest[j] == x;
  }

  lemma VisitDone(rest: seq<NoteId>, pending: set<NoteId>, order: seq<NoteId>, all: seq<NoteId>)
    requires Visiting(rest, pending, order, all) && pending == {}
    ensures multiset(order) == multiset(all)
  {
  }

  /** carefully_get_notes: each distinct id of `nids` loaded once, in the iteration order of
      a set (chosen arbitrarily here); ids of missing notes and notes without the field
      `hasField` are skipped. */
  method CarefullyGetNotes(store: Store, nids: seq<NoteId>, hasField: Option<string>) returns (ret: seq<Note>)
    requires ValidStore(store)
    ensures multiset(Ids(ret)) == multiset(Retrievable(store, nids, hasField))
    ensures Loaded(ret, store) && forall i :: 0 <= i < |ret| ==> fresh(ret[i])
    ensures Distinct(ret)
  {
    ret := [];
    var pending := set x | x in nids;
    ghost var all := FirstOccurrences(nids);
    ghost var rest, order := all, [];
    EnumeratesFirstOccurrences(nids);
    while pending != {}
      invariant Visiting(rest, pending, order, all)
      invariant Ids(ret) == Select(order, store, hasField)
      invariant Loaded(ret, store) && forall i :: 0 <= i < |ret| ==> fresh(ret[i])
      decreases |pending|
    {
      VisitPick(rest, pending, order, all);
      ghost var first := rest[0];
      var nid :| nid in pending;
      ghost var j := VisitIndex(rest, pending, order, all, nid);
      VisitStep(rest, pending, order, all, j);
      pending := pending - {nid};
      SelectSnoc(order, nid, store, hasField);
      rest, order := rest[..j] + rest[j + 1..], order + [nid];
      var found := LoadNote(store, nid, hasField);
      LoadedAppend(ret, found, store);
      ghost var prev := ret;
      ret := ret + found;
      forall i | 0 <= i < |ret| ensures fresh(ret[i]) {
        if i < |prev| { assert ret[i] == prev[i]; } else { assert ret[i] == found[i - |prev|]; }
      }
    }
    VisitDone(rest, pending, order, all);
    GatherDone(ret, order, store, nids, hasField);
  }

  /** Once every id is visited, the loaded notes are the retrievable ones, each once. */
  lemma GatherDone(ret: seq<Note>, order: seq<NoteId>, store: Store, nids: seq<NoteId>, hasField: Option<string>)
    requires Ids(ret) == Select(order, store, hasField)
    requires multiset(order) == multiset(FirstOccurrences(nids))
    ensures multiset(Ids(ret)) == multiset(Retrievable(store, nids, hasField))
    ensures Distinct(ret)
  {
    SelectPermutation(order, FirstOccurrences(nids), store, hasField);
    DistinctPermutation(Retrievable(store, nids, hasField), Ids(ret));
    forall i, j | 0 <= i < j < |ret| ensures ret[i] != ret[j] {
      assert Ids(ret)[i] != Ids(ret)[j];
    }
  }

  /** Python's `min` over a non-empty sequence of keys: the first of the smallest. */
  function MinKey(ks: seq<Key>): (m: Key)
    requires |ks| > 0
    ensures m in ks && forall i :: 0 <= i < |ks| ==> !KeyLt(ks[i], m)
  {
    if |ks| == 1 then KeyLtIrreflexive(ks[0]); ks[0]
    else
      var m' := MinKey(ks[..|ks| - 1]);
      var last := ks[|ks| - 1];
      assert ks == ks[..|ks| - 1] + [last];
      if KeyLt(last, m') then
        assert forall i :: 0 <= i < |ks| ==> !KeyLt(ks[i], last) by {
          forall i | 0 <= i < |ks| ensures !KeyLt(ks[i], last) {
            if i == |ks| - 1 {
              KeyLtIrreflexive(last);
            } else if KeyLt(ks[i], last) {
              assert ks[i] == ks[..|ks| - 1][i];
              KeyLtTrans(ks[i], last, m');
            }
          }
        }
        last
      else
        assert forall i :: 0 <= i < |ks| - 1 ==> ks[i] == ks[..|ks| - 1][i];
        m'
  }

  /** The keys of a note's cards under one ordering. */
  function CardKeys(n: NoteRec, o: Ordering, custom: string): (ks: seq<Key>)
    requires n.WellFormed()
    ensures |ks| == |n.cards| && forall i :: 0 <= i < |n.cards| ==> ks[i] == CardKey(o, custom, n.cards[i], n)
  {
    seq(|n.cards|, i requires 0 <= i < |n.cards| => CardKey(o, custom, n.cards[i], n))
  }

  /** sort_by_note_cards: the smallest key of the note's cards. */
  function NoteCardsKey(n: NoteRec, o: Ordering, custom: string): (k: Key)
    requires n.WellFormed()
  {
    MinKey(CardKeys(n, o, custom))
  }

  /** The key of a note is the key of one of its cards, and no card of the note has a
      smaller key. */
  lemma NoteCardsKeySpec(n: NoteRec, o: Ordering, custom: string)
    requires n.WellFormed()
    ensures exists i :: 0 <= i < |n.cards| && NoteCardsKey(n, o, custom) == CardKey(o, custom, n.cards[i], n)
    ensures forall c :: c in n.cards ==> !KeyLt(CardKey(o, custom, c, n), NoteCardsKey(n, o, custom))
  {
    var ks := CardKeys(n, o, custom);
    var m := NoteCardsKey(n, o, custom);
    var i :| 0 <= i < |ks| && ks[i] == m;
    assert m == CardKey(o, custom, n.cards[i], n);
    forall c | c in n.cards ensures !KeyLt(CardKey(o, custom, c, n), m) {
      var j :| 0 <= j < |n.cards| && n.cards[j] == c;
      assert ks[j] == CardKey(o, custom, c, n);
    }
  }

  /** The sort keys of a chunk, computed once before the sort from the notes' current state. */
  function ChunkKeys(rs: seq<NoteRec>, o: Ordering, custom: string): (ks: seq<Key>)
    requires AllWellFormed(rs)
    ensures |ks| == |rs| && forall i :: 0 <= i < |rs| ==> ks[i] == NoteCardsKey(rs[i], o, custom)
  {
    seq(|rs|, i requires 0 <= i < |rs| => NoteCardsKey(rs[i], o, custom))
  }

  /** The key of a note object under the configured ordering, read from its stored note:
      the field orderings read the card's note from the collection (`card.note()`) and
      the others read only the cards, which never change. */
  ghost function StoredKey(store: Store, cfg: Settings): Note -> Key
    requires ValidOrdering(cfg)
  {
    (n: Note) =>
      if n.id in store && store[n.id].WellFormed()
      then NoteCardsKey(store[n.id], Lookup(cfg.ordering).value, cfg.customSortField)
      else []
  }

  /** The chunk a group of duplicate ids turns into: every retrievable note once, sorted by
      its cards' key under the configured ordering and direction. */
  ghost predicate GroupChunk(c: seq<Note>, store: Store, nids: seq<NoteId>, cfg: Settings)
    requires ValidOrdering(cfg)
  {
    && |c| > 1
    && Distinct(c)
    && Reorders(Ids(c), Retrievable(store, nids, None))
    && SortedBy(c, StoredKey(store, cfg), cfg.reverseOrder)
  }

  /** The stored values of the notes `ns`, before any merging. */
  ghost function StoredRecs(store: Store, ns: seq<Note>): (r: seq<NoteRec>)
    requires forall i :: 0 <= i < |ns| ==> ns[i].id in store
    ensures |r| == |ns| && forall i :: 0 <= i < |ns| ==> r[i] == store[ns[i].id]
  {
    seq(|ns|, i requires 0 <= i < |ns| => store[ns[i].id])
  }

  /** The notes of a chunk hold the fold of their stored values, in _merge_chunk's order. */
  ghost predicate MergedChunk(c: seq<Note>, store: Store, op: MergeNotesOp)
    reads c
  {
    && (forall i :: 0 <= i < |c| ==> c[i].id in store)
    && var ns := ChunkOrder(c, op.cfg);
       Recs(ns) == FoldChunk(StoredRecs(store, ns), PairMerge(op.separator, op.cfg, op.norm))
  }

  /** The notes _merge_chunk queues for writing back for the chunks `cs`, in order. */
  ghost function UpdatesOf(cfg: Settings, cs: seq<seq<Note>>): seq<Note>
    requires forall k :: 0 <= k < |cs| ==> |cs[k]| > 1
  {
    if cs == [] then []
    else
      var ns := ChunkOrder(cs[|cs| - 1], cfg);
      UpdatesOf(cfg, cs[..|cs| - 1]) + (if cfg.deleteOriginalNotes then [ns[|ns| - 1]] else ns)
  }

  /** The ids _merge_chunk queues for deletion for the chunks `cs`, in order. */
  ghost function RemovalsOf(cfg: Settings, cs: seq<seq<Note>>): seq<NoteId>
    requires forall k :: 0 <= k < |cs| ==> |cs[k]| > 1
  {
    if cs == [] then []
    else
      var ns := ChunkOrder(cs[|cs| - 1], cfg);
      RemovalsOf(cfg, cs[..|cs| - 1]) + (if cfg.deleteOriginalNotes then Ids(ns)[..|ns| - 1] else [])
  }

  /** `chunk.sort(key=sort_by_note_cards, reverse=config["reverse_order"])`. */
  function SortedChunk(chunk: seq<Note>, cfg: Settings): seq<Note>
    reads chunk
    requires ValidOrdering(cfg) && AllValid(chunk)
  {
    ValidRecs(chunk);
    SortByKeys(chunk, ChunkKeys(Recs(chunk), Lookup(cfg.ordering).value, cfg.customSortField), cfg.reverseOrder)
  }

  /** The sorted chunk holds the same notes, ordered by their cards' keys. */
  lemma SortedChunkSpec(chunk: seq<Note>, store: Store, cfg: Settings)
    requires ValidOrdering(cfg) && ValidStore(store) && Loaded(chunk, store)
    ensures AllValid(chunk)
    ensures multiset(SortedChunk(chunk, cfg)) == multiset(chunk)
    ensures SortedBy(SortedChunk(chunk, cfg), StoredKey(store, cfg), cfg.reverseOrder)
  {
    var key := StoredKey(store, cfg);
    ValidRecs(chunk);
    var keys := ChunkKeys(Recs(chunk), Lookup(cfg.ordering).value, cfg.customSortField);
    SortByKeysIsSortBy(chunk, keys, key, cfg.reverseOrder);
    SortBySorted(chunk, key, cfg.reverseOrder);
  }

  /** A permutation of loaded notes holds loaded notes. */
  lemma LoadedPermutation(s: seq<Note>, t: seq<Note>, store: Store)
    requires multiset(s) == multiset(t) && Loaded(s, store)
    ensures Loaded(t, store)
  {
    forall i | 0 <= i < |t| ensures t[i].id in store && t[i].Rec() == store[t[i].id] {
      assert t[i] in multiset(s);
      assert t[i] in s;
    }
  }

  /** One round of MergeDupes.op's loop, with the call to _merge_chunk that the method
      evidently means: the group's notes are loaded, and when there are at least two they
      are sorted by their cards and merged. */
  method MergeGroup(op: MergeNotesOp, store: Store, nids: seq<NoteId>) returns (ghost chunk: seq<Note>, merged: bool)
    requires ValidOrdering(op.cfg) && ValidStore(store)
    modifies op
    ensures merged <==> |Retrievable(store, nids, None)| > 1
    ensures merged ==> GroupChunk(chunk, store, nids, op.cfg) && MergedChunk(chunk, store, op)
    ensures merged ==> forall i :: 0 <= i < |chunk| ==> fresh(chunk[i])
    ensures merged ==> Queued(op.cfg.deleteOriginalNotes, op.notesToUpdate, op.nidsToRemove,
                              old(op.notesToUpdate), old(op.nidsToRemove), ChunkOrder(chunk, op.cfg))
    ensures !merged ==> op.notesToUpdate == old(op.notesToUpdate) && op.nidsToRemove == old(op.nidsToRemove)
  {
    var loaded := CarefullyGetNotes(store, nids, None);
    assert |Ids(loaded)| == |Retrievable(store, nids, None)| by {
      assert |multiset(Ids(loaded))| == |multiset(Retrievable(store, nids, None))|;
    }
    merged := |loaded| > 1;
    chunk := loaded;
    if merged {
      SortedChunkSpec(loaded, store, op.cfg);
      var sorted := SortedChunk(loaded, op.cfg);
      LoadedPermutation(loaded, sorted, store);
      DistinctPermutation(loaded, sorted);
      IdsPermutation(loaded, sorted);
      ReordersIsMultiset(Ids(sorted), Retrievable(store, nids, None));
      forall i | 0 <= i < |sorted| ensures fresh(sorted[i]) {
        assert sorted[i] in multiset(loaded);
        assert sorted[i] in loaded;
      }
      chunk := sorted;
      MergeLoaded(op, store, sorted);
    }
  }

  /** _merge_chunk on notes that hold their stored values. */
  method MergeLoaded(op: MergeNotesOp, store: Store, chunk: seq<Note>)
    requires ValidStore(store) && Loaded(chunk, store) && Distinct(chunk) && |chunk| > 1
    modifies op, chunk
    ensures MergedChunk(chunk, store, op)
    ensures Queued(op.cfg.deleteOriginalNotes, op.notesToUpdate, op.nidsToRemove,
                   old(op.notesToUpdate), old(op.nidsToRemove), ChunkOrder(chunk, op.cfg))
  {
    ghost var ns := ChunkOrder(chunk, op.cfg);
    LoadedPermutation(chunk, ns, store);
    ghost var before := StoredRecs(store, ns);
    assert Recs(ns) == before;
    assert forall i :: 0 <= i < |chunk| ==> chunk[i] as object != op as object;
    ghost var merge := PairMerge(op.separator, op.cfg, op.norm);
    op.MergeChunk(chunk);
    assert Recs(ns) == FoldChunk(before, merge);
    assert forall i :: 0 <= i < |chunk| ==> chunk[i].id in store;
  }

  /** The ids of a permutation are a permutation of the ids. */
  lemma {:induction false} IdsPermutation(s: seq<Note>, t: seq<Note>)
    requires multiset(s) == multiset(t)
    ensures multiset(Ids(s)) == multiset(Ids(t))
    decreases |s|
  {
    if s != [] {
      var x := s[|s| - 1];
      assert x in multiset(t);
      assert x in t;
      var j :| 0 <= j < |t| && t[j] == x;
      PermutationRemove(s, t, j);
      IdsPermutation(s[..|s| - 1], t[..j] + t[j + 1..]);
      IdsPermutationStep(s, t, j);
    }
  }

  lemma IdsPermutationStep(s: seq<Note>, t: seq<Note>, j: nat)
    requires |s| > 0 && j < |t| && t[j] == s[|s| - 1]
    requires multiset(Ids(s[..|s| - 1])) == multiset(Ids(t[..j] + t[j + 1..]))
    ensures multiset(Ids(s)) == multiset(Ids(t))
  {
    IdsRemove(s, |s| - 1);
    assert s[..|s| - 1] + s[|s|..] == s[..|s| - 1];
    IdsRemove(t, j);
  }

  /** Removing the last element of one and a matching element of the other keeps two
      sequences permutations of each other. */
  lemma PermutationRemove<T>(s: seq<T>, t: seq<T>, j: nat)
    requires multiset(s) == multiset(t) && |s| > 0 && j < |t| && t[j] == s[|s| - 1]
    ensures multiset(s[..|s| - 1]) == multiset(t[..j] + t[j + 1..])
  {
    var x := s[|s| - 1];
    assert s == s[..|s| - 1] + [x];
    MultisetRemove(t, j);
    assert multiset(s[..|s| - 1]) == multiset(s) - multiset{x};
    assert multiset(t[..j] + t[j + 1..]) == multiset(t) - multiset{x};
  }

  /** Removing one note removes one occurrence of its id. */
  lemma IdsRemove(t: seq<Note>, j: nat)
    requires j < |t|
    ensures multiset(Ids(t)) == multiset(Ids(t[..j] + t[j + 1..])) + multiset{t[j].id}
  {
    var it := Ids(t);
    MultisetRemove(it, j);
    IdsConcat(t[..j], t[j + 1..]);
    IdsTake(t, j);
    IdsDrop(t, j + 1);
  }

  /** The indices below `g` of the groups `big` picks (those that retrieve at least two
      notes), ascending. */
  function Picked(big: nat -> bool, g: nat): seq<nat>
  {
    if g == 0 then [] else Picked(big, g - 1) + (if big(g - 1) then [g - 1] else [])
  }

  /** The picked indices are ascending and below `g`. */
  lemma {:induction false} PickedBelow(big: nat -> bool, g: nat)
    ensures forall k :: 0 <= k < |Picked(big, g)| ==> Picked(big, g)[k] < g
    ensures forall k, l :: 0 <= k < l < |Picked(big, g)| ==> Picked(big, g)[k] < Picked(big, g)[l]
  {
    if g > 0 {
      PickedBelow(big, g - 1);
      var prev, cur := Picked(big, g - 1), Picked(big, g);
      var tail := if big(g - 1) then [g - 1] else [];
      assert cur == prev + tail;
      forall k | 0 <= k < |cur| ensures cur[k] < g {
        if k < |prev| { assert cur[k] == prev[k]; } else { assert cur[k] == tail[k - |prev|]; }
      }
      forall k, l | 0 <= k < l < |cur| ensures cur[k] < cur[l] {
        if l < |prev| {
          assert cur[k] == prev[k] && cur[l] == prev[l];
        } else {
          assert cur[k] == prev[k] && cur[l] == tail[l - |prev|];
        }
      }
    }
  }

  /** The picked indices below `g` are exactly those `big` holds of. */
  lemma {:induction false} PickedMembers(big: nat -> bool, g: nat)
    ensures forall h: nat :: h < g ==> (h in Picked(big, g) <==> big(h))
  {
    if g > 0 {
      PickedMembers(big, g - 1);
      PickedBelow(big, g - 1);
      var prev, cur := Picked(big, g - 1), Picked(big, g);
      var tail := if big(g - 1) then [g - 1] else [];
      assert cur == prev + tail;
      assert g - 1 !in prev by {
        forall k | 0 <= k < |prev| ensures prev[k] != g - 1 { }
      }
      forall h: nat | h < g ensures h in cur <==> big(h) {
        assert h in cur <==> h in prev || h in tail;
      }
    }
  }

  /** `P` holds of every pair `cs[k]`, `gs[k]`. */
  ghost predicate AllPairs<A>(cs: seq<A>, gs: seq<nat>, P: (A, nat) -> bool)
  {
    |cs| == |gs| && (cs != [] ==> P(cs[|cs| - 1], gs[|gs| - 1]) && AllPairs(cs[..|cs| - 1], gs[..|gs| - 1], P))
  }

  lemma {:induction false} AllPairsAt<A>(cs: seq<A>, gs: seq<nat>, P: (A, nat) -> bool)
    requires AllPairs(cs, gs, P)
    ensures |cs| == |gs| && forall k :: 0 <= k < |cs| ==> P(cs[k], gs[k])
  {
    if cs != [] {
      var n := |cs| - 1;
      AllPairsAt(cs[..n], gs[..n], P);
      forall k | 0 <= k < |cs| ensures P(cs[k], gs[k]) {
        if k < n { assert cs[k] == cs[..n][k] && gs[k] == gs[..n][k]; }
      }
    }
  }

  lemma AllPairsSnoc<A>(cs: seq<A>, gs: seq<nat>, c: A, g: nat, P: (A, nat) -> bool)
    requires AllPairs(cs, gs, P) && P(c, g)
    ensures AllPairs(cs + [c], gs + [g], P)
  {
    assert (cs + [c])[..|cs|] == cs;
    assert (gs + [g])[..|gs|] == gs;
  }

  /** Chunk `c` holds the sorted retrievable notes of group `h`. */
  ghost function GroupOf(store: Store, dupes: seq<(string, seq<NoteId>)>, cfg: Settings): (seq<Note>, nat) -> bool
    requires ValidOrdering(cfg)
  {
    (c: seq<Note>, h: nat) => h < |dupes| && GroupChunk(c, store, dupes[h].1, cfg)
  }

  lemma MergedSnoc(cs: seq<seq<Note>>, c: seq<Note>, store: Store, op: MergeNotesOp)
    requires forall k :: 0 <= k < |cs| ==> MergedChunk(cs[k], store, op)
    requires MergedChunk(c, store, op)
    ensures forall k :: 0 <= k < |cs + [c]| ==> MergedChunk((cs + [c])[k], store, op)
  {
    forall k | 0 <= k < |cs + [c]| ensures MergedChunk((cs + [c])[k], store, op) {
      if k < |cs| { assert (cs + [c])[k] == cs[k]; } else { assert (cs + [c])[k] == c; }
    }
  }

  /** The queues of one more merged chunk. */
  lemma UpdatesSnoc(cfg: Settings, cs: seq<seq<Note>>, c: seq<Note>)
    requires forall k :: 0 <= k < |cs| ==> |cs[k]| > 1
    requires |c| > 1
    ensures forall k :: 0 <= k < |cs + [c]| ==> |(cs + [c])[k]| > 1
    ensures UpdatesOf(cfg, cs + [c]) == UpdatesOf(cfg, cs) +
      (if cfg.deleteOriginalNotes then [ChunkOrder(c, cfg)[|c| - 1]] else ChunkOrder(c, cfg))
  {
    assert (cs + [c])[..|cs|] == cs;
  }

  lemma RemovalsSnoc(cfg: Settings, cs: seq<seq<Note>>, c: seq<Note>)
    requires forall k :: 0 <= k < |cs| ==> |cs[k]| > 1
    requires |c| > 1
    ensures forall k :: 0 <= k < |cs + [c]| ==> |(cs + [c])[k]| > 1
    ensures RemovalsOf(cfg, cs + [c]) == RemovalsOf(cfg, cs) +
      (if cfg.deleteOriginalNotes then Ids(ChunkOrder(c, cfg))[..|c| - 1] else [])
  {
    assert (cs + [c])[..|cs|] == cs;
  }

  /** A queue that held `q0 + f` and grew by `t` holds `q0 + (f + t)`. */
  lemma QueueGrows<T>(q0: seq<T>, f: seq<T>, t: seq<T>, f1: seq<T>, q: seq<T>, q1: seq<T>)
    requires q == q0 + f && q1 == q + t && f1 == f + t
    ensures q1 == q0 + f1
  {
    AppendAssoc(q0, f, t);
  }

  /** The queues after one more merged chunk. */
  lemma QueueStep(cfg: Settings, cs: seq<seq<Note>>, c: seq<Note>, update0: seq<Note>, remove0: seq<NoteId>,
                  update: seq<Note>, remove: seq<NoteId>, update1: seq<Note>, remove1: seq<NoteId>)
    requires forall k :: 0 <= k < |cs| ==> |cs[k]| > 1
    requires |c| > 1
    requires update == update0 + UpdatesOf(cfg, cs) && remove == remove0 + RemovalsOf(cfg, cs)
    requires Queued(cfg.deleteOriginalNotes, update1, remove1, update, remove, ChunkOrder(c, cfg))
    ensures forall k :: 0 <= k < |cs + [c]| ==> |(cs + [c])[k]| > 1
    ensures update1 == update0 + UpdatesOf(cfg, cs + [c])
    ensures remove1 == remove0 + RemovalsOf(cfg, cs + [c])
  {
    var ns := ChunkOrder(c, cfg);
    UpdatesSnoc(cfg, cs, c);
    RemovalsSnoc(cfg, cs, c);
    QueueGrows(update0, UpdatesOf(cfg, cs), if cfg.deleteOriginalNotes then [ns[|ns| - 1]] else ns,
               UpdatesOf(cfg, cs + [c]), update, update1);
    QueueGrows(remove0, RemovalsOf(cfg, cs), if cfg.deleteOriginalNotes then Ids(ns)[..|ns| - 1] else [],
               RemovalsOf(cfg, cs + [c]), remove, remove1);
  }

  /** What MergeDupes.op's loop has done after the groups below `g`: `groups` lists the
      groups `big` picks, `chunks` their sorted notes, each merged, and the queues hold
      what _merge_chunk queued for them. */
  ghost predicate Progress(op: MergeNotesOp, store: Store, dupes: seq<(string, seq<NoteId>)>, g: nat,
                           big: nat -> bool, update0: seq<Note>, remove0: seq<NoteId>,
                           chunks: seq<seq<Note>>, groups: seq<nat>)
    reads op, set k, i | 0 <= k < |chunks| && 0 <= i < |chunks[k]| :: chunks[k][i]
  {
    && ValidOrdering(op.cfg)
    && |groups| == |chunks| && groups == Picked(big, g)
    && (forall k :: 0 <= k < |chunks| ==> |chunks[k]| > 1)
    && AllPairs(chunks, groups, GroupOf(store, dupes, op.cfg))
    && (forall k :: 0 <= k < |chunks| ==> MergedChunk(chunks[k], store, op))
    && op.notesToUpdate == update0 + UpdatesOf(op.cfg, chunks)
    && op.nidsToRemove == remove0 + RemovalsOf(op.cfg, chunks)
  }

  /** One pass of MergeDupes.op's loop over the groups: group `g` becomes the next chunk
      when it retrieves at least two notes. */
  method MergeNext(op: MergeNotesOp, store: Store, dupes: seq<(string, seq<NoteId>)>, g: nat,
                   ghost big: nat -> bool, ghost update0: seq<Note>, ghost remove0: seq<NoteId>,
                   ghost chunks: seq<seq<Note>>, ghost groups: seq<nat>)
      returns (ghost chunks1: seq<seq<Note>>, ghost groups1: seq<nat>)
    requires ValidStore(store) && g < |dupes|
    requires forall h: nat :: big(h) == (h < |dupes| && |Retrievable(store, dupes[h].1, None)| > 1)
    requires Progress(op, store, dupes, g, big, update0, remove0, chunks, groups)
    modifies op
    ensures Progress(op, store, dupes, g + 1, big, update0, remove0, chunks1, groups1)
  {
    label before:
    ghost var update, remove := op.notesToUpdate, op.nidsToRemove;
    var chunk, merged := MergeGroup(op, store, dupes[g].1);
    assert big(g) == merged;
    assert Picked(big, g + 1) == groups + if merged then [g] else [];
    forall k | 0 <= k < |chunks| ensures MergedChunk(chunks[k], store, op) {
      assert old@before(MergedChunk(chunks[k], store, op));
    }
    chunks1, groups1 := chunks, groups;
    if merged {
      QueueStep(op.cfg, chunks, chunk, update0, remove0, update, remove, op.notesToUpdate, op.nidsToRemove);
      AllPairsSnoc(chunks, groups, chunk, g, GroupOf(store, dupes, op.cfg));
      MergedSnoc(chunks, chunk, store, op);
      chunks1, groups1 := chunks + [chunk], groups + [g];
    }
  }

  /** MergeDupes.op with the evidently intended call to _merge_chunk: the groups of at
      least two retrievable notes become chunks, in the order of `dupes`, each sorted by
      its cards and merged, and their notes are queued as _merge_chunk queues them. */
  method MergeDupesOp(op: MergeNotesOp, store: Store, dupes: seq<(string, seq<NoteId>)>)
      returns (ghost chunks: seq<seq<Note>>, ghost groups: seq<nat>)
    requires ValidOrdering(op.cfg) && ValidStore(store)
    modifies op
    ensures |groups| == |chunks|
    ensures forall k :: 0 <= k < |chunks| ==> |chunks[k]| > 1
    ensures forall k, l :: 0 <= k < l < |groups| ==> groups[k] < groups[l]
    ensures forall k :: 0 <= k < |groups| ==> groups[k] < |dupes|
    ensures forall g :: 0 <= g < |dupes| ==> (g in groups <==> |Retrievable(store, dupes[g].1, None)| > 1)
    ensures forall k :: 0 <= k < |chunks| ==>
      GroupChunk(chunks[k], store, dupes[groups[k]].1, op.cfg) && MergedChunk(chunks[k], store, op)
    ensures op.notesToUpdate == old(op.notesToUpdate) + UpdatesOf(op.cfg, chunks)
    ensures op.nidsToRemove == old(op.nidsToRemove) + RemovalsOf(op.cfg, chunks)
  {
    ghost var update0, remove0 := op.notesToUpdate, op.nidsToRemove;
    ghost var big := (h: nat) => h < |dupes| && |Retrievable(store, dupes[h].1, None)| > 1;
    chunks, groups := [], [];
    for g: nat := 0 to |dupes|
      invariant Progress(op, store, dupes, g, big, update0, remove0, chunks, groups)
    {
      chunks, groups := MergeNext(op, store, dupes, g, big, update0, remove0, chunks, groups);
    }
    ProgressDone(op, store, dupes, big, update0, remove0, chunks, groups);
  }

  /** After the last group, the chunks are the groups with two notes, in order, and each
      is sorted and merged. */
  lemma ProgressDone(op: MergeNotesOp, store: Store, dupes: seq<(string, seq<NoteId>)>,
                     big: nat -> bool, update0: seq<Note>, remove0: seq<NoteId>,
                     chunks: seq<seq<Note>>, groups: seq<nat>)
    requires forall h: nat :: big(h) == (h < |dupes| && |Retrievable(store, dupes[h].1, None)| > 1)
    requires Progress(op, store, dupes, |dupes|, big, update0, remove0, chunks, groups)
    ensures |groups| == |chunks|
    ensures forall k :: 0 <= k < |chunks| ==> |chunks[k]| > 1
    ensures forall k, l :: 0 <= k < l < |groups| ==> groups[k] < groups[l]
    ensures forall k :: 0 <= k < |groups| ==> groups[k] < |dupes|
    ensures forall g :: 0 <= g < |dupes| ==> (g in groups <==> |Retrievable(store, dupes[g].1, None)| > 1)
    ensures forall k :: 0 <= k < |chunks| ==>
      GroupChunk(chunks[k], store, dupes[groups[k]].1, op.cfg) && MergedChunk(chunks[k], store, op)
    ensures op.notesToUpdate == update0 + UpdatesOf(op.cfg, chunks)
    ensures op.nidsToRemove == remove0 + RemovalsOf(op.cfg, chunks)
  {
    AllPairsAt(chunks, groups, GroupOf(store, dupes, op.cfg));
    PickedBelow(big, |dupes|);
    PickedMembers(big, |dupes|);
  }

  /** What MergeDupes.op ends in. */
  datatype OpOutcome = Done | Raised(error: string)

  const MissingMethodError: string := "AttributeError: 'MergeDupes' object has no attribute '_merge_notes'"

  /** MergeDupes.op as written: the loop calls `self._merge_notes(chunk)`, which neither
      MergeDupes nor MergeNotes defines, so the first group that loads at least two notes
      raises before anything is merged or written back. */
  function OpAsWritten(store: Store, dupes: seq<(string, seq<NoteId>)>): (r: OpOutcome)
  {
    if dupes == [] then Done
    else if |Retrievable(store, dupes[0].1, None)| > 1 then Raised(MissingMethodError)
    else OpAsWritten(store, dupes[1..])
  }

  /** As written, the operation completes exactly when no group has two notes to merge. */
  lemma {:induction false} OpAsWrittenFails(store: Store, dupes: seq<(string, seq<NoteId>)>)
    ensures OpAsWritten(store, dupes) == Done <==>
      forall g :: 0 <= g < |dupes| ==> |Retrievable(store, dupes[g].1, None)| <= 1
    ensures OpAsWritten(store, dupes) != Done ==> OpAsWritten(store, dupes) == Raised(MissingMethodError)
  {
    if dupes != [] {
      OpAsWrittenFails(store, dupes[1..]);
      if OpAsWritten(store, dupes) == Done {
        forall g | 0 <= g < |dupes| ensures |Retrievable(store, dupes[g].1, None)| <= 1 {
          if g > 0 { assert dupes[g] == dupes[1..][g - 1]; }
        }
      }
    }
  }

  /** Two stored notes reported as one group of duplicates: merging them raises. */
  lemma OpAsWrittenCounterexample(a: NoteRec, b: NoteRec)
    requires a.id == 1 && b.id == 2
    ensures OpAsWritten(map[1 := a, 2 := b], [("x", [1, 2])]) == Raised(MissingMethodError)
  {
    var store := map[1 := a, 2 := b];
    var r := Retrievable(store, [1, 2], None);
    RetrievableSpec(store, [1, 2], None, 1);
    RetrievableSpec(store, [1, 2], None, 2);
    var i :| 0 <= i < |r| && r[i] == 1;
    var j :| 0 <= j < |r| && r[j] == 2;
    assert i != j;
  }

  /** The message and the action of merge_dupes. */
  datatype Dispatch = RunInBackground(onSuccess: string) | Notify(message: string)

  /** merge_dupes: an empty report only tells the user there is nothing to do; otherwise the
      operation runs and its success is reported with the number of groups. */
  function MergeDupes(dupes: seq<(string, seq<NoteId>)>): (d: Dispatch)
    ensures d.Notify? <==> |dupes| == 0
    ensures d.RunInBackground? ==> d.onSuccess == "Merged " + NatToString(|dupes|) + " groups of notes."
    ensures d.Notify? ==> d.message == "Nothing to do."
  {
    if |dupes| > 0 then RunInBackground("Merged " + NatToString(|dupes|) + " groups of notes.")
    else Notify("Nothing to do.")
  }
}
