/** The deep duplicate search: the host's Find Duplicates dialog, with notes compared on
    their normalised field values. */
module FindDuplicates {
  import opened Strings
  import opened Notes
  import opened Config
  import opened MergeNotes
  import opened MergeDuplicates

  /** What a duplicate search reports: each duplicated value with the ids of its notes. */
  type Report = seq<(string, seq<NoteId>)>

  /** What the scan of `rs` puts into its dictionary, in order: the normalised value of
      `field` and the note's id, for each note whose normalised value is not empty. */
  function Entries(rs: seq<NoteRec>, field: string, norm: string -> string): (e: seq<(string, NoteId)>)
    ensures |e| <= |rs|
  {
    if rs == [] then [] else Entries(rs[..|rs| - 1], field, norm) + Entry(rs[|rs| - 1], field, norm)
  }

  /** The entry of one note: none when its normalised value is empty. */
  function Entry(r: NoteRec, field: string, norm: string -> string): (e: seq<(string, NoteId)>)
    ensures |e| <= 1
  {
    if field in r.fields && norm(r.fields[field]) != "" then [(norm(r.fields[field]), r.id)] else []
  }

  lemma EntriesSnoc(rs: seq<NoteRec>, r: NoteRec, field: string, norm: string -> string)
    ensures Entries(rs + [r], field, norm) == Entries(rs, field, norm) + Entry(r, field, norm)
  {
    assert (rs + [r])[..|rs|] == rs;
  }

  /** The entry `x` comes from a scanned note that has the field, with its value. */
  ghost predicate FromNote(x: (string, NoteId), rs: seq<NoteRec>, field: string, norm: string -> string) {
    exists j :: 0 <= j < |rs| && rs[j].id == x.1 && field in rs[j].fields && norm(rs[j].fields[field]) == x.0
  }

  /** Every entry comes from a scanned note that has the field, and its value is not empty. */
  lemma {:induction false} EntriesSound(rs: seq<NoteRec>, field: string, norm: string -> string)
    ensures forall i :: 0 <= i < |Entries(rs, field, norm)| ==>
      Entries(rs, field, norm)[i].0 != "" && FromNote(Entries(rs, field, norm)[i], rs, field, norm)
  {
    if rs != [] {
      var init := rs[..|rs| - 1];
      EntriesSound(init, field, norm);
      var e, e0 := Entries(rs, field, norm), Entries(init, field, norm);
      forall i | 0 <= i < |e| ensures e[i].0 != "" && FromNote(e[i], rs, field, norm) {
        if i < |e0| {
          assert e[i] == e0[i];
          assert FromNote(e0[i], init, field, norm);
          var j :| 0 <= j < |init| && init[j].id == e0[i].1
            && field in init[j].fields && norm(init[j].fields[field]) == e0[i].0;
          assert rs[j] == init[j];
        } else {
          assert rs[|rs| - 1].id == e[i].1;
        }
      }
    }
  }

  /** Every scanned note whose normalised value is not empty has an entry. */
  lemma {:induction false} EntriesComplete(rs: seq<NoteRec>, field: string, norm: string -> string, j: nat)
    requires j < |rs| && field in rs[j].fields && norm(rs[j].fields[field]) != ""
    ensures exists i :: (0 <= i < |Entries(rs, field, norm)|
      && Entries(rs, field, norm)[i] == (norm(rs[j].fields[field]), rs[j].id))
  {
    var init := rs[..|rs| - 1];
    var e, e0 := Entries(rs, field, norm), Entries(init, field, norm);
    assert e == e0 + Entry(rs[|rs| - 1], field, norm);
    if j < |init| {
      assert init[j] == rs[j];
      EntriesComplete(init, field, norm, j);
      var i :| 0 <= i < |e0| && e0[i] == (norm(rs[j].fields[field]), rs[j].id);
      assert e[i] == e0[i];
    } else {
      assert e[|e0|] == (norm(rs[j].fields[field]), rs[j].id);
    }
  }

  /** The values of the entries, in order. */
  function Values(e: seq<(string, NoteId)>): (r: seq<string>)
    ensures |r| == |e|
  {
    if e == [] then [] else Values(e[..|e| - 1]) + [e[|e| - 1].0]
  }

  lemma {:induction false} ValuesAt(e: seq<(string, NoteId)>)
    ensures forall i :: 0 <= i < |e| ==> Values(e)[i] == e[i].0
  {
    if e != [] {
      ValuesAt(e[..|e| - 1]);
    }
  }

  lemma ValuesSnoc(e: seq<(string, NoteId)>, x: (string, NoteId))
    ensures Values(e + [x]) == Values(e) + [x.0]
  {
    assert (e + [x])[..|e|] == e;
  }

  /** The ids of the entries with value `k`, in the order of the entries. */
  function IdsOf(e: seq<(string, NoteId)>, k: string): (r: seq<NoteId>)
  {
    if e == [] then []
    else IdsOf(e[..|e| - 1], k) + (if e[|e| - 1].0 == k then [e[|e| - 1].1] else [])
  }

  lemma IdsOfSnoc(e: seq<(string, NoteId)>, x: (string, NoteId), k: string)
    ensures IdsOf(e + [x], k) == IdsOf(e, k) + (if x.0 == k then [x.1] else [])
  {
    assert (e + [x])[..|e|] == e;
  }

  /** Every id of `IdsOf(e, k)` is that of an entry with value `k`. */
  lemma {:induction false} IdsOfSound(e: seq<(string, NoteId)>, k: string)
    ensures forall a :: 0 <= a < |IdsOf(e, k)| ==> exists i :: 0 <= i < |e| && e[i] == (k, IdsOf(e, k)[a])
  {
    if e != [] {
      var init, x := e[..|e| - 1], e[|e| - 1];
      IdsOfSound(init, k);
      IdsOfSnoc(init, x, k);
      assert e == init + [x];
      var r0 := IdsOf(init, k);
      forall a | 0 <= a < |IdsOf(e, k)| ensures exists i :: 0 <= i < |e| && e[i] == (k, IdsOf(e, k)[a]) {
        if a < |r0| {
          var i :| 0 <= i < |init| && init[i] == (k, r0[a]);
          assert e[i] == init[i];
          assert IdsOf(e, k)[a] == r0[a];
        } else {
          assert e[|init|] == (k, IdsOf(e, k)[a]);
        }
      }
    } else {
      assert IdsOf(e, k) == [];
    }
  }

  /** The id of every entry with value `k` is in `IdsOf(e, k)`. */
  lemma {:induction false} IdsOfComplete(e: seq<(string, NoteId)>, k: string)
    ensures forall i :: 0 <= i < |e| && e[i].0 == k ==> e[i].1 in IdsOf(e, k)
  {
    if e != [] {
      var init, x := e[..|e| - 1], e[|e| - 1];
      IdsOfComplete(init, k);
      IdsOfSnoc(init, x, k);
      assert e == init + [x];
      var r, r0 := IdsOf(e, k), IdsOf(init, k);
      forall i | 0 <= i < |e| && e[i].0 == k ensures e[i].1 in r {
        if i < |init| {
          assert init[i] == e[i];
          var a :| 0 <= a < |r0| && r0[a] == e[i].1;
          assert r[a] == r0[a];
        } else {
          assert r[|r0|] == e[i].1;
        }
      }
    }
  }

  /** `IdsOf(e, k)` is empty exactly when no entry has value `k`. */
  lemma {:induction false} IdsOfEmpty(e: seq<(string, NoteId)>, k: string)
    ensures IdsOf(e, k) == [] <==> forall i :: 0 <= i < |e| ==> e[i].0 != k
  {
    if e != [] {
      var init, x := e[..|e| - 1], e[|e| - 1];
      IdsOfEmpty(init, k);
      IdsOfSnoc(init, x, k);
      assert e == init + [x];
      if IdsOf(e, k) == [] {
        forall i | 0 <= i < |e| ensures e[i].0 != k {
          if i < |init| { assert init[i] == e[i]; }
        }
      }
    }
  }

  /** The ids of entries whose ids occur once each occur once each. */
  lemma {:induction false} IdsOfDistinct(e: seq<(string, NoteId)>, k: string)
    requires forall i, j :: 0 <= i < j < |e| ==> e[i].1 != e[j].1
    ensures Distinct(IdsOf(e, k))
  {
    if e != [] {
      var init, x := e[..|e| - 1], e[|e| - 1];
      assert e == init + [x];
      IdsOfDistinct(init, k);
      IdsOfSnoc(init, x, k);
      var r0 := IdsOf(init, k);
      if x.0 == k {
        IdsOfSound(init, k);
        forall a | 0 <= a < |r0| ensures r0[a] != x.1 {
          var i :| 0 <= i < |init| && init[i] == (k, r0[a]);
          assert e[i] == init[i];
        }
        assert x.1 !in r0;
        DistinctAppend(r0, x.1);
      }
    }
  }

  /** `[(k, ids(k)) for k in keys if len(ids(k)) >= 2]`, for any way `ids` of looking up
      the ids filed under a key. */
  function Reported(keys: seq<string>, ids: string -> seq<NoteId>): Report
  {
    if keys == [] then []
    else
      var k := keys[|keys| - 1];
      Reported(keys[..|keys| - 1], ids) + (if |ids(k)| >= 2 then [(k, ids(k))] else [])
  }

  /** Two lookups that agree on the keys report the same. */
  lemma {:induction false} ReportedAgree(keys: seq<string>, f: string -> seq<NoteId>, g: string -> seq<NoteId>)
    requires forall j :: 0 <= j < |keys| ==> f(keys[j]) == g(keys[j])
    ensures Reported(keys, f) == Reported(keys, g)
  {
    if keys != [] {
      ReportedAgree(keys[..|keys| - 1], f, g);
    }
  }

  /** The positions in `keys` of the keys the comprehension keeps. */
  ghost function Kept(keys: seq<string>, ids: string -> seq<NoteId>): seq<nat> {
    if keys == [] then []
    else Kept(keys[..|keys| - 1], ids) + (if |ids(keys[|keys| - 1])| >= 2 then [|keys| - 1] else [])
  }

  lemma {:induction false} KeptLength(keys: seq<string>, ids: string -> seq<NoteId>)
    ensures |Kept(keys, ids)| == |Reported(keys, ids)|
  {
    if keys != [] {
      KeptLength(keys[..|keys| - 1], ids);
    }
  }

  /** The comprehension reports the key at each kept position, with its ids, which are at
      least two. */
  lemma {:induction false} KeptSound(keys: seq<string>, ids: string -> seq<NoteId>)
    ensures forall g :: 0 <= g < |Reported(keys, ids)| ==>
      && g < |Kept(keys, ids)| && Kept(keys, ids)[g] < |keys|
      && keys[Kept(keys, ids)[g]] == Reported(keys, ids)[g].0
      && |Reported(keys, ids)[g].1| >= 2 && Reported(keys, ids)[g].1 == ids(Reported(keys, ids)[g].0)
  {
    if keys != [] {
      var init, k := keys[..|keys| - 1], keys[|keys| - 1];
      KeptSound(init, ids);
      KeptLength(init, ids);
      var r0, p0 := Reported(init, ids), Kept(init, ids);
      var r, p := Reported(keys, ids), Kept(keys, ids);
      assert r == r0 + (if |ids(k)| >= 2 then [(k, ids(k))] else []);
      assert p == p0 + (if |ids(k)| >= 2 then [|init|] else []);
      forall g | 0 <= g < |r|
        ensures g < |p| && p[g] < |keys| && keys[p[g]] == r[g].0 && |r[g].1| >= 2 && r[g].1 == ids(r[g].0)
      {
        if g < |r0| {
          assert r[g] == r0[g] && p[g] == p0[g];
          assert keys[p0[g]] == init[p0[g]];
        }
      }
    } else {
      assert Reported(keys, ids) == [];
    }
  }

  /** The kept positions ascend. */
  lemma {:induction false} KeptAscending(keys: seq<string>, ids: string -> seq<NoteId>)
    ensures forall g :: 0 <= g < |Kept(keys, ids)| ==> Kept(keys, ids)[g] < |keys|
    ensures forall g, h :: 0 <= g < h < |Kept(keys, ids)| ==> Kept(keys, ids)[g] < Kept(keys, ids)[h]
  {
    if keys != [] {
      var init, k := keys[..|keys| - 1], keys[|keys| - 1];
      KeptAscending(init, ids);
      var p0, p := Kept(init, ids), Kept(keys, ids);
      assert p == p0 + (if |ids(k)| >= 2 then [|init|] else []);
      forall g | 0 <= g < |p| ensures p[g] < |keys| {
        if g < |p0| { assert p[g] == p0[g]; }
      }
      forall g, h | 0 <= g < h < |p| ensures p[g] < p[h] {
        assert p[g] == p0[g];
        if h < |p0| { assert p[h] == p0[h]; }
      }
    }
  }

  /** Every key with at least two ids is kept. */
  lemma {:induction false} KeptComplete(keys: seq<string>, ids: string -> seq<NoteId>)
    ensures forall a :: 0 <= a < |keys| && |ids(keys[a])| >= 2 ==> a in Kept(keys, ids)
  {
    if keys != [] {
      var init, k := keys[..|keys| - 1], keys[|keys| - 1];
      KeptComplete(init, ids);
      var p0 := Kept(init, ids);
      assert Kept(keys, ids) == p0 + (if |ids(k)| >= 2 then [|init|] else []);
      forall a | 0 <= a < |keys| && |ids(keys[a])| >= 2 ensures a in Kept(keys, ids) {
        if a < |init| {
          assert init[a] == keys[a];
          assert a in p0;
        } else {
          assert keys[a] == k;
        }
      }
    }
  }

  /** The reference result of the deep search over entries `e`: the distinct values in
      the order of their first entries, each with the ids of its entries, kept when they
      are at least two. */
  function ReportOf(e: seq<(string, NoteId)>): Report {
    Reported(FirstOccurrences(Values(e)), k => IdsOf(e, k))
  }

  /** `vals.get(k, [])`. */
  function Lookup(vals: map<string, seq<NoteId>>, k: string): seq<NoteId> {
    if k in vals then vals[k] else []
  }

  /** What deep_search_duplicates reports of the entries `e`: each reported value has at
      least two entries and comes with exactly the ids of its entries, in their order. */
  lemma ReportOfGroups(e: seq<(string, NoteId)>)
    ensures forall g :: 0 <= g < |ReportOf(e)| ==>
      |ReportOf(e)[g].1| >= 2 && ReportOf(e)[g].1 == IdsOf(e, ReportOf(e)[g].0)
  {
    KeptSound(FirstOccurrences(Values(e)), k => IdsOf(e, k));
  }

  /** The reported values come in the order of their first entries, so none is reported twice. */
  lemma ReportOfOrder(e: seq<(string, NoteId)>)
    ensures forall g, h :: 0 <= g < h < |ReportOf(e)| ==>
      && ReportOf(e)[g].0 in Values(e) && ReportOf(e)[h].0 in Values(e)
      && FirstIndex(Values(e), ReportOf(e)[g].0) < FirstIndex(Values(e), ReportOf(e)[h].0)
  {
    var keys := FirstOccurrences(Values(e));
    var ids := k => IdsOf(e, k);
    var r, p := ReportOf(e), Kept(keys, ids);
    KeptSound(keys, ids);
    KeptAscending(keys, ids);
    FirstOccurrencesOrdered(Values(e));
    forall g, h | 0 <= g < h < |r|
      ensures r[g].0 in Values(e) && r[h].0 in Values(e)
      ensures FirstIndex(Values(e), r[g].0) < FirstIndex(Values(e), r[h].0)
    {
      assert p[g] < p[h];
    }
  }

  /** Every value with at least two entries is reported. */
  lemma ReportOfComplete(e: seq<(string, NoteId)>)
    ensures forall k :: |IdsOf(e, k)| >= 2 ==> exists g :: 0 <= g < |ReportOf(e)| && ReportOf(e)[g].0 == k
  {
    var keys := FirstOccurrences(Values(e));
    var ids := k => IdsOf(e, k);
    var r, p := ReportOf(e), Kept(keys, ids);
    KeptSound(keys, ids);
    KeptLength(keys, ids);
    KeptComplete(keys, ids);
    forall k | |IdsOf(e, k)| >= 2 ensures exists g :: 0 <= g < |r| && r[g].0 == k {
      IdsOfEmpty(e, k);
      ValuesAt(e);
      FirstOccurrencesMembers(Values(e));
      var i :| 0 <= i < |e| && e[i].0 == k;
      assert Values(e)[i] in keys;
      var a :| 0 <= a < |keys| && keys[a] == Values(e)[i];
      assert |ids(keys[a])| >= 2;
      assert a in p;
      var g :| 0 <= g < |p| && p[g] == a;
    }
  }

  /** The state of deep_search_duplicates' dictionary `vals` after the entries `e`: its keys
      in insertion order and its lists. */
  ghost predicate Bucketed(keys: seq<string>, vals: map<string, seq<NoteId>>, e: seq<(string, NoteId)>) {
    && keys == FirstOccurrences(Values(e))
    && (forall k :: Lookup(vals, k) == IdsOf(e, k))
    && (forall k :: k in vals ==> vals[k] != [])
  }

  lemma FirstOccurrencesSnoc<T>(s: seq<T>, x: T)
    ensures FirstOccurrences(s + [x]) == if x in s then FirstOccurrences(s) else FirstOccurrences(s) + [x]
  {
    assert (s + [x])[..|s|] == s;
    FirstOccurrencesMembers(s);
    var p := FirstOccurrences(s);
    if x in p {
      var a :| 0 <= a < |p| && p[a] == x;
      assert p[a] in s;
    }
  }

  /** A value has a list in the dictionary exactly when some entry has it. */
  lemma BucketedHas(keys: seq<string>, vals: map<string, seq<NoteId>>, e: seq<(string, NoteId)>, v: string)
    requires Bucketed(keys, vals, e)
    ensures v in vals <==> v in Values(e)
  {
    IdsOfEmpty(e, v);
    ValuesAt(e);
    assert Lookup(vals, v) == IdsOf(e, v);
    if v in Values(e) {
      var i :| 0 <= i < |Values(e)| && Values(e)[i] == v;
      assert e[i].0 == v;
    }
  }

  /** A value new to the dictionary goes last in its keys. */
  lemma BucketKeys(keys: seq<string>, vals: map<string, seq<NoteId>>, e: seq<(string, NoteId)>, v: string, id: NoteId)
    requires Bucketed(keys, vals, e)
    ensures (if v in vals then keys else keys + [v]) == FirstOccurrences(Values(e + [(v, id)]))
  {
    ValuesSnoc(e, (v, id));
    FirstOccurrencesSnoc(Values(e), v);
    BucketedHas(keys, vals, e, v);
  }

  /** The id goes last in the list of its value; every other list stays. */
  lemma BucketLists(vals: map<string, seq<NoteId>>, e: seq<(string, NoteId)>, v: string, id: NoteId)
    requires forall k :: Lookup(vals, k) == IdsOf(e, k)
    ensures forall k :: Lookup(vals[v := Lookup(vals, v) + [id]], k) == IdsOf(e + [(v, id)], k)
  {
    forall k ensures Lookup(vals[v := Lookup(vals, v) + [id]], k) == IdsOf(e + [(v, id)], k) {
      IdsOfSnoc(e, (v, id), k);
    }
  }

  /** `vals.setdefault(v, []).append(id)` on a dictionary that holds the entries `e`. */
  lemma BucketStep(keys: seq<string>, vals: map<string, seq<NoteId>>, e: seq<(string, NoteId)>, v: string, id: NoteId)
    requires Bucketed(keys, vals, e)
    ensures Bucketed(if v in vals then keys else keys + [v], vals[v := Lookup(vals, v) + [id]], e + [(v, id)])
  {
    BucketKeys(keys, vals, e, v, id);
    BucketLists(vals, e, v, id);
  }

  /** The comprehension at the end of deep_search_duplicates reports what ReportOf does. */
  lemma BucketReport(keys: seq<string>, vals: map<string, seq<NoteId>>, e: seq<(string, NoteId)>)
    requires Bucketed(keys, vals, e)
    ensures Reported(keys, k => Lookup(vals, k)) == ReportOf(e)
  {
    forall j | 0 <= j < |keys| ensures Lookup(vals, keys[j]) == IdsOf(e, keys[j]) {
    }
    ReportedAgree(keys, k => Lookup(vals, k), k => IdsOf(e, k));
  }

  /** `vals.setdefault(v, []).append(id)`: a new value is appended to the keys with an
      empty list, and the id is appended to the value's list. */
  method AddToBucket(keys0: seq<string>, vals0: map<string, seq<NoteId>>, ghost e: seq<(string, NoteId)>, v: string, id: NoteId)
      returns (keys: seq<string>, vals: map<string, seq<NoteId>>)
    requires Bucketed(keys0, vals0, e)
    ensures Bucketed(keys, vals, e + [(v, id)])
  {
    BucketStep(keys0, vals0, e, v, id);
    var bucket := [];
    keys := keys0;
    if v in vals0 {
      bucket := vals0[v];
    } else {
      keys := keys + [v];
    }
    vals := vals0[v := bucket + [id]];
  }

  /** Every note of `rs` has the field. */
  ghost predicate HasField(rs: seq<NoteRec>, field: string) {
    forall j :: 0 <= j < |rs| ==> field in rs[j].fields
  }

  lemma HasFieldPrefix(rs: seq<NoteRec>, i: nat, field: string)
    requires i < |rs| && HasField(rs[..i], field) && field in rs[i].fields
    ensures HasField(rs[..i + 1], field)
  {
    assert rs[..i + 1] == rs[..i] + [rs[i]];
  }

  lemma EntriesPrefix(rs: seq<NoteRec>, i: nat, field: string, norm: string -> string)
    requires i < |rs|
    ensures Entries(rs[..i + 1], field, norm) == Entries(rs[..i], field, norm) + Entry(rs[i], field, norm)
  {
    assert rs[..i + 1] == rs[..i] + [rs[i]];
    EntriesSnoc(rs[..i], rs[i], field, norm);
  }

  /** One turn of deep_search_duplicates' loop, for a note that has the field. */
  method ScanNote(note: Note, field: string, norm: string -> string,
                  keys0: seq<string>, vals0: map<string, seq<NoteId>>, ghost e0: seq<(string, NoteId)>)
      returns (keys: seq<string>, vals: map<string, seq<NoteId>>, ghost e: seq<(string, NoteId)>)
    requires field in note.fields && Bucketed(keys0, vals0, e0)
    ensures Bucketed(keys, vals, e) && e == e0 + Entry(note.Rec(), field, norm)
  {
    var v := norm(note.fields[field]);
    if v != "" {
      keys, vals := AddToBucket(keys0, vals0, e0, v, note.id);
      e := e0 + [(v, note.id)];
    } else {
      keys, vals, e := keys0, vals0, e0;
      assert e0 + [] == e0;
    }
  }

  /** The loop and the comprehension of deep_search_duplicates over the notes the search
      returned, in the order given. `note[field_name]` raises KeyError (None here) on the
      first note without the field. */
  method ScanNotes(notes: seq<Note>, field: string, norm: string -> string) returns (r: Option<Report>)
    ensures r.None? <==> exists i :: 0 <= i < |notes| && field !in Recs(notes)[i].fields
    ensures r.Some? ==> r.value == ReportOf(Entries(Recs(notes), field, norm))
  {
    ghost var rs := Recs(notes);
    var keys: seq<string> := [];
    var vals: map<string, seq<NoteId>> := map[];
    ghost var e := [];
    for i := 0 to |notes|
      invariant HasField(rs[..i], field)
      invariant e == Entries(rs[..i], field, norm)
      invariant Bucketed(keys, vals, e)
    {
      var note := notes[i];
      assert note.Rec() == rs[i];
      if field !in note.fields {
        assert field !in Recs(notes)[i].fields;
        return None;
      }
      EntriesPrefix(rs, i, field, norm);
      HasFieldPrefix(rs, i, field);
      keys, vals, e := ScanNote(note, field, norm, keys, vals, e);
    }
    ScanDone(rs, field, norm, keys, vals, e);
    r := Some(Reported(keys, k => Lookup(vals, k)));
  }

  /** After the whole list: every note has the field and the buckets give the reference report. */
  lemma ScanDone(rs: seq<NoteRec>, field: string, norm: string -> string,
                 keys: seq<string>, vals: map<string, seq<NoteId>>, e: seq<(string, NoteId)>)
    requires HasField(rs[..|rs|], field) && e == Entries(rs[..|rs|], field, norm) && Bucketed(keys, vals, e)
    ensures forall i :: 0 <= i < |rs| ==> field in rs[i].fields
    ensures Reported(keys, k => Lookup(vals, k)) == ReportOf(Entries(rs, field, norm))
  {
    assert rs[..|rs|] == rs;
    BucketReport(keys, vals, e);
  }

  /** Two stored notes share a non-empty normalised value of `field`. */
  ghost predicate SameValue(store: Store, field: string, norm: string -> string, x: NoteId, y: NoteId) {
    && x in store && y in store && field in store[x].fields && field in store[y].fields
    && norm(store[x].fields[field]) != "" && norm(store[x].fields[field]) == norm(store[y].fields[field])
  }

  /** Each group has at least two notes, each once, and a non-empty value. */
  ghost predicate GroupsSized(rep: Report) {
    forall g :: 0 <= g < |rep| ==> |rep[g].1| >= 2 && rep[g].0 != "" && Distinct(rep[g].1)
  }

  /** Every note of a group is one of `ids`, has the field and normalises to the group's value. */
  ghost predicate GroupsFound(store: Store, ids: seq<NoteId>, field: string, norm: string -> string, rep: Report) {
    forall g, a :: 0 <= g < |rep| && 0 <= a < |rep[g].1| ==>
      && rep[g].1[a] in ids && rep[g].1[a] in store && field in store[rep[g].1[a]].fields
      && norm(store[rep[g].1[a]].fields[field]) == rep[g].0
  }

  /** No value heads two groups. */
  ghost predicate ValuesOnce(rep: Report) {
    forall g, h :: 0 <= g < h < |rep| ==> rep[g].0 != rep[h].0
  }

  /** Any two of `ids` that share a non-empty value are in the group of that value. */
  ghost predicate GroupsComplete(store: Store, ids: seq<NoteId>, field: string, norm: string -> string, rep: Report) {
    forall i, j :: 0 <= i < |ids| && 0 <= j < |ids| && i != j && SameValue(store, field, norm, ids[i], ids[j]) ==>
      exists g :: 0 <= g < |rep| && rep[g].0 == norm(store[ids[i]].fields[field]) && ids[i] in rep[g].1
  }

  /** What deep_search_duplicates promises of its report `rep` on the notes that the search
      found (`found`) and that have the field: each group has at least two notes, each
      once; every note of a group was found, has the field and normalises to the group's
      non-empty value; no value heads two groups; and any two found notes that share a
      non-empty value are reported, in the group of that value. */
  ghost predicate DuplicateGroups(store: Store, found: seq<NoteId>, field: string, norm: string -> string, rep: Report) {
    var ids := Retrievable(store, found, Some(field));
    GroupsSized(rep) && GroupsFound(store, ids, field, norm, rep) && ValuesOnce(rep)
      && GroupsComplete(store, ids, field, norm, rep)
  }

  /** The scanned notes are the stored notes of their ids. */
  ghost predicate FromStore(rs: seq<NoteRec>, store: Store) {
    forall i :: 0 <= i < |rs| ==> rs[i].id in store && rs[i] == store[rs[i].id]
  }

  /** Distinct notes give entries with distinct ids. */
  lemma {:induction false} EntriesIdsDistinct(rs: seq<NoteRec>, field: string, norm: string -> string)
    requires Distinct(RecIds(rs))
    ensures forall i, j :: 0 <= i < j < |Entries(rs, field, norm)| ==>
      Entries(rs, field, norm)[i].1 != Entries(rs, field, norm)[j].1
  {
    if rs != [] {
      var init := rs[..|rs| - 1];
      assert Distinct(RecIds(init)) by {
        forall i, j | 0 <= i < j < |init| ensures RecIds(init)[i] != RecIds(init)[j] {
          assert RecIds(rs)[i] != RecIds(rs)[j];
        }
      }
      EntriesIdsDistinct(init, field, norm);
      EntriesSound(init, field, norm);
      var e, e0 := Entries(rs, field, norm), Entries(init, field, norm);
      forall i, j | 0 <= i < j < |e| ensures e[i].1 != e[j].1 {
        assert e[i] == e0[i];
        if j >= |e0| {
          assert FromNote(e0[i], init, field, norm);
          var q :| 0 <= q < |init| && init[q].id == e0[i].1
            && field in init[q].fields && norm(init[q].fields[field]) == e0[i].0;
          assert RecIds(rs)[q] != RecIds(rs)[|rs| - 1];
        } else {
          assert e[j] == e0[j];
        }
      }
    }
  }

  /** The groups are sized as promised. */
  lemma ScanSized(store: Store, found: seq<NoteId>, field: string, norm: string -> string, rs: seq<NoteRec>)
    requires multiset(RecIds(rs)) == multiset(Retrievable(store, found, Some(field)))
    ensures GroupsSized(ReportOf(Entries(rs, field, norm)))
  {
    var e := Entries(rs, field, norm);
    var rep := ReportOf(e);
    DistinctPermutation(Retrievable(store, found, Some(field)), RecIds(rs));
    EntriesIdsDistinct(rs, field, norm);
    ReportOfGroups(e);
    EntriesSound(rs, field, norm);
    forall g | 0 <= g < |rep| ensures |rep[g].1| >= 2 && rep[g].0 != "" && Distinct(rep[g].1) {
      IdsOfDistinct(e, rep[g].0);
      IdsOfSound(e, rep[g].0);
      var i :| 0 <= i < |e| && e[i] == (rep[g].0, rep[g].1[0]);
    }
  }

  /** The notes of a group were found, have the field and normalise to its value. */
  lemma ScanFound(store: Store, found: seq<NoteId>, field: string, norm: string -> string, rs: seq<NoteRec>)
    requires FromStore(rs, store)
    requires multiset(RecIds(rs)) == multiset(Retrievable(store, found, Some(field)))
    ensures GroupsFound(store, Retrievable(store, found, Some(field)), field, norm, ReportOf(Entries(rs, field, norm)))
  {
    var e := Entries(rs, field, norm);
    var rep := ReportOf(e);
    var ids := Retrievable(store, found, Some(field));
    ReportOfGroups(e);
    EntriesSound(rs, field, norm);
    MultisetMembers(ids, RecIds(rs));
    forall g, a | 0 <= g < |rep| && 0 <= a < |rep[g].1|
      ensures && rep[g].1[a] in ids && rep[g].1[a] in store && field in store[rep[g].1[a]].fields
              && norm(store[rep[g].1[a]].fields[field]) == rep[g].0
    {
      var k, x := rep[g].0, rep[g].1[a];
      IdsOfSound(e, k);
      var i :| 0 <= i < |e| && e[i] == (k, x);
      assert FromNote(e[i], rs, field, norm);
      var j :| 0 <= j < |rs| && rs[j].id == e[i].1 && field in rs[j].fields && norm(rs[j].fields[field]) == e[i].0;
      assert RecIds(rs)[j] == x;
    }
  }

  /** No value is reported twice. */
  lemma ScanValuesOnce(rs: seq<NoteRec>, field: string, norm: string -> string)
    ensures ValuesOnce(ReportOf(Entries(rs, field, norm)))
  {
    ReportOfOrder(Entries(rs, field, norm));
  }

  /** A found note with a non-empty value is among the ids of its value. */
  lemma ScanEntered(store: Store, found: seq<NoteId>, field: string, norm: string -> string, rs: seq<NoteRec>, x: NoteId)
    requires FromStore(rs, store)
    requires multiset(RecIds(rs)) == multiset(Retrievable(store, found, Some(field)))
    requires x in Retrievable(store, found, Some(field))
    requires x in store && field in store[x].fields && norm(store[x].fields[field]) != ""
    ensures x in IdsOf(Entries(rs, field, norm), norm(store[x].fields[field]))
  {
    var e := Entries(rs, field, norm);
    MultisetMembers(RecIds(rs), Retrievable(store, found, Some(field)));
    var p :| 0 <= p < |Retrievable(store, found, Some(field))| && Retrievable(store, found, Some(field))[p] == x;
    assert x in RecIds(rs);
    var q :| 0 <= q < |rs| && RecIds(rs)[q] == x;
    assert rs[q] == store[x];
    EntriesComplete(rs, field, norm, q);
    var i :| 0 <= i < |e| && e[i] == (norm(store[x].fields[field]), x);
    IdsOfComplete(e, norm(store[x].fields[field]));
  }

  /** Two found notes that share a non-empty value are reported together. */
  lemma ScanComplete(store: Store, found: seq<NoteId>, field: string, norm: string -> string, rs: seq<NoteRec>)
    requires FromStore(rs, store)
    requires multiset(RecIds(rs)) == multiset(Retrievable(store, found, Some(field)))
    ensures GroupsComplete(store, Retrievable(store, found, Some(field)), field, norm, ReportOf(Entries(rs, field, norm)))
  {
    var e := Entries(rs, field, norm);
    var rep := ReportOf(e);
    var ids := Retrievable(store, found, Some(field));
    forall i, j | 0 <= i < |ids| && 0 <= j < |ids| && i != j && SameValue(store, field, norm, ids[i], ids[j])
      ensures exists g :: 0 <= g < |rep| && rep[g].0 == norm(store[ids[i]].fields[field]) && ids[i] in rep[g].1
    {
      var v := norm(store[ids[i]].fields[field]);
      ScanEntered(store, found, field, norm, rs, ids[i]);
      ScanEntered(store, found, field, norm, rs, ids[j]);
      TwoMembers(IdsOf(e, v), ids[i], ids[j]);
      ReportOfComplete(e);
      ReportOfGroups(e);
      var g :| 0 <= g < |rep| && rep[g].0 == v;
    }
  }

  /** A sequence holding two different values has at least two elements. */
  lemma TwoMembers(s: seq<NoteId>, x: NoteId, y: NoteId)
    requires x in s && y in s && x != y
    ensures |s| >= 2
  {
  }

  /** notes_from_search: the notes of the host's search result `found` that exist and have
      the field. The search itself (`col.find_notes` on the query restricted to notes with
      the field) is the host's and is given as `found`. */
  method NotesFromSearch(store: Store, found: seq<NoteId>, field: string) returns (notes: seq<Note>)
    requires ValidStore(store)
    ensures multiset(Ids(notes)) == multiset(Retrievable(store, found, Some(field)))
    ensures Loaded(notes, store) && forall i :: 0 <= i < |notes| ==> fresh(notes[i])
  {
    notes := CarefullyGetNotes(store, found, Some(field));
  }

  /** A stored note without the field: reading it raises KeyError. */
  ghost predicate MissingField(store: Store, x: NoteId, field: string) {
    x in store && field !in store[x].fields
  }

  /** Some scanned note lacks the field exactly when some of the ids they permute does. */
  lemma MissingFieldPermutation(store: Store, rs: seq<NoteRec>, ids: seq<NoteId>, field: string)
    requires FromStore(rs, store) && multiset(RecIds(rs)) == multiset(ids)
    ensures (exists i :: 0 <= i < |rs| && field !in rs[i].fields) <==>
      (exists i :: 0 <= i < |ids| && MissingField(store, ids[i], field))
  {
    MultisetMembers(ids, RecIds(rs));
    MultisetMembers(RecIds(rs), ids);
    if i :| 0 <= i < |rs| && field !in rs[i].fields {
      assert RecIds(rs)[i] in ids;
      var j :| 0 <= j < |ids| && ids[j] == RecIds(rs)[i];
      assert MissingField(store, ids[j], field);
    }
    if j :| 0 <= j < |ids| && MissingField(store, ids[j], field) {
      assert ids[j] in RecIds(rs);
      var i :| 0 <= i < |rs| && RecIds(rs)[i] == ids[j];
      assert field !in rs[i].fields;
    }
  }

  /** The notes a search with a field name returns all have that field. */
  lemma FoundHaveField(store: Store, found: seq<NoteId>, field: string)
    requires ValidStore(store) && field != ""
    ensures forall i :: 0 <= i < |Retrievable(store, found, Some(field))| ==>
      !MissingField(store, Retrievable(store, found, Some(field))[i], field)
  {
    forall i | 0 <= i < |Retrievable(store, found, Some(field))|
      ensures !MissingField(store, Retrievable(store, found, Some(field))[i], field)
    {
      RetrievableSpec(store, found, Some(field), Retrievable(store, found, Some(field))[i]);
    }
  }

  /** deep_search_duplicates: the groups of found notes with the field whose normalised
      values (cfg_strip) agree and are not empty. None is the KeyError raised by a found
      note without the field, which a search with a field name never returns. */
  method DeepSearchDuplicates(store: Store, found: seq<NoteId>, field: string, cfg: Settings, html: string -> string)
      returns (r: Option<Report>)
    requires ValidStore(store)
    ensures r.None? <==> exists i :: (0 <= i < |Retrievable(store, found, Some(field))|
      && MissingField(store, Retrievable(store, found, Some(field))[i], field))
    ensures field != "" ==> r.Some?
    ensures r.Some? ==> DuplicateGroups(store, found, field, s => CfgStrip(s, cfg, html), r.value)
  {
    var notes := NotesFromSearch(store, found, field);
    ghost var rs := Recs(notes);
    assert FromStore(rs, store);
    assert RecIds(rs) == Ids(notes);
    var norm := s => CfgStrip(s, cfg, html);
    r := ScanNotes(notes, field, norm);
    MissingFieldPermutation(store, rs, Retrievable(store, found, Some(field)), field);
    if field != "" {
      FoundHaveField(store, found, field);
    }
    if r.Some? {
      ScanSized(store, found, field, norm, rs);
      ScanFound(store, found, field, norm, rs);
      ScanValuesOnce(rs, field, norm);
      ScanComplete(store, found, field, norm, rs);
    }
  }

  /** find_duplicates, wrapped around the host's duplicate search: the deep search when
      the option is on, otherwise the host's own result `hostReport` (of `_old`). */
  method FindDuplicates(store: Store, found: seq<NoteId>, field: string, cfg: Settings, html: string -> string,
                        hostReport: Report) returns (r: Option<Report>)
    requires ValidStore(store)
    ensures !cfg.applyWhenSearchingDuplicates ==> r == Some(hostReport)
    ensures cfg.applyWhenSearchingDuplicates && field != "" ==> r.Some?
    ensures cfg.applyWhenSearchingDuplicates && r.Some? ==>
      DuplicateGroups(store, found, field, s => CfgStrip(s, cfg, html), r.value)
  {
    if cfg.applyWhenSearchingDuplicates {
      r := DeepSearchDuplicates(store, found, field, cfg, html);
    } else {
      r := Some(hostReport);
    }
  }

  /** Handing any non-empty report of the deep search to MergeDupes.op as written raises:
      its first group has two stored notes. */
  lemma DeepReportRaises(store: Store, found: seq<NoteId>, field: string, norm: string -> string, rep: Report)
    requires DuplicateGroups(store, found, field, norm, rep) && rep != []
    ensures OpAsWritten(store, rep) == Raised(MissingMethodError)
  {
    var ids := rep[0].1;
    assert GroupsSized(rep) && GroupsFound(store, Retrievable(store, found, Some(field)), field, norm, rep);
    var x, y := ids[0], ids[1];
    assert x in store && y in store && x != y;
    RetrievableSpec(store, ids, None, x);
    RetrievableSpec(store, ids, None, y);
    TwoMembers(Retrievable(store, ids, None), x, y);
  }
}
