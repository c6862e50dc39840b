/** The pin store class `FileManager` of PROCESS/FILE_MGR.py: pins with
    duplicate merging and title de-duplication, completion, archiving,
    recall, the storage-size nudge and the keyword detectors that pin or
    suggest completion. The store is a value threaded through each operation;
    each operation returns the new store and an outcome in place of the
    message string. */
module FileManager {
  import opened Wrappers
  import opened Text
  import opened OrderedDict
  import opened PinStore
  import opened Difflib

  /** One stored pin: preview, full text, turn, owning thread, value, status. */
  datatype Record = Record(content: string, fullContent: string, turn: int, thread: string, value: real, status: string)

  type State = Store<Record>

  const ActiveStatus: string := "active"
  const CompleteStatus: string := "complete"

  function FullOf(r: Record): string
  {
    r.fullContent
  }

  // ---------------------------------------------------------------- pin

  /** `pin`: overwrite the first duplicate in the thread's folder, or store a
      new pin under a fresh title. */
  function Pin(s: State, ratio: Ratio, title: string, content: string, thread: string,
               value: real, turn: int, status: string): (r: (State, PinOutcome))
    requires s.Valid()
    ensures r.0.Valid()
    ensures r.1.path == PathFor(thread)
  {
    var path := PathFor(thread);
    var fs := Touch(s.fs, path);
    var folder := fs.items[path];
    match FirstSimilar(ratio, title, content, folder, FullOf, 0)
    case Some(i) =>
      var key := folder.order[i];
      var prev := folder.items[key];
      var rec := prev.(fullContent := content, content := Compact(content), turn := turn,
                       value := Max(prev.value, value), thread := thread, status := status);
      (s.(fs := fs.Put(path, folder.Put(key, rec))), Updated(key, path))
    case None =>
      var t := FreshTitle(title, folder.items.Keys);
      var compacted := Compact(content);
      var globals := if thread == MainThread then s.globalPins[t := compacted] else s.globalPins;
      var rec := Record(compacted, content, turn, thread, value, status);
      (Store(fs.Put(path, folder.Put(t, rec)), globals, PushRecent(s.recent, (t, path))), Pinned(t, path))
  }

  /** A pin only ever writes the folder of its own thread: every other path
      keeps its folder, and at most the thread's path is added to the store. */
  lemma PinStaysInItsPath(s: State, ratio: Ratio, title: string, content: string, thread: string,
                          value: real, turn: int, status: string)
    requires s.Valid()
    ensures var r := Pin(s, ratio, title, content, thread, value, turn, status).0;
            && PathFor(thread) in r.fs.items
            && (r.fs.order == s.fs.order || r.fs.order == s.fs.order + [PathFor(thread)])
            && forall p :: p != PathFor(thread) ==>
                 (p in r.fs.items <==> p in s.fs.items) && FolderOf(r.fs, p) == FolderOf(s.fs, p)
  {
    var path := PathFor(thread);
    var r := Pin(s, ratio, title, content, thread, value, turn, status).0;
    assert r.fs == Touch(s.fs, path).Put(path, r.fs.items[path]);
    WriteFolderStays(s.fs, path, r.fs.items[path]);
  }

  /** When some pin of the folder is a duplicate, the first one is updated in
      place: same titles in the same order, the value raised to the larger of
      the two, the other fields replaced, the other pins and the global and
      recent lists untouched. */
  lemma PinMergesFirstDuplicate(s: State, ratio: Ratio, title: string, content: string, thread: string,
                                value: real, turn: int, status: string, i: nat)
    requires s.Valid()
    requires SimilarAt(ratio, title, content, FolderOf(s.fs, PathFor(thread)), FullOf, i)
    requires forall j :: 0 <= j < i ==> !SimilarAt(ratio, title, content, FolderOf(s.fs, PathFor(thread)), FullOf, j)
    ensures var path := PathFor(thread);
            var f := FolderOf(s.fs, path);
            var key := f.order[i];
            var prev := f.items[key];
            var r := Pin(s, ratio, title, content, thread, value, turn, status);
            var g := r.0.fs.items[path];
            && r.1 == Updated(key, path)
            && g.order == f.order
            && g.items.Keys == f.items.Keys
            && (forall t :: t in f.items && t != key ==> g.items[t] == f.items[t])
            && g.items[key].value == Max(prev.value, value)
            && g.items[key].turn == turn
            && g.items[key].thread == thread
            && g.items[key].status == status
            && g.items[key].fullContent == content
            && g.items[key].content == Compact(content)
            && r.0.globalPins == s.globalPins
            && r.0.recent == s.recent
  {
    var path := PathFor(thread);
    var fs := Touch(s.fs, path);
    var folder := fs.items[path];
    assert folder == FolderOf(s.fs, path);
    assert FirstSimilar(ratio, title, content, folder, FullOf, 0) == Some(i);
    var key := folder.order[i];
    var prev := folder.items[key];
    var e := prev.(fullContent := content, content := Compact(content), turn := turn,
                     value := Max(prev.value, value), thread := thread, status := status);
    var g := folder.Put(key, e);
    assert key in folder.items;
    assert g.order == folder.order && g.items == folder.items[key := e];
    assert Pin(s, ratio, title, content, thread, value, turn, status) == (s.(fs := fs.Put(path, folder.Put(key, e))), Updated(key, path));
  }

  /** Without a duplicate, the folder gains exactly one pin, stored last under
      the first free title among `title`, `title_1`, `title_2`, ...; the global
      pins gain it only for the main thread, and it is pushed on the recent
      list. */
  lemma PinCreatesFreshEntry(s: State, ratio: Ratio, title: string, content: string, thread: string,
                             value: real, turn: int, status: string)
    requires s.Valid()
    requires forall j :: 0 <= j < |FolderOf(s.fs, PathFor(thread)).order| ==>
               !SimilarAt(ratio, title, content, FolderOf(s.fs, PathFor(thread)), FullOf, j)
    ensures var path := PathFor(thread);
            var f := FolderOf(s.fs, path);
            var r := Pin(s, ratio, title, content, thread, value, turn, status);
            var t := r.1.title;
            var g := r.0.fs.items[path];
            && r.1 == Pinned(t, path)
            && t !in f.items
            && (exists k: nat :: t == Candidate(title, k) && forall j :: 0 <= j < k ==> Candidate(title, j) in f.items)
            && g.order == f.order + [t]
            && g.items == f.items[t := Record(Compact(content), content, turn, thread, value, status)]
            && |g.items| == |f.items| + 1
            && r.0.globalPins == (if thread == MainThread then s.globalPins[t := Compact(content)] else s.globalPins)
            && r.0.recent == PushRecent(s.recent, (t, path))
  {
    var f := FolderOf(s.fs, PathFor(thread));
    assert FirstSimilar(ratio, title, content, f, FullOf, 0).None?;
    var k := FreshIndex(title, f.items.Keys);
    assert FreshTitle(title, f.items.Keys) == Candidate(title, k);
  }

  // ---------------------------------------------------------------- complete

  /** `not (thread_id and data['thread'] != thread_id)`: no thread filter (None
      or the empty string), or the pin belongs to the given thread. */
  predicate ThreadAgrees(rec: Record, thread: Option<string>)
  {
    !(thread.Some? && thread.value != "" && rec.thread != thread.value)
  }

  /** The path at position `i` holds `title`, owned by a thread that agrees. */
  predicate CompletableAt(fs: Dict<Dict<Record>>, title: string, thread: Option<string>, i: int)
  {
    && 0 <= i < |fs.order|
    && fs.order[i] in fs.items
    && title in fs.items[fs.order[i]].items
    && ThreadAgrees(fs.items[fs.order[i]].items[title], thread)
  }

  function FirstCompletable(fs: Dict<Dict<Record>>, title: string, thread: Option<string>, from: nat): (r: Option<nat>)
    requires from <= |fs.order|
    ensures r.Some? ==> from <= r.value && CompletableAt(fs, title, thread, r.value)
    ensures r.Some? ==> forall j :: from <= j < r.value ==> !CompletableAt(fs, title, thread, j)
    ensures r.None? ==> forall j :: from <= j < |fs.order| ==> !CompletableAt(fs, title, thread, j)
    decreases |fs.order| - from
  {
    if from == |fs.order| then None
    else if CompletableAt(fs, title, thread, from) then Some(from)
    else FirstCompletable(fs, title, thread, from + 1)
  }

  datatype CompleteOutcome = Completed(path: string, previous: string) | NoCompleteMatch

  /** `complete`: mark the first matching pin complete. */
  function Complete(s: State, title: string, thread: Option<string>): (r: (State, CompleteOutcome))
    requires s.Valid()
    ensures r.0.Valid()
    ensures r.1 == NoCompleteMatch <==> forall j :: 0 <= j < |s.fs.order| ==> !CompletableAt(s.fs, title, thread, j)
  {
    match FirstCompletable(s.fs, title, thread, 0)
    case None => (s, NoCompleteMatch)
    case Some(i) =>
      var path := s.fs.order[i];
      (s.(fs := MarkComplete(s.fs, path, title)), Completed(path, s.fs.items[path].items[title].status))
  }

  /** `self.fs[path][title]['status'] = 'complete'`. */
  function MarkComplete(fs: Dict<Dict<Record>>, path: string, title: string): (r: Dict<Dict<Record>>)
    requires fs.Valid() && (forall p :: p in fs.items ==> fs.items[p].Valid())
    requires path in fs.items && title in fs.items[path].items
    ensures r.Valid() && (forall p :: p in r.items ==> r.items[p].Valid())
  {
    var folder := fs.items[path];
    fs.Put(path, folder.Put(title, folder.items[title].(status := CompleteStatus)))
  }

  /** Marking a pin complete changes its status and nothing else. */
  lemma MarkCompleteEffect(fs: Dict<Dict<Record>>, path: string, title: string)
    requires fs.Valid() && (forall p :: p in fs.items ==> fs.items[p].Valid())
    requires path in fs.items && title in fs.items[path].items
    ensures var r := MarkComplete(fs, path, title);
            var f := fs.items[path];
            && r.order == fs.order
            && r.items.Keys == fs.items.Keys
            && (forall p :: p in fs.items && p != path ==> r.items[p] == fs.items[p])
            && r.items[path].order == f.order
            && r.items[path].items == f.items[title := f.items[title].(status := CompleteStatus)]
  {
  }

  /** A hit sets only the status of the first matching pin to "complete" and
      reports its previous status; nothing else in the store changes. */
  lemma CompleteMarksFirstHit(s: State, title: string, thread: Option<string>, i: nat)
    requires s.Valid()
    requires CompletableAt(s.fs, title, thread, i)
    requires forall j :: 0 <= j < i ==> !CompletableAt(s.fs, title, thread, j)
    ensures var path := s.fs.order[i];
            var f := s.fs.items[path];
            var r := Complete(s, title, thread);
            && r.1 == Completed(path, f.items[title].status)
            && r.0.fs.order == s.fs.order
            && r.0.fs.items.Keys == s.fs.items.Keys
            && (forall p :: p in s.fs.items && p != path ==> r.0.fs.items[p] == s.fs.items[p])
            && r.0.fs.items[path].order == f.order
            && r.0.fs.items[path].items == f.items[title := f.items[title].(status := CompleteStatus)]
            && r.0.globalPins == s.globalPins
            && r.0.recent == s.recent
  {
    var path := s.fs.order[i];
    assert FirstCompletable(s.fs, title, thread, 0) == Some(i);
    assert Complete(s, title, thread)
        == (s.(fs := MarkComplete(s.fs, path, title)), Completed(path, s.fs.items[path].items[title].status));
    MarkCompleteEffect(s.fs, path, title);
  }

  /** With no match the store is returned unchanged. */
  lemma CompleteMissKeepsStore(s: State, title: string, thread: Option<string>)
    requires s.Valid()
    requires forall j :: 0 <= j < |s.fs.order| ==> !CompletableAt(s.fs, title, thread, j)
    ensures Complete(s, title, thread) == (s, NoCompleteMatch)
  {
  }

  // ---------------------------------------------------------------- archive

  /** The path at position `i` holds `title`. */
  predicate HoldsAt<R>(fs: Dict<Dict<R>>, title: string, i: int)
  {
    0 <= i < |fs.order| && fs.order[i] in fs.items && title in fs.items[fs.order[i]].items
  }

  function FirstHolding<R>(fs: Dict<Dict<R>>, title: string, from: nat): (r: Option<nat>)
    requires from <= |fs.order|
    ensures r.Some? ==> from <= r.value && HoldsAt(fs, title, r.value)
    ensures r.Some? ==> forall j :: from <= j < r.value ==> !HoldsAt(fs, title, j)
    ensures r.None? ==> forall j :: from <= j < |fs.order| ==> !HoldsAt(fs, title, j)
    decreases |fs.order| - from
  {
    if from == |fs.order| then None
    else if HoldsAt(fs, title, from) then Some(from)
    else FirstHolding(fs, title, from + 1)
  }

  datatype ArchiveOutcome = Archived(from: string) | NoArchiveMatch

  /** `archive` (and `archive_completed`, which runs the same steps): pop the
      pin from the first path holding the title and store it under
      `/archive/completed`. The thread argument is not consulted. */
  function Archive(s: State, title: string, thread: Option<string>): (r: (State, ArchiveOutcome))
    requires s.Valid()
    ensures r.0.Valid()
    ensures r.1 == NoArchiveMatch <==> forall j :: 0 <= j < |s.fs.order| ==> !HoldsAt(s.fs, title, j)
    ensures r.1 == NoArchiveMatch ==> r.0 == s
  {
    match FirstHolding(s.fs, title, 0)
    case None => (s, NoArchiveMatch)
    case Some(i) =>
      var path := s.fs.order[i];
      (s.(fs := MoveToArchive(s.fs, path, title)), Archived(path))
  }

  /** `rec = self.fs[path].pop(title); self.fs['/archive/completed'][title] = rec`. */
  function MoveToArchive(fs: Dict<Dict<Record>>, path: string, title: string): (r: Dict<Dict<Record>>)
    requires fs.Valid() && (forall p :: p in fs.items ==> fs.items[p].Valid())
    requires path in fs.items && title in fs.items[path].items
    ensures r.Valid() && (forall p :: p in r.items ==> r.items[p].Valid())
  {
    var rec := fs.items[path].items[title];
    var fs1 := fs.Put(path, fs.items[path].Remove(title));
    var fs2 := Touch(fs1, ArchivePath);
    fs2.Put(ArchivePath, fs2.items[ArchivePath].Put(title, rec))
  }

  /** The archive folder ends up holding the moved record under its title,
      added to what it held before when the pin came from another path. */
  lemma MoveToArchiveTarget(fs: Dict<Dict<Record>>, path: string, title: string)
    requires fs.Valid() && (forall p :: p in fs.items ==> fs.items[p].Valid())
    requires path in fs.items && title in fs.items[path].items
    ensures var r := MoveToArchive(fs, path, title);
            var rec := fs.items[path].items[title];
            && ArchivePath in r.items
            && title in r.items[ArchivePath].items
            && r.items[ArchivePath].items[title] == rec
            && (path != ArchivePath ==> r.items[ArchivePath].items == FolderOf(fs, ArchivePath).items[title := rec])
  {
    var fs1 := fs.Put(path, fs.items[path].Remove(title));
    var fs2 := Touch(fs1, ArchivePath);
    assert FolderOf(fs2, ArchivePath) == FolderOf(fs1, ArchivePath);
    if path != ArchivePath {
      assert FolderOf(fs1, ArchivePath) == FolderOf(fs, ArchivePath);
    }
  }

  /** The source folder loses exactly the moved title. */
  lemma MoveToArchiveSource(fs: Dict<Dict<Record>>, path: string, title: string)
    requires fs.Valid() && (forall p :: p in fs.items ==> fs.items[p].Valid())
    requires path in fs.items && title in fs.items[path].items && path != ArchivePath
    ensures MoveToArchive(fs, path, title).items[path].items == fs.items[path].items - {title}
  {
    var fs1 := fs.Put(path, fs.items[path].Remove(title));
    var fs2 := Touch(fs1, ArchivePath);
    assert fs2.items[path] == fs1.items[path];
  }

  /** Every other folder is left as it was. */
  lemma MoveToArchiveOthers(fs: Dict<Dict<Record>>, path: string, title: string)
    requires fs.Valid() && (forall p :: p in fs.items ==> fs.items[p].Valid())
    requires path in fs.items && title in fs.items[path].items
    ensures var r := MoveToArchive(fs, path, title);
            forall p :: p != path && p != ArchivePath ==>
              (p in r.items <==> p in fs.items) && FolderOf(r, p) == FolderOf(fs, p)
  {
    var r := MoveToArchive(fs, path, title);
    var fs1 := fs.Put(path, fs.items[path].Remove(title));
    var fs2 := Touch(fs1, ArchivePath);
    assert r == fs2.Put(ArchivePath, fs2.items[ArchivePath].Put(title, fs.items[path].items[title]));
    forall p | p != path && p != ArchivePath
      ensures (p in r.items <==> p in fs.items) && FolderOf(r, p) == FolderOf(fs, p)
    {
      assert FolderOf(r, p) == FolderOf(fs2, p);
      assert FolderOf(fs2, p) == FolderOf(fs1, p);
    }
  }

  /** The path order gains `/archive/completed` at the end when it was missing
      and is otherwise unchanged. The source folder is popped, and the archive
      folder takes the record last, or in place if it already held the title. */
  lemma MoveToArchiveOrder(fs: Dict<Dict<Record>>, path: string, title: string)
    requires fs.Valid() && (forall p :: p in fs.items ==> fs.items[p].Valid())
    requires path in fs.items && title in fs.items[path].items
    ensures var r := MoveToArchive(fs, path, title);
            var rec := fs.items[path].items[title];
            && r.order == (if ArchivePath in fs.items then fs.order else fs.order + [ArchivePath])
            && path in r.items && ArchivePath in r.items
            && (path != ArchivePath ==>
                  && r.items[path] == fs.items[path].Remove(title)
                  && r.items[ArchivePath] == FolderOf(fs, ArchivePath).Put(title, rec))
            && (path == ArchivePath ==>
                  r.items[ArchivePath] == fs.items[ArchivePath].Remove(title).Put(title, rec))
  {
    var rec := fs.items[path].items[title];
    var fs1 := fs.Put(path, fs.items[path].Remove(title));
    var fs2 := Touch(fs1, ArchivePath);
    assert fs1.order == fs.order;
    assert ArchivePath in fs1.items <==> ArchivePath in fs.items;
    if path != ArchivePath {
      assert fs2.items[path] == fs1.items[path];
      assert fs2.items[ArchivePath] == FolderOf(fs, ArchivePath);
    } else {
      assert fs2.items[ArchivePath] == fs.items[ArchivePath].Remove(title);
    }
  }

  /** The first pin with the title is moved, record unchanged (whatever its
      status), from its path to the archive folder; no other folder, nor the
      global or recent lists, changes. */
  lemma ArchiveMovesFirstHolder(s: State, title: string, thread: Option<string>, i: nat)
    requires s.Valid()
    requires HoldsAt(s.fs, title, i)
    requires forall j :: 0 <= j < i ==> !HoldsAt(s.fs, title, j)
    ensures var path := s.fs.order[i];
            var rec := s.fs.items[path].items[title];
            var r := Archive(s, title, thread);
            && r.1 == Archived(path)
            && ArchivePath in r.0.fs.items
            && title in r.0.fs.items[ArchivePath].items
            && r.0.fs.items[ArchivePath].items[title] == rec
            && (path != ArchivePath ==>
                  && r.0.fs.items[path].items == s.fs.items[path].items - {title}
                  && r.0.fs.items[ArchivePath].items == FolderOf(s.fs, ArchivePath).items[title := rec])
            && (forall p :: p != path && p != ArchivePath ==>
                  (p in r.0.fs.items <==> p in s.fs.items) && FolderOf(r.0.fs, p) == FolderOf(s.fs, p))
            && r.0.fs.order == (if ArchivePath in s.fs.items then s.fs.order else s.fs.order + [ArchivePath])
            && (path != ArchivePath ==>
                  && r.0.fs.items[path] == s.fs.items[path].Remove(title)
                  && r.0.fs.items[ArchivePath] == FolderOf(s.fs, ArchivePath).Put(title, rec))
            && (path == ArchivePath ==>
                  r.0.fs.items[ArchivePath] == s.fs.items[ArchivePath].Remove(title).Put(title, rec))
            && r.0.globalPins == s.globalPins
            && r.0.recent == s.recent
  {
    var path := s.fs.order[i];
    assert FirstHolding(s.fs, title, 0) == Some(i);
    MoveToArchiveOrder(s.fs, path, title);
    MoveToArchiveTarget(s.fs, path, title);
    if path != ArchivePath {
      MoveToArchiveSource(s.fs, path, title);
    }
    MoveToArchiveOthers(s.fs, path, title);
  }

  /** The thread argument of `archive` changes nothing. */
  lemma ArchiveIgnoresThread(s: State, title: string, a: Option<string>, b: Option<string>)
    requires s.Valid()
    ensures Archive(s, title, a) == Archive(s, title, b)
  {
  }

  // ---------------------------------------------------------------- recall

  /** One recall candidate: title, path and record. */
  datatype Hit = Hit(title: string, path: string, rec: Record)

  /** The substring loop over one folder from position `from`: every title
      at or after `from` that contains the query (case-insensitively) under
      an agreeing thread, each once, in folder order. */
  function SubstringHits(f: Dict<Record>, path: string, title: string, thread: Option<string>, from: nat): (r: seq<Hit>)
    requires f.Valid() && from <= |f.order|
    ensures forall h :: h in r ==> h.path == path && h.title in f.items && f.items[h.title] == h.rec
    ensures forall h :: h in r ==> Matches(f, h.title, title, thread)
    ensures |r| == 0 <==> forall j :: from <= j < |f.order| ==> !Matches(f, f.order[j], title, thread)
    decreases |f.order| - from
  {
    if from == |f.order| then []
    else
      var t := f.order[from];
      var rest := SubstringHits(f, path, title, thread, from + 1);
      if Matches(f, t, title, thread) then [Hit(t, path, f.items[t])] + rest
      else rest
  }

  /** Every hit is a matching pin of the folder at or after position `from`. */
  ghost predicate HitsSound(f: Dict<Record>, path: string, title: string, thread: Option<string>, from: nat, r: seq<Hit>)
    requires f.Valid()
  {
    forall h :: h in r ==> h.path == path && h.title in f.items && f.items[h.title] == h.rec
                           && Matches(f, h.title, title, thread) && from <= IndexOf(f.order, h.title)
  }

  /** Every matching pin of the folder at or after position `from` is a hit. */
  ghost predicate HitsComplete(f: Dict<Record>, path: string, title: string, thread: Option<string>, from: nat, r: seq<Hit>)
    requires f.Valid() && from <= |f.order|
  {
    forall j :: from <= j < |f.order| && Matches(f, f.order[j], title, thread) ==>
      Hit(f.order[j], path, f.items[f.order[j]]) in r
  }

  /** The hits follow the folder's order strictly, so none is repeated. */
  ghost predicate HitsOrdered(f: Dict<Record>, r: seq<Hit>)
    requires f.Valid()
    requires forall h :: h in r ==> h.title in f.items
  {
    forall a, b :: 0 <= a < b < |r| ==> IndexOf(f.order, r[a].title) < IndexOf(f.order, r[b].title)
  }

  /** The substring loop lists every matching title of the folder from
      position `from` on, and nothing else, once each, in folder order. */
  lemma {:induction false} SubstringHitsExact(f: Dict<Record>, path: string, title: string, thread: Option<string>, from: nat)
    requires f.Valid() && from <= |f.order|
    ensures var r := SubstringHits(f, path, title, thread, from);
            && HitsSound(f, path, title, thread, from, r)
            && HitsComplete(f, path, title, thread, from, r)
            && HitsOrdered(f, r)
    decreases |f.order| - from
  {
    if from < |f.order| {
      var t := f.order[from];
      var rest := SubstringHits(f, path, title, thread, from + 1);
      SubstringHitsExact(f, path, title, thread, from + 1);
      SubstringHitsStep(f, path, title, thread, from);
      FirstIndex(f, from);
      if Matches(f, t, title, thread) {
        HitsSoundCons(f, path, title, thread, from, rest);
        HitsCompleteCons(f, path, title, thread, from, rest);
        assert forall k :: 0 <= k < |rest| ==> rest[k] in rest;
        HitsOrderedCons(f, path, title, thread, from, rest);
      } else {
        HitsCompleteSkip(f, path, title, thread, from, rest);
      }
    }
  }

  lemma HitsSoundCons(f: Dict<Record>, path: string, title: string, thread: Option<string>, from: nat, rest: seq<Hit>)
    requires f.Valid() && from < |f.order|
    requires IndexOf(f.order, f.order[from]) == from
    requires Matches(f, f.order[from], title, thread)
    requires HitsSound(f, path, title, thread, from + 1, rest)
    ensures HitsSound(f, path, title, thread, from, [Hit(f.order[from], path, f.items[f.order[from]])] + rest)
  {
  }

  lemma HitsCompleteCons(f: Dict<Record>, path: string, title: string, thread: Option<string>, from: nat, rest: seq<Hit>)
    requires f.Valid() && from < |f.order|
    requires Matches(f, f.order[from], title, thread)
    requires HitsComplete(f, path, title, thread, from + 1, rest)
    ensures HitsComplete(f, path, title, thread, from, [Hit(f.order[from], path, f.items[f.order[from]])] + rest)
  {
  }

  lemma HitsCompleteSkip(f: Dict<Record>, path: string, title: string, thread: Option<string>, from: nat, rest: seq<Hit>)
    requires f.Valid() && from < |f.order|
    requires !Matches(f, f.order[from], title, thread)
    requires HitsComplete(f, path, title, thread, from + 1, rest)
    ensures HitsComplete(f, path, title, thread, from, rest)
  {
  }

  lemma HitsOrderedCons(f: Dict<Record>, path: string, title: string, thread: Option<string>, from: nat, rest: seq<Hit>)
    requires f.Valid() && from < |f.order|
    requires IndexOf(f.order, f.order[from]) == from
    requires Matches(f, f.order[from], title, thread)
    requires forall k :: 0 <= k < |rest| ==> rest[k].title in f.items && from < IndexOf(f.order, rest[k].title)
    requires HitsOrdered(f, rest)
    ensures HitsOrdered(f, [Hit(f.order[from], path, f.items[f.order[from]])] + rest)
  {
    var r := [Hit(f.order[from], path, f.items[f.order[from]])] + rest;
    forall a, b | 0 <= a < b < |r|
      ensures IndexOf(f.order, r[a].title) < IndexOf(f.order, r[b].title)
    {
      assert r[b] == rest[b - 1];
      if a > 0 {
        assert r[a] == rest[a - 1];
      }
    }
  }

  /** Keys are listed once, so a key's position is where it was found. */
  lemma FirstIndex(f: Dict<Record>, j: nat)
    requires f.Valid() && j < |f.order|
    ensures IndexOf(f.order, f.order[j]) == j
  {
  }

  /** The folder holds the exact title, owned by a thread that disagrees. */
  predicate PathBlocked(f: Dict<Record>, title: string, thread: Option<string>)
  {
    title in f.items && !ThreadAgrees(f.items[title], thread)
  }

  /** The candidates one path contributes as written. An exact title owned by
      a disagreeing thread hits the `continue` of the path loop, so the whole
      folder is passed over, its substring matches included. Otherwise the
      exact title (when present) comes first, then the substring matches,
      which list the exact title a second time. */
  function PathHitsAsWritten(f: Dict<Record>, path: string, title: string, thread: Option<string>): seq<Hit>
    requires f.Valid()
  {
    if PathBlocked(f, title, thread) then []
    else if title in f.items then [Hit(title, path, f.items[title])] + SubstringHits(f, path, title, thread, 0)
    else SubstringHits(f, path, title, thread, 0)
  }

  /** What each path contributes to `recall`'s candidate list as written, in
      path order. */
  function SharesAsWritten(fs: Dict<Dict<Record>>, title: string, thread: Option<string>): (r: seq<seq<Hit>>)
    requires fs.Valid() && (forall p :: p in fs.items ==> fs.items[p].Valid())
    ensures |r| == |fs.order|
  {
    seq(|fs.order|, k requires 0 <= k < |fs.order| => PathHitsAsWritten(fs.items[fs.order[k]], fs.order[k], title, thread))
  }

  datatype RecallOutcome = NoRecallMatch | Multiple(matches: seq<(string, string)>) | Recalled(title: string, path: string, rec: Record)

  /** The answer of `recall` for a candidate list. */
  function Answer(hits: seq<Hit>): (r: RecallOutcome)
    ensures r == NoRecallMatch <==> hits == []
    ensures r.Multiple? <==> |hits| > 1
    ensures |hits| == 1 ==> r == Recalled(hits[0].title, hits[0].path, hits[0].rec)
  {
    if |hits| == 0 then NoRecallMatch
    else if |hits| > 1 then Multiple(seq(|hits|, k requires 0 <= k < |hits| => (hits[k].title, hits[k].path)))
    else Recalled(hits[0].title, hits[0].path, hits[0].rec)
  }

  /** `recall` as written: the candidates of every path, one path after the other. */
  function RecallAsWritten(s: State, title: string, thread: Option<string>): RecallOutcome
    requires s.Valid()
  {
    Answer(Flatten(SharesAsWritten(s.fs, title, thread)))
  }

  /** What each path contributes with each pin listed once: the substring
      loop alone, which already finds the exact title. */
  function Shares(fs: Dict<Dict<Record>>, title: string, thread: Option<string>): (r: seq<seq<Hit>>)
    requires fs.Valid() && (forall p :: p in fs.items ==> fs.items[p].Valid())
    ensures |r| == |fs.order|
  {
    seq(|fs.order|, k requires 0 <= k < |fs.order| => SubstringHits(fs.items[fs.order[k]], fs.order[k], title, thread, 0))
  }

  function Recall(s: State, title: string, thread: Option<string>): RecallOutcome
    requires s.Valid()
  {
    Answer(Flatten(Shares(s.fs, title, thread)))
  }

  /** Some pin whose title contains the query matches, owned by an agreeing thread. */
  ghost predicate AnySubstringHit(s: State, title: string, thread: Option<string>)
    requires s.Valid()
  {
    exists p, t :: p in s.fs.items && t in s.fs.items[p].items && Matches(s.fs.items[p], t, title, thread)
  }

  /** Title `t` of folder `f` contains the query and its pin's thread agrees. */
  predicate Matches(f: Dict<Record>, t: string, title: string, thread: Option<string>)
  {
    t in f.items && Contains(Lower(t), Lower(title)) && ThreadAgrees(f.items[t], thread)
  }

  /** Some folder that is not passed over holds a pin whose title contains
      the query, owned by an agreeing thread. */
  ghost predicate AnyRecallHitAsWritten(s: State, title: string, thread: Option<string>)
    requires s.Valid()
  {
    exists p, t :: p in s.fs.items && !PathBlocked(s.fs.items[p], title, thread) && Matches(s.fs.items[p], t, title, thread)
  }

  /** `recall` as written finds nothing exactly when every stored title that
      contains the query (case-insensitively) under an agreeing thread lies in
      a folder whose exact-title pin belongs to another thread. */
  lemma RecallAsWrittenMissIff(s: State, title: string, thread: Option<string>)
    requires s.Valid()
    ensures RecallAsWritten(s, title, thread) == NoRecallMatch <==> !AnyRecallHitAsWritten(s, title, thread)
  {
    var xs := SharesAsWritten(s.fs, title, thread);
    if AnyRecallHitAsWritten(s, title, thread) {
      var p, t :| p in s.fs.items && !PathBlocked(s.fs.items[p], title, thread) && Matches(s.fs.items[p], t, title, thread);
      var i :| 0 <= i < |s.fs.order| && s.fs.order[i] == p;
      var j :| 0 <= j < |s.fs.items[p].order| && s.fs.items[p].order[j] == t;
      assert |SubstringHits(s.fs.items[p], p, title, thread, 0)| > 0;
      assert |xs[i]| > 0;
      FlattenCovers(xs, i);
    } else {
      forall k | 0 <= k < |xs|
        ensures xs[k] == []
      {
        NoPathHitsAsWritten(s, title, thread, k);
      }
      FlattenEmpty(xs);
    }
  }

  /** With each pin listed once and no folder passed over, `recall` finds
      nothing exactly when no stored title contains the query
      (case-insensitively) under an agreeing thread. */
  lemma RecallMissIff(s: State, title: string, thread: Option<string>)
    requires s.Valid()
    ensures Recall(s, title, thread) == NoRecallMatch <==> !AnySubstringHit(s, title, thread)
  {
    var xs := Shares(s.fs, title, thread);
    if AnySubstringHit(s, title, thread) {
      var p, t :| p in s.fs.items && t in s.fs.items[p].items && Matches(s.fs.items[p], t, title, thread);
      var i :| 0 <= i < |s.fs.order| && s.fs.order[i] == p;
      var j :| 0 <= j < |s.fs.items[p].order| && s.fs.items[p].order[j] == t;
      assert |SubstringHits(s.fs.items[p], p, title, thread, 0)| > 0;
      assert |xs[i]| > 0;
      FlattenCovers(xs, i);
    } else {
      forall k | 0 <= k < |xs|
        ensures xs[k] == []
      {
        var q := s.fs.order[k];
        assert q in s.fs.items;
      }
      FlattenEmpty(xs);
    }
  }

  /** As written, a folder whose exact-title pin belongs to another thread
      hides its other matches: with that folder alone in the store, `recall`
      finds nothing, while a pin of the asking thread contains the query. */
  lemma RecallBlockedPathAsWritten(s: State, title: string, thread: Option<string>, p: string, t: string)
    requires s.Valid()
    requires s.fs.order == [p]
    requires PathBlocked(s.fs.items[p], title, thread) && Matches(s.fs.items[p], t, title, thread)
    ensures RecallAsWritten(s, title, thread) == NoRecallMatch
    ensures Recall(s, title, thread) != NoRecallMatch
  {
    RecallAsWrittenMissIff(s, title, thread);
    RecallMissIff(s, title, thread);
    assert forall q :: q in s.fs.items ==> q == p by {
      forall q | q in s.fs.items
        ensures q == p
      {
        assert q in s.fs.order;
      }
    }
  }

  /** As written, an exact title hit is listed twice, once by the exact check
      and once by the substring loop, so `recall` then always answers
      "Multiple matches". */
  lemma RecallExactHitIsMultiple(s: State, title: string, thread: Option<string>, p: string)
    requires s.Valid()
    requires p in s.fs.items && title in s.fs.items[p].items && ThreadAgrees(s.fs.items[p].items[title], thread)
    ensures RecallAsWritten(s, title, thread).Multiple?
  {
    var f := s.fs.items[p];
    var xs := SharesAsWritten(s.fs, title, thread);
    var i :| 0 <= i < |s.fs.order| && s.fs.order[i] == p;
    var j :| 0 <= j < |f.order| && f.order[j] == title;
    assert Contains(Lower(title), Lower(title));
    assert |SubstringHits(f, p, title, thread, 0)| > 0;
    assert |xs[i]| >= 2;
    FlattenCovers(xs, i);
  }

  /** Without any match in a folder that is not passed over, no path
      contributes a candidate, as written. */
  lemma NoPathHitsAsWritten(s: State, title: string, thread: Option<string>, k: nat)
    requires s.Valid() && k < |s.fs.order|
    requires !AnyRecallHitAsWritten(s, title, thread)
    ensures PathHitsAsWritten(s.fs.items[s.fs.order[k]], s.fs.order[k], title, thread) == []
  {
    var p := s.fs.order[k];
    var f := s.fs.items[p];
    assert p in s.fs.items;
    if !PathBlocked(f, title, thread) {
      if title in f.items {
        assert Contains(Lower(title), Lower(title));
        assert Matches(f, title, title, thread);
        assert false;
      }
      forall j | 0 <= j < |f.order|
        ensures !Matches(f, f.order[j], title, thread)
      {
        assert f.order[j] in f.order;
      }
    }
  }

  /** Pin `t` of path `p` is the only pin that matches the query. */
  ghost predicate OnlyMatch(s: State, title: string, thread: Option<string>, p: string, t: string)
    requires s.Valid()
  {
    && p in s.fs.items && Matches(s.fs.items[p], t, title, thread)
    && forall p', t' :: p' in s.fs.items && Matches(s.fs.items[p'], t', title, thread) ==> p' == p && t' == t
  }

  /** With each pin listed once, a query that only one pin matches recalls
      that pin, whether the query is its exact title or a part of it. */
  lemma RecallUniqueMatch(s: State, title: string, thread: Option<string>, p: string, t: string)
    requires s.Valid()
    requires OnlyMatch(s, title, thread, p, t)
    ensures Recall(s, title, thread) == Recalled(t, p, s.fs.items[p].items[t])
  {
    var xs := Shares(s.fs, title, thread);
    var i :| 0 <= i < |s.fs.order| && s.fs.order[i] == p;
    var f := s.fs.items[p];
    var j :| 0 <= j < |f.order| && f.order[j] == t;
    forall k | 0 <= k < |xs| && k != i
      ensures xs[k] == []
    {
      assert s.fs.order[k] != s.fs.order[i];
      OtherPathNoHits(s, title, thread, p, t, k);
    }
    SubstringHitsSingle(f, p, title, thread, t, j, 0);
    FlattenSingle(xs, i);
  }

  /** A path other than that of the only match contributes nothing. */
  lemma OtherPathNoHits(s: State, title: string, thread: Option<string>, p: string, t: string, k: nat)
    requires s.Valid()
    requires OnlyMatch(s, title, thread, p, t)
    requires k < |s.fs.order| && s.fs.order[k] != p
    ensures SubstringHits(s.fs.items[s.fs.order[k]], s.fs.order[k], title, thread, 0) == []
  {
    var q := s.fs.order[k];
    assert q in s.fs.items;
  }

  /** The substring loop of a folder in which only `t` matches yields `t`
      alone, provided it starts no later than `t`'s position. */
  lemma {:induction false} SubstringHitsSingle(f: Dict<Record>, path: string, title: string, thread: Option<string>,
                                               t: string, j: nat, from: nat)
    requires f.Valid()
    requires j < |f.order| && f.order[j] == t && Matches(f, t, title, thread)
    requires forall t' :: Matches(f, t', title, thread) ==> t' == t
    requires from <= |f.order|
    ensures SubstringHits(f, path, title, thread, from) == if from <= j then [Hit(t, path, f.items[t])] else []
    decreases |f.order| - from
  {
    if from < |f.order| {
      SubstringHitsSingle(f, path, title, thread, t, j, from + 1);
      SubstringHitsSingleStep(f, path, title, thread, t, j, from);
    } else {
      SubstringHitsEnd(f, path, title, thread);
    }
  }

  /** The substring loop has nothing left to scan past the last title. */
  lemma SubstringHitsEnd(f: Dict<Record>, path: string, title: string, thread: Option<string>)
    requires f.Valid()
    ensures SubstringHits(f, path, title, thread, |f.order|) == []
  {
  }

  lemma SubstringHitsSingleStep(f: Dict<Record>, path: string, title: string, thread: Option<string>,
                                t: string, j: nat, from: nat)
    requires f.Valid()
    requires j < |f.order| && f.order[j] == t && Matches(f, t, title, thread)
    requires forall t' :: Matches(f, t', title, thread) ==> t' == t
    requires from < |f.order|
    requires SubstringHits(f, path, title, thread, from + 1) == if from + 1 <= j then [Hit(t, path, f.items[t])] else []
    ensures SubstringHits(f, path, title, thread, from) == if from <= j then [Hit(t, path, f.items[t])] else []
  {
    SubstringHitsStep(f, path, title, thread, from);
    if from != j {
      assert f.order[from] != f.order[j];
      assert !Matches(f, f.order[from], title, thread);
    }
  }

  /** One step of the substring loop. */
  lemma SubstringHitsStep(f: Dict<Record>, path: string, title: string, thread: Option<string>, from: nat)
    requires f.Valid() && from < |f.order|
    ensures f.order[from] in f.items
    ensures SubstringHits(f, path, title, thread, from)
         == (if Matches(f, f.order[from], title, thread) then [Hit(f.order[from], path, f.items[f.order[from]])] else [])
            + SubstringHits(f, path, title, thread, from + 1)
  {
    assert f.order[from] in f.order;
  }

  // ---------------------------------------------------------------- list_pins

  const ListedPins: nat := 8
  const ListedRecent: nat := 3
  /** The folders the overview of `list_pins` reports, in order. */
  const OverviewPaths: seq<string> := ["/user", "/root", "/archive/completed"]

  /** One line of the `list_pins` listing. */
  datatype Line =
    | ThreadCount(thread: string, count: nat)           // "<id>: <n> pins"
    | PinLine(title: string, turn: int, status: string) // "  📌 <title> (turn .., status ..)"
    | NoThreadPins(thread: string)                       // "<id>: no pins"
    | PathCount(path: string, count: nat)               // "<path>: <n> items"
    | RecentLine(titles: seq<string>)                    // "Recent: a, b, c"

  /** The pin lines of the first `n` titles of a folder. */
  function PinLines(f: Dict<Record>, n: nat): (r: seq<Line>)
    requires f.Valid()
    ensures |r| == if |f.order| <= n then |f.order| else n
    ensures forall k :: 0 <= k < |r| ==>
              r[k] == PinLine(f.order[k], f.items[f.order[k]].turn, f.items[f.order[k]].status)
  {
    var titles := Take(f.order, n);
    seq(|titles|, k requires 0 <= k < |titles| =>
      PinLine(titles[k], f.items[titles[k]].turn, f.items[titles[k]].status))
  }

  /** The overview lines for the folders of `paths` that hold pins. */
  function OverviewLines(fs: Dict<Dict<Record>>, paths: seq<string>): (r: seq<Line>)
    ensures forall k :: 0 <= k < |r| ==> r[k].PathCount? && r[k].path in paths && r[k].count > 0
    ensures forall k :: 0 <= k < |r| ==> r[k].count == |FolderOf(fs, r[k].path).items|
    ensures forall p :: p in paths && FolderOf(fs, p).items != map[] ==> PathCount(p, |FolderOf(fs, p).items|) in r
    ensures r == [] <==> forall p :: p in paths ==> FolderOf(fs, p).items == map[]
  {
    if |paths| == 0 then []
    else
      var rest := OverviewLines(fs, paths[1..]);
      var n := |FolderOf(fs, paths[0]).items|;
      assert forall p :: p in paths ==> p == paths[0] || p in paths[1..];
      if n > 0 then [PathCount(paths[0], n)] + rest else rest
  }

  /** The overview line of one folder, if it holds pins. */
  function CountLine(fs: Dict<Dict<Record>>, path: string): (r: seq<Line>)
    ensures r == [] <==> FolderOf(fs, path).items == map[]
  {
    var n := |FolderOf(fs, path).items|;
    if n > 0 then [PathCount(path, n)] else []
  }

  /** The overview reports `/user`, `/root` and `/archive/completed` in that
      order, each exactly when it holds pins, with its number of pins. */
  lemma OverviewOrder(fs: Dict<Dict<Record>>)
    ensures OverviewLines(fs, OverviewPaths)
         == CountLine(fs, "/user") + CountLine(fs, "/root") + CountLine(fs, "/archive/completed")
  {
    var a, b, c := ["/user", "/root", "/archive/completed"], ["/root", "/archive/completed"], ["/archive/completed"];
    OverviewCons(fs, a);
    assert a[1..] == b;
    OverviewCons(fs, b);
    assert b[1..] == c;
    OverviewCons(fs, c);
    assert c[1..] == [];
  }

  lemma OverviewCons(fs: Dict<Dict<Record>>, paths: seq<string>)
    requires |paths| > 0
    ensures OverviewLines(fs, paths) == CountLine(fs, paths[0]) + OverviewLines(fs, paths[1..])
  {
  }

  /** The titles of the last three recent pins, oldest first. */
  function RecentTitles(recent: seq<(string, string)>): (r: seq<string>)
    ensures |r| == if |recent| <= ListedRecent then |recent| else ListedRecent
    ensures forall k :: 0 <= k < |r| ==> r[k] == recent[|recent| - |r| + k].0
  {
    var last := Last(recent, ListedRecent);
    seq(|last|, k requires 0 <= k < |last| => last[k].0)
  }

  /** `list_pins`: for a thread, its pin count and first eight pins (or a
      "no pins" line); without one, the count of each overview folder holding
      pins; then the titles of the last three recent pins. An empty listing
      reads "No pins stored yet.". A thread id of "" is treated as no thread. */
  function ListPins(s: State, thread: Option<string>): (r: seq<Line>)
    requires s.Valid()
    ensures thread.Some? && thread.value != "" ==>
              var f := FolderOf(s.fs, ThreadPrefix + thread.value);
              var shown := if |f.order| <= ListedPins then |f.order| else ListedPins;
              if f.items == map[] then |r| > 0 && r[0] == NoThreadPins(thread.value)
              else |r| > shown && r[0] == ThreadCount(thread.value, |f.items|) && r[1..1 + shown] == PinLines(f, ListedPins)
    ensures r == [] <==> (thread.None? || thread.value == "")
                         && (forall p :: p in OverviewPaths ==> FolderOf(s.fs, p).items == map[])
                         && s.recent == []
    ensures s.recent != [] ==> r[|r| - 1] == RecentLine(RecentTitles(s.recent))
    ensures var tail := RecentTail(s.recent);
            && |tail| <= |r| && r[|r| - |tail|..] == tail
            && ((thread.None? || thread.value == "") ==> r[..|r| - |tail|] == OverviewLines(s.fs, OverviewPaths))
            && (thread.Some? && thread.value != "" ==>
                  var f := FolderOf(s.fs, ThreadPrefix + thread.value);
                  |r| - |tail| == if f.items == map[] then 1 else 1 + (if |f.order| <= ListedPins then |f.order| else ListedPins))
  {
    var head :=
      if thread.Some? && thread.value != "" then
        var f := FolderOf(s.fs, ThreadPrefix + thread.value);
        if f.items == map[] then [NoThreadPins(thread.value)]
        else [ThreadCount(thread.value, |f.items|)] + PinLines(f, ListedPins)
      else OverviewLines(s.fs, OverviewPaths);
    head + RecentTail(s.recent)
  }

  /** The closing line naming the last recent pins, when there are any. */
  function RecentTail(recent: seq<(string, string)>): (r: seq<Line>)
    ensures |r| <= 1 && (r == [] <==> recent == [])
  {
    if recent != [] then [RecentLine(RecentTitles(recent))] else []
  }

  // ---------------------------------------------------------------- nudges and detectors

  datatype Bloat = Quiet | Growing(total: int) | Heavy(total: int)

  /** `nudge_bloat`: silent up to 15 items in all, a notice above 15, a heavy
      warning above 25. */
  function NudgeBloat(totalPins: int, totalVol: int): (r: Bloat)
    ensures r.Quiet? <==> totalPins + totalVol <= 15
    ensures r.Heavy? <==> totalPins + totalVol > 25
    ensures !r.Quiet? ==> r.total == totalPins + totalVol
  {
    var total := totalPins + totalVol;
    if total > 25 then Heavy(total) else if total > 15 then Growing(total) else Quiet
  }

  function Severity(b: Bloat): nat
  {
    match b
    case Quiet => 0
    case Growing(_) => 1
    case Heavy(_) => 2
  }

  /** More stored items never lower the warning level. */
  lemma NudgeBloatMonotone(p: int, v: int, p': int, v': int)
    requires p + v <= p' + v'
    ensures Severity(NudgeBloat(p, v)) <= Severity(NudgeBloat(p', v'))
  {
  }

  const AutoPinKeywords: seq<string> := ["remember:", "idea:", "save this:", "keep this", "pin this"]
  const IntentKeywords: seq<string> := ["remember:", "idea:", "save this:", "keep this", "pin this", "project:", "task:"]
  const DoneKeywords: seq<string> := ["finished", "done", "complete this", "project complete", "task done"]
  const AutoTitleLen: nat := 40

  /** The text after the first ':' of `txt` (`txt.split(':', 1)[1]`). */
  function AfterColon(txt: string): (r: string)
    requires ':' in txt
    ensures exists i :: 0 <= i < |txt| && txt[i] == ':' && ':' !in txt[..i] && r == txt[i + 1..]
  {
    if txt[0] == ':' then txt[1..]
    else
      var r := AfterColon(txt[1..]);
      assert forall i :: 0 <= i < |txt| - 1 ==> txt[1..][..i] == txt[1..i + 1];
      r
  }

  /** The title an automatic pin gets: up to 40 characters after the first
      colon, stripped, or `auto_<turn>` when there is no colon. */
  function AutoTitle(txt: string, turn: int): (t: string)
    ensures ':' in txt ==> t <= Strip(AfterColon(txt))
                           && |t| == if |Strip(AfterColon(txt))| <= AutoTitleLen then |Strip(AfterColon(txt))| else AutoTitleLen
    ensures ':' !in txt ==> t == "auto_" + IntToString(turn)
  {
    if ':' in txt then Take(Strip(AfterColon(txt)), AutoTitleLen) else "auto_" + IntToString(turn)
  }

  /** `auto_pin`: pin on a keyword (with the derived title), else on a lattice
      value above 0.45 (as `high_<turn>`), else do nothing. */
  function AutoPin(s: State, ratio: Ratio, txt: string, latticeValue: real, turn: int, thread: string): (r: (State, Option<PinOutcome>))
    requires s.Valid()
    ensures r.0.Valid()
    ensures r.1.None? <==> !ContainsAny(Lower(txt), AutoPinKeywords) && latticeValue <= 0.45
    ensures r.1.None? ==> r.0 == s
    ensures r.1.Some? ==> r.1.value.path == PathFor(thread)
    ensures r.1.Some? ==>
              var title := if ContainsAny(Lower(txt), AutoPinKeywords) then AutoTitle(txt, turn) else "high_" + IntToString(turn);
              (r.0, r.1.value) == Pin(s, ratio, title, txt, thread, latticeValue, turn, ActiveStatus)
  {
    if ContainsAny(Lower(txt), AutoPinKeywords) then
      var p := Pin(s, ratio, AutoTitle(txt, turn), txt, thread, latticeValue, turn, ActiveStatus);
      (p.0, Some(p.1))
    else if latticeValue > 0.45 then
      var p := Pin(s, ratio, "high_" + IntToString(turn), txt, thread, latticeValue, turn, ActiveStatus);
      (p.0, Some(p.1))
    else (s, None)
  }

  /** `auto_pin_from_intent`: pin on a wider keyword list or a lattice value
      above 0.5, always with the derived title and status "active". */
  function AutoPinFromIntent(s: State, ratio: Ratio, txt: string, latticeValue: real, turn: int, thread: string): (r: (State, Option<PinOutcome>))
    requires s.Valid()
    ensures r.0.Valid()
    ensures r.1.None? <==> !ContainsAny(Lower(txt), IntentKeywords) && latticeValue <= 0.5
    ensures r.1.None? ==> r.0 == s
    ensures r.1.Some? ==> r.1.value.path == PathFor(thread)
    ensures r.1.Some? ==> (r.0, r.1.value) == Pin(s, ratio, AutoTitle(txt, turn), txt, thread, latticeValue, turn, ActiveStatus)
  {
    if ContainsAny(Lower(txt), IntentKeywords) || latticeValue > 0.5 then
      var p := Pin(s, ratio, AutoTitle(txt, turn), txt, thread, latticeValue, turn, ActiveStatus);
      (p.0, Some(p.1))
    else (s, None)
  }

  /** `auto_complete_detect`: suggest completing "unknown_project" exactly
      when the lowered text contains one of the completion phrases. */
  function DetectCompletion(txt: string): (r: Option<string>)
    ensures r.Some? <==> exists i :: 0 <= i < |DoneKeywords| && Contains(Lower(txt), DoneKeywords[i])
    ensures r.Some? ==> r.value == "unknown_project"
  {
    if ContainsAny(Lower(txt), DoneKeywords) then Some("unknown_project") else None
  }
}
