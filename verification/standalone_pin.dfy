/** The module-level `pin` of python/python-process-lib/FILE_MGR.py: the same
    duplicate merge and title de-duplication as the class version, on pins
    that carry no status. It acts on the same store shape as the class. */
module StandalonePin {
  import opened Wrappers
  import opened Text
  import opened OrderedDict
  import opened PinStore
  import opened Difflib

  /** One stored pin: preview, full text, turn, owning thread, value. */
  datatype Entry = Entry(content: string, fullContent: string, turn: int, thread: string, value: real)

  type State = Store<Entry>

  function FullOf(e: Entry): string
  {
    e.fullContent
  }

  /** `pin`: overwrite the first duplicate in the thread's folder, or store a
      new pin under a fresh title. */
  function Pin(s: State, ratio: Ratio, title: string, content: string, thread: string,
               value: real, turn: int): (r: (State, PinOutcome))
    requires s.Valid()
    ensures r.0.Valid()
    ensures r.1.path == PathFor(thread)
  {
    var path := PathFor(thread);
    var fs := Touch(s.fs, path);
    var folder := fs.items[path];
    match FirstSimilar(ratio, title, content, folder, FullOf, 0)
    case Some(i) =>
      var key := folder.order[i];
      var prev := folder.items[key];
      var e := prev.(fullContent := content, content := Compact(content), turn := turn,
                     value := Max(prev.value, value), thread := thread);
      (s.(fs := fs.Put(path, folder.Put(key, e))), Updated(key, path))
    case None =>
      var t := FreshTitle(title, folder.items.Keys);
      var compacted := Compact(content);
      var globals := if thread == MainThread then s.globalPins[t := compacted] else s.globalPins;
      var e := Entry(compacted, content, turn, thread, value);
      (Store(fs.Put(path, folder.Put(t, e)), globals, PushRecent(s.recent, (t, path))), Pinned(t, path))
  }

  /** Only the thread's own folder is written: `/user` for the main thread,
      `/thread/<id>` otherwise. */
  lemma PinStaysInItsPath(s: State, ratio: Ratio, title: string, content: string, thread: string,
                          value: real, turn: int)
    requires s.Valid()
    ensures var r := Pin(s, ratio, title, content, thread, value, turn).0;
            && PathFor(thread) in r.fs.items
            && (r.fs.order == s.fs.order || r.fs.order == s.fs.order + [PathFor(thread)])
            && forall p :: p != PathFor(thread) ==>
                 (p in r.fs.items <==> p in s.fs.items) && FolderOf(r.fs, p) == FolderOf(s.fs, p)
  {
    var path := PathFor(thread);
    var r := Pin(s, ratio, title, content, thread, value, turn).0;
    assert r.fs == Touch(s.fs, path).Put(path, r.fs.items[path]);
    WriteFolderStays(s.fs, path, r.fs.items[path]);
  }

  /** The first duplicate is updated in place: same titles in the same order,
      the larger of the two values kept, content, turn and thread replaced, the
      global and recent lists untouched. */
  lemma PinMergesFirstDuplicate(s: State, ratio: Ratio, title: string, content: string, thread: string,
                                value: real, turn: int, i: nat)
    requires s.Valid()
    requires SimilarAt(ratio, title, content, FolderOf(s.fs, PathFor(thread)), FullOf, i)
    requires forall j :: 0 <= j < i ==> !SimilarAt(ratio, title, content, FolderOf(s.fs, PathFor(thread)), FullOf, j)
    ensures var path := PathFor(thread);
            var f := FolderOf(s.fs, path);
            var key := f.order[i];
            var prev := f.items[key];
            var r := Pin(s, ratio, title, content, thread, value, turn);
            var g := r.0.fs.items[path];
            && r.1 == Updated(key, path)
            && g.order == f.order
            && g.items.Keys == f.items.Keys
            && (forall t :: t in f.items && t != key ==> g.items[t] == f.items[t])
            && g.items[key].value == Max(prev.value, value)
            && g.items[key].turn == turn
            && g.items[key].thread == thread
            && g.items[key].fullContent == content
            && g.items[key].content == Compact(content)
            && r.0.globalPins == s.globalPins
            && r.0.recent == s.recent
  {
    var path := PathFor(thread);
    var fs := Touch(s.fs, path);
    var folder := fs.items[path];
    assert folder == FolderOf(s.fs, path);
    assert FirstSimilar(ratio, title, content, folder, FullOf, 0) == Some(i);
    var key := folder.order[i];
    var prev := folder.items[key];
    var e := prev.(fullContent := content, content := Compact(content), turn := turn,
                     value := Max(prev.value, value), thread := thread);
    var g := folder.Put(key, e);
    assert key in folder.items;
    assert g.order == folder.order && g.items == folder.items[key := e];
    assert Pin(s, ratio, title, content, thread, value, turn) == (s.(fs := fs.Put(path, folder.Put(key, e))), Updated(key, path));
  }

  /** Without a duplicate, the folder gains exactly one pin under the first
      free title among `title`, `title_1`, ...; the global pins gain it only
      for the main thread, and only this path appends to the recent list. */
  lemma PinCreatesFreshEntry(s: State, ratio: Ratio, title: string, content: string, thread: string,
                             value: real, turn: int)
    requires s.Valid()
    requires forall j :: 0 <= j < |FolderOf(s.fs, PathFor(thread)).order| ==>
               !SimilarAt(ratio, title, content, FolderOf(s.fs, PathFor(thread)), FullOf, j)
    ensures var path := PathFor(thread);
            var f := FolderOf(s.fs, path);
            var r := Pin(s, ratio, title, content, thread, value, turn);
            var t := r.1.title;
            var g := r.0.fs.items[path];
            && r.1 == Pinned(t, path)
            && t !in f.items
            && (exists k: nat :: t == Candidate(title, k) && forall j :: 0 <= j < k ==> Candidate(title, j) in f.items)
            && g.order == f.order + [t]
            && g.items == f.items[t := Entry(Compact(content), content, turn, thread, value)]
            && |g.items| == |f.items| + 1
            && r.0.globalPins == (if thread == MainThread then s.globalPins[t := Compact(content)] else s.globalPins)
            && r.0.recent == PushRecent(s.recent, (t, path))
  {
    var f := FolderOf(s.fs, PathFor(thread));
    assert FirstSimilar(ratio, title, content, f, FullOf, 0).None?;
    var k := FreshIndex(title, f.items.Keys);
    assert FreshTitle(title, f.items.Keys) == Candidate(title, k);
  }
}
