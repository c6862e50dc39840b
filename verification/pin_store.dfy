/** The storage shape shared by both versions of the file manager: a folder
    per path (`fs`, a defaultdict of dicts, both insertion ordered), the
    `global_pins` map, and the `recent_pins` deque of at most ten
    (title, path) pairs. Also the pieces both `pin` functions compute the same
    way: which path a thread writes to, the 500-character preview, the
    de-duplicated title and the scan for a similar existing pin. */
module PinStore {
  import opened Wrappers
  import opened Text
  import opened OrderedDict
  import opened Difflib

  const RecentCap: nat := 10
  const PreviewLen: nat := 500
  const MainThread: string := "main"
  const UserPath: string := "/user"
  const ThreadPrefix: string := "/thread/"
  const ArchivePath: string := "/archive/completed"

  /** Title similarity above which an existing pin is treated as the same pin. */
  const TitleCutoff: real := 0.92
  /** Content similarity above which an existing pin is treated as the same pin. */
  const ContentCutoff: real := 0.85

  /** `fs` maps each path to a folder of pins keyed by title. */
  datatype Store<R> = Store(fs: Dict<Dict<R>>, globalPins: map<string, string>, recent: seq<(string, string)>)
  {
    ghost predicate Valid()
    {
      && fs.Valid()
      && (forall p :: p in fs.items ==> fs.items[p].Valid())
      && |recent| <= RecentCap
    }
  }

  /** What `pin` did, in place of its message. */
  datatype PinOutcome =
    | Updated(title: string, path: string)   // an existing duplicate was overwritten
    | Pinned(title: string, path: string)    // a new pin was created under `title`

  /** The state `__init__` builds: no folders, no global pins, no recent pins. */
  function InitStore<R>(): (s: Store<R>)
    ensures s.Valid()
    ensures s.fs.items == map[] && s.globalPins == map[] && s.recent == []
  {
    Store(Empty(), map[], [])
  }

  /** The folder a pin of `thread` goes to: `/user` for the main thread,
      `/thread/<id>` for every other one. */
  function PathFor(thread: string): (p: string)
    ensures p == UserPath <==> thread == MainThread
    ensures thread != MainThread ==> ThreadPrefix <= p && p[|ThreadPrefix|..] == thread
    ensures p != ArchivePath
  {
    if thread != MainThread then
      var p := ThreadPrefix + thread;
      assert p[1] == 't';
      p
    else UserPath
  }

  /** Distinct threads never share a folder. */
  lemma PathForInjective(a: string, b: string)
    requires PathFor(a) == PathFor(b)
    ensures a == b
  {
    if a != MainThread && b != MainThread {
      assert a == PathFor(a)[|ThreadPrefix|..];
    }
  }

  /** `self.fs[path]` read through the defaultdict: a missing path reads as empty. */
  function FolderOf<R>(fs: Dict<Dict<R>>, path: string): Dict<R>
  {
    if path in fs.items then fs.items[path] else Empty()
  }

  /** The defaultdict side effect of reading `self.fs[path]`: a missing path is
      created, empty, at the end of the path order. */
  function Touch<R>(fs: Dict<Dict<R>>, path: string): (r: Dict<Dict<R>>)
    requires fs.Valid() && (forall p :: p in fs.items ==> fs.items[p].Valid())
    ensures r.Valid() && (forall p :: p in r.items ==> r.items[p].Valid())
    ensures path in r.items && r.items[path] == FolderOf(fs, path)
    ensures forall p :: p != path ==> (p in r.items <==> p in fs.items)
    ensures forall p :: p in fs.items ==> p in r.items && r.items[p] == fs.items[p]
    ensures r.order == fs.order || r.order == fs.order + [path]
  {
    if path in fs.items then fs else fs.Put(path, Empty())
  }

  /** Writing the folder of one path after touching it changes that path
      only: the path is present, at most appended to the order, and every
      other path keeps its folder. */
  lemma WriteFolderStays<R>(fs: Dict<Dict<R>>, path: string, d: Dict<R>)
    requires fs.Valid() && (forall p :: p in fs.items ==> fs.items[p].Valid())
    ensures var r := Touch(fs, path).Put(path, d);
            && path in r.items
            && (r.order == fs.order || r.order == fs.order + [path])
            && forall p :: p != path ==> (p in r.items <==> p in fs.items) && FolderOf(r, p) == FolderOf(fs, p)
  {
    var t := Touch(fs, path);
    var r := t.Put(path, d);
    assert path in t.items;
    assert r.order == t.order;
    forall p | p != path
      ensures (p in r.items <==> p in fs.items) && FolderOf(r, p) == FolderOf(fs, p)
    {
      assert FolderOf(r, p) == FolderOf(t, p);
    }
  }

  /** `content[:500] + ('...' if len(content) > 500 else '')`: the preview is
      the content itself when it is at most 500 characters long, and otherwise
      its first 500 characters followed by an ellipsis. */
  function Compact(content: string): (r: string)
    ensures |content| <= PreviewLen ==> r == content
    ensures |content| > PreviewLen ==> |r| == PreviewLen + 3 && r[..PreviewLen] == content[..PreviewLen] && r[PreviewLen..] == "..."
    ensures |r| <= PreviewLen + 3
  {
    if |content| > PreviewLen then content[..PreviewLen] + "..." else content
  }

  /** `recent_pins.append(item)` on a `deque(maxlen=10)`: the newest entries of
      the old contents followed by `item`, the oldest dropped when full. */
  function PushRecent(recent: seq<(string, string)>, item: (string, string)): (r: seq<(string, string)>)
    requires |recent| <= RecentCap
    ensures |r| == if |recent| < RecentCap then |recent| + 1 else RecentCap
    ensures r == (recent + [item])[|recent| + 1 - |r|..]
    ensures r[|r| - 1] == item
  {
    if |recent| < RecentCap then recent + [item] else recent[1..] + [item]
  }

  /** The k-th title the de-duplication loop tries: the title itself, then
      `title_1`, `title_2`, ... */
  function Candidate(orig: string, k: nat): string
  {
    if k == 0 then orig else orig + "_" + NatToString(k)
  }

  lemma CandidateInjective(orig: string, j: nat, k: nat)
    requires Candidate(orig, j) == Candidate(orig, k)
    ensures j == k
  {
    if j != 0 && k != 0 {
      var n := |orig| + 1;
      assert NatToString(j) == Candidate(orig, j)[n..];
      assert NatToString(k) == Candidate(orig, k)[n..];
      NatToStringInjective(j, k);
    }
  }

  /** The first `n` candidate titles. */
  function Candidates(orig: string, n: nat): set<string>
  {
    set k | 0 <= k < n :: Candidate(orig, k)
  }

  /** The first `n` candidates are `n` different titles. */
  lemma {:induction false} CandidatesCard(orig: string, n: nat)
    ensures |Candidates(orig, n)| == n
  {
    if n > 0 {
      CandidatesCard(orig, n - 1);
      CandidatesStep(orig, n);
      CardGrow(Candidates(orig, n), Candidates(orig, n - 1), Candidate(orig, n - 1), n - 1);
    }
  }

  /** The `n`-th candidate is new: it is not among the ones before it. */
  lemma CandidatesStep(orig: string, n: nat)
    requires n > 0
    ensures Candidates(orig, n) == Candidates(orig, n - 1) + {Candidate(orig, n - 1)}
    ensures Candidate(orig, n - 1) !in Candidates(orig, n - 1)
  {
    if Candidate(orig, n - 1) in Candidates(orig, n - 1) {
      var j :| 0 <= j < n - 1 && Candidate(orig, j) == Candidate(orig, n - 1);
      CandidateInjective(orig, j, n - 1);
    }
  }

  /** Adding an element not yet present grows a set by one. */
  lemma CardGrow<T>(b: set<T>, a: set<T>, x: T, n: nat)
    requires b == a + {x} && x !in a && |a| == n
    ensures |b| == n + 1
  {
  }

  /** The loop `while title in keys: title = f"{original}_{counter}"`, started
      after `k` candidates were found taken: it stops at the first free one.
      It terminates because distinct candidates cannot all be among the finitely
      many keys. */
  function FreshIndexFrom(orig: string, keys: set<string>, k: nat): (r: nat)
    requires forall j :: 0 <= j < k ==> Candidate(orig, j) in keys
    ensures k <= r
    ensures Candidate(orig, r) !in keys
    ensures forall j :: 0 <= j < r ==> Candidate(orig, j) in keys
    decreases |keys| - k
  {
    if Candidate(orig, k) !in keys then k
    else
      CandidatesCard(orig, k + 1);
      SubsetCard(Candidates(orig, k + 1), keys);
      FreshIndexFrom(orig, keys, k + 1)
  }

  lemma SubsetCard(a: set<string>, b: set<string>)
    requires a <= b
    ensures |a| <= |b|
  {
    assert b == a + (b - a);
  }

  /** The number of the candidate the de-duplication loop settles on: the least
      `k` whose candidate is free. */
  function FreshIndex(orig: string, keys: set<string>): (r: nat)
    ensures Candidate(orig, r) !in keys
    ensures forall j :: 0 <= j < r ==> Candidate(orig, j) in keys
  {
    FreshIndexFrom(orig, keys, 0)
  }

  /** The title a new pin is stored under. */
  function FreshTitle(orig: string, keys: set<string>): (t: string)
    ensures t !in keys
    ensures orig !in keys ==> t == orig
    ensures orig in keys ==> exists k: nat :: 1 <= k && t == orig + "_" + NatToString(k)
  {
    var k := FreshIndex(orig, keys);
    assert k > 0 ==> Candidate(orig, k) == orig + "_" + NatToString(k);
    Candidate(orig, k)
  }

  /** The duplicate test of `pin`: the lowered titles are more than 92% alike
      or the lowered contents more than 85% alike. */
  predicate Similar(ratio: Ratio, title: string, content: string, existingTitle: string, existingContent: string)
  {
    || LoweredRatio(ratio, title, existingTitle) > TitleCutoff
    || LoweredRatio(ratio, content, existingContent) > ContentCutoff
  }

  /** The pin at position `j` of folder `f` is a duplicate of the new one;
      `full` reads a stored pin's full content. */
  predicate SimilarAt<R>(ratio: Ratio, title: string, content: string, f: Dict<R>, full: R -> string, j: int)
  {
    && 0 <= j < |f.order|
    && f.order[j] in f.items
    && Similar(ratio, title, content, f.order[j], full(f.items[f.order[j]]))
  }

  /** The loop over `list(self.fs[path].items())` from position `from`: the
      position of the first duplicate, if any. */
  function FirstSimilar<R>(ratio: Ratio, title: string, content: string, f: Dict<R>, full: R -> string, from: nat): (r: Option<nat>)
    requires from <= |f.order|
    ensures r.Some? ==> from <= r.value < |f.order| && SimilarAt(ratio, title, content, f, full, r.value)
    ensures r.Some? ==> forall j :: from <= j < r.value ==> !SimilarAt(ratio, title, content, f, full, j)
    ensures r.None? ==> forall j :: from <= j < |f.order| ==> !SimilarAt(ratio, title, content, f, full, j)
    decreases |f.order| - from
  {
    if from == |f.order| then None
    else if SimilarAt(ratio, title, content, f, full, from) then Some(from)
    else FirstSimilar(ratio, title, content, f, full, from + 1)
  }

  /** Python's `max(a, b)` on two values. */
  function Max(a: real, b: real): (r: real)
    ensures r >= a && r >= b
    ensures r == a || r == b
  {
    if a >= b then a else b
  }
}
