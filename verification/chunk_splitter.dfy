/** `ChunkSplitter` of PROCESS/CHUNK_SPLITTER.py: load prediction from word
    and sentence-mark counts, noise cleaning, and packing of text into chunks
    of a bounded number of words, paragraph by paragraph and, for long
    paragraphs, sentence by sentence. */
module ChunkSplitter {
  import opened Wrappers
  import opened Text

  /** The constructor's three settings (defaults 400, 800 and 60). A chunk
      limit of at least one word is assumed: 0 makes `predict_load` divide by
      zero. */
  datatype Config = Config(maxChunkWords: nat, heavyThresholdWords: int, heavyThresholdSentences: int)
  {
    predicate Valid()
    {
      maxChunkWords >= 1
    }
  }

  function DefaultConfig(): (c: Config)
    ensures c.Valid()
  {
    Config(400, 800, 60)
  }

  /** The filler-word substitution of `clean_chunk`
      (`\b(um|uh|like|you know|basically)\b`, case-insensitive, replaced by
      nothing). The regex is not modelled: any string-to-string function is
      accepted, and every property below holds whatever it does. */
  type FillerFilter = string -> string

  /** `len(re.findall(r'[.!?]', text))`. */
  function CountTerminators(s: string): (n: nat)
    ensures n <= |s|
    ensures n == 0 <==> forall i :: 0 <= i < |s| ==> !IsTerminator(s[i])
  {
    if |s| == 0 then 0 else (if IsTerminator(s[0]) then 1 else 0) + CountTerminators(s[1..])
  }

  /** The marks of a text are those of its parts, and a single character
      counts once exactly when it is a mark. */
  lemma {:induction false} CountTerminatorsAppend(a: string, b: string)
    ensures CountTerminators(a + b) == CountTerminators(a) + CountTerminators(b)
    ensures |a| == 1 ==> CountTerminators(a) == if IsTerminator(a[0]) then 1 else 0
    decreases |a|
  {
    if |a| > 0 {
      assert (a + b)[1..] == a[1..] + b;
      CountTerminatorsAppend(a[1..], b);
    } else {
      assert a + b == b;
    }
  }

  // ---------------------------------------------------------------- predict_load

  datatype Load = Light | Heavy

  /** `predict_load`: the load class and the expected number of chunks. The
      complexity `sentences / (words / 100)` is computed on reals; its
      comparison with 0.8 is shown to be the integer test
      `125 * sentences > words`, so almost any text under 125 words per
      sentence mark is heavy. */
  function PredictLoad(cfg: Config, text: string): (r: (Load, nat))
    requires cfg.Valid()
    ensures var words := |Words(text)|;
            var sentences := CountTerminators(text) + 1;
            && (r.0 == Heavy <==> words > cfg.heavyThresholdWords || (words > 0 && 125 * sentences > words))
            && r.1 >= 1
            && (r.1 - 1) * cfg.maxChunkWords <= words < r.1 * cfg.maxChunkWords
  {
    var words := |Words(text)|;
    var sentences := CountTerminators(text) + 1;
    var complexity: real := if words > 0 then (sentences as real) / ((words as real) / 100.0) else 0.0;
    ComplexityTest(sentences, words);
    ExpectedChunks(words, cfg.maxChunkWords);
    var isHeavy := words > cfg.heavyThresholdWords || complexity > 0.8;
    var expected := words / cfg.maxChunkWords + 1;
    (if isHeavy then Heavy else Light, if expected < 1 then 1 else expected)
  }

  lemma ComplexityTest(sentences: nat, words: nat)
    ensures words > 0 ==> ((sentences as real) / ((words as real) / 100.0) > 0.8 <==> 125 * sentences > words)
  {
    if words > 0 {
      DivideAbove(sentences as real, words as real);
      assert sentences as real > 0.8 * (words as real / 100.0) <==> 125.0 * (sentences as real) > words as real;
    }
  }

  lemma DivideAbove(s: real, w: real)
    requires w > 0.0
    ensures s / (w / 100.0) > 0.8 <==> s > 0.8 * (w / 100.0)
  {
    var d := w / 100.0;
    var q := s / d;
    assert q * d == s;
    if q > 0.8 {
      MulMono(q, 0.8, d);
    } else {
      MulMonoLe(0.8, q, d);
    }
  }

  lemma MulMono(a: real, b: real, d: real)
    requires a > b && d > 0.0
    ensures a * d > b * d
  {
  }

  lemma MulMonoLe(a: real, b: real, d: real)
    requires a >= b && d > 0.0
    ensures a * d >= b * d
  {
  }

  lemma ExpectedChunks(words: nat, max: nat)
    requires max >= 1
    ensures (words / max) * max <= words < (words / max + 1) * max
  {
    assert words == (words / max) * max + words % max;
  }

  /** Text without words is light (for a non-negative word threshold) and is
      expected to fill one chunk. */
  lemma EmptyTextIsLight(cfg: Config, text: string)
    requires cfg.Valid() && cfg.heavyThresholdWords >= 0
    requires Words(text) == []
    ensures PredictLoad(cfg, text) == (Light, 1)
  {
  }

  /** The sentence threshold is stored but never consulted. */
  lemma SentenceThresholdUnused(cfg: Config, text: string, other: int)
    requires cfg.Valid()
    ensures PredictLoad(cfg, text) == PredictLoad(cfg.(heavyThresholdSentences := other), text)
  {
  }

  // ---------------------------------------------------------------- clean_chunk

  /** `re.sub(r'([.!?])\1+', r'\1', s)`: a run of one repeated sentence mark
      becomes a single mark. */
  function CollapsePunct(s: string): (r: string)
    ensures |r| <= |s|
    ensures |s| > 0 ==> |r| > 0 && r[0] == s[0]
    ensures NoDoubledMark(r)
    decreases |s|
  {
    if |s| == 0 then s
    else if |s| >= 2 && IsTerminator(s[0]) && s[1] == s[0] then CollapsePunct(s[1..])
    else [s[0]] + CollapsePunct(s[1..])
  }

  /** No sentence mark is directly followed by the same mark. */
  predicate NoDoubledMark(s: string)
  {
    forall i :: 0 <= i < |s| - 1 ==> !(IsTerminator(s[i]) && s[i + 1] == s[i])
  }

  /** The characters of `s` that are not sentence marks, in order. */
  function NonMarks(s: string): string
  {
    if |s| == 0 then [] else (if IsTerminator(s[0]) then [] else [s[0]]) + NonMarks(s[1..])
  }

  lemma NonMarksCons(c: char, t: string)
    ensures NonMarks([c] + t) == (if IsTerminator(c) then [] else [c]) + NonMarks(t)
  {
    assert ([c] + t)[1..] == t;
  }

  /** Collapsing only ever drops sentence marks: every other character
      survives, in order. */
  lemma {:induction false} CollapseKeepsNonMarks(s: string)
    ensures NonMarks(CollapsePunct(s)) == NonMarks(s)
    decreases |s|
  {
    if |s| > 0 {
      CollapseKeepsNonMarks(s[1..]);
      if !(|s| >= 2 && IsTerminator(s[0]) && s[1] == s[0]) {
        NonMarksCons(s[0], CollapsePunct(s[1..]));
      }
    }
  }

  /** A text without a doubled mark is left as it is. */
  lemma {:induction false} CollapseKeepsUndoubled(s: string)
    requires NoDoubledMark(s)
    ensures CollapsePunct(s) == s
    decreases |s|
  {
    if |s| > 0 {
      var t := s[1..];
      forall i | 0 <= i < |t| - 1
        ensures !(IsTerminator(t[i]) && t[i + 1] == t[i])
      {
        assert t[i] == s[i + 1] && t[i + 1] == s[i + 2];
      }
      CollapseKeepsUndoubled(t);
      assert [s[0]] + t == s;
    }
  }

  /** `n` copies of `c`. */
  function Repeat(c: char, n: nat): (r: string)
    ensures |r| == n && forall i :: 0 <= i < n ==> r[i] == c
  {
    if n == 0 then [] else [c] + Repeat(c, n - 1)
  }

  /** A run of one repeated sentence mark, not continued by the same mark,
      becomes that mark once. */
  lemma {:induction false} CollapseRun(m: char, n: nat, t: string)
    requires IsTerminator(m) && n >= 1
    requires t == [] || t[0] != m
    ensures CollapsePunct(Repeat(m, n) + t) == [m] + CollapsePunct(t)
    decreases n
  {
    var s := Repeat(m, n) + t;
    if n == 1 {
      assert s == [m] + t && s[1..] == t;
    } else {
      assert s[0] == m && s[1] == m;
      assert s[1..] == Repeat(m, n - 1) + t;
      CollapseRun(m, n - 1, t);
    }
  }

  /** A character that does not begin a doubled sentence mark is kept. */
  lemma CollapseKeep(c: char, t: string)
    requires !(IsTerminator(c) && |t| > 0 && t[0] == c)
    ensures CollapsePunct([c] + t) == [c] + CollapsePunct(t)
  {
    assert ([c] + t)[1..] == t;
  }

  /** Collapsing twice is collapsing once. */
  lemma CollapseIdempotent(s: string)
    ensures CollapsePunct(CollapsePunct(s)) == CollapsePunct(s)
  {
    CollapseKeepsUndoubled(CollapsePunct(s));
  }

  /** No two whitespace characters stand next to each other. */
  ghost predicate NoDoubleSpace(s: string)
  {
    forall i :: 0 <= i < |s| - 1 ==> !(IsSpace(s[i]) && IsSpace(s[i + 1]))
  }

  /** Spaces are the only whitespace in `s`. */
  predicate PlainSpaces(s: string)
  {
    forall i :: 0 <= i < |s| ==> IsSpace(s[i]) ==> s[i] == ' '
  }

  /** `re.sub(r'\s+', ' ', s)`: every run of whitespace becomes one space. */
  function Squash(s: string): (r: string)
    ensures NoDoubleSpace(r)
    ensures PlainSpaces(r)
    ensures |r| > 0 <==> |s| > 0
    ensures |r| > 0 ==> (IsSpace(r[0]) <==> IsSpace(s[0]))
    ensures |r| > 0 ==> (IsSpace(r[|r| - 1]) <==> IsSpace(s[|s| - 1]))
    decreases |s|
  {
    if |s| == 0 then []
    else if IsSpace(s[0]) then
      var rest := LStrip(s);
      assert |rest| < |s|;
      assert |rest| > 0 ==> rest[|rest| - 1] == s[|s| - 1];
      [' '] + Squash(rest)
    else
      assert |s| > 1 ==> s[1..][|s| - 2] == s[|s| - 1];
      [s[0]] + Squash(s[1..])
  }

  /** A whitespace character in front adds no word. */
  lemma SpaceConsWords(c: char, t: string)
    requires IsSpace(c)
    ensures Words([c] + t) == Words(t)
  {
    assert ([c] + t)[1..] == t;
  }

  /** A run without whitespace is one word. */
  lemma WordOfRun(w: string)
    requires |w| > 0 && forall i :: 0 <= i < |w| ==> !IsSpace(w[i])
    ensures Words(w) == [w]
  {
    if WordLen(w) < |w| {
      assert false;
    }
    assert w[..|w|] == w && w[|w|..] == [];
  }

  /** Squashing passes over the first `k` characters of a leading word unchanged. */
  lemma {:induction false} SquashWordPrefix(s: string, k: nat)
    requires k <= WordLen(s)
    ensures Squash(s) == s[..k] + Squash(s[k..])
    decreases k
  {
    if k > 0 {
      assert !IsSpace(s[0]);
      assert WordLen(s[1..]) == WordLen(s) - 1;
      SquashWordPrefix(s[1..], k - 1);
      assert s[1..][k - 1..] == s[k..];
      PrefixCons(s, k, Squash(s), Squash(s[k..]));
    } else {
      assert s[..0] == [] && s[0..] == s;
    }
  }

  /** Putting the first element back in front of the next `k - 1`. */
  lemma PrefixCons<T>(s: seq<T>, k: nat, y: seq<T>, z: seq<T>)
    requires 0 < k <= |s|
    requires y == [s[0]] + (s[1..][..k - 1] + z)
    ensures y == s[..k] + z
  {
    assert s[..k] == [s[0]] + s[1..][..k - 1];
  }

  /** Squashing whitespace keeps the words. */
  lemma {:induction false} SquashKeepsWords(s: string)
    ensures Words(Squash(s)) == Words(s)
    decreases |s|
  {
    if |s| > 0 {
      if IsSpace(s[0]) {
        var rest := LStrip(s);
        SquashKeepsWords(rest);
        LStripKeepsWords(s);
        SpaceConsWords(' ', Squash(rest));
      } else {
        var n := WordLen(s);
        SquashWordPrefix(s, n);
        SquashKeepsWords(s[n..]);
        WordsFirst(s);
        WordOfRun(s[..n]);
        if n < |s| {
          WordsSplitAtSpace(s[..n], Squash(s[n..]));
        } else {
          assert s[n..] == [] && s[..n] == s;
        }
      }
    }
  }

  lemma NoDoubleSpaceSlice(s: string, a: nat, b: nat)
    requires NoDoubleSpace(s) && a <= b <= |s|
    ensures NoDoubleSpace(s[a..b])
  {
    var t := s[a..b];
    forall i | 0 <= i < |t| - 1
      ensures !(IsSpace(t[i]) && IsSpace(t[i + 1]))
    {
      assert t[i] == s[a + i] && t[i + 1] == s[a + i + 1];
    }
  }

  lemma StripKeepsNoDoubleSpace(s: string)
    requires NoDoubleSpace(s)
    ensures NoDoubleSpace(Strip(s))
  {
    var l := LStrip(s);
    NoDoubleSpaceSlice(s, |s| - |l|, |s|);
    NoDoubleSpaceSlice(l, 0, |RStrip(l)|);
  }

  lemma PlainSpacesSlice(s: string, a: nat, b: nat)
    requires PlainSpaces(s) && a <= b <= |s|
    ensures PlainSpaces(s[a..b])
  {
    var t := s[a..b];
    forall i | 0 <= i < |t|
      ensures IsSpace(t[i]) ==> t[i] == ' '
    {
      assert t[i] == s[a + i];
    }
  }

  lemma StripKeepsPlainSpaces(s: string)
    requires PlainSpaces(s)
    ensures PlainSpaces(Strip(s))
  {
    var l := LStrip(s);
    PlainSpacesSlice(s, |s| - |l|, |s|);
    PlainSpacesSlice(l, 0, |RStrip(l)|);
  }

  /** `clean_chunk`: collapse repeated marks, drop fillers, squeeze whitespace
      and strip. The result neither starts nor ends with whitespace, never has
      two whitespace characters in a row, and spaces are its only whitespace. */
  function Clean(filter: FillerFilter, chunk: string): (r: string)
    ensures |r| > 0 ==> !IsSpace(r[0]) && !IsSpace(r[|r| - 1])
    ensures NoDoubleSpace(r)
    ensures PlainSpaces(r)
    ensures Words(r) == Words(filter(CollapsePunct(chunk)))
  {
    var squashed := Squash(filter(CollapsePunct(chunk)));
    SquashKeepsWords(filter(CollapsePunct(chunk)));
    StripKeepsWords(squashed);
    StripKeepsNoDoubleSpace(squashed);
    StripKeepsPlainSpaces(squashed);
    Strip(squashed)
  }

  // ---------------------------------------------------------------- paragraphs and sentences

  /** `[p.strip() for p in parts if p.strip()]`. */
  function StripNonBlank(parts: seq<string>): (r: seq<string>)
    ensures AllTrimmed(r)
  {
    if |parts| == 0 then []
    else
      var p := Strip(parts[0]);
      var rest := StripNonBlank(parts[1..]);
      if p == "" then rest
      else
        AllTrimmedCons(p, rest);
        [p] + rest
  }

  /** Every piece is non-empty and neither starts nor ends with whitespace. */
  predicate AllTrimmed(r: seq<string>)
  {
    forall k :: 0 <= k < |r| ==> r[k] != "" && Trimmed(r[k])
  }

  lemma AllTrimmedCons(p: string, rest: seq<string>)
    requires p != "" && Trimmed(p) && AllTrimmed(rest)
    ensures AllTrimmed([p] + rest)
  {
    forall k | 0 <= k < |rest| + 1
      ensures ([p] + rest)[k] != "" && Trimmed(([p] + rest)[k])
    {
      if k > 0 {
        assert ([p] + rest)[k] == rest[k - 1];
      }
    }
  }

  /** The paragraphs of `split`: the non-blank pieces between "\n\n", stripped. */
  function Paragraphs(text: string): seq<string>
  {
    StripNonBlank(SplitOn(text, "\n\n"))
  }

  /** The words of a list of strings, one list after the other. */
  function FlatWords(parts: seq<string>): seq<string>
  {
    if |parts| == 0 then [] else Words(parts[0]) + FlatWords(parts[1..])
  }

  lemma FlatWordsAppend(a: seq<string>, b: seq<string>)
    ensures FlatWords(a + b) == FlatWords(a) + FlatWords(b)
  {
    if |a| == 0 {
      assert a + b == b;
    } else {
      assert (a + b)[0] == a[0];
      assert (a + b)[1..] == a[1..] + b;
      FlatWordsAppend(a[1..], b);
    }
  }

  lemma {:induction false} StripNonBlankKeepsWords(parts: seq<string>)
    ensures FlatWords(StripNonBlank(parts)) == FlatWords(parts)
  {
    if |parts| > 0 {
      var p := Strip(parts[0]);
      StripKeepsWords(parts[0]);
      StripEmptyIffNoWords(parts[0]);
      StripNonBlankKeepsWords(parts[1..]);
      if p != "" {
        assert FlatWords([p] + StripNonBlank(parts[1..])) == Words(p) + FlatWords(StripNonBlank(parts[1..]));
      }
    }
  }

  /** Joining with a whitespace separator adds no words. */
  lemma {:induction false} JoinKeepsWords(parts: seq<string>, sep: string)
    requires |sep| > 0
    requires forall i :: 0 <= i < |sep| ==> IsSpace(sep[i])
    ensures Words(Join(parts, sep)) == FlatWords(parts)
  {
    if |parts| == 1 {
      assert FlatWords(parts) == Words(parts[0]) + FlatWords([]);
    } else if |parts| > 1 {
      var rest := Join(parts[1..], sep);
      JoinKeepsWords(parts[1..], sep);
      assert parts[0] + sep + rest == parts[0] + (sep + rest);
      assert (sep + rest)[0] == sep[0];
      WordsSplitAtSpace(parts[0], sep + rest);
      SpacePrefixAddsNoWords(sep, rest);
    }
  }

  lemma {:induction false} SpacePrefixAddsNoWords(ws: string, s: string)
    requires forall i :: 0 <= i < |ws| ==> IsSpace(ws[i])
    ensures Words(ws + s) == Words(s)
    decreases |ws|
  {
    if |ws| == 0 {
      assert ws + s == s;
    } else {
      assert (ws + s)[0] == ws[0];
      assert (ws + s)[1..] == ws[1..] + s;
      SpacePrefixAddsNoWords(ws[1..], s);
    }
  }

  /** Cutting a text into paragraphs loses and reorders no word. */
  lemma ParagraphsKeepWords(text: string)
    ensures FlatWords(Paragraphs(text)) == Words(text)
  {
    var parts := SplitOn(text, "\n\n");
    JoinSplitOn(text, "\n\n");
    JoinKeepsWords(parts, "\n\n");
    StripNonBlankKeepsWords(parts);
  }

  /** Sentence splitting loses and reorders no word. */
  lemma {:induction false} SplitSentencesKeepsWords(s: string)
    ensures FlatWords(SplitSentences(s)) == Words(s)
    decreases |s|
  {
    if |s| > 0 {
      match FirstBreak(s, 1)
      case None =>
        assert SplitSentences(s) == [s];
        assert FlatWords([s]) == Words(s) + FlatWords([]);
      case Some(i) =>
        SplitSentencesKeepsWords(LStrip(s[i..]));
        SplitSentencesStep(s, i);
    }
  }

  /** The step of `SplitSentencesKeepsWords` at a sentence break `i`. */
  lemma SplitSentencesStep(s: string, i: nat)
    requires |s| > 0 && FirstBreak(s, 1) == Some(i)
    requires FlatWords(SplitSentences(LStrip(s[i..]))) == Words(LStrip(s[i..]))
    ensures FlatWords(SplitSentences(s)) == Words(s)
  {
    var rest := LStrip(s[i..]);
    var parts := [s[..i]] + SplitSentences(rest);
    calc {
      FlatWords(SplitSentences(s));
      { assert SplitSentences(s) == parts; }
      FlatWords(parts);
      { FlatWordsCons(parts); assert parts[1..] == SplitSentences(rest); }
      Words(s[..i]) + FlatWords(SplitSentences(rest));
      { WordsAtBreak(s, i); }
      Words(s);
    }
  }

  /** Cutting at whitespace and left-stripping the second part keeps the words. */
  lemma WordsAtBreak(s: string, i: nat)
    requires i < |s| && IsSpace(s[i])
    ensures Words(s[..i]) + Words(LStrip(s[i..])) == Words(s)
  {
    var head, tail := s[..i], s[i..];
    assert s == head + tail;
    WordsSplitAtSpace(head, tail);
    LStripKeepsWords(tail);
  }

  // ---------------------------------------------------------------- packing

  /** The stripped sentences of a list: a chunk in this set is a single sentence. */
  ghost function SentenceSet(sents: seq<string>): set<string>
  {
    set x | x in sents :: Strip(x)
  }

  /** Neither empty-edged: no leading or trailing whitespace. */
  predicate Trimmed(s: string)
  {
    |s| > 0 ==> !IsSpace(s[0]) && !IsSpace(s[|s| - 1])
  }

  /** The sentence loop of `split` for one long paragraph, with `current`
      the chunk being filled: a sentence joins the current chunk while the
      word count stays within `max`, otherwise the current chunk is emitted
      and the sentence starts a new one. */
  function Pack(sents: seq<string>, max: nat, current: string): seq<string>
    decreases |sents|
  {
    if |sents| == 0 then (if current != "" then [Strip(current)] else [])
    else
      var sent := Strip(sents[0]);
      if sent == "" then Pack(sents[1..], max, current)
      else if |Words(current)| + |Words(sent)| <= max then
        Pack(sents[1..], max, if current != "" then current + " " + sent else sent)
      else
        (if current != "" then [Strip(current)] else []) + Pack(sents[1..], max, sent)
  }

  /** Joining two pieces with one space keeps the words of both. */
  lemma SpaceJoinWords(a: string, b: string)
    ensures Words(a + " " + b) == Words(a) + Words(b)
  {
    assert a + " " + b == a + (" " + b);
    assert (" " + b)[0] == ' ';
    assert (" " + b)[1..] == b;
    WordsSplitAtSpace(a, " " + b);
  }

  /** A chunk joined from two trimmed pieces is trimmed. */
  lemma SpaceJoinTrimmed(a: string, b: string)
    requires a != "" && b != "" && Trimmed(a) && Trimmed(b)
    ensures Trimmed(a + " " + b)
  {
    var c := a + " " + b;
    assert c[0] == a[0] && c[|c| - 1] == b[|b| - 1];
  }

  /** Packing keeps every word in order: the words of the chunks are those of
      the chunk in progress followed by those of the sentences. */
  lemma {:induction false} PackKeepsWords(sents: seq<string>, max: nat, current: string)
    ensures FlatWords(Pack(sents, max, current)) == Words(current) + FlatWords(sents)
    decreases |sents|
  {
    if |sents| == 0 {
      EmitKeepsWords(current);
    } else {
      var sent := Strip(sents[0]);
      if sent == "" {
        PackKeepsWords(sents[1..], max, current);
        PackSkipKeepsWords(sents, max, current);
      } else if |Words(current)| + |Words(sent)| <= max {
        if current != "" {
          PackKeepsWords(sents[1..], max, current + " " + sent);
          PackJoinKeepsWords(sents, max, current);
        } else {
          PackKeepsWords(sents[1..], max, sent);
          PackStartKeepsWords(sents, max, current);
        }
      } else {
        PackKeepsWords(sents[1..], max, sent);
        PackEmitKeepsWords(sents, max, current);
      }
    }
  }

  /** The step of `PackKeepsWords` for a blank sentence. */
  lemma PackSkipKeepsWords(sents: seq<string>, max: nat, current: string)
    requires |sents| > 0 && Strip(sents[0]) == ""
    requires FlatWords(Pack(sents[1..], max, current)) == Words(current) + FlatWords(sents[1..])
    ensures FlatWords(Pack(sents, max, current)) == Words(current) + FlatWords(sents)
  {
    PackSkipStep(sents, max, current);
    FlatWordsCons(sents);
    assert [] + FlatWords(sents[1..]) == FlatWords(sents[1..]);
  }

  /** The step of `PackKeepsWords` for a sentence that starts an empty chunk. */
  lemma PackStartKeepsWords(sents: seq<string>, max: nat, current: string)
    requires |sents| > 0 && current == ""
    requires Strip(sents[0]) != "" && |Words(current)| + |Words(Strip(sents[0]))| <= max
    requires FlatWords(Pack(sents[1..], max, Strip(sents[0]))) == Words(Strip(sents[0])) + FlatWords(sents[1..])
    ensures FlatWords(Pack(sents, max, current)) == Words(current) + FlatWords(sents)
  {
    PackJoinStep(sents, max, current);
    StripKeepsWords(sents[0]);
    FlatWordsCons(sents);
    assert Words(current) == [];
    assert [] + FlatWords(sents) == FlatWords(sents);
  }

  /** The step of `PackKeepsWords` for a sentence that does not fit. */
  lemma PackEmitKeepsWords(sents: seq<string>, max: nat, current: string)
    requires |sents| > 0
    requires Strip(sents[0]) != "" && |Words(current)| + |Words(Strip(sents[0]))| > max
    requires FlatWords(Pack(sents[1..], max, Strip(sents[0]))) == Words(Strip(sents[0])) + FlatWords(sents[1..])
    ensures FlatWords(Pack(sents, max, current)) == Words(current) + FlatWords(sents)
  {
    var sent := Strip(sents[0]);
    var emitted := if current != "" then [Strip(current)] else [];
    var tail := Pack(sents[1..], max, sent);
    PackEmitStep(sents, max, current);
    calc {
      FlatWords(Pack(sents, max, current));
      FlatWords(emitted + tail);
      { FlatWordsAppend(emitted, tail); }
      FlatWords(emitted) + FlatWords(tail);
      { EmitKeepsWords(current); }
      Words(current) + (Words(sent) + FlatWords(sents[1..]));
      { StripKeepsWords(sents[0]); FlatWordsCons(sents); }
      Words(current) + FlatWords(sents);
    }
  }

  /** The step of `PackKeepsWords` for a sentence joining a non-empty chunk. */
  lemma PackJoinKeepsWords(sents: seq<string>, max: nat, current: string)
    requires |sents| > 0 && current != ""
    requires Strip(sents[0]) != "" && |Words(current)| + |Words(Strip(sents[0]))| <= max
    requires FlatWords(Pack(sents[1..], max, current + " " + Strip(sents[0])))
          == Words(current + " " + Strip(sents[0])) + FlatWords(sents[1..])
    ensures FlatWords(Pack(sents, max, current)) == Words(current) + FlatWords(sents)
  {
    var sent := Strip(sents[0]);
    PackJoinStep(sents, max, current);
    SpaceJoinWords(current, sent);
    StripKeepsWords(sents[0]);
    FlatWordsCons(sents);
    calc {
      FlatWords(Pack(sents, max, current));
      FlatWords(Pack(sents[1..], max, current + " " + sent));
      Words(current + " " + sent) + FlatWords(sents[1..]);
      (Words(current) + Words(sent)) + FlatWords(sents[1..]);
      { ConcatAssoc(Words(current), Words(sent), FlatWords(sents[1..])); }
      Words(current) + (Words(sent) + FlatWords(sents[1..]));
      Words(current) + FlatWords(sents);
    }
  }


  lemma FlatWordsCons(parts: seq<string>)
    requires |parts| > 0
    ensures FlatWords(parts) == Words(parts[0]) + FlatWords(parts[1..])
  {
  }

  /** A blank sentence is skipped. */
  lemma PackSkipStep(sents: seq<string>, max: nat, current: string)
    requires |sents| > 0 && Strip(sents[0]) == ""
    ensures Pack(sents, max, current) == Pack(sents[1..], max, current)
    ensures Words(sents[0]) == []
  {
    StripEmptyIffNoWords(sents[0]);
  }

  /** A sentence that fits joins the chunk in progress. */
  lemma PackJoinStep(sents: seq<string>, max: nat, current: string)
    requires |sents| > 0
    requires Strip(sents[0]) != "" && |Words(current)| + |Words(Strip(sents[0]))| <= max
    ensures Pack(sents, max, current)
         == Pack(sents[1..], max, if current != "" then current + " " + Strip(sents[0]) else Strip(sents[0]))
  {
  }

  /** A sentence that does not fit closes the chunk in progress and starts the next. */
  lemma PackEmitStep(sents: seq<string>, max: nat, current: string)
    requires |sents| > 0
    requires Strip(sents[0]) != "" && |Words(current)| + |Words(Strip(sents[0]))| > max
    ensures Pack(sents, max, current)
         == (if current != "" then [Strip(current)] else []) + Pack(sents[1..], max, Strip(sents[0]))
  {
  }

  /** Emitting the chunk in progress keeps its words. */
  lemma EmitKeepsWords(current: string)
    ensures FlatWords(if current != "" then [Strip(current)] else []) == Words(current)
  {
    if current != "" {
      StripKeepsWords(current);
      assert FlatWords([Strip(current)]) == Words(Strip(current)) + FlatWords([]);
    }
  }

  /** Every chunk packing emits is within the word limit, or else is one of
      the sentences on its own (which alone exceeds the limit). */
  lemma {:induction false} PackWithinLimit(sents: seq<string>, max: nat, current: string, whole: set<string>)
    requires forall x :: x in sents ==> Strip(x) in whole
    requires Trimmed(current)
    requires |Words(current)| <= max || current in whole
    ensures ChunksFit(Pack(sents, max, current), max, whole)
    decreases |sents|
  {
    if |sents| > 0 {
      var sent := Strip(sents[0]);
      assert sents[0] in sents;
      assert forall x :: x in sents[1..] ==> x in sents;
      if sent == "" {
        PackWithinLimit(sents[1..], max, current, whole);
        PackSkipStep(sents, max, current);
      } else if |Words(current)| + |Words(sent)| <= max {
        if current != "" {
          JoinedWithinLimit(current, sent, max);
          PackWithinLimit(sents[1..], max, current + " " + sent, whole);
        } else {
          PackWithinLimit(sents[1..], max, sent, whole);
        }
        PackJoinStep(sents, max, current);
      } else {
        PackWithinLimit(sents[1..], max, sent, whole);
        PackEmitFits(sents, max, current, whole);
      }
    }
  }

  /** Every chunk is non-empty and within the limit, unless it is one whole
      sentence of `whole`. */
  predicate ChunksFit(cs: seq<string>, max: nat, whole: set<string>)
  {
    forall c :: c in cs ==> c != "" && (|Words(c)| <= max || c in whole)
  }

  /** The step of `PackWithinLimit` for a sentence that does not fit. */
  lemma PackEmitFits(sents: seq<string>, max: nat, current: string, whole: set<string>)
    requires |sents| > 0
    requires Strip(sents[0]) != "" && |Words(current)| + |Words(Strip(sents[0]))| > max
    requires Trimmed(current) && (|Words(current)| <= max || current in whole)
    requires ChunksFit(Pack(sents[1..], max, Strip(sents[0])), max, whole)
    ensures ChunksFit(Pack(sents, max, current), max, whole)
  {
    EmittedFits(current, max, whole);
    ChunksFitAppend(if current != "" then [Strip(current)] else [], Pack(sents[1..], max, Strip(sents[0])), max, whole);
    PackEmitStep(sents, max, current);
  }

  /** The chunk a closing step emits fits whenever the chunk in progress did. */
  lemma EmittedFits(current: string, max: nat, whole: set<string>)
    requires Trimmed(current) && (|Words(current)| <= max || current in whole)
    ensures ChunksFit(if current != "" then [Strip(current)] else [], max, whole)
  {
    if current != "" {
      assert Strip(current) == current;
    }
  }

  lemma ChunksFitAppend(a: seq<string>, b: seq<string>, max: nat, whole: set<string>)
    requires ChunksFit(a, max, whole) && ChunksFit(b, max, whole)
    ensures ChunksFit(a + b, max, whole)
  {
    forall c | c in a + b
      ensures c != "" && (|Words(c)| <= max || c in whole)
    {
      assert c in a || c in b;
    }
  }

  /** A chunk joined within the limit is trimmed and within the limit. */
  lemma JoinedWithinLimit(current: string, sent: string, max: nat)
    requires current != "" && sent != "" && Trimmed(current) && Trimmed(sent)
    requires |Words(current)| + |Words(sent)| <= max
    ensures Trimmed(current + " " + sent) && |Words(current + " " + sent)| <= max
  {
    SpaceJoinWords(current, sent);
    SpaceJoinTrimmed(current, sent);
  }

  // ---------------------------------------------------------------- split and process

  /** What `split` makes of one cleaned paragraph: the paragraph itself when
      it is short enough, its packed sentences otherwise. */
  function ChunkParagraph(cfg: Config, para: string): (r: seq<string>)
    requires cfg.Valid()
    requires Trimmed(para)
    ensures |Words(para)| <= cfg.maxChunkWords ==> r == [para]
    ensures |Words(para)| > cfg.maxChunkWords ==>
              ChunksFit(r, cfg.maxChunkWords, SentenceSet(SplitSentences(para)))
    ensures FlatWords(r) == Words(para)
  {
    if |Words(para)| <= cfg.maxChunkWords then
      assert FlatWords([para]) == Words(para) + FlatWords([]);
      [para]
    else
      var sents := SplitSentences(para);
      PackWithinLimit(sents, cfg.maxChunkWords, "", SentenceSet(sents));
      PackKeepsWords(sents, cfg.maxChunkWords, "");
      SplitSentencesKeepsWords(para);
      Pack(sents, cfg.maxChunkWords, "")
  }

  /** The cleaned paragraphs of a text, in order. */
  function CleanParagraphs(filter: FillerFilter, paras: seq<string>): (r: seq<string>)
    ensures |r| == |paras|
    ensures forall k :: 0 <= k < |r| ==> Trimmed(r[k])
  {
    seq(|paras|, k requires 0 <= k < |paras| => Clean(filter, paras[k]))
  }

  /** The chunks of the cleaned paragraphs, in paragraph order. */
  function ChunkAll(cfg: Config, paras: seq<string>): (r: seq<string>)
    requires cfg.Valid()
    requires forall k :: 0 <= k < |paras| ==> Trimmed(paras[k])
    ensures FlatWords(r) == FlatWords(paras)
  {
    if |paras| == 0 then []
    else
      var here := ChunkParagraph(cfg, paras[0]);
      var rest := ChunkAll(cfg, paras[1..]);
      FlatWordsAppend(here, rest);
      here + rest
  }

  /** `[c for c in chunks if c]`. */
  function DropEmpty(chunks: seq<string>): (r: seq<string>)
    ensures forall k :: 0 <= k < |r| ==> r[k] != ""
    ensures forall c :: c in r ==> c in chunks
    ensures FlatWords(r) == FlatWords(chunks)
  {
    if |chunks| == 0 then []
    else
      var rest := DropEmpty(chunks[1..]);
      if chunks[0] != "" then
        assert FlatWords([chunks[0]] + rest) == Words(chunks[0]) + FlatWords(rest);
        [chunks[0]] + rest
      else
        assert Words(chunks[0]) == [];
        rest
  }

  /** `split`: no chunk is empty, and the chunks' words are exactly the
      cleaned paragraphs' words, in order. */
  function Split(cfg: Config, filter: FillerFilter, text: string): (r: seq<string>)
    requires cfg.Valid()
    ensures forall k :: 0 <= k < |r| ==> r[k] != ""
    ensures FlatWords(r) == FlatWords(CleanParagraphs(filter, Paragraphs(text)))
  {
    DropEmpty(ChunkAll(cfg, CleanParagraphs(filter, Paragraphs(text))))
  }

  /** The stripped sentences of every paragraph. */
  ghost function SentencesOf(paras: seq<string>): set<string>
  {
    if |paras| == 0 then {} else SentenceSet(SplitSentences(paras[0])) + SentencesOf(paras[1..])
  }

  /** Every chunk of `split` is within the word limit, or else is a single
      sentence of one of the cleaned paragraphs. */
  lemma SplitChunkShapes(cfg: Config, filter: FillerFilter, text: string)
    requires cfg.Valid()
    ensures forall c :: c in Split(cfg, filter, text) ==>
              |Words(c)| <= cfg.maxChunkWords || c in SentencesOf(CleanParagraphs(filter, Paragraphs(text)))
  {
    ChunkAllShapes(cfg, CleanParagraphs(filter, Paragraphs(text)));
  }

  lemma {:induction false} ChunkAllShapes(cfg: Config, paras: seq<string>)
    requires cfg.Valid()
    requires forall k :: 0 <= k < |paras| ==> Trimmed(paras[k])
    ensures forall c :: c in ChunkAll(cfg, paras) ==> |Words(c)| <= cfg.maxChunkWords || c in SentencesOf(paras)
  {
    if |paras| > 0 {
      ChunkAllShapes(cfg, paras[1..]);
      assert ChunkAll(cfg, paras) == ChunkParagraph(cfg, paras[0]) + ChunkAll(cfg, paras[1..]);
    }
  }

  /** What `process` reports (its summary string is not modelled). */
  datatype Report = Report(rawLengthWords: nat, load: Load, expectedChunks: nat, actualChunks: nat, chunks: seq<string>)

  /** `process`: predict, split and count. */
  function Process(cfg: Config, filter: FillerFilter, raw: string): (r: Report)
    requires cfg.Valid()
    ensures r.rawLengthWords == |Words(raw)|
    ensures r.actualChunks == |r.chunks|
    ensures r.expectedChunks >= 1
    ensures forall k :: 0 <= k < |r.chunks| ==> r.chunks[k] != ""
    ensures FlatWords(r.chunks) == FlatWords(CleanParagraphs(filter, Paragraphs(raw)))
    ensures (r.load, r.expectedChunks) == PredictLoad(cfg, raw)
    ensures r.chunks == Split(cfg, filter, raw)
  {
    var (load, expected) := PredictLoad(cfg, raw);
    var chunks := Split(cfg, filter, raw);
    Report(|Words(raw)|, load, expected, |chunks|, chunks)
  }
}
