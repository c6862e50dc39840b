/** The string operations of Python's `str` that the utilities rely on,
    written over `seq<char>`: `isspace`, `lower` (ASCII letters), `strip`,
    `split()` into words, `split(sep)`, `splitlines()`, `[:n]` slicing,
    substring `in`, and `str(n)` for integers. */
module Text {
  import opened Wrappers

  /** Python's `str.isspace()` for a single character. */
  predicate IsSpace(c: char)
  {
    || c == ' '
    || ('\t' <= c <= '\r')               // \t \n \v \f \r
    || ('\U{1C}' <= c <= '\U{1F}')
    || c == '\U{85}' || c == '\U{A0}' || c == '\U{1680}'
    || ('\U{2000}' <= c <= '\U{200A}')
    || c == '\U{2028}' || c == '\U{2029}' || c == '\U{202F}'
    || c == '\U{205F}' || c == '\U{3000}'
  }

  /** The characters at which `str.splitlines()` ends a line. */
  predicate IsLineBreak(c: char)
  {
    || ('\n' <= c <= '\r')               // \n \v \f \r
    || ('\U{1C}' <= c <= '\U{1E}')
    || c == '\U{85}' || c == '\U{2028}' || c == '\U{2029}'
  }

  predicate IsUpper(c: char)
  {
    'A' <= c <= 'Z'
  }

  predicate IsDigit(c: char)
  {
    '0' <= c <= '9'
  }

  /** The sentence marks of the class `[.!?]`. */
  predicate IsTerminator(c: char)
  {
    c == '.' || c == '!' || c == '?'
  }

  /** The characters of the `\w` class, restricted to ASCII. */
  predicate IsWordChar(c: char)
  {
    ('a' <= c <= 'z') || IsUpper(c) || IsDigit(c) || c == '_'
  }

  function LowerChar(c: char): (r: char)
    ensures !IsUpper(r)
    ensures IsUpper(c) ==> r as int == c as int + 32
    ensures !IsUpper(c) ==> r == c
  {
    if IsUpper(c) then (c as int + 32) as char else c
  }

  /** `s.lower()`: every ASCII capital replaced by its small letter. */
  function Lower(s: string): (r: string)
    ensures |r| == |s|
    ensures forall i :: 0 <= i < |s| ==> r[i] == LowerChar(s[i])
  {
    seq(|s|, i requires 0 <= i < |s| => LowerChar(s[i]))
  }

  /** `sub in s`. */
  predicate Contains(s: string, sub: string)
    decreases |s|
  {
    sub <= s || (|s| > 0 && Contains(s[1..], sub))
  }

  /** `sub` occurs in `s` starting at offset `i`. */
  predicate OccursAt(s: string, sub: string, i: int)
  {
    0 <= i <= |s| - |sub| && s[i..i + |sub|] == sub
  }

  /** `sub in s` holds exactly when `sub` occurs at some offset of `s`. */
  lemma {:induction false} ContainsAt(s: string, sub: string)
    ensures Contains(s, sub) <==> exists i :: OccursAt(s, sub, i)
    decreases |s|
  {
    if sub <= s {
      assert OccursAt(s, sub, 0);
    } else if |s| > 0 {
      ContainsAt(s[1..], sub);
      if Contains(s[1..], sub) {
        var i :| OccursAt(s[1..], sub, i);
        OccursShift(s, sub, i);
      }
      if exists i :: OccursAt(s, sub, i) {
        var i :| OccursAt(s, sub, i);
        OccursUnshift(s, sub, i);
      }
    }
  }

  /** An occurrence in the tail is one in the whole string, one further on. */
  lemma OccursShift(s: string, sub: string, i: int)
    requires |s| > 0 && OccursAt(s[1..], sub, i)
    ensures OccursAt(s, sub, i + 1)
  {
    assert s[i + 1..i + 1 + |sub|] == s[1..][i..i + |sub|];
  }

  /** An occurrence that is not a prefix is one in the tail, one earlier. */
  lemma OccursUnshift(s: string, sub: string, i: int)
    requires !(sub <= s) && OccursAt(s, sub, i)
    ensures i > 0 && OccursAt(s[1..], sub, i - 1)
  {
    assert s[1..][i - 1..i - 1 + |sub|] == s[i..i + |sub|];
  }

  /** `any(w in s for w in words)`. */
  predicate ContainsAny(s: string, words: seq<string>)
  {
    exists i :: 0 <= i < |words| && Contains(s, words[i])
  }

  /** `s[:n]`. */
  function Take<T>(s: seq<T>, n: nat): (r: seq<T>)
    ensures |r| == if |s| <= n then |s| else n
    ensures r <= s
  {
    if |s| <= n then s else s[..n]
  }

  /** The position of the first occurrence of `x` in `xs`. */
  function IndexOf<T(==)>(xs: seq<T>, x: T): (i: nat)
    requires x in xs
    ensures i < |xs| && xs[i] == x
    ensures forall j :: 0 <= j < i ==> xs[j] != x
  {
    if xs[0] == x then 0 else 1 + IndexOf(xs[1..], x)
  }

  /** Concatenation regroups freely. */
  lemma ConcatAssoc<T>(a: seq<T>, b: seq<T>, c: seq<T>)
    ensures (a + b) + c == a + (b + c)
  {
  }

  /** The lists of `xs`, one after the other. */
  function Flatten<T>(xs: seq<seq<T>>): seq<T>
  {
    if |xs| == 0 then [] else xs[0] + Flatten(xs[1..])
  }

  /** The flattening is at least as long as any one of the lists. */
  lemma {:induction false} FlattenCovers<T>(xs: seq<seq<T>>, i: nat)
    requires i < |xs|
    ensures |Flatten(xs)| >= |xs[i]|
  {
    if i > 0 {
      FlattenCovers(xs[1..], i - 1);
    }
  }

  /** Only empty lists flatten to nothing. */
  lemma {:induction false} FlattenEmpty<T>(xs: seq<seq<T>>)
    requires forall k :: 0 <= k < |xs| ==> xs[k] == []
    ensures Flatten(xs) == []
  {
    if |xs| > 0 {
      FlattenEmpty(xs[1..]);
    }
  }

  /** When every list but one is empty, the flattening is that list. */
  lemma {:induction false} FlattenSingle<T>(xs: seq<seq<T>>, i: nat)
    requires i < |xs|
    requires forall k :: 0 <= k < |xs| && k != i ==> xs[k] == []
    ensures Flatten(xs) == xs[i]
  {
    if i > 0 {
      FlattenSingle(xs[1..], i - 1);
    } else {
      FlattenEmpty(xs[1..]);
    }
  }

  /** `xs[-n:]`: the last `n` elements, or all of them when there are fewer. */
  function Last<T>(xs: seq<T>, n: nat): (r: seq<T>)
    ensures |r| == if |xs| <= n then |xs| else n
    ensures r == xs[|xs| - |r|..]
  {
    if |xs| <= n then xs else xs[|xs| - n..]
  }

  /** `s.lstrip()`: the suffix left after dropping leading whitespace. */
  function LStrip(s: string): (r: string)
    ensures |r| <= |s| && r == s[|s| - |r|..]
    ensures |r| > 0 ==> !IsSpace(r[0])
    ensures forall i :: 0 <= i < |s| - |r| ==> IsSpace(s[i])
    decreases |s|
  {
    if |s| > 0 && IsSpace(s[0]) then LStrip(s[1..]) else s
  }

  /** `s.rstrip()`: the prefix left after dropping trailing whitespace. */
  function RStrip(s: string): (r: string)
    ensures |r| <= |s| && r == s[..|r|]
    ensures |r| > 0 ==> !IsSpace(r[|r| - 1])
    ensures forall i :: |r| <= i < |s| ==> IsSpace(s[i])
    decreases |s|
  {
    if |s| > 0 && IsSpace(s[|s| - 1]) then RStrip(s[..|s| - 1]) else s
  }

  /** `s.strip()`. */
  function Strip(s: string): (r: string)
    ensures |r| <= |s|
    ensures |r| > 0 ==> !IsSpace(r[0]) && !IsSpace(r[|r| - 1])
    ensures |s| > 0 && !IsSpace(s[0]) && !IsSpace(s[|s| - 1]) ==> r == s
  {
    RStrip(LStrip(s))
  }

  /** Length of the run of non-whitespace characters that starts `s`. */
  function WordLen(s: string): (n: nat)
    ensures n <= |s|
    ensures forall i :: 0 <= i < n ==> !IsSpace(s[i])
    ensures n < |s| ==> IsSpace(s[n])
    decreases |s|
  {
    if |s| == 0 || IsSpace(s[0]) then 0 else 1 + WordLen(s[1..])
  }

  /** `s.split()`: the maximal runs of non-whitespace characters, in order. */
  function Words(s: string): (r: seq<string>)
    ensures forall k :: 0 <= k < |r| ==> |r[k]| > 0
    decreases |s|
  {
    if |s| == 0 then []
    else if IsSpace(s[0]) then Words(s[1..])
    else [s[..WordLen(s)]] + Words(s[WordLen(s)..])
  }

  /** The length of the run of word characters at the start of `s`. */
  function TokenLen(s: string): (n: nat)
    ensures n <= |s|
    ensures forall i :: 0 <= i < n ==> IsWordChar(s[i])
    ensures n < |s| ==> !IsWordChar(s[n])
    decreases |s|
  {
    if |s| == 0 || !IsWordChar(s[0]) then 0 else 1 + TokenLen(s[1..])
  }

  /** `re.findall(r'\w+', s)`: the maximal runs of word characters, in order. */
  function Tokens(s: string): (r: seq<string>)
    ensures forall k :: 0 <= k < |r| ==> |r[k]| > 0
    ensures forall k, i :: 0 <= k < |r| && 0 <= i < |r[k]| ==> IsWordChar(r[k][i])
    decreases |s|
  {
    if |s| == 0 then []
    else if !IsWordChar(s[0]) then Tokens(s[1..])
    else
      var n := TokenLen(s);
      [s[..n]] + Tokens(s[n..])
  }

  /** A whitespace character separates: the words of `a + b` are the words
      of `a` followed by those of `b` whenever `b` starts with whitespace. */
  lemma {:induction false} WordsSplitAtSpace(a: string, b: string)
    requires |b| > 0 && IsSpace(b[0])
    ensures Words(a + b) == Words(a) + Words(b)
    decreases |a|
  {
    if |a| == 0 {
      assert a + b == b;
    } else if IsSpace(a[0]) {
      assert (a + b)[1..] == a[1..] + b;
      WordsSplitAtSpace(a[1..], b);
    } else {
      WordsSplitAtSpace(a[WordLen(a)..], b);
      WordsSplitWordStep(a, b);
    }
  }

  /** The step of `WordsSplitAtSpace` when `a` starts with a word. */
  lemma WordsSplitWordStep(a: string, b: string)
    requires |b| > 0 && IsSpace(b[0])
    requires |a| > 0 && !IsSpace(a[0])
    requires Words(a[WordLen(a)..] + b) == Words(a[WordLen(a)..]) + Words(b)
    ensures Words(a + b) == Words(a) + Words(b)
  {
    var n := WordLen(a);
    WordsFirstBeforeSpace(a, b);
    WordsFirst(a);
    ConcatAssoc([a[..n]], Words(a[n..]), Words(b));
  }

  /** The first word of `a + b` is that of `a` when `b` starts with whitespace. */
  lemma WordsFirstBeforeSpace(a: string, b: string)
    requires |b| > 0 && IsSpace(b[0])
    requires |a| > 0 && !IsSpace(a[0])
    ensures Words(a + b) == [a[..WordLen(a)]] + Words(a[WordLen(a)..] + b)
  {
    var n := WordLen(a);
    WordLenBeforeSpace(a, b);
    WordsFirst(a + b);
    SlicesOfConcat(a, b, n);
  }

  lemma SlicesOfConcat<T>(a: seq<T>, b: seq<T>, n: nat)
    requires n <= |a|
    ensures (a + b)[..n] == a[..n] && (a + b)[n..] == a[n..] + b
  {
  }

  /** The first word of a string that starts with one. */
  lemma WordsFirst(s: string)
    requires |s| > 0 && !IsSpace(s[0])
    ensures Words(s) == [s[..WordLen(s)]] + Words(s[WordLen(s)..])
  {
  }

  lemma {:induction false} WordLenBeforeSpace(a: string, b: string)
    requires |b| > 0 && IsSpace(b[0])
    ensures WordLen(a + b) == WordLen(a)
    decreases |a|
  {
    if |a| == 0 {
      assert a + b == b;
    } else if !IsSpace(a[0]) {
      assert (a + b)[1..] == a[1..] + b;
      WordLenBeforeSpace(a[1..], b);
    }
  }

  /** A string made only of whitespace has no words. */
  lemma {:induction false} WordsOfBlank(s: string)
    requires forall i :: 0 <= i < |s| ==> IsSpace(s[i])
    ensures Words(s) == []
    decreases |s|
  {
    if |s| > 0 {
      WordsOfBlank(s[1..]);
    }
  }

  /** Stripping never changes the words of a string. */
  lemma StripKeepsWords(s: string)
    ensures Words(Strip(s)) == Words(s)
  {
    LStripKeepsWords(s);
    RStripKeepsWords(LStrip(s));
  }

  lemma {:induction false} LStripKeepsWords(s: string)
    ensures Words(LStrip(s)) == Words(s)
    decreases |s|
  {
    if |s| > 0 && IsSpace(s[0]) {
      LStripKeepsWords(s[1..]);
    }
  }

  lemma RStripKeepsWords(s: string)
    ensures Words(RStrip(s)) == Words(s)
  {
    var r := RStrip(s);
    if |r| < |s| {
      var tail := s[|r|..];
      assert s == r + tail;
      WordsSplitAtSpace(r, tail);
      WordsOfBlank(tail);
    }
  }

  /** A string strips to nothing exactly when it has no words. */
  lemma {:induction false} StripEmptyIffNoWords(s: string)
    ensures Strip(s) == "" <==> Words(s) == []
  {
    StripKeepsWords(s);
    var r := Strip(s);
    if r != "" {
      assert !IsSpace(r[0]);
      assert Words(r) != [];
    }
  }

  /** `s.split(sep)` for a non-empty separator: the pieces between
      non-overlapping occurrences of `sep`, scanning left to right. */
  function SplitOn(s: string, sep: string): (r: seq<string>)
    requires |sep| > 0
    ensures |r| >= 1
    decreases |s|
  {
    if sep <= s then [""] + SplitOn(s[|sep|..], sep)
    else if |s| == 0 then [""]
    else
      var rest := SplitOn(s[1..], sep);
      [[s[0]] + rest[0]] + rest[1..]
  }

  /** `sep.join(parts)`. */
  function Join(parts: seq<string>, sep: string): string
    decreases |parts|
  {
    if |parts| == 0 then ""
    else if |parts| == 1 then parts[0]
    else parts[0] + sep + Join(parts[1..], sep)
  }

  lemma JoinCons(x: string, rest: seq<string>, sep: string)
    requires |rest| >= 1
    ensures Join([x] + rest, sep) == x + sep + Join(rest, sep)
  {
    assert ([x] + rest)[1..] == rest;
  }

  /** Splitting on a separator and joining back with it gives the string back. */
  lemma {:induction false} JoinSplitOn(s: string, sep: string)
    requires |sep| > 0
    ensures Join(SplitOn(s, sep), sep) == s
    decreases |s|
  {
    if sep <= s {
      JoinSplitOn(s[|sep|..], sep);
      JoinSplitOnSep(s, sep);
    } else if |s| > 0 {
      JoinSplitOn(s[1..], sep);
      JoinSplitOnChar(s, sep);
    }
  }

  lemma JoinSplitOnSep(s: string, sep: string)
    requires |sep| > 0 && sep <= s
    requires Join(SplitOn(s[|sep|..], sep), sep) == s[|sep|..]
    ensures Join(SplitOn(s, sep), sep) == s
  {
    var tail := s[|sep|..];
    var rest := SplitOn(tail, sep);
    calc {
      Join(SplitOn(s, sep), sep);
      { assert SplitOn(s, sep) == [""] + rest; }
      Join([""] + rest, sep);
      { JoinCons("", rest, sep); }
      "" + sep + Join(rest, sep);
      { EmptyConcat(sep, Join(rest, sep)); }
      sep + tail;
      { assert s[..|sep|] == sep; assert s == s[..|sep|] + tail; }
      s;
    }
  }

  lemma EmptyConcat(a: string, b: string)
    ensures "" + a + b == a + b
  {
  }

  lemma JoinSplitOnChar(s: string, sep: string)
    requires |sep| > 0 && !(sep <= s) && |s| > 0
    requires Join(SplitOn(s[1..], sep), sep) == s[1..]
    ensures Join(SplitOn(s, sep), sep) == s
  {
    JoinSplitOnCharStep(s, sep);
    ConsBack(s, Join(SplitOn(s, sep), sep), Join(SplitOn(s[1..], sep), sep));
  }

  /** A sequence whose head is put back in front of its tail is itself. */
  lemma ConsBack<T>(s: seq<T>, x: seq<T>, y: seq<T>)
    requires |s| > 0 && x == [s[0]] + y && y == s[1..]
    ensures x == s
  {
  }

  /** Where no separator starts, the first character goes in front of the
      join of the rest. */
  lemma JoinSplitOnCharStep(s: string, sep: string)
    requires |sep| > 0 && !(sep <= s) && |s| > 0
    ensures Join(SplitOn(s, sep), sep) == [s[0]] + Join(SplitOn(s[1..], sep), sep)
  {
    SplitOnChar(s, sep);
    JoinPrepend(s[0], SplitOn(s[1..], sep), sep);
  }

  /** Where no separator starts, the first character joins the first piece. */
  lemma SplitOnChar(s: string, sep: string)
    requires |sep| > 0 && !(sep <= s) && |s| > 0
    ensures SplitOn(s, sep) == [[s[0]] + SplitOn(s[1..], sep)[0]] + SplitOn(s[1..], sep)[1..]
  {
  }

  /** Gluing a character to the front of the first part glues it to the front of the join. */
  lemma JoinPrepend(c: char, rest: seq<string>, sep: string)
    requires |rest| >= 1
    ensures Join([[c] + rest[0]] + rest[1..], sep) == [c] + Join(rest, sep)
  {
    var x := [c] + rest[0];
    if |rest| > 1 {
      assert rest == [rest[0]] + rest[1..];
      var j := Join(rest[1..], sep);
      JoinCons(rest[0], rest[1..], sep);
      JoinCons(x, rest[1..], sep);
      assert x + sep + j == [c] + (rest[0] + sep + j);
    } else {
      assert [x] + rest[1..] == [x];
    }
  }

  /** The first position `i >= from` where a sentence mark is followed by
      whitespace: where the lookbehind `(?<=[.!?])\s+` can start. */
  function FirstBreak(s: string, from: nat): (r: Option<nat>)
    requires 1 <= from <= |s|
    ensures r.Some? ==> from <= r.value < |s| && BreakAt(s, r.value)
    ensures r.Some? ==> forall i :: from <= i < r.value ==> !BreakAt(s, i)
    ensures r.None? ==> forall i :: from <= i < |s| ==> !BreakAt(s, i)
    decreases |s| - from
  {
    if from == |s| then None
    else if BreakAt(s, from) then Some(from)
    else FirstBreak(s, from + 1)
  }

  /** Position `i` follows a sentence mark and holds whitespace. */
  predicate BreakAt(s: string, i: int)
  {
    1 <= i < |s| && IsTerminator(s[i - 1]) && IsSpace(s[i])
  }

  /** `re.split(r'(?<=[.!?])\s+', s)`: cut after each sentence mark that is
      followed by whitespace, dropping that whitespace. */
  function SplitSentences(s: string): (r: seq<string>)
    ensures |r| >= 1
    decreases |s|
  {
    if |s| == 0 then [s]
    else
      match FirstBreak(s, 1)
      case None => [s]
      case Some(i) => [s[..i]] + SplitSentences(LStrip(s[i..]))
  }

  /** Every piece but the last is non-empty and ends with a sentence mark. */
  predicate EndsAtMarks(r: seq<string>)
  {
    forall k :: 0 <= k < |r| - 1 ==> |r[k]| > 0 && IsTerminator(r[k][|r[k]| - 1])
  }

  /** Every piece but the last ends with the sentence mark it was cut after. */
  lemma {:induction false} SplitSentencesEndAtMarks(s: string)
    ensures EndsAtMarks(SplitSentences(s))
    decreases |s|
  {
    if |s| > 0 && FirstBreak(s, 1).Some? {
      var i := FirstBreak(s, 1).value;
      SplitSentencesEndAtMarks(LStrip(s[i..]));
      SplitSentencesEndAtMarksStep(s, i);
    }
  }

  lemma SplitSentencesEndAtMarksStep(s: string, i: nat)
    requires |s| > 0 && FirstBreak(s, 1) == Some(i)
    requires EndsAtMarks(SplitSentences(LStrip(s[i..])))
    ensures EndsAtMarks(SplitSentences(s))
  {
    SplitSentencesAtBreak(s, i);
    ConsEndsAtMarks(s[..i], SplitSentences(LStrip(s[i..])));
  }

  /** `SplitSentences` at its first break `i`: the text before it, then the
      pieces of the rest with its leading whitespace dropped. */
  lemma SplitSentencesAtBreak(s: string, i: nat)
    requires |s| > 0 && FirstBreak(s, 1) == Some(i)
    ensures SplitSentences(s) == [s[..i]] + SplitSentences(LStrip(s[i..]))
  {
  }

  lemma ConsEndsAtMarks(x: string, rest: seq<string>)
    requires |x| > 0 && IsTerminator(x[|x| - 1])
    requires EndsAtMarks(rest)
    ensures EndsAtMarks([x] + rest)
  {
    var r := [x] + rest;
    forall k | 0 <= k < |r| - 1
      ensures |r[k]| > 0 && IsTerminator(r[k][|r[k]| - 1])
    {
      if k > 0 {
        assert r[k] == rest[k - 1];
      }
    }
  }

  /** Length of the text before the first line break of `s` (or all of it). */
  function LineLen(s: string): (n: nat)
    ensures n <= |s|
    ensures forall i :: 0 <= i < n ==> !IsLineBreak(s[i])
    ensures n < |s| ==> IsLineBreak(s[n])
    decreases |s|
  {
    if |s| == 0 || IsLineBreak(s[0]) then 0 else 1 + LineLen(s[1..])
  }

  /** `s.splitlines()`: lines without their terminators, where "\r\n" ends one
      line and a final terminator does not open an empty line. */
  function SplitLines(s: string): (r: seq<string>)
    ensures forall k, i :: 0 <= k < |r| && 0 <= i < |r[k]| ==> !IsLineBreak(r[k][i])
    decreases |s|
  {
    if |s| == 0 then []
    else
      var n := LineLen(s);
      if n == |s| then [s]
      else if s[n] == '\r' && n + 1 < |s| && s[n + 1] == '\n' then [s[..n]] + SplitLines(s[n + 2..])
      else [s[..n]] + SplitLines(s[n + 1..])
  }

  function DigitChar(d: nat): (c: char)
    requires d < 10
    ensures IsDigit(c) && c as int == '0' as int + d
  {
    ('0' as int + d) as char
  }

  /** `str(n)` for a natural number: its decimal digits. */
  function NatToString(n: nat): (s: string)
    ensures |s| >= 1
    ensures n >= 10 <==> |s| >= 2
    ensures forall i :: 0 <= i < |s| ==> IsDigit(s[i])
    decreases n
  {
    if n < 10 then [DigitChar(n)] else NatToString(n / 10) + [DigitChar(n % 10)]
  }

  /** Different numbers print differently. */
  lemma {:induction false} NatToStringInjective(a: nat, b: nat)
    requires NatToString(a) == NatToString(b)
    ensures a == b
    decreases a
  {
    if a >= 10 && b >= 10 {
      var sa, sb := NatToString(a), NatToString(b);
      assert sa[|sa| - 1] == sb[|sb| - 1];
      assert sa[..|sa| - 1] == NatToString(a / 10);
      assert sb[..|sb| - 1] == NatToString(b / 10);
      NatToStringInjective(a / 10, b / 10);
    }
  }

  /** `str(n)` for any integer. */
  function IntToString(n: int): (s: string)
    ensures |s| >= 1
    ensures n < 0 <==> s[0] == '-'
  {
    if n < 0 then "-" + NatToString(-n) else NatToString(n)
  }
}
