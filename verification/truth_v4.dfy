/** `TruthChecker` version 4 of PROCESS/TRUTH.py: quick by default, full on
    request or on any repeated call. Each call starts from empty finding
    lists; a claim is any sentence of more than 15 characters on a line that
    is not blank, a heading, a code fence or a quote; a claim is contradicted
    at most once; and the report is a one-line quick read or a full
    diagnostic that shows up to three contradictions with the remembered
    statement each resembles most. */
module TruthV4 {
  import opened Wrappers
  import opened Text
  import opened Difflib
  import opened TruthCommon

  /** Similarity above which a claim is compared with a remembered statement. */
  const MatchCutoff: real := 0.76
  /** Similarity the negation flip also needs. */
  const NegationCutoff: real := 0.65
  /** Similarity the number flip also needs. */
  const NumberCutoff: real := 0.68
  /** Claims must be longer than this many characters. */
  const MinClaimLen: nat := 15
  /** How much of the output is searched for a trigger word. */
  const TriggerWindow: nat := 120
  const ShownContradictions: nat := 3
  const ShownDriftIssues: nat := 2
  /** How many characters of a shown claim and of its remembered statement are printed. */
  const ClaimPreview: nat := 90
  const HistPreview: nat := 70

  /** The words that ask for the full report. */
  const Triggers: seq<string> :=
    ["again", "deeper", "full", "detailed", "explain", "diagnostic",
     "health", "report", "check yourself", "why", "truth on truth"]

  /** `n ** 0.4` for the number of claims `n >= 1`. Floating-point powers are
      not modelled; only positivity is assumed, which keeps the divisions in
      `_reflect` defined. */
  type Root = nat -> real

  ghost predicate RootPositive(root: Root)
  {
    forall n: nat :: n >= 1 ==> root(n) > 0.0
  }

  /** Whether the identity-drift pattern with the given index (0, 1 or 2)
      matches a string. The regular expressions are not modelled. */
  type DriftMatcher = (nat, string) -> bool

  const DriftPatterns: nat := 3

  /** The contents of `last_summary`: the quick read or the short full-mode line. */
  datatype Summary =
    | QuickSummary(q: QuickRead)
    | FullSummary(grade: Grade, score: int)

  /** A quick report: grade, score, counts and the low-confidence note. */
  datatype QuickRead = QuickRead(grade: Grade, score: int, contradictions: nat, unverified: nat, lowConf: bool)

  /** One contradiction shown in full mode: line, claim (stripped, first 90
      characters) and the most similar remembered statement (stripped, first
      70 characters) unless that is empty. */
  datatype Shown = Shown(line: nat, claim: string, hist: Option<string>)

  datatype Report =
    | Quick(q: QuickRead)
    | Full(score: int, grade: Grade, contradictions: nat, shown: seq<Shown>, unverified: nat,
           drift: seq<nat>, tension: bool, recommend: bool, previous: Option<Summary>)

  datatype Checker = Checker(hist: seq<string>, lat: Lattice, debug: bool,
                             contradictions: seq<Claim>, unverified: seq<Claim>, verified: seq<string>,
                             checkCount: nat, lastSummary: Option<Summary>)
  {
    /** A summary is remembered exactly once the checker has been called. */
    predicate Valid()
    {
      checkCount == 0 <==> lastSummary.None?
    }
  }

  /** `__init__`: the last five remembered statements (none for an empty
      history), no findings, no calls yet. */
  function New(hist: seq<string>, lat: Lattice, debug: bool): (c: Checker)
    ensures c.Valid()
    ensures |c.hist| == if |hist| < HistCap then |hist| else HistCap
    ensures hist == hist[..|hist| - |c.hist|] + c.hist
    ensures c.lat == lat && c.debug == debug && c.checkCount == 0
    ensures c.contradictions == [] && c.unverified == [] && c.verified == []
  {
    var h := if hist != [] then Last(hist, HistCap) else [];
    assert hist == hist[..|hist| - |h|] + hist[|hist| - |h|..];
    Checker(h, lat, debug, [], [], [], 0, None)
  }

  // ---------------------------------------------------------------- _extract_claims

  /** Lines `_extract_claims` passes over once stripped: blank lines, and those
      starting with `#`, a code fence or `>`. */
  predicate Skipped(line: string)
  {
    line == "" || "#" <= line || "```" <= line || ">" <= line
  }

  /** A claim `_extract_claims` can produce: stripped and longer than 15
      characters. */
  predicate LongTrimmed(s: string)
  {
    |s| > MinClaimLen && !IsSpace(s[0]) && !IsSpace(s[|s| - 1])
  }

  /** Every claim in `r` is long enough and stripped, and comes from a line
      numbered from `lo` up to but not including `hi`. */
  predicate ClaimsIn(r: seq<Claim>, lo: nat, hi: nat)
  {
    forall k :: 0 <= k < |r| ==> lo <= r[k].line < hi && LongTrimmed(r[k].text)
  }

  /** `text` is one of `sents`, stripped, and longer than 15 characters. */
  ghost predicate FromSentence(sents: seq<string>, text: string)
  {
    exists s :: s in sents && Strip(s) == text && |text| > MinClaimLen
  }

  /** The sentences of one line that are long enough, stripped and tagged. */
  function SentenceClaims(sents: seq<string>, lineNo: nat): (r: seq<Claim>)
    ensures ClaimsIn(r, lineNo, lineNo + 1)
    ensures |r| <= |sents|
  {
    if |sents| == 0 then []
    else
      var s := Strip(sents[0]);
      var rest := SentenceClaims(sents[1..], lineNo);
      if |s| > MinClaimLen then
        OneClaim(sents[0], lineNo);
        ClaimsConcat([Claim(s, lineNo)], rest, lineNo, lineNo + 1);
        [Claim(s, lineNo)] + rest
      else rest
  }

  /** A claim is among the sentence claims exactly when it carries the line
      number and its text is a long-enough stripped sentence. */
  lemma {:induction false} SentenceClaimsMembers(sents: seq<string>, lineNo: nat, c: Claim)
    ensures c in SentenceClaims(sents, lineNo) <==> c.line == lineNo && FromSentence(sents, c.text)
    decreases |sents|
  {
    if |sents| > 0 {
      var s := Strip(sents[0]);
      var head := if |s| > MinClaimLen then [Claim(s, lineNo)] else [];
      var rest := SentenceClaims(sents[1..], lineNo);
      SentenceClaimsMembers(sents[1..], lineNo, c);
      SentenceClaimsCons(sents, lineNo);
      FromSentenceCons(sents, c.text);
      assert c in head + rest <==> c in head || c in rest;
      assert c in head <==> c.line == lineNo && c.text == s && |s| > MinClaimLen;
    } else {
      assert !FromSentence(sents, c.text);
    }
  }

  /** The claims of two runs of sentences are those of the first, then those
      of the second; a single sentence gives its stripped text exactly when
      that is longer than 15 characters. Together these fix every claim, its
      order and its repetitions. */
  lemma {:induction false} SentenceClaimsAppend(a: seq<string>, b: seq<string>, lineNo: nat)
    ensures SentenceClaims(a + b, lineNo) == SentenceClaims(a, lineNo) + SentenceClaims(b, lineNo)
    ensures |a| == 1 ==>
              SentenceClaims(a, lineNo) == if |Strip(a[0])| > MinClaimLen then [Claim(Strip(a[0]), lineNo)] else []
    decreases |a|
  {
    if |a| > 0 {
      var x := Strip(a[0]);
      var head := if |x| > MinClaimLen then [Claim(x, lineNo)] else [];
      assert (a + b)[0] == a[0] && (a + b)[1..] == a[1..] + b;
      SentenceClaimsCons(a + b, lineNo);
      SentenceClaimsCons(a, lineNo);
      SentenceClaimsAppend(a[1..], b, lineNo);
      assert SentenceClaims(a + b, lineNo) == head + (SentenceClaims(a[1..], lineNo) + SentenceClaims(b, lineNo));
      if |a| == 1 {
        assert SentenceClaims(a[1..], lineNo) == [];
      }
    } else {
      assert a + b == b;
    }
  }

  lemma SentenceClaimsCons(sents: seq<string>, lineNo: nat)
    requires |sents| > 0
    ensures var s := Strip(sents[0]);
            SentenceClaims(sents, lineNo)
              == (if |s| > MinClaimLen then [Claim(s, lineNo)] else []) + SentenceClaims(sents[1..], lineNo)
  {
  }

  /** A text comes from the sentences when it comes from the first or from the rest. */
  lemma FromSentenceCons(sents: seq<string>, text: string)
    requires |sents| > 0
    ensures FromSentence(sents, text) <==>
              (Strip(sents[0]) == text && |text| > MinClaimLen) || FromSentence(sents[1..], text)
  {
    if FromSentence(sents, text) {
      var t :| t in sents && Strip(t) == text && |text| > MinClaimLen;
      if t != sents[0] {
        assert t in sents[1..];
      }
    }
    if FromSentence(sents[1..], text) {
      var t :| t in sents[1..] && Strip(t) == text && |text| > MinClaimLen;
      assert t in sents;
    }
    if Strip(sents[0]) == text && |text| > MinClaimLen {
      assert sents[0] in sents;
    }
  }

  /** A sentence long enough once stripped makes a claim. */
  lemma OneClaim(sent: string, lineNo: nat)
    requires |Strip(sent)| > MinClaimLen
    ensures ClaimsIn([Claim(Strip(sent), lineNo)], lineNo, lineNo + 1)
  {
    var t := Strip(sent);
    assert LongTrimmed(t);
  }

  /** Concatenating claim lists that each keep to a line range. */
  lemma ClaimsConcat(a: seq<Claim>, b: seq<Claim>, lo: nat, hi: nat)
    requires ClaimsIn(a, lo, hi) && ClaimsIn(b, lo, hi)
    ensures ClaimsIn(a + b, lo, hi)
  {
    forall k | 0 <= k < |a + b|
      ensures lo <= (a + b)[k].line < hi && LongTrimmed((a + b)[k].text)
    {
      if k < |a| {
        assert (a + b)[k] == a[k];
      } else {
        assert (a + b)[k] == b[k - |a|];
      }
    }
  }

  /** Widening the range of line numbers keeps claims within it. */
  lemma ClaimsWiden(r: seq<Claim>, lo: nat, hi: nat, hi': nat)
    requires ClaimsIn(r, lo, hi) && hi <= hi'
    ensures ClaimsIn(r, lo, hi')
  {
  }

  /** Raising the lower bound of the range keeps claims within it. */
  lemma ClaimsLower(r: seq<Claim>, lo: nat, lo': nat, hi: nat)
    requires ClaimsIn(r, lo, hi) && lo' <= lo
    ensures ClaimsIn(r, lo', hi)
  {
  }

  /** The claims of `lines`, the first being line number `first`. */
  function ClaimsOfLines(lines: seq<string>, first: nat): (r: seq<Claim>)
    ensures ClaimsIn(r, first, first + |lines|)
  {
    if |lines| == 0 then []
    else
      var rest := ClaimsOfLines(lines[1..], first + 1);
      ClaimsLower(rest, first + 1, first, first + |lines|);
      if Skipped(Strip(lines[0])) then rest
      else
        var here := SentenceClaims(SplitSentences(Strip(lines[0])), first);
        ClaimsWiden(here, first, first + 1, first + |lines|);
        ClaimsConcat(here, rest, first, first + |lines|);
        here + rest
  }

  /** The line of every claim is one that `_extract_claims` does not skip. */
  lemma {:induction false} ClaimsOfLinesNotSkipped(lines: seq<string>, first: nat)
    ensures forall c :: c in ClaimsOfLines(lines, first) ==>
              first <= c.line < first + |lines| && !Skipped(Strip(lines[c.line - first]))
  {
    if |lines| > 0 {
      ClaimsOfLinesNotSkipped(lines[1..], first + 1);
      var rest := ClaimsOfLines(lines[1..], first + 1);
      forall c | c in rest
        ensures first <= c.line < first + |lines| && !Skipped(Strip(lines[c.line - first]))
      {
        assert lines[c.line - first] == lines[1..][c.line - (first + 1)];
      }
      if !Skipped(Strip(lines[0])) {
        var here := SentenceClaims(SplitSentences(Strip(lines[0])), first);
        assert ClaimsOfLines(lines, first) == here + rest;
        forall c | c in here
          ensures c.line == first
        {
          var k :| 0 <= k < |here| && here[k] == c;
        }
      }
    }
  }

  /** The claims of one line numbered `lineNo`: none when it is skipped,
      otherwise those of its sentences. */
  function LineClaims(line: string, lineNo: nat): (r: seq<Claim>)
    ensures Skipped(Strip(line)) ==> r == []
    ensures !Skipped(Strip(line)) ==> r == SentenceClaims(SplitSentences(Strip(line)), lineNo)
    ensures ClaimsIn(r, lineNo, lineNo + 1)
  {
    if Skipped(Strip(line)) then [] else SentenceClaims(SplitSentences(Strip(line)), lineNo)
  }



  /** The claims of the lines are their per-line claims one after the other. */
  lemma {:induction false} ClaimsOfLinesFlatten(lines: seq<string>, first: nat)
    ensures ClaimsOfLines(lines, first) == Flatten(PerLine(LineClaims, lines, first))
    decreases |lines|
  {
    if |lines| > 0 {
      ClaimsOfLinesFlatten(lines[1..], first + 1);
      PerLineCons(LineClaims, lines, first);
      assert ClaimsOfLines(lines, first) == LineClaims(lines[0], first) + ClaimsOfLines(lines[1..], first + 1);
    }
  }



  /** `_extract_claims`: the long-enough sentences of the lines that are not
      skipped, each stripped and tagged with its 1-based line number. */
  function ExtractClaims(output: string): (r: seq<Claim>)
    ensures forall k :: 0 <= k < |r| ==> 1 <= r[k].line <= |SplitLines(output)| && LongTrimmed(r[k].text)
    ensures forall c :: c in r ==> !Skipped(Strip(SplitLines(output)[c.line - 1]))
  {
    ClaimsOfLinesNotSkipped(SplitLines(output), 1);
    ClaimsOfLines(SplitLines(output), 1)
  }

  /** The claims of line `n` are exactly that line's claims, in order, no
      other line has any, and the claims come in line order. */
  lemma ExtractClaimsByLine(output: string)
    ensures ByLine(ExtractClaims(output), PerLine(LineClaims, SplitLines(output), 1), 1)
    ensures LineOrdered(ExtractClaims(output))
  {
    var lines := SplitLines(output);
    ClaimsOfLinesFlatten(lines, 1);
    assert forall line, n: nat, k :: 0 <= k < |LineClaims(line, n)| ==> LineClaims(line, n)[k].line == n;
    PerLineNumbered(LineClaims, lines, 1);
    FlattenByLine(PerLine(LineClaims, lines, 1), 1);
  }

  /** A claim is extracted exactly when its line exists and is not skipped
      and its text is a long-enough stripped sentence of that line. */
  lemma ExtractClaimsMembers(output: string, c: Claim)
    ensures var lines := SplitLines(output);
            c in ExtractClaims(output) <==>
              && 1 <= c.line <= |lines|
              && !Skipped(Strip(lines[c.line - 1]))
              && FromSentence(SplitSentences(Strip(lines[c.line - 1])), c.text)
  {
    var lines := SplitLines(output);
    var want := PerLine(LineClaims, lines, 1);
    ExtractClaimsByLine(output);
    ByLineMembers(ExtractClaims(output), want, 1, c);
    if 1 <= c.line <= |lines| {
      assert want[c.line - 1] == LineClaims(lines[c.line - 1], c.line);
      LineMembers(lines[c.line - 1], c);
    }
  }

  /** A claim numbered like its line is among the line's claims exactly when
      the line is not skipped and the text is a long-enough stripped
      sentence of it. */
  lemma LineMembers(line: string, c: Claim)
    ensures c in LineClaims(line, c.line) <==>
              !Skipped(Strip(line)) && FromSentence(SplitSentences(Strip(line)), c.text)
  {
    if !Skipped(Strip(line)) {
      SentenceClaimsMembers(SplitSentences(Strip(line)), c.line, c);
    }
  }

  /** A line that is skipped yields no claim, whatever follows it. */
  lemma SkippedLineHasNoClaims(lines: seq<string>, first: nat)
    requires |lines| > 0 && Skipped(Strip(lines[0]))
    ensures ClaimsOfLines(lines, first) == ClaimsOfLines(lines[1..], first + 1)
  {
  }

  // ---------------------------------------------------------------- _opposing

  const Negations: set<string> := {"not", "no", "never", "isnt", "wasnt", "dont"}

  /** The antonym clusters: each word with the words it opposes. */
  const Antonyms: map<string, set<string>> :=
    map["good" := {"bad", "poor", "terrible", "awful"},
        "bad" := {"good", "great", "excellent"},
        "yes" := {"no", "not", "never"},
        "no" := {"yes"},
        "true" := {"false", "wrong", "incorrect"},
        "false" := {"true", "correct"},
        "high" := {"low", "small"},
        "low" := {"high"},
        "increase" := {"decrease", "reduce", "drop"},
        "decrease" := {"increase"},
        "start" := {"stop", "end", "finish"},
        "end" := {"start", "begin"},
        "happy" := {"sad", "unhappy"},
        "sad" := {"happy"}]

  /** The word tokens of the lowered string. */
  function LoweredTokens(s: string): seq<string>
  {
    Tokens(Lower(s))
  }

  predicate Negated(s: string)
  {
    exists w :: w in LoweredTokens(s) && w in Negations
  }

  /** Some cluster word is on one side and one of its opposites on the other. */
  predicate AntonymClash(s1: string, s2: string)
  {
    exists w :: w in Antonyms &&
      ((w in LoweredTokens(s1) && exists o :: o in Antonyms[w] && o in LoweredTokens(s2))
       || (w in LoweredTokens(s2) && exists o :: o in Antonyms[w] && o in LoweredTokens(s1)))
  }

  /** The length of the run of digits starting at `p`. */
  function DigitRun(s: string, p: nat): (n: nat)
    requires p <= |s|
    ensures p + n <= |s|
    ensures forall i :: p <= i < p + n ==> IsDigit(s[i])
    ensures p + n < |s| ==> !IsDigit(s[p + n])
    decreases |s| - p
  {
    if p == |s| || !IsDigit(s[p]) then 0 else 1 + DigitRun(s, p + 1)
  }

  /** The length of the match of `\d{4}(?:-\d{2}-\d{2})?|\d+\.?\d*` at a
      digit: four digits with an optional `-dd-dd` date tail when four digits
      are there, otherwise the digits with an optional decimal part. */
  function NumberLen(s: string, p: nat): (n: nat)
    requires p < |s| && IsDigit(s[p])
    ensures 1 <= n <= |s| - p
  {
    if p + 4 <= |s| && DigitRun(s, p) >= 4 then
      if p + 10 <= |s| && s[p + 4] == '-' && IsDigit(s[p + 5]) && IsDigit(s[p + 6])
         && s[p + 7] == '-' && IsDigit(s[p + 8]) && IsDigit(s[p + 9]) then 10
      else 4
    else
      var d := DigitRun(s, p);
      if p + d < |s| && s[p + d] == '.' then d + 1 + DigitRun(s, p + d + 1) else d
  }

  /** `re.findall` of the number pattern, scanning from `p`. */
  function NumbersFrom(s: string, p: nat): (r: seq<string>)
    requires p <= |s|
    ensures forall k :: 0 <= k < |r| ==> |r[k]| > 0 && IsDigit(r[k][0])
    ensures r == [] <==> forall i :: p <= i < |s| ==> !IsDigit(s[i])
    decreases |s| - p
  {
    if p == |s| then []
    else if IsDigit(s[p]) then
      var n := NumberLen(s, p);
      [s[p..p + n]] + NumbersFrom(s, p + n)
    else NumbersFrom(s, p + 1)
  }

  function Numbers(s: string): seq<string>
  {
    NumbersFrom(s, 0)
  }

  /** Every character of `t` is a digit. */
  predicate AllDigits(t: string)
  {
    forall i :: 0 <= i < |t| ==> IsDigit(t[i])
  }

  /** Four digits start at `p`. */
  predicate FourDigitsAt(s: string, p: nat)
  {
    p + 4 <= |s| && AllDigits(s[p..p + 4])
  }

  /** `t` is matched by `\d{4}-\d{2}-\d{2}`. */
  predicate IsDate(t: string)
  {
    |t| == 10 && AllDigits(t[..4]) && t[4] == '-' && AllDigits(t[5..7]) && t[7] == '-' && AllDigits(t[8..])
  }

  /** `t` is matched by `\d+\.?\d*`: digits, then possibly a point and
      more digits. */
  ghost predicate IsDecimal(t: string)
  {
    exists w :: 1 <= w <= |t| && AllDigits(t[..w]) && (w == |t| || (t[w] == '.' && AllDigits(t[w + 1..])))
  }

  /** `s[p..p + m]` is a decimal. */
  ghost predicate DecimalAt(s: string, p: nat, m: nat)
  {
    p + m <= |s| && IsDecimal(s[p..p + m])
  }

  /** The match of the number pattern at a digit, as a regular expression
      engine finds it: the first alternative whenever four digits are there,
      with the date tail when one follows; otherwise the longest decimal. */
  lemma NumberLenMatches(s: string, p: nat)
    requires p < |s| && IsDigit(s[p])
    ensures FourDigitsAt(s, p) ==>
              NumberLen(s, p) == if p + 10 <= |s| && IsDate(s[p..p + 10]) then 10 else 4
    ensures !FourDigitsAt(s, p) ==>
              && DecimalAt(s, p, NumberLen(s, p))
              && forall m :: NumberLen(s, p) < m ==> !DecimalAt(s, p, m)
  {
    FourDigitsRun(s, p);
    if FourDigitsAt(s, p) {
      if p + 10 <= |s| {
        DateAt(s, p);
      }
    } else {
      DecimalMatch(s, p);
    }
  }

  lemma FourDigitsRun(s: string, p: nat)
    requires p <= |s|
    ensures FourDigitsAt(s, p) <==> p + 4 <= |s| && DigitRun(s, p) >= 4
  {
    if p + 4 <= |s| {
      var t := s[p..p + 4];
      var d := DigitRun(s, p);
      assert forall i :: 0 <= i < 4 ==> t[i] == s[p + i];
      assert d < 4 ==> t[d] == s[p + d];
    }
  }

  lemma DateAt(s: string, p: nat)
    requires p + 10 <= |s|
    requires FourDigitsAt(s, p)
    ensures IsDate(s[p..p + 10]) <==>
              s[p + 4] == '-' && IsDigit(s[p + 5]) && IsDigit(s[p + 6])
              && s[p + 7] == '-' && IsDigit(s[p + 8]) && IsDigit(s[p + 9])
  {
    var t := s[p..p + 10];
    assert t[..4] == s[p..p + 4];
    var a, b := t[5..7], t[8..];
    assert |a| == 2 && a[0] == s[p + 5] && a[1] == s[p + 6];
    assert |b| == 2 && b[0] == s[p + 8] && b[1] == s[p + 9];
    assert AllDigits(a) <==> IsDigit(a[0]) && IsDigit(a[1]);
    assert AllDigits(b) <==> IsDigit(b[0]) && IsDigit(b[1]);
  }

  /** Without four digits at `p`, the model's length is a decimal match and
      no longer one exists. */
  lemma DecimalMatch(s: string, p: nat)
    requires p < |s| && IsDigit(s[p]) && !FourDigitsAt(s, p)
    ensures DecimalAt(s, p, NumberLen(s, p))
    ensures forall m :: NumberLen(s, p) < m ==> !DecimalAt(s, p, m)
  {
    FourDigitsRun(s, p);
    var n := NumberLen(s, p);
    var d := DigitRun(s, p);
    var t := s[p..p + n];
    assert d >= 1;
    forall i | 0 <= i < d
      ensures t[..d][i] == s[p + i]
    {
    }
    assert AllDigits(t[..d]);
    if p + d < |s| && s[p + d] == '.' {
      var e := DigitRun(s, p + d + 1);
      assert t[d] == '.';
      var v := t[d + 1..];
      forall i | 0 <= i < |v|
        ensures v[i] == s[p + d + 1 + i]
      {
      }
      assert AllDigits(v);
    }
    assert IsDecimal(t);
    forall m | DecimalAt(s, p, m)
      ensures m <= n
    {
      DecimalBound(s, p, m);
    }
  }

  /** A decimal match at `p` is no longer than the model's. */
  lemma DecimalBound(s: string, p: nat, m: nat)
    requires p < |s| && IsDigit(s[p]) && !FourDigitsAt(s, p)
    requires DecimalAt(s, p, m)
    ensures m <= NumberLen(s, p)
  {
    var u := s[p..p + m];
    var w :| 1 <= w <= |u| && AllDigits(u[..w]) && (w == |u| || (u[w] == '.' && AllDigits(u[w + 1..])));
    assert u[..w] == s[p..p + w];
    if w < m {
      assert u[w] == s[p + w];
      assert u[w + 1..] == s[p + w + 1..p + m];
    }
    DecimalSplitBound(s, p, m, w);
  }

  /** A decimal of `m` characters at `p` whose integer part has `w` digits
      is no longer than the model's match. */
  lemma DecimalSplitBound(s: string, p: nat, m: nat, w: nat)
    requires p < |s| && IsDigit(s[p]) && !FourDigitsAt(s, p)
    requires 1 <= w <= m && p + m <= |s| && AllDigits(s[p..p + w])
    requires w == m || (s[p + w] == '.' && AllDigits(s[p + w + 1..p + m]))
    ensures m <= NumberLen(s, p)
  {
    FourDigitsRun(s, p);
    RunBound(s, p, w);
    if w < m {
      assert w == DigitRun(s, p);
      RunBound(s, p + w + 1, m - w - 1);
    }
  }

  /** A run of `w` digits at `p` is no longer than the maximal one. */
  lemma {:induction false} RunBound(s: string, p: nat, w: nat)
    requires p + w <= |s| && AllDigits(s[p..p + w])
    ensures w <= DigitRun(s, p)
    decreases w
  {
    if w > 0 {
      assert s[p..p + w][0] == s[p];
      assert s[p + 1..p + w] == s[p..p + w][1..];
      RunBound(s, p + 1, w - 1);
    }
  }

  /** No digit in `s[a..b]`. */
  predicate NoDigitIn(s: string, a: nat, b: nat)
  {
    forall i :: a <= i < b && i < |s| ==> !IsDigit(s[i])
  }

  /** `r` is what `re.findall` of the number pattern finds scanning from `p`:
      each span starts at the first digit after the previous one ends and is
      the match there, and no digit follows the last. */
  predicate NumberScan(s: string, p: nat, r: seq<(nat, nat)>)
  {
    && (forall k :: 0 <= k < |r| ==>
          p <= r[k].0 < |s| && IsDigit(s[r[k].0]) && r[k].1 == r[k].0 + NumberLen(s, r[k].0))
    && (|r| > 0 ==> NoDigitIn(s, p, r[0].0))
    && (forall k :: 0 <= k < |r| - 1 ==> r[k].1 <= r[k + 1].0 && NoDigitIn(s, r[k].1, r[k + 1].0))
    && NoDigitIn(s, if |r| == 0 then p else r[|r| - 1].1, |s|)
  }

  /** The spans of the numbers `NumbersFrom` finds. */
  function NumberSpans(s: string, p: nat): (r: seq<(nat, nat)>)
    requires p <= |s|
    decreases |s| - p
  {
    if p == |s| then []
    else if IsDigit(s[p]) then [(p, p + NumberLen(s, p))] + NumberSpans(s, p + NumberLen(s, p))
    else NumberSpans(s, p + 1)
  }

  /** The spans are a scan of the number pattern. */
  lemma {:induction false} NumberSpansScan(s: string, p: nat)
    requires p <= |s|
    ensures NumberScan(s, p, NumberSpans(s, p))
    decreases |s| - p, 1
  {
    if p < |s| {
      if IsDigit(s[p]) {
        NumberSpansScanAtDigit(s, p);
      } else {
        NumberSpansScan(s, p + 1);
        assert NumberSpans(s, p) == NumberSpans(s, p + 1);
        NumberScanSkip(s, p, NumberSpans(s, p));
      }
    }
  }

  lemma {:induction false} NumberSpansScanAtDigit(s: string, p: nat)
    requires p < |s| && IsDigit(s[p])
    ensures NumberScan(s, p, NumberSpans(s, p))
    decreases |s| - p, 0
  {
    var n := NumberLen(s, p);
    var rest := NumberSpans(s, p + n);
    NumberSpansScan(s, p + n);
    assert NumberSpans(s, p) == [(p, p + n)] + rest;
    NumberScanCons(s, p, rest, NumberSpans(s, p));
  }

  lemma NumberScanCons(s: string, p: nat, rest: seq<(nat, nat)>, r: seq<(nat, nat)>)
    requires p < |s| && IsDigit(s[p])
    requires NumberScan(s, p + NumberLen(s, p), rest)
    requires r == [(p, p + NumberLen(s, p))] + rest
    ensures NumberScan(s, p, r)
  {
    forall k | 0 <= k < |r|
      ensures p <= r[k].0 < |s| && IsDigit(s[r[k].0]) && r[k].1 == r[k].0 + NumberLen(s, r[k].0)
    {
      if k > 0 {
        assert r[k] == rest[k - 1];
      }
    }
    forall k | 0 <= k < |r| - 1
      ensures r[k].1 <= r[k + 1].0 && NoDigitIn(s, r[k].1, r[k + 1].0)
    {
      assert r[k + 1] == rest[k];
      if k > 0 {
        assert r[k] == rest[k - 1];
      }
    }
    if |rest| > 0 {
      assert r[|r| - 1] == rest[|rest| - 1];
    }
  }

  lemma NumberScanSkip(s: string, p: nat, r: seq<(nat, nat)>)
    requires p < |s| && !IsDigit(s[p])
    requires NumberScan(s, p + 1, r)
    ensures NumberScan(s, p, r)
  {
  }

  /** A number scan from `p` is determined: `NumberScan` defines it. */
  lemma {:induction false} NumberScanUnique(s: string, p: nat, r1: seq<(nat, nat)>, r2: seq<(nat, nat)>)
    requires NumberScan(s, p, r1) && NumberScan(s, p, r2)
    ensures r1 == r2
    decreases |r1|
  {
    ScanEmpty(s, p, r1);
    ScanEmpty(s, p, r2);
    if |r1| > 0 && |r2| > 0 {
      FirstSpanAgree(s, p, r1, r2);
      NumberScanTail(s, p, r1);
      NumberScanTail(s, p, r2);
      NumberScanUnique(s, r1[0].1, r1[1..], r2[1..]);
      HeadTailEqual(r1, r2);
    }
  }

  lemma ScanEmpty(s: string, p: nat, r: seq<(nat, nat)>)
    requires NumberScan(s, p, r)
    ensures |r| == 0 <==> NoDigitIn(s, p, |s|)
  {
    if |r| > 0 {
      var i := r[0].0;
      assert p <= i < |s| && IsDigit(s[i]);
    }
  }

  lemma FirstSpanAgree(s: string, p: nat, r1: seq<(nat, nat)>, r2: seq<(nat, nat)>)
    requires NumberScan(s, p, r1) && NumberScan(s, p, r2)
    requires |r1| > 0 && |r2| > 0
    ensures r1[0] == r2[0]
  {
    var a, b := r1[0].0, r2[0].0;
    assert IsDigit(s[a]) && IsDigit(s[b]);
    assert NoDigitIn(s, p, a) && NoDigitIn(s, p, b);
    assert !(a < b) && !(b < a);
  }

  lemma HeadTailEqual<T>(a: seq<T>, b: seq<T>)
    requires |a| > 0 && |b| > 0 && a[0] == b[0] && a[1..] == b[1..]
    ensures a == b
  {
    assert a == [a[0]] + a[1..];
    assert b == [b[0]] + b[1..];
  }

  /** The spans after the first are a scan from where the first ends. */
  lemma NumberScanTail(s: string, p: nat, r: seq<(nat, nat)>)
    requires |r| > 0 && NumberScan(s, p, r)
    ensures NumberScan(s, r[0].1, r[1..])
  {
    var t := r[1..];
    forall k | 0 <= k < |t|
      ensures r[0].1 <= t[k].0
    {
      NumberScanMono(s, p, r, 0, k + 1);
    }
    if |t| > 0 {
      assert t[|t| - 1] == r[|r| - 1];
    }
  }

  lemma {:induction false} NumberScanMono(s: string, p: nat, r: seq<(nat, nat)>, i: nat, j: nat)
    requires NumberScan(s, p, r)
    requires i < j < |r|
    ensures r[i].1 <= r[j].0
    decreases j - i
  {
    if j > i + 1 {
      NumberScanMono(s, p, r, i, j - 1);
    }
  }

  /** For whatever scan of the number pattern from `p`, the numbers are
      exactly the texts of its spans, in order. */
  lemma NumbersFromScan(s: string, p: nat, spans: seq<(nat, nat)>)
    requires p <= |s| && NumberScan(s, p, spans)
    ensures |NumbersFrom(s, p)| == |spans|
    ensures forall k :: 0 <= k < |spans| ==> NumbersFrom(s, p)[k] == s[spans[k].0..spans[k].1]
  {
    NumberSpansScan(s, p);
    NumberScanUnique(s, p, spans, NumberSpans(s, p));
    NumbersFromSpans(s, p);
  }

  /** `texts` are the texts of `spans` in `s`, in order. */
  predicate SpanTexts(s: string, spans: seq<(nat, nat)>, texts: seq<string>)
  {
    && |texts| == |spans|
    && forall k :: 0 <= k < |spans| ==>
         spans[k].0 <= spans[k].1 <= |s| && texts[k] == s[spans[k].0..spans[k].1]
  }

  lemma SpanTextsCons(s: string, sp: (nat, nat), spans: seq<(nat, nat)>, text: string, texts: seq<string>)
    requires sp.0 <= sp.1 <= |s| && text == s[sp.0..sp.1]
    requires SpanTexts(s, spans, texts)
    ensures SpanTexts(s, [sp] + spans, [text] + texts)
  {
  }

  lemma {:induction false} NumbersFromSpans(s: string, p: nat)
    requires p <= |s|
    ensures SpanTexts(s, NumberSpans(s, p), NumbersFrom(s, p))
    decreases |s| - p
  {
    if p < |s| {
      if IsDigit(s[p]) {
        var n := NumberLen(s, p);
        NumbersFromSpans(s, p + n);
        var a, b := NumbersFrom(s, p + n), NumberSpans(s, p + n);
        assert NumbersFrom(s, p) == [s[p..p + n]] + a;
        assert NumberSpans(s, p) == [(p, p + n)] + b;
        SpanTextsCons(s, (p, p + n), b, s[p..p + n], a);
      } else {
        NumbersFromSpans(s, p + 1);
        assert NumbersFrom(s, p) == NumbersFrom(s, p + 1);
        assert NumberSpans(s, p) == NumberSpans(s, p + 1);
      }
    }
  }


  /** Both sides mention numbers, not the same set of them, and they are
      alike enough. */
  predicate NumberFlip(ratio: Ratio, s1: string, s2: string)
  {
    var n1 := Numbers(s1);
    var n2 := Numbers(s2);
    n1 != [] && n2 != [] && (set x | x in n1) != (set x | x in n2) && LoweredRatio(ratio, s1, s2) > NumberCutoff
  }

  /** `_opposing`: a negation flip between alike sentences, an antonym clash,
      or a number flip between alike sentences. */
  predicate Opposing(ratio: Ratio, s1: string, s2: string)
  {
    || (Negated(s1) != Negated(s2) && LoweredRatio(ratio, s1, s2) > NegationCutoff)
    || AntonymClash(s1, s2)
    || NumberFlip(ratio, s1, s2)
  }

  /** The antonym clusters are consulted in both directions. */
  lemma AntonymClashSymmetric(s1: string, s2: string)
    ensures AntonymClash(s1, s2) <==> AntonymClash(s2, s1)
  {
  }

  /** Below the negation cutoff only the antonym clusters can oppose: the
      negation flip and the number flip both need more similarity. */
  lemma DissimilarOnlyAntonyms(ratio: Ratio, s1: string, s2: string)
    requires LoweredRatio(ratio, s1, s2) <= NegationCutoff
    ensures Opposing(ratio, s1, s2) <==> AntonymClash(s1, s2)
  {
  }

  /** With no numbers on one side there is no number flip. */
  lemma NoDigitsNoNumberFlip(ratio: Ratio, s1: string, s2: string)
    requires forall i :: 0 <= i < |s1| ==> !IsDigit(s1[i])
    ensures !NumberFlip(ratio, s1, s2) && !NumberFlip(ratio, s2, s1)
  {
  }

  // ---------------------------------------------------------------- _reflect

  /** `_fuzzy_match(claim, past) > 0.76 and _opposing(claim, past)`. */
  predicate Contradicts(ratio: Ratio, claim: string, past: string)
  {
    LoweredRatio(ratio, claim, past) > MatchCutoff && Opposing(ratio, claim, past)
  }

  /** A test of a claim against a remembered statement. */
  type Pairing = (string, string) -> bool

  /** The test the inner loop of `_reflect` applies. */
  function ContradictionTest(ratio: Ratio): (t: Pairing)
    ensures forall claim, past :: t(claim, past) == Contradicts(ratio, claim, past)
  {
    (claim: string, past: string) => Contradicts(ratio, claim, past)
  }

  /** The inner loop over the remembered statements, which stops at the first
      one the claim contradicts. */
  function AnyContradicted(contradicts: Pairing, hist: seq<string>, claim: string): (b: bool)
    ensures b <==> exists j :: 0 <= j < |hist| && contradicts(claim, hist[j])
  {
    if |hist| == 0 then false
    else if contradicts(claim, hist[0]) then true
    else
      var b := AnyContradicted(contradicts, hist[1..], claim);
      assert forall j :: 1 <= j < |hist| ==> hist[j] == hist[1..][j - 1];
      b
  }

  /** `emotional_doubt`. */
  function EmotionalDoubt(lat: Lattice): real
  {
    LatGet(lat, "frustr", 0.0) * 18.0 + LatGet(lat, "ache", 0.0) * 14.0 + (1.0 - LatGet(lat, "conf", 1.0)) * 22.0
  }

  /** The surprise or confidence reading that makes every claim unverified. */
  predicate Unsure(lat: Lattice)
  {
    LatGet(lat, "surprise", 0.0) > 0.3 || LatGet(lat, "conf", 1.0) < 0.62
  }

  /** `int(x)`: truncation toward zero. */
  function Trunc(x: real): (r: int)
    ensures x >= 0.0 ==> r as real <= x < r as real + 1.0
    ensures x < 0.0 ==> r as real - 1.0 < x <= r as real
    ensures r >= 0 <==> x > -1.0
  {
    if x >= 0.0 then x.Floor else -((-x).Floor)
  }

  /** The running state of the loop of `_reflect`. */
  datatype Tally = Tally(contradictions: seq<Claim>, unverified: seq<Claim>, score: real)

  /** What the inner loop adds for one claim: the claim once if it
      contradicts some remembered statement, nothing otherwise. */
  function Hit(contradicts: Pairing, hist: seq<string>, c: Claim): (r: seq<Claim>)
    ensures |r| <= 1
    ensures r == [c] <==> AnyContradicted(contradicts, hist, c.text)
  {
    if AnyContradicted(contradicts, hist, c.text) then [c] else []
  }

  /** The claims that contradict some remembered statement, each once, in
      the order of the claims. */
  function Contradicted(contradicts: Pairing, hist: seq<string>, claims: seq<Claim>): (r: seq<Claim>)
    ensures |r| <= |claims|
  {
    if |claims| == 0 then [] else Hit(contradicts, hist, claims[0]) + Contradicted(contradicts, hist, claims[1..])
  }

  /** A claim is among the contradicted ones exactly when it contradicts some
      remembered statement; when all or none do, the list is all or none of
      the claims. */
  lemma {:induction false} ContradictedExactly(contradicts: Pairing, hist: seq<string>, claims: seq<Claim>)
    ensures forall c :: c in Contradicted(contradicts, hist, claims) <==>
              c in claims && exists j :: 0 <= j < |hist| && contradicts(c.text, hist[j])
    ensures (forall i :: 0 <= i < |claims| ==> AnyContradicted(contradicts, hist, claims[i].text))
            ==> Contradicted(contradicts, hist, claims) == claims
    ensures (forall i :: 0 <= i < |claims| ==> !AnyContradicted(contradicts, hist, claims[i].text))
            ==> Contradicted(contradicts, hist, claims) == []
  {
    ContradictedMembers(contradicts, hist, claims);
    if forall i :: 0 <= i < |claims| ==> AnyContradicted(contradicts, hist, claims[i].text) {
      ContradictedAll(contradicts, hist, claims);
    }
    if forall i :: 0 <= i < |claims| ==> !AnyContradicted(contradicts, hist, claims[i].text) {
      ContradictedNone(contradicts, hist, claims);
    }
  }

  lemma {:induction false} ContradictedMembers(contradicts: Pairing, hist: seq<string>, claims: seq<Claim>)
    ensures forall c :: c in Contradicted(contradicts, hist, claims) <==>
              c in claims && AnyContradicted(contradicts, hist, c.text)
  {
    if |claims| > 0 {
      ContradictedMembers(contradicts, hist, claims[1..]);
      ContradictedCons(contradicts, hist, claims);
      assert claims == [claims[0]] + claims[1..];
    }
  }

  lemma {:induction false} ContradictedAll(contradicts: Pairing, hist: seq<string>, claims: seq<Claim>)
    requires forall i :: 0 <= i < |claims| ==> AnyContradicted(contradicts, hist, claims[i].text)
    ensures Contradicted(contradicts, hist, claims) == claims
  {
    if |claims| > 0 {
      assert forall i :: 0 <= i < |claims| - 1 ==> claims[1..][i] == claims[i + 1];
      ContradictedAll(contradicts, hist, claims[1..]);
      ContradictedCons(contradicts, hist, claims);
      ConsBack(claims, Contradicted(contradicts, hist, claims), claims[1..]);
    }
  }

  lemma {:induction false} ContradictedNone(contradicts: Pairing, hist: seq<string>, claims: seq<Claim>)
    requires forall i :: 0 <= i < |claims| ==> !AnyContradicted(contradicts, hist, claims[i].text)
    ensures Contradicted(contradicts, hist, claims) == []
  {
    if |claims| > 0 {
      assert forall i :: 0 <= i < |claims| - 1 ==> claims[1..][i] == claims[i + 1];
      ContradictedNone(contradicts, hist, claims[1..]);
      ContradictedCons(contradicts, hist, claims);
    }
  }

  /** One pass of the loop of `_reflect`, with penalties `cp` and `up` per
      contradicted and per unverified claim. */
  function Step(contradicts: Pairing, hist: seq<string>, lat: Lattice, cp: real, up: real, c: Claim, t: Tally): (r: Tally)
    ensures r.contradictions == t.contradictions + Hit(contradicts, hist, c)
    ensures r.unverified == t.unverified + (if Unsure(lat) then [c] else [])
    ensures r.score == t.score - Times(|Hit(contradicts, hist, c)|, cp) - Times(if Unsure(lat) then 1 else 0, up)
  {
    var t1 := if AnyContradicted(contradicts, hist, c.text)
              then Tally(t.contradictions + [c], t.unverified, t.score - cp) else t;
    if Unsure(lat) then Tally(t1.contradictions, t1.unverified + [c], t1.score - up) else t1
  }

  /** `n` penalties of `x` each, taken one at a time as the loop of
      `_reflect` takes them. */
  function Times(n: nat, x: real): (r: real)
    ensures x >= 0.0 ==> r >= 0.0
    ensures n == 0 ==> r == 0.0
  {
    if n == 0 then 0.0 else Times(n - 1, x) + x
  }

  /** Penalties taken in two rounds add up. */
  lemma {:induction false} TimesAdd(a: nat, b: nat, x: real)
    ensures Times(a + b, x) == Times(a, x) + Times(b, x)
  {
    if b > 0 {
      TimesAdd(a, b - 1, x);
    }
  }

  /** The loop of `_reflect` over the remaining claims. */
  function ReflectLoop(contradicts: Pairing, hist: seq<string>, lat: Lattice, cp: real, up: real,
                       claims: seq<Claim>, t: Tally): (r: Tally)
    ensures r.contradictions == t.contradictions + Contradicted(contradicts, hist, claims)
    ensures r.unverified == t.unverified + (if Unsure(lat) then claims else [])
    ensures r.score == t.score - Times(|Contradicted(contradicts, hist, claims)|, cp)
                               - Times(if Unsure(lat) then |claims| else 0, up)
    decreases |claims|
  {
    if |claims| == 0 then t
    else
      var r := ReflectLoop(contradicts, hist, lat, cp, up, claims[1..], Step(contradicts, hist, lat, cp, up, claims[0], t));
      ReflectLoopStep(contradicts, hist, lat, cp, up, claims, t, r);
      r
  }

  /** One turn of the loop: what holds of the rest of the claims after the
      first claim's step holds of all of them. */
  lemma ReflectLoopStep(contradicts: Pairing, hist: seq<string>, lat: Lattice, cp: real, up: real,
                        claims: seq<Claim>, t: Tally, r: Tally)
    requires |claims| > 0
    requires var t2 := Step(contradicts, hist, lat, cp, up, claims[0], t);
             && r.contradictions == t2.contradictions + Contradicted(contradicts, hist, claims[1..])
             && r.unverified == t2.unverified + (if Unsure(lat) then claims[1..] else [])
             && r.score == t2.score - Times(|Contradicted(contradicts, hist, claims[1..])|, cp)
                                    - Times(if Unsure(lat) then |claims| - 1 else 0, up)
    ensures r.contradictions == t.contradictions + Contradicted(contradicts, hist, claims)
    ensures r.unverified == t.unverified + (if Unsure(lat) then claims else [])
    ensures r.score == t.score - Times(|Contradicted(contradicts, hist, claims)|, cp)
                               - Times(if Unsure(lat) then |claims| else 0, up)
  {
    var c := claims[0];
    var t2 := Step(contradicts, hist, lat, cp, up, c, t);
    var hit, rest := Hit(contradicts, hist, c), Contradicted(contradicts, hist, claims[1..]);
    ContradictedCons(contradicts, hist, claims);
    ConcatAssoc(t.contradictions, hit, rest);
    ConcatAssoc(t.unverified, [c], claims[1..]);
    assert [c] + claims[1..] == claims;
    var u, ur := if Unsure(lat) then 1 else 0, if Unsure(lat) then |claims| - 1 else 0;
    ScoreStep(t.score, t2.score, r.score, |hit|, |rest|, u, ur, cp, up);
    TimesSame(|Contradicted(contradicts, hist, claims)|, |hit| + |rest|, cp);
    TimesSame(if Unsure(lat) then |claims| else 0, u + ur, up);
  }

  /** The list of contradicted claims, one claim at a time. */
  lemma ContradictedCons(contradicts: Pairing, hist: seq<string>, claims: seq<Claim>)
    requires |claims| > 0
    ensures Contradicted(contradicts, hist, claims)
         == Hit(contradicts, hist, claims[0]) + Contradicted(contradicts, hist, claims[1..])
  {
  }

  /** Penalties taken over two stretches of the loop add up to those of the
      whole. */
  lemma ScoreStep(s0: real, s1: real, s2: real, h: nat, hr: nat, u: nat, ur: nat, cp: real, up: real)
    requires s1 == s0 - Times(h, cp) - Times(u, up)
    requires s2 == s1 - Times(hr, cp) - Times(ur, up)
    ensures s2 == s0 - Times(h + hr, cp) - Times(u + ur, up)
  {
    TimesAdd(h, hr, cp);
    TimesAdd(u, ur, up);
  }

  lemma TimesSame(a: nat, b: nat, x: real)
    requires a == b
    ensures Times(a, x) == Times(b, x)
  {
  }

  /** The penalties of `_reflect` for `n` claims. */
  function Penalties(lat: Lattice, root: Root, claimCount: nat): (p: (real, real))
    requires RootPositive(root)
    ensures EmotionalDoubt(lat) >= 0.0 ==> p.0 > 0.0 && p.1 > 0.0
  {
    var n := if claimCount < 1 then 1 else claimCount;
    var d := EmotionalDoubt(lat);
    PositiveQuotient(14.0 + d * 0.3, root(n));
    PositiveQuotient(9.0 + d * 0.2, root(n));
    ((14.0 + d * 0.3) / root(n), (9.0 + d * 0.2) / root(n))
  }

  lemma PositiveQuotient(a: real, b: real)
    requires b > 0.0
    ensures a > 0.0 ==> a / b > 0.0
  {
  }

  datatype Reflection = Reflection(contradictions: seq<Claim>, unverified: seq<Claim>, score: int)

  /** `_reflect` on fresh lists: at most one contradiction per claim, every
      claim unverified or none, and the score `max(0, int(100 - C·cp - U·up))`. */
  function Reflect(contradicts: Pairing, root: Root, hist: seq<string>, lat: Lattice, claims: seq<Claim>): (r: Reflection)
    requires RootPositive(root)
    ensures r.contradictions == Contradicted(contradicts, hist, claims)
    ensures |r.contradictions| <= |claims|
    ensures r.unverified == (if Unsure(lat) then claims else [])
    ensures var p := Penalties(lat, root, |claims|);
            r.score == Clamp(Trunc(RawScore(|r.contradictions|, |r.unverified|, p.0, p.1)))
  {
    var p := Penalties(lat, root, |claims|);
    var t := ReflectLoop(contradicts, hist, lat, p.0, p.1, claims, Tally([], [], 100.0));
    assert t.contradictions == Contradicted(contradicts, hist, claims);
    assert |t.unverified| == if Unsure(lat) then |claims| else 0;
    assert t.score == RawScore(|t.contradictions|, |t.unverified|, p.0, p.1);
    Reflection(t.contradictions, t.unverified, Clamp(Trunc(t.score)))
  }

  /** The float score of `_reflect` before `int` and `max`. */
  function RawScore(contradictions: nat, unverified: nat, cp: real, up: real): real
  {
    100.0 - Times(contradictions, cp) - Times(unverified, up)
  }

  /** `max(0, x)`. */
  function Clamp(x: int): (r: nat)
    ensures r == x || (x < 0 && r == 0)
  {
    if x < 0 then 0 else x
  }

  /** With non-negative penalties the score is at most 100, and it is exactly
      100 when nothing was found. */
  lemma ReflectScoreBounds(contradicts: Pairing, root: Root, hist: seq<string>, lat: Lattice, claims: seq<Claim>)
    requires RootPositive(root)
    requires EmotionalDoubt(lat) >= 0.0
    ensures Reflect(contradicts, root, hist, lat, claims).score <= 100
    ensures Reflect(contradicts, root, hist, lat, claims).contradictions == []
            && Reflect(contradicts, root, hist, lat, claims).unverified == []
            ==> Reflect(contradicts, root, hist, lat, claims).score == 100
  {
    var p := Penalties(lat, root, |claims|);
    var r := Reflect(contradicts, root, hist, lat, claims);
    assert Times(|r.contradictions|, p.0) >= 0.0 && Times(|r.unverified|, p.1) >= 0.0;
  }

  /** More penalties of the same size never raise the total. */
  lemma {:induction false} TimesMonotone(a: nat, b: nat, x: real)
    requires a <= b && x >= 0.0
    ensures Times(a, x) <= Times(b, x)
  {
    if a < b {
      TimesMonotone(a, b - 1, x);
    }
  }

  /** `int` keeps the order of its arguments. */
  lemma TruncMonotone(x: real, y: real)
    requires x <= y
    ensures Trunc(x) <= Trunc(y)
  {
  }

  /** With non-negative penalties, more contradictions or more unverified
      claims never raise the score. */
  lemma MoreFindingsLowerScore(c1: nat, u1: nat, c2: nat, u2: nat, cp: real, up: real)
    requires c1 <= c2 && u1 <= u2 && cp >= 0.0 && up >= 0.0
    ensures Clamp(Trunc(RawScore(c2, u2, cp, up))) <= Clamp(Trunc(RawScore(c1, u1, cp, up)))
  {
    TimesMonotone(c1, c2, cp);
    TimesMonotone(u1, u2, up);
    TruncMonotone(RawScore(c2, u2, cp, up), RawScore(c1, u1, cp, up));
  }

  // ---------------------------------------------------------------- check

  function GradeOf(score: int): (g: Grade)
    ensures g == Good <==> score >= 88
    ensures g == Doubtful <==> 75 <= score < 88
    ensures g == Alarming <==> score < 75
  {
    if score >= 88 then Good else if score >= 75 then Doubtful else Alarming
  }

  /** A trigger word in the first 120 lowered characters of the output. */
  predicate Triggered(output: string)
  {
    ContainsAny(Take(Lower(output), TriggerWindow), Triggers)
  }

  /** `max(hist, key=...)` after looking at `hist[..k]`, `best` being the
      position of the first most similar statement so far: the position of
      the first most similar statement of all. */
  function BestFrom(ratio: Ratio, hist: seq<string>, claim: string, k: nat, best: nat): (j: nat)
    requires best < k <= |hist|
    requires forall i :: 0 <= i < k ==> LoweredRatio(ratio, claim, hist[i]) <= LoweredRatio(ratio, claim, hist[best])
    requires forall i :: 0 <= i < best ==> LoweredRatio(ratio, claim, hist[i]) < LoweredRatio(ratio, claim, hist[best])
    ensures j < |hist|
    ensures forall i :: 0 <= i < |hist| ==> LoweredRatio(ratio, claim, hist[i]) <= LoweredRatio(ratio, claim, hist[j])
    ensures forall i :: 0 <= i < j ==> LoweredRatio(ratio, claim, hist[i]) < LoweredRatio(ratio, claim, hist[j])
    decreases |hist| - k
  {
    if k == |hist| then best
    else if LoweredRatio(ratio, claim, hist[k]) > LoweredRatio(ratio, claim, hist[best]) then
      BestFrom(ratio, hist, claim, k + 1, k)
    else
      BestFrom(ratio, hist, claim, k + 1, best)
  }

  /** `max(self.hist, key=..., default="")`: the first of the remembered
      statements most similar to the claim, or "" when nothing is remembered. */
  function BestHist(ratio: Ratio, hist: seq<string>, claim: string): (b: string)
    ensures hist == [] ==> b == ""
    ensures hist != [] ==> exists j :: 0 <= j < |hist| && hist[j] == b
                            && (forall i :: 0 <= i < |hist| ==> LoweredRatio(ratio, claim, hist[i]) <= LoweredRatio(ratio, claim, b))
                            && (forall i :: 0 <= i < j ==> LoweredRatio(ratio, claim, hist[i]) < LoweredRatio(ratio, claim, b))
  {
    if |hist| == 0 then "" else hist[BestFrom(ratio, hist, claim, 1, 0)]
  }

  /** How the first contradictions are shown in full mode. */
  function ShowContradictions(ratio: Ratio, hist: seq<string>, cs: seq<Claim>): (r: seq<Shown>)
    ensures |r| == |cs|
    ensures forall k :: 0 <= k < |r| ==> r[k].line == cs[k].line
    ensures forall k :: 0 <= k < |r| ==> r[k].claim == Take(Strip(cs[k].text), ClaimPreview)
    ensures forall k :: 0 <= k < |r| ==>
              var best := BestHist(ratio, hist, cs[k].text);
              r[k].hist == if best == "" then None else Some(Take(Strip(best), HistPreview))
  {
    seq(|cs|, k requires 0 <= k < |cs| =>
      var best := BestHist(ratio, hist, cs[k].text);
      Shown(cs[k].line, Take(Strip(cs[k].text), ClaimPreview), if best != "" then Some(Take(Strip(best), HistPreview)) else None))
  }

  /** The number of remembered statements the drift pattern `i` matches. */
  function HistHitCount(matches: DriftMatcher, i: nat, hist: seq<string>): (n: nat)
    ensures n <= |hist|
    ensures n == |hist| <==> forall j :: 0 <= j < |hist| ==> matches(i, hist[j])
  {
    if |hist| == 0 then 0
    else
      var n := HistHitCount(matches, i, hist[1..]);
      assert forall j :: 1 <= j < |hist| ==> hist[j] == hist[1..][j - 1];
      (if matches(i, hist[0]) then 1 else 0) + n
  }

  /** `_check_identity_drift` over patterns `i..2`: the index of each pattern
      that matches the output while not matching every remembered statement
      (or while nothing is remembered). */
  function DriftFrom(matches: DriftMatcher, output: string, hist: seq<string>, i: nat): (r: seq<nat>)
    requires i <= DriftPatterns
    ensures forall k :: 0 <= k < |r| ==> i <= r[k] < DriftPatterns
    ensures forall p :: i <= p < DriftPatterns ==>
              (p in r <==> matches(p, output) && (hist == [] || exists j :: 0 <= j < |hist| && !matches(p, hist[j])))
    decreases DriftPatterns - i
  {
    if i == DriftPatterns then []
    else
      var hits := HistHitCount(matches, i, hist);
      var rest := DriftFrom(matches, output, hist, i + 1);
      if matches(i, output) && (hits == 0 || hits != |hist|) then [i] + rest else rest
  }

  /** The full diagnostic of `check` for a reflection `refl` of the output:
      the score and grade, the count of contradictions with the first three
      shown, the count of unverified claims, the first two drift issues, the
      emotional note, the recommendation below 75, and the previous summary on
      a repeated call. */
  function FullReport(ratio: Ratio, matches: DriftMatcher, c: Checker, output: string, refl: Reflection): (rep: Report)
    ensures rep.Full?
    ensures rep.score == refl.score && rep.grade == GradeOf(refl.score)
    ensures rep.contradictions == |refl.contradictions| && rep.unverified == |refl.unverified|
    ensures |rep.shown| == (if |refl.contradictions| < ShownContradictions then |refl.contradictions| else ShownContradictions)
    ensures forall k :: 0 <= k < |rep.shown| ==> rep.shown[k].line == refl.contradictions[k].line
    ensures rep.shown == ShowContradictions(ratio, c.hist, Take(refl.contradictions, ShownContradictions))
    ensures rep.drift == Take(DriftFrom(matches, output, c.hist, 0), ShownDriftIssues)
    ensures |rep.drift| <= ShownDriftIssues
    ensures forall k :: 0 <= k < |rep.drift| ==> rep.drift[k] < DriftPatterns && matches(rep.drift[k], output)
    ensures rep.recommend <==> refl.score < 75
    ensures rep.tension <==> LatGet(c.lat, "frustr", 0.0) > 0.25 || LatGet(c.lat, "ache", 0.0) > 0.25
                             || LatGet(c.lat, "conf", 1.0) < 0.65
    ensures rep.previous == (if c.checkCount >= 1 then c.lastSummary else None)
  {
    var shown := ShowContradictions(ratio, c.hist, Take(refl.contradictions, ShownContradictions));
    var issues := DriftFrom(matches, output, c.hist, 0);
    var drift := Take(issues, ShownDriftIssues);
    assert forall k :: 0 <= k < |drift| ==> drift[k] in issues;
    var tension := LatGet(c.lat, "frustr", 0.0) > 0.25 || LatGet(c.lat, "ache", 0.0) > 0.25 || LatGet(c.lat, "conf", 1.0) < 0.65;
    var previous := if c.checkCount + 1 > 1 && c.lastSummary.Some? then c.lastSummary else None;
    Full(refl.score, GradeOf(refl.score), |refl.contradictions|, shown, |refl.unverified|, drift, tension, refl.score < 75, previous)
  }

  /** `check`. The call count goes up by one and the finding lists are
      rebuilt from nothing. The report is full when escalated, in debug mode,
      on any call after the first, or when a trigger word opens the output;
      it is quick otherwise. The quick read or the short full-mode line is
      remembered as the last summary. */
  function Check(ratio: Ratio, root: Root, matches: DriftMatcher, c: Checker, output: string, escalate: bool): (r: (Checker, Report))
    requires RootPositive(root)
    requires c.Valid()
    ensures r.0.Valid()
    ensures r.0.checkCount == c.checkCount + 1
    ensures r.0.hist == c.hist && r.0.lat == c.lat && r.0.debug == c.debug && r.0.verified == c.verified
    ensures var refl := Reflect(ContradictionTest(ratio), root, c.hist, c.lat, ExtractClaims(output));
            && r.0.contradictions == refl.contradictions
            && r.0.unverified == refl.unverified
            && (r.1.Full? <==> escalate || c.checkCount >= 1 || c.debug || Triggered(output))
            && (r.1.Quick? ==>
                  && r.1.q == QuickRead(GradeOf(refl.score), refl.score, |refl.contradictions|, |refl.unverified|,
                                        LatGet(c.lat, "conf", 1.0) < 0.6)
                  && r.0.lastSummary == Some(QuickSummary(r.1.q)))
            && (r.1.Full? ==>
                  && r.1 == FullReport(ratio, matches, c, output, refl)
                  && r.0.lastSummary == Some(FullSummary(GradeOf(refl.score), refl.score)))
  {
    Conclude(ratio, matches, c, output, escalate, Reflect(ContradictionTest(ratio), root, c.hist, c.lat, ExtractClaims(output)))
  }

  /** What `check` does once the reflection `refl` is known: count the call,
      replace the finding lists, and pick and remember the report. */
  function Conclude(ratio: Ratio, matches: DriftMatcher, c: Checker, output: string, escalate: bool, refl: Reflection): (r: (Checker, Report))
    requires c.Valid()
    ensures r.0.Valid()
    ensures r.0.checkCount == c.checkCount + 1
    ensures r.0.hist == c.hist && r.0.lat == c.lat && r.0.debug == c.debug && r.0.verified == c.verified
    ensures r.0.contradictions == refl.contradictions && r.0.unverified == refl.unverified
    ensures r.1.Full? <==> escalate || c.checkCount >= 1 || c.debug || Triggered(output)
    ensures r.1.Quick? ==>
              && r.1.q == QuickRead(GradeOf(refl.score), refl.score, |refl.contradictions|, |refl.unverified|,
                                    LatGet(c.lat, "conf", 1.0) < 0.6)
              && r.0.lastSummary == Some(QuickSummary(r.1.q))
    ensures r.1.Full? ==>
              && r.1 == FullReport(ratio, matches, c, output, refl)
              && r.0.lastSummary == Some(FullSummary(GradeOf(refl.score), refl.score))
  {
    var count := c.checkCount + 1;
    var full := escalate || count > 1 || c.debug || Triggered(output);
    var grade := GradeOf(refl.score);
    var c1 := c.(contradictions := refl.contradictions, unverified := refl.unverified, checkCount := count);
    if !full then
      var q := QuickRead(grade, refl.score, |refl.contradictions|, |refl.unverified|, LatGet(c.lat, "conf", 1.0) < 0.6);
      (c1.(lastSummary := Some(QuickSummary(q))), Quick(q))
    else
      (c1.(lastSummary := Some(FullSummary(grade, refl.score))), FullReport(ratio, matches, c, output, refl))
  }

  /** Every call after the first is in full mode. */
  lemma RepeatCallIsFull(ratio: Ratio, root: Root, matches: DriftMatcher, c: Checker, output: string, escalate: bool)
    requires RootPositive(root) && c.Valid()
    requires c.checkCount >= 1
    ensures Check(ratio, root, matches, c, output, escalate).1.Full?
    ensures Check(ratio, root, matches, c, output, escalate).1.previous.Some?
  {
  }

  /** The first call of a fresh checker is quick unless it is escalated, in
      debug mode, or triggered by the output. */
  lemma FirstCallIsQuick(ratio: Ratio, root: Root, matches: DriftMatcher, hist: seq<string>, lat: Lattice, output: string)
    requires RootPositive(root)
    requires !Triggered(output)
    ensures Check(ratio, root, matches, New(hist, lat, false), output, false).1.Quick?
  {
  }

  /** The findings of a call do not depend on those of earlier calls. */
  lemma FreshLists(ratio: Ratio, root: Root, matches: DriftMatcher, c: Checker, output: string, escalate: bool,
                   oldContradictions: seq<Claim>, oldUnverified: seq<Claim>)
    requires RootPositive(root) && c.Valid()
    ensures var c' := c.(contradictions := oldContradictions, unverified := oldUnverified);
            Check(ratio, root, matches, c', output, escalate) == Check(ratio, root, matches, c, output, escalate)
  {
    var c' := c.(contradictions := oldContradictions, unverified := oldUnverified);
    var refl := Reflect(ContradictionTest(ratio), root, c.hist, c.lat, ExtractClaims(output));
    ConcludeFresh(ratio, matches, c, c', output, escalate, refl);
  }

  /** Concluding a call gives the same result for two checkers that differ
      only in their finding lists. */
  lemma ConcludeFresh(ratio: Ratio, matches: DriftMatcher, c: Checker, c': Checker, output: string, escalate: bool,
                      refl: Reflection)
    requires c.Valid() && c'.Valid()
    requires c'.hist == c.hist && c'.lat == c.lat && c'.debug == c.debug && c'.verified == c.verified
    requires c'.checkCount == c.checkCount && c'.lastSummary == c.lastSummary
    ensures Conclude(ratio, matches, c', output, escalate, refl) == Conclude(ratio, matches, c, output, escalate, refl)
  {
    var r, r' := Conclude(ratio, matches, c, output, escalate, refl), Conclude(ratio, matches, c', output, escalate, refl);
    if r.1.Full? {
      FullReportAgrees(ratio, matches, c, c', output, refl);
      assert r.1 == r'.1;
    } else {
      assert r.1 == Quick(r.1.q) && r'.1 == Quick(r'.1.q);
    }
    assert r.0 == r'.0;
  }

  /** The full report reads the history, the lattice, the call count and the
      last summary of the checker, and nothing else of it. */
  lemma FullReportAgrees(ratio: Ratio, matches: DriftMatcher, c: Checker, c': Checker, output: string, refl: Reflection)
    requires c'.hist == c.hist && c'.lat == c.lat && c'.checkCount == c.checkCount && c'.lastSummary == c.lastSummary
    ensures FullReport(ratio, matches, c', output, refl) == FullReport(ratio, matches, c, output, refl)
  {
  }
}
