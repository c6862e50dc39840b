/** `TruthChecker` version 2 of python/python-process-lib/truth.py: claims
    are the capitalised sentences of an output; each claim that closely
    resembles a remembered statement while opposing it is a contradiction,
    every claim is unverified when the lattice shows surprise or ache, and the
    score drops by a fixed amount per finding. The finding lists are never
    cleared, so they accumulate across calls. */
module TruthV2 {
  import opened Wrappers
  import opened Text
  import opened Difflib
  import opened TruthCommon
  /** Similarity above which a claim is compared with a remembered statement. */
  const MatchCutoff: real := 0.75
  const ContradictionCost: int := 18
  const UnverifiedCost: int := 12

  datatype Checker = Checker(hist: seq<string>, lat: Lattice, debug: bool,
                             contradictions: seq<Claim>, unverified: seq<Claim>, verified: seq<string>)

  /** `__init__`: the last five remembered statements, and no findings. */
  function New(hist: seq<string>, lat: Lattice, debug: bool): (c: Checker)
    ensures |c.hist| == if |hist| < HistCap then |hist| else HistCap
    ensures |c.hist| <= |hist| && hist == hist[..|hist| - |c.hist|] + c.hist
    ensures c.lat == lat && c.debug == debug
    ensures c.contradictions == [] && c.unverified == [] && c.verified == []
  {
    var h := Last(hist, HistCap);
    assert hist == hist[..|hist| - |h|] + hist[|hist| - |h|..];
    Checker(h, lat, debug, [], [], [])
  }

  // ---------------------------------------------------------------- _extract_claims

  /** A claim as the pattern `[A-Z][^.!?]*[.!?]` matches it: a capital, then
      no sentence mark until the one that ends it. */
  predicate WellFormedClaim(s: string)
  {
    && |s| >= 2
    && IsUpper(s[0])
    && IsTerminator(s[|s| - 1])
    && forall i :: 0 <= i < |s| - 1 ==> !IsTerminator(s[i])
  }

  /** The first sentence mark at or after `from`. */
  function FirstTerminator(s: string, from: nat): (r: Option<nat>)
    requires from <= |s|
    ensures r.Some? ==> from <= r.value < |s| && IsTerminator(s[r.value])
    ensures r.Some? ==> forall i :: from <= i < r.value ==> !IsTerminator(s[i])
    ensures r.None? ==> forall i :: from <= i < |s| ==> !IsTerminator(s[i])
    decreases |s| - from
  {
    if from == |s| then None
    else if IsTerminator(s[from]) then Some(from)
    else FirstTerminator(s, from + 1)
  }

  /** `re.findall(r'([A-Z][^.!?]*[.!?])', line)` scanning from position `p`:
      the matches as (start, end) spans, left to right. A capital with a
      sentence mark after it starts a match that ends at the first such mark;
      a capital without one starts none. */
  function ClaimSpans(line: string, p: nat): (r: seq<(nat, nat)>)
    requires p <= |line|
    decreases |line| - p
  {
    if p == |line| then []
    else if IsUpper(line[p]) then
      match FirstTerminator(line, p + 1)
      case Some(q) => [(p, q + 1)] + ClaimSpans(line, q + 1)
      case None => ClaimSpans(line, p + 1)
    else ClaimSpans(line, p + 1)
  }

  /** The matches lie within `line` from `p` on, each covers a well-formed
      claim, they are disjoint and in order, and there is one exactly when a
      capital is followed, somewhere later, by a sentence mark. */
  lemma {:induction false} ClaimSpansOrdered(line: string, p: nat)
    requires p <= |line|
    ensures OrderedClaims(line, p, ClaimSpans(line, p))
    ensures |ClaimSpans(line, p)| > 0 <==> CapitalBeforeMark(line, p)
    decreases |line| - p
  {
    if p < |line| {
      CapitalStep(line, p);
      if IsUpper(line[p]) && FirstTerminator(line, p + 1).Some? {
        var q := FirstTerminator(line, p + 1).value;
        ClaimSpansAtMatch(line, p);
        ClaimSpansOrdered(line, q + 1);
        ClaimSpansEmit(line, p, q, ClaimSpans(line, q + 1));
      } else {
        assert ClaimSpans(line, p) == ClaimSpans(line, p + 1);
        ClaimSpansOrdered(line, p + 1);
        OrderedWiden(line, p, ClaimSpans(line, p + 1));
        if IsUpper(line[p]) {
          NoMarkNoClaim(line, p);
        }
      }
    }
  }

  /** Spans from `p + 1` on are spans from `p` on. */
  lemma OrderedWiden(line: string, p: nat, r: seq<(nat, nat)>)
    requires OrderedClaims(line, p + 1, r)
    ensures OrderedClaims(line, p, r)
  {
  }

  /** The spans lie within `line` from `p` on, each covers a well-formed
      claim, and each ends before the next begins. */
  predicate OrderedClaims(line: string, p: nat, r: seq<(nat, nat)>)
  {
    && (forall k :: 0 <= k < |r| ==> p <= r[k].0 < r[k].1 <= |line|)
    && (forall k :: 0 <= k < |r| ==> WellFormedClaim(line[r[k].0..r[k].1]))
    && (forall k :: 0 <= k < |r| - 1 ==> r[k].1 <= r[k + 1].0)
  }

  /** No capital in `line[a..b]`. */
  predicate NoCapitalIn(line: string, a: nat, b: nat)
  {
    forall i :: a <= i < b && i < |line| ==> !IsUpper(line[i])
  }

  /** The spans are the ones a left-to-right scan from `p` finds: each begins
      at the first capital after the previous one ends, and after the last
      no capital has a sentence mark after it. With `OrderedClaims`, which
      makes each end at the first mark after its capital, this is what
      `findall` returns. */
  predicate Leftmost(line: string, p: nat, r: seq<(nat, nat)>)
  {
    && (|r| > 0 ==> NoCapitalIn(line, p, r[0].0))
    && (forall k :: 0 <= k < |r| - 1 ==> NoCapitalIn(line, r[k].1, r[k + 1].0))
    && !CapitalBeforeMark(line, if |r| == 0 then p else r[|r| - 1].1)
  }

  /** Some capital at or after `p` has a sentence mark after it. */
  predicate CapitalBeforeMark(line: string, p: nat)
  {
    exists i, j :: p <= i < j < |line| && IsUpper(line[i]) && IsTerminator(line[j])
  }

  lemma CapitalStep(line: string, p: nat)
    requires p < |line|
    ensures CapitalBeforeMark(line, p) <==>
              (IsUpper(line[p]) && exists j :: p < j < |line| && IsTerminator(line[j])) || CapitalBeforeMark(line, p + 1)
  {
    if CapitalBeforeMark(line, p) {
      var i, j :| p <= i < j < |line| && IsUpper(line[i]) && IsTerminator(line[j]);
      if i > p {
        assert CapitalBeforeMark(line, p + 1);
      }
    }
  }

  /** A capital followed by no sentence mark until `q` starts a well-formed claim ending at `q`. */
  lemma ClaimAt(line: string, p: nat, q: nat)
    requires p < q < |line| && IsUpper(line[p]) && IsTerminator(line[q])
    requires forall i :: p + 1 <= i < q ==> !IsTerminator(line[i])
    ensures WellFormedClaim(line[p..q + 1])
  {
    var m := line[p..q + 1];
    assert forall i :: 0 <= i < |m| - 1 ==> m[i] == line[p + i];
  }

  /** The step of `ClaimSpans` that emits the match from `p` to the first
      sentence mark `q` after it. */
  lemma ClaimSpansEmit(line: string, p: nat, q: nat, rest: seq<(nat, nat)>)
    requires p < q < |line| && IsUpper(line[p]) && IsTerminator(line[q])
    requires forall i :: p + 1 <= i < q ==> !IsTerminator(line[i])
    requires OrderedClaims(line, q + 1, rest)
    ensures OrderedClaims(line, p, [(p, q + 1)] + rest)
    ensures CapitalBeforeMark(line, p)
  {
    ClaimAt(line, p, q);
    var r := [(p, q + 1)] + rest;
    forall k | 0 <= k < |r|
      ensures p <= r[k].0 < r[k].1 <= |line| && WellFormedClaim(line[r[k].0..r[k].1])
    {
      if k > 0 {
        assert r[k] == rest[k - 1];
      }
    }
    forall k | 0 <= k < |r| - 1
      ensures r[k].1 <= r[k + 1].0
    {
      assert r[k + 1] == rest[k];
      if k > 0 {
        assert r[k] == rest[k - 1];
      }
    }
    assert IsUpper(line[p]) && IsTerminator(line[q]);
  }

  /** `ClaimSpans` finds every match, leftmost first. */
  lemma {:induction false} ClaimSpansLeftmost(line: string, p: nat)
    requires p <= |line|
    ensures Leftmost(line, p, ClaimSpans(line, p))
    decreases |line| - p, 1
  {
    if p < |line| {
      if !IsUpper(line[p]) {
        LeftmostAtLower(line, p);
      } else if FirstTerminator(line, p + 1).None? {
        LeftmostAtUnclosed(line, p);
      } else {
        LeftmostAtMatch(line, p);
      }
    }
  }

  lemma {:induction false} LeftmostAtLower(line: string, p: nat)
    requires p < |line| && !IsUpper(line[p])
    ensures Leftmost(line, p, ClaimSpans(line, p))
    decreases |line| - p, 0
  {
    var r := ClaimSpans(line, p);
    assert r == ClaimSpans(line, p + 1);
    ClaimSpansLeftmost(line, p + 1);
    ClaimSpansOrdered(line, p + 1);
    LeftmostSkip(line, p, r);
  }

  lemma {:induction false} LeftmostAtUnclosed(line: string, p: nat)
    requires p < |line| && IsUpper(line[p]) && FirstTerminator(line, p + 1).None?
    ensures Leftmost(line, p, ClaimSpans(line, p))
    decreases |line| - p, 0
  {
    NoMarkNoClaim(line, p);
    ClaimSpansOrdered(line, p + 1);
    assert ClaimSpans(line, p) == ClaimSpans(line, p + 1);
  }

  lemma {:induction false} LeftmostAtMatch(line: string, p: nat)
    requires p < |line| && IsUpper(line[p]) && FirstTerminator(line, p + 1).Some?
    ensures Leftmost(line, p, ClaimSpans(line, p))
    decreases |line| - p, 0
  {
    var q := FirstTerminator(line, p + 1).value;
    ClaimSpansAtMatch(line, p);
    ClaimSpansLeftmost(line, q + 1);
    LeftmostCons(line, p, (p, q + 1), ClaimSpans(line, q + 1), ClaimSpans(line, p));
  }

  /** The scan from a capital with a sentence mark after it emits the match
      up to the first such mark and goes on after it. */
  lemma ClaimSpansAtMatch(line: string, p: nat)
    requires p < |line| && IsUpper(line[p]) && FirstTerminator(line, p + 1).Some?
    ensures var q := FirstTerminator(line, p + 1).value;
            ClaimSpans(line, p) == [(p, q + 1)] + ClaimSpans(line, q + 1)
  {
    var q := FirstTerminator(line, p + 1).value;
    assert FirstTerminator(line, p + 1) == Some(q);
  }

  /** A scan from `p + 1` is leftmost from `p` too when `line[p]` is no capital. */
  lemma LeftmostSkip(line: string, p: nat, r: seq<(nat, nat)>)
    requires p < |line| && !IsUpper(line[p])
    requires OrderedClaims(line, p + 1, r) && Leftmost(line, p + 1, r)
    ensures Leftmost(line, p, r)
  {
    CapitalStep(line, p);
    if |r| > 0 {
      assert p + 1 <= r[0].0;
    }
  }

  /** With no sentence mark after `p`, no capital from `p` on starts a match. */
  lemma NoMarkNoClaim(line: string, p: nat)
    requires p < |line| && FirstTerminator(line, p + 1).None?
    ensures !CapitalBeforeMark(line, p) && !CapitalBeforeMark(line, p + 1)
  {
  }

  /** Prefixing the match that starts at `p` keeps a leftmost scan leftmost. */
  lemma LeftmostCons(line: string, p: nat, s: (nat, nat), rest: seq<(nat, nat)>, r: seq<(nat, nat)>)
    requires s.0 == p && r == [s] + rest
    requires Leftmost(line, s.1, rest)
    ensures Leftmost(line, p, r)
  {
    forall k | 0 <= k < |r| - 1
      ensures NoCapitalIn(line, r[k].1, r[k + 1].0)
    {
      assert r[k + 1] == rest[k];
      if k > 0 {
        assert r[k] == rest[k - 1];
      }
    }
    if |rest| > 0 {
      assert r[|r| - 1] == rest[|rest| - 1];
    }
  }

  /** A scan from `p` is determined: two span lists that both cover
      well-formed claims left to right and are both leftmost are equal, so
      `OrderedClaims` and `Leftmost` together define `findall`. */
  lemma {:induction false} FindallUnique(line: string, p: nat, r1: seq<(nat, nat)>, r2: seq<(nat, nat)>)
    requires OrderedClaims(line, p, r1) && Leftmost(line, p, r1)
    requires OrderedClaims(line, p, r2) && Leftmost(line, p, r2)
    ensures r1 == r2
    decreases |r1|
  {
    if |r1| > 0 {
      SpanWitness(line, p, r1[0]);
    }
    if |r2| > 0 {
      SpanWitness(line, p, r2[0]);
    }
    if |r1| > 0 && |r2| > 0 {
      FirstSpansAgree(line, p, r1, r2);
      OrderedTail(line, p, r1);
      OrderedTail(line, p, r2);
      FindallUnique(line, r1[0].1, r1[1..], r2[1..]);
      assert r1 == [r1[0]] + r1[1..];
      assert r2 == [r2[0]] + r2[1..];
    }
  }

  /** Two leftmost scans from `p` that both find something find the same
      first match. */
  lemma FirstSpansAgree(line: string, p: nat, r1: seq<(nat, nat)>, r2: seq<(nat, nat)>)
    requires |r1| > 0 && OrderedClaims(line, p, r1) && Leftmost(line, p, r1)
    requires |r2| > 0 && OrderedClaims(line, p, r2) && Leftmost(line, p, r2)
    ensures r1[0] == r2[0]
  {
    SameStart(line, p, r1[0], r2[0]);
    SameEnd(line, r1[0], r2[0]);
  }

  /** A span covering a well-formed claim begins with a capital and ends
      at the first sentence mark after it. */
  lemma ClaimShape(line: string, s: (nat, nat))
    requires s.0 < s.1 <= |line| && WellFormedClaim(line[s.0..s.1])
    ensures s.0 < s.1 - 1 && IsUpper(line[s.0]) && IsTerminator(line[s.1 - 1])
    ensures forall i :: s.0 <= i < s.1 - 1 ==> !IsTerminator(line[i])
  {
    var m := line[s.0..s.1];
    assert forall i :: s.0 <= i < s.1 ==> line[i] == m[i - s.0];
  }

  /** Such a span gives a capital with a mark after it. */
  lemma SpanWitness(line: string, p: nat, s: (nat, nat))
    requires p <= s.0 < s.1 <= |line| && WellFormedClaim(line[s.0..s.1])
    ensures CapitalBeforeMark(line, p)
  {
    ClaimShape(line, s);
  }

  lemma SameStart(line: string, p: nat, a: (nat, nat), b: (nat, nat))
    requires p <= a.0 < a.1 <= |line| && WellFormedClaim(line[a.0..a.1])
    requires p <= b.0 < b.1 <= |line| && WellFormedClaim(line[b.0..b.1])
    requires NoCapitalIn(line, p, a.0) && NoCapitalIn(line, p, b.0)
    ensures a.0 == b.0
  {
    ClaimShape(line, a);
    ClaimShape(line, b);
  }

  lemma SameEnd(line: string, a: (nat, nat), b: (nat, nat))
    requires a.0 == b.0
    requires a.0 < a.1 <= |line| && WellFormedClaim(line[a.0..a.1])
    requires b.0 < b.1 <= |line| && WellFormedClaim(line[b.0..b.1])
    ensures a.1 == b.1
  {
    ClaimShape(line, a);
    ClaimShape(line, b);
  }

  /** The spans after the first are a scan from where the first ends. */
  lemma OrderedTail(line: string, p: nat, r: seq<(nat, nat)>)
    requires |r| > 0 && OrderedClaims(line, p, r) && Leftmost(line, p, r)
    ensures OrderedClaims(line, r[0].1, r[1..]) && Leftmost(line, r[0].1, r[1..])
  {
    var t := r[1..];
    forall k | 0 <= k < |t|
      ensures r[0].1 <= t[k].0
    {
      OrderedMono(r, 0, k + 1);
    }
    if |t| > 0 {
      assert t[|t| - 1] == r[|r| - 1];
    }
  }

  /** Spans that each end before the next begins end before every later one begins. */
  lemma {:induction false} OrderedMono(r: seq<(nat, nat)>, i: nat, j: nat)
    requires forall k :: 0 <= k < |r| ==> r[k].0 < r[k].1
    requires forall k :: 0 <= k < |r| - 1 ==> r[k].1 <= r[k + 1].0
    requires i < j < |r|
    ensures r[i].1 <= r[j].0
    decreases j - i
  {
    if j > i + 1 {
      OrderedMono(r, i, j - 1);
    }
  }

  /** The claims of one line: each match, stripped, tagged with the line number. */
  function LineClaims(line: string, lineNo: nat): (r: seq<Claim>)
    ensures forall k :: 0 <= k < |r| ==> r[k].line == lineNo && WellFormedClaim(r[k].text)
    ensures |r| > 0 <==> exists i, j :: 0 <= i < j < |line| && IsUpper(line[i]) && IsTerminator(line[j])
  {
    var spans := ClaimSpans(line, 0);
    ClaimSpansOrdered(line, 0);
    var r := seq(|spans|, k requires 0 <= k < |spans| => Claim(Strip(line[spans[k].0..spans[k].1]), lineNo));
    SpanClaimsWellFormed(line, spans, lineNo, r);
    r
  }

  /** Whatever spans a leftmost scan of `line` finds, the claims of the
      line are exactly their texts, in order, untouched by the strip. */
  lemma LineClaimsAreMatches(line: string, lineNo: nat, spans: seq<(nat, nat)>)
    requires OrderedClaims(line, 0, spans) && Leftmost(line, 0, spans)
    ensures |LineClaims(line, lineNo)| == |spans|
    ensures forall k :: 0 <= k < |spans| ==>
              LineClaims(line, lineNo)[k] == Claim(line[spans[k].0..spans[k].1], lineNo)
  {
    ClaimSpansLeftmost(line, 0);
    ClaimSpansOrdered(line, 0);
    FindallUnique(line, 0, spans, ClaimSpans(line, 0));
    forall k | 0 <= k < |spans|
      ensures LineClaims(line, lineNo)[k] == Claim(line[spans[k].0..spans[k].1], lineNo)
    {
      StripOfClaimIsIdentity(line[spans[k].0..spans[k].1]);
    }
  }

  lemma SpanClaimsWellFormed(line: string, spans: seq<(nat, nat)>, lineNo: nat, r: seq<Claim>)
    requires forall k :: 0 <= k < |spans| ==> spans[k].0 < spans[k].1 <= |line|
    requires forall k :: 0 <= k < |spans| ==> WellFormedClaim(line[spans[k].0..spans[k].1])
    requires |r| == |spans|
    requires forall k :: 0 <= k < |r| ==> r[k] == Claim(Strip(line[spans[k].0..spans[k].1]), lineNo)
    ensures forall k :: 0 <= k < |r| ==> r[k].line == lineNo && WellFormedClaim(r[k].text)
  {
    forall k | 0 <= k < |r|
      ensures r[k].line == lineNo && WellFormedClaim(r[k].text)
    {
      StripOfClaimIsIdentity(line[spans[k].0..spans[k].1]);
    }
  }

  /** The claims of `lines`, the first being line number `first`. */
  function ClaimsFrom(lines: seq<string>, first: nat): (r: seq<Claim>)
    ensures forall k :: 0 <= k < |r| ==> first <= r[k].line < first + |lines| && WellFormedClaim(r[k].text)
  {
    if |lines| == 0 then [] else LineClaims(lines[0], first) + ClaimsFrom(lines[1..], first + 1)
  }



  /** The claims from `lines` are their per-line claims one after the other. */
  lemma {:induction false} ClaimsFromFlatten(lines: seq<string>, first: nat)
    ensures ClaimsFrom(lines, first) == Flatten(PerLine(LineClaims, lines, first))
    decreases |lines|
  {
    if |lines| > 0 {
      ClaimsFromFlatten(lines[1..], first + 1);
      PerLineCons(LineClaims, lines, first);
    }
  }



  /** `_extract_claims`: the claims of every `\n`-separated line, numbered from 1. */
  function ExtractClaims(output: string): (r: seq<Claim>)
    ensures forall k :: 0 <= k < |r| ==> 1 <= r[k].line <= |SplitOn(output, "\n")| && WellFormedClaim(r[k].text)
  {
    ClaimsFrom(SplitOn(output, "\n"), 1)
  }

  /** The claims of line `n` are exactly that line's matches, in order, no
      other line has any, and the claims come in line order. */
  lemma ExtractClaimsByLine(output: string)
    ensures ByLine(ExtractClaims(output), PerLine(LineClaims, SplitOn(output, "\n"), 1), 1)
    ensures LineOrdered(ExtractClaims(output))
  {
    var lines := SplitOn(output, "\n");
    ClaimsFromFlatten(lines, 1);
    assert forall line, n: nat, k :: 0 <= k < |LineClaims(line, n)| ==> LineClaims(line, n)[k].line == n;
    PerLineNumbered(LineClaims, lines, 1);
    FlattenByLine(PerLine(LineClaims, lines, 1), 1);
  }

  /** A claim is extracted exactly when its line exists and the claim is
      among that line's matches. */
  lemma ExtractClaimsMembers(output: string, c: Claim)
    ensures var lines := SplitOn(output, "\n");
            c in ExtractClaims(output) <==> 1 <= c.line <= |lines| && c in LineClaims(lines[c.line - 1], c.line)
  {
    var lines := SplitOn(output, "\n");
    var want := PerLine(LineClaims, lines, 1);
    ExtractClaimsByLine(output);
    ByLineMembers(ExtractClaims(output), want, 1, c);
  }

  /** The strip applied to each match changes nothing: a match begins with a
      capital and ends with a sentence mark. */
  lemma StripOfClaimIsIdentity(s: string)
    requires WellFormedClaim(s)
    ensures Strip(s) == s
  {
  }

  // ---------------------------------------------------------------- _opposing

  const Negations: set<string> := {"not", "no", "never", "false", "isn't", "wasn't"}

  /** The antonym table, looked up from key to value only. */
  const Antonyms: map<string, string> :=
    map["blue" := "red", "yes" := "no", "true" := "false", "good" := "bad", "high" := "low",
        "london" := "tokyo", "february" := "july", "2026" := "2025"]

  /** One of the lowered words of `s` is a negation word. */
  predicate Negated(s: string)
  {
    exists w :: w in Words(Lower(s)) && w in Negations
  }

  /** A lowered word of `s1` has its antonym among the lowered words of `s2`. */
  predicate HasAntonymIn(s1: string, s2: string)
  {
    exists w :: w in Words(Lower(s1)) && w in Antonyms && Antonyms[w] in Words(Lower(s2))
  }

  /** `_opposing`: exactly one side is negated, or an antonym pair is found. */
  predicate Opposing(s1: string, s2: string)
  {
    Negated(s1) != Negated(s2) || HasAntonymIn(s1, s2)
  }

  /** A negation on one side only always opposes, however unalike the two are. */
  lemma NegationFlipOpposes(s1: string, s2: string)
    requires Negated(s1) && !Negated(s2)
    ensures Opposing(s1, s2) && Opposing(s2, s1)
  {
  }

  /** A lowercase word without whitespace is its own lowered single word. */
  lemma SingleWord(s: string)
    requires |s| > 0
    requires forall i :: 0 <= i < |s| ==> 'a' <= s[i] <= 'z'
    ensures Words(Lower(s)) == [s]
  {
    assert Lower(s) == s;
    assert WordLen(s) == |s| by {
      if WordLen(s) < |s| {
        assert IsSpace(s[WordLen(s)]);
      }
    }
    assert !IsSpace(s[0]);
    assert s[..|s|] == s && s[|s|..] == [];
    assert Words(s) == [s[..WordLen(s)]] + Words(s[WordLen(s)..]);
  }

  /** The antonym test is one-directional: `blue` against `red` opposes,
      `red` against `blue` does not. */
  lemma AntonymsOneWay()
    ensures Opposing("blue", "red")
    ensures !Opposing("red", "blue")
  {
    SingleWord("blue");
    SingleWord("red");
    OpposingSingleWords("blue", "red");
    OpposingSingleWords("red", "blue");
    BlueRedTable();
  }

  /** The table entries the example above relies on. */
  lemma BlueRedTable()
    ensures "blue" !in Negations && "red" !in Negations
    ensures "blue" in Antonyms && Antonyms["blue"] == "red" && "red" !in Antonyms
  {
  }

  /** For two statements that are each one lowered word, opposition is decided
      by the negation set and a single antonym lookup. */
  lemma OpposingSingleWords(a: string, b: string)
    requires Words(Lower(a)) == [a] && Words(Lower(b)) == [b]
    ensures Opposing(a, b) <==> (a in Negations) != (b in Negations) || (a in Antonyms && Antonyms[a] == b)
  {
    assert Negated(a) <==> a in Negations by {
      if a in Negations { assert a in Words(Lower(a)); }
    }
    assert Negated(b) <==> b in Negations by {
      if b in Negations { assert b in Words(Lower(b)); }
    }
    assert HasAntonymIn(a, b) <==> a in Antonyms && Antonyms[a] == b by {
      if a in Antonyms && Antonyms[a] == b {
        assert a in Words(Lower(a)) && b in Words(Lower(b));
      }
    }
  }

  // ---------------------------------------------------------------- _reflect

  /** `_fuzzy_match(claim, past) > 0.75 and _opposing(claim, past)`. */
  predicate Contradicts(ratio: Ratio, claim: string, past: string)
  {
    LoweredRatio(ratio, claim, past) > MatchCutoff && Opposing(claim, past)
  }

  /** Whether `claim` contradicts each remembered statement, in order. */
  function ContradictionFlags(ratio: Ratio, hist: seq<string>, claim: string): (bs: seq<bool>)
    ensures |bs| == |hist|
  {
    seq(|hist|, j requires 0 <= j < |hist| => Contradicts(ratio, claim, hist[j]))
  }

  /** The positions of the remembered statements `claim` contradicts. */
  ghost function ContradictedAt(ratio: Ratio, hist: seq<string>, claim: string): set<nat>
  {
    TrueAt(ContradictionFlags(ratio, hist, claim))
  }

  /** The positions at which `bs` holds. */
  ghost function TrueAt(bs: seq<bool>): set<nat>
  {
    set j: nat | j < |bs| && bs[j]
  }

  /** The inner loop over the remembered statements for one claim: the claim
      once for every statement it contradicts, with no cap. */
  function HistHits(ratio: Ratio, hist: seq<string>, claim: Claim): (r: seq<Claim>)
    ensures |r| <= |hist|
    ensures forall k :: 0 <= k < |r| ==> r[k] == claim
    ensures |r| == |ContradictedAt(ratio, hist, claim.text)|
    ensures |r| == 0 <==> forall j :: 0 <= j < |hist| ==> !Contradicts(ratio, claim.text, hist[j])
    ensures (forall j :: 0 <= j < |hist| ==> Contradicts(ratio, claim.text, hist[j])) ==> |r| == |hist|
  {
    if |hist| == 0 then []
    else
      var rest := HistHits(ratio, hist[1..], claim);
      assert forall j :: 1 <= j < |hist| ==> hist[j] == hist[1..][j - 1];
      FlagsCons(ratio, hist, claim.text);
      TrueAtCons(ContradictionFlags(ratio, hist, claim.text));
      if Contradicts(ratio, claim.text, hist[0]) then [claim] + rest else rest
  }

  lemma FlagsCons(ratio: Ratio, hist: seq<string>, claim: string)
    requires |hist| > 0
    ensures ContradictionFlags(ratio, hist, claim)[0] == Contradicts(ratio, claim, hist[0])
    ensures ContradictionFlags(ratio, hist, claim)[1..] == ContradictionFlags(ratio, hist[1..], claim)
  {
    var a, b := ContradictionFlags(ratio, hist, claim)[1..], ContradictionFlags(ratio, hist[1..], claim);
    forall j | 0 <= j < |a|
      ensures a[j] == b[j]
    {
      assert hist[1..][j] == hist[j + 1];
    }
  }

  /** Moving every element of a set of positions up by one. */
  ghost function Shift(xs: set<nat>): set<nat>
  {
    set j | j in xs :: j + 1
  }

  /** The positions where `bs` holds are position 0 when `bs[0]` does, and
      those of `bs[1..]` moved up by one. */
  lemma TrueAtCons(bs: seq<bool>)
    requires |bs| > 0
    ensures |TrueAt(bs)| == (if bs[0] then 1 else 0) + |TrueAt(bs[1..])|
  {
    var all := TrueAt(bs);
    var tail := TrueAt(bs[1..]);
    var moved := Shift(tail);
    forall j | j in all && j != 0
      ensures j in moved
    {
      assert bs[1..][j - 1] == bs[j];
      assert j - 1 in tail;
    }
    forall j | j in moved
      ensures j in all && j != 0
    {
      var i :| i in tail && j == i + 1;
      assert bs[1..][i] == bs[j];
    }
    ShiftCard(tail);
    if bs[0] {
      assert all == moved + {0};
      assert 0 !in moved;
    } else {
      assert all == moved;
    }
  }

  /** Moving positions up by one loses none of them. */
  lemma {:induction false} ShiftCard(xs: set<nat>)
    ensures |Shift(xs)| == |xs|
    decreases |xs|
  {
    if xs != {} {
      var x :| x in xs;
      var ys := xs - {x};
      ShiftCard(ys);
      forall j | j in Shift(xs)
        ensures j in Shift(ys) + {x + 1}
      {
        var i :| i in xs && j == i + 1;
        if i != x {
          assert i in ys;
        }
      }
      assert Shift(xs) == Shift(ys) + {x + 1};
      assert x + 1 !in Shift(ys);
    }
  }

  /** The (row, column) positions at which `rows` holds. */
  ghost function PairsAt(rows: seq<seq<bool>>): set<(nat, nat)>
  {
    set i: nat, j: nat | i < |rows| && j < |rows[i]| && rows[i][j] :: (i, j)
  }

  /** Every pair of positions moved one row down. */
  ghost function ShiftRows(ps: set<(nat, nat)>): set<(nat, nat)>
  {
    set p | p in ps :: (p.0 + 1, p.1)
  }

  /** The pairs of row 0. */
  ghost function FirstRow(bs: seq<bool>): set<(nat, nat)>
  {
    Tag(TrueAt(bs))
  }

  /** Each position as a pair in row 0. */
  ghost function Tag(xs: set<nat>): set<(nat, nat)>
  {
    set j | j in xs :: (0, j)
  }

  /** Nor does moving pairs one row down. */
  lemma {:induction false} ShiftRowsCard(ps: set<(nat, nat)>)
    ensures |ShiftRows(ps)| == |ps|
    decreases |ps|
  {
    if ps != {} {
      var x :| x in ps;
      var qs := ps - {x};
      ShiftRowsCard(qs);
      forall p | p in ShiftRows(ps)
        ensures p in ShiftRows(qs) + {(x.0 + 1, x.1)}
      {
        var q :| q in ps && p == (q.0 + 1, q.1);
        if q != x {
          assert q in qs;
        }
      }
      assert ShiftRows(ps) == ShiftRows(qs) + {(x.0 + 1, x.1)};
      assert (x.0 + 1, x.1) !in ShiftRows(qs);
    }
  }

  /** Nor does placing positions in row 0. */
  lemma {:induction false} TagCard(xs: set<nat>)
    ensures |Tag(xs)| == |xs|
    decreases |xs|
  {
    if xs != {} {
      var x :| x in xs;
      var ys := xs - {x};
      TagCard(ys);
      forall p | p in Tag(xs)
        ensures p in Tag(ys) + {(0, x)}
      {
        var i :| i in xs && p == (0, i);
        if i != x {
          assert i in ys;
        }
      }
      assert Tag(xs) == Tag(ys) + {(0, x)};
      assert (0, x) !in Tag(ys);
    }
  }

  /** The pairs of `rows` are those of its first row and those of the
      remaining rows moved one row down. */
  lemma PairsAtSplit(rows: seq<seq<bool>>)
    requires |rows| > 0
    ensures PairsAt(rows) == FirstRow(rows[0]) + ShiftRows(PairsAt(rows[1..]))
  {
    PairsAtSplitIn(rows);
    PairsAtSplitOut(rows);
  }

  lemma PairsAtSplitIn(rows: seq<seq<bool>>)
    requires |rows| > 0
    ensures PairsAt(rows) <= FirstRow(rows[0]) + ShiftRows(PairsAt(rows[1..]))
  {
    forall p | p in PairsAt(rows)
      ensures p in FirstRow(rows[0]) + ShiftRows(PairsAt(rows[1..]))
    {
      if p.0 == 0 {
        assert p.1 in TrueAt(rows[0]);
      } else {
        assert rows[1..][p.0 - 1] == rows[p.0];
        assert (p.0 - 1, p.1) in PairsAt(rows[1..]);
      }
    }
  }

  lemma PairsAtSplitOut(rows: seq<seq<bool>>)
    requires |rows| > 0
    ensures FirstRow(rows[0]) + ShiftRows(PairsAt(rows[1..])) <= PairsAt(rows)
  {
    forall p | p in ShiftRows(PairsAt(rows[1..]))
      ensures p in PairsAt(rows)
    {
      var q :| q in PairsAt(rows[1..]) && p == (q.0 + 1, q.1);
      assert rows[1..][q.0] == rows[p.0];
    }
  }

  /** So the pairs of `rows` number those of its first row plus those of the
      rest. */
  lemma PairsAtCons(rows: seq<seq<bool>>)
    requires |rows| > 0
    ensures |PairsAt(rows)| == |TrueAt(rows[0])| + |PairsAt(rows[1..])|
  {
    PairsAtSplit(rows);
    assert FirstRow(rows[0]) !! ShiftRows(PairsAt(rows[1..]));
    TagCard(TrueAt(rows[0]));
    ShiftRowsCard(PairsAt(rows[1..]));
  }

  /** For each claim, whether it contradicts each remembered statement. */
  function FlagRows(ratio: Ratio, hist: seq<string>, claims: seq<Claim>): (rows: seq<seq<bool>>)
    ensures |rows| == |claims|
  {
    seq(|claims|, i requires 0 <= i < |claims| => ContradictionFlags(ratio, hist, claims[i].text))
  }

  /** The (claim, remembered statement) index pairs that contradict. */
  ghost function ContradictingPairs(ratio: Ratio, hist: seq<string>, claims: seq<Claim>): set<(nat, nat)>
  {
    PairsAt(FlagRows(ratio, hist, claims))
  }

  lemma FlagRowsCons(ratio: Ratio, hist: seq<string>, claims: seq<Claim>)
    requires |claims| > 0
    ensures FlagRows(ratio, hist, claims)[0] == ContradictionFlags(ratio, hist, claims[0].text)
    ensures FlagRows(ratio, hist, claims)[1..] == FlagRows(ratio, hist, claims[1..])
  {
    var a, b := FlagRows(ratio, hist, claims)[1..], FlagRows(ratio, hist, claims[1..]);
    forall i | 0 <= i < |a|
      ensures a[i] == b[i]
    {
      assert claims[1..][i] == claims[i + 1];
    }
  }

  /** The surprise or ache reading that makes every claim unverified. */
  predicate Unsure(lat: Lattice)
  {
    LatGet(lat, "surprise", 0.0) > 0.35 || LatGet(lat, "ache", 0.0) > 0.25
  }

  /** The contradictions `_reflect` records for `claims`, claim by claim. */
  function AllHits(ratio: Ratio, hist: seq<string>, claims: seq<Claim>): (r: seq<Claim>)
    ensures forall k :: 0 <= k < |r| ==> r[k] in claims
    ensures (forall i, j :: 0 <= i < |claims| && 0 <= j < |hist| ==> !Contradicts(ratio, claims[i].text, hist[j])) ==> r == []
  {
    if |claims| == 0 then []
    else
      var rest := AllHits(ratio, hist, claims[1..]);
      assert forall k :: 0 <= k < |rest| ==> rest[k] in claims;
      assert forall i :: 1 <= i < |claims| ==> claims[i] == claims[1..][i - 1];
      HistHits(ratio, hist, claims[0]) + rest
  }

  lemma AllHitsCons(ratio: Ratio, hist: seq<string>, claims: seq<Claim>)
    requires |claims| > 0
    ensures AllHits(ratio, hist, claims) == HistHits(ratio, hist, claims[0]) + AllHits(ratio, hist, claims[1..])
  {
  }

  lemma MulStep(n: nat, h: nat)
    requires n > 0
    ensures n * h == (n - 1) * h + h
  {
  }

  /** One contradiction for every contradicting pair of a claim and a
      remembered statement, and no other. */
  lemma {:induction false} AllHitsCount(ratio: Ratio, hist: seq<string>, claims: seq<Claim>)
    ensures |AllHits(ratio, hist, claims)| == |ContradictingPairs(ratio, hist, claims)|
  {
    if |claims| > 0 {
      AllHitsCount(ratio, hist, claims[1..]);
      AllHitsCons(ratio, hist, claims);
      FlagRowsCons(ratio, hist, claims);
      PairsAtCons(FlagRows(ratio, hist, claims));
    } else {
      assert PairsAt(FlagRows(ratio, hist, claims)) == {};
    }
  }

  /** At most one contradiction per claim and remembered statement. */
  lemma {:induction false} AllHitsBound(ratio: Ratio, hist: seq<string>, claims: seq<Claim>)
    ensures |AllHits(ratio, hist, claims)| <= |claims| * |hist|
  {
    if |claims| > 0 {
      AllHitsBound(ratio, hist, claims[1..]);
      AllHitsCons(ratio, hist, claims);
      MulStep(|claims|, |hist|);
    }
  }

  /** The findings and running score while `_reflect` walks the claims. */
  datatype Tally = Tally(contradictions: seq<Claim>, unverified: seq<Claim>, score: int)

  /** The loop of `_reflect` over the remaining claims. Contradictions are
      appended, never removed; either every claim is unverified or none is;
      and the score falls by 18 per contradiction and 12 per unverified claim. */
  function ReflectLoop(ratio: Ratio, hist: seq<string>, lat: Lattice, claims: seq<Claim>, t: Tally): (r: Tally)
    ensures r.contradictions == t.contradictions + AllHits(ratio, hist, claims)
    ensures r.unverified == t.unverified + (if Unsure(lat) then claims else [])
    ensures r.score == t.score - ContradictionCost * (|r.contradictions| - |t.contradictions|)
                               - UnverifiedCost * (|r.unverified| - |t.unverified|)
    decreases |claims|
  {
    if |claims| == 0 then t
    else
      var r := ReflectLoop(ratio, hist, lat, claims[1..], ReflectOne(ratio, hist, lat, claims[0], t));
      ReflectLoopStep(ratio, hist, lat, claims, t, r);
      r
  }

  /** The tally after the first claim of `claims`. */
  function ReflectOne(ratio: Ratio, hist: seq<string>, lat: Lattice, claim: Claim, t: Tally): Tally
  {
    var hits := HistHits(ratio, hist, claim);
    var t1 := Tally(t.contradictions + hits, t.unverified, t.score - ContradictionCost * |hits|);
    if Unsure(lat) then Tally(t1.contradictions, t1.unverified + [claim], t1.score - UnverifiedCost) else t1
  }

  /** The step of `ReflectLoop`: what the rest of the loop makes of the tally
      after the first claim is what the whole loop makes of the tally before. */
  lemma ReflectLoopStep(ratio: Ratio, hist: seq<string>, lat: Lattice, claims: seq<Claim>, t: Tally, r: Tally)
    requires |claims| > 0
    requires var t2 := ReflectOne(ratio, hist, lat, claims[0], t);
             && r.contradictions == t2.contradictions + AllHits(ratio, hist, claims[1..])
             && r.unverified == t2.unverified + (if Unsure(lat) then claims[1..] else [])
             && r.score == t2.score - ContradictionCost * (|r.contradictions| - |t2.contradictions|)
                                    - UnverifiedCost * (|r.unverified| - |t2.unverified|)
    ensures r.contradictions == t.contradictions + AllHits(ratio, hist, claims)
    ensures r.unverified == t.unverified + (if Unsure(lat) then claims else [])
    ensures r.score == t.score - ContradictionCost * (|r.contradictions| - |t.contradictions|)
                               - UnverifiedCost * (|r.unverified| - |t.unverified|)
  {
    var hits := HistHits(ratio, hist, claims[0]);
    AllHitsCons(ratio, hist, claims);
    ConcatAssoc(t.contradictions, hits, AllHits(ratio, hist, claims[1..]));
    ConcatAssoc(t.unverified, [claims[0]], claims[1..]);
    assert [claims[0]] + claims[1..] == claims;
  }

  /** `_reflect`: the findings are added to the checker's lists and the score
      is 100 less the cost of this call's findings, never below 0. */
  function Reflect(ratio: Ratio, c: Checker, claims: seq<Claim>): (r: (Checker, int))
    ensures r.0 == c.(contradictions := r.0.contradictions, unverified := r.0.unverified)
    ensures r.0.contradictions == c.contradictions + AllHits(ratio, c.hist, claims)
    ensures r.0.unverified == c.unverified + (if Unsure(c.lat) then claims else [])
    ensures var found := |r.0.contradictions| - |c.contradictions|;
            var unsure := |r.0.unverified| - |c.unverified|;
            var raw := 100 - ContradictionCost * found - UnverifiedCost * unsure;
            && found == |ContradictingPairs(ratio, c.hist, claims)|
            && 0 <= found <= |claims| * |c.hist| && r.1 == (if raw < 0 then 0 else raw)
  {
    AllHitsBound(ratio, c.hist, claims);
    AllHitsCount(ratio, c.hist, claims);
    var t := ReflectLoop(ratio, c.hist, c.lat, claims, Tally(c.contradictions, c.unverified, 100));
    (c.(contradictions := t.contradictions, unverified := t.unverified), if t.score < 0 then 0 else t.score)
  }

  // ---------------------------------------------------------------- check

  function GradeOf(score: int): (g: Grade)
    ensures g == Good <==> score >= 85
    ensures g == Doubtful <==> 75 <= score < 85
    ensures g == Alarming <==> score < 75
  {
    if score >= 85 then Good else if score >= 75 then Doubtful else Alarming
  }

  /** What `check` returns, in place of its text: the verify suggestion, the
      empty string, or a summary with its grade, score, counts of all findings
      so far, the revise prompt, and (in debug mode) every finding. */
  datatype Verdict =
    | SuggestVerify
    | Silent
    | Report(grade: Grade, score: int, contradictions: nat, unverified: nat, revise: bool, details: seq<Claim>)

  /** `check`. The verify suggestion wins whenever any claim so far is
      unverified and confidence is below 0.55; otherwise the checker is silent
      exactly when the score is at least 90 and no contradiction was ever
      recorded; otherwise it reports. */
  function Check(ratio: Ratio, c: Checker, output: string): (r: (Checker, Verdict))
    ensures r.0.hist == c.hist && r.0.lat == c.lat && r.0.debug == c.debug && r.0.verified == c.verified
    ensures c.contradictions <= r.0.contradictions && c.unverified <= r.0.unverified
    ensures var score := Reflect(ratio, c, ExtractClaims(output)).1;
            var suggest := |r.0.unverified| > 0 && LatGet(c.lat, "conf", 1.0) < 0.55;
            && 0 <= score <= 100
            && (r.1.SuggestVerify? <==> suggest)
            && (r.1.Silent? <==> !suggest && score >= 90 && |r.0.contradictions| == 0)
            && (r.1.Report? ==>
                  && r.1.score == score
                  && r.1.grade == GradeOf(score)
                  && (r.1.revise <==> score < 75)
                  && r.1.contradictions == |r.0.contradictions|
                  && r.1.unverified == |r.0.unverified|
                  && r.1.details == (if c.debug then r.0.contradictions + r.0.unverified else []))
  {
    var (c1, score) := Reflect(ratio, c, ExtractClaims(output));
    (c1, Decide(c1, score))
  }

  /** The verdict of `check` once the checker `c` holds this call's findings
      and `score` is known. */
  function Decide(c: Checker, score: int): (v: Verdict)
    ensures var suggest := |c.unverified| > 0 && LatGet(c.lat, "conf", 1.0) < 0.55;
            && (v.SuggestVerify? <==> suggest)
            && (v.Silent? <==> !suggest && score >= 90 && |c.contradictions| == 0)
            && (v.Report? ==>
                  && v.score == score
                  && v.grade == GradeOf(score)
                  && (v.revise <==> score < 75)
                  && v.contradictions == |c.contradictions|
                  && v.unverified == |c.unverified|
                  && v.details == (if c.debug then c.contradictions + c.unverified else []))
  {
    if |c.unverified| > 0 && LatGet(c.lat, "conf", 1.0) < 0.55 then SuggestVerify
    else if score >= 90 && |c.contradictions| == 0 then Silent
    else
      var details := if c.debug then c.contradictions + c.unverified else [];
      Report(GradeOf(score), score, |c.contradictions|, |c.unverified|, score < 75, details)
  }

  /** The lists only grow: once a claim is unverified and confidence is low,
      every later check of the same checker returns the verify suggestion. */
  lemma SuggestionSticks(ratio: Ratio, c: Checker, output: string)
    requires |c.unverified| > 0 && LatGet(c.lat, "conf", 1.0) < 0.55
    ensures Check(ratio, c, output).1 == SuggestVerify
  {
  }

  /** Likewise, once a contradiction has been recorded the checker never
      falls silent again. */
  lemma ContradictionSilencesNothing(ratio: Ratio, c: Checker, output: string)
    requires |c.contradictions| > 0
    ensures !Check(ratio, c, output).1.Silent?
  {
  }
}
