/** What the two versions of `TruthChecker` share: the lattice readings they
    consult, the shape of a claim, the three grades and the size of the
    remembered history. */
module TruthCommon {
  import opened Text

  /** How many remembered statements a checker keeps. */
  const HistCap: nat := 5

  /** Lattice readings by name (`surprise`, `ache`, `conf`, `frustr`, ...). */
  type Lattice = map<string, real>

  /** `lat.get(key, default)`. */
  function LatGet(lat: Lattice, key: string, default: real): real
  {
    if key in lat then lat[key] else default
  }

  /** A claim with the 1-based number of the line it came from. */
  datatype Claim = Claim(text: string, line: nat)

  /** The claims of `cs` that came from line `n`, in their order. */
  function OnLine(cs: seq<Claim>, n: nat): (r: seq<Claim>)
    ensures |r| <= |cs|
    ensures forall c :: c in r <==> c in cs && c.line == n
  {
    if |cs| == 0 then []
    else
      var rest := OnLine(cs[1..], n);
      assert forall c :: c in cs <==> c == cs[0] || c in cs[1..];
      (if cs[0].line == n then [cs[0]] else []) + rest
  }

  lemma {:induction false} OnLineAppend(a: seq<Claim>, b: seq<Claim>, n: nat)
    ensures OnLine(a + b, n) == OnLine(a, n) + OnLine(b, n)
    decreases |a|
  {
    if |a| > 0 {
      assert (a + b)[1..] == a[1..] + b;
      OnLineAppend(a[1..], b, n);
    } else {
      assert a + b == b;
    }
  }

  /** Claims all from line `n` are kept whole. */
  lemma {:induction false} OnLineAll(cs: seq<Claim>, n: nat)
    requires forall k :: 0 <= k < |cs| ==> cs[k].line == n
    ensures OnLine(cs, n) == cs
    decreases |cs|
  {
    if |cs| > 0 {
      OnLineAll(cs[1..], n);
      assert cs == [cs[0]] + cs[1..];
    }
  }

  /** Claims none of which is from line `n` are dropped. */
  lemma {:induction false} OnLineNone(cs: seq<Claim>, n: nat)
    requires forall k :: 0 <= k < |cs| ==> cs[k].line != n
    ensures OnLine(cs, n) == []
    decreases |cs|
  {
    if |cs| > 0 {
      OnLineNone(cs[1..], n);
    }
  }

  /** The claims are in line order. */
  predicate LineOrdered(cs: seq<Claim>)
  {
    forall a, b :: 0 <= a < b < |cs| ==> cs[a].line <= cs[b].line
  }

  /** The claims `f` finds on each of `lines`, the first being line number
      `first`. */
  function PerLine(f: (string, nat) -> seq<Claim>, lines: seq<string>, first: nat): (r: seq<seq<Claim>>)
    ensures |r| == |lines|
    ensures forall i :: 0 <= i < |lines| ==> r[i] == f(lines[i], first + i)
  {
    seq(|lines|, i requires 0 <= i < |lines| => f(lines[i], first + i))
  }

  lemma PerLineCons(f: (string, nat) -> seq<Claim>, lines: seq<string>, first: nat)
    requires |lines| > 0
    ensures PerLine(f, lines, first)[1..] == PerLine(f, lines[1..], first + 1)
  {
    var a, b := PerLine(f, lines, first)[1..], PerLine(f, lines[1..], first + 1);
    forall i | 0 <= i < |a|
      ensures a[i] == b[i]
    {
      assert lines[1..][i] == lines[i + 1];
    }
  }

  /** When `f` numbers its claims with the line number it is given, the
      per-line claims are numbered. */
  lemma PerLineNumbered(f: (string, nat) -> seq<Claim>, lines: seq<string>, first: nat)
    requires forall line, n: nat, k :: 0 <= k < |f(line, n)| ==> f(line, n)[k].line == n
    ensures Numbered(PerLine(f, lines, first), first)
  {
  }

  /** Every claim of `want[i]` is from line `first + i`. */
  ghost predicate Numbered(want: seq<seq<Claim>>, first: nat)
  {
    forall i, k :: 0 <= i < |want| && 0 <= k < |want[i]| ==> want[i][k].line == first + i
  }

  /** Line `first + i` of `cs` holds exactly `want[i]`, and no other line
      holds anything. */
  ghost predicate ByLine(cs: seq<Claim>, want: seq<seq<Claim>>, first: nat)
  {
    && (forall n: nat :: first <= n < first + |want| ==> OnLine(cs, n) == want[n - first])
    && (forall n: nat :: n < first || first + |want| <= n ==> OnLine(cs, n) == [])
  }

  /** A claim is in `cs` exactly when its line is in range and the claim
      is among that line's. */
  lemma ByLineMembers(cs: seq<Claim>, want: seq<seq<Claim>>, first: nat, c: Claim)
    requires ByLine(cs, want, first)
    ensures c in cs <==> first <= c.line < first + |want| && c in want[c.line - first]
  {
    assert c in cs <==> c in OnLine(cs, c.line);
  }

  /** Numbered per-line claims, put one after the other, are found again
      line by line, and they are in line order. */
  lemma {:induction false} FlattenByLine(want: seq<seq<Claim>>, first: nat)
    requires Numbered(want, first)
    ensures ByLine(Flatten(want), want, first)
    ensures LineOrdered(Flatten(want))
    decreases |want|
  {
    if |want| > 0 {
      var head: seq<Claim>, tail: seq<Claim> := want[0], Flatten(want[1..]);
      assert Flatten(want) == head + tail;
      assert Numbered(want[1..], first + 1) by {
        forall i, k | 0 <= i < |want[1..]| && 0 <= k < |want[1..][i]|
          ensures want[1..][i][k].line == first + 1 + i
        {
          assert want[1..][i] == want[i + 1];
        }
      }
      FlattenByLine(want[1..], first + 1);
      assert forall k :: 0 <= k < |head| ==> head[k].line == first;
      ByLineCons(head, tail, want, first);
      FlattenLines(want[1..], first + 1);
      ConcatLineOrdered(head, tail, first);
    } else {
      forall n: nat
        ensures OnLine(Flatten(want), n) == []
      {
        assert Flatten(want) == [];
      }
    }
  }

  /** Numbered per-line claims put one after the other are from lines
      `first` on. */
  lemma {:induction false} FlattenLines(want: seq<seq<Claim>>, first: nat)
    requires Numbered(want, first)
    ensures forall k :: 0 <= k < |Flatten(want)| ==> first <= Flatten(want)[k].line
    decreases |want|
  {
    if |want| > 0 {
      var head: seq<Claim>, tail: seq<Claim> := want[0], Flatten(want[1..]);
      assert Numbered(want[1..], first + 1) by {
        forall i, k | 0 <= i < |want[1..]| && 0 <= k < |want[1..][i]|
          ensures want[1..][i][k].line == first + 1 + i
        {
          assert want[1..][i] == want[i + 1];
        }
      }
      FlattenLines(want[1..], first + 1);
      assert Flatten(want) == head + tail;
      forall k | 0 <= k < |head + tail|
        ensures first <= (head + tail)[k].line
      {
        if k >= |head| {
          assert (head + tail)[k] == tail[k - |head|];
        }
      }
    }
  }

  lemma ByLineCons(head: seq<Claim>, tail: seq<Claim>, want: seq<seq<Claim>>, first: nat)
    requires |want| > 0 && head == want[0]
    requires forall k :: 0 <= k < |head| ==> head[k].line == first
    requires ByLine(tail, want[1..], first + 1)
    ensures ByLine(head + tail, want, first)
  {
    forall n: nat | first <= n < first + |want|
      ensures OnLine(head + tail, n) == want[n - first]
    {
      OnLineAppend(head, tail, n);
      if n == first {
        OnLineAll(head, n);
      } else {
        OnLineNone(head, n);
        assert want[1..][n - (first + 1)] == want[n - first];
      }
    }
    forall n: nat | n < first || first + |want| <= n
      ensures OnLine(head + tail, n) == []
    {
      OnLineAppend(head, tail, n);
      OnLineNone(head, n);
    }
  }

  lemma ConcatLineOrdered(head: seq<Claim>, tail: seq<Claim>, n: nat)
    requires forall k :: 0 <= k < |head| ==> head[k].line == n
    requires forall k :: 0 <= k < |tail| ==> n < tail[k].line
    requires LineOrdered(tail)
    ensures LineOrdered(head + tail)
  {
    var r := head + tail;
    forall a, b | 0 <= a < b < |r|
      ensures r[a].line <= r[b].line
    {
      if b >= |head| {
        assert r[b] == tail[b - |head|];
        if a >= |head| {
          assert r[a] == tail[a - |head|];
        }
      }
    }
  }

  /** ✅, ⚠️ and ‼️. */
  datatype Grade = Good | Doubtful | Alarming
}
