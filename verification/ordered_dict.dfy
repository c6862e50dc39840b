/** Python's `dict`: a finite map that remembers the order in which keys were
    first inserted. Iteration follows that order, overwriting a key keeps its
    place, and `pop` removes it. */
module OrderedDict {
  import opened Wrappers

  /** No element occurs twice. */
  ghost predicate NoDup(xs: seq<string>)
  {
    forall i, j :: 0 <= i < j < |xs| ==> xs[i] != xs[j]
  }

  /** A dict with string keys; `order` lists the keys of `items` in insertion order. */
  datatype Dict<V> = Dict(order: seq<string>, items: map<string, V>)
  {
    ghost predicate Valid()
    {
      && NoDup(order)
      && (forall k :: k in order <==> k in items)
    }

    /** `d.get(k)`. */
    function Get(k: string): (r: Option<V>)
      ensures r.Some? <==> k in items
      ensures r.Some? ==> r.value == items[k]
    {
      if k in items then Some(items[k]) else None
    }

    /** `d[k] = v`: a key already present keeps its position, a new key goes last. */
    function Put(k: string, v: V): (d: Dict<V>)
      requires Valid()
      ensures d.Valid()
      ensures d.items == items[k := v]
      ensures k in items ==> d.order == order
      ensures k !in items ==> d.order == order + [k]
    {
      if k in items then Dict(order, items[k := v]) else Dict(order + [k], items[k := v])
    }

    /** `d.pop(k)` for a key that is present: the other keys keep their relative order. */
    function Remove(k: string): (d: Dict<V>)
      requires Valid()
      ensures d.Valid()
      ensures d.items == items - {k}
      ensures d.order == Without(order, k)
    {
      WithoutNoDup(order, k);
      Dict(Without(order, k), items - {k})
    }
  }

  /** `{}`. */
  function Empty<V>(): (d: Dict<V>)
    ensures d.Valid() && d.order == [] && d.items == map[]
  {
    Dict([], map[])
  }

  /** `xs` with every occurrence of `x` dropped, the rest in order. */
  function Without(xs: seq<string>, x: string): (r: seq<string>)
    ensures forall y :: y in r <==> y in xs && y != x
    ensures |r| <= |xs|
  {
    if |xs| == 0 then []
    else if xs[0] == x then Without(xs[1..], x)
    else [xs[0]] + Without(xs[1..], x)
  }

  /** A leading `x` is dropped. */
  lemma WithoutDrop(t: seq<string>, x: string)
    ensures Without([x] + t, x) == Without(t, x)
  {
    assert ([x] + t)[0] == x && ([x] + t)[1..] == t;
  }

  /** A leading key other than `x` is kept, in front. */
  lemma WithoutKeep(h: string, t: seq<string>, x: string)
    requires h != x
    ensures Without([h] + t, x) == [h] + Without(t, x)
  {
    assert ([h] + t)[0] == h && ([h] + t)[1..] == t;
  }

  /** Removal works piecewise: each part keeps its own order and the parts
      keep theirs. */
  lemma {:induction false} WithoutAppend(p: seq<string>, q: seq<string>, x: string)
    ensures Without(p + q, x) == Without(p, x) + Without(q, x)
  {
    if |p| == 0 {
      assert p + q == q;
    } else {
      var h, t := p[0], p[1..];
      assert p + q == [h] + (t + q);
      assert p == [h] + t;
      WithoutAppend(t, q, x);
      if h == x {
        WithoutDrop(t + q, x);
        WithoutDrop(t, x);
      } else {
        WithoutKeep(h, t + q, x);
        WithoutKeep(h, t, x);
        assert [h] + (Without(t, x) + Without(q, x)) == ([h] + Without(t, x)) + Without(q, x);
      }
    }
  }

  /** Removing a key that is not there changes nothing. */
  lemma {:induction false} WithoutAbsent(xs: seq<string>, x: string)
    requires x !in xs
    ensures Without(xs, x) == xs
  {
    if |xs| > 0 {
      assert xs == [xs[0]] + xs[1..];
      WithoutKeep(xs[0], xs[1..], x);
      WithoutAbsent(xs[1..], x);
    }
  }

  /** Dropping the one occurrence of `x` closes the gap it leaves: what stood
      before it and what stood after it keep their order. */
  lemma WithoutSplit(a: seq<string>, x: string, b: seq<string>)
    requires x !in a && x !in b
    ensures Without(a + [x] + b, x) == a + b
  {
    WithoutAbsent(a, x);
    WithoutAbsent(b, x);
    WithoutDrop([], x);
    assert [x] + [] == [x];
    var wx := Without([x], x);
    assert wx == [];
    WithoutAppend(a, [x], x);
    assert Without(a + [x], x) == a + wx;
    assert a + wx == a;
    WithoutAppend(a + [x], b, x);
  }

  /** Removal keeps a duplicate-free sequence duplicate-free. */
  lemma {:induction false} WithoutNoDup(xs: seq<string>, x: string)
    requires NoDup(xs)
    ensures NoDup(Without(xs, x))
  {
    if |xs| > 0 {
      assert xs == [xs[0]] + xs[1..];
      assert NoDup(xs[1..]);
      WithoutNoDup(xs[1..], x);
      if xs[0] == x {
        WithoutDrop(xs[1..], x);
      } else {
        WithoutKeep(xs[0], xs[1..], x);
        assert xs[0] !in xs[1..];
      }
    }
  }
}
