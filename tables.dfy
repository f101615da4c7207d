/**
  Generic operations on the rows of a table, held in insertion order:
  counting, filtering and finding the first row that satisfies a condition.
 */
module Tables {
  import opened Wrappers

  /** Number of rows of `s` that satisfy `p`. */
  function Count<T>(s: seq<T>, p: T -> bool): (n: nat)
    ensures n <= |s|
    ensures n == 0 <==> forall i :: 0 <= i < |s| ==> !p(s[i])
  {
    if s == [] then 0
    else Count(s[..|s| - 1], p) + (if p(s[|s| - 1]) then 1 else 0)
  }

  /** The rows of `s` that satisfy `p`, in table order. */
  function Filter<T>(s: seq<T>, p: T -> bool): (r: seq<T>)
    ensures |r| == Count(s, p)
    ensures forall x :: x in r ==> x in s && p(x)
  {
    if s == [] then []
    else Filter(s[..|s| - 1], p) + (if p(s[|s| - 1]) then [s[|s| - 1]] else [])
  }

  /**
    The filter keeps every qualifying row as often as the table holds it:
    it misses none and repeats none.
   */
  lemma {:induction false} FilterExact<T>(s: seq<T>, p: T -> bool)
    ensures forall i :: 0 <= i < |s| && p(s[i]) ==> s[i] in Filter(s, p)
    ensures forall i :: 0 <= i < |s| ==>
              multiset(Filter(s, p))[s[i]] == if p(s[i]) then multiset(s)[s[i]] else 0
  {
    if s != [] {
      var init := s[..|s| - 1];
      var last := s[|s| - 1];
      assert s == init + [last];
      FilterExact(init, p);
      var fi := Filter(init, p);
      assert Filter(s, p) == fi + (if p(last) then [last] else []);
      forall i | 0 <= i < |s|
        ensures multiset(Filter(s, p))[s[i]] == if p(s[i]) then multiset(s)[s[i]] else 0
      {
        var x := s[i];
        if x !in init {
          assert x !in fi;
          assert multiset(fi)[x] == 0 && multiset(init)[x] == 0;
        } else {
          var j :| 0 <= j < |init| && init[j] == x;
        }
      }
    }
  }

  /** `r` is `s` read at the strictly increasing positions `idx`. */
  ghost predicate InOrderAt<T>(r: seq<T>, s: seq<T>, idx: seq<nat>)
  {
    |idx| == |r| &&
    (forall k :: 0 <= k < |idx| ==> idx[k] < |s| && r[k] == s[idx[k]]) &&
    (forall k, l :: 0 <= k < l < |idx| ==> idx[k] < idx[l])
  }

  /** The positions of the rows that satisfy `p`, in increasing order. */
  function FilterIndices<T>(s: seq<T>, p: T -> bool): (idx: seq<nat>)
    ensures forall k :: 0 <= k < |idx| ==> idx[k] < |s|
  {
    if s == [] then []
    else FilterIndices(s[..|s| - 1], p) + (if p(s[|s| - 1]) then [|s| - 1] else [])
  }

  /** The filter reads the table at the positions `FilterIndices` lists. */
  lemma {:induction false} FilterAtIndices<T>(s: seq<T>, p: T -> bool)
    ensures |FilterIndices(s, p)| == |Filter(s, p)|
    ensures forall k :: 0 <= k < |FilterIndices(s, p)| ==> Filter(s, p)[k] == s[FilterIndices(s, p)[k]]
  {
    if s != [] {
      var init, n := s[..|s| - 1], |s| - 1;
      FilterAtIndices(init, p);
      var rest := FilterIndices(init, p);
      var idx := FilterIndices(s, p);
      var fi := Filter(init, p);
      assert idx == rest + (if p(s[n]) then [n] else []);
      assert Filter(s, p) == fi + (if p(s[n]) then [s[n]] else []);
      forall k | 0 <= k < |idx|
        ensures Filter(s, p)[k] == s[idx[k]]
      {
        if k < |rest| {
          assert idx[k] == rest[k] && Filter(s, p)[k] == fi[k];
          assert init[rest[k]] == s[rest[k]];
        }
      }
    }
  }

  /** The positions `FilterIndices` lists strictly increase. */
  lemma {:induction false} FilterIndicesIncrease<T>(s: seq<T>, p: T -> bool)
    ensures forall k, l :: 0 <= k < l < |FilterIndices(s, p)| ==> FilterIndices(s, p)[k] < FilterIndices(s, p)[l]
  {
    if s != [] {
      var init, n := s[..|s| - 1], |s| - 1;
      FilterIndicesIncrease(init, p);
      var rest := FilterIndices(init, p);
      var idx := FilterIndices(s, p);
      assert idx == rest + (if p(s[n]) then [n] else []);
      forall k, l | 0 <= k < l < |idx|
        ensures idx[k] < idx[l]
      {
        assert idx[k] == rest[k];
        if l < |rest| {
          assert idx[l] == rest[l];
        }
      }
    }
  }

  /** `FilterIndices` lists every qualifying position and no other. */
  lemma {:induction false} FilterIndicesExact<T>(s: seq<T>, p: T -> bool)
    ensures forall i :: 0 <= i < |s| ==> (p(s[i]) <==> i in FilterIndices(s, p))
  {
    if s != [] {
      var init, n := s[..|s| - 1], |s| - 1;
      FilterIndicesExact(init, p);
      var rest := FilterIndices(init, p);
      var idx := FilterIndices(s, p);
      var tail: seq<nat> := if p(s[n]) then [n] else [];
      assert idx == rest + tail;
      forall i | 0 <= i < |s|
        ensures p(s[i]) <==> i in idx
      {
        if i < n {
          assert init[i] == s[i];
          assert i !in tail;
          assert p(init[i]) <==> i in rest;
          assert i in idx <==> i in rest;
          assert p(s[i]) <==> i in idx;
        } else {
          assert forall k :: 0 <= k < |rest| ==> rest[k] < n;
          assert n !in rest;
          assert n in idx <==> n in tail;
          assert i == n;
          assert p(s[i]) <==> i in idx;
        }
      }
    }
  }

  /**
    The filter lists the qualifying rows in table order: it is the table
    read at strictly increasing positions, which are every qualifying
    position and no other.
   */
  lemma FilterInTableOrder<T>(s: seq<T>, p: T -> bool)
    ensures InOrderAt(Filter(s, p), s, FilterIndices(s, p))
    ensures forall i :: 0 <= i < |s| ==> (p(s[i]) <==> i in FilterIndices(s, p))
  {
    FilterAtIndices(s, p);
    FilterIndicesIncrease(s, p);
    FilterIndicesExact(s, p);
  }

  /** The index of the first row of `s` that satisfies `p`, if any. */
  function First<T>(s: seq<T>, p: T -> bool): (r: Option<nat>)
    ensures r.Some? ==> r.value < |s| && p(s[r.value])
    ensures r.Some? ==> forall j :: 0 <= j < r.value ==> !p(s[j])
    ensures r.None? <==> forall j :: 0 <= j < |s| ==> !p(s[j])
  {
    if s == [] then None
    else if p(s[0]) then Some(0)
    else match First(s[1..], p)
      case None => None
      case Some(k) => Some(k + 1)
  }

  /** A qualifying row with no qualifying row before it is the first. */
  lemma {:induction false} FirstIs<T>(s: seq<T>, p: T -> bool, k: nat)
    requires k < |s| && p(s[k])
    requires forall j :: 0 <= j < k ==> !p(s[j])
    ensures First(s, p) == Some(k)
    decreases k
  {
    if k > 0 {
      assert !p(s[0]);
      forall j | 0 <= j < k - 1
        ensures !p(s[1..][j])
      {
        assert s[1..][j] == s[j + 1];
      }
      FirstIs(s[1..], p, k - 1);
    }
  }

  /** The first qualifying row of a table is that of all but its last row, else the last row if it qualifies. */
  lemma FirstExtends<T>(s: seq<T>, p: T -> bool)
    requires s != []
    ensures First(s, p) == (if First(s[..|s| - 1], p).Some? then First(s[..|s| - 1], p)
                            else if p(s[|s| - 1]) then Some(|s| - 1) else None)
  {
    var init := s[..|s| - 1];
    match First(init, p)
    case Some(i) =>
      assert init[i] == s[i];
      forall j | 0 <= j < i
        ensures !p(s[j])
      {
        assert init[j] == s[j];
      }
      FirstIs(s, p, i);
    case None =>
      forall j | 0 <= j < |init|
        ensures !p(s[j])
      {
        assert init[j] == s[j];
      }
      if p(s[|s| - 1]) {
        FirstIs(s, p, |s| - 1);
      }
  }

  /** Appending one row adds one to the count exactly when the row qualifies. */
  lemma CountAppend<T>(s: seq<T>, x: T, p: T -> bool)
    ensures Count(s + [x], p) == Count(s, p) + (if p(x) then 1 else 0)
  {
    assert (s + [x])[..|s + [x]| - 1] == s;
  }

  /** Extending a prefix by one row adds one to the count exactly when the row qualifies. */
  lemma CountPrefix<T>(s: seq<T>, k: nat, p: T -> bool)
    requires k < |s|
    ensures Count(s[..k + 1], p) == Count(s[..k], p) + (if p(s[k]) then 1 else 0)
  {
    assert s[..k + 1][..k] == s[..k];
  }

  /** Extending a prefix by one row appends that row to the filter exactly when it qualifies. */
  lemma FilterPrefix<T>(s: seq<T>, k: nat, p: T -> bool)
    requires k < |s|
    ensures Filter(s[..k + 1], p) == Filter(s[..k], p) + (if p(s[k]) then [s[k]] else [])
  {
    assert s[..k + 1][..k] == s[..k];
  }

  /** Every qualifying row is kept by the filter. */
  lemma {:induction false} FilterKeeps<T>(s: seq<T>, p: T -> bool, x: T)
    requires x in s && p(x)
    ensures x in Filter(s, p)
  {
    var init := s[..|s| - 1];
    if x != s[|s| - 1] {
      assert s == init + [s[|s| - 1]];
      FilterKeeps(init, p, x);
    }
  }

  /** Counting over a concatenation adds the counts. */
  lemma {:induction false} CountConcat<T>(s: seq<T>, t: seq<T>, p: T -> bool)
    ensures Count(s + t, p) == Count(s, p) + Count(t, p)
  {
    if t == [] {
      assert s + t == s;
    } else {
      var t' := t[..|t| - 1];
      assert s + t == (s + t') + [t[|t| - 1]];
      assert t == t' + [t[|t| - 1]];
      CountConcat(s, t', p);
      CountAppend(s + t', t[|t| - 1], p);
      CountAppend(t', t[|t| - 1], p);
    }
  }

  /**
    Two tables of the same length whose rows qualify at the same positions
    have the same count: an update that never changes whether a row
    qualifies does not change the count.
   */
  lemma {:induction false} CountPointwise<T>(s: seq<T>, t: seq<T>, p: T -> bool, q: T -> bool)
    requires |s| == |t|
    requires forall i :: 0 <= i < |s| ==> p(s[i]) == q(t[i])
    ensures Count(s, p) == Count(t, q)
  {
    if s != [] {
      CountPointwise(s[..|s| - 1], t[..|t| - 1], p, q);
    }
  }

  /** Filtering over a concatenation concatenates the filtered parts. */
  lemma {:induction false} FilterConcat<T>(s: seq<T>, t: seq<T>, p: T -> bool)
    ensures Filter(s + t, p) == Filter(s, p) + Filter(t, p)
  {
    if t == [] {
      assert s + t == s;
    } else {
      var t' := t[..|t| - 1];
      assert s + t == (s + t') + [t[|t| - 1]];
      assert (s + t)[..|s + t| - 1] == s + t';
      FilterConcat(s, t', p);
    }
  }

  /** The first row of a filtered table is the first qualifying row. */
  lemma {:induction false} FilterHeadIsFirst<T>(s: seq<T>, p: T -> bool)
    requires Count(s, p) > 0
    ensures First(s, p).Some? && Filter(s, p)[0] == s[First(s, p).value]
  {
    var i := First(s, p).value;
    var head, tail := s[..i + 1], s[i + 1..];
    assert s == head + tail;
    assert head[..i] == s[..i];
    assert Count(s[..i], p) == 0;
    assert Filter(head, p) == [s[i]];
    FilterConcat(head, tail, p);
  }

  /**
    Two tables of the same length whose rows qualify at the same positions
    have their first qualifying row at the same position.
   */
  lemma {:induction false} FirstPointwise<T>(s: seq<T>, t: seq<T>, p: T -> bool, q: T -> bool)
    requires |s| == |t|
    requires forall i :: 0 <= i < |s| ==> p(s[i]) == q(t[i])
    ensures First(s, p) == First(t, q)
  {
    if s != [] && !p(s[0]) {
      FirstPointwise(s[1..], t[1..], p, q);
    }
  }

  /** A filter that every row passes keeps the whole table. */
  lemma {:induction false} FilterAll<T>(s: seq<T>, p: T -> bool)
    requires forall i :: 0 <= i < |s| ==> p(s[i])
    ensures Filter(s, p) == s
  {
    if s != [] {
      var init, last := s[..|s| - 1], s[|s| - 1];
      assert s == init + [last];
      FilterAll(init, p);
      assert Filter(s, p) == Filter(init, p) + [last];
    }
  }

  /**
    Two tables of the same length that agree on every qualifying row, and
    whose rows qualify at the same positions, filter to the same rows.
   */
  lemma {:induction false} FilterPointwise<T>(s: seq<T>, t: seq<T>, p: T -> bool)
    requires |s| == |t|
    requires forall i :: 0 <= i < |s| ==> p(s[i]) == p(t[i])
    requires forall i :: 0 <= i < |s| && p(s[i]) ==> s[i] == t[i]
    ensures Filter(s, p) == Filter(t, p)
  {
    if s != [] {
      FilterPointwise(s[..|s| - 1], t[..|t| - 1], p);
    }
  }

  /** Two conditions that agree on every row of a table filter it to the same rows. */
  lemma {:induction false} FilterEquivalent<T>(s: seq<T>, p: T -> bool, q: T -> bool)
    requires forall i :: 0 <= i < |s| ==> p(s[i]) == q(s[i])
    ensures Filter(s, p) == Filter(s, q)
  {
    if s != [] {
      var init := s[..|s| - 1];
      assert forall i :: 0 <= i < |init| ==> init[i] == s[i];
      FilterEquivalent(init, p, q);
    }
  }

  /** `f` applied to every row, as `rows.map(f)`. */
  function Map<T, U>(s: seq<T>, f: T -> U): (r: seq<U>)
    ensures |r| == |s| && forall k :: 0 <= k < |s| ==> r[k] == f(s[k])
  {
    seq(|s|, k requires 0 <= k < |s| => f(s[k]))
  }
}
