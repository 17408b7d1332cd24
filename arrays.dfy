/** The JavaScript array built-ins the file repositories rely on: `findIndex` and `filter`. */
module Arrays {

  /** `s.findIndex(p)`: the first index whose element satisfies `p`, or -1 when there is none. */
  function FindIndex<T>(s: seq<T>, p: T -> bool): (r: int)
    ensures -1 <= r < |s|
    ensures r >= 0 ==> p(s[r]) && forall j :: 0 <= j < r ==> !p(s[j])
    ensures r == -1 <==> forall j :: 0 <= j < |s| ==> !p(s[j])
  {
    if |s| == 0 then -1
    else if p(s[0]) then 0
    else
      var k := FindIndex(s[1..], p);
      if k == -1 then -1 else k + 1
  }

  /** The two clauses of `FindIndex`'s contract determine its value. */
  lemma FindIndexIs<T>(s: seq<T>, p: T -> bool, k: int)
    requires (k == -1 && forall j :: 0 <= j < |s| ==> !p(s[j]))
          || (0 <= k < |s| && p(s[k]) && forall j :: 0 <= j < k ==> !p(s[j]))
    ensures FindIndex(s, p) == k
  {
  }

  /** Searching `s + [x]` finds the first hit in `s`, else `x` itself, else nothing. */
  lemma {:induction false} FindIndexAppend<T>(s: seq<T>, x: T, p: T -> bool)
    ensures FindIndex(s + [x], p)
         == if FindIndex(s, p) >= 0 then FindIndex(s, p) else if p(x) then |s| else -1
  {
    var k := FindIndex(s, p);
    var s' := s + [x];
    if k >= 0 {
      assert s'[k] == s[k];
      assert forall j :: 0 <= j < k ==> s'[j] == s[j];
      FindIndexIs(s', p, k);
    } else if p(x) {
      assert forall j :: 0 <= j < |s| ==> s'[j] == s[j];
      FindIndexIs(s', p, |s|);
    } else {
      assert forall j :: 0 <= j < |s| ==> s'[j] == s[j];
      FindIndexIs(s', p, -1);
    }
  }

  /** `s.filter(p)`: the elements of `s` that satisfy `p`, in their original order. */
  function Filter<T>(s: seq<T>, p: T -> bool): (r: seq<T>)
    ensures |r| <= |s|
    ensures forall j :: 0 <= j < |r| ==> r[j] in s && p(r[j])
    ensures forall j :: 0 <= j < |s| && p(s[j]) ==> s[j] in r
  {
    if |s| == 0 then []
    else (if p(s[0]) then [s[0]] else []) + Filter(s[1..], p)
  }

  /** Filtering distributes over concatenation, so the kept elements stay in stored order. */
  lemma {:induction false} FilterAppend<T>(a: seq<T>, b: seq<T>, p: T -> bool)
    ensures Filter(a + b, p) == Filter(a, p) + Filter(b, p)
  {
    if |a| == 0 {
      assert a + b == b;
    } else {
      assert (a + b)[0] == a[0];
      assert (a + b)[1..] == a[1..] + b;
      FilterAppend(a[1..], b, p);
    }
  }

  /** When every element satisfies `p`, filtering keeps the whole sequence. */
  lemma {:induction false} FilterAll<T>(s: seq<T>, p: T -> bool)
    requires forall j :: 0 <= j < |s| ==> p(s[j])
    ensures Filter(s, p) == s
  {
    if |s| > 0 {
      FilterAll(s[1..], p);
    }
  }

  /**
   * Filtering with a `q` that keeps every element `p` looks for does not change what `findIndex`
   * finds: the first hit in the filtered sequence is the first hit in the original.
   */
  lemma {:induction false} FindIndexFilter<T>(s: seq<T>, p: T -> bool, q: T -> bool)
    requires forall x :: p(x) ==> q(x)
    ensures (FindIndex(Filter(s, q), p) >= 0) == (FindIndex(s, p) >= 0)
    ensures FindIndex(s, p) >= 0 ==> Filter(s, q)[FindIndex(Filter(s, q), p)] == s[FindIndex(s, p)]
  {
    if |s| > 0 {
      FindIndexFilter(s[1..], p, q);
      if q(s[0]) {
        assert Filter(s, q) == [s[0]] + Filter(s[1..], q);
      } else {
        assert Filter(s, q) == Filter(s[1..], q);
      }
    }
  }
}
