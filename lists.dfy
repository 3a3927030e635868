/** Order-preserving selection and concatenation of sequences, the two list
    operations the stream pipeline and the trip loop are built from. */
module Lists {

  /** The elements of s that satisfy p, in their order in s. */
  function Filter<T>(s: seq<T>, p: T -> bool): (r: seq<T>)
    ensures |r| <= |s|
  {
    if |s| == 0 then [] else (if p(s[0]) then [s[0]] else []) + Filter(s[1..], p)
  }

  lemma {:induction false} FilterMembers<T>(s: seq<T>, p: T -> bool)
    ensures forall x :: x in Filter(s, p) <==> x in s && p(x)
  {
    if |s| > 0 {
      FilterMembers(s[1..], p);
      assert s == [s[0]] + s[1..];
    }
  }

  lemma {:induction false} FilterNone<T>(s: seq<T>, p: T -> bool)
    requires forall x :: x in s ==> !p(x)
    ensures Filter(s, p) == []
  {
    if |s| > 0 {
      assert s[0] in s;
      assert forall x :: x in s[1..] ==> x in s;
      FilterNone(s[1..], p);
    }
  }

  lemma {:induction false} FilterConcat<T>(a: seq<T>, b: seq<T>, p: T -> bool)
    ensures Filter(a + b, p) == Filter(a, p) + Filter(b, p)
  {
    if |a| == 0 {
      assert a + b == b;
    } else {
      var h := if p(a[0]) then [a[0]] else [];
      assert (a + b)[0] == a[0] && (a + b)[1..] == a[1..] + b;
      assert Filter(a + b, p) == h + Filter(a[1..] + b, p);
      FilterConcat(a[1..], b, p);
      assert Filter(a, p) == h + Filter(a[1..], p);
    }
  }

  /** Selection keeps every selected element with its multiplicity and drops the rest. */
  lemma {:induction false} FilterCount<T>(s: seq<T>, p: T -> bool, x: T)
    ensures multiset(Filter(s, p))[x] == if p(x) then multiset(s)[x] else 0
  {
    if |s| > 0 {
      FilterCount(s[1..], p, x);
      assert s == [s[0]] + s[1..];
    }
  }

  /** Selections by two predicates commute. */
  lemma {:induction false} FilterCommute<T>(s: seq<T>, p: T -> bool, q: T -> bool)
    ensures Filter(Filter(s, p), q) == Filter(Filter(s, q), p)
  {
    if |s| > 0 {
      var h := [s[0]];
      FilterCommute(s[1..], p, q);
      FilterConcat(Filter(h, p), Filter(s[1..], p), q);
      FilterConcat(Filter(h, q), Filter(s[1..], q), p);
      assert Filter(h, p) == (if p(s[0]) then h else []);
      assert Filter(h, q) == (if q(s[0]) then h else []);
    }
  }

  lemma ConcatAssoc<T>(a: seq<T>, b: seq<T>, c: seq<T>)
    ensures a + (b + c) == (a + b) + c
  {
  }

  /** All the pieces, one after the other. */
  function Flatten<T>(ss: seq<seq<T>>): seq<T>
  {
    if |ss| == 0 then [] else Flatten(ss[..|ss| - 1]) + ss[|ss| - 1]
  }

  lemma {:induction false} FlattenConcat<T>(a: seq<seq<T>>, b: seq<seq<T>>)
    ensures Flatten(a + b) == Flatten(a) + Flatten(b)
  {
    if |b| == 0 {
      assert a + b == a;
    } else {
      assert (a + b)[..|a + b| - 1] == a + b[..|b| - 1];
      FlattenConcat(a, b[..|b| - 1]);
    }
  }

  lemma {:induction false} FlattenMembers<T>(ss: seq<seq<T>>, q: int, x: T)
    requires 0 <= q < |ss| && x in ss[q]
    ensures x in Flatten(ss)
  {
    if q < |ss| - 1 {
      FlattenMembers(ss[..|ss| - 1], q, x);
    }
  }

  /** Extending the last piece extends the concatenation. */
  lemma FlattenJoin<T>(ss: seq<seq<T>>, x: T)
    requires |ss| > 0
    ensures Flatten(ss[..|ss| - 1] + [ss[|ss| - 1] + [x]]) == Flatten(ss) + [x]
  {
    var a, last := ss[..|ss| - 1], ss[|ss| - 1];
    var ss' := a + [last + [x]];
    assert ss'[..|ss'| - 1] == a;
    ConcatAssoc(Flatten(a), last, [x]);
  }
}
