/** Sequence helpers shared by the likelihood model: the row filter that stands
    for a boolean mask over a table, the "first match" relation that stands for
    taking row 0 of a filtered table, and the index set that gives counts an
    independent meaning. */
module Seqs {

  datatype Option<+T> = None | Some(value: T)

  /** The elements of `s` that satisfy `p`, in their original order. */
  function Filter<T(!new)>(s: seq<T>, p: T -> bool): (r: seq<T>)
    ensures |r| <= |s|
    ensures forall x :: x in r <==> x in s && p(x)
  {
    if |s| == 0 then []
    else
      var init := Filter(s[..|s| - 1], p);
      assert forall x :: x in s <==> x in s[..|s| - 1] || x == s[|s| - 1];
      if p(s[|s| - 1]) then init + [s[|s| - 1]] else init
  }

  /** The predicate that holds exactly where `p` does not. */
  function Not<T>(p: T -> bool): T -> bool
  {
    x => !p(x)
  }

  /** Index `i` holds the first element of `s` that satisfies `p`. */
  predicate IsFirstMatch<T>(s: seq<T>, p: T -> bool, i: int)
  {
    0 <= i < |s| && p(s[i]) && forall j :: 0 <= j < i ==> !p(s[j])
  }

  /** The positions of `s` whose element satisfies `p`. */
  function Positions<T>(s: seq<T>, p: T -> bool): (ix: set<int>)
    ensures forall i :: i in ix <==> 0 <= i < |s| && p(s[i])
  {
    set i | 0 <= i < |s| && p(s[i])
  }

  /** Filtering a concatenation filters each part. */
  lemma {:induction false} FilterAppend<T(!new)>(a: seq<T>, b: seq<T>, p: T -> bool)
    ensures Filter(a + b, p) == Filter(a, p) + Filter(b, p)
  {
    if |b| > 0 {
      var n := |b| - 1;
      assert (a + b)[..|a + b| - 1] == a + b[..n];
      FilterAppend(a, b[..n], p);
    } else {
      assert a + b == a;
    }
  }

  /** Nothing is kept when no element satisfies the predicate. */
  lemma FilterNone<T(!new)>(s: seq<T>, p: T -> bool)
    requires forall x :: x in s ==> !p(x)
    ensures Filter(s, p) == []
  {
  }

  /** The head of a filtered sequence is the first matching element, and the
      filter is empty exactly when nothing matches. */
  lemma {:induction false} FilterHead<T(!new)>(s: seq<T>, p: T -> bool)
    ensures |Filter(s, p)| == 0 <==> forall j :: 0 <= j < |s| ==> !p(s[j])
    ensures |Filter(s, p)| > 0 ==>
              exists i :: IsFirstMatch(s, p, i) && Filter(s, p)[0] == s[i]
  {
    if |s| == 0 {
    } else {
      var n := |s| - 1;
      var init := s[..n];
      FilterHead(init, p);
      assert forall j :: 0 <= j < n ==> init[j] == s[j];
      if |Filter(init, p)| > 0 {
        var i :| IsFirstMatch(init, p, i) && Filter(init, p)[0] == init[i];
        assert IsFirstMatch(s, p, i);
      } else if p(s[n]) {
        assert IsFirstMatch(s, p, n);
        assert Filter(s, p)[0] == s[n];
      } else {
        assert forall j :: 0 <= j < |s| ==> !p(s[j]) by {
          forall j | 0 <= j < |s| ensures !p(s[j]) {
            if j < n { assert s[j] == init[j]; }
          }
        }
      }
    }
  }

  /** The first match, when there is one, is unique. */
  lemma FirstMatchUnique<T>(s: seq<T>, p: T -> bool, i: int, k: int)
    requires IsFirstMatch(s, p, i) && IsFirstMatch(s, p, k)
    ensures i == k
  {
  }

  /** Extending a sequence by one element adds at most its index to the
      matching positions. */
  lemma PositionsSnoc<T>(s: seq<T>, p: T -> bool)
    requires |s| > 0
    ensures Positions(s, p) == Positions(s[..|s| - 1], p) + (if p(s[|s| - 1]) then {|s| - 1} else {})
  {
    var n := |s| - 1;
    forall i | i in Positions(s, p) ensures i in Positions(s[..n], p) || (p(s[n]) && i == n) {
      if i < n { assert s[..n][i] == s[i]; }
    }
    forall i | i in Positions(s[..n], p) ensures i in Positions(s, p) {
      assert s[..n][i] == s[i];
    }
  }

  /** The filter keeps one element per matching position: its length is the
      number of matching indices. */
  lemma {:induction false} FilterLengthIsPositionCount<T(!new)>(s: seq<T>, p: T -> bool)
    ensures |Filter(s, p)| == |Positions(s, p)|
  {
    if |s| == 0 {
      assert Positions(s, p) == {};
    } else {
      var n := |s| - 1;
      FilterLengthIsPositionCount(s[..n], p);
      PositionsSnoc(s, p);
      assert n !in Positions(s[..n], p);
    }
  }

  /** A weaker predicate keeps at least as many elements. */
  lemma {:induction false} FilterLengthMonotone<T(!new)>(s: seq<T>, p: T -> bool, q: T -> bool)
    requires forall j :: 0 <= j < |s| && p(s[j]) ==> q(s[j])
    ensures |Filter(s, p)| <= |Filter(s, q)|
  {
    if |s| > 0 {
      var n := |s| - 1;
      assert forall j :: 0 <= j < n ==> s[..n][j] == s[j];
      FilterLengthMonotone(s[..n], p, q);
    }
  }

  /** A predicate every element satisfies keeps the whole sequence. */
  lemma {:induction false} FilterAll<T(!new)>(s: seq<T>, p: T -> bool)
    requires forall x :: x in s ==> p(x)
    ensures Filter(s, p) == s
  {
    if |s| > 0 {
      var n := |s| - 1;
      FilterAll(s[..n], p);
      assert s[..n] + [s[n]] == s;
    }
  }

  /** Predicates that agree on every element keep the same elements. */
  lemma {:induction false} FilterCongruent<T(!new)>(s: seq<T>, p: T -> bool, q: T -> bool)
    requires forall j :: 0 <= j < |s| ==> (p(s[j]) <==> q(s[j]))
    ensures Filter(s, p) == Filter(s, q)
  {
    if |s| > 0 {
      var n := |s| - 1;
      assert forall j :: 0 <= j < n ==> s[..n][j] == s[j];
      FilterCongruent(s[..n], p, q);
    }
  }
}
