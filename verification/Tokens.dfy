/** vore::soft_tokenise of src/include/libvoreutils.hpp: the runs between delimiters. */
module Tokens {
  import opened Basics

  /** A string_view into a text: the half-open range of positions. */
  datatype View = View(lo: nat, hi: nat)

  predicate InText(text: string, v: View) {
    v.lo <= v.hi <= |text|
  }

  function Chars(text: string, v: View): string
    requires InText(text, v)
  {
    text[v.lo..v.hi]
  }

  /** find_first_not_of, from `i` on; the length if there is none. */
  function FirstNotOf(text: string, delim: string, i: nat): (j: nat)
    requires i <= |text|
    ensures i <= j <= |text|
    ensures forall k :: i <= k < j ==> text[k] in delim
    ensures j < |text| ==> text[j] !in delim
    decreases |text| - i
  {
    if i == |text| || text[i] !in delim then i else FirstNotOf(text, delim, i + 1)
  }

  /** find_first_of, from `i` on; the length if there is none. */
  function FirstOf(text: string, delim: string, i: nat): (j: nat)
    requires i <= |text|
    ensures i <= j <= |text|
    ensures forall k :: i <= k < j ==> text[k] !in delim
    ensures j < |text| ==> text[j] in delim
    decreases |text| - i
  {
    if i == |text| || text[i] in delim then i else FirstOf(text, delim, i + 1)
  }

  /** The runs from `i` on. */
  function Runs(text: string, delim: string, i: nat): seq<View>
    requires i <= |text|
    decreases |text| - i
  {
    var lo := FirstNotOf(text, delim, i);
    if lo == |text| then []
    else
      var hi := FirstOf(text, delim, lo);
      [View(lo, hi)] + Runs(text, delim, hi)
  }

  /** A nonempty stretch without delimiters that cannot be extended, not reaching before `i`. */
  predicate MaximalRun(text: string, delim: string, i: nat, v: View) {
    && i <= v.lo < v.hi <= |text|
    && (forall k :: v.lo <= k < v.hi ==> text[k] !in delim)
    && (v.lo > i ==> text[v.lo - 1] in delim)
    && (v.hi < |text| ==> text[v.hi] in delim)
  }

  predicate Covered(views: seq<View>, k: nat) {
    exists n :: 0 <= n < |views| && views[n].lo <= k < views[n].hi
  }

  /** In order, apart, maximal, and together holding every character that is no delimiter. */
  ghost predicate IsTokenisation(text: string, delim: string, i: nat, views: seq<View>) {
    && (forall n :: 0 <= n < |views| ==> MaximalRun(text, delim, i, views[n]))
    && (forall m, n :: 0 <= m < n < |views| ==> views[m].hi < views[n].lo)
    && (forall k :: i <= k < |text| && text[k] !in delim ==> Covered(views, k))
  }

  lemma ExtendRuns(text: string, delim: string, i: nat, lo: nat, hi: nat, rest: seq<View>)
    requires i <= lo < hi <= |text| && MaximalRun(text, delim, i, View(lo, hi)) && forall k :: i <= k < lo ==> text[k] in delim
    requires IsTokenisation(text, delim, hi, rest)
    ensures IsTokenisation(text, delim, i, [View(lo, hi)] + rest)
  {
    var views := [View(lo, hi)] + rest;
    forall n | 0 <= n < |views|
      ensures MaximalRun(text, delim, i, views[n])
      ensures n > 0 ==> hi < views[n].lo
    {
      if n > 0 {
        assert views[n] == rest[n - 1] && MaximalRun(text, delim, hi, rest[n - 1]);
      }
    }
    forall k | i <= k < |text| && text[k] !in delim
      ensures Covered(views, k)
    {
      if k < hi {
        assert views[0].lo <= k < views[0].hi;
      } else {
        var n :| 0 <= n < |rest| && rest[n].lo <= k < rest[n].hi;
        assert views[n + 1] == rest[n];
      }
    }
  }

  lemma {:induction false} RunsTokenise(text: string, delim: string, i: nat)
    requires i <= |text|
    ensures IsTokenisation(text, delim, i, Runs(text, delim, i))
    decreases |text| - i
  {
    var lo := FirstNotOf(text, delim, i);
    if lo < |text| {
      var hi := FirstOf(text, delim, lo);
      RunsTokenise(text, delim, hi);
      assert MaximalRun(text, delim, i, View(lo, hi));
      ExtendRuns(text, delim, i, lo, hi, Runs(text, delim, hi));
    }
  }

  lemma SameRun(text: string, delim: string, v: View, w: View)
    requires MaximalRun(text, delim, 0, v) && MaximalRun(text, delim, 0, w)
    requires w.lo <= v.lo < w.hi
    ensures v == w
  {
  }

  /** The run that covers where another list's n-th run begins is that very run. */
  lemma RunFound(text: string, delim: string, views: seq<View>, others: seq<View>, n: nat) returns (m: nat)
    requires IsTokenisation(text, delim, 0, views) && IsTokenisation(text, delim, 0, others)
    requires n < |views|
    ensures m < |others| && others[m] == views[n]
  {
    var v := views[n];
    assert MaximalRun(text, delim, 0, v);
    assert Covered(others, v.lo);
    m :| 0 <= m < |others| && others[m].lo <= v.lo < others[m].hi;
    assert MaximalRun(text, delim, 0, others[m]);
    SameRun(text, delim, v, others[m]);
  }

  lemma {:induction false} TokenisationPrefix(text: string, delim: string, views: seq<View>, others: seq<View>, n: nat)
    requires IsTokenisation(text, delim, 0, views) && IsTokenisation(text, delim, 0, others)
    requires n <= |views|
    ensures n <= |others| && forall j :: 0 <= j < n ==> others[j] == views[j]
  {
    if n > 0 {
      TokenisationPrefix(text, delim, views, others, n - 1);
      var m := RunFound(text, delim, views, others, n - 1);
      assert n - 1 <= m;
      assert MaximalRun(text, delim, 0, others[n - 1]);
      var l := RunFound(text, delim, others, views, n - 1);
      assert n - 1 <= l;
    }
  }

  /** There is only one such list, so the description above leaves nothing open. */
  lemma TokenisationUnique(text: string, delim: string, views: seq<View>, others: seq<View>)
    requires IsTokenisation(text, delim, 0, views) && IsTokenisation(text, delim, 0, others)
    ensures views == others
  {
    TokenisationPrefix(text, delim, views, others, |views|);
    TokenisationPrefix(text, delim, others, views, |others|);
  }

  /** The iterator: what is left to split, and the current token. */
  class Tokeniser {
    const text: string
    const delim: string
    var remaining: View
    var token: View

    ghost predicate Valid()
      reads this
    {
      && InText(text, remaining) && InText(text, token)
      && remaining.hi == |text|
    }

    constructor (text: string, delim: string)
      ensures Valid() && this.text == text && this.delim == delim && remaining == View(0, |text|)
    {
      this.text, this.delim := text, delim;
      remaining, token := View(0, |text|), View(0, 0);
    }

    /** operator++: an empty token means that there are no more. */
    method Next()
      requires Valid()
      modifies this
      ensures Valid() && old(remaining.lo) <= token.lo
      ensures token.lo == token.hi <==> Runs(text, delim, old(remaining.lo)) == []
      ensures token.lo < token.hi ==>
                Runs(text, delim, old(remaining.lo)) == [token] + Runs(text, delim, remaining.lo)
    {
      var next := FirstNotOf(text, delim, remaining.lo);
      if next != |text| {
        remaining := View(next, |text|);
      }
      var end := FirstOf(text, delim, remaining.lo);
      if end != |text| {
        token := View(remaining.lo, end);
        remaining := View(end, |text|);
      } else {
        token := remaining;
        remaining := View(|text|, |text|);
      }
    }
  }

  /** A range-for over soft_tokenise, collecting every token: it ends, and yields, in order,
      exactly the maximal runs. */
  method Tokenise(text: string, delim: string) returns (views: seq<View>)
    ensures views == Runs(text, delim, 0)
    ensures IsTokenisation(text, delim, 0, views)
  {
    views := [];
    var it := new Tokeniser(text, delim);
    ghost var from: nat := 0;
    it.Next();
    while it.token.lo != it.token.hi
      invariant it.Valid() && it.text == text && it.delim == delim && from <= it.token.lo
      invariant from <= |text|
      invariant it.token.lo == it.token.hi <==> Runs(text, delim, from) == []
      invariant it.token.lo < it.token.hi ==>
          Runs(text, delim, from) == [it.token] + Runs(text, delim, it.remaining.lo)
      invariant views + Runs(text, delim, from) == Runs(text, delim, 0)
      decreases |Runs(text, delim, from)|
    {
      Regroup(views, [it.token], Runs(text, delim, it.remaining.lo));
      views := views + [it.token];
      from := it.remaining.lo;
      it.Next();
    }
    assert views == Runs(text, delim, 0);
    RunsTokenise(text, delim, 0);
  }
}
