/** Sequence utilities shared by the feed mapping and the CSV loader. */
module Seqs {

  import opened Wrappers

  /** Apply `f` to each element in order, keeping the values it returns. */
  function FilterMap<A, B>(xs: seq<A>, f: A -> Option<B>): (ys: seq<B>)
    ensures |ys| <= |xs|
    ensures forall k :: 0 <= k < |ys| ==> exists j :: 0 <= j < |xs| && f(xs[j]) == Some(ys[k])
    decreases |xs|
  {
    if |xs| == 0 then []
    else
      var init := FilterMap(xs[..|xs| - 1], f);
      assert forall k :: 0 <= k < |init| ==> exists j :: 0 <= j < |xs| && f(xs[j]) == Some(init[k]) by {
        forall k | 0 <= k < |init| ensures exists j :: 0 <= j < |xs| && f(xs[j]) == Some(init[k]) {
          var j :| 0 <= j < |xs| - 1 && f(xs[..|xs| - 1][j]) == Some(init[k]);
          assert xs[..|xs| - 1][j] == xs[j];
        }
      }
      match f(xs[|xs| - 1])
      case None => init
      case Some(y) => init + [y]
  }

  /** Mapping two sequences one after the other is mapping each, in order. */
  lemma {:induction false} FilterMapAppend<A, B>(a: seq<A>, b: seq<A>, f: A -> Option<B>)
    ensures FilterMap(a + b, f) == FilterMap(a, f) + FilterMap(b, f)
    decreases |b|
  {
    if |b| == 0 {
      assert a + b == a;
    } else {
      var b' := b[..|b| - 1];
      var x := b[|b| - 1];
      assert (a + b)[..|a + b| - 1] == a + b';
      assert (a + b)[|a + b| - 1] == x;
      FilterMapAppend(a, b', f);
      var tail := if f(x).Some? then [f(x).value] else [];
      assert FilterMap(a + b, f) == FilterMap(a + b', f) + tail;
      assert FilterMap(b, f) == FilterMap(b', f) + tail;
    }
  }

  /** A property every kept value has holds of every output. */
  lemma FilterMapKeeps<A, B>(xs: seq<A>, f: A -> Option<B>, p: B -> bool)
    requires forall x :: f(x).Some? ==> p(f(x).value)
    ensures forall k :: 0 <= k < |FilterMap(xs, f)| ==> p(FilterMap(xs, f)[k])
  {
    var ys := FilterMap(xs, f);
    forall k | 0 <= k < |ys| ensures p(ys[k]) {
      var j :| 0 <= j < |xs| && f(xs[j]) == Some(ys[k]);
    }
  }

  /** The elements `keep` selects, in order. */
  function Filter<A>(xs: seq<A>, keep: A -> bool): (ys: seq<A>)
    ensures |ys| <= |xs|
    ensures forall k :: 0 <= k < |ys| ==> ys[k] in xs && keep(ys[k])
    decreases |xs|
  {
    if |xs| == 0 then []
    else
      var init := Filter(xs[..|xs| - 1], keep);
      assert forall k :: 0 <= k < |init| ==> init[k] in xs by {
        forall k | 0 <= k < |init| ensures init[k] in xs {
          var j :| 0 <= j < |xs| - 1 && xs[..|xs| - 1][j] == init[k];
          assert xs[j] == init[k];
        }
      }
      if keep(xs[|xs| - 1]) then init + [xs[|xs| - 1]] else init
  }

  /** Every element `keep` selects is kept. */
  lemma {:induction false} FilterComplete<A>(xs: seq<A>, keep: A -> bool, x: A)
    requires x in xs && keep(x)
    ensures x in Filter(xs, keep)
    decreases |xs|
  {
    if x != xs[|xs| - 1] {
      var j :| 0 <= j < |xs| && xs[j] == x;
      assert xs[..|xs| - 1][j] == x;
      FilterComplete(xs[..|xs| - 1], keep, x);
    }
  }

  /** A filter that keeps everything is the identity. */
  lemma {:induction false} FilterAll<A>(xs: seq<A>, keep: A -> bool)
    requires forall k :: 0 <= k < |xs| ==> keep(xs[k])
    ensures Filter(xs, keep) == xs
    decreases |xs|
  {
    if |xs| > 0 {
      FilterAll(xs[..|xs| - 1], keep);
      assert xs[..|xs| - 1] + [xs[|xs| - 1]] == xs;
    }
  }

  /** Every value `f` returns for an element shows up in the output. */
  lemma {:induction false} FilterMapComplete<A, B>(xs: seq<A>, f: A -> Option<B>, x: A)
    requires x in xs && f(x).Some?
    ensures f(x).value in FilterMap(xs, f)
    decreases |xs|
  {
    if x != xs[|xs| - 1] {
      var j :| 0 <= j < |xs| && xs[j] == x;
      assert xs[..|xs| - 1][j] == x;
      FilterMapComplete(xs[..|xs| - 1], f, x);
    }
  }
}
