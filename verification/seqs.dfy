/** The optional value the service code expresses with C# `null`. */
module Options {

  datatype Option<+T> = None | Some(value: T)
}

/** Generic sequence helpers shared by the byte and text layers. */
module Seqs {

  /** Concatenation of a sequence of sequences, in order. */
  function Concat<T>(ss: seq<seq<T>>): (r: seq<T>)
    ensures |ss| == 0 ==> r == []
  {
    if |ss| == 0 then [] else ss[0] + Concat(ss[1..])
  }

  lemma {:induction false} ConcatAppend<T>(a: seq<seq<T>>, b: seq<seq<T>>)
    ensures Concat(a + b) == Concat(a) + Concat(b)
    decreases |a|
  {
    if |a| == 0 {
      assert a + b == b;
    } else {
      assert (a + b)[1..] == a[1..] + b;
      ConcatAppend(a[1..], b);
    }
  }

  lemma ConcatSnoc<T>(a: seq<seq<T>>, x: seq<T>)
    ensures Concat(a + [x]) == Concat(a) + x
  {
    ConcatAppend(a, [x]);
    assert Concat([x]) == x + Concat([]);
  }
}

/**
 * Keeping the values a per-element function produces, in element order:
 * the shape of a loop that adds to a list whatever a parse step returns.
 */
module Selection {
  import opened Options

  /** The values among optional results, in order. */
  function Present<T>(rs: seq<Option<T>>): (vs: seq<T>)
    ensures |vs| <= |rs|
  {
    if |rs| == 0 then [] else (if rs[0].Some? then [rs[0].value] else []) + Present(rs[1..])
  }

  lemma {:induction false} PresentAppend<T>(a: seq<Option<T>>, b: seq<Option<T>>)
    ensures Present(a + b) == Present(a) + Present(b)
    decreases |a|
  {
    if |a| == 0 {
      assert a + b == b;
    } else {
      var head: seq<T> := if a[0].Some? then [a[0].value] else [];
      assert (a + b)[0] == a[0];
      assert (a + b)[1..] == a[1..] + b;
      assert Present(a + b) == head + Present(a[1..] + b);
      PresentAppend(a[1..], b);
      assert Present(a) == head + Present(a[1..]);
    }
  }

  /** Every value kept is one of the results. */
  lemma {:induction false} PresentSound<T>(rs: seq<Option<T>>)
    ensures forall k :: 0 <= k < |Present(rs)| ==> Some(Present(rs)[k]) in rs
    decreases |rs|
  {
    if |rs| > 0 {
      PresentSound(rs[1..]);
      var vs, rest := Present(rs), Present(rs[1..]);
      var head: seq<T> := if rs[0].Some? then [rs[0].value] else [];
      assert vs == head + rest;
      forall k | 0 <= k < |vs|
        ensures Some(vs[k]) in rs
      {
        if k >= |head| {
          assert vs[k] == rest[k - |head|];
          assert Some(vs[k]) in rs[1..];
        }
      }
    }
  }

  /** Results that are all values are kept, all of them, in order. */
  lemma {:induction false} PresentAll<T>(rs: seq<Option<T>>, vs: seq<T>)
    requires |rs| == |vs|
    requires forall k :: 0 <= k < |rs| ==> rs[k] == Some(vs[k])
    ensures Present(rs) == vs
    decreases |rs|
  {
    if |rs| > 0 {
      PresentAll(rs[1..], vs[1..]);
    }
  }

  /** `f` applied to every element, keeping the values it returns. */
  function Collect<S, T>(xs: seq<S>, f: S -> Option<T>): (vs: seq<T>)
    ensures |vs| <= |xs|
  {
    Present(seq(|xs|, k requires 0 <= k < |xs| => f(xs[k])))
  }

  /** Element order is value order. */
  lemma CollectAppend<S, T>(xs: seq<S>, ys: seq<S>, f: S -> Option<T>)
    ensures Collect(xs + ys, f) == Collect(xs, f) + Collect(ys, f)
  {
    var r := seq(|xs + ys|, k requires 0 <= k < |xs + ys| => f((xs + ys)[k]));
    var a := seq(|xs|, k requires 0 <= k < |xs| => f(xs[k]));
    var b := seq(|ys|, k requires 0 <= k < |ys| => f(ys[k]));
    assert r == a + b;
    PresentAppend(a, b);
  }

  /** Every value comes from one of the elements. */
  lemma CollectSound<S, T>(xs: seq<S>, f: S -> Option<T>)
    ensures forall k :: 0 <= k < |Collect(xs, f)| ==>
      exists j :: 0 <= j < |xs| && f(xs[j]) == Some(Collect(xs, f)[k])
  {
    var rs := seq(|xs|, k requires 0 <= k < |xs| => f(xs[k]));
    var vs := Collect(xs, f);
    PresentSound(rs);
    forall k | 0 <= k < |vs|
      ensures exists j :: 0 <= j < |xs| && f(xs[j]) == Some(vs[k])
    {
      var j :| 0 <= j < |rs| && rs[j] == Some(vs[k]);
      assert f(xs[j]) == Some(vs[k]);
    }
  }

  /** Elements that each give a value give those values, in order. */
  lemma CollectAll<S, T>(xs: seq<S>, f: S -> Option<T>, vs: seq<T>)
    requires |xs| == |vs|
    requires forall k :: 0 <= k < |xs| ==> f(xs[k]) == Some(vs[k])
    ensures Collect(xs, f) == vs
  {
    PresentAll(seq(|xs|, k requires 0 <= k < |xs| => f(xs[k])), vs);
  }

  lemma CollectOne<S, T>(x: S, f: S -> Option<T>)
    ensures Collect([x], f) == if f(x).Some? then [f(x).value] else []
  {
    var rs := seq(1, k requires 0 <= k < 1 => f([x][k]));
    assert rs == [f(x)];
    assert rs[1..] == [];
  }
}
