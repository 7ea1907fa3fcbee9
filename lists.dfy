/** Sequence helpers: Swift's `Array.last` and `compactMap`. */
module Lists {
  import opened Wrappers

  /** `xs.last` for a non-empty array. */
  function Last<T>(xs: seq<T>): T
    requires |xs| > 0
  {
    xs[|xs| - 1]
  }

  /** `xs.compactMap(f)`: the values `f` yields, in the order of `xs`. */
  function CompactMap<A, B>(f: A -> Option<B>, xs: seq<A>): (r: seq<B>)
    ensures |r| <= |xs|
  {
    if xs == [] then []
    else
      (match f(xs[0]) case Some(b) => [b] case None => []) + CompactMap(f, xs[1..])
  }

  /** `xs.map(f)` with a `!` on each result: `None` when `f` fails on some
      element, and otherwise every element's value, position by position. */
  function MapAll<A, B>(f: A -> Option<B>, xs: seq<A>): (r: Option<seq<B>>)
    ensures r.Some? <==> forall i :: 0 <= i < |xs| ==> f(xs[i]).Some?
    ensures r.Some? ==> |r.value| == |xs|
    ensures r.Some? ==> forall i :: 0 <= i < |xs| ==> Some(r.value[i]) == f(xs[i])
  {
    if xs == [] then Some([])
    else
      var head, rest := f(xs[0]), MapAll(f, xs[1..]);
      assert forall i :: 0 < i < |xs| ==> xs[i] == xs[1..][i - 1];
      if head.None? || rest.None? then None
      else Some([head.value] + rest.value)
  }

  /** `MapAll` yields `ys` when `f` maps each element to the value at the
      same position of `ys`. */
  lemma MapAllOf<A, B>(f: A -> Option<B>, xs: seq<A>, ys: seq<B>)
    requires |xs| == |ys| && forall i :: 0 <= i < |xs| ==> f(xs[i]) == Some(ys[i])
    ensures MapAll(f, xs) == Some(ys)
  {
    assert forall i :: 0 <= i < |xs| ==> f(xs[i]).Some?;
    var r := MapAll(f, xs);
    forall i | 0 <= i < |xs| ensures r.value[i] == ys[i] {
      assert Some(r.value[i]) == f(xs[i]);
    }
    assert r.value == ys;
  }

  /** `MapAll` over all but the first element fails exactly when `f` fails
      on one of those elements. */
  lemma MapAllAfterFirst<A, B>(f: A -> Option<B>, xs: seq<A>)
    requires |xs| > 0
    ensures MapAll(f, xs[1..]).None? <==> exists i :: 1 <= i < |xs| && f(xs[i]).None?
    ensures MapAll(f, xs[1..]).Some? ==>
      forall i :: 1 <= i < |xs| ==> Some(MapAll(f, xs[1..]).value[i - 1]) == f(xs[i])
  {
    var tail := xs[1..];
    if MapAll(f, tail).None? {
      var j :| 0 <= j < |tail| && f(tail[j]).None?;
      assert xs[j + 1] == tail[j];
    } else {
      forall i | 1 <= i < |xs| ensures Some(MapAll(f, tail).value[i - 1]) == f(xs[i]) {
        assert xs[i] == tail[i - 1];
      }
    }
  }

  /** The positions in `xs` of the elements `f` keeps, in increasing order. */
  function Kept<A, B>(f: A -> Option<B>, xs: seq<A>): seq<nat> {
    if xs == [] then []
    else
      (if f(xs[0]).Some? then [0] else []) + Shift(Kept(f, xs[1..]))
  }

  function Shift(ks: seq<nat>): (r: seq<nat>)
    ensures |r| == |ks|
    ensures forall j :: 0 <= j < |ks| ==> r[j] == ks[j] + 1
  {
    if ks == [] then [] else [ks[0] + 1] + Shift(ks[1..])
  }

  /** `compactMap` keeps exactly the elements `f` maps to a value, in their
      original order: the k-th result comes from position `Kept(f, xs)[k]`,
      those positions increase, and every element `f` keeps is among them. */
  lemma CompactMapKeeps<A, B>(f: A -> Option<B>, xs: seq<A>)
    ensures |Kept(f, xs)| == |CompactMap(f, xs)|
    ensures forall k :: 0 <= k < |Kept(f, xs)| ==>
      Kept(f, xs)[k] < |xs| && f(xs[Kept(f, xs)[k]]) == Some(CompactMap(f, xs)[k])
    ensures forall k, l :: 0 <= k < l < |Kept(f, xs)| ==> Kept(f, xs)[k] < Kept(f, xs)[l]
    ensures forall i :: 0 <= i < |xs| && f(xs[i]).Some? ==> i in Kept(f, xs)
  {
    KeptSound(f, xs);
    KeptIncreasing(f, xs);
    KeptComplete(f, xs);
  }

  lemma {:induction false} KeptSound<A, B>(f: A -> Option<B>, xs: seq<A>)
    ensures |Kept(f, xs)| == |CompactMap(f, xs)|
    ensures forall k :: 0 <= k < |Kept(f, xs)| ==>
      Kept(f, xs)[k] < |xs| && f(xs[Kept(f, xs)[k]]) == Some(CompactMap(f, xs)[k])
  {
    if xs != [] {
      var tail := xs[1..];
      KeptSound(f, tail);
      var ks, r := Kept(f, tail), CompactMap(f, tail);
      var head := if f(xs[0]).Some? then [0] else [];
      var hr := match f(xs[0]) case Some(b) => [b] case None => [];
      assert Kept(f, xs) == head + Shift(ks);
      assert CompactMap(f, xs) == hr + r;
      forall k | 0 <= k < |Kept(f, xs)|
        ensures Kept(f, xs)[k] < |xs| && f(xs[Kept(f, xs)[k]]) == Some(CompactMap(f, xs)[k])
      {
        if k >= |head| {
          var j := k - |head|;
          assert Kept(f, xs)[k] == ks[j] + 1;
          assert CompactMap(f, xs)[k] == r[j];
          assert xs[ks[j] + 1] == tail[ks[j]];
        }
      }
    }
  }

  lemma {:induction false} KeptIncreasing<A, B>(f: A -> Option<B>, xs: seq<A>)
    ensures forall k :: 0 <= k < |Kept(f, xs)| ==> Kept(f, xs)[k] < |xs|
    ensures forall k, l :: 0 <= k < l < |Kept(f, xs)| ==> Kept(f, xs)[k] < Kept(f, xs)[l]
  {
    if xs != [] {
      var tail := xs[1..];
      KeptIncreasing(f, tail);
      var ks := Kept(f, tail);
      var head: seq<nat> := if f(xs[0]).Some? then [0] else [];
      assert Kept(f, xs) == head + Shift(ks);
    }
  }

  lemma {:induction false} KeptComplete<A, B>(f: A -> Option<B>, xs: seq<A>)
    ensures forall i :: 0 <= i < |xs| && f(xs[i]).Some? ==> i in Kept(f, xs)
  {
    if xs != [] {
      var tail := xs[1..];
      KeptComplete(f, tail);
      var ks := Kept(f, tail);
      var head: seq<nat> := if f(xs[0]).Some? then [0] else [];
      assert Kept(f, xs) == head + Shift(ks);
      forall i | 0 < i < |xs| && f(xs[i]).Some?
        ensures i in Kept(f, xs)
      {
        assert xs[i] == tail[i - 1];
        ShiftHas(ks, i - 1);
      }
    }
  }

  lemma ShiftHas(ks: seq<nat>, x: nat)
    requires x in ks
    ensures x + 1 in Shift(ks)
  {
    var j :| 0 <= j < |ks| && ks[j] == x;
    assert Shift(ks)[j] == x + 1;
  }
}
