/** packages/ecvrf/src/expand.ts, shuffle: Fisher-Yates as a function of its choices, and its exactness. */
module Shuffle {
  import opened Common
  import opened Bits
  import opened Products
  import opened Rejection

  function Swap<T>(s: seq<T>, i: nat, j: nat): (r: seq<T>)
    requires i < |s| && j < |s|
    ensures |r| == |s| && r[i] == s[j] && r[j] == s[i]
    ensures forall k :: 0 <= k < |s| && k != i && k != j ==> r[k] == s[k]
    ensures multiset(r) == multiset(s)
  {
    s[i := s[j]][j := s[i]]
  }

  /** One choice j in [0, i] for each i from n - 1 down to 1. */
  predicate ValidChoices(n: nat, js: seq<nat>) {
    |js| == (if n == 0 then 0 else n - 1) &&
    forall t :: 0 <= t < |js| ==> js[t] <= n - 1 - t
  }

  /** Swap the chosen element into the last place, then arrange the rest. */
  function FisherYates<T>(s: seq<T>, js: seq<nat>): (r: seq<T>)
    requires ValidChoices(|s|, js)
    ensures |r| == |s|
    decreases |s|
  {
    if |s| <= 1 then s
    else
      var n := |s| - 1;
      var t := Swap(s, n, js[0]);
      FisherYates(t[..n], js[1..]) + [t[n]]
  }

  predicate Distinct<T(==)>(s: seq<T>) {
    forall i, j :: 0 <= i < j < |s| ==> s[i] != s[j]
  }

  lemma WithoutLast<T>(s: seq<T>)
    requires |s| > 0
    ensures multiset(s[..|s| - 1]) == multiset(s) - multiset{s[|s| - 1]}
  {
    assert s == s[..|s| - 1] + [s[|s| - 1]];
  }

  /** Every choice vector gives a permutation of the input. */
  lemma {:induction false} FisherYatesPermutes<T>(s: seq<T>, js: seq<nat>)
    requires ValidChoices(|s|, js)
    ensures multiset(FisherYates(s, js)) == multiset(s)
    decreases |s|
  {
    hide Swap;
    if |s| > 1 {
      var n := |s| - 1;
      var t := Swap(s, n, js[0]);
      FisherYatesPermutes(t[..n], js[1..]);
      WithoutLast(t);
    }
  }

  function IndexOf<T(==)>(s: seq<T>, x: T): (i: nat)
    requires x in s
    ensures i < |s| && s[i] == x
  {
    if s[0] == x then 0 else 1 + IndexOf(s[1..], x)
  }

  lemma LastOccurs<T>(s: seq<T>, p: seq<T>)
    requires |s| > 0 && multiset(s) == multiset(p)
    ensures |p| == |s| && p[|s| - 1] in s
  {
    assert |multiset(s)| == |s| && |multiset(p)| == |p|;
    assert p[|s| - 1] in multiset(p);
  }

  /** Swapping p's last element into place leaves the rest of p to be arranged. */
  lemma RestPermutes<T>(s: seq<T>, p: seq<T>, j: nat)
    requires |s| == |p| > 0 && multiset(s) == multiset(p)
    requires j < |s| && s[j] == p[|p| - 1]
    ensures multiset(Swap(s, |s| - 1, j)[..|s| - 1]) == multiset(p[..|p| - 1])
  {
    hide Swap;
    var t := Swap(s, |s| - 1, j);
    assert t[|s| - 1] == p[|p| - 1];
    WithoutLast(t);
    WithoutLast(p);
  }

  /** The choices that arrange s as p: where p's last element sits, then the choices for the rest. */
  function ChoicesFor<T(==)>(s: seq<T>, p: seq<T>): (js: seq<nat>)
    requires multiset(s) == multiset(p)
    ensures ValidChoices(|s|, js)
    decreases |s|
  {
    if |s| <= 1 then []
    else
      LastOccurs(s, p);
      var n := |s| - 1;
      var j := IndexOf(s, p[n]);
      RestPermutes(s, p, j);
      [j] + ChoicesFor(Swap(s, n, j)[..n], p[..n])
  }

  /** Onto: every permutation is reached. */
  lemma {:induction false} EveryPermutationReached<T>(s: seq<T>, p: seq<T>)
    requires multiset(s) == multiset(p)
    ensures FisherYates(s, ChoicesFor(s, p)) == p
    decreases |s|
  {
    hide Swap;
    if |s| == 0 {
      assert |multiset(p)| == |p|;
    } else {
      LastOccurs(s, p);
      var n := |s| - 1;
      assert p == p[..n] + [p[n]];
      if n > 0 {
        var j := IndexOf(s, p[n]);
        RestPermutes(s, p, j);
        var rest := Swap(s, n, j)[..n];
        EveryPermutationReached(rest, p[..n]);
        var js := ChoicesFor(s, p);
        assert js[0] == j && js[1..] == ChoicesFor(rest, p[..n]);
      }
    }
  }

  lemma SwapDistinct<T>(s: seq<T>, j: nat)
    requires Distinct(s) && j < |s|
    ensures Distinct(Swap(s, |s| - 1, j)[..|s| - 1])
  {
  }

  /** On distinct elements only one choice puts a given element last. */
  lemma LastDeterminesChoice<T>(s: seq<T>, js: seq<nat>)
    requires Distinct(s) && ValidChoices(|s|, js) && |s| > 1
    ensures var p := FisherYates(s, js);
      p[|s| - 1] in s && IndexOf(s, p[|s| - 1]) == js[0]
  {
    assert FisherYates(s, js)[|s| - 1] == s[js[0]];
  }

  /** One-to-one: on distinct elements the choices can be read back from the arrangement. */
  lemma {:induction false} ChoicesRecovered<T>(s: seq<T>, js: seq<nat>)
    requires Distinct(s) && ValidChoices(|s|, js)
    ensures multiset(FisherYates(s, js)) == multiset(s)
    ensures ChoicesFor(s, FisherYates(s, js)) == js
    decreases |s|
  {
    hide Swap, Distinct, IndexOf;
    FisherYatesPermutes(s, js);
    if |s| > 1 {
      var n := |s| - 1;
      LastDeterminesChoice(s, js);
      SwapDistinct(s, js[0]);
      var rest := Swap(s, n, js[0])[..n];
      ChoicesRecovered(rest, js[1..]);
      assert FisherYates(s, js)[..n] == FisherYates(rest, js[1..]);
      assert js == [js[0]] + js[1..];
    }
  }

  // ---------------------------------------------------------------- the array the code works on

  /** A JavaScript array: a hole or a value at every index, and the properties written at indices outside it. */
  datatype Places<T> = Places(items: seq<Option<T>>, others: map<int, Option<T>>) {

    /** Reading a place that was never written gives undefined. */
    function At(j: int): Option<T> {
      if 0 <= j < |items| then items[j] else if j in others then others[j] else None
    }

    function Put(j: int, v: Option<T>): Places<T> {
      if 0 <= j < |items| then Places(items[j := v], others) else Places(items, others[j := v])
    }

    function Exchange(i: int, j: int): Places<T> {
      Put(i, At(j)).Put(j, At(i))
    }
  }

  /** An exchange swaps two places, one of which may lie outside the array, and no others. */
  lemma ExchangeMeaning<T>(o: Places<T>, i: nat, j: int, k: int)
    requires i < |o.items| && j < |o.items|
    ensures |o.Exchange(i, j).items| == |o.items|
    ensures o.Exchange(i, j).At(k) == if k == i then o.At(j) else if k == j then o.At(i) else o.At(k)
  {
  }

  /** What nextRange can return for each i from n - 1 down to 1: at most i, but negative on ranges above 2^31. */
  predicate Draws(n: nat, js: seq<int>) {
    |js| == (if n == 0 then 0 else n - 1) &&
    forall t :: 0 <= t < |js| ==> js[t] <= n - 1 - t
  }

  predicate NonNegative(js: seq<int>) {
    forall t :: 0 <= t < |js| ==> 0 <= js[t]
  }

  /** The exchanges of shuffle on the first n places. */
  function Exchanged<T>(o: Places<T>, n: nat, js: seq<int>): Places<T>
    requires Draws(n, js)
    decreases n
  {
    if n <= 1 then o else Exchanged(o.Exchange(n - 1, js[0]), n - 1, js[1..])
  }

  function Somes<T>(s: seq<T>): (r: seq<Option<T>>)
    ensures |r| == |s| && forall i :: 0 <= i < |s| ==> r[i] == Some(s[i])
  {
    seq(|s|, i requires 0 <= i < |s| => Some(s[i]))
  }

  /** Without negative draws the exchanges are Fisher-Yates on the first places, and nothing is written outside. */
  lemma {:induction false} ExchangedIsFisherYates<T>(s: seq<Option<T>>, tail: seq<Option<T>>, js: seq<nat>)
    requires ValidChoices(|s|, js)
    ensures Draws(|s|, js)
    ensures Exchanged(Places(s + tail, map[]), |s|, js) == Places(FisherYates(s, js) + tail, map[])
    decreases |s|
  {
    hide Swap;
    if |s| > 1 {
      var n := |s| - 1;
      var t := Swap(s, n, js[0]);
      ExchangeIsSwap(s, tail, js[0]);
      assert t == t[..n] + [t[n]];
      Regroup(t[..n], [t[n]], tail);
      ExchangedIsFisherYates(t[..n], [t[n]] + tail, js[1..]);
      Regroup(FisherYates(t[..n], js[1..]), [t[n]], tail);
    }
  }

  lemma ExchangeIsSwap<T>(s: seq<Option<T>>, tail: seq<Option<T>>, j: nat)
    requires |s| > 0 && j < |s|
    ensures Places(s + tail, map[]).Exchange(|s| - 1, j) == Places(Swap(s, |s| - 1, j) + tail, map[])
  {
  }

  /** Places at and behind n are not touched again. */
  lemma {:induction false} BehindStays<T>(o: Places<T>, n: nat, js: seq<int>, k: nat)
    requires Draws(n, js) && n <= k < |o.items|
    ensures |Exchanged(o, n, js).items| == |o.items| && Exchanged(o, n, js).items[k] == o.items[k]
    decreases n
  {
    if n > 1 { BehindStays(o.Exchange(n - 1, js[0]), n - 1, js[1..], k); }
  }

  /** A draw below zero leaves a hole for good, so the result is an arrangement of the input if and only if no draw is
      negative. */
  lemma {:induction false} HoleIffNegative<T>(items: seq<Option<T>>, n: nat, js: seq<int>)
    requires Draws(n, js) && n <= |items| && None !in items
    ensures None !in Exchanged(Places(items, map[]), n, js).items <==> NonNegative(js)
    decreases n
  {
    if n > 1 {
      var o := Places(items, map[]);
      var next := o.Exchange(n - 1, js[0]);
      if js[0] < 0 {
        assert next.items[n - 1] == None;
        BehindStays(next, n - 1, js[1..], n - 1);
      } else {
        assert next == Places(items[n - 1 := items[js[0]]][js[0] := items[n - 1]], map[]);
        assert NonNegative(js) <==> NonNegative(js[1..]) by { assert js == [js[0]] + js[1..]; }
        HoleIffNegative(next.items, n - 1, js[1..]);
      }
    }
  }

  // ---------------------------------------------------------------- composed with rejection sampling

  /** The vectors of accepted words, one per choice, that make exactly the choices js. */
  function WordVectors(n: nat, js: seq<nat>): set<seq<int>>
    requires n <= HALF && ValidChoices(n, js)
  {
    if n <= 1 then {[]} else Prepended(WordsFor(n, js[0]), WordVectors(n - 1, js[1..]))
  }

  /** The number of word vectors behind each arrangement of n elements. */
  function Ways(n: nat): nat
    requires n <= HALF
  {
    if n <= 1 then 1 else WordsPerOffset(n) * Ways(n - 1)
  }

  lemma {:induction false} CountWordVectors(n: nat, js: seq<nat>)
    requires n <= HALF && ValidChoices(n, js)
    ensures |WordVectors(n, js)| == Ways(n)
  {
    if n > 1 {
      CountWordVectors(n - 1, js[1..]);
      ExactlyUniform(n, js[0]);
      CountPrepended(WordsFor(n, js[0]), WordVectors(n - 1, js[1..]));
    }
  }

  /** One accepted word for each of the ranges n, n - 1, ..., 2. */
  predicate AcceptedVector(n: nat, ws: seq<int>)
    requires n <= HALF
  {
    if n <= 1 then ws == []
    else ws != [] && 0 <= ws[0] < WORDS && Accepts(n, ws[0]) && AcceptedVector(n - 1, ws[1..])
  }

  /** The choices an accepted vector makes. */
  function Offsets(n: nat, ws: seq<int>): (js: seq<nat>)
    requires n <= HALF && AcceptedVector(n, ws)
    ensures ValidChoices(n, js)
  {
    hide Accepts;
    if n <= 1 then [] else [Offset(n, ws[0])] + Offsets(n - 1, ws[1..])
  }

  lemma {:induction false} WordVectorsMeaning(n: nat, js: seq<nat>, ws: seq<int>)
    requires n <= HALF && ValidChoices(n, js)
    ensures ws in WordVectors(n, js) <==> AcceptedVector(n, ws) && Offsets(n, ws) == js
  {
    hide Candidate;
    if n > 1 {
      PrependedMeaning(WordsFor(n, js[0]), WordVectors(n - 1, js[1..]), ws);
      if ws != [] { WordVectorsMeaning(n - 1, js[1..], ws[1..]); }
      assert js == [js[0]] + js[1..];
    }
  }

  /** Exact uniformity of the shuffle: every permutation comes from the same number of accepted word vectors. */
  lemma ShuffleExactlyUniform<T>(s: seq<T>, p: seq<T>)
    requires |s| <= HALF && Distinct(s) && multiset(s) == multiset(p)
    ensures var v := WordVectors(|s|, ChoicesFor(s, p));
      |v| == Ways(|s|) &&
      forall ws: seq<int> ::
        ws in v <==> AcceptedVector(|s|, ws) && FisherYates(s, Offsets(|s|, ws)) == p
  {
    var js := ChoicesFor(s, p);
    CountWordVectors(|s|, js);
    EveryPermutationReached(s, p);
    forall ws: seq<int>
      ensures ws in WordVectors(|s|, js) <==> AcceptedVector(|s|, ws) && FisherYates(s, Offsets(|s|, ws)) == p
    {
      WordVectorsMeaning(|s|, js, ws);
      if AcceptedVector(|s|, ws) { ChoicesRecovered(s, Offsets(|s|, ws)); }
    }
  }
}
