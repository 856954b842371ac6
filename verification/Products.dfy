/** Counting vectors: a set of heads times a set of tails. */
module Products {

  function Prepended<T(==)>(heads: set<T>, tails: set<seq<T>>): set<seq<T>> {
    set h, t | h in heads && t in tails :: [h] + t
  }

  lemma PrependedMeaning<T>(heads: set<T>, tails: set<seq<T>>, v: seq<T>)
    ensures v in Prepended(heads, tails) <==> v != [] && v[0] in heads && v[1..] in tails
  {
    if v != [] && v[0] in heads && v[1..] in tails {
      var h, t := v[0], v[1..];
      assert h in heads && t in tails && v == [h] + t;
      assert [h] + t in Prepended(heads, tails);
    }
    if v in Prepended(heads, tails) {
      var h, t :| h in heads && t in tails && v == [h] + t;
      assert v[0] == h && v[1..] == t;
    }
  }

  lemma MulSuccessor(a: nat, b: nat)
    ensures (a + 1) * b == a * b + b
  {
  }

  lemma {:induction false} CountPrepended<T>(heads: set<T>, tails: set<seq<T>>)
    ensures |Prepended(heads, tails)| == |heads| * |tails|
  {
    if heads == {} {
      assert Prepended(heads, tails) == {};
    } else {
      var h :| h in heads;
      var others := heads - {h};
      CountPrepended(others, tails);
      CountOneHead(h, tails);
      SplitHeads(h, others, tails);
      assert heads == {h} + others;
      MulSuccessor(|others|, |tails|);
    }
  }

  lemma SplitHeads<T>(h: T, others: set<T>, tails: set<seq<T>>)
    requires h !in others
    ensures |Prepended({h} + others, tails)| == |Prepended({h}, tails)| + |Prepended(others, tails)|
  {
    var all, one, rest := Prepended({h} + others, tails), Prepended({h}, tails), Prepended(others, tails);
    forall v ensures (v in all <==> v in one || v in rest) && !(v in one && v in rest) {
      PrependedMeaning({h} + others, tails, v);
      PrependedMeaning({h}, tails, v);
      PrependedMeaning(others, tails, v);
    }
    assert all == one + rest && one !! rest;
  }

  lemma NothingPrepended<T>(h: T)
    ensures Prepended({h}, {}) == {}
  {
  }

  lemma HeadAndTail<T>(h: T, t: seq<T>, v: seq<T>)
    ensures v != [] && v[0] == h && v[1..] == t <==> v == [h] + t
  {
    if v != [] { assert v == [v[0]] + v[1..]; }
  }

  lemma OneMoreTail<T>(h: T, t: seq<T>, others: set<seq<T>>)
    requires t !in others
    ensures |Prepended({h}, others + {t})| == |Prepended({h}, others)| + 1
  {
    var all, rest, last := Prepended({h}, others + {t}), Prepended({h}, others), [h] + t;
    forall v ensures v in all <==> v in rest + {last} {
      PrependedMeaning({h}, others + {t}, v);
      PrependedMeaning({h}, others, v);
      HeadAndTail(h, t, v);
    }
    assert all == rest + {last};
    PrependedMeaning({h}, others, last);
    HeadAndTail(h, t, last);
  }

  lemma {:induction false} CountOneHead<T>(h: T, tails: set<seq<T>>)
    ensures |Prepended({h}, tails)| == |tails|
  {
    if tails == {} {
      NothingPrepended(h);
    } else {
      var t :| t in tails;
      var others := tails - {t};
      CountOneHead(h, others);
      OneMoreTail(h, t, others);
      assert tails == others + {t};
    }
  }
}
