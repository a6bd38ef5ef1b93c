/** The frequency table: a map from normalized word to occurrence count that
    only ever grows.  The source keeps it in a concurrent map shared by the
    workers of one file; here it is a plain map, and the workers' arbitrary
    interleaving is covered by the order-independence lemmas. */
module Frequency {
  import opened WordFilter

  /** The count the table holds for `w`; a word not in the table counts as
      zero, as `or_insert(0)` makes it. */
  function Get(words: map<string, nat>, w: string): nat
  {
    if w in words then words[w] else 0
  }

  /** `*words.entry(w).or_insert(0) += 1`: the count of `w` goes up by one,
      `w` becomes a key, and nothing else changes. */
  function Increment(words: map<string, nat>, w: string): (r: map<string, nat>)
    ensures Get(r, w) == Get(words, w) + 1
    ensures forall v :: v != w ==> Get(r, v) == Get(words, v)
    ensures r.Keys == words.Keys + {w}
  {
    words[w := Get(words, w) + 1]
  }

  /** How many of the tokens the filter turns into `w`. */
  ghost function Occurrences(tokens: seq<string>, w: string): nat
  {
    if tokens == [] then 0
    else
      Occurrences(tokens[..|tokens| - 1], w)
      + (if Filter(tokens[|tokens| - 1]) == Accept(w) then 1 else 0)
  }

  /** The table after each token, in order, has gone through the filter and,
      if accepted, through the increment. */
  ghost function AddTokens(words: map<string, nat>, tokens: seq<string>): map<string, nat>
  {
    if tokens == [] then words
    else
      var before := AddTokens(words, tokens[..|tokens| - 1]);
      match Filter(tokens[|tokens| - 1])
      case Accept(w) => Increment(before, w)
      case Reject(_) => before
  }

  /** Feeding tokens raises the count of every word by exactly the number of
      tokens that normalize to it; a key appears only for such a word. */
  lemma {:induction false} AddTokensCounts(words: map<string, nat>, tokens: seq<string>)
    ensures forall w :: Get(AddTokens(words, tokens), w) == Get(words, w) + Occurrences(tokens, w)
    ensures forall w :: w in AddTokens(words, tokens) <==> w in words || Occurrences(tokens, w) > 0
    decreases |tokens|
  {
    if tokens != [] {
      AddTokensCounts(words, tokens[..|tokens| - 1]);
    }
  }

  /** Only normalized words are ever counted. */
  lemma {:induction false} OccurrencesNormalized(tokens: seq<string>, w: string)
    requires Occurrences(tokens, w) > 0
    ensures NormalizedWord(w)
    decreases |tokens|
  {
    if Filter(tokens[|tokens| - 1]) != Accept(w) {
      OccurrencesNormalized(tokens[..|tokens| - 1], w);
    }
  }

  /** Feeding two runs of tokens one after the other is feeding their
      concatenation. */
  lemma {:induction false} AddTokensAppend(words: map<string, nat>, a: seq<string>, b: seq<string>)
    ensures AddTokens(AddTokens(words, a), b) == AddTokens(words, a + b)
    decreases |b|
  {
    if b == [] {
      assert a + b == a;
    } else {
      AddTokensAppend(words, a, b[..|b| - 1]);
      assert (a + b)[..|a + b| - 1] == a + b[..|b| - 1];
    }
  }

  lemma {:induction false} OccurrencesAppend(a: seq<string>, b: seq<string>, w: string)
    ensures Occurrences(a + b, w) == Occurrences(a, w) + Occurrences(b, w)
    decreases |b|
  {
    if b == [] {
      assert a + b == a;
    } else {
      OccurrencesAppend(a, b[..|b| - 1], w);
      assert (a + b)[..|a + b| - 1] == a + b[..|b| - 1];
    }
  }

  /** The count of a word depends only on which tokens there are, not on
      their order. */
  lemma {:induction false} OccurrencesPermutation(a: seq<string>, b: seq<string>, w: string)
    requires multiset(a) == multiset(b)
    ensures Occurrences(a, w) == Occurrences(b, w)
    decreases |a|
  {
    if a == [] {
      assert |multiset(b)| == 0;
    } else {
      var x := a[|a| - 1];
      var rest := a[..|a| - 1];
      assert a == rest + [x];
      assert x in multiset(b);
      var i :| 0 <= i < |b| && b[i] == x;
      assert b == b[..i] + [x] + b[i + 1..];
      var others := b[..i] + b[i + 1..];
      calc {
        multiset(rest);
        multiset(a) - multiset{x};
        multiset(b) - multiset{x};
        multiset(b[..i]) + multiset{x} + multiset(b[i + 1..]) - multiset{x};
        multiset(others);
      }
      OccurrencesPermutation(rest, others, w);
      OccurrencesAppend(b[..i] + [x], b[i + 1..], w);
      OccurrencesAppend(b[..i], [x], w);
      OccurrencesAppend(b[..i], b[i + 1..], w);
      OccurrencesAppend(rest, [x], w);
    }
  }

  /** The final table does not depend on the order in which the increments
      arrive: any permutation of the tokens gives the same table. */
  lemma AddTokensPermutation(words: map<string, nat>, a: seq<string>, b: seq<string>)
    requires multiset(a) == multiset(b)
    ensures AddTokens(words, a) == AddTokens(words, b)
  {
    var ta, tb := AddTokens(words, a), AddTokens(words, b);
    AddTokensCounts(words, a);
    AddTokensCounts(words, b);
    forall w
      ensures Occurrences(a, w) == Occurrences(b, w)
    {
      OccurrencesPermutation(a, b, w);
    }
    assert ta.Keys == tb.Keys;
    forall w | w in ta
      ensures ta[w] == tb[w]
    {
      assert Get(ta, w) == Get(tb, w);
    }
  }

  /** No count ever goes down. */
  lemma AddTokensGrows(words: map<string, nat>, tokens: seq<string>)
    ensures forall w :: w in words ==> w in AddTokens(words, tokens) && AddTokens(words, tokens)[w] >= words[w]
  {
  }

  // The count as the source declares it: `or_insert(0)` leaves the value
  // type to Rust's integer fallback, which is `i32`.

  const I32_MIN: int := -0x8000_0000
  const I32_MAX: int := 0x7FFF_FFFF

  /** Two's-complement wrap-around of `+=` on `i32` in a release build. */
  function WrapI32(x: int): (r: int)
    ensures I32_MIN <= r <= I32_MAX
    ensures I32_MIN <= x <= I32_MAX ==> r == x
    ensures (r - x) % 0x1_0000_0000 == 0
  {
    (x - I32_MIN) % 0x1_0000_0000 + I32_MIN
  }

  /** The increment as the source writes it, on `i32` counts. */
  function IncrementI32(words: map<string, int>, w: string): (r: map<string, int>)
    ensures r.Keys == words.Keys + {w}
    ensures forall v :: v in words && v != w ==> r[v] == words[v]
    ensures var old_count := if w in words then words[w] else 0;
      && I32_MIN <= r[w] <= I32_MAX
      && (r[w] - old_count - 1) % 0x1_0000_0000 == 0
      && (I32_MIN <= old_count < I32_MAX ==> r[w] == old_count + 1)
  {
    words[w := WrapI32((if w in words then words[w] else 0) + 1)]
  }

  /** The increment that meets a count of `i32::MAX` turns it into the most
      negative `i32`: the count goes down. */
  lemma IncrementI32Overflows(words: map<string, int>, w: string)
    requires w in words && words[w] == I32_MAX
    ensures IncrementI32(words, w)[w] == I32_MIN < words[w]
  {
  }
}
