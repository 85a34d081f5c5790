/** `extract_keywords`: count the tokens of a description and list the
    `top_n` most frequent ones, joined with ", ". `Counter.most_common`
    sorts the distinct tokens by count, highest first, and the sort is
    stable over the counter's insertion order, so equal counts keep the
    order in which the tokens first appeared. */
module Keywords {
  import opened Text
  import opened Normalizer

  /** Where `x` first appears in `tokens`; `|tokens|` when it does not. */
  function Position(tokens: seq<string>, x: string): (r: nat)
    ensures r <= |tokens|
    ensures r < |tokens| <==> x in tokens
    ensures r < |tokens| ==> tokens[r] == x
  {
    if x in tokens then FirstIndex(tokens, x) else |tokens|
  }

  /** `a` comes before `b` in `most_common`: it is counted more often, or
      as often and it appeared first. */
  predicate Outranks(tokens: seq<string>, a: string, b: string) {
    || CountOf(tokens, a) > CountOf(tokens, b)
    || (CountOf(tokens, a) == CountOf(tokens, b) && Position(tokens, a) < Position(tokens, b))
  }

  /** On the distinct tokens `Outranks` is a strict total order. */
  lemma OutranksTotal(tokens: seq<string>, a: string, b: string)
    requires a in tokens && b in tokens && a != b
    ensures Outranks(tokens, a, b) || Outranks(tokens, b, a)
  {
  }

  /** Tokens of `tokens`, in `most_common` order. */
  predicate Ranked(tokens: seq<string>, s: seq<string>) {
    && (forall i :: 0 <= i < |s| ==> s[i] in tokens)
    && (forall i, j :: 0 <= i < j < |s| ==> Outranks(tokens, s[i], s[j]))
  }

  /** A ranked list repeats nothing. */
  lemma RankedNoDuplicates(tokens: seq<string>, s: seq<string>)
    requires Ranked(tokens, s)
    ensures NoDuplicates(s)
  {
  }

  /** One step of insertion sort. */
  function Insert(tokens: seq<string>, x: string, s: seq<string>): (r: seq<string>)
    requires Ranked(tokens, s) && x in tokens && x !in s
    ensures |r| == |s| + 1
    ensures forall y :: y in r <==> y == x || y in s
    ensures Ranked(tokens, r)
    decreases |s|
  {
    if |s| == 0 || Outranks(tokens, x, s[0]) then
      [x] + s
    else
      OutranksTotal(tokens, x, s[0]);
      var rest := Insert(tokens, x, s[1..]);
      var r := [s[0]] + rest;
      forall j | 0 < j < |r| ensures Outranks(tokens, s[0], r[j]) {
        var y := rest[j - 1];
        assert y in rest;
        if y != x {
          var k :| 0 <= k < |s[1..]| && s[1..][k] == y;
          assert s[k + 1] == y;
        }
      }
      r
  }

  /** Sorting the distinct tokens `keys` into `most_common` order. */
  function Rank(tokens: seq<string>, keys: seq<string>): (r: seq<string>)
    requires forall i :: 0 <= i < |keys| ==> keys[i] in tokens
    requires NoDuplicates(keys)
    ensures |r| == |keys|
    ensures forall y :: y in r <==> y in keys
    ensures Ranked(tokens, r)
    decreases |keys|
  {
    if |keys| == 0 then []
    else
      var rest := Rank(tokens, keys[1..]);
      assert keys[0] !in keys[1..];
      Insert(tokens, keys[0], rest)
  }

  /** Two rankings of the same tokens are the same list: the order is
      fully determined, whatever sorting algorithm produced it. */
  lemma {:induction false} RankingIsUnique(tokens: seq<string>, a: seq<string>, b: seq<string>)
    requires Ranked(tokens, a) && Ranked(tokens, b)
    requires |a| == |b|
    requires forall y :: y in a <==> y in b
    ensures a == b
    decreases |a|
  {
    if |a| > 0 {
      RankedNoDuplicates(tokens, a);
      RankedNoDuplicates(tokens, b);
      assert a[0] in a && b[0] in b;
      var i :| 0 <= i < |a| && a[i] == b[0];
      var j :| 0 <= j < |b| && b[j] == a[0];
      assert Outranks(tokens, a[0], a[i]) || i == 0;
      assert a[0] == b[0];
      forall y ensures y in a[1..] <==> y in b[1..] {
        if y in a[1..] {
          assert y != a[0];
          assert y in b;
        }
        if y in b[1..] {
          assert y != b[0];
          assert y in a;
        }
      }
      RankingIsUnique(tokens, a[1..], b[1..]);
    }
  }

  /** All distinct tokens in `most_common` order. */
  function Ranking(tokens: seq<string>): (r: seq<string>)
    ensures |r| == |Unique(tokens)|
    ensures forall y :: y in r <==> y in tokens
    ensures Ranked(tokens, r)
  {
    Rank(tokens, Unique(tokens))
  }

  /** `Counter(tokens).most_common(n)`, keys only: nothing when `n` is not
      positive, otherwise the first `n` distinct tokens in ranking order. */
  function MostCommon(tokens: seq<string>, n: int): (r: seq<string>)
    ensures |r| == if n <= 0 then 0 else if n < |Unique(tokens)| then n else |Unique(tokens)|
    ensures r == Ranking(tokens)[..|r|]
  {
    var ranked := Ranking(tokens);
    if n <= 0 then [] else if n < |ranked| then ranked[..n] else ranked
  }

  /** The answer is in `most_common` order, repeats nothing, and outranks
      every token it leaves out. */
  lemma MostCommonRanked(tokens: seq<string>, n: int)
    ensures var r := MostCommon(tokens, n);
            && Ranked(tokens, r)
            && NoDuplicates(r)
            && forall w :: w in tokens && w !in r ==> forall i :: 0 <= i < |r| ==> Outranks(tokens, r[i], w)
  {
    TopOfRanking(tokens, Ranking(tokens), MostCommon(tokens, n));
  }

  /** A prefix of the ranking of all distinct tokens outranks every token
      it leaves out. */
  lemma TopOfRanking(tokens: seq<string>, ranked: seq<string>, r: seq<string>)
    requires Ranked(tokens, ranked) && forall y :: y in ranked <==> y in tokens
    requires |r| <= |ranked| && r == ranked[..|r|]
    ensures Ranked(tokens, r) && NoDuplicates(r)
    ensures forall w :: w in tokens && w !in r ==> forall i :: 0 <= i < |r| ==> Outranks(tokens, r[i], w)
  {
    forall w | w in tokens && w !in r ensures forall i :: 0 <= i < |r| ==> Outranks(tokens, r[i], w) {
      var m :| 0 <= m < |ranked| && ranked[m] == w;
      assert m >= |r|;
    }
    RankedNoDuplicates(tokens, r);
  }

  /** Asking for more keywords extends the list: the shorter answer is a
      prefix of the longer one. */
  lemma MostCommonPrefix(tokens: seq<string>, n: int, m: int)
    requires n <= m
    ensures MostCommon(tokens, n) == MostCommon(tokens, m)[..|MostCommon(tokens, n)|]
  {
    PrefixOfPrefix(Ranking(tokens), MostCommon(tokens, m), MostCommon(tokens, n));
  }

  /** The counts along the answer never increase, and equal counts keep the
      order of first appearance. */
  lemma MostCommonOrder(tokens: seq<string>, n: int, i: nat, j: nat)
    requires i < j < |MostCommon(tokens, n)|
    ensures var r := MostCommon(tokens, n);
            && CountOf(tokens, r[i]) >= CountOf(tokens, r[j])
            && (CountOf(tokens, r[i]) == CountOf(tokens, r[j]) ==> FirstIndex(tokens, r[i]) < FirstIndex(tokens, r[j]))
  {
    MostCommonRanked(tokens, n);
  }

  /** `extract_keywords(text, top_n)`: the most common tokens joined with
      ", ", or "" when there are none. */
  function ExtractKeywords(text: Value, topN: int, env: NlpEnv): (r: string)
    ensures Preprocess(text, env) == [] || topN <= 0 ==> r == ""
  {
    Join(MostCommon(Preprocess(text, env), topN), ", ")
  }

  /** Without lemmatization the keyword string reads back as the ranked
      tokens: at most `top_n` of them, distinct, most frequent first, with a
      space after every comma. */
  lemma KeywordsReadBack(text: Value, topN: int, env: NlpEnv)
    requires env.lemmatizer.NoLemmatizer?
    ensures var tokens := Preprocess(text, env);
            var items := ParseList(ExtractKeywords(text, topN, env));
            && (ExtractKeywords(text, topN, env) == "" <==> MostCommon(tokens, topN) == [])
            && (MostCommon(tokens, topN) != [] ==> items == MostCommon(tokens, topN))
            && CommasSpaced(ExtractKeywords(text, topN, env))
  {
    var tokens := Preprocess(text, env);
    var top := MostCommon(tokens, topN);
    if top != [] {
      MostCommonRanked(tokens, topN);
      assert text.Str?;
      TokensAreListItems(text.s, env, top);
      ParseJoinedList(top);
      JoinCommasSpaced(top);
      JoinFirstPart(top, ", ");
    }
  }

  /** Tokens are non-empty words without commas, so they can be listed. */
  lemma TokensAreListItems(text: string, env: NlpEnv, top: seq<string>)
    requires env.lemmatizer.NoLemmatizer?
    requires forall k :: 0 <= k < |top| ==> top[k] in Preprocess(Str(text), env)
    ensures forall k :: 0 <= k < |top| ==> ListItem(top[k])
  {
    var tokens := Preprocess(Str(text), env);
    forall k | 0 <= k < |top| ensures ListItem(top[k]) {
      var i :| 0 <= i < |tokens| && tokens[i] == top[k];
      TokensAreCleanWords(text, env, i);
    }
  }
}
