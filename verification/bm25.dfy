/**
  * `BM25Search` of src/indexing.js: a fuzzy tokenizer that adds 3-grams, 4-grams and prefixes
  * of every word, a score that counts exact token matches and, failing those, words of the
  * document that contain the query token, an IDF over documents that contain the token
  * exactly or fuzzily, and the ranked search.
  *
  * `setData` is the `Ranking.Index` constructor. `Math.log` is `m.ln`.
  */
module Bm25 {
  import opened Seqs
  import opened Text
  import opened RealMath
  import opened Items
  import opened Okapi
  import opened Ranking

  // ---------------------------------------------------------------- tokenize

  /** The word tokens before expansion: cleaned words longer than two characters. */
  function BaseTokens(text: string): (tokens: seq<string>)
    ensures forall t :: t in tokens ==> |t| > 2 && IsLowerWord(t)
  {
    var words := CleanWords(text);
    var tokens := Filter(Long, words);
    assert forall t :: t in tokens ==> t in words && Long(t);
    tokens
  }

  /** Every character other than `\w` separates base tokens: those of the two sides, in order. */
  lemma BaseTokensSplit(a: string, c: char, b: string)
    requires !IsWordChar(c)
    ensures BaseTokens(a + [c] + b) == BaseTokens(a) + BaseTokens(b)
  {
    CleanWordsConcat(a, c, b);
    FilterAppend(Long, CleanWords(a), CleanWords(b));
  }

  /** A `\w` word is one base token, lower-cased, exactly when it is longer than two characters. */
  lemma BaseTokensOfWord(w: string)
    requires IsWord(w)
    ensures BaseTokens(w) == if |w| > 2 then [ToLower(w)] else []
  {
    CleanWordsOfWord(w);
  }

  /** Lower-case words joined by blanks give the words longer than two characters, in order. */
  lemma BaseTokensJoin(ws: seq<string>)
    requires forall k :: 0 <= k < |ws| ==> IsWord(ws[k]) && IsLowerWord(ws[k])
    ensures BaseTokens(Join(ws, " ")) == Filter(Long, ws)
  {
    CleanWordsJoin(ws);
  }

  /** The substrings of length `n` of `w`, from left to right. */
  function Grams(w: string, n: nat): (grams: seq<string>)
    requires 1 <= n <= |w|
    ensures |grams| == |w| - n + 1
    ensures forall i :: 0 <= i < |grams| ==> grams[i] == w[i..i + n]
  {
    seq(|w| - n + 1, i requires 0 <= i < |w| - n + 1 => w[i..i + n])
  }

  /** The prefixes of `w` of length 4 up to `|w|`. */
  function Prefixes(w: string): (ps: seq<string>)
    requires |w| >= 4
    ensures |ps| == |w| - 3
    ensures forall i :: 0 <= i < |ps| ==> ps[i] == w[..i + 4]
  {
    seq(|w| - 3, i requires 0 <= i < |w| - 3 => w[..i + 4])
  }

  /** What `tokenize` adds for one word: its 3-grams (length 4 and up), 4-grams (length 5 and up) and prefixes of length 4 and up. */
  function Expansions(w: string): seq<string>
  {
    (if |w| >= 4 then Grams(w, 3) else [])
    + (if |w| >= 5 then Grams(w, 4) else [])
    + (if |w| >= 4 then Prefixes(w) else [])
  }

  /**
    * A word's expansions are exactly its substrings of length 3 (when it has at least 4
    * characters), its substrings of length 4 (when it has at least 5), and its prefixes of
    * length 4 and more.
    */
  lemma ExpansionsCharacterized(w: string, t: string)
    ensures t in Expansions(w) <==>
      || (|w| >= 4 && |t| == 3 && Substring(t, w))
      || (|w| >= 5 && |t| == 4 && Substring(t, w))
      || (|w| >= 4 && |t| >= 4 && IsPrefix(t, w))
  {
    if t in Expansions(w) {
      if |w| >= 4 && t in Grams(w, 3) {
        var i :| 0 <= i < |Grams(w, 3)| && Grams(w, 3)[i] == t;
        assert OccursAt(t, w, i);
      } else if |w| >= 5 && t in Grams(w, 4) {
        var i :| 0 <= i < |Grams(w, 4)| && Grams(w, 4)[i] == t;
        assert OccursAt(t, w, i);
      }
    }
    if |w| >= 4 && |t| == 3 && Substring(t, w) {
      var i :| OccursAt(t, w, i);
      assert Grams(w, 3)[i] == t;
    }
    if |w| >= 5 && |t| == 4 && Substring(t, w) {
      var i :| OccursAt(t, w, i);
      assert Grams(w, 4)[i] == t;
    }
    if |w| >= 4 && |t| >= 4 && IsPrefix(t, w) {
      assert Prefixes(w)[|t| - 4] == t;
    }
  }

  lemma SubstringOfLowerWord(t: string, w: string)
    requires IsLowerWord(w) && Substring(t, w)
    ensures IsLowerWord(t)
  {
    var i :| OccursAt(t, w, i);
    assert forall k :: 0 <= k < |t| ==> t[k] == w[i + k];
  }

  lemma ExpansionsAreLowerWords(w: string)
    requires IsLowerWord(w)
    ensures forall t :: t in Expansions(w) ==> |t| >= 3 && IsLowerWord(t)
  {
    forall t | t in Expansions(w)
      ensures |t| >= 3 && IsLowerWord(t)
    {
      ExpansionsCharacterized(w, t);
      if IsPrefix(t, w) {
        assert OccursAt(t, w, 0);
      }
      SubstringOfLowerWord(t, w);
    }
  }

  /** The expansions of every base token, in order. */
  function ExpansionLists(base: seq<string>): (lists: seq<seq<string>>)
    ensures |lists| == |base|
    ensures forall i :: 0 <= i < |base| ==> lists[i] == Expansions(base[i])
  {
    seq(|base|, i requires 0 <= i < |base| => Expansions(base[i]))
  }

  /**
    * `tokenize`: the base tokens followed by every base token's expansions, each string kept
    * once at its first occurrence (a `Set` in insertion order).
    */
  function FuzzyTokenize(text: string): (tokens: seq<string>)
    ensures NoDup(tokens)
    ensures forall t :: t in tokens ==> |t| >= 3 && IsLowerWord(t)
  {
    var base := BaseTokens(text);
    var lists := ExpansionLists(base);
    forall i | 0 <= i < |base|
      ensures forall t :: t in lists[i] ==> |t| >= 3 && IsLowerWord(t)
    {
      assert base[i] in base;
      ExpansionsAreLowerWords(base[i]);
    }
    Dedup(base + Flatten(lists))
  }

  /** The tokens are the base tokens and the expansions of the base tokens, and nothing else. */
  lemma FuzzyTokenizeMembers(text: string, t: string)
    ensures t in FuzzyTokenize(text) <==>
      t in BaseTokens(text) || exists i :: 0 <= i < |BaseTokens(text)| && t in Expansions(BaseTokens(text)[i])
  {
    var base := BaseTokens(text);
    var lists := ExpansionLists(base);
    var flat := Flatten(lists);
    assert t in base + flat <==> t in base || t in flat;
  }

  /** Every token is a word of the cleaned text longer than two characters, or a substring of one. */
  lemma FuzzyTokensFromWords(text: string, t: string)
    requires t in FuzzyTokenize(text)
    ensures exists w :: w in BaseTokens(text) && Substring(t, w)
  {
    FuzzyTokenizeMembers(text, t);
    var base := BaseTokens(text);
    if t in base {
      assert OccursAt(t, t, 0);
    } else {
      var i :| 0 <= i < |base| && t in Expansions(base[i]);
      ExpansionIsSubstring(base[i], t);
    }
  }

  lemma ExpansionIsSubstring(w: string, t: string)
    requires t in Expansions(w)
    ensures Substring(t, w)
  {
    ExpansionsCharacterized(w, t);
    if IsPrefix(t, w) {
      assert OccursAt(t, w, 0);
    }
  }

  /** Tokenizing does not depend on the case of the text. */
  lemma FuzzyTokenizeIgnoresCase(text: string)
    ensures FuzzyTokenize(ToLower(text)) == FuzzyTokenize(text)
  {
    ToLowerIdempotent(text);
    assert Clean(ToLower(text)) == Clean(text);
  }

  // ---------------------------------------------------------------- matching one token

  /** The weight of a fuzzy match: 0.8 for a prefix, 0.6 for a suffix, 0.4 inside the word. */
  function WordWeight(word: string, token: string): real
  {
    if StartsWith(word, token) then 0.8 else if EndsWith(word, token) then 0.6 else 0.4
  }

  datatype Fuzzy = Fuzzy(count: nat, weight: real)

  /** For each word, whether it contains the token. */
  ghost function ContainFlags(words: seq<string>, token: string): (flags: seq<bool>)
    ensures |flags| == |words|
    ensures forall j :: 0 <= j < |words| ==> flags[j] == Substring(token, words[j])
  {
    seq(|words|, j requires 0 <= j < |words| => Substring(token, words[j]))
  }

  /** `words[j]` is the last of `words` that contains `token`. */
  ghost predicate LastMatch(words: seq<string>, token: string, j: int)
  {
    && 0 <= j < |words| && Substring(token, words[j])
    && forall k :: j < k < |words| ==> !Substring(token, words[k])
  }

  /** What the fuzzy loop computes over `words`: the count of containing words and the weight of the last one. */
  ghost predicate ScanOk(words: seq<string>, token: string, f: Fuzzy)
  {
    && f.count == CountTrue(ContainFlags(words, token))
    && f.count <= |words|
    && (f.count == 0 <==> forall j :: 0 <= j < |words| ==> !Substring(token, words[j]))
    && (f.count == 0 ==> f.weight == 1.0)
    && (f.count > 0 ==> exists j :: LastMatch(words, token, j) && f.weight == WordWeight(words[j], token))
  }

  /** The loop's step: the result for all but the last word, updated by the last word. */
  function ScanStep(prev: Fuzzy, word: string, token: string): Fuzzy
  {
    if Contains(word, token) then Fuzzy(prev.count + 1, WordWeight(word, token)) else prev
  }

  /**
    * The fuzzy loop of `calculateScore`: the number of words containing the token, and the
    * weight set by the last of them (1.0, the initial `matchWeight`, when there is none).
    */
  function FuzzyScan(words: seq<string>, token: string): (f: Fuzzy)
    ensures f.count == CountTrue(ContainFlags(words, token))
    ensures f.count <= |words|
    ensures f.count == 0 <==> forall j :: 0 <= j < |words| ==> !Substring(token, words[j])
    ensures f.count == 0 ==> f.weight == 1.0
    ensures f.count > 0 ==> exists j :: LastMatch(words, token, j) && f.weight == WordWeight(words[j], token)
  {
    if |words| == 0 then
      assert ScanOk(words, token, Fuzzy(0, 1.0));
      Fuzzy(0, 1.0)
    else
      var n := |words| - 1;
      var prev := FuzzyScan(words[..n], token);
      ScanStepOk(words, token, prev);
      ScanStep(prev, words[n], token)
  }

  /** One step of the loop keeps `ScanOk`. */
  lemma ScanStepOk(words: seq<string>, token: string, prev: Fuzzy)
    requires |words| > 0 && ScanOk(words[..|words| - 1], token, prev)
    ensures ScanOk(words, token, ScanStep(prev, words[|words| - 1], token))
  {
    var n := |words| - 1;
    var next := ScanStep(prev, words[n], token);
    ScanCountStep(words, token);
    assert next.count == CountTrue(ContainFlags(words, token));
    if Contains(words[n], token) {
      assert LastMatch(words, token, n);
    } else {
      LastMatchExtends(words, token);
    }
  }

  /** The count of containing words grows by one exactly when the last word contains the token. */
  lemma ScanCountStep(words: seq<string>, token: string)
    requires |words| > 0
    ensures var n := |words| - 1;
      CountTrue(ContainFlags(words, token)) == CountTrue(ContainFlags(words[..n], token)) + (if Substring(token, words[n]) then 1 else 0)
  {
    var n := |words| - 1;
    var flags := ContainFlags(words, token);
    assert forall j :: 0 <= j < n ==> words[..n][j] == words[j];
    assert flags[..n] == ContainFlags(words[..n], token);
  }

  /** A last match of all but the last word is a last match of all words, when the last word does not match. */
  lemma LastMatchExtends(words: seq<string>, token: string)
    requires |words| > 0 && !Substring(token, words[|words| - 1])
    ensures forall j :: LastMatch(words[..|words| - 1], token, j) ==> LastMatch(words, token, j)
  {
    var n := |words| - 1;
    assert forall j :: 0 <= j < n ==> words[..n][j] == words[j];
  }

  /** `words.some(word => word.includes(token))`. */
  function AnyContains(words: seq<string>, token: string): (b: bool)
    ensures b <==> exists j :: 0 <= j < |words| && Substring(token, words[j])
  {
    if |words| == 0 then false
    else
      var n := |words| - 1;
      assert forall j :: 0 <= j < n ==> words[..n][j] == words[j];
      AnyContains(words[..n], token) || Contains(words[n], token)
  }

  /** The term frequency and match weight of one query token against a document. */
  datatype TermMatch = TermMatch(tf: real, weight: real)

  /**
    * Steps 1 and 2 of `calculateScore` for one token: the exact count among the document's
    * tokens, or, when there is none and the token has at least 3 characters, half the number
    * of words of the lower-cased text that contain it.
    */
  function MatchToken(docTokens: seq<string>, words: seq<string>, token: string): (tm: TermMatch)
    ensures tm.tf >= 0.0 && 0.0 < tm.weight <= 1.0
    ensures tm.tf > 0.0 <==> token in docTokens || (|token| >= 3 && AnyContains(words, token))
    ensures token in docTokens ==> tm == TermMatch(Count(docTokens, token) as real, 1.0)
    ensures token !in docTokens && |token| >= 3 ==> tm.tf == (FuzzyScan(words, token).count as real) * 0.5
    ensures token !in docTokens && |token| >= 3 ==> tm.weight == FuzzyScan(words, token).weight
    ensures token !in docTokens && |token| < 3 ==> tm == TermMatch(0.0, 1.0)
  {
    var exact := Count(docTokens, token);
    CountPositive(docTokens, token);
    if exact > 0 then TermMatch(exact as real, 1.0)
    else if |token| >= 3 then
      var f := FuzzyScan(words, token);
      TermMatch((f.count as real) * 0.5, f.weight)
    else TermMatch(0.0, 1.0)
  }

  /**
    * Because `tokenize` keeps each token once, an exact match always has term frequency 1:
    * repeating a word in a document does not raise its exact-match score.
    */
  lemma ExactMatchCountsOnce(text: string, words: seq<string>, token: string)
    requires token in FuzzyTokenize(text)
    ensures MatchToken(FuzzyTokenize(text), words, token) == TermMatch(1.0, 1.0)
  {
    CountAtMostOneWhenNoDup(FuzzyTokenize(text), token);
    CountPositive(FuzzyTokenize(text), token);
  }

  // ---------------------------------------------------------------- IDF

  /**
    * `documentContainsToken`: the token is one of the text's tokens, or (3 characters and up)
    * part of one of its words. Lower-casing the text first makes no difference to its tokens,
    * and a token of fewer than 3 characters is never contained, since every token is longer.
    */
  function ContainsToken(item: Item, token: string): (b: bool)
    ensures var doc := DocText(item);
      b <==> token in FuzzyTokenize(doc) || (|token| >= 3 && exists j :: 0 <= j < |Words(ToLower(doc))| && Substring(token, Words(ToLower(doc))[j]))
    ensures |token| < 3 ==> !b
  {
    var text := ToLower(DocText(item));
    FuzzyTokenizeIgnoresCase(DocText(item));
    token in FuzzyTokenize(text) || (|token| >= 3 && AnyContains(Words(text), token))
  }

  /**
    * `documentContainsToken` holds exactly when `calculateScore` gives the token a positive
    * term frequency, although that one tokenizes the text before lower-casing it.
    */
  lemma ContainsIffPositiveTf(item: Item, token: string)
    ensures var doc := DocText(item);
      ContainsToken(item, token) <==> MatchToken(FuzzyTokenize(doc), Words(ToLower(doc)), token).tf > 0.0
  {
  }

  /** For each document, whether it contains the token. */
  function Flags(docs: seq<Item>, token: string): (flags: seq<bool>)
    ensures |flags| == |docs|
    ensures forall i :: 0 <= i < |docs| ==> flags[i] == ContainsToken(docs[i], token)
  {
    seq(|docs|, i requires 0 <= i < |docs| => ContainsToken(docs[i], token))
  }

  /** The `docCount` of `calculateIDF`: the documents that contain the token. */
  function DocCount(docs: seq<Item>, token: string): (n: nat)
    ensures n <= |docs|
    ensures n == 0 <==> forall i :: 0 <= i < |docs| ==> !ContainsToken(docs[i], token)
  {
    NoFlagsNoDocs(docs, token);
    CountTrue(Flags(docs, token))
  }

  /** No flag is set exactly when no document contains the token. */
  lemma NoFlagsNoDocs(docs: seq<Item>, token: string)
    ensures CountTrue(Flags(docs, token)) == 0 <==> forall i :: 0 <= i < |docs| ==> !ContainsToken(docs[i], token)
  {
    var flags := Flags(docs, token);
    if CountTrue(flags) == 0 {
      forall i | 0 <= i < |docs|
        ensures !ContainsToken(docs[i], token)
      {
        assert !flags[i];
      }
    } else {
      var i :| 0 <= i < |flags| && flags[i];
      assert ContainsToken(docs[i], token);
    }
  }

  /** `calculateIDF`: 0 when no document contains the token, else `ln(1 + (N - n + 0.5) / (n + 0.5))`. */
  function Idf(m: MathOps, ix: Index, token: string): (idf: real)
    ensures DocCount(Docs(ix), token) == 0 ==> idf == 0.0
  {
    IdfOf(m, DocCount(Docs(ix), token), |Docs(ix)|)
  }

  /** With a lawful logarithm, the IDF is positive exactly when some document contains the token. */
  lemma IdfPositive(m: MathOps, ix: Index, token: string)
    requires Lawful(m)
    ensures Idf(m, ix, token) > 0.0 <==> DocCount(Docs(ix), token) > 0
  {
    IdfOfPositive(m, DocCount(Docs(ix), token), |Docs(ix)|);
  }

  // ---------------------------------------------------------------- score

  /** The documents' fuzzy token counts, for `getAvgDocLength`. */
  function FuzzyLengths(docs: seq<Item>): (lengths: seq<nat>)
    ensures |lengths| == |docs|
    ensures forall i :: 0 <= i < |docs| ==> lengths[i] == |FuzzyTokenize(DocText(docs[i]))|
  {
    seq(|docs|, i requires 0 <= i < |docs| => |FuzzyTokenize(DocText(docs[i]))|)
  }

  /** `getAvgDocLength`: the mean token count of all documents, 0 for an empty index. */
  function AvgDocLength(ix: Index): (avg: real)
    ensures avg >= 0.0
    ensures |Docs(ix)| == 0 ==> avg == 0.0
    ensures IsMean(avg, FuzzyLengths(Docs(ix)))
  {
    MeanLength(FuzzyLengths(Docs(ix)))
  }

  /** Step 3 of `calculateScore`: the BM25 term, scaled by the match weight, added only when `tf` and the IDF are positive. */
  function TermScore(idf: real, tm: TermMatch, docLength: nat, avg: real): (score: real)
    requires avg >= 0.0 && tm.tf >= 0.0 && tm.weight > 0.0
  {
    if tm.tf > 0.0 && idf > 0.0 then idf * Saturation(tm.tf, Norm(docLength, avg)) * tm.weight else 0.0
  }

  /** A term adds nothing when the token does not match or its IDF is 0, something when both hold, and less than `idf * (k1 + 1)` always. */
  lemma TermScoreBounds(idf: real, tm: TermMatch, docLength: nat, avg: real)
    requires avg >= 0.0 && tm.tf >= 0.0 && 0.0 < tm.weight <= 1.0
    ensures TermScore(idf, tm, docLength, avg) >= 0.0
    ensures TermScore(idf, tm, docLength, avg) > 0.0 <==> tm.tf > 0.0 && idf > 0.0
    ensures idf > 0.0 ==> TermScore(idf, tm, docLength, avg) < idf * (K1 + 1.0)
  {
    if tm.tf > 0.0 && idf > 0.0 {
      var norm := Norm(docLength, avg);
      var sat := Saturation(tm.tf, norm);
      SaturationBounds(tm.tf, norm);
      ProductBounds(idf, sat, tm.weight, K1 + 1.0);
      assert TermScore(idf, tm, docLength, avg) == idf * sat * tm.weight;
    }
  }

  lemma ProductBounds(x: real, s: real, w: real, c: real)
    requires x > 0.0 && 0.0 < s < c && 0.0 < w <= 1.0
    ensures 0.0 < x * s * w < x * c
  {
    assert x * s > 0.0;
    assert x * s < x * c;
    assert x * s * w <= x * s;
  }

  /** The term of one query token for one document. */
  function Term(m: MathOps, ix: Index, item: Item, token: string): real
  {
    var doc := DocText(item);
    var docTokens := FuzzyTokenize(doc);
    TermScore(Idf(m, ix, token), MatchToken(docTokens, Words(ToLower(doc)), token), |docTokens|, AvgDocLength(ix))
  }

  /** The term of each query token for one document. */
  function TermScores(m: MathOps, ix: Index, item: Item, tokens: seq<string>): (terms: seq<real>)
    ensures |terms| == |tokens|
    ensures forall k :: 0 <= k < |tokens| ==> terms[k] == Term(m, ix, item, tokens[k])
  {
    seq(|tokens|, k requires 0 <= k < |tokens| => Term(m, ix, item, tokens[k]))
  }

  /**
    * `calculateScore`: the sum of the terms of the query tokens. Whatever the logarithm, it is
    * never negative, and it is positive exactly when the document contains a query token whose
    * IDF is positive.
    */
  function Score(m: MathOps, ix: Index, item: Item, tokens: seq<string>): (s: real)
    ensures s >= 0.0
    ensures s > 0.0 <==> exists k :: 0 <= k < |tokens| && ContainsToken(item, tokens[k]) && Idf(m, ix, tokens[k]) > 0.0
  {
    var terms := TermScores(m, ix, item, tokens);
    TermSigns(m, ix, item, tokens);
    SumRealSign(terms);
    SumReal(terms)
  }

  /** Each term is never negative, and positive exactly when the document contains the token and its IDF is positive. */
  lemma TermSigns(m: MathOps, ix: Index, item: Item, tokens: seq<string>)
    ensures forall k :: 0 <= k < |tokens| ==> TermScores(m, ix, item, tokens)[k] >= 0.0
    ensures forall k :: 0 <= k < |tokens| ==>
      (TermScores(m, ix, item, tokens)[k] > 0.0 <==> ContainsToken(item, tokens[k]) && Idf(m, ix, tokens[k]) > 0.0)
  {
    var doc := DocText(item);
    var docTokens, words, avg := FuzzyTokenize(doc), Words(ToLower(doc)), AvgDocLength(ix);
    var terms := TermScores(m, ix, item, tokens);
    forall k | 0 <= k < |tokens|
      ensures terms[k] >= 0.0
      ensures terms[k] > 0.0 <==> ContainsToken(item, tokens[k]) && Idf(m, ix, tokens[k]) > 0.0
    {
      var tm := MatchToken(docTokens, words, tokens[k]);
      ContainsIffPositiveTf(item, tokens[k]);
      assert terms[k] == TermScore(Idf(m, ix, tokens[k]), tm, |docTokens|, avg);
      TermScoreBounds(Idf(m, ix, tokens[k]), tm, |docTokens|, avg);
    }
  }

  /** With a lawful logarithm, every token a document of the index contains has a positive IDF. */
  lemma ContainedHasPositiveIdf(m: MathOps, ix: Index, i: nat, t: string)
    requires Lawful(m) && i < |Docs(ix)| && ContainsToken(Docs(ix)[i], t)
    ensures Idf(m, ix, t) > 0.0
  {
    IdfPositive(m, ix, t);
  }

  /** With a lawful logarithm, a document scores above 0 exactly when some query token matches it. */
  lemma ScorePositive(m: MathOps, ix: Index, i: nat, tokens: seq<string>)
    requires Lawful(m) && i < |Docs(ix)|
    ensures Score(m, ix, Docs(ix)[i], tokens) >= 0.0
    ensures Score(m, ix, Docs(ix)[i], tokens) > 0.0 <==> exists t :: t in tokens && ContainsToken(Docs(ix)[i], t)
  {
    var item := Docs(ix)[i];
    forall t | ContainsToken(item, t)
      ensures Idf(m, ix, t) > 0.0
    {
      ContainedHasPositiveIdf(m, ix, i, t);
    }
    ScoreWhenContainedPositive(m, ix, item, tokens);
  }

  /** When every token the document contains has a positive IDF, the score is positive exactly when it contains a query token. */
  lemma ScoreWhenContainedPositive(m: MathOps, ix: Index, item: Item, tokens: seq<string>)
    requires forall t :: ContainsToken(item, t) ==> Idf(m, ix, t) > 0.0
    ensures Score(m, ix, item, tokens) > 0.0 <==> exists t :: t in tokens && ContainsToken(item, t)
  {
    ContainedTokenHasIdf(m, ix, item, tokens);
  }

  lemma ContainedTokenHasIdf(m: MathOps, ix: Index, item: Item, tokens: seq<string>)
    requires forall t :: ContainsToken(item, t) ==> Idf(m, ix, t) > 0.0
    ensures (exists k :: 0 <= k < |tokens| && ContainsToken(item, tokens[k]) && Idf(m, ix, tokens[k]) > 0.0)
      <==> exists t :: t in tokens && ContainsToken(item, t)
  {
    if k :| 0 <= k < |tokens| && ContainsToken(item, tokens[k]) && Idf(m, ix, tokens[k]) > 0.0 {
      assert tokens[k] in tokens;
    }
    if t :| t in tokens && ContainsToken(item, t) {
      var k :| 0 <= k < |tokens| && tokens[k] == t;
      assert Idf(m, ix, tokens[k]) > 0.0;
    }
  }

  // ---------------------------------------------------------------- search

  /** The scores of all documents, bookmarks first. */
  function Scores(m: MathOps, ix: Index, tokens: seq<string>): (scores: seq<real>)
    ensures |scores| == |Docs(ix)|
    ensures forall i :: 0 <= i < |scores| ==> scores[i] == Score(m, ix, Docs(ix)[i], tokens)
  {
    var docs := Docs(ix);
    seq(|docs|, i requires 0 <= i < |docs| => Score(m, ix, docs[i], tokens))
  }

  /** `search`: nothing for a blank query, else the positive-score documents ranked by score. */
  function Search(m: MathOps, ix: Index, query: string): (r: seq<Hit>)
    ensures IsBlank(query) ==> r == []
    ensures !IsBlank(query) ==> RanksScores(r, Docs(ix), Scores(m, ix, FuzzyTokenize(query)), |ix.bookmarks|)
  {
    TrimEmptyIffBlank(query);
    if Trim(query) == "" then []
    else
      var docs := Docs(ix);
      var scores := Scores(m, ix, FuzzyTokenize(query));
      Rank(docs, scores, |ix.bookmarks|)
  }

  /**
    * With a lawful logarithm, a document is in the results of a non-blank query exactly when
    * one of the query's tokens matches it, exactly or inside one of its words.
    */
  lemma SearchFinds(m: MathOps, ix: Index, query: string, i: nat)
    requires Lawful(m) && i < |Docs(ix)|
    ensures (exists h :: h in Search(m, ix, query) && h.pos == i) <==>
      !IsBlank(query) && exists t :: t in FuzzyTokenize(query) && ContainsToken(Docs(ix)[i], t)
  {
    var r := Search(m, ix, query);
    ScorePositive(m, ix, i, FuzzyTokenize(query));
    assert Scores(m, ix, FuzzyTokenize(query))[i] == Score(m, ix, Docs(ix)[i], FuzzyTokenize(query));
    if IsBlank(query) {
      assert r == [];
    }
  }
}
