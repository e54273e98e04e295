/**
  * `SimpleTfIdf` of src/clustering.js: a stop-word tokenizer, an append-only list of
  * documents, the document-frequency table `termCounts`, the vocabulary, and the vectorizer
  * with its one-document cold-start rule.
  */
module TfIdf {
  import opened Seqs
  import opened Text
  import opened RealMath
  import opened Sparse

  /** The fixed stop-word list of `tokenize`. */
  const StopWords: seq<string> := [
    "the", "a", "an", "and", "or", "but", "in", "on", "at", "to", "for", "of", "with", "by",
    "from", "up", "about", "into", "through", "during", "before", "after", "above", "below",
    "is", "are", "was", "were", "be", "been", "being", "have", "has", "had", "do", "does", "did",
    "will", "would", "could", "should", "may", "might", "must", "shall", "can"
  ]

  /** Membership in a list, unfolded one element at a time. */
  predicate Listed(t: string, list: seq<string>)
  {
    |list| > 0 && (list[0] == t || Listed(t, list[1..]))
  }

  /** The token filter: longer than two characters and not a stop word. */
  predicate Keep(t: string)
  {
    |t| > 2 && !Listed(t, StopWords)
  }

  /** `tokenize`. */
  function Tokenize(text: string): (tokens: seq<string>)
    ensures forall t :: t in tokens ==> Keep(t) && IsLowerWord(t)
  {
    var words := CleanWords(text);
    var tokens := Filter(Keep, words);
    assert forall t :: t in tokens ==> t in words && Keep(t);
    tokens
  }

  /** Tokenizing is insensitive to the case of the text. */
  lemma TokenizeIgnoresCase(text: string)
    ensures Tokenize(ToLower(text)) == Tokenize(text)
  {
    ToLowerIdempotent(text);
  }

  /** Every character other than `\w` separates tokens: the tokens of the two sides, in order. */
  lemma TokenizeSplits(a: string, c: char, b: string)
    requires !IsWordChar(c)
    ensures Tokenize(a + [c] + b) == Tokenize(a) + Tokenize(b)
  {
    CleanWordsConcat(a, c, b);
    FilterAppend(Keep, CleanWords(a), CleanWords(b));
  }

  /** A `\w` word yields itself, lower-cased, exactly when it passes the filter. */
  lemma TokenizeWord(w: string)
    requires IsWord(w)
    ensures Tokenize(w) == if Keep(ToLower(w)) then [ToLower(w)] else []
  {
    CleanWordsOfWord(w);
  }

  /** Lower-case words joined by blanks tokenize to the words that pass the filter, in order. */
  lemma TokenizeJoin(ws: seq<string>)
    requires forall k :: 0 <= k < |ws| ==> IsWord(ws[k]) && IsLowerWord(ws[k])
    ensures Tokenize(Join(ws, " ")) == Filter(Keep, ws)
  {
    CleanWordsJoin(ws);
  }

  /** `getTermFrequency`: the number of occurrences of every token. */
  function TermFrequency(tokens: seq<string>): (tf: map<string, nat>)
    ensures forall t :: t in tf <==> t in tokens
    ensures forall t :: t in tf ==> tf[t] == Count(tokens, t)
  {
    if |tokens| == 0 then map[]
    else
      var front := tokens[..|tokens| - 1];
      var t := tokens[|tokens| - 1];
      var prev := TermFrequency(front);
      assert tokens == front + [t];
      CountPositive(front, t);
      prev[t := (if t in prev then prev[t] else 0) + 1]
  }

  lemma TermFrequencyAtLeastOne(tokens: seq<string>)
    ensures forall t :: t in TermFrequency(tokens) ==> TermFrequency(tokens)[t] >= 1
  {
    forall t | t in TermFrequency(tokens)
      ensures TermFrequency(tokens)[t] >= 1
    {
      CountPositive(tokens, t);
    }
  }

  // ---------------------------------------------------------------- the corpus state

  datatype Doc = Doc(tokens: seq<string>, termFreq: map<string, nat>, index: nat)

  datatype State = State(documents: seq<Doc>, termCounts: map<string, nat>, vocabulary: set<string>)

  /** A new `SimpleTfIdf`. */
  const Empty: State := State([], map[], {})

  /** The number of documents whose tokens include `t`. */
  function DocFreq(docs: seq<Doc>, t: string): nat
  {
    if |docs| == 0 then 0
    else DocFreq(docs[..|docs| - 1], t) + (if t in docs[|docs| - 1].tokens then 1 else 0)
  }

  /** The distinct elements of a token list: `new Set(tokens)`. */
  function Distinct(tokens: seq<string>): set<string>
  {
    set t | t in tokens
  }

  /** Every token of every document. */
  function Terms(docs: seq<Doc>): set<string>
  {
    if |docs| == 0 then {}
    else Terms(docs[..|docs| - 1]) + Distinct(docs[|docs| - 1].tokens)
  }

  /**
    * What `addDocument` maintains: documents know their index and term frequencies,
    * `termCounts` is the document frequency of exactly the terms seen, and the vocabulary
    * is the set of those terms.
    */
  predicate Valid(st: State)
  {
    && (forall i :: 0 <= i < |st.documents| ==>
          st.documents[i].index == i && st.documents[i].termFreq == TermFrequency(st.documents[i].tokens))
    && st.termCounts.Keys == Terms(st.documents)
    && (forall t :: t in st.termCounts ==> st.termCounts[t] == DocFreq(st.documents, t))
    && st.vocabulary == st.termCounts.Keys
  }

  lemma EmptyIsValid()
    ensures Valid(Empty)
    ensures |Empty.vocabulary| == 0 && |Empty.documents| == 0
  {
  }

  function CountOf(counts: map<string, nat>, t: string): nat
  {
    if t in counts then counts[t] else 0
  }

  /** The `forEach` over the distinct terms: each term of `terms` bumps its count by one. */
  function Bump(counts: map<string, nat>, terms: seq<string>): (r: map<string, nat>)
    ensures r.Keys == counts.Keys + Distinct(terms)
    ensures forall t :: CountOf(r, t) == CountOf(counts, t) + Count(terms, t)
  {
    if |terms| == 0 then counts
    else
      var front := terms[..|terms| - 1];
      var t := terms[|terms| - 1];
      assert terms == front + [t];
      var prev := Bump(counts, front);
      prev[t := CountOf(prev, t) + 1]
  }

  datatype Added = Added(state: State, index: nat)

  /** Appends a document with the given tokens and counts each of its distinct terms once. */
  function AddTokens(st: State, tokens: seq<string>): (r: Added)
    ensures r.index == |st.documents|
    ensures r.state.documents == st.documents + [Doc(tokens, TermFrequency(tokens), r.index)]
    ensures forall t :: CountOf(r.state.termCounts, t) == CountOf(st.termCounts, t) + (if t in tokens then 1 else 0)
    ensures r.state.termCounts.Keys == st.termCounts.Keys + Distinct(tokens)
    ensures r.state.vocabulary == st.vocabulary + Distinct(tokens)
  {
    var doc := Doc(tokens, TermFrequency(tokens), |st.documents|);
    var unique := Dedup(tokens);
    var counts := Bump(st.termCounts, unique);
    forall t
      ensures Count(unique, t) == (if t in tokens then 1 else 0)
    {
      CountAtMostOneWhenNoDup(unique, t);
      CountPositive(unique, t);
    }
    assert Distinct(unique) == Distinct(tokens);
    Added(State(st.documents + [doc], counts, st.vocabulary + Distinct(unique)), doc.index)
  }

  /**
    * `addDocument`: the new document's index is the old document count, the list grows by that
    * one document, each distinct term's count goes up by exactly one and joins the vocabulary,
    * and every other count stays as it was.
    */
  function AddDocument(st: State, text: string): (r: Added)
    ensures r.index == |st.documents|
    ensures r.state.documents == st.documents + [Doc(Tokenize(text), TermFrequency(Tokenize(text)), r.index)]
    ensures forall t :: CountOf(r.state.termCounts, t) == CountOf(st.termCounts, t) + (if t in Tokenize(text) then 1 else 0)
    ensures r.state.termCounts.Keys == st.termCounts.Keys + Distinct(Tokenize(text))
    ensures r.state.vocabulary == st.vocabulary + Distinct(Tokenize(text))
  {
    AddTokens(st, Tokenize(text))
  }

  lemma {:induction false} DocFreqAppend(docs: seq<Doc>, d: Doc, t: string)
    ensures DocFreq(docs + [d], t) == DocFreq(docs, t) + (if t in d.tokens then 1 else 0)
    ensures Terms(docs + [d]) == Terms(docs) + Distinct(d.tokens)
  {
    assert (docs + [d])[..|docs|] == docs;
  }

  /** `addDocument` keeps the state consistent. */
  lemma AddDocumentKeepsValid(st: State, text: string)
    requires Valid(st)
    ensures Valid(AddDocument(st, text).state)
  {
    AddTokensKeepsValid(st, Tokenize(text));
  }

  lemma AddTokensKeepsValid(st: State, tokens: seq<string>)
    requires Valid(st)
    ensures Valid(AddTokens(st, tokens).state)
  {
    var r := AddTokens(st, tokens);
    var d := Doc(tokens, TermFrequency(tokens), |st.documents|);
    var docs := st.documents + [d];
    assert r.state.documents == docs;
    forall i | 0 <= i < |docs|
      ensures docs[i].index == i && docs[i].termFreq == TermFrequency(docs[i].tokens)
    {
      if i < |st.documents| {
        assert docs[i] == st.documents[i];
      }
    }
    DocFreqAppend(st.documents, d, "");
    forall t | t in r.state.termCounts
      ensures r.state.termCounts[t] == DocFreq(docs, t)
    {
      DocFreqAppend(st.documents, d, t);
      assert CountOf(r.state.termCounts, t) == r.state.termCounts[t];
      DocFreqOfTerm(st.documents, t);
      assert CountOf(st.termCounts, t) == DocFreq(st.documents, t);
    }
  }

  lemma {:induction false} DocFreqAtMostCount(docs: seq<Doc>, t: string)
    ensures DocFreq(docs, t) <= |docs|
  {
    if |docs| > 0 {
      DocFreqAtMostCount(docs[..|docs| - 1], t);
    }
  }

  lemma {:induction false} DocFreqOfTerm(docs: seq<Doc>, t: string)
    ensures t in Terms(docs) <==> DocFreq(docs, t) >= 1
  {
    if |docs| > 0 {
      DocFreqOfTerm(docs[..|docs| - 1], t);
    }
  }

  lemma {:induction false} TermsCoverDocuments(docs: seq<Doc>, i: nat, t: string)
    requires i < |docs| && t in docs[i].tokens
    ensures t in Terms(docs)
  {
    if i < |docs| - 1 {
      assert docs[..|docs| - 1][i] == docs[i];
      TermsCoverDocuments(docs[..|docs| - 1], i, t);
    }
  }

  /** Every counted term occurs in at least one and at most all documents. */
  lemma DocFreqBounds(st: State, t: string)
    requires Valid(st) && t in st.termCounts
    ensures 1 <= st.termCounts[t] <= |st.documents|
  {
    DocFreqOfTerm(st.documents, t);
    DocFreqAtMostCount(st.documents, t);
  }

  /** The terms of a stored document are counted. */
  lemma DocumentTermsCounted(st: State, idx: nat)
    requires Valid(st) && idx < |st.documents|
    ensures forall t :: t in st.documents[idx].termFreq ==> t in st.termCounts && 1 <= st.termCounts[t] <= |st.documents|
    ensures forall t :: t in st.documents[idx].termFreq ==> st.documents[idx].termFreq[t] >= 1
  {
    var doc := st.documents[idx];
    forall t | t in doc.termFreq
      ensures t in st.termCounts && 1 <= st.termCounts[t] <= |st.documents|
    {
      TermsCoverDocuments(st.documents, idx, t);
      DocFreqBounds(st, t);
    }
    TermFrequencyAtLeastOne(doc.tokens);
  }

  // ---------------------------------------------------------------- vectors

  /** `Math.max` over a non-empty set of counts (0 for the empty set). */
  ghost function MaxOf(s: set<nat>): (r: nat)
    ensures s != {} ==> r in s
    ensures forall x :: x in s ==> x <= r
    decreases s
  {
    if s == {} then 0
    else
      var x :| x in s;
      var m := MaxOf(s - {x});
      assert forall y :: y in s ==> y == x || y in s - {x};
      if x >= m then x
      else
        assert s - {x} != {};
        m
  }

  /** `ln(N / df)`. */
  function Idf(m: MathOps, n: nat, df: nat): real
    requires df > 0
  {
    m.ln((n as real) / (df as real))
  }

  /** `q` is `x / maxTf`. */
  predicate IsShare(q: real, x: nat, maxTf: nat)
  {
    q * (maxTf as real) == x as real
  }

  /** `tf / maxTf`, the normalised frequency of one term. */
  function Share(x: nat, maxTf: nat): (q: real)
    requires 1 <= x <= maxTf
    ensures 0.0 < q <= 1.0
    ensures IsShare(q, x, maxTf)
    ensures x == maxTf ==> q == 1.0
  {
    DivBound(x as real, maxTf as real);
    (x as real) / (maxTf as real)
  }

  /** `tf * idf`, the weight of one term. */
  function Weight(x: nat, idf: real): real
  {
    (x as real) * idf
  }

  /** The cold-start weights: every frequency divided by the largest one. */
  function Normalize(tf: map<string, nat>, maxTf: nat): (v: Vector)
    requires forall t :: t in tf ==> 1 <= tf[t] <= maxTf
    ensures v.Keys == tf.Keys
    ensures forall t :: t in v ==> 0.0 < v[t] <= 1.0
    ensures forall t :: t in v && tf[t] == maxTf ==> v[t] == 1.0
    ensures forall t :: t in v ==> IsShare(v[t], tf[t], maxTf)
  {
    map t | t in tf && Share(tf[t], maxTf) > 0.0 :: Share(tf[t], maxTf)
  }

  /** The TF-IDF weights `tf * ln(N / df)`, keeping only the positive ones. */
  function Weigh(m: MathOps, n: nat, counts: map<string, nat>, tf: map<string, nat>): (v: Vector)
    requires forall t :: t in tf ==> t in counts && counts[t] >= 1
    ensures v.Keys <= tf.Keys
    ensures Positive(v)
    ensures forall t :: t in v ==> v[t] == Weight(tf[t], Idf(m, n, counts[t]))
    ensures forall t :: t in tf && Weight(tf[t], Idf(m, n, counts[t])) > 0.0 ==> t in v
  {
    map t | t in tf && Weight(tf[t], Idf(m, n, counts[t])) > 0.0 :: Weight(tf[t], Idf(m, n, counts[t]))
  }

  /**
    * `getVector`: with one document, the term frequencies divided by the largest one;
    * otherwise `tf * ln(N / df)`, keeping only the positive weights.
    */
  ghost function GetVector(m: MathOps, st: State, idx: nat): (v: Vector)
    requires Valid(st) && idx < |st.documents|
    ensures v.Keys <= st.documents[idx].termFreq.Keys
    ensures Positive(v)
    ensures |st.documents| == 1 ==> forall t :: t in v ==> v[t] <= 1.0
    ensures |st.documents| == 1 ==> forall t :: t in v ==>
      IsShare(v[t], st.documents[idx].termFreq[t], MaxOf(st.documents[idx].termFreq.Values))
    ensures |st.documents| > 1 ==> forall t :: t in v ==>
      t in st.termCounts && st.termCounts[t] >= 1 &&
      v[t] == Weight(st.documents[idx].termFreq[t], Idf(m, |st.documents|, st.termCounts[t]))
  {
    var tf := st.documents[idx].termFreq;
    DocumentTermsCounted(st, idx);
    if |st.documents| == 1 then
      var maxTf := MaxOf(tf.Values);
      forall t | t in tf
        ensures tf[t] <= maxTf
      {
        assert tf[t] in tf.Values;
      }
      Normalize(tf, maxTf)
    else
      Weigh(m, |st.documents|, st.termCounts, tf)
  }

  /** `ln(N / df)` is never negative, because every counted term has `1 <= df <= N`. */
  lemma IdfNonNegative(m: MathOps, st: State, t: string)
    requires Lawful(m) && Valid(st) && t in st.termCounts
    ensures st.termCounts[t] > 0 && Idf(m, |st.documents|, st.termCounts[t]) >= 0.0
  {
    DocFreqBounds(st, t);
    var n, df := |st.documents| as real, st.termCounts[t] as real;
    RatioAtLeastOne(n, df);
    if n / df > 1.0 {
      LnPositive(m, n / df);
    }
  }

  /**
    * Cold start: with a single document every term of it is in the vector, every weight is
    * in (0, 1], a most frequent term has weight exactly 1, and every weight is the term's
    * frequency divided by the largest frequency.
    */
  lemma ColdStartVector(m: MathOps, st: State)
    requires Valid(st) && |st.documents| == 1
    ensures GetVector(m, st, 0).Keys == st.documents[0].termFreq.Keys
    ensures forall t :: t in GetVector(m, st, 0) ==> 0.0 < GetVector(m, st, 0)[t] <= 1.0
    ensures |st.documents[0].termFreq| > 0 ==> exists t :: t in GetVector(m, st, 0) && GetVector(m, st, 0)[t] == 1.0
    ensures forall t :: t in GetVector(m, st, 0) ==>
      IsShare(GetVector(m, st, 0)[t], st.documents[0].termFreq[t], MaxOf(st.documents[0].termFreq.Values))
  {
    var tf := st.documents[0].termFreq;
    DocumentTermsCounted(st, 0);
    var maxTf := MaxOf(tf.Values);
    forall t | t in tf
      ensures tf[t] <= maxTf
    {
      assert tf[t] in tf.Values;
    }
    var v := Normalize(tf, maxTf);
    assert GetVector(m, st, 0) == v;
    if |tf| > 0 {
      var u :| u in tf;
      assert tf[u] in tf.Values;
      var t :| t in tf && tf[t] == maxTf;
      assert v[t] == 1.0;
    }
  }

  /**
    * With more than one document a term of the document has a weight exactly when it does not
    * occur in every document; in particular a term present in all documents is dropped.
    */
  lemma VectorSupport(m: MathOps, st: State, idx: nat, t: string)
    requires Lawful(m) && Valid(st) && idx < |st.documents| && |st.documents| > 1
    ensures t in GetVector(m, st, idx) <==> t in st.documents[idx].termFreq && t in st.termCounts && st.termCounts[t] < |st.documents|
  {
    var tf := st.documents[idx].termFreq;
    DocumentTermsCounted(st, idx);
    assert GetVector(m, st, idx) == Weigh(m, |st.documents|, st.termCounts, tf);
    if t in tf {
      WeighSupport(m, |st.documents|, st.termCounts, tf, t);
    }
  }

  lemma WeighSupport(m: MathOps, n: nat, counts: map<string, nat>, tf: map<string, nat>, t: string)
    requires Lawful(m)
    requires forall u :: u in tf ==> u in counts && counts[u] >= 1
    requires t in tf && tf[t] >= 1 && counts[t] <= n
    ensures t in Weigh(m, n, counts, tf) <==> counts[t] < n
  {
    var w := (tf[t] as real) * Idf(m, n, counts[t]);
    var ratio := (n as real) / (counts[t] as real);
    RatioAtLeastOne(n as real, counts[t] as real);
    if counts[t] < n {
      LnPositive(m, ratio);
      ScalePositive(tf[t] as real, Idf(m, n, counts[t]));
    } else {
      LnOneIsZero(m);
      assert ratio == 1.0;
      assert Idf(m, n, counts[t]) == 0.0;
    }
  }

  /**
    * With more than one document, of two terms of a document with the same frequency, the one
    * found in fewer documents weighs more: when the commoner one is kept, so is the rarer one,
    * with a larger weight.
    */
  lemma RarerTermWeighsMore(m: MathOps, st: State, idx: nat, t: string, u: string)
    requires Lawful(m) && Valid(st) && idx < |st.documents| && |st.documents| > 1
    requires t in st.documents[idx].termFreq && u in st.documents[idx].termFreq
    requires st.documents[idx].termFreq[t] == st.documents[idx].termFreq[u]
    requires t in st.termCounts && u in st.termCounts && st.termCounts[t] < st.termCounts[u]
    ensures u in GetVector(m, st, idx) ==> t in GetVector(m, st, idx) && GetVector(m, st, idx)[t] > GetVector(m, st, idx)[u]
  {
    var tf := st.documents[idx].termFreq;
    DocumentTermsCounted(st, idx);
    assert GetVector(m, st, idx) == Weigh(m, |st.documents|, st.termCounts, tf);
    WeighRarer(m, |st.documents|, st.termCounts, tf, t, u);
  }

  /** `RarerTermWeighsMore` at the level of `Weigh`. */
  lemma WeighRarer(m: MathOps, n: nat, counts: map<string, nat>, tf: map<string, nat>, t: string, u: string)
    requires Lawful(m) && n > 0
    requires forall w :: w in tf ==> w in counts && counts[w] >= 1
    requires t in tf && u in tf && tf[t] == tf[u] && tf[t] >= 1 && counts[t] < counts[u]
    ensures u in Weigh(m, n, counts, tf) ==> t in Weigh(m, n, counts, tf) && Weigh(m, n, counts, tf)[t] > Weigh(m, n, counts, tf)[u]
  {
    var v := Weigh(m, n, counts, tf);
    if u in v {
      var it, iu := Idf(m, n, counts[t]), Idf(m, n, counts[u]);
      RatioDecreasing(n as real, counts[t] as real, counts[u] as real);
      assert it > iu;
      WeightIncreasing(tf[t], it, iu);
      assert Weight(tf[t], it) > Weight(tf[u], iu) == v[u] > 0.0;
    }
  }

  /** A larger IDF gives a larger weight to a term that occurs. */
  lemma WeightIncreasing(x: nat, i: real, j: real)
    requires x >= 1 && i > j
    ensures Weight(x, i) > Weight(x, j)
  {
    ScaleStrict(x as real, i, j);
  }
}
