/**
  * The older `BM25Search` of indexing.js: a plain tokenizer that deletes non-word characters,
  * a score over exact term counts, and an IDF whose document count tests the lower-cased
  * document text for the token as a raw substring.
  *
  * The raw-substring document count disagrees with the tokenizer (see README, Findings):
  * `AsWrittenIdf` and `AsWrittenSearch` model it as written, and `Idf` and `Search` count
  * the documents whose tokens include the token.
  */
module LegacyBm25 {
  import opened Wrappers
  import opened Seqs
  import opened Text
  import opened RealMath
  import opened Items
  import opened Okapi
  import opened Ranking

  /** The white-space separated words of the lower-cased text once every character other than `\w` and `\s` is deleted. */
  function PlainWords(text: string): (words: seq<string>)
    ensures forall w :: w in words ==> |w| > 0 && IsLowerWord(w)
  {
    var kept := DeleteNonWord(ToLower(text));
    var words := Words(kept);
    forall w | w in words
      ensures IsLowerWord(w)
    {
      forall i | 0 <= i < |w|
        ensures IsWordChar(w[i]) && !IsUpper(w[i])
      {
        assert w[i] in w;
        assert w[i] in kept && !IsSpace(w[i]);
        var j :| 0 <= j < |ToLower(text)| && ToLower(text)[j] == w[i];
      }
    }
    words
  }

  /** `tokenize`: the plain words longer than two characters. */
  function PlainTokenize(text: string): (tokens: seq<string>)
    ensures forall t :: t in tokens ==> |t| > 2 && IsLowerWord(t)
  {
    var words := PlainWords(text);
    var tokens := Filter(Long, words);
    assert forall t :: t in tokens ==> t in words && Long(t);
    tokens
  }

  /** Lower-casing and deleting the non-word characters both work character by character. */
  lemma DeletedConcat(a: string, b: string)
    ensures DeleteNonWord(ToLower(a + b)) == DeleteNonWord(ToLower(a)) + DeleteNonWord(ToLower(b))
  {
    ToLowerConcat(a, b);
    FilterAppend(IsWordOrSpace, ToLower(a), ToLower(b));
  }

  /** A white-space character separates the plain words on either side of it. */
  lemma PlainWordsSplit(a: string, c: char, b: string)
    requires IsSpace(c)
    ensures PlainWords(a + [c] + b) == PlainWords(a) + PlainWords(b)
  {
    DeletedConcat(a + [c], b);
    DeletedConcat(a, [c]);
    var d := ToLower([c])[0];
    assert ToLower([c]) == [d];
    assert DeleteNonWord([d]) == [d];
    WordsConcat(DeleteNonWord(ToLower(a)), d, DeleteNonWord(ToLower(b)));
  }

  /** Any other character outside `\w` is deleted: it joins the two sides into one word. */
  lemma PlainWordsDeletes(a: string, c: char, b: string)
    requires !IsWordChar(c) && !IsSpace(c)
    ensures PlainWords(a + [c] + b) == PlainWords(a + b)
  {
    DeletedChar(a, c, b);
  }

  lemma DeletedChar(a: string, c: char, b: string)
    requires !IsWordChar(c) && !IsSpace(c)
    ensures DeleteNonWord(ToLower(a + [c] + b)) == DeleteNonWord(ToLower(a + b))
  {
    var da, db := DeleteNonWord(ToLower(a)), DeleteNonWord(ToLower(b));
    DeletedConcat(a + [c], b);
    DeletedConcat(a, [c]);
    assert DeleteNonWord(ToLower([c])) == [];
    assert DeleteNonWord(ToLower(a + [c])) == da;
    DeletedConcat(a, b);
  }

  /** A `\w` word is the only plain word of its text, lower-cased. */
  lemma PlainWordsOfWord(w: string)
    requires IsWord(w)
    ensures PlainWords(w) == [ToLower(w)]
  {
    var l := ToLower(w);
    FilterKeepsAll(IsWordOrSpace, l);
    assert forall i :: 0 <= i < |l| ==> IsWordChar(l[i]) && !IsSpace(l[i]);
    WordsOfWord(l);
  }

  /** White space separates tokens: the tokens of the two sides, in order. */
  lemma PlainTokenizeSplit(a: string, c: char, b: string)
    requires IsSpace(c)
    ensures PlainTokenize(a + [c] + b) == PlainTokenize(a) + PlainTokenize(b)
  {
    PlainWordsSplit(a, c, b);
    FilterAppend(Long, PlainWords(a), PlainWords(b));
  }

  /** A character that is neither `\w` nor white space is deleted before splitting. */
  lemma PlainTokenizeDeletes(a: string, c: char, b: string)
    requires !IsWordChar(c) && !IsSpace(c)
    ensures PlainTokenize(a + [c] + b) == PlainTokenize(a + b)
  {
    PlainWordsDeletes(a, c, b);
  }

  /** Lower-case words joined by blanks give the words longer than two characters, in order. */
  lemma {:induction false} PlainTokenizeJoin(ws: seq<string>)
    requires forall k :: 0 <= k < |ws| ==> IsWord(ws[k]) && IsLowerWord(ws[k])
    ensures PlainTokenize(Join(ws, " ")) == Filter(Long, ws)
    decreases |ws|
  {
    if |ws| == 0 {
      assert ToLower("") == "";
    } else {
      var n := |ws| - 1;
      var front, w := ws[..n], ws[n];
      assert ws == front + [w];
      PlainWordsOfWord(w);
      assert ToLower(w) == w;
      if n > 0 {
        PlainTokenizeJoin(front);
        JoinLast(ws, " ");
        PlainTokenizeSplit(Join(front, " "), ' ', w);
        FilterAppend(Long, front, [w]);
      }
    }
  }

  /** A text's tokens are those of its lower-cased form. */
  lemma PlainTokenizeIgnoresCase(text: string)
    ensures PlainTokenize(ToLower(text)) == PlainTokenize(text)
  {
    ToLowerIdempotent(text);
  }

  /** The documents' token counts, for `getAvgDocLength`. */
  function Lengths(docs: seq<Item>): (lengths: seq<nat>)
    ensures |lengths| == |docs|
    ensures forall i :: 0 <= i < |docs| ==> lengths[i] == |PlainTokenize(DocText(docs[i]))|
  {
    seq(|docs|, i requires 0 <= i < |docs| => |PlainTokenize(DocText(docs[i]))|)
  }

  /** `getAvgDocLength`. */
  function AvgDocLength(ix: Index): (avg: real)
    ensures avg >= 0.0
    ensures avg == 0.0 <==> forall i :: 0 <= i < |Docs(ix)| ==> PlainTokenize(DocText(Docs(ix)[i])) == []
  {
    var lengths := Lengths(Docs(ix));
    MeanLengthZero(lengths);
    MeanLength(lengths)
  }

  // ---------------------------------------------------------------- IDF as written

  /** The test of `calculateIDF`: the lower-cased document text contains the token. */
  function TextContains(item: Item, token: string): bool
  {
    Contains(ToLower(DocText(item)), token)
  }

  function SubstringFlags(docs: seq<Item>, token: string): (flags: seq<bool>)
    ensures |flags| == |docs|
    ensures forall i :: 0 <= i < |docs| ==> flags[i] == TextContains(docs[i], token)
  {
    seq(|docs|, i requires 0 <= i < |docs| => TextContains(docs[i], token))
  }

  /** `calculateIDF` as written: documents counted by a raw substring test. */
  function AsWrittenIdf(m: MathOps, ix: Index, token: string): (idf: real)
    ensures (forall i :: 0 <= i < |Docs(ix)| ==> !TextContains(Docs(ix)[i], token)) ==> idf == 0.0
  {
    IdfOf(m, CountTrue(SubstringFlags(Docs(ix), token)), |Docs(ix)|)
  }

  // ---------------------------------------------------------------- IDF over tokens

  /** Whether the token is one of the document's tokens. */
  function HasToken(item: Item, token: string): bool
  {
    token in PlainTokenize(DocText(item))
  }

  function TokenFlags(docs: seq<Item>, token: string): (flags: seq<bool>)
    ensures |flags| == |docs|
    ensures forall i :: 0 <= i < |docs| ==> flags[i] == HasToken(docs[i], token)
  {
    seq(|docs|, i requires 0 <= i < |docs| => HasToken(docs[i], token))
  }

  /** The number of documents whose tokens include the token. */
  function DocCount(docs: seq<Item>, token: string): (n: nat)
    ensures n <= |docs|
    ensures n == 0 <==> forall i :: 0 <= i < |docs| ==> !HasToken(docs[i], token)
  {
    var flags := TokenFlags(docs, token);
    assert (forall i :: 0 <= i < |flags| ==> !flags[i]) <==> (forall i :: 0 <= i < |docs| ==> !HasToken(docs[i], token));
    CountTrue(flags)
  }

  /** `calculateIDF` with documents counted by their tokens, as the score counts them. */
  function Idf(m: MathOps, ix: Index, token: string): (idf: real)
    ensures DocCount(Docs(ix), token) == 0 ==> idf == 0.0
  {
    IdfOf(m, DocCount(Docs(ix), token), |Docs(ix)|)
  }

  /** With a lawful logarithm, a token of some document has a positive IDF. */
  lemma IdfPositive(m: MathOps, ix: Index, token: string)
    requires Lawful(m)
    ensures Idf(m, ix, token) > 0.0 <==> DocCount(Docs(ix), token) > 0
  {
    IdfOfPositive(m, DocCount(Docs(ix), token), |Docs(ix)|);
  }

  // ---------------------------------------------------------------- score

  /** The term of `calculateScore`: `idf * tf * (k1 + 1) / (tf + norm)` when the IDF is positive, else nothing. */
  function Term(idf: real, tf: nat, docLength: nat, avg: real): (term: real)
    requires avg >= 0.0
  {
    if idf > 0.0 then idf * Saturation(tf as real, Norm(docLength, avg)) else 0.0
  }

  /** A term is never negative, is 0 for a token the document lacks, and positive for one it has when the IDF is positive. */
  lemma TermSign(idf: real, tf: nat, docLength: nat, avg: real)
    requires avg >= 0.0
    ensures Term(idf, tf, docLength, avg) >= 0.0
    ensures Term(idf, tf, docLength, avg) > 0.0 <==> tf > 0 && idf > 0.0
    ensures tf == 0 ==> Term(idf, tf, docLength, avg) == 0.0
  {
    if idf > 0.0 {
      var s := Saturation(tf as real, Norm(docLength, avg));
      SaturationBounds(tf as real, Norm(docLength, avg));
      assert idf * s >= 0.0;
      assert s > 0.0 ==> idf * s > 0.0;
    }
  }

  /** The IDF of every query token, as written. */
  function AsWrittenIdfs(m: MathOps, ix: Index, tokens: seq<string>): (idfs: seq<real>)
    ensures |idfs| == |tokens|
    ensures forall k :: 0 <= k < |tokens| ==> idfs[k] == AsWrittenIdf(m, ix, tokens[k])
  {
    seq(|tokens|, k requires 0 <= k < |tokens| => AsWrittenIdf(m, ix, tokens[k]))
  }

  /** The token-counting IDF of every query token. */
  function Idfs(m: MathOps, ix: Index, tokens: seq<string>): (idfs: seq<real>)
    ensures |idfs| == |tokens|
    ensures forall k :: 0 <= k < |tokens| ==> idfs[k] == Idf(m, ix, tokens[k])
  {
    seq(|tokens|, k requires 0 <= k < |tokens| => Idf(m, ix, tokens[k]))
  }

  /** The term of one query token of the given IDF for one document. */
  function TokenTerm(idf: real, ix: Index, item: Item, token: string): real
  {
    var docTokens := PlainTokenize(DocText(item));
    Term(idf, Count(docTokens, token), |docTokens|, AvgDocLength(ix))
  }

  /** The terms of one document for every query token, given the tokens' IDFs. */
  function Terms(idfs: seq<real>, ix: Index, item: Item, tokens: seq<string>): (terms: seq<real>)
    requires |idfs| == |tokens|
    ensures |terms| == |tokens|
    ensures forall k :: 0 <= k < |tokens| ==> terms[k] == TokenTerm(idfs[k], ix, item, tokens[k])
  {
    seq(|tokens|, k requires 0 <= k < |tokens| => TokenTerm(idfs[k], ix, item, tokens[k]))
  }

  /**
    * `calculateScore` as written: never negative, and positive exactly when the document has
    * a query token whose raw-substring IDF is positive.
    */
  function AsWrittenScore(m: MathOps, ix: Index, item: Item, tokens: seq<string>): (s: real)
    ensures s >= 0.0
    ensures s > 0.0 <==> exists k :: 0 <= k < |tokens| && HasToken(item, tokens[k]) && AsWrittenIdf(m, ix, tokens[k]) > 0.0
  {
    TermsPositive(AsWrittenIdfs(m, ix, tokens), ix, item, tokens);
    SumReal(Terms(AsWrittenIdfs(m, ix, tokens), ix, item, tokens))
  }

  /**
    * `calculateScore` with the token-counting IDF: never negative, and positive exactly when
    * the document has a query token whose IDF is positive.
    */
  function Score(m: MathOps, ix: Index, item: Item, tokens: seq<string>): (s: real)
    ensures s >= 0.0
    ensures s > 0.0 <==> exists k :: 0 <= k < |tokens| && HasToken(item, tokens[k]) && Idf(m, ix, tokens[k]) > 0.0
  {
    TermsPositive(Idfs(m, ix, tokens), ix, item, tokens);
    SumReal(Terms(Idfs(m, ix, tokens), ix, item, tokens))
  }

  /**
    * Whatever the IDFs, a document's score is never negative, and it is positive exactly
    * when one of its tokens is a query token of positive IDF; the number of occurrences
    * only weighs the term.
    */
  lemma TermsPositive(idfs: seq<real>, ix: Index, item: Item, tokens: seq<string>)
    requires |idfs| == |tokens|
    ensures SumReal(Terms(idfs, ix, item, tokens)) >= 0.0
    ensures SumReal(Terms(idfs, ix, item, tokens)) > 0.0 <==>
      exists k :: 0 <= k < |tokens| && HasToken(item, tokens[k]) && idfs[k] > 0.0
  {
    var docTokens := PlainTokenize(DocText(item));
    var terms := Terms(idfs, ix, item, tokens);
    forall k | 0 <= k < |tokens|
      ensures terms[k] >= 0.0
      ensures terms[k] > 0.0 <==> HasToken(item, tokens[k]) && idfs[k] > 0.0
    {
      TermSign(idfs[k], Count(docTokens, tokens[k]), |docTokens|, AvgDocLength(ix));
      CountPositive(docTokens, tokens[k]);
    }
    SumRealSign(terms);
  }

  /**
    * With a lawful logarithm and the token-counting IDF, a document of the index scores
    * above 0 exactly when one of its tokens is a query token.
    */
  lemma ScorePositive(m: MathOps, ix: Index, i: nat, tokens: seq<string>)
    requires Lawful(m) && i < |Docs(ix)|
    ensures Score(m, ix, Docs(ix)[i], tokens) >= 0.0
    ensures Score(m, ix, Docs(ix)[i], tokens) > 0.0 <==> exists t :: t in tokens && HasToken(Docs(ix)[i], t)
  {
    var item := Docs(ix)[i];
    var idfs := Idfs(m, ix, tokens);
    TermsPositive(idfs, ix, item, tokens);
    SharedTokensWeigh(m, ix, i, tokens);
    SharedTokenIndex(item, tokens, idfs);
  }

  /** A query token the document has is one at an index whose IDF is positive, when all such IDFs are. */
  lemma SharedTokenIndex(item: Item, tokens: seq<string>, idfs: seq<real>)
    requires |idfs| == |tokens|
    requires forall k :: 0 <= k < |tokens| && HasToken(item, tokens[k]) ==> idfs[k] > 0.0
    ensures (exists t :: t in tokens && HasToken(item, t)) ==>
      exists k :: 0 <= k < |tokens| && HasToken(item, tokens[k]) && idfs[k] > 0.0
  {
    if t :| t in tokens && HasToken(item, t) {
      var k :| 0 <= k < |tokens| && tokens[k] == t;
      assert HasToken(item, tokens[k]) && idfs[k] > 0.0;
    }
  }

  /** With a lawful logarithm, every query token a document has carries a positive IDF. */
  lemma SharedTokensWeigh(m: MathOps, ix: Index, i: nat, tokens: seq<string>)
    requires Lawful(m) && i < |Docs(ix)|
    ensures forall k :: 0 <= k < |tokens| && HasToken(Docs(ix)[i], tokens[k]) ==> Idfs(m, ix, tokens)[k] > 0.0
  {
    forall k | 0 <= k < |tokens| && HasToken(Docs(ix)[i], tokens[k])
      ensures Idf(m, ix, tokens[k]) > 0.0
    {
      IdfPositive(m, ix, tokens[k]);
    }
  }

  // ---------------------------------------------------------------- search

  function AsWrittenScores(m: MathOps, ix: Index, tokens: seq<string>): (scores: seq<real>)
    ensures |scores| == |Docs(ix)|
    ensures forall i :: 0 <= i < |scores| ==> scores[i] == AsWrittenScore(m, ix, Docs(ix)[i], tokens)
  {
    seq(|Docs(ix)|, i requires 0 <= i < |Docs(ix)| => AsWrittenScore(m, ix, Docs(ix)[i], tokens))
  }

  function Scores(m: MathOps, ix: Index, tokens: seq<string>): (scores: seq<real>)
    ensures |scores| == |Docs(ix)|
    ensures forall i :: 0 <= i < |scores| ==> scores[i] == Score(m, ix, Docs(ix)[i], tokens)
  {
    seq(|Docs(ix)|, i requires 0 <= i < |Docs(ix)| => Score(m, ix, Docs(ix)[i], tokens))
  }

  /** `search` as written: nothing for a blank query, else the positive-score documents ranked by score. */
  function AsWrittenSearch(m: MathOps, ix: Index, query: string): (r: seq<Hit>)
    ensures IsBlank(query) ==> r == []
    ensures !IsBlank(query) ==> RanksScores(r, Docs(ix), AsWrittenScores(m, ix, PlainTokenize(query)), |ix.bookmarks|)
  {
    TrimEmptyIffBlank(query);
    if Trim(query) == "" then []
    else Rank(Docs(ix), AsWrittenScores(m, ix, PlainTokenize(query)), |ix.bookmarks|)
  }

  /** `search` with the token-counting IDF. */
  function Search(m: MathOps, ix: Index, query: string): (r: seq<Hit>)
    ensures IsBlank(query) ==> r == []
    ensures !IsBlank(query) ==> RanksScores(r, Docs(ix), Scores(m, ix, PlainTokenize(query)), |ix.bookmarks|)
  {
    TrimEmptyIffBlank(query);
    if Trim(query) == "" then []
    else Rank(Docs(ix), Scores(m, ix, PlainTokenize(query)), |ix.bookmarks|)
  }

  /** With a lawful logarithm, a document is found by a non-blank query exactly when it shares a token with the query. */
  lemma SearchFinds(m: MathOps, ix: Index, query: string, i: nat)
    requires Lawful(m) && i < |Docs(ix)|
    ensures (exists h :: h in Search(m, ix, query) && h.pos == i) <==>
      !IsBlank(query) && exists t :: t in PlainTokenize(query) && HasToken(Docs(ix)[i], t)
  {
    var r := Search(m, ix, query);
    ScorePositive(m, ix, i, PlainTokenize(query));
    assert Scores(m, ix, PlainTokenize(query))[i] == Score(m, ix, Docs(ix)[i], PlainTokenize(query));
    if IsBlank(query) {
      assert r == [];
    }
  }

  // ---------------------------------------------------------------- the discrepancy

  /** A folder: no URL, its text is its name. */
  function Folder(name: string): (it: Item)
    ensures !IsBookmark(it) && DocText(it) == name
  {
    Item("", "", name, "", None, None, None)
  }

  /** A lower-case word longer than two characters is its own only token. */
  lemma PlainTokenizeOfWord(w: string)
    requires |w| > 2 && IsLowerWord(w)
    ensures PlainTokenize(w) == [w]
  {
    ToLowerOfLower(w);
    FilterKeepsAll(IsWordOrSpace, w);
    CleanedToWord(w, w);
  }

  /** A text that cleans to a single lower-case word longer than two characters has that word as its only token. */
  lemma CleanedToWord(text: string, w: string)
    requires |w| > 2 && IsLowerWord(w) && DeleteNonWord(ToLower(text)) == w
    ensures PlainTokenize(text) == [w]
  {
    assert forall i :: 0 <= i < |w| ==> !IsSpace(w[i]);
    WordsOfWord(w);
    assert PlainWords(text) == [w];
    FilterKeepsAll(Long, [w]);
  }

  /** A string without upper-case letters is its own lower-case form. */
  lemma ToLowerOfLower(s: string)
    requires IsLowerCase(s)
    ensures ToLower(s) == s
  {
  }

  /** The hyphenated word has no upper-case letter. */
  lemma HyphenatedIsLower(a: string, b: string)
    requires IsLowerWord(a + b)
    ensures IsLowerCase(a + "-" + b)
  {
    var h, w := a + "-" + b, a + b;
    forall i | 0 <= i < |h|
      ensures !IsUpper(h[i])
    {
      if i < |a| {
        assert h[i] == w[i];
      } else if i > |a| {
        assert h[i] == w[i - 1];
      }
    }
  }

  /** Deleting the hyphen of a hyphenated lower-case word leaves the word. */
  lemma HyphenDeleted(a: string, b: string)
    requires IsLowerWord(a + b)
    ensures DeleteNonWord(ToLower(a + "-" + b)) == a + b
  {
    HyphenatedIsLower(a, b);
    ToLowerOfLower(a + "-" + b);
    HyphenFiltered(a, b);
  }

  lemma HyphenFiltered(a: string, b: string)
    requires IsLowerWord(a + b)
    ensures Filter(IsWordOrSpace, a + "-" + b) == a + b
  {
    var w := a + b;
    assert forall i :: 0 <= i < |a| ==> a[i] == w[i];
    assert forall i :: 0 <= i < |b| ==> b[i] == w[|a| + i];
    FilterAppend(IsWordOrSpace, a + "-", b);
    FilterAppend(IsWordOrSpace, a, "-");
    FilterKeepsAll(IsWordOrSpace, a);
    FilterKeepsAll(IsWordOrSpace, b);
    DashDropped();
  }

  lemma DashDropped()
    ensures Filter(IsWordOrSpace, "-") == []
  {
    assert !IsWordOrSpace('-') && "-"[..0] == [];
  }

  /** A hyphenated lower-case word has the word as its only token. */
  lemma HyphenTokens(a: string, b: string)
    requires |a + b| > 2 && IsLowerWord(a + b)
    ensures PlainTokenize(a + "-" + b) == [a + b]
  {
    HyphenDeleted(a, b);
    CleanedToWord(a + "-" + b, a + b);
  }

  /** A hyphen strictly inside the word keeps the word out of the hyphenated text. */
  lemma HyphenHidesWord(a: string, b: string)
    requires |a| > 0 && |b| > 0 && IsLowerWord(a + b)
    ensures !Contains(ToLower(a + "-" + b), a + b)
  {
    var h, w := a + "-" + b, a + b;
    HyphenatedIsLower(a, b);
    ToLowerOfLower(h);
    assert h[|a|] == '-';
    forall i | 0 <= i
      ensures !OccursAt(w, h, i)
    {
      if i + |w| <= |h| {
        var k := |a| - i;
        assert h[i..i + |w|][k] == '-';
        assert w[k] != '-';
      }
    }
  }

  /**
    * As written, searching an index that holds only a folder named by a hyphenated word
    * (`e-mail`) for the word (`email`) finds nothing, although the folder's one token is the
    * query's one token; with the token-counting IDF the folder is found.
    */
  lemma HyphenatedWordIsNeverFound(m: MathOps, a: string, b: string)
    requires Lawful(m)
    requires |a| > 0 && |b| > 0 && |a + b| > 2 && IsLowerWord(a + b)
    ensures AsWrittenSearch(m, Index([], [Folder(a + "-" + b)]), a + b) == []
    ensures exists h :: h in Search(m, Index([], [Folder(a + "-" + b)]), a + b) && h.pos == 0
  {
    HyphenMissedAsWritten(m, a, b);
    HyphenFound(m, a, b);
  }

  lemma HyphenMissedAsWritten(m: MathOps, a: string, b: string)
    requires |a| > 0 && |b| > 0 && |a + b| > 2 && IsLowerWord(a + b)
    ensures AsWrittenSearch(m, Index([], [Folder(a + "-" + b)]), a + b) == []
  {
    var ix := Index([], [Folder(a + "-" + b)]);
    assert Docs(ix) == [Folder(a + "-" + b)];
    HyphenHidesWord(a, b);
    PlainTokenizeOfWord(a + b);
    AsWrittenNeverScores(m, ix, a + b);
  }

  lemma HyphenFound(m: MathOps, a: string, b: string)
    requires Lawful(m)
    requires |a + b| > 2 && IsLowerWord(a + b)
    ensures exists h :: h in Search(m, Index([], [Folder(a + "-" + b)]), a + b) && h.pos == 0
  {
    var w := a + b;
    HyphenTokens(a, b);
    PlainTokenizeOfWord(w);
    assert !IsBlank(w) by { assert !IsSpace(w[0]); }
    OnlyDocumentFound(m, Folder(a + "-" + b), w);
  }

  /** The only document of an index is found by a query whose one token is the document's one token. */
  lemma OnlyDocumentFound(m: MathOps, item: Item, w: string)
    requires Lawful(m) && !IsBlank(w)
    requires PlainTokenize(DocText(item)) == [w] && PlainTokenize(w) == [w]
    ensures exists h :: h in Search(m, Index([], [item]), w) && h.pos == 0
  {
    var ix := Index([], [item]);
    assert Docs(ix) == [item];
    SearchFinds(m, ix, w, 0);
    assert w in PlainTokenize(w) && HasToken(Docs(ix)[0], w);
  }

  /** A query whose only token no document text contains scores nothing, as written. */
  lemma AsWrittenNeverScores(m: MathOps, ix: Index, query: string)
    requires |Docs(ix)| == 1 && |PlainTokenize(query)| == 1
    requires !TextContains(Docs(ix)[0], PlainTokenize(query)[0])
    ensures AsWrittenSearch(m, ix, query) == []
  {
    var tokens := PlainTokenize(query);
    var scores := AsWrittenScores(m, ix, tokens);
    AsWrittenScoreZero(m, ix, tokens);
    RanksNothing(AsWrittenSearch(m, ix, query), Docs(ix), scores, |ix.bookmarks|);
  }

  /** The one document scores 0 as written for the one token it does not contain as a substring. */
  lemma AsWrittenScoreZero(m: MathOps, ix: Index, tokens: seq<string>)
    requires |Docs(ix)| == 1 && |tokens| == 1 && !TextContains(Docs(ix)[0], tokens[0])
    ensures forall i :: 0 <= i < |Docs(ix)| ==> AsWrittenScores(m, ix, tokens)[i] <= 0.0
  {
    var item := Docs(ix)[0];
    var idfs := AsWrittenIdfs(m, ix, tokens);
    assert idfs[0] == 0.0;
    TermsPositive(idfs, ix, item, tokens);
    assert AsWrittenScore(m, ix, item, tokens) == 0.0;
    assert AsWrittenScores(m, ix, tokens)[0] == 0.0;
  }

  /** The concrete case: a folder named `e-mail` and the query `email`. */
  lemma EmailExample(m: MathOps)
    requires Lawful(m)
    ensures AsWrittenSearch(m, Index([], [Folder("e-mail")]), "email") == []
    ensures exists h :: h in Search(m, Index([], [Folder("e-mail")]), "email") && h.pos == 0
  {
    assert "e" + "mail" == "email" && "e" + "-" + "mail" == "e-mail";
    HyphenatedWordIsNeverFound(m, "e", "mail");
  }
}
