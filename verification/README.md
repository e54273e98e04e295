# drop_the_damn_link — a Dafny model of the clustering, search and metadata core

drop_the_damn_link is a browser bookmark manager. You drop a link into it and it organises
the link without asking. This project models the three pieces of pure logic behind that:

- **The online clustering engine of `src/clustering.js`.** `SimpleTfIdf` turns a bookmark's
  weighted text into a sparse TF-IDF vector. `BookmarkClusteringEngine.addBookmark` then does
  one of three things:
  - it opens the first folder (cold start);
  - it joins the leaf folder whose centroid is most similar by cosine, when that similarity
    is at least 0.25;
  - otherwise, it opens a new folder.

  The folder's centroid is then recomputed as the mean of its members' vectors.
- **The two BM25 searches.**
  - `src/indexing.js` has a tokenizer that expands every word into 3-grams, 4-grams and
    prefixes, a fuzzy term frequency (half a match per containing word) and an IDF over
    exact-or-fuzzy containment.
  - The older root `indexing.js` has a plain tokenizer, exact term counts and a raw-substring
    IDF.

  Both build the same weighted document text for bookmarks and folders, and both keep the
  documents with a positive score, bookmarks first, in a stable descending sort.
- **The pure helpers of `metadata-fetcher.js`.** `detectPlatform`, `detectContentType`,
  `extractKeywords` and `extractTitleFromURL` work on the parts of a parsed URL.
  `processKeywords`, `cleanMetadata` and `mergeMetadata` work on the metadata record.

## How the model is built

There is one module per concept:

| module | what it holds |
|---|---|
| `Wrappers` | `Option` |
| `Seqs` | `Count`, `NoDup`, `Dedup`, `Flatten`, sums |
| `Text` | ASCII character classes, `toLowerCase`, regex replacements, splitting, trimming, substring search |
| `RealMath` | `MathOps`, the parameter standing for `Math.log` and `Math.sqrt` |
| `Sparse` | `map<string, real>` vectors, the dot product, cosine, centroid |
| `TfIdf` | `SimpleTfIdf` |
| `Clustering` | the engine |
| `Items` | the bookmark/folder records and `getDocumentText` |
| `Okapi` | the BM25 arithmetic both searches share |
| `Ranking` | the result filter and stable sort both searches share |
| `Bm25` | src/indexing.js |
| `LegacyBm25` | indexing.js |
| `UrlInfo` | the URL helpers |
| `MetaRecord`, `MetaStable` | the metadata record helpers |

Some parts of the source are modelled as follows:

- **Functions and state.**
  - Every operation is a pure function.
  - An engine operation that mutates `this` returns the new engine instead.
  - The similarity search and everything built on it is ghost. This is because the sum
    behind a dot product over a key set is defined by choice.
- **`Math.log` and `Math.sqrt`.**
  - They are a parameter `m: MathOps`.
  - The properties about signs and bounds assume `Lawful(m)`: ln(1) = 0, ln strictly
    increasing on the positives, and sqrt the non-negative square root.
  - Values are `real`, not IEEE doubles.
- **Parsed URLs.**
  - `new URL(url)` is an input. A bookmark carries `host: Option<string>`, which is `None`
    when the parser throws.
  - The URL helpers take the hostname, the pathname and the decoded query pairs.
- **Folder ids and time stamps.**
  - Folder ids (`Date.now()` plus `Math.random()`) are `FolderId(n)` from a counter in the
    engine.
  - The `Date.now()` in the last-resort folder label is the parameter `stamp`.
- **Exceptions.**
  - A `TypeError` that `processKeywords` would throw is `None`. It is thrown when a string
    method is called on an array.
  - `cleanMetadata` and `mergeMetadata` propagate it as `None`.
- **The older `calculateIDF`.** It is modelled twice (see Findings):
  - `LegacyBm25.AsWrittenIdf` / `AsWrittenSearch`, as written;
  - `LegacyBm25.Idf` / `Search`, counting the documents whose tokens contain the token.

## Model

| member | source | states |
|---|---|---|
| TfIdf.Tokenize | src/clustering.js:51-64 | every token is a lower-case run of word characters, longer than two characters and not a stop word |
| TfIdf.TokenizeIgnoresCase | src/clustering.js:60-63 | tokenizing the lower-cased text gives the same tokens: case never matters |
| TfIdf.TokenizeSplits | src/clustering.js:60-63 | any character other than a word character separates tokens: the tokens of `a + c + b` are the tokens of `a` followed by those of `b` |
| TfIdf.TokenizeWord | src/clustering.js:60-63 | a run of word characters is one token, lower-cased, exactly when it is longer than two characters and not a stop word, and no token otherwise |
| TfIdf.TokenizeJoin | src/clustering.js:60-63 | for lower-case words joined by blanks, the tokens are exactly the words that pass the filter, in their order |
| TfIdf.TermFrequency | src/clustering.js:66-72 | the keys are exactly the tokens, and each value is the number of occurrences of that token |
| TfIdf.TermFrequencyAtLeastOne | src/clustering.js:66-72 | every stored frequency is at least 1 |
| TfIdf.AddDocument | src/clustering.js:28-49 | the returned index is the old document count; exactly one document is appended; each distinct term's count grows by exactly 1 and every other count is unchanged; vocabulary and count keys grow by exactly the document's terms |
| TfIdf.AddDocumentKeepsValid | src/clustering.js:28-49 | adding a document keeps the state invariant: each document's index is its position, its frequencies are those of its tokens, `termCounts[t]` is the number of documents containing t, and the vocabulary is the set of all terms |
| TfIdf.DocFreqBounds | src/clustering.js:39-46 | in a valid state every counted term has 1 <= termCounts[t] <= number of documents |
| TfIdf.IdfNonNegative | src/clustering.js:90-92 | with a lawful ln, the IDF ln(N/df) of every counted term is >= 0 |
| TfIdf.Normalize | src/clustering.js:79-87 | the cold-start vector has the same terms as the frequencies; every value is the term's frequency divided by maxTf (value times maxTf is the frequency), lies in (0, 1], and is 1 for a term of maximal frequency |
| TfIdf.Weigh | src/clustering.js:88-97 | the TF-IDF vector holds exactly the terms of the document whose weight tf · ln(N / df) is positive, each with that weight |
| TfIdf.GetVector | src/clustering.js:74-101 | the vector's terms are among the document's terms and all values are positive; with one document every value is at most 1 and is the term's frequency divided by the largest frequency of the document; with more it is tf · ln(N / df) |
| TfIdf.ColdStartVector | src/clustering.js:79-87 | with exactly one document the vector keeps every term of it, each with value tf / maxTf (maxTf the largest frequency), so in (0, 1], and some term has value 1 |
| TfIdf.VectorSupport | src/clustering.js:88-98 | with several documents a term is in the vector exactly when the document has it and not every document does |
| TfIdf.RarerTermWeighsMore | src/clustering.js:88-97 | of two terms of a document with equal frequency, the one found in fewer documents weighs more: when the commoner one is kept, so is the rarer one, with a larger weight |
| TfIdf.WeighSupport | src/clustering.js:90-96 | a term of the document is kept exactly when its document frequency is below the corpus size |
| Sparse.Cosine | src/clustering.js:107-129 | the similarity is 0 when either vector is empty |
| Sparse.CosineSymmetric | src/clustering.js:107-129 | the similarity does not depend on the argument order |
| Sparse.CosineBounds | src/clustering.js:107-129 | with a lawful sqrt the similarity lies in [-1, 1], and in [0, 1] for non-negative vectors |
| Sparse.CosineSelf | src/clustering.js:107-129 | a non-empty positive vector has similarity 1 with itself |
| Sparse.DotSymmetric | src/clustering.js:114-120 | the dot product over shared keys is symmetric |
| Sparse.CauchySchwarz | src/clustering.js:110-127 | over any key set, the squared dot product is at most the product of the squared norms |
| Sparse.Centroid | src/clustering.js:257-276 | the empty list gives the empty map; otherwise the keys are the union of the members' keys, and each value times the member count is the sum of that entry over the members |
| Sparse.CentroidOfOne | src/clustering.js:257-276 | the centroid of one vector is that vector |
| Sparse.CentroidPositive | src/clustering.js:264-273 | the centroid of positive vectors is positive |
| Clustering.LeafFolders | src/clustering.js:281-297 | every collected leaf is a non-root node without children |
| Clustering.FlatLeaves | src/clustering.js:281-297 | for a root whose children are all leaves, the leaves are exactly the root's children, in order |
| Clustering.FindBest | src/clustering.js:309-330 | no leaves gives (null, 0); otherwise the chosen folder has a centroid, a positive similarity that no leaf exceeds, and every earlier leaf is strictly less similar; when nothing is chosen the similarity is 0 and no leaf has a positive one |
| Clustering.ExtendBest | src/clustering.js:319-327 | one step of the strict running maximum turns a best match of the first n leaves into a best match of n + 1 leaves |
| Clustering.FindBestFolder | src/clustering.js:309-330 | the result is a best match among the engine's leaf folders |
| Clustering.CreateNewFolder | src/clustering.js:335-349 | exactly one folder is appended to the root's children, with a fresh id, the generated label, the bookmark as its single member, the vector as its centroid and no children; nothing else changes |
| Clustering.AddToFolder | src/clustering.js:377-391 | only folder k changes; it gains exactly the new member at the end, and its centroid becomes the centroid of all member vectors |
| Clustering.AddToFolderMean | src/clustering.js:382-386 | after the append the folder has one more member; a term is in the centroid exactly when the new vector or an old member has it; each value times the member count is the sum over the members |
| Clustering.CreateKeepsInv | src/clustering.js:335-349 | creating a folder keeps the engine invariant: flat tree, distinct folder ids, every centroid the mean of its members |
| Clustering.AddToKeepsInv | src/clustering.js:377-391 | adding to a folder keeps the engine invariant |
| Clustering.FolderLabel | src/clustering.js:354-372 | with a hostname: the hostname without a leading "www.", first letter upper-cased, plus " Resources"; without one: a prefix of the title that splits at ' ' into exactly the title's first three space-separated fields (the whole title when it has at most three) plus " Collection"; with neither: "Cluster " and the stamp |
| Clustering.ExtractText | src/clustering.js:206-252 | the text is clean: lower-case word characters separated by single blanks, with no leading or trailing blank |
| Clustering.PartWordReachesText | src/clustering.js:244-249 | a word (a non-empty run of `\w` characters) occurring in any collected part occurs, lower-cased, in the cleaned text: joining, blanking non-word characters, collapsing white space, trimming and lower-casing all keep it |
| Clustering.ExtractTextKeepsWords | src/clustering.js:208-249 | every word of the title, the description, the metadata description, any keyword, the site name, any tag and the hostname without "www." occurs, lower-cased, in the extracted text |
| Clustering.TrimmedIsClean | src/clustering.js:245-249 | trimming a text of single-blank separated words leaves it without a leading or trailing blank |
| Clustering.Place | src/clustering.js:417-457 | placing a positive vector keeps the invariant, always yields a result with similarity >= 0, and joins an existing folder only at similarity >= 0.25 |
| Clustering.PlaceColdStart | src/clustering.js:423-426 | with no folders the bookmark opens the only folder, reported as new with similarity 0 |
| Clustering.PlaceThreshold | src/clustering.js:427-447 | with folders, the reported similarity is the best one; the bookmark joins the best folder exactly when one was found with similarity >= 0.25, and otherwise a new folder is appended |
| Clustering.PlaceCounts | src/clustering.js:423-447 | placing adds exactly one URL overall, and one folder exactly when the result is a new folder |
| Clustering.PlaceSimilarityInUnitRange | src/clustering.js:429-431 | with lawful ln and sqrt the reported similarity is in [0, 1] |
| Clustering.AfterIndexingKeepsInv | src/clustering.js:409 | adding the bookmark's document to the TF-IDF state keeps the engine invariant |
| Clustering.AddBookmark | src/clustering.js:396-463 | keeps the invariant; returns null exactly when the extracted text is empty or the vector is empty; on null the folders are untouched; a non-empty text is always added to the TF-IDF state; otherwise the result is the placement of the bookmark's vector |
| Clustering.AddBookmarkCounts | src/clustering.js:396-463 | each successful call adds exactly one URL, adds a folder only when it reports a new folder, and never removes one |
| Clustering.SimilarityInUnitRange | src/clustering.js:452-457 | with lawful ln and sqrt the reported similarity is in [0, 1] |
| Clustering.GetStats | src/clustering.js:475-485 | the threshold is 0.25 and the vocabulary size is that of the TF-IDF state; for a flat tree, totalFolders is the number of leaf folders and totalUrls the sum of their URL counts |
| Clustering.Reset | src/clustering.js:490-501 | the reset engine satisfies the invariant and keeps the id counter |
| Clustering.ResetEmpties | src/clustering.js:475-501 | after reset there are no folders, no URLs and no vocabulary |
| Items.DocText | src/indexing.js:152-213 | a folder's text is its name; a bookmark's text is the built text with surrounding white space trimmed |
| Items.TitleThreeTimesInText | src/indexing.js:159-161 | a bookmark with a title (solid at both ends) has a text that begins with the title three times |
| Items.MetaTitleWhenDifferent | src/indexing.js:164-166 | a metadata title that differs from the title is added twice, right after the title segment |
| Items.MetaTitleOnlyWhenDifferent | src/indexing.js:164-166 | a metadata title equal to the title contributes nothing: the text is the same as without it |
| Items.UnparseableUrlOmitsHost | src/indexing.js:202-207 | the hostname segment (first "www." removed) is the only difference between a parseable and an unparseable URL |
| Bm25.FuzzyTokenize | src/indexing.js:19-53 | the tokens have no duplicates, and every token is a lower-case word of at least three characters |
| Bm25.BaseTokensSplit | src/indexing.js:19-24 | any character other than a word character separates the words kept before expansion: those of `a + c + b` are those of `a` followed by those of `b` |
| Bm25.BaseTokensOfWord | src/indexing.js:19-24 | a run of word characters is kept before expansion, lower-cased, exactly when it is longer than two characters |
| Bm25.BaseTokensJoin | src/indexing.js:19-24 | for lower-case words joined by blanks, the words kept before expansion are exactly those longer than two characters, in their order |
| Bm25.FuzzyTokenizeMembers | src/indexing.js:26-52 | a token is in the output exactly when it is a base token or an expansion of one |
| Bm25.ExpansionsCharacterized | src/indexing.js:29-50 | the expansions of a word are exactly its 3-character substrings (length >= 4), its 4-character substrings (length >= 5) and its prefixes of length 4 and more (length >= 4) |
| Bm25.FuzzyTokensFromWords | src/indexing.js:29-50 | every output token is a substring of some base token |
| Bm25.FuzzyTokenizeIgnoresCase | src/indexing.js:19-24 | tokenizing the lower-cased text gives the same tokens |
| Bm25.FuzzyScan | src/indexing.js:115-131 | the fuzzy count is the number of words containing the token (0 exactly when none does, weight then 1.0); otherwise the weight is the prefix/suffix/interior weight of the last containing word |
| Bm25.AnyContains | src/indexing.js:261-263 | true exactly when some word contains the token |
| Bm25.MatchToken | src/indexing.js:101-136 | tf > 0 exactly when the token is a document token or (three characters or more) a substring of a word; an exact match gives the exact count with weight 1.0; otherwise, for three characters or more, tf is half the fuzzy count and the weight is the fuzzy scan's (that of the last containing word, or 1.0); a shorter token gives tf 0 and weight 1.0 |
| Bm25.ExactMatchCountsOnce | src/indexing.js:26-27 | since the tokenizer removes duplicates, an exact match always has tf 1 and weight 1.0 |
| Bm25.ContainsToken | src/indexing.js:251-267 | a document contains a token exactly when the token is one of the tokens of its original (not lower-cased) text, or has three characters or more and occurs in a word of the lower-cased text; a token shorter than three characters is never contained |
| Bm25.ContainsIffPositiveTf | src/indexing.js:251-267 | `documentContainsToken` holds exactly when `calculateScore` gives the token a positive tf in that document, although it tokenizes the lower-cased text and `calculateScore` the original |
| Bm25.DocCount | src/indexing.js:225-240 | the count is at most the number of documents, and 0 exactly when no document contains the token |
| Bm25.Idf | src/indexing.js:242-245 | the IDF is 0 when no document contains the token |
| Bm25.IdfPositive | src/indexing.js:225-246 | with a lawful ln, the IDF is positive exactly when some document contains the token |
| Bm25.AvgDocLength | src/indexing.js:215-223 | the mean fuzzy token count: it is >= 0, times the number of documents it is the total token count, and it is 0 for an empty index |
| Bm25.TermScoreBounds | src/indexing.js:138-146 | a term's contribution is >= 0; it is positive exactly when tf > 0 and idf > 0; and it is below idf * (k1 + 1) |
| Bm25.TermScores | src/indexing.js:101-147 | there is one contribution per query token, in query order |
| Bm25.TermSigns | src/indexing.js:101-147 | whatever the logarithm, every term is >= 0, and positive exactly when the document contains the token and the token's IDF is positive |
| Bm25.Score | src/indexing.js:91-150 | whatever the logarithm, the score is >= 0, and positive exactly when the document contains a query token whose IDF is positive |
| Bm25.ContainedHasPositiveIdf | src/indexing.js:225-246 | with a lawful ln, a token that a document of the index contains has a positive IDF |
| Bm25.ScorePositive | src/indexing.js:91-150 | with a lawful ln a score is >= 0, and positive exactly when the document contains some query token |
| Bm25.Scores | src/indexing.js:62-83 | one score per document, bookmarks then folders |
| Bm25.Search | src/indexing.js:55-89 | a blank query gives []; otherwise exactly the documents with a positive score, with their item, score and kind (bookmark exactly for the first positions), ranked by descending score with ties in scan order |
| Bm25.SearchFinds | src/indexing.js:55-89 | with a lawful ln, a document is in the results exactly when the query is not blank and the document contains one of its tokens |
| Okapi.MeanLength | src/indexing.js:215-223 | the mean is >= 0, is 0 for no documents, and otherwise times the count is the total |
| Okapi.MeanLengthZero | indexing.js:147-155 | the mean is 0 exactly when no document has a token |
| Okapi.Norm | src/indexing.js:143 | the length normalisation is at least k1 * (1 - b) > 0 |
| Okapi.SaturationBounds | src/indexing.js:142-144 | the saturation factor is in [0, k1 + 1), and positive exactly when tf > 0 |
| Okapi.SaturationIncreasing | src/indexing.js:142-143 | the saturation factor is strictly increasing in tf |
| Okapi.IdfOfPositive | src/indexing.js:242-245 | with a lawful ln, the IDF formula for n of total documents is positive exactly when n > 0 |
| Ranking.Collect | src/indexing.js:62-83 | the collected hits are in scan order, each one with its document's item and positive score and the right kind, and a document is collected exactly when its score is positive |
| Ranking.Insert | src/indexing.js:86 | inserting adds exactly the new hit: the multiset grows by it |
| Ranking.InsertRanked | src/indexing.js:86 | inserting a hit later in scan order into a ranked list keeps it ranked |
| Ranking.SortHits | src/indexing.js:86 | the sort is a permutation |
| Ranking.SortRanks | src/indexing.js:86 | sorting hits in scan order gives descending scores with ties in scan order (a stable sort), and is a permutation |
| Ranking.Rank | src/indexing.js:62-88 | the result holds exactly the documents with a positive score, each with its item, score and kind (bookmark exactly for the first positions), ranked by descending score with ties in scan order |
| Ranking.RankPermutes | src/indexing.js:86 | the ranking is a permutation of the collected hits |
| Ranking.RanksNothing | src/indexing.js:62-88 | when no score is positive the ranking is empty |
| LegacyBm25.PlainTokenize | indexing.js:19-25 | every token is a lower-case word longer than two characters |
| LegacyBm25.PlainTokenizeIgnoresCase | indexing.js:19-25 | tokenizing the lower-cased text gives the same tokens |
| LegacyBm25.PlainTokenizeSplit | indexing.js:19-25 | white space separates tokens: the tokens of `a + c + b` are the tokens of `a` followed by those of `b` |
| LegacyBm25.PlainTokenizeDeletes | indexing.js:19-25 | a character that is neither a word character nor white space is deleted, so `a + c + b` has the tokens of `a + b` |
| LegacyBm25.PlainTokenizeJoin | indexing.js:19-25 | for lower-case words joined by blanks, the tokens are exactly the words longer than two characters, in their order |
| LegacyBm25.AvgDocLength | indexing.js:147-155 | the mean token count is >= 0, and 0 exactly when no document has a token (an empty corpus included) |
| LegacyBm25.AsWrittenIdf | indexing.js:157-176 | as written: the IDF is 0 when no lower-cased document text contains the token as a substring |
| LegacyBm25.DocCount | indexing.js:160-170 | corrected count: at most the number of documents, and 0 exactly when no document has the token among its tokens |
| LegacyBm25.Idf | indexing.js:172-175 | corrected IDF: 0 when no document has the token |
| LegacyBm25.IdfPositive | indexing.js:157-176 | with a lawful ln the corrected IDF is positive exactly when some document has the token |
| LegacyBm25.TermSign | indexing.js:70-79 | a contribution is >= 0; it is positive exactly when tf > 0 and idf > 0; and it is exactly 0 for tf = 0 |
| LegacyBm25.TermsPositive | indexing.js:70-81 | the sum of the contributions is >= 0, and positive exactly when some token is in the document with a positive IDF |
| LegacyBm25.AsWrittenScore | indexing.js:63-82 | as written, the score is >= 0, and positive exactly when the document has a query token whose raw-substring IDF is positive |
| LegacyBm25.Score | indexing.js:63-82 | with the corrected IDF, the score is >= 0, and positive exactly when the document has a query token whose IDF is positive |
| LegacyBm25.ScorePositive | indexing.js:63-82 | with a lawful ln and the corrected IDF, a score is >= 0, and positive exactly when the document has a query token |
| LegacyBm25.AsWrittenSearch | indexing.js:27-61 | as written: a blank query gives []; otherwise exactly the documents with a positive as-written score, ranked by descending score with ties in scan order |
| LegacyBm25.Search | indexing.js:27-61 | the same ranking over the scores with the corrected IDF |
| LegacyBm25.SearchFinds | indexing.js:27-61 | with a lawful ln and the corrected IDF, a document is found exactly when the query is not blank and shares a token with the document |
| LegacyBm25.AsWrittenNeverScores | indexing.js:157-176 | a one-document corpus whose text does not contain the query's only token as a substring yields no results as written |
| LegacyBm25.HyphenatedWordIsNeverFound | indexing.js:157-176 | for every hyphenated folder name a-b, the query "ab" finds nothing as written, though the folder's only token is "ab"; with the corrected IDF the folder is found |
| LegacyBm25.EmailExample | indexing.js:157-176 | the folder "e-mail" is not found by the query "email" as written, and is found with the corrected IDF |
| UrlInfo.DetectPlatform | metadata-fetcher.js:175-196 | null exactly when no table domain is a substring of the hostname; otherwise the name of the first entry, in table order, whose domain is a substring |
| UrlInfo.DetectPlatformByDomain | metadata-fetcher.js:175-196 | corrected: null exactly when the hostname is no table domain or subdomain of one; otherwise the name of the first entry that matches at a label boundary |
| UrlInfo.ByDomainRecognisedAsWritten | metadata-fetcher.js:175-196 | every hostname the corrected lookup recognises, the lookup as written recognises too |
| UrlInfo.DropboxIsX | metadata-fetcher.js:175-196 | as written, "dropbox.com" is reported as the platform "X" |
| UrlInfo.DropboxIsNotXByDomain | metadata-fetcher.js:175-196 | the corrected lookup does not report "dropbox.com" as "X" |
| UrlInfo.DetectContentType | metadata-fetcher.js:139-170 | the result's rule holds of the lower-cased hostname and path, and no rule of higher precedence (video > repository > article > documentation > product > website) does |
| UrlInfo.ContentTypeIgnoresCase | metadata-fetcher.js:140-141 | the content type does not depend on the case of the hostname or path |
| UrlInfo.ContentTypeIsFirstRule | metadata-fetcher.js:143-169 | the result is k exactly when k's rule holds and no rule of higher precedence does |
| UrlInfo.ExtractKeywords | metadata-fetcher.js:201-223 | no duplicates; every keyword is longer than two characters; a string is a keyword exactly when it is long and is a host label other than "www"/"com", a long path segment with dashes and underscores as spaces, or a key or value of a query pair whose key is not utm_source or utm_medium; keywords come in the order of their first occurrence among host labels, path segments and query pairs |
| Seqs.DedupInFirstOrder | metadata-fetcher.js:222 | `[...new Set(s)]` lists its elements in the order of their first occurrences in `s` |
| Seqs.FilterInFirstOrder | metadata-fetcher.js:222 | a `filter` after it keeps that order |
| UrlInfo.UtmIgnored | metadata-fetcher.js:216-220 | adding a utm_source or utm_medium pair changes no keyword |
| UrlInfo.WwwAndComFromHostSkipped | metadata-fetcher.js:205 | "www" and "com" are never keywords taken from the hostname |
| UrlInfo.CapitalizeWords | metadata-fetcher.js:131 | same length; only word-initial characters change, and only in case; no word begins with a lower-case letter afterwards |
| UrlInfo.CapitalizeWordsIdempotent | metadata-fetcher.js:131 | capitalizing twice is the same as capitalizing once |
| UrlInfo.TidyIsClean | metadata-fetcher.js:123-131 | the tidied segment has no "-" or "_" and no word of it begins with a lower-case letter |
| UrlInfo.RemoveExtension | metadata-fetcher.js:126 | the result is a prefix of the input; with a last dot followed by dot-free text, everything from that dot is dropped; without a dot, or with a dot at the end, nothing changes |
| UrlInfo.RemoveExtensionExample | metadata-fetcher.js:126 | "intro.pdf" becomes "intro" |
| UrlInfo.LastMeaningful | metadata-fetcher.js:117-121 | none exactly when no segment is meaningful (non-empty, not all digits, not a page file); otherwise a meaningful segment after which no segment is meaningful: the last one |
| UrlInfo.ExtractTitle | metadata-fetcher.js:106-134 | for github.com with two or more segments, "a/b - GitHub"; otherwise the tidied last meaningful segment (or the hostname when there is none), falling back to the hostname when it tidies to ""; never empty for a non-empty hostname |
| UrlInfo.TitleFromSegmentIsClean | metadata-fetcher.js:117-131 | a title taken from a path segment has no dashes or underscores and capitalized words |
| UrlInfo.DatePrefixNeverApplies | metadata-fetcher.js:127 | a single segment or hostname has no "/", so the date-prefix removal never changes the title |
| MetaRecord.FirstTruthy | metadata-fetcher.js:641-647 | the first truthy candidate, or the fallback when none is truthy |
| MetaRecord.FirstTruthyPreferred | metadata-fetcher.js:641-647 | the choice is a truthy candidate preceded only by falsy ones, or the fallback when all are falsy |
| MetaRecord.NormalEntries | metadata-fetcher.js:670-674 | the entries are exactly the trimmed, lower-cased comma-separated fields that are not blank |
| MetaRecord.ProcessKeywords | metadata-fetcher.js:660-709 | throws (None) exactly when a single-valued key holds an array; otherwise no duplicates, every keyword lower-case and longer than two characters, and a string is a keyword exactly when it is long and comes from the keywords, tags or article tags (trimmed, lower-cased) or from articleSection, platform, type or ogSiteName (lower-cased); keywords come in the order in which they were first added to the set |
| MetaRecord.ListKeywordIsNormal | metadata-fetcher.js:664-694 | a keyword taken from keywords, tags or article tags is trimmed and lower-case |
| MetaRecord.SiteNameNotTrimmed | metadata-fetcher.js:705-706 | the site name is only lower-cased: padded with blanks, it is kept with its blanks |
| MetaRecord.Cleaned | metadata-fetcher.js:631-655 | every other key is copied; keywords are the processed keywords; tags default to []; title, description and image are the first truthy candidates with their fallbacks |
| MetaRecord.CleanMetadata | metadata-fetcher.js:631-655 | fails exactly when processKeywords throws; otherwise keeps every other key and sets keywords and tags as above |
| MetaRecord.CleanFallbacks | metadata-fetcher.js:640-647 | the cleaned title, description and image are each the first truthy candidate, else the domain, null and null |
| MetaRecord.Merge | metadata-fetcher.js:609-622 | the merged record has exactly the keys of both records |
| MetaRecord.MergeMetadata | metadata-fetcher.js:609-626 | fails exactly when cleaning the merge fails; otherwise a null or missing rich value keeps the basic value and any other rich value wins (keys that cleaning computes aside) |
| MetaRecord.MergeKeyRule | metadata-fetcher.js:613-621 | per key: a nullish rich value keeps the basic one; a non-nullish one replaces it unless both hold tags |
| MetaRecord.MergeTagsUnion | metadata-fetcher.js:615-617 | merged tags are duplicate-free, hold exactly the entries of both, and begin with the basic tags in order |
| MetaRecord.DedupPrefix | metadata-fetcher.js:617 | removing duplicates from a + b begins with a's distinct entries in order |
| MetaStable.CleanAgainSucceeds | metadata-fetcher.js:631-655 | a cleaned record can be cleaned again without throwing |
| MetaStable.CleanFieldsStable | metadata-fetcher.js:640-650 | cleaning a cleaned record again leaves its title, description, image and tags unchanged |

## Left out

- Everything outside these files is not part of this model: DOM rendering, event handling, the onboarding tour, storage adapters and the build configuration.
- `initialize` and `persistState` are not modelled, because they are IndexedDB I/O. The engine is always initialized, and `getClusterTree` just returns the root.
- `getLeafCount` and `testColdStart` are not modelled: one is a length, the other is a console self-check.
- Console logging is not modelled. That includes the `MAX_FOLDER_SIZE` check, which only logs.
- `generateUUID` is not modelled. Folder ids come from a counter, so they are distinct by construction.
- The catch-all `try/catch` of `addBookmark` is not modelled. No modelled step throws there, so the model has no exception path.
- Network fetching, HTML scraping, JSON-LD, favicons and markdown generation are not modelled, because they are network and DOM code.
- `new URL(...)` and percent-decoding are not modelled. The parse result is an input.
- Only ASCII case is modelled: `toLowerCase` maps only A-Z, and `\w` is `[A-Za-z0-9_]`. `\s` and `trim` use the full JavaScript white-space set: the ASCII white space, U+00A0, U+1680, U+2000-U+200A, U+2028, U+2029, U+202F, U+205F, U+3000 and U+FEFF.
- String length counts code points, while JavaScript's `length` counts UTF-16 code units. A character outside the Basic Multilingual Plane counts 2 there and 1 here. So the `length > 2` filters of `extractKeywords` (metadata-fetcher.js:210, 222) and `processKeywords` (metadata-fetcher.js:708) can differ: "😀😀" is kept by the source and dropped by the model. The tokenizers are not affected, because their tokens hold only `\w` characters.
- Floating point is not modelled. Scores, vectors and centroids are exact reals, and `Math.log`/`Math.sqrt` are lawful parameters. Bit-exact agreement with JavaScript doubles is not claimed.
- `Okapi.LengthRatio`: when every document has no tokens, the source divides 0 by an average of 0 and gets NaN. The model uses 0 there. Such a document has no exact or fuzzy match, so its score is 0 or NaN, and either way it is left out of the results.
- `Text.Words` drops the empty fields that `split(/\s+/)` yields at the ends of a string. Those fields are shorter than three characters and are filtered out, or contain no token, wherever the core uses them.
- `async`/`await` is not modelled: every engine operation is synchronous.
- `MetaRecord.ProcessKeywords` array elements are strings. `toString()` of numbers or objects in keyword arrays is not modelled.
- `MetaRecord.Spread` models only arrays and strings. A string tag value spreads into its characters, as `[...string]` does. Other spreads are empty.
- `MetaRecord.CleanMetadata` does not model the reassignment of `url`, `domain` and `fetchedAt`. Those lines copy the same values, except that a missing key becomes an explicit `undefined`, which reads the same.
- `Clustering.GetStats` states the folder and URL totals only for a flat tree. That is the only shape the engine builds, and its invariant guarantees it.
- `Sparse.Cosine`: a missing (`null`) vector is not modelled separately from an empty one. The engine never passes one, because folders without a centroid are skipped.

## Findings

| source | as written | input that shows it | evidently intended | confidence | as-written member | corrected member |
|---|---|---|---|---|---|---|
| indexing.js:157-176 | `calculateIDF` counts documents whose lower-cased text contains the query token as a raw substring. But `tokenize` deletes non-word characters, so a token can join characters the text keeps apart. | A folder named "e-mail" and the query "email". The query token "email" is the folder's only token, but "e-mail" does not contain "email". The IDF is 0, so the score is 0 and `search` returns []. The same holds for every hyphenated name a-b and the query "ab". | A document that shares a token with the query is counted, and so is found. src/indexing.js does this with `documentContainsToken`. | medium, not executed | LegacyBm25.HyphenatedWordIsNeverFound | LegacyBm25.SearchFinds |
| metadata-fetcher.js:175-196 | `detectPlatform` matches a table domain anywhere in the hostname, in table order. | The hostname "dropbox.com" contains "x.com", so it is reported as the platform "X". | A domain matches only the whole hostname or a subdomain of it. | high, not executed | UrlInfo.DropboxIsX | UrlInfo.DropboxIsNotXByDomain |
