/**
  * The metadata record the fetcher builds and the pure helpers that combine and clean it:
  * `mergeMetadata`, `cleanMetadata` and `processKeywords`.
  *
  * A record is a map from property names to values. The properties these helpers read by
  * name are constructors of `Key`; `Other` names any other property, and is never given
  * the name of one of those constructors (a JavaScript object cannot hold `title` twice, so a
  * record with both `Title` and `Other("title")` stands for no object). A value is a string, an
  * array of strings, `null`, or absent (`undefined`); a key whose value is `undefined` and a
  * missing key read alike.
  * A method call on a value of the wrong type throws a `TypeError`; the functions that can
  * throw one return `None` there.
  */
module MetaRecord {
  import opened Wrappers
  import opened Seqs
  import opened Text

  datatype Field = Missing | Null | Str(text: string) | Strs(items: seq<string>)

  datatype Key =
    | Title | OgTitle | TwitterTitle | Domain
    | Description | OgDescription | TwitterDescription
    | Image | OgImage | TwitterImage
    | Tags | Keywords | ArticleTag | ArticleSection | Platform | Type | OgSiteName
    | Other(name: string)

  type Metadata = map<Key, Field>

  /** `md[key]`, `undefined` when the key is absent. */
  function Get(md: Metadata, key: Key): Field
  {
    if key in md then md[key] else Missing
  }

  /** JavaScript truthiness: a non-empty string or any array. */
  predicate Truthy(f: Field)
  {
    match f
    case Str(t) => t != ""
    case Strs(_) => true
    case _ => false
  }

  /** `null` or `undefined`. */
  predicate Nullish(f: Field)
  {
    f == Missing || f == Null
  }

  /** `fs[0] || fs[1] || … || last`: the first truthy operand, else the last one. */
  function FirstTruthy(fs: seq<Field>, last: Field): (r: Field)
    ensures (forall i :: 0 <= i < |fs| ==> !Truthy(fs[i])) ==> r == last
    ensures forall i :: 0 <= i < |fs| && Truthy(fs[i]) && (forall j :: 0 <= j < i ==> !Truthy(fs[j])) ==> r == fs[i]
  {
    if |fs| == 0 then last
    else if Truthy(fs[0]) then fs[0]
    else
      var r := FirstTruthy(fs[1..], last);
      assert forall i :: 1 <= i < |fs| ==> fs[1..][i - 1] == fs[i];
      r
  }

  // ---------------------------------------------------------------- processKeywords

  /** `k.toString().trim().toLowerCase()`. */
  function Normal(k: string): string
  {
    ToLower(Trim(k))
  }

  /** Every non-empty element of an array, trimmed and lower-cased. */
  function NormalItems(xs: seq<string>): (ks: seq<string>)
    ensures forall k :: k in ks <==> exists x :: x in xs && x != "" && k == Normal(x)
  {
    if |xs| == 0 then []
    else
      var n := |xs| - 1;
      var front := NormalItems(xs[..n]);
      assert forall x :: x in xs <==> x in xs[..n] || x == xs[n] by {
        assert xs == xs[..n] + [xs[n]];
      }
      if xs[n] != "" then front + [Normal(xs[n])] else front
  }

  predicate NotBlank(e: string)
  {
    Trim(e) != ""
  }

  /** The comma-separated entries of a string that are not blank, trimmed and lower-cased. */
  function NormalEntries(t: string): (ks: seq<string>)
    ensures forall k :: k in ks <==> exists e :: e in Split(t, ',') && NotBlank(e) && k == Normal(e)
  {
    var kept := Filter(NotBlank, Split(t, ','));
    NotBlankNonEmpty(kept);
    NormalItems(kept)
  }

  lemma NotBlankNonEmpty(kept: seq<string>)
    requires forall e :: e in kept ==> NotBlank(e)
    ensures forall e :: e in kept ==> e != ""
  {
    assert Trim("") == "";
  }

  /** The `keywords` source: an array of entries, or a comma-separated string. */
  function FromKeywords(f: Field): seq<string>
  {
    match f
    case Strs(xs) => NormalItems(xs)
    case Str(t) => NormalEntries(t)
    case _ => []
  }

  /** The `tags` source: only an array counts. */
  function FromTags(f: Field): seq<string>
  {
    match f
    case Strs(xs) => NormalItems(xs)
    case _ => []
  }

  /** The `articleTag` source: an array of entries, or one string. */
  function FromArticleTag(f: Field): seq<string>
  {
    match f
    case Strs(xs) => NormalItems(xs)
    case Str(t) => if t != "" then [Normal(t)] else []
    case _ => []
  }

  /** A source added with `.toLowerCase()` alone: an array has no such method and throws. */
  function FromSingle(f: Field): Option<seq<string>>
  {
    match f
    case Strs(_) => None
    case Str(t) => Some(if t != "" then [ToLower(t)] else [])
    case _ => Some([])
  }

  /** The keys `processKeywords` lower-cases without trimming, in the order it reads them. */
  const SingleKeys: seq<Key> := [ArticleSection, Platform, Type, OgSiteName]

  /** `k` is the lower-cased, non-empty string value of `key`. */
  predicate SingleValue(md: Metadata, key: Key, k: string)
  {
    var f := Get(md, key);
    f.Str? && f.text != "" && k == ToLower(f.text)
  }

  /** One of the single-string keys holds an array, so its `.toLowerCase()` call throws. */
  predicate ArrayInSingle(md: Metadata)
  {
    exists i :: 0 <= i < |SingleKeys| && Get(md, SingleKeys[i]).Strs?
  }

  /** Whether a call throws depends on the copied keys only. */
  lemma ArrayInSingleCopied(md: Metadata, md2: Metadata)
    requires forall k :: !Computed(k) ==> Get(md2, k) == Get(md, k)
    ensures ArrayInSingle(md2) <==> ArrayInSingle(md)
  {
    assert forall i :: 0 <= i < |SingleKeys| ==> !Computed(SingleKeys[i]);
  }

  /** The candidates of the single-string keys, or `None` when one holds an array. */
  function Singles(md: Metadata, keys: seq<Key>): (r: Option<seq<string>>)
    ensures r.None? <==> exists i :: 0 <= i < |keys| && Get(md, keys[i]).Strs?
    ensures r.Some? ==> forall k :: k in r.value <==> exists i :: 0 <= i < |keys| && SingleValue(md, keys[i], k)
  {
    if |keys| == 0 then Some([])
    else
      var rest := Singles(md, keys[1..]);
      assert forall i :: 1 <= i < |keys| ==> keys[1..][i - 1] == keys[i];
      match FromSingle(Get(md, keys[0]))
      case None => None
      case Some(first) =>
        match rest
        case None => None
        case Some(more) => Some(first + more)
  }

  /** The candidates of the list sources, in insertion order. */
  function Lists(md: Metadata): seq<string>
  {
    FromKeywords(Get(md, Keywords)) + FromTags(Get(md, Tags)) + FromArticleTag(Get(md, ArticleTag))
  }

  /** The keyword candidates in insertion order, or `None` when a `.toLowerCase()` call throws. */
  function Candidates(md: Metadata): Option<seq<string>>
  {
    match Singles(md, SingleKeys)
    case None => None
    case Some(ss) => Some(Lists(md) + ss)
  }

  /** `k` is one of the normalised list entries: trimmed and lower-cased. */
  predicate ListKeyword(md: Metadata, k: string)
  {
    k in Lists(md)
  }

  /** `k` is the lower-cased value of one of the single-string keys. */
  predicate SingleKeyword(md: Metadata, k: string)
  {
    exists i :: 0 <= i < |SingleKeys| && SingleValue(md, SingleKeys[i], k)
  }

  /** A string with no white space at either end is its own trim. */
  lemma SolidIsTrimmed(s: string)
    requires |s| == 0 || (!IsSpace(s[0]) && !IsSpace(s[|s| - 1]))
    ensures Trim(s) == s
  {
  }

  /** A trimmed, lower-cased entry stays the same under both operations. */
  lemma NormalIsTrimmedLower(x: string)
    ensures Trim(Normal(x)) == Normal(x) && IsLowerCase(Normal(x))
  {
    var t := Trim(x);
    ToLowerIdempotent(t);
    SolidIsTrimmed(ToLower(t));
  }

  /**
    * `processKeywords`: the candidates from `keywords`, `tags`, `articleTag`, `articleSection`,
    * `platform`, `type` and `ogSiteName`, each kept once in first-insertion order, longer than
    * two characters; `None` when one of the last four holds an array.
    */
  function ProcessKeywords(md: Metadata): (r: Option<seq<string>>)
    ensures r.None? <==> ArrayInSingle(md)
    ensures r.Some? ==> NoDup(r.value)
    ensures r.Some? ==> forall k :: k in r.value <==> Long(k) && (ListKeyword(md, k) || SingleKeyword(md, k))
    ensures r.Some? ==> forall k :: k in r.value ==> |k| > 2 && IsLowerCase(k)
    ensures r.Some? ==> InFirstOrder(r.value, Candidates(md).value)
  {
    match Candidates(md)
    case None => None
    case Some(all) =>
      var unique := Dedup(all);
      FilterKeepsNoDup(Long, unique);
      DedupInFirstOrder(all);
      FilterInFirstOrder(Long, unique, all);
      var ks := Filter(Long, unique);
      CandidateMembers(md);
      forall k | k in ks
        ensures IsLowerCase(k)
      {
        CandidatesAreLower(md, k);
      }
      Some(ks)
  }

  lemma CandidateMembers(md: Metadata)
    requires Candidates(md).Some?
    ensures forall k :: k in Candidates(md).value <==> ListKeyword(md, k) || SingleKeyword(md, k)
  {
  }

  lemma CandidatesAreLower(md: Metadata, k: string)
    requires Candidates(md).Some? && k in Candidates(md).value
    ensures IsLowerCase(k)
  {
    CandidateMembers(md);
    if SingleKeyword(md, k) {
      var i :| 0 <= i < |SingleKeys| && SingleValue(md, SingleKeys[i], k);
      ToLowerIdempotent(Get(md, SingleKeys[i]).text);
    } else {
      ListKeywordIsNormal(md, k);
    }
  }

  /** The list sources contribute trimmed, lower-cased entries. */
  lemma ListKeywordIsNormal(md: Metadata, k: string)
    requires ListKeyword(md, k)
    ensures exists x :: k == Normal(x)
    ensures Trim(k) == k && IsLowerCase(k)
  {
    var x: string;
    var kw, tags, at := Get(md, Keywords), Get(md, Tags), Get(md, ArticleTag);
    if k in FromKeywords(kw) {
      if kw.Strs? {
        x :| x in kw.items && x != "" && k == Normal(x);
      } else {
        x :| x in Split(kw.text, ',') && NotBlank(x) && k == Normal(x);
      }
    } else if k in FromTags(tags) {
      x :| x in tags.items && x != "" && k == Normal(x);
    } else if at.Strs? {
      x :| x in at.items && x != "" && k == Normal(x);
    } else {
      x := at.text;
    }
    NormalIsTrimmedLower(x);
  }

  /**
    * A record whose only keyword source is `ogSiteName` yields that value lower-cased but not
    * trimmed: the single-string keys are not trimmed, unlike the list sources.
    */
  lemma SiteNameNotTrimmed(site: string)
    requires |site| > 2
    ensures ProcessKeywords(map[OgSiteName := Str(site)]) == Some([ToLower(site)])
  {
    SiteNameCandidates(site);
    assert Dedup([ToLower(site)]) == [ToLower(site)] by {
      assert [ToLower(site)][..0] == [];
    }
    assert Filter(Long, [ToLower(site)]) == [ToLower(site)] by {
      assert [ToLower(site)][..0] == [];
    }
  }

  lemma SiteNameCandidates(site: string)
    requires site != ""
    ensures Candidates(map[OgSiteName := Str(site)]) == Some([ToLower(site)])
  {
    var md := map[OgSiteName := Str(site)];
    assert Lists(md) == [];
    SiteNameSingles(site);
    assert [] + [ToLower(site)] == [ToLower(site)];
  }

  lemma SiteNameSingles(site: string)
    requires site != ""
    ensures Singles(map[OgSiteName := Str(site)], SingleKeys) == Some([ToLower(site)])
  {
    var md := map[OgSiteName := Str(site)];
    var one := [ToLower(site)];
    assert Singles(md, [OgSiteName]) == Some(one) by {
      assert [OgSiteName][1..] == [];
      assert Singles(md, []) == Some([]);
      assert FromSingle(Get(md, OgSiteName)) == Some(one);
      assert one + [] == one;
    }
    assert Singles(md, [Type, OgSiteName]) == Some(one) by {
      assert [Type, OgSiteName][1..] == [OgSiteName];
      assert FromSingle(Get(md, Type)) == Some([]);
      assert [] + one == one;
    }
    assert Singles(md, [Platform, Type, OgSiteName]) == Some(one) by {
      assert [Platform, Type, OgSiteName][1..] == [Type, OgSiteName];
    }
    assert Singles(md, SingleKeys) == Some(one) by {
      assert SingleKeys[1..] == [Platform, Type, OgSiteName];
    }
  }

  // ---------------------------------------------------------------- cleanMetadata

  /** The keys `cleanMetadata` computes; every other key is copied. */
  predicate Computed(key: Key)
  {
    key.Title? || key.Description? || key.Image? || key.Tags? || key.Keywords?
  }

  /** The record with its computed keys set, given the processed keywords. */
  function Cleaned(md: Metadata, ks: seq<string>): (c: Metadata)
    ensures forall k :: !Computed(k) ==> Get(c, k) == Get(md, k)
    ensures Get(c, Keywords) == Strs(ks)
    ensures Get(c, Tags) == (if Truthy(Get(md, Tags)) then Get(md, Tags) else Strs([]))
    ensures Get(c, Title) == FirstTruthy([Get(md, OgTitle), Get(md, TwitterTitle), Get(md, Title)], Get(md, Domain))
    ensures Get(c, Description) == FirstTruthy([Get(md, OgDescription), Get(md, TwitterDescription), Get(md, Description)], Null)
    ensures Get(c, Image) == FirstTruthy([Get(md, OgImage), Get(md, TwitterImage), Get(md, Image)], Null)
  {
    CleanedCopies(md, ks);
    CleanedPrefers(md, ks);
    CleanedMap(md, ks)
  }

  /** The cleaned record copies every other key, and holds the keywords and the defaulted tags. */
  lemma CleanedCopies(md: Metadata, ks: seq<string>)
    ensures forall k :: !Computed(k) ==> Get(CleanedMap(md, ks), k) == Get(md, k)
    ensures Get(CleanedMap(md, ks), Keywords) == Strs(ks)
    ensures Get(CleanedMap(md, ks), Tags) == (if Truthy(Get(md, Tags)) then Get(md, Tags) else Strs([]))
  {
    assert Get(CleanedMap(md, ks), Tags) == CleanedValue(md, ks, Tags);
  }

  /** The cleaned record holds the preferred title, description and image. */
  lemma CleanedPrefers(md: Metadata, ks: seq<string>)
    ensures Get(CleanedMap(md, ks), Title) == FirstTruthy([Get(md, OgTitle), Get(md, TwitterTitle), Get(md, Title)], Get(md, Domain))
    ensures Get(CleanedMap(md, ks), Description) == FirstTruthy([Get(md, OgDescription), Get(md, TwitterDescription), Get(md, Description)], Null)
    ensures Get(CleanedMap(md, ks), Image) == FirstTruthy([Get(md, OgImage), Get(md, TwitterImage), Get(md, Image)], Null)
  {
    assert Get(CleanedMap(md, ks), Title) == CleanedValue(md, ks, Title);
    assert Get(CleanedMap(md, ks), Description) == CleanedValue(md, ks, Description);
    assert Get(CleanedMap(md, ks), Image) == CleanedValue(md, ks, Image);
  }

  /** The record holding `CleanedValue` at every key of `md` and every computed key. */
  function CleanedMap(md: Metadata, ks: seq<string>): (c: Metadata)
    ensures forall k :: Get(c, k) == CleanedValue(md, ks, k)
  {
    map k | k in md.Keys + {Title, Description, Image, Tags, Keywords} :: CleanedValue(md, ks, k)
  }

  /** The value `cleanMetadata` leaves at one key. */
  function CleanedValue(md: Metadata, ks: seq<string>, key: Key): Field
  {
    if !Computed(key) then Get(md, key)
    else if key.Title? then FirstTruthy([Get(md, OgTitle), Get(md, TwitterTitle), Get(md, Title)], Get(md, Domain))
    else if key.Description? then FirstTruthy([Get(md, OgDescription), Get(md, TwitterDescription), Get(md, Description)], Null)
    else if key.Image? then FirstTruthy([Get(md, OgImage), Get(md, TwitterImage), Get(md, Image)], Null)
    else if key.Tags? then FirstTruthy([Get(md, Tags)], Strs([]))
    else Strs(ks)
  }

  /** `cleanMetadata`: best title, description and image, `tags` defaulted to `[]`, and the processed keywords. */
  function CleanMetadata(md: Metadata): (r: Option<Metadata>)
    ensures r.None? <==> ProcessKeywords(md).None?
    ensures r.Some? ==> forall k :: !Computed(k) ==> Get(r.value, k) == Get(md, k)
    ensures r.Some? ==> Get(r.value, Keywords) == Strs(ProcessKeywords(md).value)
    ensures r.Some? ==> Get(r.value, Tags) == (if Truthy(Get(md, Tags)) then Get(md, Tags) else Strs([]))
  {
    match ProcessKeywords(md)
    case None => None
    case Some(ks) => Some(Cleaned(md, ks))
  }

  /** `v` is the first truthy of `fs`, or `fallback` when none is truthy. */
  predicate Preferred(v: Field, fs: seq<Field>, fallback: Field)
  {
    if exists i :: 0 <= i < |fs| && Truthy(fs[i]) then
      exists i :: 0 <= i < |fs| && Truthy(fs[i]) && v == fs[i] && forall j :: 0 <= j < i ==> !Truthy(fs[j])
    else v == fallback
  }

  lemma FirstTruthyPreferred(fs: seq<Field>, last: Field)
    ensures Preferred(FirstTruthy(fs, last), fs, last)
  {
    if exists i :: 0 <= i < |fs| && Truthy(fs[i]) {
      var i :| 0 <= i < |fs| && Truthy(fs[i]);
      var m := FirstTruthyIndex(fs, i);
      assert FirstTruthy(fs, last) == fs[m];
    }
  }

  /** The first truthy position, at or before `i`. */
  lemma FirstTruthyIndex(fs: seq<Field>, i: nat) returns (m: nat)
    requires i < |fs| && Truthy(fs[i])
    ensures m <= i && Truthy(fs[m]) && forall j :: 0 <= j < m ==> !Truthy(fs[j])
  {
    m := i;
    while m > 0 && exists j :: 0 <= j < m && Truthy(fs[j])
      invariant m <= i && Truthy(fs[m])
      decreases m
    {
      var j :| 0 <= j < m && Truthy(fs[j]);
      m := j;
    }
  }

  /**
    * The cleaned title is the first truthy of `ogTitle`, `twitterTitle` and `title`, else the
    * domain; the description and the image likewise, else `null`.
    */
  lemma CleanFallbacks(md: Metadata)
    requires CleanMetadata(md).Some?
    ensures var c := CleanMetadata(md).value;
      && Preferred(Get(c, Title), [Get(md, OgTitle), Get(md, TwitterTitle), Get(md, Title)], Get(md, Domain))
      && Preferred(Get(c, Description), [Get(md, OgDescription), Get(md, TwitterDescription), Get(md, Description)], Null)
      && Preferred(Get(c, Image), [Get(md, OgImage), Get(md, TwitterImage), Get(md, Image)], Null)
  {
    FirstTruthyPreferred([Get(md, OgTitle), Get(md, TwitterTitle), Get(md, Title)], Get(md, Domain));
    FirstTruthyPreferred([Get(md, OgDescription), Get(md, TwitterDescription), Get(md, Description)], Null);
    FirstTruthyPreferred([Get(md, OgImage), Get(md, TwitterImage), Get(md, Image)], Null);
  }

  /** Choosing again among the same candidates, with the first choice in place of the last candidate, changes nothing. */
  lemma FirstTruthyStable(a: Field, b: Field, t: Field, d: Field)
    ensures FirstTruthy([a, b, FirstTruthy([a, b, t], d)], d) == FirstTruthy([a, b, t], d)
  {
    assert [a, b, t][1..] == [b, t] && [b, t][1..] == [t] && [t][1..] == [];
    var f := FirstTruthy([a, b, t], d);
    assert [a, b, f][1..] == [b, f] && [b, f][1..] == [f] && [f][1..] == [];
  }

  // ---------------------------------------------------------------- mergeMetadata

  /** An array spread: a string spreads into its characters. */
  function Spread(f: Field): (xs: seq<string>)
    ensures f.Strs? ==> xs == f.items
    ensures f.Str? ==> |xs| == |f.text| && forall i :: 0 <= i < |xs| ==> xs[i] == [f.text[i]]
  {
    match f
    case Strs(xs) => xs
    case Str(t) => seq(|t|, i requires 0 <= i < |t| => [t[i]])
    case _ => []
  }

  /** The merged value of one key. */
  function MergeValue(key: Key, basic: Field, rich: Field): Field
  {
    if Nullish(rich) then basic
    else if key == Tags && Truthy(basic) then Strs(Dedup(Spread(basic) + Spread(rich)))
    else rich
  }

  /** `{ ...basic }` updated by every key of `rich`, before cleaning. */
  function Merge(basic: Metadata, rich: Metadata): (merged: Metadata)
    ensures merged.Keys == basic.Keys + rich.Keys
  {
    map k | k in basic.Keys + rich.Keys :: MergeValue(k, Get(basic, k), Get(rich, k))
  }

  /** `mergeMetadata`: merge, then clean. */
  function MergeMetadata(basic: Metadata, rich: Metadata): (r: Option<Metadata>)
    ensures r.None? <==> ProcessKeywords(Merge(basic, rich)).None?
    ensures r.Some? ==> forall k :: !Computed(k) && Nullish(Get(rich, k)) ==> Get(r.value, k) == Get(basic, k)
    ensures r.Some? ==> forall k :: !Computed(k) && !Nullish(Get(rich, k)) ==> Get(r.value, k) == Get(rich, k)
  {
    var merged := Merge(basic, rich);
    assert forall k :: Get(merged, k) == MergeValue(k, Get(basic, k), Get(rich, k));
    CleanMetadata(merged)
  }

  /** A `null` or missing rich value keeps the basic one; any other replaces it, except for `tags`. */
  lemma MergeKeyRule(basic: Metadata, rich: Metadata, k: Key)
    ensures Nullish(Get(rich, k)) ==> Get(Merge(basic, rich), k) == Get(basic, k)
    ensures !Nullish(Get(rich, k)) && (k != Tags || !Truthy(Get(basic, k))) ==> Get(Merge(basic, rich), k) == Get(rich, k)
  {
  }

  /**
    * When both records have tags, the merged tags are the union of both spreads, each entry
    * once, with the basic tags' first occurrences first and in their order.
    */
  lemma MergeTagsUnion(basic: Metadata, rich: Metadata)
    requires Truthy(Get(basic, Tags)) && !Nullish(Get(rich, Tags))
    ensures Get(Merge(basic, rich), Tags).Strs?
    ensures var u := Get(Merge(basic, rich), Tags).items;
      && NoDup(u)
      && (forall x :: x in u <==> x in Spread(Get(basic, Tags)) || x in Spread(Get(rich, Tags)))
      && Dedup(Spread(Get(basic, Tags))) <= u
  {
    DedupPrefix(Spread(Get(basic, Tags)), Spread(Get(rich, Tags)));
  }

  /** Removing duplicates keeps the order of first occurrences, so `Dedup(a)` begins `Dedup(a + b)`. */
  lemma {:induction false} DedupPrefix<T(!new)>(a: seq<T>, b: seq<T>)
    ensures Dedup(a) <= Dedup(a + b)
    decreases |b|
  {
    if |b| == 0 {
      assert a + b == a;
    } else {
      var n := |b| - 1;
      DedupPrefix(a, b[..n]);
      assert (a + b)[..|a + b| - 1] == a + b[..n];
    }
  }
}
