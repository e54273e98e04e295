/**
  * The URL helpers of the metadata fetcher that need no network: the platform table, the
  * content-type rules, the keywords taken from the URL's parts and the title made from its path.
  *
  * A parsed URL is given by its parts: `hostname`, `pathname`, and the decoded query pairs
  * of `searchParams` in order. URL parsing and percent-decoding are not part of this model.
  */
module UrlInfo {
  import opened Wrappers
  import opened Seqs
  import opened Text

  // ---------------------------------------------------------------- platform

  /** The platform table of `detectPlatform`, in its declaration order. */
  const Platforms: seq<(string, string)> := [
    ("youtube.com", "YouTube"),
    ("github.com", "GitHub"),
    ("twitter.com", "Twitter"),
    ("x.com", "X"),
    ("linkedin.com", "LinkedIn"),
    ("medium.com", "Medium"),
    ("reddit.com", "Reddit"),
    ("stackoverflow.com", "Stack Overflow"),
    ("wikipedia.org", "Wikipedia"),
    ("arxiv.org", "arXiv"),
    ("npmjs.com", "npm"),
    ("dev.to", "DEV Community")
  ]

  /** The position of the first entry whose domain `matches` the hostname. */
  function FirstEntry(host: string, table: seq<(string, string)>, matches: (string, string) -> bool): (r: Option<nat>)
    ensures r.None? <==> forall i :: 0 <= i < |table| ==> !matches(host, table[i].0)
    ensures r.Some? ==> r.value < |table| && matches(host, table[r.value].0)
    ensures r.Some? ==> forall j :: 0 <= j < r.value ==> !matches(host, table[j].0)
  {
    if |table| == 0 then None
    else if matches(host, table[0].0) then Some(0)
    else
      match FirstEntry(host, table[1..], matches)
      case None => None
      case Some(k) => Some(k + 1)
  }

  /** The test `detectPlatform` applies: the domain occurs anywhere in the hostname. */
  predicate SubstringMatch(host: string, domain: string)
  {
    Contains(host, domain)
  }

  /** `detectPlatform` as written: the name of the first entry whose domain occurs in the hostname. */
  function DetectPlatform(host: string): (r: Option<string>)
    ensures r.None? <==> forall i :: 0 <= i < |Platforms| ==> !Contains(host, Platforms[i].0)
    ensures r.Some? ==> exists i :: (
      && 0 <= i < |Platforms| && r.value == Platforms[i].1
      && Contains(host, Platforms[i].0) && forall j :: 0 <= j < i ==> !Contains(host, Platforms[j].0))
  {
    match FirstEntry(host, Platforms, SubstringMatch)
    case None => None
    case Some(i) => Some(Platforms[i].1)
  }

  /** The hostname is the domain or one of its subdomains. */
  predicate DomainMatch(host: string, domain: string)
  {
    host == domain || EndsWith(host, "." + domain)
  }

  /** `detectPlatform` with the domain matched at a label boundary. */
  function DetectPlatformByDomain(host: string): (r: Option<string>)
    ensures r.None? <==> forall i :: 0 <= i < |Platforms| ==> !DomainMatch(host, Platforms[i].0)
    ensures r.Some? ==> exists i :: (
      && 0 <= i < |Platforms| && r.value == Platforms[i].1
      && DomainMatch(host, Platforms[i].0) && forall j :: 0 <= j < i ==> !DomainMatch(host, Platforms[j].0))
  {
    match FirstEntry(host, Platforms, DomainMatch)
    case None => None
    case Some(i) => Some(Platforms[i].1)
  }

  /** A hostname that is the domain or a subdomain of it contains the domain. */
  lemma DomainMatchContains(host: string, domain: string)
    requires DomainMatch(host, domain)
    ensures Contains(host, domain)
  {
    if host == domain {
      assert OccursAt(domain, host, 0);
    } else {
      assert OccursAt(domain, host, |host| - |domain|);
    }
  }

  /** Every hostname the corrected table recognises is recognised as written too. */
  lemma ByDomainRecognisedAsWritten(host: string)
    ensures DetectPlatformByDomain(host).Some? ==> DetectPlatform(host).Some?
  {
    if DetectPlatformByDomain(host).Some? {
      var i :| 0 <= i < |Platforms| && DomainMatch(host, Platforms[i].0);
      DomainMatchContains(host, Platforms[i].0);
    }
  }

  lemma DropboxContainsX()
    ensures Contains("dropbox.com", "x.com")
  {
    assert OccursAt("x.com", "dropbox.com", 6);
  }

  lemma DropboxMissesFirstThree()
    ensures !Contains("dropbox.com", "youtube.com")
    ensures !Contains("dropbox.com", "github.com")
    ensures !Contains("dropbox.com", "twitter.com")
  {
    DropboxNotYoutube();
    DropboxNotGithub();
    DropboxNotTwitter();
  }

  lemma DropboxNotYoutube()
    ensures !Contains("dropbox.com", "youtube.com")
  {
    var h := "dropbox.com";
    assert !OccursAt("youtube.com", h, 0) by { assert h[0] != 'y'; }
  }

  lemma DropboxNotGithub()
    ensures !Contains("dropbox.com", "github.com")
  {
    var h := "dropbox.com";
    assert !OccursAt("github.com", h, 0) by { assert h[0] != 'g'; }
    assert !OccursAt("github.com", h, 1) by { assert h[1..11][0] == h[1] != 'g'; }
  }

  lemma DropboxNotTwitter()
    ensures !Contains("dropbox.com", "twitter.com")
  {
    var h := "dropbox.com";
    assert !OccursAt("twitter.com", h, 0) by { assert h[0] != 't'; }
  }

  /** As written, `dropbox.com` is the platform X, because `x.com` occurs in it. */
  lemma DropboxIsX()
    ensures DetectPlatform("dropbox.com") == Some("X")
  {
    DropboxContainsX();
    DropboxMissesFirstThree();
    var r := DetectPlatform("dropbox.com");
    var i :| 0 <= i < |Platforms| && r.value == Platforms[i].1
      && Contains("dropbox.com", Platforms[i].0) && forall j :: 0 <= j < i ==> !Contains("dropbox.com", Platforms[j].0);
    assert i == 3;
  }

  /** With the domain matched at a label boundary, `dropbox.com` is not X. */
  lemma DropboxIsNotXByDomain()
    ensures DetectPlatformByDomain("dropbox.com") != Some("X")
  {
    var h := "dropbox.com";
    assert !DomainMatch(h, "x.com") by {
      assert h[|h| - 6] == 'o';
    }
    assert forall i :: 0 <= i < |Platforms| && Platforms[i].1 == "X" ==> i == 3;
  }

  // ---------------------------------------------------------------- content type

  datatype ContentType = Video | Repository | Article | Documentation | Product | Website

  /** The precedence of the rules: a lower rank is tried first. */
  function Rank(k: ContentType): nat
  {
    match k
    case Video => 0
    case Repository => 1
    case Article => 2
    case Documentation => 3
    case Product => 4
    case Website => 5
  }

  /** The rule for each content type, over the lower-cased hostname and path. */
  predicate Rule(k: ContentType, host: string, path: string)
  {
    match k
    case Video => Contains(host, "youtube.com") || Contains(host, "vimeo.com")
    case Repository => Contains(host, "github.com") || Contains(host, "gitlab.com")
    case Article =>
      Contains(path, "/blog/") || Contains(path, "/post/") || Contains(path, "/article/") || Contains(host, "medium.com")
    case Documentation => Contains(path, "/docs/") || Contains(path, "/documentation/")
    case Product => Contains(path, "/product/") || Contains(path, "/item/")
    case Website => true
  }

  /** `detectContentType`: the first type, in precedence order, whose rule holds of the lower-cased URL. */
  function DetectContentType(host: string, path: string): (r: ContentType)
    ensures Rule(r, ToLower(host), ToLower(path))
    ensures forall k :: Rank(k) < Rank(r) ==> !Rule(k, ToLower(host), ToLower(path))
  {
    var h, p := ToLower(host), ToLower(path);
    if Rule(Video, h, p) then Video
    else if Rule(Repository, h, p) then Repository
    else if Rule(Article, h, p) then Article
    else if Rule(Documentation, h, p) then Documentation
    else if Rule(Product, h, p) then Product
    else Website
  }

  /** The content type does not depend on letter case. */
  lemma ContentTypeIgnoresCase(host: string, path: string)
    ensures DetectContentType(ToLower(host), ToLower(path)) == DetectContentType(host, path)
  {
    ToLowerIdempotent(host);
    ToLowerIdempotent(path);
  }

  /** A type is chosen exactly when its rule holds and no rule of higher precedence does. */
  lemma ContentTypeIsFirstRule(host: string, path: string, k: ContentType)
    ensures DetectContentType(host, path) == k <==>
      Rule(k, ToLower(host), ToLower(path)) && forall j :: Rank(j) < Rank(k) ==> !Rule(j, ToLower(host), ToLower(path))
  {
    var r := DetectContentType(host, path);
    if Rule(k, ToLower(host), ToLower(path)) && forall j :: Rank(j) < Rank(k) ==> !Rule(j, ToLower(host), ToLower(path)) {
      assert Rank(k) <= Rank(r);
      assert Rank(r) <= Rank(k);
    }
  }

  // ---------------------------------------------------------------- keywords

  /** The hostname labels other than `www` and `com`. */
  predicate HostKept(p: string)
  {
    p != "www" && p != "com"
  }

  /** A query key `extractKeywords` skips. */
  predicate IsUtm(key: string)
  {
    key == "utm_source" || key == "utm_medium"
  }

  predicate PairKept(kv: (string, string))
  {
    !IsUtm(kv.0)
  }

  function Map(f: string -> string, xs: seq<string>): (ys: seq<string>)
    ensures |ys| == |xs|
    ensures forall i :: 0 <= i < |xs| ==> ys[i] == f(xs[i])
  {
    seq(|xs|, i requires 0 <= i < |xs| => f(xs[i]))
  }

  /** The path segments longer than two characters, with `-` and `_` turned into blanks. */
  function PathKeywords(path: string): (ks: seq<string>)
    ensures forall k :: k in ks <==> exists s :: s in Split(path, '/') && Long(s) && k == DashesToSpaces(s)
  {
    var segs := Filter(Long, Split(path, '/'));
    var ks := Map(DashesToSpaces, segs);
    assert forall k :: k in ks ==> exists i :: 0 <= i < |segs| && k == DashesToSpaces(segs[i]);
    forall s | s in Split(path, '/') && Long(s)
      ensures DashesToSpaces(s) in ks
    {
      var i :| 0 <= i < |segs| && segs[i] == s;
    }
    ks
  }

  /** The key and value of every query pair, in order, skipping the two tracking keys. */
  function QueryKeywords(query: seq<(string, string)>): (ks: seq<string>)
    ensures forall k :: k in ks <==> exists i :: 0 <= i < |query| && !IsUtm(query[i].0) && (k == query[i].0 || k == query[i].1)
  {
    if |query| == 0 then []
    else
      var n := |query| - 1;
      var front := QueryKeywords(query[..n]);
      assert forall i :: 0 <= i < n ==> query[..n][i] == query[i];
      if IsUtm(query[n].0) then front else front + [query[n].0, query[n].1]
  }

  /** The keyword comes from a kept hostname label, a long path segment, or a kept query pair. */
  predicate FromUrl(k: string, host: string, path: string, query: seq<(string, string)>)
  {
    || (k in Split(host, '.') && HostKept(k))
    || (exists s :: s in Split(path, '/') && Long(s) && k == DashesToSpaces(s))
    || (exists i :: 0 <= i < |query| && !IsUtm(query[i].0) && (k == query[i].0 || k == query[i].1))
  }

  /** `extractKeywords`: hostname labels, path segments and query pairs, first occurrences only, longer than two characters. */
  function ExtractKeywords(host: string, path: string, query: seq<(string, string)>): (ks: seq<string>)
    ensures NoDup(ks)
    ensures forall k :: k in ks ==> |k| > 2
    ensures forall k :: k in ks <==> Long(k) && FromUrl(k, host, path, query)
    ensures InFirstOrder(ks, Filter(HostKept, Split(host, '.')) + PathKeywords(path) + QueryKeywords(query))
  {
    var all := Filter(HostKept, Split(host, '.')) + PathKeywords(path) + QueryKeywords(query);
    var unique := Dedup(all);
    FilterKeepsNoDup(Long, unique);
    DedupInFirstOrder(all);
    FilterInFirstOrder(Long, unique, all);
    Filter(Long, unique)
  }

  /** A query pair under a tracking key adds nothing. */
  lemma UtmIgnored(host: string, path: string, query: seq<(string, string)>, value: string)
    ensures ExtractKeywords(host, path, query + [("utm_source", value)]) == ExtractKeywords(host, path, query)
    ensures ExtractKeywords(host, path, query + [("utm_medium", value)]) == ExtractKeywords(host, path, query)
  {
    assert (query + [("utm_source", value)])[..|query|] == query;
    assert (query + [("utm_medium", value)])[..|query|] == query;
  }

  /** The labels `www` and `com` enter only through the path or the query. */
  lemma WwwAndComFromHostSkipped(host: string)
    ensures "www" !in ExtractKeywords(host, "", [])
    ensures "com" !in ExtractKeywords(host, "", [])
  {
    assert Split("", '/') == [""];
  }

  // ---------------------------------------------------------------- title

  /** `^\d+$`. */
  predicate AllDigits(s: string)
  {
    |s| > 0 && forall i :: 0 <= i < |s| ==> IsDigit(s[i])
  }

  /** `/\.(html?|php|aspx?)$/i`. */
  predicate IsPageFile(s: string)
  {
    var l := ToLower(s);
    EndsWith(l, ".htm") || EndsWith(l, ".html") || EndsWith(l, ".php") || EndsWith(l, ".asp") || EndsWith(l, ".aspx")
  }

  /** A path segment the title may come from. */
  predicate Meaningful(s: string)
  {
    s != "" && !AllDigits(s) && !IsPageFile(s)
  }

  /** The position of the last occurrence of `c`. */
  function LastIndex(s: string, c: char): (r: Option<nat>)
    ensures r.None? <==> c !in s
    ensures r.Some? ==> r.value < |s| && s[r.value] == c && c !in s[r.value + 1..]
  {
    if |s| == 0 then None
    else if s[|s| - 1] == c then Some(|s| - 1)
    else
      var r := LastIndex(s[..|s| - 1], c);
      assert forall d :: d in s <==> d in s[..|s| - 1] || d == s[|s| - 1] by {
        assert s == s[..|s| - 1] + [s[|s| - 1]];
      }
      match r
      case None => None
      case Some(i) =>
        assert s[i + 1..] == s[..|s| - 1][i + 1..] + [s[|s| - 1]];
        Some(i)
  }

  /** `replace(/\.[^.]+$/, '')`: drops a final dot and the dot-free text after it, when that text is not empty. */
  function RemoveExtension(s: string): (r: string)
    ensures IsPrefix(r, s)
    ensures '.' !in s ==> r == s
    ensures r != s ==> exists i :: 0 <= i < |s| - 1 && s[i] == '.' && r == s[..i] && '.' !in s[i + 1..]
    ensures forall i :: 0 <= i < |s| - 1 && s[i] == '.' && '.' !in s[i + 1..] ==> r == s[..i]
    ensures |s| > 0 && s[|s| - 1] == '.' ==> r == s
  {
    match LastIndex(s, '.')
    case None => s
    case Some(i) => if i < |s| - 1 then s[..i] else s
  }

  /** The extension of a file name is dropped: "intro.pdf" becomes "intro". */
  lemma RemoveExtensionExample()
    ensures RemoveExtension("intro.pdf") == "intro"
  {
    var s := "intro.pdf";
    assert s[5] == '.' && '.' !in s[6..];
  }

  /** `replace(/^\d{4}\/\d{2}\/\d{2}\//, '')`. */
  function RemoveDatePrefix(s: string): (r: string)
    ensures '/' !in s ==> r == s
    ensures IsPrefix(r, s) || (|s| >= 11 && r == s[11..])
  {
    if |s| >= 11 && AllDigits(s[..4]) && s[4] == '/' && AllDigits(s[5..7]) && s[7] == '/'
      && AllDigits(s[8..10]) && s[10] == '/'
    then
      assert s[4] in s;
      s[11..]
    else s
  }

  /** A `\w` character that does not follow another: where `\b\w` matches. */
  predicate WordStart(s: string, i: int)
  {
    0 <= i < |s| && IsWordChar(s[i]) && (i == 0 || !IsWordChar(s[i - 1]))
  }

  /** `replace(/\b\w/g, l => l.toUpperCase())`. */
  function CapitalizeWords(s: string): (r: string)
    ensures |r| == |s|
    ensures forall i :: 0 <= i < |s| ==> Lower(r[i]) == Lower(s[i]) && (IsWordChar(r[i]) <==> IsWordChar(s[i]))
    ensures forall i :: 0 <= i < |s| && !WordStart(s, i) ==> r[i] == s[i]
    ensures forall i :: WordStart(r, i) ==> !IsLowerLetter(r[i])
  {
    var r := seq(|s|, i requires 0 <= i < |s| => if WordStart(s, i) then Upper(s[i]) else s[i]);
    assert forall i :: WordStart(r, i) ==> WordStart(s, i);
    r
  }

  /** Capitalising the words twice is capitalising them once. */
  lemma CapitalizeWordsIdempotent(s: string)
    ensures CapitalizeWords(CapitalizeWords(s)) == CapitalizeWords(s)
  {
    var r := CapitalizeWords(s);
    var rr := CapitalizeWords(r);
    forall i | 0 <= i < |r|
      ensures rr[i] == r[i]
    {
      if WordStart(r, i) {
        assert !IsLowerLetter(r[i]);
      }
    }
  }

  /** No `-` or `_` in the string. */
  predicate NoDashes(s: string)
  {
    forall i :: 0 <= i < |s| ==> s[i] != '-' && s[i] != '_'
  }

  /** The characters of `t` all occur in `s`. */
  predicate CharsWithin(t: string, s: string)
  {
    forall i :: 0 <= i < |t| ==> t[i] in s
  }

  lemma CharsWithinNoDashes(t: string, s: string)
    requires CharsWithin(t, s) && NoDashes(s)
    ensures NoDashes(t)
  {
    forall i | 0 <= i < |t|
      ensures t[i] != '-' && t[i] != '_'
    {
      var k :| 0 <= k < |s| && s[k] == t[i];
    }
  }

  lemma TrimCharsWithin(s: string)
    ensures CharsWithin(Trim(s), s)
  {
    var t := Trim(s);
    var k :| TrimmedAt(s, t, k);
    forall i | 0 <= i < |t|
      ensures t[i] in s
    {
      assert t[i] == s[k + i];
    }
  }

  lemma CapitalizeKeepsNoDashes(s: string)
    requires NoDashes(s)
    ensures NoDashes(CapitalizeWords(s))
  {
    var t := CapitalizeWords(s);
    forall i | 0 <= i < |t|
      ensures t[i] != '-' && t[i] != '_'
    {
      assert Lower(t[i]) == Lower(s[i]);
    }
  }

  /** The cleaned title of a segment (or of the hostname): blanks for dashes, no extension, trimmed, words capitalised. */
  function Tidy(base: string): (t: string)
  {
    CapitalizeWords(Trim(RemoveDatePrefix(RemoveExtension(DashesToSpaces(base)))))
  }

  /** A cleaned title holds no `-` or `_`, and every word of it begins with no lower-case letter. */
  lemma TidyIsClean(base: string)
    ensures NoDashes(Tidy(base))
    ensures forall i :: WordStart(Tidy(base), i) ==> !IsLowerLetter(Tidy(base)[i])
  {
    var spaced := DashesToSpaces(base);
    var cut := RemoveExtension(spaced);
    var undated := RemoveDatePrefix(cut);
    var trimmed := Trim(undated);
    assert NoDashes(spaced);
    assert NoDashes(cut) by {
      assert CharsWithin(cut, spaced);
      CharsWithinNoDashes(cut, spaced);
    }
    assert NoDashes(undated) by {
      assert CharsWithin(undated, cut);
      CharsWithinNoDashes(undated, cut);
    }
    TrimCharsWithin(undated);
    CharsWithinNoDashes(trimmed, undated);
    CapitalizeKeepsNoDashes(trimmed);
  }

  /** The non-empty path segments. */
  function Segments(path: string): (parts: seq<string>)
    ensures forall p :: p in parts <==> p in Split(path, '/') && p != ""
  {
    Filter(NonEmpty, Split(path, '/'))
  }

  /** The last meaningful path segment, if any. */
  function LastMeaningful(path: string): (r: Option<string>)
    ensures r.None? <==> forall p :: p in Split(path, '/') ==> !Meaningful(p)
    ensures r.Some? ==> r.value in Split(path, '/') && Meaningful(r.value)
    ensures r.Some? ==> exists i :: LastKept(Meaningful, Split(path, '/'), i) && Split(path, '/')[i] == r.value
  {
    PopKept(Meaningful, Split(path, '/'))
  }

  /** `extractTitleFromURL`. */
  function ExtractTitle(host: string, path: string): (title: string)
    ensures Contains(host, "github.com") && |Segments(path)| >= 2 ==>
      title == Segments(path)[0] + "/" + Segments(path)[1] + " - GitHub"
    ensures host != "" ==> title != ""
    ensures !(Contains(host, "github.com") && |Segments(path)| >= 2) ==>
      var base := LastMeaningful(path).GetOr(host);
      title == (if Tidy(base) != "" then Tidy(base) else host)
  {
    var parts := Segments(path);
    if Contains(host, "github.com") && |parts| >= 2 then
      parts[0] + "/" + parts[1] + " - GitHub"
    else
      var base := LastMeaningful(path).GetOr(host);
      var t := Tidy(base);
      if t != "" then t else host
  }

  /** The title taken from a meaningful segment has no `-` or `_` and every word begins with no lower-case letter. */
  lemma TitleFromSegmentIsClean(host: string, path: string)
    requires !(Contains(host, "github.com") && |Segments(path)| >= 2)
    requires LastMeaningful(path).Some? && Tidy(LastMeaningful(path).value) != ""
    ensures NoDashes(ExtractTitle(host, path))
    ensures forall i :: WordStart(ExtractTitle(host, path), i) ==> !IsLowerLetter(ExtractTitle(host, path)[i])
  {
    TidyIsClean(LastMeaningful(path).value);
  }

  /** The date-prefix rule never applies to a title: neither a path segment nor a hostname holds a `/`. */
  lemma DatePrefixNeverApplies(host: string, path: string, s: string)
    requires '/' !in host && (s == host || s in Split(path, '/'))
    ensures '/' !in RemoveExtension(DashesToSpaces(s))
    ensures RemoveDatePrefix(RemoveExtension(DashesToSpaces(s))) == RemoveExtension(DashesToSpaces(s))
  {
    var d := DashesToSpaces(s);
    assert '/' !in s;
    assert '/' !in d;
    var r := RemoveExtension(d);
    assert forall i :: 0 <= i < |r| ==> r[i] == d[i];
  }
}
