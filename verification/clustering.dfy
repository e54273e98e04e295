/**
  * `BookmarkClusteringEngine` of src/clustering.js: a root whose children are the leaf folders,
  * each folder holding its member URLs with their vectors and the centroid of those vectors.
  * `addBookmark` is a state transition: extract weighted text, vectorize it, and either open
  * the first folder (cold start), join the most similar folder at similarity >= 0.25, or open
  * a new folder.
  *
  * Folder ids come from a counter in the engine instead of `Date.now()` and `Math.random()`,
  * and the `Date.now()` in a fallback label is the parameter `stamp`.
  */
module Clustering {
  import opened Wrappers
  import opened Seqs
  import opened Text
  import opened RealMath
  import opened Sparse
  import opened Items
  import TfIdf

  /** `SIMILARITY_THRESHOLD`. */
  const SimilarityThreshold: real := 0.25

  datatype NodeId = RootId | FolderId(n: nat)

  /** An entry of a folder's `urls`. */
  datatype Member = Member(url: string, vector: Vector)

  datatype Node = Node(id: NodeId, name: string, centroid: Option<Vector>, urls: seq<Member>, children: seq<Node>)

  datatype Engine = Engine(tfidf: TfIdf.State, root: Node, nextId: nat)

  /** The root the constructor and `reset` build. */
  const EmptyRoot: Node := Node(RootId, "All Bookmarks", None, [], [])

  function Vectors(urls: seq<Member>): (vs: seq<Vector>)
    ensures |vs| == |urls|
    ensures forall i :: 0 <= i < |urls| ==> vs[i] == urls[i].vector
  {
    seq(|urls|, i requires 0 <= i < |urls| => urls[i].vector)
  }

  // ---------------------------------------------------------------- the folder tree

  /** `getLeafFolders`: the nodes without children, left to right, the root excluded. */
  function LeafFolders(n: Node): (leaves: seq<Node>)
    ensures forall l :: l in leaves ==> l.id != RootId && |l.children| == 0
    decreases n
  {
    if |n.children| == 0 then
      if n.id != RootId then [n] else []
    else
      Flatten(seq(|n.children|, i requires 0 <= i < |n.children| => LeafFolders(n.children[i])))
  }

  /** The shape `addBookmark` keeps: folders hang directly off the root and have no children. */
  predicate Flat(root: Node)
  {
    && root.id == RootId
    && forall i :: 0 <= i < |root.children| ==> root.children[i].id != RootId && |root.children[i].children| == 0
  }

  lemma {:induction false} FlattenSingletons(ss: seq<seq<Node>>, ns: seq<Node>)
    requires |ss| == |ns| && forall i :: 0 <= i < |ss| ==> ss[i] == [ns[i]]
    ensures Flatten(ss) == ns
  {
    if |ss| > 0 {
      FlattenSingletons(ss[..|ss| - 1], ns[..|ns| - 1]);
      assert ns == ns[..|ns| - 1] + [ns[|ns| - 1]];
    }
  }

  /** On a flat tree the leaf folders are exactly the root's children, in order. */
  lemma FlatLeaves(root: Node)
    requires Flat(root)
    ensures LeafFolders(root) == root.children
  {
    if |root.children| > 0 {
      var ss := seq(|root.children|, i requires 0 <= i < |root.children| => LeafFolders(root.children[i]));
      FlattenSingletons(ss, root.children);
    }
  }

  /** The total number of member URLs of a list of folders. */
  function UrlCount(folders: seq<Node>): nat
  {
    if |folders| == 0 then 0 else UrlCount(folders[..|folders| - 1]) + |folders[|folders| - 1].urls|
  }

  lemma {:induction false} UrlCountAppend(folders: seq<Node>, f: Node)
    ensures UrlCount(folders + [f]) == UrlCount(folders) + |f.urls|
  {
    assert (folders + [f])[..|folders|] == folders;
  }

  lemma {:induction false} UrlCountUpdate(folders: seq<Node>, k: nat, f: Node)
    requires k < |folders|
    ensures UrlCount(folders[k := f]) + |folders[k].urls| == UrlCount(folders) + |f.urls|
  {
    var n := |folders|;
    var front := folders[..n - 1];
    if k == n - 1 {
      assert folders[k := f][..n - 1] == front;
    } else {
      assert folders[k := f][..n - 1] == front[k := f];
      UrlCountUpdate(front, k, f);
    }
  }

  // ---------------------------------------------------------------- the engine invariant

  /** A folder as `createNewFolder` and `addToFolder` leave it. */
  predicate FolderOk(f: Node, nextId: nat)
  {
    && f.id.FolderId? && f.id.n < nextId
    && |f.children| == 0
    && |f.urls| >= 1
    && (forall j :: 0 <= j < |f.urls| ==> Positive(f.urls[j].vector))
    && f.centroid == Some(Centroid(Vectors(f.urls)))
  }

  /**
    * The engine invariant: a consistent TF-IDF state, a flat tree of well-formed folders with
    * distinct ids below the counter, every centroid the mean of its members' vectors.
    */
  predicate Inv(e: Engine)
  {
    && TfIdf.Valid(e.tfidf)
    && e.root.id == RootId
    && (forall i :: 0 <= i < |e.root.children| ==> FolderOk(e.root.children[i], e.nextId))
    && (forall i, j :: 0 <= i < j < |e.root.children| ==> e.root.children[i].id != e.root.children[j].id)
  }

  lemma InvFlat(e: Engine)
    requires Inv(e)
    ensures Flat(e.root) && LeafFolders(e.root) == e.root.children
  {
    FlatLeaves(e.root);
  }

  /** A new engine, and the engine after `reset`; the id counter is kept so ids stay unique. */
  function Reset(e: Engine): (r: Engine)
    ensures Inv(r)
    ensures r.nextId == e.nextId
  {
    TfIdf.EmptyIsValid();
    Engine(TfIdf.Empty, EmptyRoot, e.nextId)
  }

  // ---------------------------------------------------------------- text and labels

  /** No two blanks in a row. */
  predicate SingleBlanks(s: string)
  {
    forall i :: 0 <= i < |s| - 1 ==> !(s[i] == ' ' && s[i + 1] == ' ')
  }

  /** Every character is `\w` or a blank. */
  predicate BlankSeparated(s: string)
  {
    forall i :: 0 <= i < |s| ==> s[i] == ' ' || (IsWordChar(s[i]) && !IsSpace(s[i]))
  }

  /** Lower-case words of `\w` characters separated by single blanks, nothing at either end. */
  predicate IsCleanText(s: string)
  {
    && BlankSeparated(s)
    && IsLowerCase(s)
    && SingleBlanks(s)
    && (|s| > 0 ==> s[0] != ' ' && s[|s| - 1] != ' ')
  }

  /** The parts `extractTextFromMetadata` collects, in order, before joining them with blanks. */
  function TextParts(b: Item): seq<string>
  {
    (if b.title != "" then [Repeat(b.title, 3)] else [])
    + (if b.description != "" then [b.description] else [])
    + (match b.metadata
       case None => []
       case Some(md) =>
         (if md.description != "" then [md.description] else [])
         + (match md.keywords case None => [] case Some(ks) => [Repeat(Join(ks, " "), 2)])
         + (if md.ogSiteName != "" then [md.ogSiteName] else []))
    + (match b.tags case None => [] case Some(ts) => [Repeat(Join(ts, " "), 2)])
    + (match b.host case None => [] case Some(h) => [StripPrefix(h, "www.")])
  }

  lemma CollapsedIsClean(s: string)
    requires forall i :: 0 <= i < |s| ==> IsWordChar(s[i]) || IsSpace(s[i])
    ensures BlankSeparated(CollapseSpaces(s)) && SingleBlanks(CollapseSpaces(s))
  {
    var c := CollapseSpaces(s);
    forall i | 0 <= i < |c|
      ensures c[i] == ' ' || (IsWordChar(c[i]) && !IsSpace(c[i]))
    {
      if !IsSpace(c[i]) {
        var j :| 0 <= j < |s| && s[j] == c[i];
      }
    }
  }

  lemma TrimmedIsClean(c: string)
    requires BlankSeparated(c) && SingleBlanks(c)
    ensures var t := Trim(c); BlankSeparated(t) && SingleBlanks(t) && (|t| > 0 ==> t[0] != ' ' && t[|t| - 1] != ' ')
  {
    var t := Trim(c);
    var k :| TrimmedAt(c, t, k);
    assert forall i :: 0 <= i < |t| ==> t[i] == c[k + i];
  }

  lemma LoweredIsClean(t: string)
    requires BlankSeparated(t) && SingleBlanks(t) && (|t| > 0 ==> t[0] != ' ' && t[|t| - 1] != ' ')
    ensures IsCleanText(ToLower(t))
  {
    var r := ToLower(t);
    assert forall i :: 0 <= i < |r| ==> (r[i] == ' ' <==> t[i] == ' ');
  }

  /** `extractTextFromMetadata`: the parts joined, non-word characters blanked, runs of white space collapsed, trimmed, lower-cased. */
  function ExtractText(b: Item): (text: string)
    ensures IsCleanText(text)
  {
    var replaced := ReplaceNonWord(Join(TextParts(b), " "));
    CollapsedIsClean(replaced);
    TrimmedIsClean(CollapseSpaces(replaced));
    LoweredIsClean(Trim(CollapseSpaces(replaced)));
    ToLower(Trim(CollapseSpaces(replaced)))
  }

  /** A word of any collected part reaches the cleaned text, lower-cased. */
  lemma PartWordReachesText(b: Item, p: string, w: string)
    requires IsWord(w) && p in TextParts(b) && Substring(w, p)
    ensures Substring(ToLower(w), ExtractText(b))
  {
    var parts := TextParts(b);
    var joined := Join(parts, " ");
    var k :| 0 <= k < |parts| && parts[k] == p;
    SubstringOfJoin(parts, " ", k);
    SubstringTransitive(w, p, joined);
    var replaced := ReplaceNonWord(joined);
    ReplaceNonWordKeepsWord(w, joined);
    WordHasNoSpace(w);
    CollapseKeepsWord(w, replaced);
    TrimKeepsWord(w, CollapseSpaces(replaced));
    ToLowerKeepsSubstring(w, Trim(CollapseSpaces(replaced)));
  }

  /**
    * Every `\w` run of the title, the description, the metadata description, keywords and
    * site name, the tags and the hostname without `www.` occurs, lower-cased, in the text.
    */
  lemma ExtractTextKeepsWords(b: Item, w: string)
    requires IsWord(w)
    ensures Substring(w, b.title) ==> Substring(ToLower(w), ExtractText(b))
    ensures Substring(w, b.description) ==> Substring(ToLower(w), ExtractText(b))
    ensures b.metadata.Some? && Substring(w, b.metadata.value.description) ==> Substring(ToLower(w), ExtractText(b))
    ensures b.metadata.Some? && Substring(w, b.metadata.value.ogSiteName) ==> Substring(ToLower(w), ExtractText(b))
    ensures b.metadata.Some? && b.metadata.value.keywords.Some? ==>
      forall j :: 0 <= j < |b.metadata.value.keywords.value| && Substring(w, b.metadata.value.keywords.value[j]) ==>
        Substring(ToLower(w), ExtractText(b))
    ensures b.tags.Some? ==>
      forall j :: 0 <= j < |b.tags.value| && Substring(w, b.tags.value[j]) ==> Substring(ToLower(w), ExtractText(b))
    ensures b.host.Some? && Substring(w, StripPrefix(b.host.value, "www.")) ==> Substring(ToLower(w), ExtractText(b))
  {
    var parts := TextParts(b);
    if Substring(w, b.title) {
      TitlePart(b);
      SubstringOfRepeat(b.title, 3);
      SubstringTransitive(w, b.title, Repeat(b.title, 3));
      PartWordReachesText(b, Repeat(b.title, 3), w);
    }
    if Substring(w, b.description) {
      DescriptionPart(b);
      PartWordReachesText(b, b.description, w);
    }
    if b.metadata.Some? {
      var md := b.metadata.value;
      if Substring(w, md.description) {
        MetaParts(b);
        PartWordReachesText(b, md.description, w);
      }
      if Substring(w, md.ogSiteName) {
        MetaParts(b);
        PartWordReachesText(b, md.ogSiteName, w);
      }
      if md.keywords.Some? {
        var ks := md.keywords.value;
        forall j | 0 <= j < |ks| && Substring(w, ks[j])
          ensures Substring(ToLower(w), ExtractText(b))
        {
          MetaParts(b);
          ListWordInPart(ks, j, w);
          PartWordReachesText(b, Repeat(Join(ks, " "), 2), w);
        }
      }
    }
    if b.tags.Some? {
      var ts := b.tags.value;
      forall j | 0 <= j < |ts| && Substring(w, ts[j])
        ensures Substring(ToLower(w), ExtractText(b))
      {
        TagsPart(b);
        ListWordInPart(ts, j, w);
        PartWordReachesText(b, Repeat(Join(ts, " "), 2), w);
      }
    }
    if b.host.Some? && Substring(w, StripPrefix(b.host.value, "www.")) {
      HostPart(b);
      PartWordReachesText(b, StripPrefix(b.host.value, "www."), w);
    }
  }

  /** A word of one list entry occurs in the list joined and doubled. */
  lemma ListWordInPart(xs: seq<string>, j: nat, w: string)
    requires j < |xs| && Substring(w, xs[j])
    ensures Substring(w, Repeat(Join(xs, " "), 2))
  {
    SubstringOfJoin(xs, " ", j);
    SubstringTransitive(w, xs[j], Join(xs, " "));
    SubstringOfRepeat(Join(xs, " "), 2);
    SubstringTransitive(w, Join(xs, " "), Repeat(Join(xs, " "), 2));
  }

  lemma TitlePart(b: Item)
    requires b.title != ""
    ensures Repeat(b.title, 3) in TextParts(b)
  {
  }

  lemma DescriptionPart(b: Item)
    requires b.description != ""
    ensures b.description in TextParts(b)
  {
  }

  lemma MetaParts(b: Item)
    requires b.metadata.Some?
    ensures b.metadata.value.description != "" ==> b.metadata.value.description in TextParts(b)
    ensures b.metadata.value.ogSiteName != "" ==> b.metadata.value.ogSiteName in TextParts(b)
    ensures b.metadata.value.keywords.Some? ==> Repeat(Join(b.metadata.value.keywords.value, " "), 2) in TextParts(b)
  {
  }

  lemma TagsPart(b: Item)
    requires b.tags.Some?
    ensures Repeat(Join(b.tags.value, " "), 2) in TextParts(b)
  {
  }

  lemma HostPart(b: Item)
    requires b.host.Some?
    ensures StripPrefix(b.host.value, "www.") in TextParts(b)
  {
  }

  /**
    * `generateFolderLabel`: the hostname without a leading `www.` and with its first letter
    * upper-cased, plus " Resources"; without a parseable URL, the first three blank-separated
    * fields of the title plus " Collection"; otherwise "Cluster " and the time stamp.
    */
  function FolderLabel(b: Item, stamp: string): (lbl: string)
    ensures b.host.Some? ==>
      var d := StripPrefix(b.host.value, "www.");
      && lbl == Capitalize(d) + " Resources"
      && (IsPrefix("www.", b.host.value) ==> b.host.value == "www." + d)
    ensures b.host.None? && b.title != "" ==>
      exists p :: lbl == p + " Collection" && IsPrefix(p, b.title)
        && Split(p, ' ') == Take(Split(b.title, ' '), 3)
        && (|Split(b.title, ' ')| <= 3 ==> p == b.title)
    ensures b.host.None? && b.title == "" ==> lbl == "Cluster " + stamp
  {
    match b.host
    case Some(h) => Capitalize(StripPrefix(h, "www.")) + " Resources"
    case None =>
      if b.title != "" then
        var parts := Split(b.title, ' ');
        var p := Join(Take(parts, 3), " ");
        JoinTakePrefix(parts, |Take(parts, 3)|, " ");
        JoinSplit(b.title, ' ');
        SplitJoin(Take(parts, 3), ' ');
        p + " Collection"
      else
        "Cluster " + stamp
  }

  // ---------------------------------------------------------------- matching

  /** The similarity `findBestFolder` computes for a folder: 0 for one without a centroid, which it skips. */
  ghost function Similarity(m: MathOps, v: Vector, f: Node): real
  {
    match f.centroid
    case None => 0.0
    case Some(c) => Cosine(m, v, c)
  }

  datatype Match = Match(folder: Option<nat>, similarity: real)

  /** The folder index `findBestFolder` picks (the index into the leaves) and its similarity. */
  ghost predicate IsBestMatch(m: MathOps, leaves: seq<Node>, v: Vector, r: Match)
  {
    match r.folder
    case None =>
      && r.similarity == 0.0
      && forall i :: 0 <= i < |leaves| ==> Similarity(m, v, leaves[i]) <= 0.0
    case Some(k) =>
      && k < |leaves| && leaves[k].centroid.Some?
      && r.similarity == Similarity(m, v, leaves[k]) > 0.0
      && (forall i :: 0 <= i < |leaves| ==> Similarity(m, v, leaves[i]) <= r.similarity)
      && (forall i :: 0 <= i < k ==> Similarity(m, v, leaves[i]) < r.similarity)
  }

  /**
    * `findBestFolder` over a list of leaves: a running maximum that starts at 0 and is replaced
    * only by a strictly larger similarity, so the first folder of maximal positive similarity wins
    * and a folder of similarity 0 is never chosen.
    */
  ghost function FindBest(m: MathOps, leaves: seq<Node>, v: Vector): (r: Match)
    ensures IsBestMatch(m, leaves, v, r)
    ensures |leaves| == 0 ==> r == Match(None, 0.0)
  {
    if |leaves| == 0 then Match(None, 0.0)
    else
      var prev := FindBest(m, leaves[..|leaves| - 1], v);
      var r := Keep(m, prev, |leaves| - 1, leaves[|leaves| - 1], v);
      ExtendBest(m, leaves, v, prev);
      r
  }

  /** One step of the running maximum: the folder at `index` replaces the best so far only when strictly more similar. */
  ghost function Keep(m: MathOps, prev: Match, index: nat, f: Node, v: Vector): Match
  {
    if f.centroid.Some? && Similarity(m, v, f) > prev.similarity then Match(Some(index), Similarity(m, v, f)) else prev
  }

  lemma ExtendBest(m: MathOps, leaves: seq<Node>, v: Vector, prev: Match)
    requires |leaves| > 0 && IsBestMatch(m, leaves[..|leaves| - 1], v, prev)
    ensures IsBestMatch(m, leaves, v, Keep(m, prev, |leaves| - 1, leaves[|leaves| - 1], v))
  {
    var n := |leaves| - 1;
    var front := leaves[..n];
    forall i | 0 <= i < n
      ensures Similarity(m, v, front[i]) == Similarity(m, v, leaves[i])
    {
      assert front[i] == leaves[i];
    }
    if leaves[n].centroid.Some? && Similarity(m, v, leaves[n]) > prev.similarity {
      ExtendReplaced(m, leaves, v, prev);
    } else {
      ExtendKept(m, leaves, v, prev);
    }
  }

  /** A strictly more similar last folder becomes the best. */
  lemma ExtendReplaced(m: MathOps, leaves: seq<Node>, v: Vector, prev: Match)
    requires |leaves| > 0 && leaves[|leaves| - 1].centroid.Some?
    requires IsBestMatch(m, leaves[..|leaves| - 1], v, prev)
    requires forall i :: 0 <= i < |leaves| - 1 ==> Similarity(m, v, leaves[..|leaves| - 1][i]) == Similarity(m, v, leaves[i])
    requires Similarity(m, v, leaves[|leaves| - 1]) > prev.similarity
    ensures IsBestMatch(m, leaves, v, Match(Some(|leaves| - 1), Similarity(m, v, leaves[|leaves| - 1])))
  {
    assert prev.similarity >= 0.0;
  }

  /** A last folder that is no more similar leaves the best as it was. */
  lemma ExtendKept(m: MathOps, leaves: seq<Node>, v: Vector, prev: Match)
    requires |leaves| > 0 && IsBestMatch(m, leaves[..|leaves| - 1], v, prev)
    requires forall i :: 0 <= i < |leaves| - 1 ==> Similarity(m, v, leaves[..|leaves| - 1][i]) == Similarity(m, v, leaves[i])
    requires leaves[|leaves| - 1].centroid.None? || Similarity(m, v, leaves[|leaves| - 1]) <= prev.similarity
    ensures IsBestMatch(m, leaves, v, prev)
  {
    assert prev.similarity >= 0.0;
    assert Similarity(m, v, leaves[|leaves| - 1]) <= prev.similarity;
  }

  /** The best match over the engine's leaf folders. */
  ghost function FindBestFolder(m: MathOps, e: Engine, v: Vector): (r: Match)
    ensures IsBestMatch(m, LeafFolders(e.root), v, r)
  {
    FindBest(m, LeafFolders(e.root), v)
  }

  // ---------------------------------------------------------------- folder updates

  datatype Created = Created(engine: Engine, folder: Node)

  /** `createNewFolder`: a folder with the bookmark as single member and its vector as centroid, appended to the root. */
  function CreateNewFolder(e: Engine, b: Item, v: Vector, stamp: string): (r: Created)
    ensures r.engine.root.children == e.root.children + [r.folder]
    ensures r.folder.id == FolderId(e.nextId) && r.folder.name == FolderLabel(b, stamp)
    ensures r.folder.urls == [Member(b.url, v)] && r.folder.centroid == Some(v) && r.folder.children == []
    ensures r.engine.tfidf == e.tfidf && r.engine.root.id == e.root.id && r.engine.nextId == e.nextId + 1
  {
    var f := Node(FolderId(e.nextId), FolderLabel(b, stamp), Some(v), [Member(b.url, v)], []);
    Created(e.(root := e.root.(children := e.root.children + [f]), nextId := e.nextId + 1), f)
  }

  /** `addToFolder` applied to the folder at position `k` of the root's children. */
  function AddToFolder(e: Engine, k: nat, b: Item, v: Vector): (r: Engine)
    requires k < |e.root.children|
    ensures |r.root.children| == |e.root.children|
    ensures forall i :: 0 <= i < |e.root.children| && i != k ==> r.root.children[i] == e.root.children[i]
    ensures r.root.children[k].urls == e.root.children[k].urls + [Member(b.url, v)]
    ensures r.root.children[k].id == e.root.children[k].id && r.root.children[k].name == e.root.children[k].name
    ensures r.root.children[k].children == e.root.children[k].children
    ensures r.root.children[k].centroid == Some(Centroid(Vectors(r.root.children[k].urls)))
    ensures r.tfidf == e.tfidf && r.root.id == e.root.id && r.nextId == e.nextId
  {
    var f := e.root.children[k];
    var urls := f.urls + [Member(b.url, v)];
    var g := f.(urls := urls, centroid := Some(Centroid(Vectors(urls))));
    e.(root := e.root.(children := e.root.children[k := g]))
  }

  /** After `addToFolder` every centroid entry is the members' mean: sum of that entry over the members divided by their number. */
  lemma AddToFolderMean(e: Engine, k: nat, b: Item, v: Vector, t: string)
    requires k < |e.root.children|
    ensures var f := AddToFolder(e, k, b, v).root.children[k];
      && |f.urls| == |e.root.children[k].urls| + 1
      && f.centroid.Some?
      && (t in f.centroid.value <==> t in v || exists j :: 0 <= j < |e.root.children[k].urls| && t in e.root.children[k].urls[j].vector)
      && (t in f.centroid.value ==> f.centroid.value[t] * (|f.urls| as real) == SumAt(Vectors(f.urls), t))
  {
    AppendedMemberKeys(e.root.children[k].urls, Member(b.url, v), t);
  }

  /** A term is a key of one of the members after appending a member exactly when it is a key of the new vector or of an old one. */
  lemma AppendedMemberKeys(urls: seq<Member>, x: Member, t: string)
    ensures t in KeysOf(Vectors(urls + [x])) <==> t in x.vector || exists j :: 0 <= j < |urls| && t in urls[j].vector
  {
    var vs := Vectors(urls + [x]);
    KeysOfMember(vs, t);
    assert forall j :: 0 <= j < |urls| ==> vs[j] == urls[j].vector;
    assert vs[|urls|] == x.vector;
  }

  // ---------------------------------------------------------------- addBookmark

  datatype Assignment = Assignment(folderId: NodeId, folderLabel: string, similarity: real, isNewFolder: bool)

  /** The engine after the call and the value `addBookmark` returns (`None` for `null`). */
  datatype Outcome = Outcome(engine: Engine, result: Option<Assignment>)

  /** Clean text is blank only when it is empty, so the `trim()` test of `addBookmark` is an emptiness test. */
  lemma CleanTextBlank(text: string)
    requires IsCleanText(text)
    ensures Trim(text) == "" <==> text == ""
  {
    TrimEmptyIffBlank(text);
    if text != "" {
      assert !IsSpace(text[0]);
    }
  }

  /** The document `addBookmark` adds for a bookmark whose text is not blank. */
  function Indexed(e: Engine, b: Item): TfIdf.Added
  {
    TfIdf.AddDocument(e.tfidf, ExtractText(b))
  }

  /** The vector of the bookmark's document, once added. */
  ghost function BookmarkVector(m: MathOps, e: Engine, b: Item): Vector
    requires Inv(e)
  {
    TfIdf.AddDocumentKeepsValid(e.tfidf, ExtractText(b));
    var added := Indexed(e, b);
    TfIdf.GetVector(m, added.state, added.index)
  }

  lemma CreateKeepsInv(e: Engine, b: Item, v: Vector, stamp: string)
    requires Inv(e) && Positive(v)
    ensures Inv(CreateNewFolder(e, b, v, stamp).engine)
  {
    var r := CreateNewFolder(e, b, v, stamp);
    var cs := r.engine.root.children;
    CentroidOfOne(v);
    assert Vectors([Member(b.url, v)]) == [v];
    forall i | 0 <= i < |cs|
      ensures FolderOk(cs[i], r.engine.nextId)
    {
      if i < |e.root.children| {
        assert cs[i] == e.root.children[i];
      }
    }
  }

  lemma AddToKeepsInv(e: Engine, k: nat, b: Item, v: Vector)
    requires Inv(e) && k < |e.root.children| && Positive(v)
    ensures Inv(AddToFolder(e, k, b, v))
  {
    var r := AddToFolder(e, k, b, v);
    var f := r.root.children[k];
    assert forall j :: 0 <= j < |f.urls| - 1 ==> f.urls[j] == e.root.children[k].urls[j];
    assert FolderOk(f, r.nextId);
  }

  /**
    * The placing step of `addBookmark`, once the bookmark's vector `v` is known and not empty.
    * With no folders yet, the first folder is created with similarity 0. Otherwise the best
    * match is joined when its similarity reaches the threshold, and a new folder is created
    * (reporting the best similarity) when it does not.
    */
  ghost function Place(m: MathOps, e: Engine, b: Item, v: Vector, stamp: string): (o: Outcome)
    requires Inv(e) && Positive(v)
    ensures Inv(o.engine) && o.result.Some?
    ensures o.engine.tfidf == e.tfidf
    ensures o.result.value.similarity >= 0.0
    ensures !o.result.value.isNewFolder ==> o.result.value.similarity >= SimilarityThreshold
  {
    InvFlat(e);
    var leaves := LeafFolders(e.root);
    if |leaves| == 0 then
      CreateKeepsInv(e, b, v, stamp);
      var c := CreateNewFolder(e, b, v, stamp);
      Outcome(c.engine, Some(Assignment(c.folder.id, c.folder.name, 0.0, true)))
    else
      var best := FindBest(m, leaves, v);
      if best.folder.Some? && best.similarity >= SimilarityThreshold then
        var k := best.folder.value;
        AddToKeepsInv(e, k, b, v);
        Outcome(AddToFolder(e, k, b, v), Some(Assignment(leaves[k].id, leaves[k].name, best.similarity, false)))
      else
        CreateKeepsInv(e, b, v, stamp);
        var c := CreateNewFolder(e, b, v, stamp);
        Outcome(c.engine, Some(Assignment(c.folder.id, c.folder.name, best.similarity, true)))
  }

  /** The folder `createNewFolder` builds for the bookmark. */
  function NewFolder(e: Engine, b: Item, v: Vector, stamp: string): Node
  {
    Node(FolderId(e.nextId), FolderLabel(b, stamp), Some(v), [Member(b.url, v)], [])
  }

  /** Cold start: with no folders, the bookmark opens the first folder, with similarity 0. */
  lemma PlaceColdStart(m: MathOps, e: Engine, b: Item, v: Vector, stamp: string)
    requires Inv(e) && Positive(v) && |e.root.children| == 0
    ensures var o := Place(m, e, b, v, stamp);
      && o.result.value == Assignment(FolderId(e.nextId), FolderLabel(b, stamp), 0.0, true)
      && o.engine.root.children == [NewFolder(e, b, v, stamp)]
  {
    InvFlat(e);
  }

  /**
    * With folders present, the bookmark joins the best-matching folder exactly when its
    * similarity reaches the threshold, and otherwise opens a new folder; either way the
    * reported similarity is the best one found.
    */
  lemma PlaceThreshold(m: MathOps, e: Engine, b: Item, v: Vector, stamp: string)
    requires Inv(e) && Positive(v) && |e.root.children| > 0
    ensures var o := Place(m, e, b, v, stamp);
      var best := FindBest(m, e.root.children, v);
      && o.result.value.similarity == best.similarity
      && (!o.result.value.isNewFolder <==> best.folder.Some? && best.similarity >= SimilarityThreshold)
      && (!o.result.value.isNewFolder ==>
            && o.result.value.folderId == e.root.children[best.folder.value].id
            && o.engine == AddToFolder(e, best.folder.value, b, v))
      && (o.result.value.isNewFolder ==>
            && o.result.value.folderId == FolderId(e.nextId)
            && o.engine.root.children == e.root.children + [NewFolder(e, b, v, stamp)])
  {
    InvFlat(e);
  }

  /** Placing stores the bookmark in exactly one folder: one more URL, and one more folder only when a folder is created. */
  lemma PlaceCounts(m: MathOps, e: Engine, b: Item, v: Vector, stamp: string)
    requires Inv(e) && Positive(v)
    ensures var o := Place(m, e, b, v, stamp);
      && UrlCount(o.engine.root.children) == UrlCount(e.root.children) + 1
      && |o.engine.root.children| == |e.root.children| + (if o.result.value.isNewFolder then 1 else 0)
  {
    var o := Place(m, e, b, v, stamp);
    var f := NewFolder(e, b, v, stamp);
    if |e.root.children| == 0 {
      PlaceColdStart(m, e, b, v, stamp);
      UrlCountAppend(e.root.children, f);
    } else {
      PlaceThreshold(m, e, b, v, stamp);
      if o.result.value.isNewFolder {
        UrlCountAppend(e.root.children, f);
      } else {
        var k := FindBest(m, e.root.children, v).folder.value;
        UrlCountUpdate(e.root.children, k, o.engine.root.children[k]);
        assert o.engine.root.children == e.root.children[k := o.engine.root.children[k]];
      }
    }
  }

  /** With lawful `ln` and `sqrt`, the reported similarity is a cosine of non-negative vectors, in [0, 1]. */
  lemma PlaceSimilarityInUnitRange(m: MathOps, e: Engine, b: Item, v: Vector, stamp: string)
    requires Inv(e) && Positive(v) && Lawful(m)
    ensures 0.0 <= Place(m, e, b, v, stamp).result.value.similarity <= 1.0
  {
    if |e.root.children| > 0 {
      PlaceThreshold(m, e, b, v, stamp);
      var best := FindBest(m, e.root.children, v);
      if best.folder.Some? {
        CosineBounds(m, v, e.root.children[best.folder.value].centroid.value);
      }
    } else {
      PlaceColdStart(m, e, b, v, stamp);
    }
  }

  /** The engine once the bookmark's document is in the TF-IDF state. */
  function AfterIndexing(e: Engine, b: Item): Engine
  {
    e.(tfidf := Indexed(e, b).state)
  }

  lemma AfterIndexingKeepsInv(e: Engine, b: Item)
    requires Inv(e)
    ensures Inv(AfterIndexing(e, b))
  {
    TfIdf.AddDocumentKeepsValid(e.tfidf, ExtractText(b));
  }

  /**
    * `addBookmark`: `null` when the extracted text is blank (nothing changes), or when the
    * document's vector is empty (the document stays in the TF-IDF state); otherwise the
    * bookmark is placed with its vector.
    */
  ghost function AddBookmark(m: MathOps, e: Engine, b: Item, stamp: string): (o: Outcome)
    requires Inv(e)
    ensures Inv(o.engine)
    ensures o.result.None? <==> ExtractText(b) == "" || |BookmarkVector(m, e, b)| == 0
    ensures o.result.None? ==> o.engine.root == e.root
    ensures ExtractText(b) != "" ==> o.engine.tfidf == Indexed(e, b).state
    ensures o.result.Some? ==> o == Place(m, AfterIndexing(e, b), b, BookmarkVector(m, e, b), stamp)
  {
    var text := ExtractText(b);
    CleanTextBlank(text);
    if Trim(text) == "" then Outcome(e, None)
    else
      AfterIndexingKeepsInv(e, b);
      var e1 := AfterIndexing(e, b);
      var v := BookmarkVector(m, e, b);
      if |v| == 0 then Outcome(e1, None)
      else Place(m, e1, b, v, stamp)
  }

  /** Each added bookmark lands in exactly one folder: the URL count grows by one, folders are never removed. */
  lemma AddBookmarkCounts(m: MathOps, e: Engine, b: Item, stamp: string)
    requires Inv(e)
    ensures var o := AddBookmark(m, e, b, stamp);
      && (o.result.None? ==> o.engine.root == e.root)
      && (o.result.Some? ==> UrlCount(o.engine.root.children) == UrlCount(e.root.children) + 1)
      && (o.result.Some? ==> |o.engine.root.children| == |e.root.children| + (if o.result.value.isNewFolder then 1 else 0))
  {
    var o := AddBookmark(m, e, b, stamp);
    if o.result.Some? {
      AfterIndexingKeepsInv(e, b);
      PlaceCounts(m, AfterIndexing(e, b), b, BookmarkVector(m, e, b), stamp);
    }
  }

  /** With lawful `ln` and `sqrt`, the similarity `addBookmark` reports lies in [0, 1]. */
  lemma SimilarityInUnitRange(m: MathOps, e: Engine, b: Item, stamp: string)
    requires Inv(e) && Lawful(m)
    ensures var o := AddBookmark(m, e, b, stamp);
      o.result.Some? ==> 0.0 <= o.result.value.similarity <= 1.0
  {
    var o := AddBookmark(m, e, b, stamp);
    if o.result.Some? {
      AfterIndexingKeepsInv(e, b);
      PlaceSimilarityInUnitRange(m, AfterIndexing(e, b), b, BookmarkVector(m, e, b), stamp);
    }
  }

  // ---------------------------------------------------------------- statistics

  datatype Stats = Stats(totalFolders: nat, totalUrls: nat, vocabulary: nat, threshold: real)

  /** `getStats`. */
  function GetStats(e: Engine): (s: Stats)
    ensures s.threshold == SimilarityThreshold && s.vocabulary == |e.tfidf.vocabulary|
    ensures Flat(e.root) ==> s.totalFolders == |e.root.children| && s.totalUrls == UrlCount(e.root.children)
  {
    var leaves := LeafFolders(e.root);
    assert Flat(e.root) ==> leaves == e.root.children by { if Flat(e.root) { FlatLeaves(e.root); } }
    Stats(|leaves|, UrlCount(leaves), |e.tfidf.vocabulary|, SimilarityThreshold)
  }

  /** After `reset` there are no folders, no URLs and no vocabulary. */
  lemma ResetEmpties(e: Engine)
    ensures GetStats(Reset(e)) == Stats(0, 0, 0, SimilarityThreshold)
  {
    TfIdf.EmptyIsValid();
  }
}
