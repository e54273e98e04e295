/**
  * The bookmark and folder records the search and clustering code read, and the weighted
  * document text both BM25 implementations build from them (`getDocumentText`).
  *
  * A missing or falsy string property is the empty string; an array property that is
  * missing or not an array is `None`. `host` is the hostname the URL parser yields for
  * `url`, `None` when `new URL(url)` throws.
  */
module Items {
  import opened Wrappers
  import opened Text

  /** The `metadata` object of a bookmark, as far as the core reads it. */
  datatype ItemMeta = ItemMeta(
    title: string,
    description: string,
    keywords: Option<seq<string>>,
    ogTitle: string,
    ogDescription: string,
    ogSiteName: string)

  /** A bookmark (non-empty `url`) or a folder (empty `url`, text in `name`). */
  datatype Item = Item(
    url: string,
    title: string,
    name: string,
    description: string,
    tags: Option<seq<string>>,
    metadata: Option<ItemMeta>,
    host: Option<string>)

  predicate IsBookmark(it: Item)
  {
    it.url != ""
  }

  /** Reads through `item.metadata?.`: a missing object has only empty fields. */
  function Meta(it: Item): ItemMeta
  {
    match it.metadata
    case None => ItemMeta("", "", None, "", "", "")
    case Some(md) => md
  }

  /** `s s ` for a list joined with blanks, or nothing when the list is absent. */
  function Twice(list: Option<seq<string>>): string
  {
    match list
    case None => ""
    case Some(xs) =>
      var joined := Join(xs, " ");
      joined + " " + joined + " "
  }

  /** The title, three times, each copy followed by a blank. */
  function TitleSegment(it: Item): string
  {
    if it.title != "" then it.title + " " + it.title + " " + it.title + " " else ""
  }

  /** The metadata title, twice, unless it is empty or equal to the title. */
  function MetaTitleSegment(it: Item): string
  {
    var mt := Meta(it).title;
    if mt != "" && mt != it.title then mt + " " + mt + " " else ""
  }

  /** A single field followed by a blank, or nothing when it is empty or equal to `other`. */
  function Once(s: string, other: string): string
  {
    if s != "" && s != other then s + " " else ""
  }

  /** The hostname with its first `www.` removed, followed by a blank; nothing when the URL does not parse. */
  function HostSegment(it: Item): string
  {
    match it.host
    case None => ""
    case Some(h) => ReplaceFirst(h, "www.", "") + " "
  }

  /** Everything after the title and metadata title, in the order the source appends it. */
  function RestSegments(it: Item): string
  {
    Twice(Meta(it).keywords)
    + Twice(it.tags)
    + Once(it.description, "")
    + Once(Meta(it).description, it.description)
    + Once(Meta(it).ogTitle, it.title)
    + Once(Meta(it).ogDescription, "")
    + Once(Meta(it).ogSiteName, "")
  }

  /** The untrimmed text of a bookmark. */
  function BookmarkBody(it: Item): string
  {
    TitleSegment(it) + (MetaTitleSegment(it) + (RestSegments(it) + HostSegment(it)))
  }

  /** `getDocumentText`: a folder's `name`, or a bookmark's weighted fields, trimmed. */
  function DocText(it: Item): (r: string)
    ensures !IsBookmark(it) ==> r == it.name
    ensures IsBookmark(it) ==> exists i :: TrimmedAt(BookmarkBody(it), r, i)
  {
    if IsBookmark(it) then Trim(BookmarkBody(it)) else it.name
  }

  // ---------------------------------------------------------------- properties

  /** A string that starts and ends with a non-blank character survives `trim` at the front of a text. */
  lemma {:induction false} TrimKeepsSolidPrefix(p: string, q: string)
    requires |p| > 0 && !IsSpace(p[0]) && !IsSpace(p[|p| - 1])
    ensures StartsWith(Trim(p + q), p)
  {
    assert (p + q)[0] == p[0];
    assert TrimStart(p + q) == p + q;
    TrimEndKeepsSolidPrefix(p, q);
  }

  lemma {:induction false} TrimEndKeepsSolidPrefix(p: string, q: string)
    requires |p| > 0 && !IsSpace(p[|p| - 1])
    ensures TrimEnd(p + q) == p + TrimEnd(q)
    decreases |q|
  {
    if |q| == 0 {
      assert p + q == p;
    } else {
      var s := p + q;
      assert s[|s| - 1] == q[|q| - 1];
      if IsSpace(q[|q| - 1]) {
        assert s[..|s| - 1] == p + q[..|q| - 1];
        TrimEndKeepsSolidPrefix(p, q[..|q| - 1]);
      }
    }
  }

  lemma PrefixOfConcat(a: string, b: string)
    ensures StartsWith(a + b, a)
  {
    assert (a + b)[..|a|] == a;
  }

  lemma PrefixOfNested(a: string, b: string, c: string)
    ensures a + (b + c) == (a + b) + c
    ensures StartsWith(a + (b + c), a + b)
  {
    PrefixOfConcat(a + b, c);
  }

  /** A bookmark with a title carries the title three times at the head of its untrimmed text. */
  lemma TitleThreeTimes(it: Item)
    requires IsBookmark(it) && it.title != ""
    ensures StartsWith(BookmarkBody(it), it.title + " " + it.title + " " + it.title + " ")
  {
    var tail := MetaTitleSegment(it) + (RestSegments(it) + HostSegment(it));
    assert BookmarkBody(it) == TitleSegment(it) + tail;
    PrefixOfConcat(TitleSegment(it), tail);
  }

  /**
    * When the title has no surrounding white space, the document text itself starts with
    * the three copies of the title.
    */
  lemma TitleThreeTimesInText(it: Item)
    requires IsBookmark(it) && it.title != ""
    requires !IsSpace(it.title[0]) && !IsSpace(it.title[|it.title| - 1])
    ensures StartsWith(DocText(it), it.title + " " + it.title + " " + it.title)
  {
    var t := it.title;
    var p := t + " " + t + " " + t;
    assert p[0] == t[0];
    assert p[|p| - 1] == t[|t| - 1];
    var tail := MetaTitleSegment(it) + (RestSegments(it) + HostSegment(it));
    var body := BookmarkBody(it);
    assert body == (p + " ") + tail;
    PrefixOfNested(p, " ", tail);
    TrimKeepsSolidPrefix(p, " " + tail);
    assert DocText(it) == Trim(p + (" " + tail));
  }

  /** A metadata title different from the title appears, twice, right after the title copies. */
  lemma MetaTitleWhenDifferent(it: Item, md: ItemMeta)
    requires it.metadata == Some(md) && md.title != "" && md.title != it.title
    ensures StartsWith(BookmarkBody(it), TitleSegment(it) + (md.title + " " + md.title + " "))
  {
    var m := md.title + " " + md.title + " ";
    var tail := RestSegments(it) + HostSegment(it);
    assert MetaTitleSegment(it) == m;
    assert BookmarkBody(it) == TitleSegment(it) + (m + tail);
    PrefixOfNested(TitleSegment(it), m, tail);
  }

  /** A metadata title equal to the title adds nothing: the text is that of the bookmark without it. */
  lemma MetaTitleOnlyWhenDifferent(it: Item, md: ItemMeta)
    requires it.metadata == Some(md) && md.title == it.title
    ensures DocText(it) == DocText(it.(metadata := Some(md.(title := ""))))
  {
  }

  /** An unparseable URL only drops the hostname: the text is what it would be with an empty host part. */
  lemma UnparseableUrlOmitsHost(it: Item, h: string)
    requires it.host == Some(h)
    ensures BookmarkBody(it) == BookmarkBody(it.(host := None)) + (ReplaceFirst(h, "www.", "") + " ")
  {
    var other := it.(host := None);
    var a, b, c := TitleSegment(it), MetaTitleSegment(it), RestSegments(it);
    assert Meta(other) == Meta(it);
    assert TitleSegment(other) == a;
    assert MetaTitleSegment(other) == b;
    assert RestSegments(other) == c;
    assert HostSegment(other) == "";
    EmptyLast(a, b, c);
    ConcatAssoc(a, b, c, HostSegment(it));
  }

  lemma EmptyLast(a: string, b: string, c: string)
    ensures a + (b + (c + "")) == a + (b + c)
  {
    assert c + "" == c;
  }

  lemma ConcatAssoc(a: string, b: string, c: string, d: string)
    ensures a + (b + (c + d)) == (a + (b + c)) + d
  {
  }
}
