/**
  * The result list `search` builds in both `BM25Search` classes: every bookmark, then every
  * folder, whose score is positive, in that scan order, then `results.sort((a, b) => b.score - a.score)`.
  * `Array.prototype.sort` is stable, so hits of equal score keep their scan order; the sort is
  * modelled as a stable insertion sort on sequences.
  */
module Ranking {
  import opened Items

  /** The `type` field of a result. */
  datatype Kind = BookmarkHit | FolderHit

  /** A result: its kind, the item, its score, and the item's position among all documents. */
  datatype Hit = Hit(kind: Kind, item: Item, score: real, pos: nat)

  /** The bookmarks and folders of `setData`. */
  datatype Index = Index(bookmarks: seq<Item>, folders: seq<Item>)

  /** The documents of an index: the bookmarks, then the folders. */
  function Docs(ix: Index): seq<Item>
  {
    ix.bookmarks + ix.folders
  }

  /** Positions strictly increase along the list. */
  predicate ScanOrder(hits: seq<Hit>)
  {
    forall i, j :: 0 <= i < j < |hits| ==> hits[i].pos < hits[j].pos
  }

  /**
    * The two scan loops of `search`: document `i` (a bookmark when `i < bookmarkCount`) gives a
    * hit when its score is positive.
    */
  function Collect(docs: seq<Item>, scores: seq<real>, bookmarkCount: nat): (hits: seq<Hit>)
    requires |scores| == |docs|
    ensures ScanOrder(hits)
    ensures forall h :: h in hits ==>
      && h.pos < |docs| && h.item == docs[h.pos] && h.score == scores[h.pos] > 0.0
      && (h.kind == BookmarkHit <==> h.pos < bookmarkCount)
    ensures forall i :: 0 <= i < |docs| ==> (scores[i] > 0.0 <==> exists h :: h in hits && h.pos == i)
  {
    if |docs| == 0 then []
    else
      var n := |docs| - 1;
      var prev := Collect(docs[..n], scores[..n], bookmarkCount);
      var hit := Hit(if n < bookmarkCount then BookmarkHit else FolderHit, docs[n], scores[n], n);
      var hits := if scores[n] > 0.0 then prev + [hit] else prev;
      assert forall h :: h in hits ==> h in prev || (h == hit && scores[n] > 0.0);
      forall i | 0 <= i < |docs|
        ensures scores[i] > 0.0 <==> exists h :: h in hits && h.pos == i
      {
        if i < n {
          assert scores[..n][i] == scores[i];
          assert (exists h :: h in hits && h.pos == i) <==> (exists h :: h in prev && h.pos == i);
        } else if scores[n] > 0.0 {
          assert hit in hits;
        }
      }
      hits
  }

  /** `a` comes before `b` in the sorted list: a higher score, or an equal score and an earlier position. */
  predicate Before(a: Hit, b: Hit)
  {
    a.score > b.score || (a.score == b.score && a.pos < b.pos)
  }

  predicate Ranked(hits: seq<Hit>)
  {
    forall i, j :: 0 <= i < j < |hits| ==> Before(hits[i], hits[j])
  }

  /** Inserts `h` after every hit whose score is at least its own. */
  function Insert(h: Hit, sorted: seq<Hit>): (r: seq<Hit>)
    ensures multiset(r) == multiset(sorted) + multiset{h}
    ensures |r| == |sorted| + 1
  {
    if |sorted| == 0 then [h]
    else
      assert sorted == [sorted[0]] + sorted[1..];
      if sorted[0].score >= h.score then [sorted[0]] + Insert(h, sorted[1..])
      else [h] + sorted
  }

  lemma {:induction false} InsertRanked(h: Hit, sorted: seq<Hit>)
    requires Ranked(sorted)
    requires forall g :: g in sorted ==> g.pos < h.pos
    ensures Ranked(Insert(h, sorted))
    decreases |sorted|
  {
    if |sorted| > 0 && sorted[0].score >= h.score {
      var tail := sorted[1..];
      assert Ranked(tail);
      assert forall g :: g in tail ==> g in sorted;
      InsertRanked(h, tail);
      var r := Insert(h, tail);
      assert multiset(r) == multiset(tail) + multiset{h};
      forall j | 0 <= j < |r|
        ensures Before(sorted[0], r[j])
      {
        assert r[j] in multiset(r);
        if r[j] != h {
          assert r[j] in multiset(tail);
          var k :| 0 <= k < |tail| && tail[k] == r[j];
          assert sorted[k + 1] == r[j];
        }
      }
    }
  }

  /** `results.sort((a, b) => b.score - a.score)`. */
  function SortHits(hits: seq<Hit>): (r: seq<Hit>)
    ensures multiset(r) == multiset(hits)
    ensures |r| == |hits|
  {
    if |hits| == 0 then []
    else
      var n := |hits| - 1;
      assert hits == hits[..n] + [hits[n]];
      Insert(hits[n], SortHits(hits[..n]))
  }

  /**
    * Sorting a list in scan order yields the hits by decreasing score, equal scores in scan
    * order, with the same elements.
    */
  lemma {:induction false} SortRanks(hits: seq<Hit>)
    requires ScanOrder(hits)
    ensures Ranked(SortHits(hits)) && multiset(SortHits(hits)) == multiset(hits)
  {
    if |hits| > 0 {
      var n := |hits| - 1;
      var front := hits[..n];
      SortRanks(front);
      var sorted := SortHits(front);
      forall g | g in sorted
        ensures g.pos < hits[n].pos
      {
        assert g in multiset(front);
        var k :| 0 <= k < |front| && front[k] == g;
      }
      InsertRanked(hits[n], sorted);
    }
  }

  /**
    * `r` holds exactly the documents with a positive score, best first, each with its position,
    * item, score and kind.
    */
  predicate RanksScores(r: seq<Hit>, docs: seq<Item>, scores: seq<real>, bookmarkCount: nat)
    requires |scores| == |docs|
  {
    && Ranked(r)
    && (forall h :: h in r ==>
          && h.pos < |docs| && h.item == docs[h.pos] && h.score == scores[h.pos] > 0.0
          && (h.kind == BookmarkHit <==> h.pos < bookmarkCount))
    && (forall i :: 0 <= i < |docs| ==> (scores[i] > 0.0 <==> exists h :: h in r && h.pos == i))
  }

  /** When no document has a positive score, a ranking of the scores is empty. */
  lemma RanksNothing(r: seq<Hit>, docs: seq<Item>, scores: seq<real>, bookmarkCount: nat)
    requires |scores| == |docs|
    ensures RanksScores(r, docs, scores, bookmarkCount) && (forall i :: 0 <= i < |docs| ==> scores[i] <= 0.0) ==> r == []
  {
    if |r| > 0 {
      assert r[0] in r;
    }
  }

  /** The ranked result list: the positive-score documents, best first, ties in scan order. */
  function Rank(docs: seq<Item>, scores: seq<real>, bookmarkCount: nat): (r: seq<Hit>)
    requires |scores| == |docs|
    ensures RanksScores(r, docs, scores, bookmarkCount)
  {
    var hits := Collect(docs, scores, bookmarkCount);
    SortRanks(hits);
    var r := SortHits(hits);
    assert forall h :: h in r <==> h in hits by {
      forall h
        ensures h in r <==> h in hits
      {
        assert h in r <==> h in multiset(r);
        assert h in hits <==> h in multiset(hits);
      }
    }
    r
  }

  /** The ranking reorders the collected hits and nothing else. */
  lemma RankPermutes(docs: seq<Item>, scores: seq<real>, bookmarkCount: nat)
    requires |scores| == |docs|
    ensures multiset(Rank(docs, scores, bookmarkCount)) == multiset(Collect(docs, scores, bookmarkCount))
  {
  }
}
