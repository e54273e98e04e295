/**
  * Properties of `cleanMetadata` (metadata-fetcher.js) that relate two calls: cleaning a
  * cleaned record succeeds again and leaves the chosen title, description, image and tags as
  * they are.
  */
module MetaStable {
  import opened Wrappers
  import opened MetaRecord

  /** Cleaning a cleaned record succeeds again. */
  lemma CleanAgainSucceeds(md: Metadata)
    requires CleanMetadata(md).Some?
    ensures CleanMetadata(CleanMetadata(md).value).Some?
  {
    ArrayInSingleCopied(md, CleanMetadata(md).value);
  }

  /** Setting the computed keys a second time, with any keywords, leaves the chosen title in place. */
  lemma TitleStable(md: Metadata, ks: seq<string>, ks2: seq<string>)
    ensures var c := Cleaned(md, ks); Get(Cleaned(c, ks2), Title) == Get(c, Title)
  {
    var c := Cleaned(md, ks);
    assert Get(c, OgTitle) == Get(md, OgTitle) && Get(c, TwitterTitle) == Get(md, TwitterTitle) && Get(c, Domain) == Get(md, Domain);
    FirstTruthyStable(Get(md, OgTitle), Get(md, TwitterTitle), Get(md, Title), Get(md, Domain));
  }

  /** Likewise the chosen description. */
  lemma DescriptionStable(md: Metadata, ks: seq<string>, ks2: seq<string>)
    ensures var c := Cleaned(md, ks); Get(Cleaned(c, ks2), Description) == Get(c, Description)
  {
    var c := Cleaned(md, ks);
    assert Get(c, OgDescription) == Get(md, OgDescription) && Get(c, TwitterDescription) == Get(md, TwitterDescription);
    FirstTruthyStable(Get(md, OgDescription), Get(md, TwitterDescription), Get(md, Description), Null);
  }

  /** Likewise the chosen image. */
  lemma ImageStable(md: Metadata, ks: seq<string>, ks2: seq<string>)
    ensures var c := Cleaned(md, ks); Get(Cleaned(c, ks2), Image) == Get(c, Image)
  {
    var c := Cleaned(md, ks);
    assert Get(c, OgImage) == Get(md, OgImage) && Get(c, TwitterImage) == Get(md, TwitterImage);
    FirstTruthyStable(Get(md, OgImage), Get(md, TwitterImage), Get(md, Image), Null);
  }

  /** The best title, description, image and tags are already the best: cleaning twice changes none of them. */
  lemma CleanFieldsStable(md: Metadata)
    requires CleanMetadata(md).Some?
    ensures CleanMetadata(CleanMetadata(md).value).Some?
    ensures var c := CleanMetadata(md).value; var cc := CleanMetadata(c).value;
      && Get(cc, Title) == Get(c, Title) && Get(cc, Description) == Get(c, Description)
      && Get(cc, Image) == Get(c, Image) && Get(cc, Tags) == Get(c, Tags)
  {
    var c := CleanMetadata(md).value;
    ArrayInSingleCopied(md, c);
    var ks, ks2 := ProcessKeywords(md).value, ProcessKeywords(c).value;
    TitleStable(md, ks, ks2);
    DescriptionStable(md, ks, ks2);
    ImageStable(md, ks, ks2);
  }
}
