/**
 * `list_s3_images`: walk the pages of a `list_objects_v2` listing under a
 * prefix and keep, in listing order, every key with an image extension;
 * an empty result stops the pipeline.
 *
 * The paginator is given as the sequence of pages it yields; a page
 * without a `Contents` member contributes no key.
 */
module Lister {
  import opened Wrappers
  import opened Paths
  import opened Sequences

  /** One page of the listing: the keys of its `Contents`, or None when the page has none. */
  datatype Page = Page(contents: Option<seq<string>>)

  /**
   * `page.get("Contents", [])`, reduced to the object keys: the keys of the
   * page's `Contents`, and none when the page has no `Contents`.
   */
  function PageKeys(page: Page): (keys: seq<string>)
    ensures page.contents.None? ==> keys == []
    ensures forall k :: k in keys <==> page.contents.Some? && k in page.contents.value
  {
    match page.contents
    case None => []
    case Some(keys) => keys
  }

  /** Every key of the listing, page after page. */
  function Listing(pages: seq<Page>): seq<string> {
    if pages == [] then [] else Listing(pages[..|pages| - 1]) + PageKeys(pages[|pages| - 1])
  }

  /** The keys the lister keeps. */
  function ImageKeys(keys: seq<string>): seq<string> {
    Filter(IsImage, keys)
  }

  /** The inner loop of `list_s3_images`: the image keys of one page, in order. */
  method PageImages(contents: seq<string>) returns (kept: seq<string>)
    ensures kept == ImageKeys(contents)
  {
    kept := [];
    var j := 0;
    while j < |contents|
      invariant 0 <= j <= |contents|
      invariant kept == ImageKeys(contents[..j])
    {
      assert contents[..j + 1][..j] == contents[..j];
      if IsImage(contents[j]) {
        kept := kept + [contents[j]];
      }
      j := j + 1;
    }
    assert contents[..j] == contents;
  }

  /**
   * The image keys of the whole listing, in listing order; the run stops
   * with NoImagesInBucket when there is none.
   */
  method ListImages(pages: seq<Page>) returns (r: Result<seq<string>, Fatal>)
    ensures r.Success? <==> ImageKeys(Listing(pages)) != []
    ensures r.Success? ==> r.value == ImageKeys(Listing(pages))
    ensures r.Failure? ==> r.error == NoImagesInBucket
  {
    var keys: seq<string> := [];
    var i := 0;
    while i < |pages|
      invariant 0 <= i <= |pages|
      invariant keys == ImageKeys(Listing(pages[..i]))
    {
      var kept := PageImages(PageKeys(pages[i]));
      assert pages[..i + 1][..i] == pages[..i];
      FilterAppend(IsImage, Listing(pages[..i]), PageKeys(pages[i]));
      keys := keys + kept;
      i := i + 1;
    }
    assert pages[..i] == pages;
    if keys == [] {
      return Failure(NoImagesInBucket);
    }
    return Success(keys);
  }

  /**
   * The keys returned are an order-preserving subsequence of the listing:
   * the k-th returned key is the listing's key at the k-th kept position,
   * and the kept positions are exactly those of image keys.
   */
  lemma ListedInOrder(pages: seq<Page>)
    ensures var listing := Listing(pages);
      |ImageKeys(listing)| == |KeptIndices(IsImage, listing)| &&
      Increasing(KeptIndices(IsImage, listing), |listing|) &&
      (forall k :: 0 <= k < |KeptIndices(IsImage, listing)| ==>
         ImageKeys(listing)[k] == listing[KeptIndices(IsImage, listing)[k]]) &&
      (forall i :: 0 <= i < |listing| ==> (i in KeptIndices(IsImage, listing) <==> IsImage(listing[i])))
  {
    FilterIsSubsequence(IsImage, Listing(pages));
  }

  /** A key is returned exactly when it is listed and has an image extension. */
  lemma ListedExactly(pages: seq<Page>, key: string)
    ensures key in ImageKeys(Listing(pages)) <==> key in Listing(pages) && IsImage(key)
  {
    FilterMembership(IsImage, Listing(pages), key);
  }

  /** A key of any page is in the listing. */
  lemma {:induction false} PageKeysListed(pages: seq<Page>, i: nat, key: string)
    requires i < |pages| && key in PageKeys(pages[i])
    ensures key in Listing(pages)
    decreases |pages|
  {
    if i < |pages| - 1 {
      assert pages[..|pages| - 1][i] == pages[i];
      PageKeysListed(pages[..|pages| - 1], i, key);
    }
  }

  /** Every key of the listing comes from one of the pages. */
  lemma {:induction false} ListingFromPages(pages: seq<Page>, key: string)
    requires key in Listing(pages)
    ensures exists i :: 0 <= i < |pages| && key in PageKeys(pages[i])
    decreases |pages|
  {
    var init := pages[..|pages| - 1];
    if key !in PageKeys(pages[|pages| - 1]) {
      ListingFromPages(init, key);
      var i :| 0 <= i < |init| && key in PageKeys(init[i]);
      assert pages[i] == init[i];
    }
  }

  /**
   * When the service lists only keys under the prefix, every returned key
   * starts with the prefix.
   */
  lemma ReturnedUnderPrefix(pages: seq<Page>, prefix: string, key: string)
    requires forall i, k :: 0 <= i < |pages| && k in PageKeys(pages[i]) ==> prefix <= k
    requires key in ImageKeys(Listing(pages))
    ensures prefix <= key && IsImage(key)
  {
    ListedExactly(pages, key);
    ListingFromPages(pages, key);
  }

  /** A page without `Contents` adds nothing to the listing. */
  lemma EmptyPageIgnored(pages: seq<Page>)
    ensures Listing(pages + [Page(None)]) == Listing(pages)
  {
    assert (pages + [Page(None)])[..|pages|] == pages;
  }
}
