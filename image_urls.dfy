/** The two URL helpers: rebuilding an image URL, and finding a link of a given size. */
module ImageUrls {
  import opened Wrappers
  import opened Text

  /** The image server's address, up to the image ID. */
  const ImageBase := "http://images.nypl.org/index.php?id="

  /** The query parameter that carries the size code, as it appears in an image link. */
  function TypeParam(size: string): string
  {
    "&t=" + size
  }

  /** `imageUrl(imageId, size)`: the server address, the image ID, then the size parameter. */
  function ImageUrl(imageId: string, size: string): (url: string)
    ensures |url| == |ImageBase| + |imageId| + |TypeParam(size)|
    ensures url[..|ImageBase|] == ImageBase
    ensures url[|ImageBase|..|ImageBase| + |imageId|] == imageId
    ensures url[|ImageBase| + |imageId|..] == TypeParam(size)
  {
    ImageBase + imageId + TypeParam(size)
  }

  /** The index of the first link in `urls` that contains `marker`, if any. */
  ghost predicate IsFirstMatch(urls: seq<string>, marker: string, k: int)
  {
    0 <= k < |urls| && Contains(urls[k], marker)
    && forall j :: 0 <= j < k ==> !Contains(urls[j], marker)
  }

  /**
   * `imageUrlsContainType(urls, size)`: the first link that contains "&t=" + size,
   * `None` (JavaScript's `undefined`) when no link does.
   */
  function ImageUrlsContainType(urls: seq<string>, size: string): (r: Option<string>)
    ensures r.None? <==> forall j :: 0 <= j < |urls| ==> !Contains(urls[j], TypeParam(size))
    ensures r.Some? ==> r.value in urls && Contains(r.value, TypeParam(size))
    ensures r.Some? ==> exists k :: IsFirstMatch(urls, TypeParam(size), k) && urls[k] == r.value
  {
    if urls == [] then
      None
    else if Contains(urls[0], TypeParam(size)) then
      assert IsFirstMatch(urls, TypeParam(size), 0);
      Some(urls[0])
    else
      var r := ImageUrlsContainType(urls[1..], size);
      FirstMatchShift(urls, TypeParam(size));
      r
  }

  /** When the first link does not match, the first match is the one after it in `urls[1..]`. */
  lemma FirstMatchShift(urls: seq<string>, marker: string)
    requires urls != [] && !Contains(urls[0], marker)
    ensures forall k :: IsFirstMatch(urls[1..], marker, k) ==> IsFirstMatch(urls, marker, k + 1)
  {
    forall k | IsFirstMatch(urls[1..], marker, k)
      ensures IsFirstMatch(urls, marker, k + 1)
    {
      forall j | 0 <= j < k + 1
        ensures !Contains(urls[j], marker)
      {
        if j > 0 { assert urls[j] == urls[1..][j - 1]; }
      }
    }
  }

  /** A URL that `ImageUrl` rebuilds carries its own size parameter, so it would be found. */
  lemma ImageUrlHasType(imageId: string, size: string)
    ensures Contains(ImageUrl(imageId, size), TypeParam(size))
    ensures ImageUrlsContainType([ImageUrl(imageId, size)], size) == Some(ImageUrl(imageId, size))
  {
    ContainsSuffix(ImageBase + imageId, TypeParam(size));
  }

  /** The image ID and size can be read back from a rebuilt URL. */
  lemma ImageUrlInjective(id1: string, size1: string, id2: string, size2: string)
    requires |size1| == |size2|
    requires ImageUrl(id1, size1) == ImageUrl(id2, size2)
    ensures id1 == id2 && size1 == size2
  {
    var u := ImageUrl(id1, size1);
    assert |id1| == |id2|;
    assert TypeParam(size1)[3..] == size1;
    assert TypeParam(size2)[3..] == size2;
  }
}
