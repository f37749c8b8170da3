/**
 * The capture pass: for each capture the catalog returns, derive the URL to
 * fetch and the file to write, stopping at the first capture that offers no
 * image of the chosen size.
 */
module Captures {
  import opened Wrappers
  import opened Text
  import opened Tables
  import opened ImageUrls

  /** The fields of a capture record that the downloader reads. */
  datatype Capture = Capture(
    uuid: string,
    imageId: string,
    sortString: string,
    highResLink: Option<string>,
    imageLinks: seq<string>)

  /** One file to fetch: where from, and where to. */
  datatype Download = Download(url: string, destination: string)

  /** The errors the capture pass throws. */
  datatype CaptureError = TiffUnavailable(uuid: string) | SizeUnavailable(code: string, uuid: string)

  /** The words both thrown messages end with, before the capture's UUID. */
  const NotAvailable := " not available for this capture: "

  /**
   * The text of the error a failing capture throws: "TIFF", or the size code
   * in quotes, then that it is not available for the capture, then its UUID.
   */
  function Message(e: CaptureError): (m: string)
    ensures e.TiffUnavailable? ==> m == "TIFF" + NotAvailable + e.uuid
    ensures e.SizeUnavailable? ==> m == "Image size '" + e.code + "'" + NotAvailable + e.uuid
    ensures e.SizeUnavailable? ==> Contains(m, "'" + e.code + "'")
    ensures |m| > |e.uuid| + 4 && m[|m| - |e.uuid|..] == e.uuid
    ensures e.TiffUnavailable? <==> m[..4] == "TIFF"
  {
    match e
    case TiffUnavailable(uuid) =>
      var m := "TIFF" + NotAvailable + uuid;
      assert m[..4] == "TIFF" && m[|m| - |uuid|..] == uuid;
      m
    case SizeUnavailable(code, uuid) =>
      var m := "Image size '" + code + "'" + NotAvailable + uuid;
      assert m == "Image size " + ("'" + code + "'") + (NotAvailable + uuid);
      ContainsMiddle("Image size ", "'" + code + "'", NotAvailable + uuid);
      assert m[..4] == "Imag" && m[0] == 'I';
      assert m[|m| - |uuid|..] == uuid;
      m
  }

  /**
   * The page of a capture as `${page}` writes it: `parseInt` of the last
   * "|"-separated part of its sort string, in decimal, or "NaN".
   */
  function PageLabel(sortString: string): (shown: string)
    ensures var page := ParseInt(LastSegment(sortString, '|'));
      && (page.None? ==> shown == "NaN")
      && (page.Some? && page.value >= 0 ==> shown == NatString(page.value))
      && (page.Some? && page.value < 0 ==> shown == "-" + NatString(-page.value))
    ensures shown == "NaN" <==> ParseInt(LastSegment(sortString, '|')).None?
    ensures ParseInt(LastSegment(sortString, '|')).Some? ==> ParseInt(shown) == ParseInt(LastSegment(sortString, '|'))
  {
    var page := ParseInt(LastSegment(sortString, '|'));
    if page.Some? then
      ParseIntString(page.value);
      NumberString(page)
    else
      NumberString(page)
  }

  /** The text after the last "|" is the last segment. */
  lemma LastSegmentAfterSeparator(prefix: string, tail: string)
    requires '|' !in tail
    ensures LastSegment(prefix + "|" + tail, '|') == tail
  {
    var s := prefix + "|" + tail;
    var seg := LastSegment(s, '|');
    assert s[|prefix|] == '|';
    assert s[|s| - |tail|..] == tail;
  }

  /** A sort string that ends in "|" and decimal digits is labelled with the number those digits denote. */
  lemma PageLabelOfDigits(prefix: string, digits: string)
    requires |digits| >= 1 && forall i :: 0 <= i < |digits| ==> '0' <= digits[i] <= '9'
    ensures PageLabel(prefix + "|" + digits) == NatString(DigitsValue(digits, false))
  {
    LastSegmentAfterSeparator(prefix, digits);
    assert digits + "" == digits;
    ParseIntStopsAtNonDigit(digits, "");
  }

  /** The value that names the file: the `filenames` object (image ID, UUID, page) indexed by the field. */
  function FieldValue(c: Capture, field: string): (v: string)
    requires IsFilenameField(field)
    ensures field == "image" ==> v == c.imageId
    ensures field == "uuid" ==> v == c.uuid
    ensures field == "page" ==> v == PageLabel(c.sortString)
  {
    if field == "image" then c.imageId
    else if field == "uuid" then c.uuid
    else PageLabel(c.sortString)
  }

  /** `path.join(dir, name)`, without normalisation: one "/" between the two unless `dir` is empty or ends in "/". */
  function JoinPath(dir: string, name: string): (p: string)
    ensures |p| >= |dir| + |name| && p[..|dir|] == dir && p[|p| - |name|..] == name
    ensures |p| == |dir| + |name| || (p[|dir|] == '/' && |p| == |dir| + |name| + 1)
    ensures dir == "" ==> p == name
    ensures dir != "" && dir[|dir| - 1] == '/' ==> p == dir + name
    ensures dir != "" && dir[|dir| - 1] != '/' ==> p == dir + "/" + name
  {
    if dir == "" then name
    else if dir[|dir| - 1] == '/' then dir + name
    else dir + "/" + name
  }

  /**
   * The mapping applied to one capture: the URL (the high-resolution link for
   * a TIFF, otherwise the rebuilt image URL, provided some image link offers
   * the size) and the destination `<output>/<field value>.<extension>`.
   */
  function DeriveDownload(c: Capture, code: string, field: string, output: string): (r: Result<Download, CaptureError>)
    requires IsSizeCode(code) && IsFilenameField(field)
    ensures r.Failure? ==> r.error.uuid == c.uuid
    ensures r.Failure? ==> (r.error.TiffUnavailable? <==> code == TiffCode)
    ensures r.Failure? && r.error.SizeUnavailable? ==> r.error.code == code
  {
    match SelectUrl(c, code)
    case Failure(e) => Failure(e)
    case Success(u) => Success(Download(u, Destination(c, code, field, output)))
  }

  /**
   * What the mapping promises: a TIFF comes from the high-resolution link and
   * fails without one; any other size fails iff no image link carries its
   * size parameter, and otherwise uses the rebuilt URL, not the matched link;
   * the destination is named after the chosen field with the size's extension.
   */
  lemma DeriveDownloadSpec(c: Capture, code: string, field: string, output: string)
    requires IsSizeCode(code) && IsFilenameField(field)
    ensures var r := DeriveDownload(c, code, field, output);
      && (code == TiffCode ==>
            && (r.Success? <==> Truthy(c.highResLink))
            && (r.Success? ==> r.value.url == c.highResLink.value)
            && (r.Failure? ==> r.error == TiffUnavailable(c.uuid)))
      && (code != TiffCode ==>
            && (r.Success? <==> exists j :: 0 <= j < |c.imageLinks| && Contains(c.imageLinks[j], TypeParam(code)))
            && (r.Success? ==> r.value.url == ImageUrl(c.imageId, code))
            && (r.Failure? ==> r.error == SizeUnavailable(code, c.uuid)))
      && (r.Success? ==>
            var ext := Extension(code);
            && (field == "image" ==> r.value.destination == JoinPath(output, c.imageId + "." + ext))
            && (field == "uuid" ==> r.value.destination == JoinPath(output, c.uuid + "." + ext))
            && (field == "page" ==> r.value.destination == JoinPath(output, PageLabel(c.sortString) + "." + ext)))
  {
    var found := ImageUrlsContainType(c.imageLinks, code);
  }

  /** The URL branch of the mapping, which throws when the capture lacks the size. */
  function SelectUrl(c: Capture, code: string): (r: Result<string, CaptureError>)
    requires IsSizeCode(code)
    ensures code == TiffCode ==>
      && (r.Success? <==> Truthy(c.highResLink))
      && (r.Success? ==> r.value == c.highResLink.value)
      && (r.Failure? ==> r.error == TiffUnavailable(c.uuid))
    ensures code != TiffCode ==>
      && (r.Success? <==> exists j :: 0 <= j < |c.imageLinks| && Contains(c.imageLinks[j], TypeParam(code)))
      && (r.Success? ==> r.value == ImageUrl(c.imageId, code))
      && (r.Failure? ==> r.error == SizeUnavailable(code, c.uuid))
  {
    var size := LookupSize(code);
    if code == TiffCode then
      if !Truthy(c.highResLink) then Failure(TiffUnavailable(c.uuid)) else Success(c.highResLink.value)
    else if ImageUrlsContainType(c.imageLinks, size.code).None? then
      Failure(SizeUnavailable(size.code, c.uuid))
    else
      Success(ImageUrl(c.imageId, size.code))
  }

  /** `path.join(argv.output, `${filename}.${size.extension}`)`. */
  function Destination(c: Capture, code: string, field: string, output: string): string
    requires IsSizeCode(code) && IsFilenameField(field)
  {
    JoinPath(output, FieldValue(c, field) + "." + LookupSize(code).extension)
  }

  /**
   * The destination is a file in the output directory, named after the chosen
   * field, with the extension that goes with the size: tiff, gif or jpeg.
   */
  lemma DestinationOf(c: Capture, code: string, field: string, output: string)
    requires IsSizeCode(code) && IsFilenameField(field)
    ensures var ext := if code == TiffCode then "tiff" else if code == "t" then "gif" else "jpeg";
      && (field == "image" ==> Destination(c, code, field, output) == JoinPath(output, c.imageId + "." + ext))
      && (field == "uuid" ==> Destination(c, code, field, output) == JoinPath(output, c.uuid + "." + ext))
      && (field == "page" ==> Destination(c, code, field, output) == JoinPath(output, PageLabel(c.sortString) + "." + ext))
  {
    ExtensionOf(code);
  }

  /** The mapping applied to every capture, as if none stopped the run. */
  function DeriveEach(captures: seq<Capture>, code: string, field: string, output: string): (rs: seq<Result<Download, CaptureError>>)
    requires IsSizeCode(code) && IsFilenameField(field)
    ensures |rs| == |captures|
    ensures forall i :: 0 <= i < |captures| ==> rs[i] == DeriveDownload(captures[i], code, field, output)
  {
    seq(|captures|, i requires 0 <= i < |captures| => DeriveDownload(captures[i], code, field, output))
  }

  /**
   * The results consumed in order until the first failure: the downloads
   * before it, and its error, if any. This is what the stream does with a
   * mapper that throws: the throw ends the run.
   */
  function UntilFailure(rs: seq<Result<Download, CaptureError>>): (run: (seq<Download>, Option<CaptureError>))
  {
    if rs == [] then ([], None)
    else
      match rs[0]
      case Failure(e) => ([], Some(e))
      case Success(d) =>
        var rest := UntilFailure(rs[1..]);
        ([d] + rest.0, rest.1)
  }

  /** Consuming one more result after a prefix that had no failure. */
  lemma {:induction false} UntilFailureSnoc(rs: seq<Result<Download, CaptureError>>, r: Result<Download, CaptureError>)
    requires UntilFailure(rs).1.None?
    ensures UntilFailure(rs + [r]) ==
      match r
      case Failure(e) => (UntilFailure(rs).0, Some(e))
      case Success(d) => (UntilFailure(rs).0 + [d], None)
  {
    if rs == [] {
      assert rs + [r] == [r] && [r][1..] == [];
      match r
      case Failure(e) =>
      case Success(d) => assert [d] + [] == [] + [d];
    } else {
      assert (rs + [r])[0] == rs[0] && rs[0].Success?;
      assert (rs + [r])[1..] == rs[1..] + [r];
      UntilFailureSnoc(rs[1..], r);
      var d0 := rs[0].value;
      var rest := UntilFailure(rs[1..]);
      assert UntilFailure(rs) == ([d0] + rest.0, rest.1);
      match r
      case Failure(e) =>
      case Success(d) =>
        assert [d0] + (rest.0 + [d]) == ([d0] + rest.0) + [d];
    }
  }

  /** Consuming result `i` after `i` results without a failure: a failure ends the run, a success extends it. */
  lemma UntilFailureStep(rs: seq<Result<Download, CaptureError>>, i: nat)
    requires i < |rs| && UntilFailure(rs[..i]).1.None?
    ensures rs[i].Failure? ==> UntilFailure(rs) == (UntilFailure(rs[..i]).0, Some(rs[i].error))
    ensures rs[i].Success? ==> UntilFailure(rs[..i + 1]) == (UntilFailure(rs[..i]).0 + [rs[i].value], None)
  {
    assert rs[..i + 1] == rs[..i] + [rs[i]];
    UntilFailureSnoc(rs[..i], rs[i]);
    if rs[i].Failure? {
      UntilFailureStops(rs, i + 1);
    }
  }

  /** Once a prefix has failed, the results after it change nothing. */
  lemma {:induction false} UntilFailureStops(rs: seq<Result<Download, CaptureError>>, n: nat)
    requires n <= |rs| && UntilFailure(rs[..n]).1.Some?
    ensures UntilFailure(rs) == UntilFailure(rs[..n])
  {
    if n < |rs| {
      assert rs[..n] != [] && rs[..n][0] == rs[0];
      if rs[0].Success? {
        assert rs[..n][1..] == rs[1..][..n - 1];
        UntilFailureStops(rs[1..], n - 1);
      }
    } else {
      assert rs[..n] == rs;
    }
  }

  /**
   * One download per result, in order, for every result before the first
   * failure; the run fails iff some result is a failure, and then with the
   * first failure's error.
   */
  lemma {:induction false} UntilFailureInOrder(rs: seq<Result<Download, CaptureError>>)
    ensures var (downloads, failure) := UntilFailure(rs);
      && |downloads| <= |rs|
      && (forall i :: 0 <= i < |downloads| ==> rs[i] == Success(downloads[i]))
      && (failure.None? <==> |downloads| == |rs|)
      && (failure.Some? ==> rs[|downloads|] == Failure(failure.value))
  {
    if rs != [] {
      UntilFailureInOrder(rs[1..]);
      var rest := UntilFailure(rs[1..]);
      match rs[0]
      case Failure(e) =>
      case Success(d) =>
        var downloads := [d] + rest.0;
        forall i | 0 <= i < |downloads|
          ensures rs[i] == Success(downloads[i])
        {
          if i > 0 { assert rs[i] == rs[1..][i - 1]; }
        }
        if rest.1.Some? {
          assert rs[|downloads|] == rs[1..][|rest.0|];
        }
    }
  }

  /** The run over all captures, specified: the mapping consumed in order until the first failure. */
  function DeriveAll(captures: seq<Capture>, code: string, field: string, output: string): (seq<Download>, Option<CaptureError>)
    requires IsSizeCode(code) && IsFilenameField(field)
  {
    UntilFailure(DeriveEach(captures, code, field, output))
  }

  /**
   * The run yields one download per capture, in order, for every capture
   * before the first failing one; it fails iff some capture fails, and then
   * with that capture's error.
   */
  lemma DeriveAllInOrder(captures: seq<Capture>, code: string, field: string, output: string)
    requires IsSizeCode(code) && IsFilenameField(field)
    ensures var (downloads, failure) := DeriveAll(captures, code, field, output);
      && |downloads| <= |captures|
      && (forall i :: 0 <= i < |downloads| ==> DeriveDownload(captures[i], code, field, output) == Success(downloads[i]))
      && (failure.None? <==> |downloads| == |captures|)
      && (failure.Some? ==> DeriveDownload(captures[|downloads|], code, field, output) == Failure(failure.value))
  {
    UntilFailureInOrder(DeriveEach(captures, code, field, output));
  }

  /**
   * The pass over all captures, in order, with the progress counter: one
   * download per capture until the first capture that fails, which stops the
   * run; `count` is the number of captures announced as downloading.
   */
  method DownloadAll(captures: seq<Capture>, code: string, field: string, output: string)
    returns (downloads: seq<Download>, count: nat, failure: Option<CaptureError>)
    requires IsSizeCode(code) && IsFilenameField(field)
    ensures (downloads, failure) == DeriveAll(captures, code, field, output)
    ensures count == |downloads|
  {
    ghost var rs := DeriveEach(captures, code, field, output);
    downloads := [];
    count := 0;
    failure := None;
    var i := 0;
    while i < |captures|
      invariant 0 <= i <= |captures|
      invariant count == |downloads|
      invariant UntilFailure(rs[..i]) == (downloads, None)
    {
      var r := DeriveDownload(captures[i], code, field, output);
      UntilFailureStep(rs, i);
      if r.Failure? {
        failure := Some(r.error);
        return;
      }
      count := count + 1;
      downloads := downloads + [r.value];
      i := i + 1;
    }
    assert rs[..i] == rs;
  }
}
