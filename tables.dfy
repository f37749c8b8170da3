/**
 * The two constant tables of the downloader: the image sizes/types the
 * image server offers, and the capture fields that can name a file.
 */
module Tables {
  import opened Wrappers

  /** One entry of the `sizes` table. */
  datatype SizeEntry = SizeEntry(code: string, extension: string, isDefault: bool, publicDomainOnly: bool)

  /** One entry of the `filenameFields` table. */
  datatype FieldEntry = FieldEntry(name: string, isDefault: bool)

  const Sizes: seq<SizeEntry> := [
    SizeEntry("b", "jpeg", false, false),
    SizeEntry("f", "jpeg", false, false),
    SizeEntry("t", "gif", false, false),
    SizeEntry("r", "jpeg", false, false),
    SizeEntry("w", "jpeg", false, false),
    SizeEntry("q", "jpeg", true, true),
    SizeEntry("v", "jpeg", false, true),
    SizeEntry("g", "jpeg", false, true),
    SizeEntry("T", "tiff", false, true)
  ]

  const FilenameFields: seq<FieldEntry> := [
    FieldEntry("image", false),
    FieldEntry("uuid", true),
    FieldEntry("page", false)
  ]

  /** The size code that selects the full-size TIFF. */
  const TiffCode := "T"

  // ---------------------------------------------------------------------
  // the two array operations the program applies to both tables

  /** `entries.map(key)`. */
  function Keys<T>(entries: seq<T>, key: T -> string): (keys: seq<string>)
    ensures |keys| == |entries|
    ensures forall i :: 0 <= i < |entries| ==> keys[i] == key(entries[i])
  {
    seq(|entries|, i requires 0 <= i < |entries| => key(entries[i]))
  }

  /** `entries.filter(marked)`: the marked entries, in order. */
  function Marked<T>(entries: seq<T>, marked: T -> bool): (ms: seq<T>)
    ensures forall e :: e in ms ==> e in entries && marked(e)
    ensures forall e :: e in entries && marked(e) ==> e in ms
  {
    if entries == [] then []
    else (if marked(entries[0]) then [entries[0]] else []) + Marked(entries[1..], marked)
  }

  /** A table whose only marked entry is at `k` filters down to that entry. */
  lemma {:induction false} MarkedSingle<T>(entries: seq<T>, marked: T -> bool, k: nat)
    requires k < |entries| && marked(entries[k])
    requires forall i :: 0 <= i < |entries| && i != k ==> !marked(entries[i])
    ensures Marked(entries, marked) == [entries[k]]
  {
    if k == 0 {
      MarkedNone(entries[1..], marked);
    } else {
      MarkedSingle(entries[1..], marked, k - 1);
    }
  }

  lemma {:induction false} MarkedNone<T>(entries: seq<T>, marked: T -> bool)
    requires forall i :: 0 <= i < |entries| ==> !marked(entries[i])
    ensures Marked(entries, marked) == []
  {
    if entries != [] {
      MarkedNone(entries[1..], marked);
    }
  }

  // ---------------------------------------------------------------------
  // sizes

  function SizeCode(e: SizeEntry): string
  {
    e.code
  }

  function SizeIsDefault(e: SizeEntry): bool
  {
    e.isDefault
  }

  /** The size code is listed in the table. */
  predicate IsSizeCode(code: string)
  {
    code in Keys(Sizes, SizeCode)
  }

  /** `sizes.filter((size) => size.type === code)[0]`, `None` for `undefined`. */
  function FindSize(entries: seq<SizeEntry>, code: string): (r: Option<SizeEntry>)
    ensures r.Some? <==> code in Keys(entries, SizeCode)
    ensures r.Some? ==> r.value in entries && r.value.code == code
  {
    if entries == [] then None
    else if entries[0].code == code then Some(entries[0])
    else
      assert Keys(entries, SizeCode) == [entries[0].code] + Keys(entries[1..], SizeCode);
      FindSize(entries[1..], code)
  }

  /** The table entry of a listed size code. */
  function LookupSize(code: string): (e: SizeEntry)
    requires IsSizeCode(code)
    ensures e in Sizes && e.code == code
  {
    FindSize(Sizes, code).value
  }

  /** The file extension of a listed size code. */
  function Extension(code: string): string
    requires IsSizeCode(code)
  {
    LookupSize(code).extension
  }

  /** The listed codes, in table order. */
  lemma SizeCodesListed()
    ensures Keys(Sizes, SizeCode) == ["b", "f", "t", "r", "w", "q", "v", "g", "T"]
  {
  }

  /** "T" is a TIFF, "t" a GIF, and every other listed size a JPEG. */
  lemma ExtensionOf(code: string)
    requires IsSizeCode(code)
    ensures Extension(code) == if code == "T" then "tiff" else if code == "t" then "gif" else "jpeg"
  {
    var e := LookupSize(code);
    var i :| 0 <= i < |Sizes| && Sizes[i] == e;
    assert i in {0, 1, 2, 3, 4, 5, 6, 7, 8};
  }

  /** `sizes.filter((size) => size.default)[0].type`, the default shown in the help text. */
  function DefaultSize(): (code: string)
    ensures IsSizeCode(code)
  {
    DefaultSizeEntries();
    SizeCodesListed();
    Marked(Sizes, SizeIsDefault)[0].code
  }

  /** The only size marked default is q. */
  lemma DefaultSizeEntries()
    ensures Marked(Sizes, SizeIsDefault) == [SizeEntry("q", "jpeg", true, true)]
  {
    MarkedSingle(Sizes, SizeIsDefault, 5);
  }

  // ---------------------------------------------------------------------
  // filename fields

  function FieldName(e: FieldEntry): string
  {
    e.name
  }

  function FieldIsDefault(e: FieldEntry): bool
  {
    e.isDefault
  }

  /** The field is listed in the table. */
  predicate IsFilenameField(name: string)
  {
    name in Keys(FilenameFields, FieldName)
  }

  lemma FieldNamesListed()
    ensures Keys(FilenameFields, FieldName) == ["image", "uuid", "page"]
  {
  }

  /** `filenameFields.filter((field) => field.default)[0].filename`. */
  function DefaultFilename(): (name: string)
    ensures IsFilenameField(name)
  {
    DefaultFieldEntries();
    FieldNamesListed();
    Marked(FilenameFields, FieldIsDefault)[0].name
  }

  /** The only field marked default is uuid. */
  lemma DefaultFieldEntries()
    ensures Marked(FilenameFields, FieldIsDefault) == [FieldEntry("uuid", true)]
  {
    MarkedSingle(FilenameFields, FieldIsDefault, 1);
  }

  /** Each table has exactly one default entry: size "q" and field "uuid". */
  lemma DefaultsUnique()
    ensures |Marked(Sizes, SizeIsDefault)| == 1 && |Marked(FilenameFields, FieldIsDefault)| == 1
    ensures DefaultSize() == "q" && DefaultFilename() == "uuid"
  {
    DefaultSizeEntries();
    DefaultFieldEntries();
  }
}
