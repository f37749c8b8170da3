# dc-download in Dafny

`dc-download` is a command-line tool that downloads every image of one item
in the NYPL Digital Collections. It takes the item's UUID, an API token (`-t`,
or `$DIGITAL_COLLECTIONS_TOKEN`), an image size code (`-s`, default `q`), a
filename field (`-f`, default `uuid`) and an output directory (`-o`, default
`./`). It validates these options, printing the help text and exiting when it
must. Then it asks the catalog for the item's captures. For each capture it
works out an image URL and a destination file, and it downloads the files one
after another.

This project models that program and proves properties of the model:

- `Tables` holds the size table (nine codes, each with an extension and a
  public-domain flag) and the filename-field table, each with one default.
- `Options` is the validation block. It gives the ordered error messages, the
  help flag and the exit decision (continue, or exit with status 0 or 1).
- `ImageUrls` holds the two URL helpers, `imageUrl` and `imageUrlsContainType`.
- `Captures` is the mapping from one capture to a download. Each failure is a
  `Result` error. It also has the pass over all captures with its progress
  counter. That pass stops at the first capture that fails.
- `Text` models the JavaScript built-ins the program depends on: `includes`,
  `split`, `parseInt` with no radix, and number-to-string conversion.
- `Cli.Run` puts validation and the capture pass together.

The catalog's answer is a parameter of the model (a sequence of `Capture`
values), and so is the token environment variable. The download of each file
is not modelled. The whole run is described by the sequence of `Download`
values (URL and destination) it would fetch, in order.

## Model

| member | source | states |
|---|---|---|
| Tables.SizeCodesListed | index.js:47-103 | the size table lists the codes b, f, t, r, w, q, v, g, T, in this order |
| Tables.FindSize | index.js:193 | looking a code up in the size table finds an entry iff the code is listed, and the entry found has that code |
| Tables.LookupSize | index.js:193 | a listed size code has an entry in the table, with that code |
| Tables.ExtensionOf | index.js:47-103 | "T" is saved as tiff, "t" as gif, and every other listed size as jpeg |
| Tables.Keys | index.js:118 | mapping a table to one field of its entries keeps one value per entry, at the same index |
| Tables.Marked | index.js:126-127 | filtering a table by its default mark keeps exactly the marked entries |
| Tables.MarkedSingle | index.js:126-127 | a table with a single marked entry filters down to just that entry |
| Tables.DefaultSize | index.js:126 | the default size shown in the help text is a listed size code |
| Tables.DefaultSizeEntries | index.js:78-84 | the only size marked default is q (jpeg, public domain only) |
| Tables.DefaultsUnique | index.js:126-127 | each table has exactly one default entry: size "q" and field "uuid" |
| Tables.FieldNamesListed | index.js:31-45 | the filename fields are image, uuid and page, in this order |
| Tables.DefaultFilename | index.js:127 | the default field shown in the help text is a listed field |
| Tables.DefaultFieldEntries | index.js:36-40 | the only field marked default is uuid |
| Options.DefaultsAgree | index.js:11-16 | the option defaults `q` and `uuid` are the defaults the tables mark, and both pass validation |
| Options.EffectiveToken | index.js:173-176 | the token used is set iff `--token` or the environment variable is set (non-empty); it is `--token` when that is set, and the environment variable otherwise |
| Options.ErrorsExactly | index.js:112-131 | each of the four messages is in the errors iff its check fails (more than one item, unknown size, unknown field, no token); no other message appears; they appear in the order the checks run |
| Options.CheckListExactly | index.js:112-131 | for any outcome of the four checks: each message is present iff its check failed, and the messages are in check order |
| Options.Errors | index.js:105-131 | the errors are empty iff every check passes: at most one item, a listed size and field, and a token from `--token` or the environment |
| Options.Decide | index.js:133-156 | the program goes on iff help was not asked for (by `--help` or by giving no item) and every check passes; it exits with status 0 iff help was asked for and every check passes, and with status 1 iff some check fails |
| Options.RunnableContinues | index.js:108-156 | with no `--help`, exactly one item, a listed size and field, and a token set, the program goes on |
| Options.DefaultsRun | index.js:11-16 | with one item and every other option left at its default, the program goes on iff a token is set |
| Options.ContinueMeansRunnable | index.js:112-131 | when the program goes on, there is exactly one item, the size and field are listed, and a token is set |
| Options.Validate | index.js:105-156 | the validation block returns the errors in check order, sets the help flag iff `--help` or no item, and decides to exit iff help or errors, with status 1 iff there are errors |
| ImageUrls.ImageUrl | index.js:169-171 | the URL is the image server address, then the image ID, then `&t=` and the size |
| ImageUrls.ImageUrlHasType | index.js:165-171 | a rebuilt URL contains its own size parameter, so a search for that size finds it |
| ImageUrls.ImageUrlInjective | index.js:169-171 | for size codes of equal length, the image ID and the size can be read back from a rebuilt URL |
| ImageUrls.ImageUrlsContainType | index.js:165-167 | the result is absent iff no link contains `&t=<size>`; otherwise it is the first link that does |
| Text.Contains | index.js:166 | `includes` holds iff the substring occurs at some index |
| Text.ContainsSuffix | index.js:166 | a string includes any suffix of itself |
| Text.Split | index.js:183 | split gives at least one part, no part contains the separator, and there is exactly one part iff the separator does not occur |
| Text.SplitJoin | index.js:183 | joining the parts of a split with the separator gives back the original string |
| Text.LastSegment | index.js:183-184 | the last part of a split is a suffix of the string with no separator in it; it is either the whole string or the text after the last separator |
| Text.TrimStart | index.js:184 | `parseInt` skips exactly the leading white space |
| Text.DigitPrefix | index.js:184 | `parseInt` reads the longest run of leading digits |
| Text.NatString | index.js:217 | a page number is written in decimal digits, with no leading zeros |
| Text.ParseInt | index.js:184 | `parseInt` of a blank string is NaN; so is one that starts with a character other than white space, a sign or a digit; one that starts with a decimal digit (and not with 0x) gives a non-negative number |
| Text.ParseIntString | index.js:184 | `parseInt` of the decimal numeral of an integer gives the integer back |
| Text.ParseIntStopsAtNonDigit | index.js:184 | `parseInt` of decimal digits followed by a non-digit reads just the digits |
| Text.NatStringValue | index.js:217 | the decimal numeral of n denotes n |
| Captures.LastSegmentAfterSeparator | index.js:183-184 | when `tail` has no vertical bar, the last part of prefix, a vertical bar, then `tail` is `tail` |
| Captures.PageLabel | index.js:183-189 | the page is `parseInt` of the last part of the sort string, written in decimal with no leading zeros (with a leading "-" when negative), or "NaN" exactly when `parseInt` gives NaN; `parseInt` of the page gives the number back |
| Captures.PageLabelOfDigits | index.js:183-190 | a sort string ending in a vertical bar and decimal digits gives the page number those digits denote, with leading zeros dropped |
| Captures.FieldValue | index.js:186-190 | the file is named after the image ID, the UUID or the page, as the field says |
| Captures.DestinationOf | index.js:211-217 | the destination is the output directory joined with the chosen field's value, a dot, and tiff for T, gif for t, jpeg otherwise |
| Captures.Message | index.js:196-206 | the missing-TIFF text is "TIFF not available for this capture: " then the UUID; the missing-size text is "Image size '", the size code, "' not available for this capture: ", then the UUID, so it names the size code in quotes; both end with the UUID, and only the first starts with "TIFF" |
| Captures.SelectUrl | index.js:192-209 | for T: a URL iff the capture has a high-resolution link, which is the URL, otherwise the TIFF error; for other sizes: a URL iff some image link contains `&t=<size>`, and then the rebuilt image URL, otherwise the size error naming that size |
| Captures.DeriveDownload | index.js:180-219 | a failing capture's error names that capture's UUID; it is the TIFF error exactly when the size is T, and a size error names the requested size |
| Captures.JoinPath | index.js:217 | the destination starts with the output directory and ends with the file name, with nothing between them when the directory is empty or already ends in "/", and exactly one "/" otherwise |
| Captures.DeriveDownloadSpec | index.js:180-219 | for "T": success iff the capture has a high-resolution link, which is then the URL, and otherwise the TIFF error; for other sizes: success iff some image link contains `&t=<size>`, then the URL is the rebuilt image URL (not the matched link), and otherwise the size error; the destination is `<output>/<image ID, UUID or page>.<extension>` |
| Captures.UntilFailureStep | index.js:220-223 | after i results without a failure, result i either ends the run with its error or adds its download at the end |
| Captures.UntilFailureSnoc | index.js:220-223 | after a prefix with no failure, one more result either adds its download at the end or stops with its error |
| Captures.UntilFailureStops | index.js:220-223 | once a failure has been reached, later captures change nothing |
| Captures.UntilFailureInOrder | index.js:220-223 | the downloads are the successes before the first failure, in order; the run fails iff some result failed, and then with the first failure |
| Captures.DeriveAllInOrder | index.js:179-223 | the run downloads capture i's file for every capture before the first failing one, in order; it fails iff some capture fails, and then with that capture's error |
| Captures.DownloadAll | index.js:178-223 | the pass over the captures produces exactly the specified run, and the progress counter equals the number of downloads |
| Cli.Run | index.js:105-226 | the program exits iff validation says so, with that status and those errors; otherwise there was exactly one item, the size, field and token are valid, the catalog is queried with that item's UUID and the token, and the downloads and any failure are those of the specified run |

## Left out

- Argument parsing with minimist is not modelled. `Args` is the parsed result; minimist turning numeric-looking arguments into numbers, and repeated options into arrays, are not modelled.
- The help text's layout, the option and size descriptions, the coloured error output and the "Downloading image n" and "Done" lines are console output and are not modelled. Only the error messages, the help flag and the counter are.
- `process.exit` and `process.env` are not called. The exit is the `Exit` verdict, and the environment token is a parameter.
- The catalog query (the digital-collections client) and the HTTP download of each file (got, with fs write streams, run in series by highland) are network and file I/O. The captures are an input, and the run is the sequence of downloads it would fetch. A download that fails after it starts is not modelled.
- The unused `uuids` boolean and the unused `u` default are parsed but never read, so they are left out.
- The `pdOnly` flag is kept in the size table, but it only affects the help text.
- `capture.imageLinks.imageLink` is modelled as a list of strings. The catalog could send a single string or omit the field, and those shapes are not modelled.
- Captures.JoinPath: models `path.join` only as a join with one "/". It does not normalise "." or ".." segments or repeated slashes.
- Text.ParseInt: the digits are read as an unbounded integer. Rounding above 2^53 is not modelled.
- Text.NumberString: an integer is written in plain decimal. The exponent notation JavaScript uses from 10^21 upwards is not modelled.
- Text.ParseIntStopsAtNonDigit: requires that the character after the digits is not "x" or "X". This rules out the "0x" hexadecimal prefix even when the digits are longer than "0".
