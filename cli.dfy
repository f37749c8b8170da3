/**
 * The program as a whole: validate the command line, then query the catalog
 * for the item's captures and run the capture pass over what it returns.
 */
module Cli {
  import opened Wrappers
  import opened Text
  import opened Tables
  import opened Options
  import opened Captures

  /** The query sent to the catalog: the item's UUID and the API token. */
  datatype Query = Query(uuid: string, token: string)

  /** How a run ends. `Exited` prints the help text (after the errors, if any). */
  datatype Outcome =
    | Exited(status: int, errors: seq<string>)
    | Finished(query: Query, downloads: seq<Download>, count: nat)
    | Aborted(query: Query, downloads: seq<Download>, count: nat, error: CaptureError)

  /**
   * One run. `captures` stands for the catalog's answer to the query; the
   * downloads are the files fetched, in order.
   */
  method Run(a: Args, env: Option<string>, captures: seq<Capture>) returns (o: Outcome)
    ensures o.Exited? <==> Decide(a, env).Exit?
    ensures o.Exited? ==> o.status == Decide(a, env).status && o.errors == Errors(a, env)
    ensures !o.Exited? ==>
      && |a.items| == 1 && IsSizeCode(a.size) && IsFilenameField(a.filename)
      && Truthy(EffectiveToken(a, env))
      && o.query == Query(a.items[0], EffectiveToken(a, env).value)
      && (o.downloads, if o.Aborted? then Some(o.error) else None) == DeriveAll(captures, a.size, a.filename, a.output)
      && o.count == |o.downloads|
  {
    var errors, showHelp, verdict := Validate(a, env);
    if verdict.Exit? {
      return Exited(verdict.status, errors);
    }
    ContinueMeansRunnable(a, env);
    var query := Query(a.items[0], EffectiveToken(a, env).value);
    var downloads, count, failure := DownloadAll(captures, a.size, a.filename, a.output);
    if failure.Some? {
      o := Aborted(query, downloads, count, failure.value);
    } else {
      o := Finished(query, downloads, count);
    }
  }
}
