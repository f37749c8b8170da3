/**
 * Validation of the parsed command line: the ordered list of error
 * messages, whether the help text is shown, and whether the program exits
 * (and with which status) before any capture is fetched.
 */
module Options {
  import opened Wrappers
  import opened Text
  import opened Tables

  /** The command line after argument parsing: positional items and the named options. */
  datatype Args = Args(
    items: seq<string>,
    size: string,
    filename: string,
    output: string,
    help: bool,
    token: Option<string>)

  /** The values the argument parser supplies for options that are not given. */
  const DefaultSizeArg := "q"
  const DefaultOutputArg := "./"
  const DefaultFilenameArg := "uuid"

  const TooManyItems := "Please supply no more than one item"
  const SizeInvalid := "Image size invalid"
  const FilenameInvalid := "Filename field invalid"
  const TokenNotSet := "Digital Collections API access token not set"

  /** The order in which the checks run, and so the order of their messages. */
  const CheckOrder := [TooManyItems, SizeInvalid, FilenameInvalid, TokenNotSet]

  /** What happens after validation: the capture pass runs, or the process exits. */
  datatype Verdict = Continue | Exit(status: int)

  /** `argv.token || process.env.DIGITAL_COLLECTIONS_TOKEN`. */
  function EffectiveToken(a: Args, env: Option<string>): (t: Option<string>)
    ensures Truthy(t) <==> Truthy(a.token) || Truthy(env)
    ensures Truthy(a.token) ==> t == a.token
    ensures !Truthy(a.token) ==> t == env
  {
    if Truthy(a.token) then a.token else env
  }

  /** The checks of the validation block, as (failed, message), in the order they run. */
  function CheckList(tooMany: bool, badSize: bool, badField: bool, noToken: bool): seq<(bool, string)>
  {
    [(tooMany, TooManyItems), (badSize, SizeInvalid), (badField, FilenameInvalid), (noToken, TokenNotSet)]
  }

  /** The checks of the validation block applied to the arguments. */
  function Checks(a: Args, env: Option<string>): seq<(bool, string)>
  {
    CheckList(|a.items| > 1, !IsSizeCode(a.size), !IsFilenameField(a.filename), !Truthy(a.token) && !Truthy(env))
  }

  /** The messages of the failed checks, in order. */
  function FailedMessages(checks: seq<(bool, string)>): seq<string>
  {
    if checks == [] then []
    else (if checks[0].0 then [checks[0].1] else []) + FailedMessages(checks[1..])
  }

  /** Every check passes: at most one item, a listed size and field, and a token from somewhere. */
  predicate OptionsValid(a: Args, env: Option<string>)
  {
    |a.items| <= 1 && IsSizeCode(a.size) && IsFilenameField(a.filename) && (Truthy(a.token) || Truthy(env))
  }

  /** The `errors` array once the validation block has run: empty iff every check passes. */
  function Errors(a: Args, env: Option<string>): (e: seq<string>)
    ensures e == [] <==> OptionsValid(a, env)
  {
    CheckListInTurn(|a.items| > 1, !IsSizeCode(a.size), !IsFilenameField(a.filename), !Truthy(a.token) && !Truthy(env));
    FailedMessages(Checks(a, env))
  }

  /** The help text is asked for: `--help`, or no item at all. */
  predicate HelpRequested(a: Args)
  {
    a.help || |a.items| == 0
  }

  /**
   * The decision at the end of the validation block: the program goes on
   * iff help was not asked for and every check passes; it exits with status
   * 0 when only help was asked for, and with status 1 when a check fails.
   */
  function Decide(a: Args, env: Option<string>): (v: Verdict)
    ensures v == Continue <==> !HelpRequested(a) && OptionsValid(a, env)
    ensures v == Exit(0) <==> HelpRequested(a) && OptionsValid(a, env)
    ensures v == Exit(1) <==> !OptionsValid(a, env)
  {
    var errors := Errors(a, env);
    if HelpRequested(a) || |errors| > 0 then Exit(if |errors| > 0 then 1 else 0) else Continue
  }

  /** The message list a single check contributes. */
  function Pushed(failed: bool, message: string): seq<string>
  {
    if failed then [message] else []
  }

  lemma FailedMessagesStep(checks: seq<(bool, string)>, i: nat)
    requires i < |checks|
    ensures FailedMessages(checks[i..]) == Pushed(checks[i].0, checks[i].1) + FailedMessages(checks[i + 1..])
  {
    assert checks[i..][1..] == checks[i + 1..];
  }

  /** The four checks, each pushing its message in turn. */
  lemma CheckListInTurn(tooMany: bool, badSize: bool, badField: bool, noToken: bool)
    ensures FailedMessages(CheckList(tooMany, badSize, badField, noToken))
      == Pushed(tooMany, TooManyItems) + Pushed(badSize, SizeInvalid)
       + Pushed(badField, FilenameInvalid) + Pushed(noToken, TokenNotSet)
  {
    var c := CheckList(tooMany, badSize, badField, noToken);
    FailedMessagesStep(c, 3);
    FailedMessagesStep(c, 2);
    FailedMessagesStep(c, 1);
    FailedMessagesStep(c, 0);
    assert c[4..] == [];
    assert c[0..] == c;
  }

  lemma ErrorsInTurn(a: Args, env: Option<string>)
    ensures Errors(a, env)
      == Pushed(|a.items| > 1, TooManyItems)
       + Pushed(!IsSizeCode(a.size), SizeInvalid)
       + Pushed(!IsFilenameField(a.filename), FilenameInvalid)
       + Pushed(!Truthy(a.token) && !Truthy(env), TokenNotSet)
  {
    CheckListInTurn(|a.items| > 1, !IsSizeCode(a.size), !IsFilenameField(a.filename), !Truthy(a.token) && !Truthy(env));
  }

  /** The position of a message in `CheckOrder`. */
  function Rank(m: string): nat
  {
    if m == TooManyItems then 0
    else if m == SizeInvalid then 1
    else if m == FilenameInvalid then 2
    else 3
  }

  /** The messages of the four checks are distinct and ranked by their position. */
  lemma {:induction false} CheckListExactly(tooMany: bool, badSize: bool, badField: bool, noToken: bool)
    ensures var e := FailedMessages(CheckList(tooMany, badSize, badField, noToken));
      && (TooManyItems in e <==> tooMany)
      && (SizeInvalid in e <==> badSize)
      && (FilenameInvalid in e <==> badField)
      && (TokenNotSet in e <==> noToken)
      && (forall m :: m in e ==> m in CheckOrder)
      && (forall i, j :: 0 <= i < j < |e| ==> Rank(e[i]) < Rank(e[j]))
  {
    CheckListInTurn(tooMany, badSize, badField, noToken);
    var e := FailedMessages(CheckList(tooMany, badSize, badField, noToken));
    assert TooManyItems != SizeInvalid && TooManyItems != FilenameInvalid && TooManyItems != TokenNotSet;
    assert SizeInvalid != FilenameInvalid && SizeInvalid != TokenNotSet && FilenameInvalid != TokenNotSet;
    assert Rank(TooManyItems) == 0 && Rank(SizeInvalid) == 1 && Rank(FilenameInvalid) == 2 && Rank(TokenNotSet) == 3;
  }

  /**
   * Each message appears exactly when its condition holds, only messages of
   * the four checks appear, and they appear in the order the checks run.
   */
  lemma ErrorsExactly(a: Args, env: Option<string>)
    ensures TooManyItems in Errors(a, env) <==> |a.items| > 1
    ensures SizeInvalid in Errors(a, env) <==> !IsSizeCode(a.size)
    ensures FilenameInvalid in Errors(a, env) <==> !IsFilenameField(a.filename)
    ensures TokenNotSet in Errors(a, env) <==> !Truthy(a.token) && !Truthy(env)
    ensures forall m :: m in Errors(a, env) ==> m in CheckOrder
    ensures forall i, j :: 0 <= i < j < |Errors(a, env)| ==> Rank(Errors(a, env)[i]) < Rank(Errors(a, env)[j])
  {
    CheckListExactly(|a.items| > 1, !IsSizeCode(a.size), !IsFilenameField(a.filename), !Truthy(a.token) && !Truthy(env));
  }

  /**
   * The converse of `ContinueMeansRunnable`: with no `--help`, exactly one
   * item, a listed size and field, and a token, the program goes on.
   */
  lemma RunnableContinues(a: Args, env: Option<string>)
    requires !a.help && |a.items| == 1
    requires IsSizeCode(a.size) && IsFilenameField(a.filename)
    requires Truthy(EffectiveToken(a, env))
    ensures Decide(a, env) == Continue
  {
  }

  /**
   * When validation lets the program go on, there is exactly one item, the
   * size and filename field are listed, and a token is set.
   */
  lemma ContinueMeansRunnable(a: Args, env: Option<string>)
    requires Decide(a, env) == Continue
    ensures |a.items| == 1
    ensures IsSizeCode(a.size) && IsFilenameField(a.filename)
    ensures Truthy(EffectiveToken(a, env))
  {
    ErrorsExactly(a, env);
  }

  /** The argument defaults are the entries each table marks as its default, and they pass validation. */
  lemma DefaultsAgree()
    ensures DefaultSizeArg == DefaultSize() && IsSizeCode(DefaultSizeArg)
    ensures DefaultFilenameArg == DefaultFilename() && IsFilenameField(DefaultFilenameArg)
  {
    DefaultsUnique();
  }

  /** The command line with one item, an optional `--token`, and every other option left at its default. */
  function DefaultArgs(item: string, token: Option<string>): Args
  {
    Args([item], DefaultSizeArg, DefaultFilenameArg, DefaultOutputArg, false, token)
  }

  /** With every option at its default, the program goes on iff a token is set. */
  lemma DefaultsRun(item: string, token: Option<string>, env: Option<string>)
    ensures Decide(DefaultArgs(item, token), env) == Continue <==> Truthy(token) || Truthy(env)
  {
    DefaultsAgree();
  }

  /**
   * The validation block: it sets the help flag, pushes one message per
   * failed check, and decides whether the process exits.
   */
  method Validate(a: Args, env: Option<string>) returns (errors: seq<string>, showHelp: bool, verdict: Verdict)
    ensures errors == Errors(a, env)
    ensures showHelp == HelpRequested(a)
    ensures verdict == Decide(a, env)
    ensures verdict.Exit? <==> showHelp || errors != []
    ensures verdict.Exit? ==> (verdict.status == 1 <==> errors != []) && verdict.status in {0, 1}
  {
    var tooMany := |a.items| > 1;
    var badSize := !IsSizeCode(a.size);
    var badField := !IsFilenameField(a.filename);
    var noToken := !Truthy(a.token) && !Truthy(env);
    errors := [];
    showHelp := false;
    if a.help || |a.items| == 0 {
      showHelp := true;
    }
    if tooMany {
      errors := errors + [TooManyItems];
    }
    ghost var pushed := Pushed(tooMany, TooManyItems);
    assert errors == pushed;
    if badSize {
      errors := errors + [SizeInvalid];
    }
    pushed := pushed + Pushed(badSize, SizeInvalid);
    assert errors == pushed;
    if badField {
      errors := errors + [FilenameInvalid];
    }
    pushed := pushed + Pushed(badField, FilenameInvalid);
    assert errors == pushed;
    if noToken {
      errors := errors + [TokenNotSet];
    }
    pushed := pushed + Pushed(noToken, TokenNotSet);
    assert errors == pushed;
    ErrorsInTurn(a, env);
    if showHelp || |errors| > 0 {
      verdict := Exit(if |errors| > 0 then 1 else 0);
    } else {
      verdict := Continue;
    }
  }
}
