/** The `iDiff [container1] [container2] [differ]` command of
    `iDiff/cmd/iDiff.go`: the argument-count check and the choice of differ
    by the third argument. What a differ prints, and the process exit, are
    outside the model: the command's outcome says which path it takes. */
module Cmd {
  import opened Wrappers

  const TooFew := "Please have at least two container IDs as arguments."
  const TooMany := "Too many arguments."
  /** The corrected check's message for two images without a differ. */
  const NoDiffer := "Please name a differ (hist or dir) as the third argument."

  /** `checkArgNum`: two or three arguments are accepted; otherwise the
      check fails with a message saying which way the count is wrong. */
  function CheckArgNum(args: seq<string>): (r: (bool, Option<string>))
    ensures r.0 <==> 2 <= |args| <= 3
    ensures r.0 <==> r.1.None?
    ensures |args| < 2 ==> r.1 == Some(TooFew)
    ensures |args| > 3 ==> r.1 == Some(TooMany)
  {
    if |args| < 2 then (false, Some(TooFew))
    else if |args| > 3 then (false, Some(TooMany))
    else (true, None)
  }

  /** Which way a run of the command goes. */
  datatype Outcome =
    | ArgError(message: string)
    | HistoryDiff(image1: string, image2: string)
    | DirDiff(image1: string, image2: string)
    | UnknownDiffer
    | IndexOutOfRange

  /** The `Run` function of the command, as written: the check, then
      `args[2]` picks the differ; reading `args[2]` of two arguments panics. */
  function Run(args: seq<string>): Outcome {
    var (valid, err) := CheckArgNum(args);
    if !valid then ArgError(err.value)
    else if |args| < 3 then IndexOutOfRange
    else if args[2] == "hist" then HistoryDiff(args[0], args[1])
    else if args[2] == "dir" then DirDiff(args[0], args[1])
    else UnknownDiffer
  }

  /** Run as written: a rejected count exits with the check's message, a
      differ named "hist" or "dir" runs on the first two arguments, any other
      name is unknown, and two arguments pass the check but panic. */
  lemma RunOutcomes(args: seq<string>)
    ensures Run(args).ArgError? <==> !CheckArgNum(args).0
    ensures Run(args).ArgError? ==> Some(Run(args).message) == CheckArgNum(args).1
    ensures Run(args).IndexOutOfRange? <==> |args| == 2
    ensures Run(args).HistoryDiff? <==> |args| == 3 && args[2] == "hist"
    ensures Run(args).DirDiff? <==> |args| == 3 && args[2] == "dir"
    ensures Run(args).UnknownDiffer? <==> |args| == 3 && args[2] != "hist" && args[2] != "dir"
    ensures Run(args).HistoryDiff? || Run(args).DirDiff? ==> Run(args).image1 == args[0] && Run(args).image2 == args[1]
  {
  }

  /** Two arguments pass the check, and the dispatch then reads a third. */
  lemma TwoArgumentsPanic(a: string, b: string)
    ensures CheckArgNum([a, b]) == (true, None)
    ensures Run([a, b]) == IndexOutOfRange
  {
  }

  /** The check the dispatch needs: the two images and a differ name. Two
      arguments are refused for the missing differ, fewer for the missing
      images. */
  function CheckArgNumCorrected(args: seq<string>): (r: (bool, Option<string>))
    ensures r.0 <==> |args| == 3
    ensures r.0 <==> r.1.None?
    ensures |args| < 2 ==> r.1 == Some(TooFew)
    ensures |args| == 2 ==> r.1 == Some(NoDiffer)
    ensures |args| > 3 ==> r.1 == Some(TooMany)
  {
    if |args| < 2 then (false, Some(TooFew))
    else if |args| == 2 then (false, Some(NoDiffer))
    else if |args| > 3 then (false, Some(TooMany))
    else (true, None)
  }

  /** The dispatch behind the corrected check. */
  function RunCorrected(args: seq<string>): Outcome {
    var (valid, err) := CheckArgNumCorrected(args);
    if !valid then ArgError(err.value)
    else if args[2] == "hist" then HistoryDiff(args[0], args[1])
    else if args[2] == "dir" then DirDiff(args[0], args[1])
    else UnknownDiffer
  }

  /** With the corrected check no run panics, every run the original
      completes goes the same way, and the run that panicked is refused for
      its missing differ. */
  lemma RunCorrectedSafe(args: seq<string>)
    ensures !RunCorrected(args).IndexOutOfRange?
    ensures !Run(args).IndexOutOfRange? ==> RunCorrected(args) == Run(args)
    ensures Run(args).IndexOutOfRange? ==> RunCorrected(args) == ArgError(NoDiffer)
  {
  }
}
