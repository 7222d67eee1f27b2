/**
  The rest of `main` (download_datasets.py, lines 87-145): resolve the
  selection, walk the selected entries in order, confirm overwrites, run the
  retrying download for each, and pick the summary's branch.
 */
module Orchestrator {
  import opened PyStr
  import opened Retry
  import opened Selector

  /** One manifest record; `name` is also the output file name under `data/`. */
  datatype Dataset = Dataset(name: string, sizeGb: real, description: string, fileId: string)

  /**
    What the environment answers while the entry at one position of the
    processing order is handled: whether `data/<name>` exists, the line typed
    at the overwrite prompt (read only when it exists), and what each
    download attempt observes.
   */
  datatype Probe = Probe(fileExists: bool, answer: string, transfer: nat -> Attempt)

  /** `answer.strip().lower() == 'y'`. */
  predicate ConfirmsOverwrite(answer: string) {
    Lower(Strip(answer)) == "y"
  }

  /** Only "y" or "Y", surrounded by any whitespace, confirms an overwrite. */
  lemma ConfirmsOverwriteIff(answer: string)
    ensures ConfirmsOverwrite(answer) <==> Strip(answer) == "y" || Strip(answer) == "Y"
  {
  }

  /** The entry is skipped: its file exists and the overwrite is not confirmed. */
  predicate Skipped(p: Probe) {
    p.fileExists && !ConfirmsOverwrite(p.answer)
  }

  /** The entry is not skipped and its retrying download returns `True`. */
  ghost predicate Downloaded(p: Probe) {
    !Skipped(p) && SucceedsWithin(p.transfer, DefaultRetries)
  }

  /** The names that end up in `successful_downloads` after the first `n` selected entries. */
  ghost function SuccessfulNames(selected: seq<Dataset>, env: nat -> Probe, n: nat): seq<string>
    requires n <= |selected|
  {
    if n == 0 then []
    else SuccessfulNames(selected, env, n - 1) + if Downloaded(env(n - 1)) then [selected[n - 1].name] else []
  }

  /** The positions, in processing order, of the first `n` entries that were downloaded. */
  ghost function DownloadedPositions(env: nat -> Probe, n: nat): seq<nat> {
    if n == 0 then []
    else DownloadedPositions(env, n - 1) + if Downloaded(env(n - 1)) then [n - 1] else []
  }

  /** The downloaded positions are in processing order, and are exactly the downloaded entries. */
  lemma {:induction false} DownloadedPositionsSpec(env: nat -> Probe, n: nat)
    ensures var ps := DownloadedPositions(env, n);
      && (forall m :: 0 <= m < |ps| ==> ps[m] < n)
      && (forall m, m' :: 0 <= m < m' < |ps| ==> ps[m] < ps[m'])
      && (forall p: nat :: p in ps <==> p < n && Downloaded(env(p)))
  {
    if n > 0 {
      DownloadedPositionsSpec(env, n - 1);
    }
  }

  /** `successful_downloads` holds, at each place, the name of the entry at the matching downloaded position. */
  lemma {:induction false} SuccessfulNamesAt(selected: seq<Dataset>, env: nat -> Probe, n: nat)
    requires n <= |selected|
    ensures var names, ps := SuccessfulNames(selected, env, n), DownloadedPositions(env, n);
      && |names| == |ps|
      && forall m :: 0 <= m < |ps| ==> ps[m] < |selected| && names[m] == selected[ps[m]].name
  {
    if n > 0 {
      SuccessfulNamesAt(selected, env, n - 1);
      DownloadedPositionsSpec(env, n);
    }
  }

  /**
    `successful_downloads` lists the names of exactly the downloaded entries,
    at strictly increasing positions: a subsequence of the selection, in
    processing order, that leaves out every skipped or failed entry.
   */
  lemma SuccessfulNamesSubsequence(selected: seq<Dataset>, env: nat -> Probe, n: nat)
    requires n <= |selected|
    ensures var names, ps := SuccessfulNames(selected, env, n), DownloadedPositions(env, n);
      && |names| == |ps|
      && (forall m :: 0 <= m < |ps| ==> ps[m] < n && names[m] == selected[ps[m]].name)
      && (forall m, m' :: 0 <= m < m' < |ps| ==> ps[m] < ps[m'])
      && (forall p: nat :: p in ps <==> p < n && Downloaded(env(p)))
  {
    DownloadedPositionsSpec(env, n);
    SuccessfulNamesAt(selected, env, n);
  }

  /** Nothing is downloaded exactly when every selected entry was skipped or failed. */
  lemma {:induction false} NothingDownloadedIff(selected: seq<Dataset>, env: nat -> Probe, n: nat)
    requires n <= |selected|
    ensures SuccessfulNames(selected, env, n) == [] <==> forall p: nat :: p < n ==> !Downloaded(env(p))
  {
    if n > 0 {
      NothingDownloadedIff(selected, env, n - 1);
      if Downloaded(env(n - 1)) {
        assert |SuccessfulNames(selected, env, n)| > 0;
      }
    }
  }

  /** The two branches of the summary. */
  datatype Summary =
    | SuccessList(names: seq<string>)  // "Successfully downloaded:" and one line per name
    | NoFilesDownloaded                // "No files were downloaded."

  function Summarize(successful: seq<string>): Summary {
    if successful != [] then SuccessList(successful) else NoFilesDownloaded
  }

  /** The download loop, lines 110-130: `env(i)` answers for the `i`-th selected entry. */
  method DownloadAll(selected: seq<Dataset>, env: nat -> Probe) returns (successful: seq<string>)
    ensures successful == SuccessfulNames(selected, env, |selected|)
  {
    successful := [];
    for i := 0 to |selected|
      invariant successful == SuccessfulNames(selected, env, i)
    {
      var probe := env(i);
      if probe.fileExists {
        var overwrite := Lower(Strip(probe.answer));
        if overwrite != "y" {
          continue;
        }
      }
      var success, _, _ := DownloadWithGdown(probe.transfer, DefaultRetries);
      if success {
        successful := successful + [selected[i].name];
      }
    }
  }

  /** How a run ends. */
  datatype SessionOutcome =
    | Exited                       // a choice other than "1" or "2"
    | Crashed(error: SelectError)  // an uncaught exception from the selection step
    | Finished(successful: seq<string>, summary: Summary)

  /**
    One run of `main` after the manifest is loaded: the first prompt's line,
    the second prompt's line (read only for choice "2"), and the environment
    for each selected entry.
   */
  method RunSession(manifest: seq<Dataset>, choiceLine: string, selectionsLine: string, env: nat -> Probe)
    returns (outcome: SessionOutcome)
    ensures match Resolve(manifest, choiceLine, selectionsLine)
      case Exit => outcome == Exited
      case Raised(e) => outcome == Crashed(e)
      case Proceed(selected) =>
        && outcome.Finished?
        && outcome.successful == SuccessfulNames(selected, env, |selected|)
        && outcome.summary == (if outcome.successful == [] then NoFilesDownloaded else SuccessList(outcome.successful))
        && (outcome.summary.NoFilesDownloaded? <==> forall p: nat :: p < |selected| ==> !Downloaded(env(p)))
  {
    match Resolve(manifest, choiceLine, selectionsLine)
    case Exit =>
      outcome := Exited;
    case Raised(e) =>
      outcome := Crashed(e);
    case Proceed(selected) =>
      var successful := DownloadAll(selected, env);
      NothingDownloadedIff(selected, env, |selected|);
      outcome := Finished(successful, Summarize(successful));
  }
}
