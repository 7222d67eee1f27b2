/**
  `download_with_gdown` (download_datasets.py, lines 27-55): up to `retries`
  attempts at one transfer, stopping at the first attempt that leaves a
  non-empty file, with a fixed pause after every failed attempt but the last.
 */
module Retry {

  /** The number of attempts `main` asks for (the parameter's default). */
  const DefaultRetries: int := 3

  /**
    What one attempt observes: the transfer raised, or it returned and the
    output path was then checked for existence and size.
   */
  datatype Attempt =
    | TransferRaised
    | TransferReturned(fileExists: bool, fileSize: int)

  /** An attempt succeeds only if the file exists afterwards and is not empty. */
  predicate Succeeded(a: Attempt) {
    a.TransferReturned? && a.fileExists && a.fileSize > 0
  }

  /** Some attempt among the first `retries` (numbered from 0) succeeds. */
  ghost predicate SucceedsWithin(world: nat -> Attempt, retries: int) {
    exists k: nat :: k < retries && Succeeded(world(k))
  }

  /**
    Runs attempt `k` as `world(k)` says. Returns whether the download
    succeeded, how many attempts were made and how many backoff pauses
    were taken.
   */
  method DownloadWithGdown(world: nat -> Attempt, retries: int) returns (ok: bool, attempts: nat, sleeps: nat)
    ensures ok <==> SucceedsWithin(world, retries)
    ensures attempts <= if retries > 0 then retries else 0
    ensures ok ==> attempts >= 1 && Succeeded(world(attempts - 1))
    ensures forall k: nat :: k < attempts - 1 ==> !Succeeded(world(k))
    ensures !ok ==> attempts == if retries > 0 then retries else 0
    ensures sleeps == if attempts == 0 then 0 else attempts - 1
  {
    attempts, sleeps := 0, 0;
    var attempt: nat := 0;
    while attempt < retries
      invariant attempt == 0 || attempt < retries  // the last attempt always returns
      invariant attempts == attempt && sleeps == attempt
      invariant forall k: nat :: k < attempt ==> !Succeeded(world(k))
      decreases retries - attempt
    {
      attempts := attempts + 1;
      var outcome := world(attempt);
      if outcome.TransferReturned? && outcome.fileExists && outcome.fileSize > 0 {
        return true, attempts, sleeps;
      }
      // the transfer raised, or the check raised "Downloaded file is empty or doesn't exist"
      if attempt < retries - 1 {
        sleeps := sleeps + 1;
      } else {
        return false, attempts, sleeps;
      }
      attempt := attempt + 1;
    }
    return false, attempts, sleeps;
  }

  /**
    The first attempt that would succeed decides the result: the download
    succeeds exactly when that attempt is among the first `retries`.
   */
  lemma FirstSuccessDecides(world: nat -> Attempt, retries: int, k: nat)
    requires Succeeded(world(k))
    requires forall i: nat :: i < k ==> !Succeeded(world(i))
    ensures SucceedsWithin(world, retries) <==> k < retries
  {
  }
}
