/** How the menu flashes a file: retry(flash_iso_or_torrent, file_path, device, attempts=10)
    with the default delay (recovery.py:155-160). Each attempt runs the whole of
    flash_iso_or_torrent again, existence check and method chain included, in whatever state
    the outside world is in at that attempt.
 */
module FlashRetry {
  import opened Errors
  import opened Flash
  import opened Retry

  /** The attempt count the menu passes to retry (recovery.py:157). */
  const FlashAttempts: int := 10

  /** The retried operation: its i-th call is flash_iso_or_torrent in the world worlds(i). */
  function FlashOp(path: string, device: string, worlds: nat -> World): nat -> Outcome<bool> {
    (i: nat) => FlashIsoOrTorrent(path, device, worlds(i)).outcome
  }

  /** Since flash_iso_or_torrent raises nothing but RecoveryError, retry retries every failure
      of it: flashing succeeds exactly when one of the ten attempts succeeds, and otherwise
      ends in "Failed after 10 attempts." after ten attempts and ten sleeps of one time unit.
      retry never returns False here, so the "Flash failed." branch of the menu cannot run. */
  lemma RetriedFlashSucceedsIffSomeAttemptDoes(path: string, device: string, worlds: nat -> World)
    ensures var r := RetryFrom(FlashOp(path, device, worlds), FlashAttempts, DefaultDelay, 0);
      && (r.outcome.Returned? <==>
            exists k :: 0 <= k < FlashAttempts && FlashOp(path, device, worlds)(k).Returned?)
      && (r.outcome.Returned? ==> r.outcome.value)
      && (r.outcome.Raised? ==>
            && r.outcome == Raised(Recovery(RetryExhausted(FlashAttempts)))
            && CallCount(r.trace) == FlashAttempts
            && SleepCount(r.trace) == FlashAttempts)
  {
    var op := FlashOp(path, device, worlds);
    FlashOpFailsOnlyRecoverably(path, device, worlds);
    RetryOfRecoverableOp(op, FlashAttempts, DefaultDelay);
    RetryBounds(op, FlashAttempts, DefaultDelay, 0);
  }

  /** Every call of the retried operation returns True or raises RecoveryError. */
  lemma FlashOpFailsOnlyRecoverably(path: string, device: string, worlds: nat -> World)
    ensures forall j: nat :: FlashOp(path, device, worlds)(j).Returned? || FlashOp(path, device, worlds)(j).IsRecoveryError()
    ensures forall j: nat :: FlashOp(path, device, worlds)(j).Returned? ==> FlashOp(path, device, worlds)(j).value
  {
    forall j: nat
      ensures FlashOp(path, device, worlds)(j).Returned? || FlashOp(path, device, worlds)(j).IsRecoveryError()
      ensures FlashOp(path, device, worlds)(j).Returned? ==> FlashOp(path, device, worlds)(j).value
    {
      FlashRaisesOnlyRecoveryError(path, device, worlds(j));
    }
  }

  /** A file that stays missing is never flashed however often it is retried: all ten
      attempts fail at the existence check and retry gives up. */
  lemma RetriedFlashOfMissingFileExhausts(path: string, device: string, worlds: nat -> World)
    requires forall k :: 0 <= k < FlashAttempts ==> !worlds(k).pathExists(path)
    ensures RetryFrom(FlashOp(path, device, worlds), FlashAttempts, DefaultDelay, 0).outcome
      == Raised(Recovery(RetryExhausted(FlashAttempts)))
  {
  }

  /** The text of the error the menu receives when flashing is given up (recovery.py:124). */
  lemma FlashExhaustionMessage()
    ensures Text(Recovery(RetryExhausted(FlashAttempts))) == "Failed after 10 attempts."
  {
  }
}
