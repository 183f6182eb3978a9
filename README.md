# Recovery-mode flashing and retry, modelled in Dafny

`recovery.py` is a menu-driven recovery tool. Its only logic beyond file and process
plumbing is the part that writes an image to a device:

- `flash_iso_or_torrent` checks that the file exists, then dispatches on the file
  extension, compared case-insensitively. A `.iso` file is written with one `dd`. A `.torrent`
  file has its path rewritten to the `.iso` beside it, gets a placeholder file created there,
  and then goes to `flash_iso`. Any other extension is refused. Every exception is wrapped
  into `RecoveryError`.
- `flash_iso` checks that the image exists, then tries an ordered list of methods, `dd`
  first and `cp` second. The first method whose process can be launched wins. When every
  launch raises, it raises "All ISO flashing methods failed", and its outer handler wraps
  that error once more.
- `retry` calls an operation up to `attempts` times. It returns the first value returned.
  After every `RecoveryError`, including the last one, it sleeps for `delay`. When the
  attempts run out it raises "Failed after N attempts.". The menu uses
  `retry(flash_iso_or_torrent, …, attempts=10)`.

The outside world is an oracle value, `Flash.World`. It says which paths exist
(`os.path.exists`) and which command lines fail to launch, with the exception's message.
It also says whether creating the placeholder ISO fails. `retry`'s operation is a function
from the call's index to what that call returned or raised, so each attempt may see a
different world. Sleeping is recorded as an event in a trace, not done.

`subprocess.run` is called at recovery.py:64 and :102 without `check=True`, so a non-zero
exit status never raises. The model keeps this behaviour: a method "succeeds" as soon as
its process can be started. One might expect a flash to report success only when the
command exits with status 0; the code never checks this, and the model follows the code.
For the same reason, `cp` is tried only when `dd` cannot be launched at all.

Files and modules:

- `errors.dfy` (`Errors`): the exception taxonomy. There is one `Cause` per `RecoveryError`
  f-string, and `Foreign` stands for every other exception. `Outcome<T>` is "returned a
  value or raised". `Text` renders each message as the program words it.
- `paths.dfy` (`Paths`): POSIX `os.path.splitext`, ASCII `str.lower`, and the path rewrite
  of `convert_torrent_to_iso`.
- `flash.dfy` (`Flash`): the method list, the fallback chain (`ChainFrom`, a reference
  definition), and `flash_iso`. `flash_iso` appears twice: as the imperative method `FlashIso`
  with its loop (in `TryMethods`), and as the function `FlashIsoSpec`. The method is proved equal to the
  function. The dispatch function `FlashIsoOrTorrent` is also here.
- `retry.dfy` (`Retry`): the loop method `Retry`, proved equal to the recursive reference
  `RetryFrom`, and the properties of `retry`.
- `flash_retry.dfy` (`FlashRetry`): what the menu's `retry(flash_iso_or_torrent, …,
  attempts=10)` adds up to.

## Model

| member | source | states |
|---|---|---|
| `Paths.SplitExt` | recovery.py:60 | the root and the extension that splitext returns put back together give the path (when the extension is non-empty is stated by `Paths.ExtExistsIff`) |
| `Paths.Lower` | recovery.py:61 | lowering keeps the length, leaves no ASCII capital, maps each capital to its small letter and keeps every other character |
| `Paths.ExtExistsIff` | recovery.py:60 | a path has an extension exactly when its final component holds a '.' with some character other than '.' before it (so leading dots belong to the root); the extension then runs from the path's last '.' to its end |
| `Paths.ExtShape` | recovery.py:60 | an extension is empty, or a '.' followed by characters that are neither '.' nor '/' |
| `Paths.ConvertTorrentToIso` | recovery.py:86 | the ISO path is the input's root followed by ".iso"; a path without an extension just gets ".iso" appended |
| `Paths.ConvertedSplitsAsIso` | recovery.py:86 | for a path with an extension, the rewritten path splits into the same root and exactly ".iso", and rewriting it again changes nothing |
| `Flash.Created` | recovery.py:87 | once the placeholder is created its path exists, every other path exists exactly when it did before, and launching and creating behave as before |
| `Flash.ChainFrom` | recovery.py:99-109 | the chain tries at most one command per remaining method; a winner is a method whose launch does not raise and is the last command tried |
| `Flash.ChainFirstLaunchWins` | recovery.py:99-107 | the chain picks the first method whose launch does not raise; every earlier method was tried and its launch raised; methods are tried in declared order, each at most once, and none after the winner; there is no winner exactly when every launch raises, and then every method was tried once |
| `Flash.FlashIsoSpec` | recovery.py:90-114 | flash_iso tries at most two commands, and it reports success only right after a command whose launch did not raise |
| `Flash.TryMethods` | recovery.py:99-109 | the loop over the methods, with its early return, finds a winner exactly when the reference chain does and tries exactly the chain's commands, in order |
| `Flash.FlashIso` | recovery.py:90-114 | the existence check followed by that loop yields the same outcome and the same list of tried commands as the reference: nothing tried when the image is missing, True at the first launchable method, "All ISO flashing methods failed" wrapped by the outer handler when all raise |
| `Flash.FlashIsoFallsBackInOrder` | recovery.py:92-114 | the four cases of flash_iso: image missing (no launch, IsoMissing); dd launches (only dd, True); dd raises and cp launches (dd then cp, True); both raise (dd then cp, AllMethodsFailed wrapped once more) |
| `Flash.FlashIsoRaisesOnlyRecoveryError` | recovery.py:99-114 | flash_iso returns only True and raises only its own wrapped RecoveryError; it returns exactly when the image exists and some method in its list can be launched |
| `Flash.Classify` | recovery.py:60-67 | a file is dispatched to the ISO or torrent branch only when it has an extension starting with '.', of length 4 for ISO and 8 for torrent; which extensions lead to each branch is stated by `Flash.IsoExtensionIgnoresCase` and `Flash.TorrentExtensionIgnoresCase` |
| `Flash.IsoExtensionIgnoresCase` | recovery.py:60-61 | a file is treated as an ISO image exactly when its extension is ".iso" in any mix of upper and lower case |
| `Flash.UpperCaseIsoIsIso` | recovery.py:60-61 | "/tmp/Ubuntu.ISO" is dispatched as an ISO image |
| `Flash.TorrentExtensionIgnoresCase` | recovery.py:60-67 | a file is treated as a torrent exactly when its extension is ".torrent" in any mix of upper and lower case |
| `Flash.MixedCaseTorrentIsTorrent` | recovery.py:60-67 | "debian.Torrent" is dispatched as a torrent |
| `Flash.OnlyLastExtensionCounts` | recovery.py:60-75 | "image.iso.txt" is refused as unsupported: only the last extension counts |
| `Flash.HiddenIsoFileIsUnsupported` | recovery.py:60-75 | a file named ".iso" has no extension under splitext and is refused as unsupported |
| `Flash.FlashIsoOrTorrent` | recovery.py:56-80 | flash_iso_or_torrent tries commands only for an existing file with a supported extension, and returns True only right after a command whose launch did not raise |
| `Flash.FlashRaisesOnlyRecoveryError` | recovery.py:78-80 | every exception leaving flash_iso_or_torrent is a RecoveryError raised by its own handler for that path, and the only value it returns is True |
| `Flash.FlashChecksBeforeLaunching` | recovery.py:57-77 | a missing file launches nothing and is reported as missing whatever its extension; an existing file with an unsupported extension launches nothing and the error names the extension as written |
| `Flash.FlashIsoFileUsesOnlyDd` | recovery.py:61-66 | an existing .iso file is written by exactly one dd on that file, with no fallback, and the call succeeds exactly when dd can be launched |
| `Flash.FlashTorrentGoesThroughFallback` | recovery.py:67-73 | a torrent is rewritten to an ISO path that itself dispatches as ISO; flash_iso then runs on it with dd first and cp only after dd raised; when the placeholder can be created, the call fails only when both launches raise, with flash_iso's error wrapped a second time |
| `Flash.FlashTorrentFailsWhenPlaceholderFails` | recovery.py:67-87 | when creating the placeholder for a torrent's image raises, that exception is wrapped by the handler of flash_iso_or_torrent and nothing is launched |
| `Retry.RetryFrom` | recovery.py:116-124 | retry's trace is at most two events per remaining attempt and starts with a call; the operation's own RecoveryError never escapes, only the exhaustion error |
| `Retry.Retry` | recovery.py:116-124 | the for loop with its early return, its sleep after each RecoveryError and its final raise yields the same outcome and the same trace of calls and sleeps as the reference definition |
| `Retry.RoundsShape` | recovery.py:117-122 | k failed attempts leave a trace of k calls and k sleeps that alternate, with call indices in increasing order |
| `Retry.RetryStopsAtFirstNonRecovery` | recovery.py:117-122 | with a delay time.sleep accepts (0 to `MaxSleep` seconds), or with any delay when call i is the one that ends it, when calls i..k-1 raise RecoveryError and call k does not, retry ends with call k's outcome unchanged, after those failed rounds and one more call |
| `Retry.RetryReturnsFirstSuccess` | recovery.py:117-122 | with a delay time.sleep accepts, or with any delay when k = 0, when the first k calls raise RecoveryError and call k+1 returns v, with k+1 <= attempts, retry returns v after exactly k+1 calls and k sleeps |
| `Retry.RetryPropagatesOtherErrors` | recovery.py:118-120 | with a delay time.sleep accepts, or with any delay when it is raised by the first call, an exception other than RecoveryError leaves retry the first time it is raised: no sleep after it, no further attempt |
| `Retry.RetryExhausts` | recovery.py:117-124 | with a delay time.sleep accepts (0 to `MaxSleep` seconds), when every attempt raises RecoveryError, retry makes every attempt with a sleep after each, the last one included, and raises "Failed after N attempts." |
| `Retry.RetryExhaustionCounts` | recovery.py:117-124 | with a delay time.sleep accepts (0 to `MaxSleep` seconds), on exhaustion retry makes exactly `attempts` calls and `attempts` sleeps, and none at all when attempts <= 0 |
| `Retry.RetryDefaultsExhaust` | recovery.py:116-124 | with the default arguments (3 attempts, delay 1), an operation that keeps raising RecoveryError is called three times, each call followed by a sleep of 1, and retry raises "Failed after 3 attempts." |
| `Retry.SleepFault` | recovery.py:122 | time.sleep accepts a whole number of seconds exactly when it lies between 0 and `MaxSleep` (the most that fits in signed 64-bit nanoseconds); beyond that range either way it raises OverflowError, and for a negative length within it ValueError |
| `Retry.RetryNegativeDelayStopsAtFirstSleep` | recovery.py:120-122 | with a negative delay within the range time.sleep converts, the first sleep raises ValueError, which leaves retry after one call |
| `Retry.RetryHugeDelayStopsAtFirstSleep` | recovery.py:120-122 | with a delay beyond `MaxSleep` seconds either way, the first sleep raises OverflowError, which leaves retry after one call |
| `Retry.RetryBounds` | recovery.py:116-124 | retry never calls more than `attempts` times and never sleeps more often than it calls; the operation's own RecoveryError never escapes, only the exhaustion error; a returned value is one some attempt returned |
| `Retry.RetryOfRecoverableOp` | recovery.py:116-124 | with a delay time.sleep accepts (0 to `MaxSleep` seconds), for an operation that raises only RecoveryError, retry succeeds exactly when one of the first `attempts` calls returns; otherwise it ends in exhaustion after `attempts` calls and `attempts` sleeps |
| `FlashRetry.FlashOpFailsOnlyRecoverably` | recovery.py:78-80 | each attempt of the retried flash returns True or raises RecoveryError |
| `FlashRetry.RetriedFlashSucceedsIffSomeAttemptDoes` | recovery.py:155-160 | the menu's flash succeeds exactly when one of its ten attempts does; otherwise it ends in "Failed after 10 attempts." after ten calls and ten sleeps; it never returns False, so "Flash failed." is never printed |
| `FlashRetry.RetriedFlashOfMissingFileExhausts` | recovery.py:155-157 | a file that stays missing is never flashed: the ten attempts all fail and retry raises its exhaustion error |
| `Errors.CauseText` | recovery.py:75-124 | the message of each RecoveryError as its f-string words it; a wrapping message ends with the text of the exception it wraps |
| `FlashRetry.FlashExhaustionMessage` | recovery.py:124 | the exhaustion error of the menu's flash reads "Failed after 10 attempts." |

## Left out

- Running processes: `subprocess.run` and `run_command` (recovery.py:34-41). The model only
  knows whether a launch raised, and with what message. Exit codes, output and `dd`'s
  progress are not modelled.
- `backup_file` and `restore_file` (recovery.py:12-32): an existence check and
  `shutil.copy`, whose behaviour lives in the standard library.
- `network_diagnosis` (recovery.py:43-54): it only tests whether the ping output is empty.
- The placeholder file at recovery.py:87 is not modelled as a file. Only two of its
  effects are kept: `open` may raise (`World.createFault`), and when it does not, the path
  exists for `flash_iso`'s check (`Flash.Created`).
- Logging (recovery.py:7 and every `logging.*` call) is not modelled. The order of attempts
  is recorded in the list of tried commands and in the retry trace.
- `time.sleep` is not performed. Each sleep is an event in the retry trace. Its exceptions
  are modelled as CPython raises them for an integer length (`Retry.SleepFault`):
  `OverflowError` when the length in nanoseconds does not fit in a signed 64-bit integer
  (checked first), otherwise `ValueError` for a negative length.
- The interactive menu (recovery.py:126-170) is not modelled, apart from its one call to
  `retry` at :157 (module `FlashRetry`). Note that its `try` encloses the whole loop, so
  the first `RecoveryError` ends the menu after printing it; it does not return to the
  options.
- `Paths.SplitExt` follows POSIX `os.path.splitext`, with '/' as the only separator.
  Windows path rules are not modelled.
- `Paths.Lower` lowers ASCII letters only. This is exact for the comparisons with ".iso" and
  ".torrent": no other character lowers to a single character of those strings.
- `retry`'s `attempts` and `delay` are integers. Float delays and non-integer attempt counts
  (which make `range` raise `TypeError`) are not modelled.
- Exceptions that cannot be caught (`KeyboardInterrupt`, `SystemExit`) are not modelled.
  `except Exception` does not catch them.
