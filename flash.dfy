/** Flashing an image to a device (recovery.py:56-114).

    flash_iso checks that the image exists and then runs an ordered list of fallback
    methods, dd first and cp second, stopping at the first whose launch does not raise.
    flash_iso_or_torrent checks that its file exists, dispatches on the extension, and
    wraps every exception into RecoveryError.

    subprocess.run is called without check=True, so a method counts as successful as soon
    as its process could be started: the model sees only whether the launch raised, never
    an exit status. The outside world is an oracle: which paths exist, which command lines
    fail to launch (and with what message), and whether creating the placeholder ISO fails.
 */
module Flash {
  import opened Errors
  import opened Paths

  /** An argument vector handed to subprocess.run. */
  type Command = seq<string>

  /** One fallback method of flash_iso: its name and the command it launches. */
  datatype Method = Method(name: string, command: Command)

  /** What the flashing code learns from the operating system. */
  datatype World = World(
    pathExists: string -> bool,              // os.path.exists
    launchFault: Command -> Option<string>,  // Some(m): subprocess.run raised with message m
    createFault: string -> Option<string>)   // Some(m): open(path, "w") raised with message m

  /** The world after the placeholder ISO at path has been created (recovery.py:87). */
  function Created(w: World, path: string): (w': World)
    ensures w'.pathExists(path)
    ensures forall q :: q != path ==> w'.pathExists(q) == w.pathExists(q)
    ensures w'.launchFault == w.launchFault && w'.createFault == w.createFault
  {
    w.(pathExists := q => q == path || w.pathExists(q))
  }

  /** The result of one flashing call and the commands it tried to launch, in order, whether
      or not the launch raised. */
  datatype Run = Run(outcome: Outcome<bool>, tried: seq<Command>)

  predicate LaunchRaises(w: World, c: Command) {
    w.launchFault(c).Some?
  }

  function DdCommand(path: string, device: string): Command {
    ["dd", "if=" + path, "of=" + device, "bs=4M", "status=progress"]
  }

  function CpCommand(path: string, device: string): Command {
    ["cp", path, device]
  }

  /** The fallback methods of flash_iso, in the order they are tried (recovery.py:94-97). */
  function Methods(isoPath: string, device: string): seq<Method> {
    [Method("dd", DdCommand(isoPath, device)), Method("cp", CpCommand(isoPath, device))]
  }

  // ---------------------------------------------------------------------------------
  // The fallback chain

  /** The fallback loop of flash_iso started at position i: the index of the first method
      whose launch does not raise, if any, and the commands tried on the way (the winner
      included). */
  datatype Chain = Chain(winner: Option<nat>, tried: seq<Command>)

  function ChainFrom(ms: seq<Method>, w: World, i: nat): (c: Chain)
    requires i <= |ms|
    decreases |ms| - i
    ensures |c.tried| <= |ms| - i
    ensures c.winner.Some? ==>
      && i <= c.winner.value < |ms|
      && !LaunchRaises(w, ms[c.winner.value].command)
      && c.tried != [] && c.tried[|c.tried| - 1] == ms[c.winner.value].command
  {
    if i == |ms| then Chain(None, [])
    else if !LaunchRaises(w, ms[i].command) then Chain(Some(i), [ms[i].command])
    else
      var rest := ChainFrom(ms, w, i + 1);
      Chain(rest.winner, [ms[i].command] + rest.tried)
  }

  /** The chain picks the first method whose launch does not raise, tries the methods before
      it in declared order, each exactly once, and never launches one after it; when every
      launch raises, every method has been tried once, in order. */
  lemma {:induction false} ChainFirstLaunchWins(ms: seq<Method>, w: World, i: nat)
    requires i <= |ms|
    decreases |ms| - i
    ensures var c := ChainFrom(ms, w, i);
      && (c.winner.None? <==> forall j :: i <= j < |ms| ==> LaunchRaises(w, ms[j].command))
      && (c.winner.Some? ==>
            && i <= c.winner.value < |ms|
            && !LaunchRaises(w, ms[c.winner.value].command)
            && forall j :: i <= j < c.winner.value ==> LaunchRaises(w, ms[j].command))
      && |c.tried| == (if c.winner.Some? then c.winner.value + 1 else |ms|) - i
      && forall j :: 0 <= j < |c.tried| ==> c.tried[j] == ms[i + j].command
  {
    if i < |ms| && LaunchRaises(w, ms[i].command) {
      ChainFirstLaunchWins(ms, w, i + 1);
      var rest := ChainFrom(ms, w, i + 1);
      assert ChainFrom(ms, w, i).tried == [ms[i].command] + rest.tried;
      forall j | 0 <= j < |ChainFrom(ms, w, i).tried|
        ensures ChainFrom(ms, w, i).tried[j] == ms[i + j].command
      {
        if j > 0 {
          assert ChainFrom(ms, w, i).tried[j] == rest.tried[j - 1];
        }
      }
    }
  }

  // ---------------------------------------------------------------------------------
  // flash_iso

  /** RecoveryError as flash_iso's outer handler re-raises it (recovery.py:112-114). */
  function FlashIsoError(isoPath: string, device: string, e: Error): Error {
    Recovery(FlashIsoFailed(isoPath, device, e))
  }

  /** What flash_iso does (recovery.py:90-114), as a function of the world. */
  function FlashIsoSpec(isoPath: string, device: string, w: World): (r: Run)
    ensures |r.tried| <= 2
    ensures r.outcome.Returned? ==> r.tried != [] && !LaunchRaises(w, r.tried[|r.tried| - 1])
  {
    if !w.pathExists(isoPath) then
      Run(Raised(FlashIsoError(isoPath, device, Recovery(IsoMissing(isoPath)))), [])
    else
      var c := ChainFrom(Methods(isoPath, device), w, 0);
      if c.winner.Some? then Run(Returned(true), c.tried)
      else Run(Raised(FlashIsoError(isoPath, device, Recovery(AllMethodsFailed(isoPath)))), c.tried)
  }

  /** flash_iso: the existence check, then the loop over the methods with an early return on
      the first launch that does not raise (recovery.py:90-114). */
  method FlashIso(isoPath: string, device: string, w: World)
    returns (outcome: Outcome<bool>, tried: seq<Command>)
    ensures Run(outcome, tried) == FlashIsoSpec(isoPath, device, w)
  {
    tried := [];
    if !w.pathExists(isoPath) {
      outcome := Raised(FlashIsoError(isoPath, device, Recovery(IsoMissing(isoPath))));
      return;
    }
    var won;
    won, tried := TryMethods(Methods(isoPath, device), w);
    if won {
      outcome := Returned(true);
    } else {
      outcome := Raised(FlashIsoError(isoPath, device, Recovery(AllMethodsFailed(isoPath))));
    }
  }

  /** The loop of flash_iso (recovery.py:99-109): launch each method in turn and stop at the
      first launch that does not raise. */
  method TryMethods(ms: seq<Method>, w: World) returns (won: bool, tried: seq<Command>)
    ensures won == ChainFrom(ms, w, 0).winner.Some?
    ensures tried == ChainFrom(ms, w, 0).tried
  {
    tried := [];
    var i := 0;
    while i < |ms|
      invariant 0 <= i <= |ms|
      invariant ChainFrom(ms, w, 0).winner == ChainFrom(ms, w, i).winner
      invariant ChainFrom(ms, w, 0).tried == tried + ChainFrom(ms, w, i).tried
    {
      var command := ms[i].command;
      tried := tried + [command];
      if !LaunchRaises(w, command) {
        won := true;
        return;
      }
      assert ChainFrom(ms, w, i).tried == [command] + ChainFrom(ms, w, i + 1).tried;
      i := i + 1;
    }
    won := false;
  }

  /** flash_iso launches nothing when the image is missing; otherwise it reports success
      exactly when dd or cp could be tried, trying dd first and cp only after dd's launch
      raised; when both raise it fails with "All ISO flashing methods failed", wrapped once
      more by its outer handler. */
  lemma FlashIsoFallsBackInOrder(isoPath: string, device: string, w: World)
    ensures var r := FlashIsoSpec(isoPath, device, w);
      var dd, cp := DdCommand(isoPath, device), CpCommand(isoPath, device);
      && (!w.pathExists(isoPath) ==>
            r == Run(Raised(FlashIsoError(isoPath, device, Recovery(IsoMissing(isoPath)))), []))
      && (w.pathExists(isoPath) && !LaunchRaises(w, dd) ==>
            r == Run(Returned(true), [dd]))
      && (w.pathExists(isoPath) && LaunchRaises(w, dd) && !LaunchRaises(w, cp) ==>
            r == Run(Returned(true), [dd, cp]))
      && (w.pathExists(isoPath) && LaunchRaises(w, dd) && LaunchRaises(w, cp) ==>
            r == Run(Raised(FlashIsoError(isoPath, device, Recovery(AllMethodsFailed(isoPath)))), [dd, cp]))
  {
    var ms := Methods(isoPath, device);
    if w.pathExists(isoPath) && LaunchRaises(w, ms[0].command) {
      assert ChainFrom(ms, w, 0).tried == [ms[0].command] + ChainFrom(ms, w, 1).tried;
      if LaunchRaises(w, ms[1].command) {
        assert ChainFrom(ms, w, 1).tried == [ms[1].command] + ChainFrom(ms, w, 2).tried;
      }
    }
  }

  /** flash_iso returns True or raises RecoveryError, never anything else: every launch
      failure is caught by the inner handler and every error it raises is re-wrapped. */
  lemma FlashIsoRaisesOnlyRecoveryError(isoPath: string, device: string, w: World)
    ensures var o := FlashIsoSpec(isoPath, device, w).outcome;
      && (o.Returned? ==> o.value)
      && (o.Raised? ==> o.error.Recovery? && o.error.cause.FlashIsoFailed?)
      && (o.Returned? <==>
            w.pathExists(isoPath) && exists m :: m in Methods(isoPath, device) && !LaunchRaises(w, m.command))
  {
    var ms := Methods(isoPath, device);
    ChainFirstLaunchWins(ms, w, 0);
    if w.pathExists(isoPath) && FlashIsoSpec(isoPath, device, w).outcome.Returned? {
      var k := ChainFrom(ms, w, 0).winner.value;
      assert ms[k] in ms;
    }
  }

  // ---------------------------------------------------------------------------------
  // flash_iso_or_torrent

  /** How flash_iso_or_torrent treats a file, from its extension compared case-insensitively. */
  datatype Kind = IsoImage | TorrentFile | Unsupported

  function Classify(path: string): (k: Kind)
    ensures k != Unsupported ==> Ext(path) != [] && Ext(path)[0] == '.'
    ensures k == IsoImage ==> |Ext(path)| == 4
    ensures k == TorrentFile ==> |Ext(path)| == 8
  {
    ExtShape(path);
    var ext := Lower(Ext(path));
    if ext == ".iso" then IsoImage
    else if ext == ".torrent" then TorrentFile
    else Unsupported
  }

  /** The extension test ignores letter case, and only letter case: a file is treated as an
      ISO image exactly when its extension is ".iso" written in any mix of cases. */
  lemma IsoExtensionIgnoresCase(path: string)
    ensures Classify(path) == IsoImage <==>
      var e := Ext(path);
      && |e| == 4 && e[0] == '.'
      && (e[1] == 'i' || e[1] == 'I') && (e[2] == 's' || e[2] == 'S') && (e[3] == 'o' || e[3] == 'O')
  {
    var e := Ext(path);
    if |e| == 4 {
      LowerAt(e, 0);
      LowerAt(e, 1);
      LowerAt(e, 2);
      LowerAt(e, 3);
      if Lower(e) == ".iso" {
        assert Lower(e)[1] == 'i' && Lower(e)[2] == 's' && Lower(e)[3] == 'o';
      }
    } else {
      assert |Lower(e)| != |".iso"|;
    }
  }

  /** Likewise a file is treated as a torrent exactly when its extension is ".torrent" written
      in any mix of cases. */
  lemma TorrentExtensionIgnoresCase(path: string)
    ensures Classify(path) == TorrentFile <==>
      var e := Ext(path);
      && |e| == 8 && e[0] == '.'
      && forall i :: 1 <= i < 8 ==> e[i] == ".torrent"[i] || e[i] == ".TORRENT"[i]
  {
    var e := Ext(path);
    if Lower(e) == ".torrent" {
      LowersToTorrent(e);
    }
    if |e| == 8 && e[0] == '.' && forall i :: 1 <= i < 8 ==> e[i] == ".torrent"[i] || e[i] == ".TORRENT"[i] {
      TorrentLowers(e);
    }
  }

  lemma LowersToTorrent(e: string)
    requires Lower(e) == ".torrent"
    ensures |e| == 8 && e[0] == '.'
    ensures forall i :: 1 <= i < 8 ==> e[i] == ".torrent"[i] || e[i] == ".TORRENT"[i]
  {
    forall i | 0 <= i < 8
      ensures e[i] == ".torrent"[i] || e[i] == ".TORRENT"[i]
    {
      LowerAt(e, i);
    }
  }

  lemma TorrentLowers(e: string)
    requires |e| == 8 && e[0] == '.'
    requires forall i :: 1 <= i < 8 ==> e[i] == ".torrent"[i] || e[i] == ".TORRENT"[i]
    ensures Lower(e) == ".torrent"
  {
    forall i | 0 <= i < 8
      ensures Lower(e)[i] == ".torrent"[i]
    {
      LowerAt(e, i);
    }
  }

  /** Examples of the dispatch: the case of the extension does not matter, only the last
      extension counts, and a hidden file named ".iso" has no extension at all. */
  lemma UpperCaseIsoIsIso()
    ensures Classify("/tmp/Ubuntu.ISO") == IsoImage
  {
    RFindIs("/tmp/Ubuntu.ISO", '/', 4);
    RFindIs("/tmp/Ubuntu.ISO", '.', 11);
    assert "/tmp/Ubuntu.ISO"[5..11] == "Ubuntu" && "Ubuntu"[0] != '.';
    assert Ext("/tmp/Ubuntu.ISO") == ".ISO";
    IsoExtensionIgnoresCase("/tmp/Ubuntu.ISO");
  }

  lemma MixedCaseTorrentIsTorrent()
    ensures Classify("debian.Torrent") == TorrentFile
  {
    TorrentExampleSplits();
    assert Lower(".Torrent") == ".torrent";
  }

  lemma TorrentExampleSplits()
    ensures Ext("debian.Torrent") == ".Torrent"
  {
    RFindIs("debian.Torrent", '/', -1);
    RFindIs("debian.Torrent", '.', 6);
    assert "debian.Torrent"[0..6] == "debian" && "debian"[0] != '.';
  }

  lemma OnlyLastExtensionCounts()
    ensures Classify("image.iso.txt") == Unsupported
  {
    TxtExampleSplits();
    assert Lower(".txt") == ".txt";
  }

  lemma TxtExampleSplits()
    ensures Ext("image.iso.txt") == ".txt"
  {
    RFindIs("image.iso.txt", '/', -1);
    RFindIs("image.iso.txt", '.', 9);
    assert "image.iso.txt"[0..9] == "image.iso" && "image.iso"[0] != '.';
  }

  lemma HiddenIsoFileIsUnsupported()
    ensures Classify("/media/.iso") == Unsupported
  {
    RFindIs("/media/.iso", '/', 6);
    RFindIs("/media/.iso", '.', 7);
    assert Ext("/media/.iso") == [];
  }

  /** RecoveryError as flash_iso_or_torrent's handler raises it (recovery.py:78-80). */
  function FlashError(path: string, device: string, e: Error): Error {
    Recovery(FlashFailed(path, device, e))
  }

  /** flash_iso_or_torrent (recovery.py:56-80). A .iso file is written with a single dd and no
      fallback; a .torrent file is turned into the path of its ISO image, the placeholder is
      created and flash_iso runs on it; any other extension is refused. Whatever is raised
      inside, the caller sees it wrapped into one more RecoveryError. */
  function FlashIsoOrTorrent(path: string, device: string, w: World): (r: Run)
    ensures r.tried != [] ==> w.pathExists(path) && Classify(path) != Unsupported
    ensures r.outcome.Returned? ==> r.outcome.value && r.tried != [] && !LaunchRaises(w, r.tried[|r.tried| - 1])
  {
    if !w.pathExists(path) then
      Run(Raised(FlashError(path, device, Recovery(FileMissing(path)))), [])
    else
      match Classify(path)
      case IsoImage =>
        var dd := DdCommand(path, device);
        if LaunchRaises(w, dd) then Run(Raised(FlashError(path, device, Foreign(w.launchFault(dd).value))), [dd])
        else Run(Returned(true), [dd])
      case TorrentFile =>
        var isoPath := ConvertTorrentToIso(path);
        if w.createFault(isoPath).Some? then
          Run(Raised(FlashError(path, device, Foreign(w.createFault(isoPath).value))), [])
        else
          var r := FlashIsoSpec(isoPath, device, Created(w, isoPath));
          if r.outcome.Raised? then Run(Raised(FlashError(path, device, r.outcome.error)), r.tried)
          else Run(Returned(true), r.tried)
      case Unsupported =>
        Run(Raised(FlashError(path, device, Recovery(UnsupportedType(Ext(path))))), [])
  }

  /** Every exception that leaves flash_iso_or_torrent is a RecoveryError raised by its own
      handler, and the only value it returns is True; so retry retries every failure of it. */
  lemma FlashRaisesOnlyRecoveryError(path: string, device: string, w: World)
    ensures var o := FlashIsoOrTorrent(path, device, w).outcome;
      && (o.Returned? ==> o.value)
      && (o.Raised? ==> o.IsRecoveryError() && o.error.cause.FlashFailed? && o.error.cause.path == path)
  {
  }

  /** The existence check comes first: a missing file launches nothing and is reported as
      missing whatever its extension. An unsupported extension is refused before any command
      runs and the error names the extension as written, not lowered. */
  lemma FlashChecksBeforeLaunching(path: string, device: string, w: World)
    ensures !w.pathExists(path) ==>
      FlashIsoOrTorrent(path, device, w) == Run(Raised(FlashError(path, device, Recovery(FileMissing(path)))), [])
    ensures w.pathExists(path) && Classify(path) == Unsupported ==>
      FlashIsoOrTorrent(path, device, w) == Run(Raised(FlashError(path, device, Recovery(UnsupportedType(Ext(path))))), [])
  {
  }

  /** A .iso file (in any letter case) is written by exactly one dd, with no fallback to cp:
      the call succeeds exactly when dd could be tried. */
  lemma FlashIsoFileUsesOnlyDd(path: string, device: string, w: World)
    requires w.pathExists(path) && Classify(path) == IsoImage
    ensures FlashIsoOrTorrent(path, device, w).tried == [DdCommand(path, device)]
    ensures FlashIsoOrTorrent(path, device, w).outcome.Returned? <==> !LaunchRaises(w, DdCommand(path, device))
  {
  }

  /** A torrent is converted to the ISO path beside it, which then goes through flash_iso's
      fallback chain: dd on the ISO first, cp only if dd's launch raised. Since the
      placeholder was just created, flash_iso's own existence check passes, and it fails only
      when both launches raise, with flash_iso's error wrapped a second time. */
  lemma FlashTorrentGoesThroughFallback(path: string, device: string, w: World)
    requires w.pathExists(path) && Classify(path) == TorrentFile
    requires w.createFault(ConvertTorrentToIso(path)).None?
    ensures var iso := ConvertTorrentToIso(path);
      var r := FlashIsoOrTorrent(path, device, w);
      var dd, cp := DdCommand(iso, device), CpCommand(iso, device);
      && Classify(iso) == IsoImage
      && r.tried == (if LaunchRaises(w, dd) then [dd, cp] else [dd])
      && (r.outcome.Returned? <==> !LaunchRaises(w, dd) || !LaunchRaises(w, cp))
      && (r.outcome.Raised? ==>
            r.outcome.error == FlashError(path, device, FlashIsoError(iso, device, Recovery(AllMethodsFailed(iso)))))
  {
    var iso := ConvertTorrentToIso(path);
    assert Ext(path) != [];
    ConvertedSplitsAsIso(path);
    assert Ext(iso) == ".iso";
    var w' := Created(w, iso);
    assert w'.pathExists(iso) && w'.launchFault == w.launchFault;
    FlashIsoFallsBackInOrder(iso, device, w');
    var r := FlashIsoSpec(iso, device, w');
    assert FlashIsoOrTorrent(path, device, w) ==
      if r.outcome.Raised? then Run(Raised(FlashError(path, device, r.outcome.error)), r.tried)
      else Run(Returned(true), r.tried);
  }

  /** When the placeholder for a torrent's image cannot be created, open's exception is caught
      by the handler of flash_iso_or_torrent and wrapped: nothing is launched. */
  lemma FlashTorrentFailsWhenPlaceholderFails(path: string, device: string, w: World)
    requires w.pathExists(path) && Classify(path) == TorrentFile
    requires w.createFault(ConvertTorrentToIso(path)).Some?
    ensures FlashIsoOrTorrent(path, device, w) ==
      Run(Raised(FlashError(path, device, Foreign(w.createFault(ConvertTorrentToIso(path)).value))), [])
  {
  }
}
