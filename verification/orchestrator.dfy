/**
 * One patch run from the moment the user confirms it until the working
 * directory is cleaned up: which toolkit commands are issued, in which order,
 * where the run can abort, what `config` it writes and how it ends.
 *
 * The toolkit (`magiskboot`) is a parameter: its exit status and the files it
 * leaves behind are functions of the command, and the digest it prints for
 * `sha1` is a string. File-system steps the run performs itself can fail; the
 * set `faults` says which of them raise.
 */
module Orchestrator {
  import opened Wrappers
  import opened Text
  import opened ApkPayload
  import opened PatchPlan

  /** File-system steps of the run that raise on failure. */
  datatype IoStep =
    | CopyBootImage
    | HashBootImage
    | BackupRamdisk
    | WriteConfig
    | RemoveKernel
    | HashPatchedImage
    | SaveImage

  /** What the run can observe of the toolkit. */
  datatype Toolkit = Toolkit(exit: Command -> int, creates: Command -> set<string>, sha1Output: string)

  /** Everything a run depends on besides the toolkit's path. */
  datatype Env = Env(
    apk: Option<Archive>,
    arch: string,
    options: Options,
    toolkit: Toolkit,
    faults: set<IoStep>,
    savePath: string,
    cleanupFails: bool)

  /** Why a run stopped: the exceptions the run raises or lets through. */
  datatype Abort =
    | ExtractFailed
    | UnpackFailed
    | UnsupportedRamdisk
    | RamdiskPatchFailed
    | RepackFailed
    | OutputMissing
    | SameFile
    | IoFailed(step: IoStep)

  datatype Outcome = Saved(path: string) | SaveCancelled | Aborted(reason: Abort)

  predicate Completed(o: Outcome) {
    o.Saved? || o.SaveCancelled?
  }

  /** The working directory's file names and the toolkit commands issued so far. */
  datatype Progress = Progress(files: set<string>, issued: seq<Command>)

  /** A stage either lets the run go on or stops it. */
  datatype Step = Go(p: Progress) | Halt(why: Abort, issued: seq<Command>)

  /** How the body of a run ends, and the digest written into `config` if it was written. */
  datatype Ending = Ending(outcome: Outcome, issued: seq<Command>, digest: Option<string>)

  /** Issue one toolkit command (its exit status is read by the caller). */
  function Exec(tk: Toolkit, p: Progress, c: Command): Progress {
    Progress(p.files + tk.creates(c), p.issued + [c])
  }

  /** `later` continues `earlier`: commands once issued stay issued, in order. */
  predicate Extends(later: seq<Command>, earlier: seq<Command>) {
    |earlier| <= |later| && later[..|earlier|] == earlier
  }

  lemma ExtendsTransitive(a: seq<Command>, b: seq<Command>, c: seq<Command>)
    requires Extends(b, a) && Extends(c, b)
    ensures Extends(c, a)
  {
    assert c[..|a|] == c[..|b|][..|a|];
  }

  function IssuedSince(p: Progress, q: Progress): seq<Command>
    requires |p.issued| <= |q.issued|
  {
    q.issued[|p.issued|..]
  }

  /**
   * The ramdisk check: without `ramdisk.cpio` nothing happens; otherwise `test`
   * classifies it (0 stock, 1 patched by Magisk, which is restored first; any
   * other status stops the run) and a backup copy is made.
   */
  function CheckRamdisk(tk: Toolkit, faults: set<IoStep>, p: Progress): (s: Step)
    ensures s.Halt? ==> s.why != ExtractFailed
    ensures s.Go? ==> Extends(s.p.issued, p.issued)
    ensures s.Halt? ==> Extends(s.issued, p.issued)
    ensures RamdiskFile !in p.files ==> s == Go(p)
    ensures RamdiskFile in p.files ==>
              (s.Halt? <==> (tk.exit(RamdiskTest) != 0 && tk.exit(RamdiskTest) != 1) || BackupRamdisk in faults)
    ensures RamdiskFile in p.files && tk.exit(RamdiskTest) != 0 && tk.exit(RamdiskTest) != 1 ==>
              s == Halt(UnsupportedRamdisk, p.issued + [RamdiskTest])
    ensures RamdiskFile in p.files && s.Go? ==>
              && RamdiskBackup in s.p.files
              && p.files <= s.p.files
              && s.p.issued == p.issued + (if tk.exit(RamdiskTest) == 0 then [RamdiskTest] else [RamdiskTest, RamdiskRestore])
  {
    if RamdiskFile !in p.files then Go(p)
    else
      var tested := Exec(tk, p, RamdiskTest);
      var status := tk.exit(RamdiskTest);
      if status == 0 then Backup(faults, tested)
      else if status == 1 then Backup(faults, Exec(tk, tested, RamdiskRestore))
      else Halt(UnsupportedRamdisk, tested.issued)
  }

  function Backup(faults: set<IoStep>, p: Progress): Step {
    if BackupRamdisk in faults then Halt(IoFailed(BackupRamdisk), p.issued)
    else Go(Progress(p.files + {RamdiskBackup}, p.issued))
  }

  /** The command that compresses one extracted payload. */
  function CompressCommand(source: string): Command {
    Compress(source, XzTarget(source))
  }

  /** The compress commands for the extracted payloads among `sources`, in order. */
  function Compressions(payload: set<string>, sources: seq<string>): (cs: seq<Command>)
    ensures forall c :: c in cs <==> exists i :: 0 <= i < |sources| && sources[i] in payload && c == CompressCommand(sources[i])
    decreases |sources|
  {
    if |sources| == 0 then []
    else
      var rest := Compressions(payload, sources[1..]);
      assert forall i :: 1 <= i < |sources| ==> sources[i] == sources[1..][i - 1];
      if sources[0] in payload then [CompressCommand(sources[0])] + rest else rest
  }

  /** Compress every payload of `sources` that was extracted, in order; exit statuses are ignored. */
  function CompressAll(tk: Toolkit, p: Progress, payload: set<string>, sources: seq<string>): (q: Progress)
    ensures p.files <= q.files
    ensures q.issued == p.issued + Compressions(payload, sources)
    ensures forall i :: 0 <= i < |sources| && sources[i] in payload ==> tk.creates(CompressCommand(sources[i])) <= q.files
    decreases |sources|
  {
    if |sources| == 0 then p
    else
      var next := if sources[0] in payload then Exec(tk, p, CompressCommand(sources[0])) else p;
      var q := CompressAll(tk, next, payload, sources[1..]);
      assert forall i :: 1 <= i < |sources| ==> sources[i] == sources[1..][i - 1];
      assert sources[0] in payload ==>
               p.issued + [CompressCommand(sources[0])] + Compressions(payload, sources[1..])
               == p.issued + ([CompressCommand(sources[0])] + Compressions(payload, sources[1..]));
      q
  }

  /**
   * A payload that was extracted and whose compression left its `.xz` file
   * behind is added to the ramdisk by the patch invocation built from the
   * directory the compression leaves.
   */
  lemma CompressedPayloadIsAdded(tk: Toolkit, p: Progress, payload: set<string>, i: int)
    requires 0 <= i < |CompressSources| && CompressSources[i] in payload
    requires XzTarget(CompressSources[i]) in tk.creates(CompressCommand(CompressSources[i]))
    ensures AddPayload(XzPayloads[i]) in CpioArgs(CompressAll(tk, p, payload, CompressSources).files)
  {
    var q := CompressAll(tk, p, payload, CompressSources);
    CompressFeedsCpio();
    assert XzFile(XzPayloads[i]) in q.files;
    CpioAddsExactly(q.files, XzPayloads[i]);
  }

  /** The ramdisk patch: one `cpio` invocation when `ramdisk.cpio` exists; a non-zero status stops the run. */
  function PatchRamdisk(tk: Toolkit, p: Progress): (s: Step)
    ensures RamdiskFile !in p.files ==> s == Go(p)
    ensures RamdiskFile in p.files ==>
              (s.Halt? <==> tk.exit(RamdiskPatch(CpioArgs(p.files))) != 0)
              && (s.Halt? ==> s == Halt(RamdiskPatchFailed, p.issued + [RamdiskPatch(CpioArgs(p.files))]))
              && (s.Go? ==> s.p.issued == p.issued + [RamdiskPatch(CpioArgs(p.files))] && p.files <= s.p.files)
  {
    if RamdiskFile !in p.files then Go(p)
    else
      var c := RamdiskPatch(CpioArgs(p.files));
      var q := Exec(tk, p, c);
      if tk.exit(c) != 0 then Halt(RamdiskPatchFailed, q.issued) else Go(q)
  }

  /** The hex-patch commands for `patches`, one each, in order. */
  function Attempts(patches: seq<HexPatch>): (cs: seq<Command>)
    ensures |cs| == |patches|
    ensures forall i :: 0 <= i < |patches| ==> cs[i] == KernelHexPatch(patches[i])
    decreases |patches|
  {
    if |patches| == 0 then []
    else
      assert forall i :: 1 <= i < |patches| ==> patches[i] == patches[1..][i - 1];
      [KernelHexPatch(patches[0])] + Attempts(patches[1..])
  }

  /** Issue every hex patch in order, whatever each one's status. */
  function TryPatches(tk: Toolkit, p: Progress, patches: seq<HexPatch>): (q: Progress)
    ensures q.issued == p.issued + Attempts(patches)
    ensures p.files <= q.files
    decreases |patches|
  {
    if |patches| == 0 then p
    else
      var c := KernelHexPatch(patches[0]);
      var q := TryPatches(tk, Exec(tk, p, c), patches[1..]);
      assert p.issued + [c] + Attempts(patches[1..]) == p.issued + ([c] + Attempts(patches[1..]));
      q
  }

  /** Whether any hex patch reported success. */
  function AnyApplied(tk: Toolkit, patches: seq<HexPatch>): (b: bool)
    ensures b <==> exists i :: 0 <= i < |patches| && tk.exit(KernelHexPatch(patches[i])) == 0
    decreases |patches|
  {
    if |patches| == 0 then false
    else
      assert forall i :: 1 <= i < |patches| ==> patches[i] == patches[1..][i - 1];
      tk.exit(KernelHexPatch(patches[0])) == 0 || AnyApplied(tk, patches[1..])
  }

  /**
   * The kernel stage: when a `kernel` exists every patch is tried (the legacy
   * System-as-Root one only when asked for); a kernel no patch applied to is
   * deleted so the repack keeps the original.
   */
  function PatchKernel(tk: Toolkit, faults: set<IoStep>, p: Progress, patches: seq<HexPatch>): (s: Step)
    ensures s.Go? ==> Extends(s.p.issued, p.issued)
    ensures s.Halt? ==> Extends(s.issued, p.issued)
    ensures KernelFile !in p.files ==> s == Go(p)
    ensures KernelFile in p.files ==>
              var attempts := Attempts(patches);
              var applied := exists i :: 0 <= i < |attempts| && tk.exit(attempts[i]) == 0;
              && (s.Halt? <==> !applied && RemoveKernel in faults)
              && (s.Halt? ==> s == Halt(IoFailed(RemoveKernel), p.issued + attempts))
              && (s.Go? ==> s.p.issued == p.issued + attempts && (KernelFile in s.p.files <==> applied))
  {
    if KernelFile !in p.files then Go(p)
    else
      var q := TryPatches(tk, p, patches);
      var attempts := Attempts(patches);
      assert AnyApplied(tk, patches) <==> exists i :: 0 <= i < |attempts| && tk.exit(attempts[i]) == 0 by {
        if AnyApplied(tk, patches) {
          var i :| 0 <= i < |patches| && tk.exit(KernelHexPatch(patches[i])) == 0;
          assert tk.exit(attempts[i]) == 0;
        }
        if exists i :: 0 <= i < |attempts| && tk.exit(attempts[i]) == 0 {
          var i :| 0 <= i < |attempts| && tk.exit(attempts[i]) == 0;
          assert tk.exit(KernelHexPatch(patches[i])) == 0;
        }
      }
      if AnyApplied(tk, patches) then
        assert exists i :: 0 <= i < |Attempts(patches)| && tk.exit(Attempts(patches)[i]) == 0;
        Go(q)
      else if RemoveKernel in faults then Halt(IoFailed(RemoveKernel), q.issued)
      else Go(Progress(q.files - {KernelFile}, q.issued))
  }

  /** Test and patch every device tree that exists; statuses only go to the log. */
  function PatchDtbs(tk: Toolkit, p: Progress, candidates: seq<string>): (q: Progress)
    ensures p.files <= q.files
    ensures Extends(q.issued, p.issued)
    ensures forall k :: |p.issued| <= k < |q.issued| ==>
              (q.issued[k].DtbTest? || q.issued[k].DtbPatch?) && q.issued[k].file in candidates
    ensures forall k :: |p.issued| <= k < |q.issued| ==> q.issued[k].file in q.files
    ensures forall d :: d in candidates && d in p.files ==>
              DtbTest(d) in IssuedSince(p, q) && DtbPatch(d) in IssuedSince(p, q)
    decreases |candidates|
  {
    if |candidates| == 0 then p
    else
      var d := candidates[0];
      var next := if d in p.files then Exec(tk, Exec(tk, p, DtbTest(d)), DtbPatch(d)) else p;
      var q := PatchDtbs(tk, next, candidates[1..]);
      assert forall e :: e in candidates[1..] ==> e in candidates;
      assert IssuedSince(next, q) == IssuedSince(p, q)[|next.issued| - |p.issued|..];
      assert d in p.files ==> IssuedSince(p, q)[0] == DtbTest(d) && IssuedSince(p, q)[1] == DtbPatch(d);
      q
  }

  /** The `cpio` invocation of the ramdisk stage, when there is a ramdisk. */
  function RamdiskCommands(p: Progress): seq<Command> {
    if RamdiskFile in p.files then [RamdiskPatch(CpioArgs(p.files))] else []
  }

  /** The stages that change the unpacked parts: ramdisk, kernel, device trees. */
  function PatchParts(env: Env, p: Progress): (s: Step)
    ensures (RamdiskFile in p.files ==> env.toolkit.exit(RamdiskPatch(CpioArgs(p.files))) == 0) && RemoveKernel !in env.faults ==> s.Go?
    ensures s.Halt? ==> s.why != ExtractFailed
    ensures s.Go? ==> Extends(s.p.issued, p.issued)
    ensures s.Halt? ==> Extends(s.issued, p.issued)
    ensures s.Go? && RamdiskFile in p.files ==> env.toolkit.exit(RamdiskPatch(CpioArgs(p.files))) == 0
    ensures RamdiskFile in p.files && env.toolkit.exit(RamdiskPatch(CpioArgs(p.files))) != 0 ==>
              s == Halt(RamdiskPatchFailed, p.issued + [RamdiskPatch(CpioArgs(p.files))])
    ensures s.Halt? ==> s.why == RamdiskPatchFailed || s.why == IoFailed(RemoveKernel)
  {
    var tk := env.toolkit;
    match PatchRamdisk(tk, p)
    case Halt(why, issued) => Halt(why, issued)
    case Go(p1) =>
      assert Extends(p1.issued, p.issued);
      match PatchKernel(tk, env.faults, p1, KernelPatches(env.options.legacySar))
      case Halt(why, issued) =>
        ExtendsTransitive(p.issued, p1.issued, issued);
        Halt(why, issued)
      case Go(p2) =>
        var p3 := PatchDtbs(tk, p2, DtbCandidates);
        ExtendsTransitive(p.issued, p1.issued, p2.issued);
        ExtendsTransitive(p.issued, p2.issued, p3.issued);
        Go(p3)
  }

  /**
   * With a kernel present, the kernel stage issues exactly the patches the
   * options select, right after the ramdisk stage: every one of them when
   * the stages go through, and every one of them before a failed deletion.
   */
  lemma PatchPartsTriesKernelPatches(env: Env, p: Progress)
    requires KernelFile in p.files
    ensures var s := PatchParts(env, p);
            var tried := p.issued + RamdiskCommands(p) + Attempts(KernelPatches(env.options.legacySar));
            && (s.Go? ==> Extends(s.p.issued, tried))
            && (s.Halt? && s.why == IoFailed(RemoveKernel) ==> s.issued == tried)
  {
    var tk := env.toolkit;
    var patches := KernelPatches(env.options.legacySar);
    match PatchRamdisk(tk, p)
    case Halt(why, issued) =>
    case Go(p1) =>
      assert p1.issued == p.issued + RamdiskCommands(p) && KernelFile in p1.files;
      match PatchKernel(tk, env.faults, p1, patches)
      case Halt(why, issued) =>
      case Go(p2) =>
        var p3 := PatchDtbs(tk, p2, DtbCandidates);
        assert PatchParts(env, p) == Go(p3);
        assert Extends(p3.issued, p2.issued);
  }

  /** Repack, check the new image, hash it and save it where the user chose. */
  function Finish(env: Env, p: Progress): (e: Ending)
    ensures Completed(e.outcome) <==>
              && env.toolkit.exit(Repack) == 0
              && NewBootImage in p.files + env.toolkit.creates(Repack)
              && HashPatchedImage !in env.faults
              && (env.savePath == "" || SaveImage !in env.faults)
    ensures e.outcome != Aborted(ExtractFailed)
    ensures |p.issued| < |e.issued| && Extends(e.issued, p.issued)
    ensures e.issued[|e.issued| - 1] == Repack
    ensures e.digest == None
    ensures Completed(e.outcome) ==> env.toolkit.exit(Repack) == 0
    ensures e.outcome.Saved? <==> Completed(e.outcome) && env.savePath != "" && SaveImage !in env.faults
    ensures e.outcome.Saved? ==> e.outcome.path == env.savePath
    ensures e.issued == p.issued + [Repack]
    ensures env.toolkit.exit(Repack) != 0 ==> e.outcome == Aborted(RepackFailed)
    ensures env.toolkit.exit(Repack) == 0 && NewBootImage !in p.files + env.toolkit.creates(Repack) ==>
              e.outcome == Aborted(OutputMissing)
    ensures (&& env.toolkit.exit(Repack) == 0 && NewBootImage in p.files + env.toolkit.creates(Repack)
             && HashPatchedImage in env.faults)
            ==> e.outcome == Aborted(IoFailed(HashPatchedImage))
    ensures e.outcome.SaveCancelled? <==> Completed(e.outcome) && env.savePath == ""
    ensures e.outcome.Aborted? ==>
              e.outcome.reason in {RepackFailed, OutputMissing, IoFailed(HashPatchedImage), IoFailed(SaveImage)}
  {
    var tk := env.toolkit;
    var q := Exec(tk, p, Repack);
    assert q.issued[..|p.issued|] == p.issued;
    if tk.exit(Repack) != 0 then Ending(Aborted(RepackFailed), q.issued, None)
    else if NewBootImage !in q.files then Ending(Aborted(OutputMissing), q.issued, None)
    else if HashPatchedImage in env.faults then Ending(Aborted(IoFailed(HashPatchedImage)), q.issued, None)
    else if env.savePath == "" then Ending(SaveCancelled, q.issued, None)
    else if SaveImage in env.faults then Ending(Aborted(IoFailed(SaveImage)), q.issued, None)
    else Ending(Saved(env.savePath), q.issued, None)
  }

  /** Everything after `config` is written. */
  function AfterConfig(env: Env, p: Progress): (e: Ending)
    ensures (&& (RamdiskFile in p.files ==> env.toolkit.exit(RamdiskPatch(CpioArgs(p.files))) == 0)
             && RemoveKernel !in env.faults && HashPatchedImage !in env.faults && SaveImage !in env.faults
             && env.toolkit.exit(Repack) == 0 && NewBootImage in env.toolkit.creates(Repack))
            ==> Completed(e.outcome)
    ensures e.outcome != Aborted(ExtractFailed)
    ensures Extends(e.issued, p.issued)
    ensures e.digest == None
    ensures Completed(e.outcome) ==>
              && e.issued != [] && e.issued[|e.issued| - 1] == Repack
              && env.toolkit.exit(Repack) == 0
              && (RamdiskFile in p.files ==> env.toolkit.exit(RamdiskPatch(CpioArgs(p.files))) == 0)
    ensures e.outcome.Saved? ==> e.outcome.path == env.savePath
  {
    match PatchParts(env, p)
    case Halt(why, issued) => Ending(Aborted(why), issued, None)
    case Go(q) =>
      var e := Finish(env, q);
      assert e.issued[..|p.issued|] == p.issued;
      e
  }

  /**
   * Unpack, check the ramdisk, read the digest, compress the payloads and, in
   * `_patch_worker` as written, copy `magiskinit` onto itself, which raises whenever
   * `magiskinit` was extracted (`asWritten`).
   */
  function Prepare(env: Env, payload: map<string, string>, asWritten: bool): (s: Step)
    ensures (&& env.toolkit.exit(Unpack) == 0
             && (env.toolkit.exit(RamdiskTest) == 0 || env.toolkit.exit(RamdiskTest) == 1)
             && BackupRamdisk !in env.faults && !asWritten)
            ==> s.Go?
    ensures s.Go? ==> Extends(s.p.issued, [Unpack])
    ensures s.Halt? ==> Extends(s.issued, [Unpack])
    ensures env.toolkit.exit(Unpack) != 0 ==> s == Halt(UnpackFailed, [Unpack])
    ensures asWritten && InitName in payload ==> s.Halt?
    ensures s.Halt? ==> s.why != ExtractFailed
    ensures s.Halt? ==> s.why in {UnpackFailed, UnsupportedRamdisk, IoFailed(BackupRamdisk), SameFile}
  {
    var tk := env.toolkit;
    var p1 := Exec(tk, Progress({BootImage} + payload.Keys, []), Unpack);
    if tk.exit(Unpack) != 0 then Halt(UnpackFailed, p1.issued)
    else
      match CheckRamdisk(tk, env.faults, p1)
      case Halt(why, issued) => Halt(why, issued)
      case Go(p2) =>
        var p3 := Exec(tk, p2, Sha1);
        var p4 := CompressAll(tk, p3, payload.Keys, CompressSources);
        ExtendsTransitive(p1.issued, p2.issued, p3.issued);
        ExtendsTransitive(p1.issued, p3.issued, p4.issued);
        if asWritten && InitName in payload then Halt(SameFile, p4.issued) else Go(p4)
  }

  /** Write `config`, then run the remaining stages. */
  function WriteConfigThenFinish(env: Env, p: Progress): (e: Ending)
    ensures e.outcome.Saved? ==> e.outcome.path == env.savePath
    requires Extends(p.issued, [Unpack])
    ensures Extends(e.issued, [Unpack])
    ensures e.outcome != Aborted(ExtractFailed)
    ensures e.digest.Some? <==> WriteConfig !in env.faults
    ensures e.digest.Some? ==> e.digest.value == Strip(env.toolkit.sha1Output)
    ensures Completed(e.outcome) ==> e.digest.Some?
  {
    if WriteConfig in env.faults then Ending(Aborted(IoFailed(WriteConfig)), p.issued, None)
    else
      var e := AfterConfig(env, Progress(p.files + {ConfigFile}, p.issued));
      ExtendsTransitive([Unpack], p.issued, e.issued);
      Ending(e.outcome, e.issued, Some(Strip(env.toolkit.sha1Output)))
  }

  /** The run after extraction. */
  function AfterExtract(env: Env, payload: map<string, string>, asWritten: bool): (e: Ending)
    ensures e.outcome.Saved? ==> e.outcome.path == env.savePath
    ensures Extends(e.issued, [Unpack])
    ensures env.toolkit.exit(Unpack) != 0 ==> e == Ending(Aborted(UnpackFailed), [Unpack], None)
    ensures e.outcome != Aborted(ExtractFailed)
    ensures e.digest.Some? ==> e.digest.value == Strip(env.toolkit.sha1Output)
    ensures Completed(e.outcome) ==> e.digest.Some?
    ensures asWritten && InitName in payload ==> e.outcome.Aborted? && e.digest.None?
  {
    match Prepare(env, payload, asWritten)
    case Halt(why, issued) => Ending(Aborted(why), issued, None)
    case Go(p) => WriteConfigThenFinish(env, p)
  }

  /** The body of the worker: staging, extraction, then the toolkit stages. */
  function Body(env: Env, asWritten: bool): (e: Ending)
    ensures e.outcome.Saved? ==> e.outcome.path == env.savePath
    ensures e.outcome == Aborted(ExtractFailed) <==>
              CopyBootImage !in env.faults && HashBootImage !in env.faults && ExtractFromApk(env.apk, env.arch).Failure?
    ensures e.outcome == Aborted(ExtractFailed) ==> e.issued == [] && e.digest.None?
    ensures e.issued == [] || Extends(e.issued, [Unpack])
    ensures e.digest.Some? ==> e.digest.value == Strip(env.toolkit.sha1Output)
    ensures Completed(e.outcome) ==> e.digest.Some?
    ensures (&& CopyBootImage !in env.faults && HashBootImage !in env.faults
             && ExtractFromApk(env.apk, env.arch).Success? && env.toolkit.exit(Unpack) != 0)
            ==> e == Ending(Aborted(UnpackFailed), [Unpack], None)
    ensures CopyBootImage in env.faults ==> e == Ending(Aborted(IoFailed(CopyBootImage)), [], None)
    ensures CopyBootImage !in env.faults && HashBootImage in env.faults ==>
              e == Ending(Aborted(IoFailed(HashBootImage)), [], None)
  {
    if CopyBootImage in env.faults then Ending(Aborted(IoFailed(CopyBootImage)), [], None)
    else if HashBootImage in env.faults then Ending(Aborted(IoFailed(HashBootImage)), [], None)
    else
      match ExtractFromApk(env.apk, env.arch)
      case Failure(_) => Ending(Aborted(ExtractFailed), [], None)
      case Success(payload) => AfterExtract(env, payload, asWritten)
  }

  /** How a run leaves things: the outcome, the commands issued, `config`, and the cleanup. */
  datatype RunEnd = RunEnd(outcome: Outcome, issued: seq<Command>, config: Option<string>, workDirLeft: bool, patching: bool)

  /**
   * The worker. Whatever happens in the body, the `finally` step removes the
   * working directory (it is left only when the removal itself fails) and
   * clears the busy flag.
   */
  function Worker(env: Env, asWritten: bool): (r: RunEnd)
    ensures !r.patching
    ensures r.workDirLeft <==> env.cleanupFails
    ensures r.outcome == Aborted(ExtractFailed) <==>
              CopyBootImage !in env.faults && HashBootImage !in env.faults && ExtractFromApk(env.apk, env.arch).Failure?
    ensures r.outcome == Aborted(ExtractFailed) ==> r.issued == [] && r.config.None?
    ensures (&& CopyBootImage !in env.faults && HashBootImage !in env.faults
             && ExtractFromApk(env.apk, env.arch).Success? && env.toolkit.exit(Unpack) != 0)
            ==> r.outcome == Aborted(UnpackFailed) && r.issued == [Unpack] && r.config.None?
    ensures r.issued == [] || r.issued[0] == Unpack
    ensures r.outcome.Saved? ==> r.outcome.path == env.savePath
    ensures CopyBootImage in env.faults ==>
              r.outcome == Aborted(IoFailed(CopyBootImage)) && r.issued == [] && r.config.None?
    ensures CopyBootImage !in env.faults && HashBootImage in env.faults ==>
              r.outcome == Aborted(IoFailed(HashBootImage)) && r.issued == [] && r.config.None?
  {
    var e := Body(env, asWritten);
    assert e.issued != [] ==> e.issued[0] == e.issued[..1][0] == Unpack;
    var config := match e.digest
      case None => None
      case Some(d) => Some(ConfigText(env.options, d));
    RunEnd(e.outcome, e.issued, config, env.cleanupFails, false)
  }

  /** The run as `_patch_worker` is written. */
  function PatchRunAsWritten(env: Env): RunEnd {
    Worker(env, true)
  }

  /** The run with the self-copy of `magiskinit` dropped: the file is already in place. */
  function PatchRun(env: Env): RunEnd {
    Worker(env, false)
  }

  /**
   * The `config` a run writes reads back as the run's options and the digest
   * the toolkit printed, trimmed; a run that completes always wrote it.
   */
  lemma ConfigReflectsRun(env: Env, asWritten: bool)
    requires '\n' !in Strip(env.toolkit.sha1Output)
    ensures var r := Worker(env, asWritten);
            && (Completed(r.outcome) ==> r.config.Some?)
            && (r.config.Some? ==> ParseConfig(r.config.value) == Some((env.options, Strip(env.toolkit.sha1Output))))
  {
    ConfigRoundTrip(env.options, Strip(env.toolkit.sha1Output));
  }

  /**
   * `_patch_worker` as written never completes: extraction either fails or yields
   * `magiskinit`, and copying `magiskinit` onto itself then raises, before
   * `config` is written or the ramdisk is touched.
   */
  lemma AsWrittenNeverCompletes(env: Env)
    ensures !Completed(PatchRunAsWritten(env).outcome)
    ensures PatchRunAsWritten(env).config.None?
  {
    var r := ExtractFromApk(env.apk, env.arch);
    if CopyBootImage !in env.faults && HashBootImage !in env.faults && r.Success? {
      assert InitName in r.value;
    }
  }

  /**
   * The input that shows the discrepancy: every step succeeds. The run as written
   * stops with the self-copy error; the corrected run saves the patched image
   * and writes `config`.
   */
  lemma SelfCopyIsTheOnlyObstacle(env: Env)
    requires env.faults == {}
    requires ExtractFromApk(env.apk, env.arch).Success?
    requires env.toolkit.exit(Unpack) == 0 && env.toolkit.exit(RamdiskTest) == 0
    requires forall files :: env.toolkit.exit(RamdiskPatch(CpioArgs(files))) == 0
    requires env.toolkit.exit(Repack) == 0 && NewBootImage in env.toolkit.creates(Repack)
    requires env.savePath != ""
    ensures PatchRunAsWritten(env).outcome == Aborted(SameFile)
    ensures PatchRun(env).outcome == Saved(env.savePath)
    ensures PatchRun(env).config.Some?
  {
    var payload := ExtractFromApk(env.apk, env.arch).value;
    assert InitName in payload;
    var s := Prepare(env, payload, false);
    assert s.Go?;
    var e := AfterConfig(env, Progress(s.p.files + {ConfigFile}, s.p.issued));
    assert Completed(e.outcome);
  }
}
