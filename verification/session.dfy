/**
 * The patch button: the checks made before a run starts, the confirmation, and
 * the busy flag a run sets and its cleanup clears. Runs are taken one after
 * another, as the user triggers them.
 *
 * `asWritten` chooses the run a press starts: `_patch_worker` as written
 * (`true`, which copies `magiskinit` onto itself) or the corrected run
 * (`false`). Everything the button promises holds for both.
 */
module Session {
  import opened Orchestrator

  /** What is selected when the patch button is pressed; "" stands for nothing selected. */
  datatype Request = Request(bootImage: string, apkPath: string, toolkitPath: string, confirmed: bool, env: Env)

  /** Why a press is refused without asking for confirmation. */
  datatype Refusal = AlreadyPatching | NoBootImage | NoApk | NoToolkit

  datatype Response = Refused(why: Refusal) | Declined | Ran(end: RunEnd)

  /**
   * One press: the checks in the order `patch_boot_image` makes them (a run in
   * progress, then the boot image, the APK and the toolkit), the confirmation,
   * then a run.
   */
  function PatchBootImage(patching: bool, req: Request, asWritten: bool): (r: Response)
    ensures patching ==> r == Refused(AlreadyPatching)
    ensures r == Refused(NoBootImage) <==> !patching && req.bootImage == ""
    ensures r == Refused(NoApk) <==> !patching && req.bootImage != "" && req.apkPath == ""
    ensures r == Refused(NoToolkit) <==> !patching && req.bootImage != "" && req.apkPath != "" && req.toolkitPath == ""
    ensures r.Ran? <==> !patching && req.bootImage != "" && req.apkPath != "" && req.toolkitPath != "" && req.confirmed
    ensures r.Ran? ==> r.end == Worker(req.env, asWritten) && !r.end.patching
    ensures r.Ran? && asWritten ==> !Completed(r.end.outcome)
  {
    if patching then Refused(AlreadyPatching)
    else if req.bootImage == "" then Refused(NoBootImage)
    else if req.apkPath == "" then Refused(NoApk)
    else if req.toolkitPath == "" then Refused(NoToolkit)
    else if !req.confirmed then Declined
    else
      AsWrittenNeverCompletes(req.env);
      Ran(Worker(req.env, asWritten))
  }

  /** The busy flag after a press. */
  function BusyAfter(patching: bool, r: Response): bool {
    match r
    case Ran(end) => end.patching
    case _ => patching
  }

  /** Presses handled one after another, each starting from the flag the previous one left. */
  function Serve(patching: bool, reqs: seq<Request>, asWritten: bool): (rs: seq<Response>)
    ensures |rs| == |reqs|
    decreases |reqs|
  {
    if |reqs| == 0 then []
    else
      var r := PatchBootImage(patching, reqs[0], asWritten);
      [r] + Serve(BusyAfter(patching, r), reqs[1..], asWritten)
  }

  /**
   * Runs always clear the busy flag, so presses handled one after another are
   * never refused as "already patching", and a press with everything selected
   * and confirmed always runs.
   */
  lemma {:induction false} NeverStuckBusy(reqs: seq<Request>, asWritten: bool)
    ensures forall k :: 0 <= k < |reqs| ==> Serve(false, reqs, asWritten)[k] != Refused(AlreadyPatching)
    ensures forall k :: 0 <= k < |reqs| ==>
              && reqs[k].bootImage != "" && reqs[k].apkPath != "" && reqs[k].toolkitPath != "" && reqs[k].confirmed
              ==> Serve(false, reqs, asWritten)[k].Ran?
    decreases |reqs|
  {
    if |reqs| > 0 {
      var r := PatchBootImage(false, reqs[0], asWritten);
      assert !BusyAfter(false, r);
      NeverStuckBusy(reqs[1..], asWritten);
      forall k | 1 <= k < |reqs|
        ensures Serve(false, reqs, asWritten)[k] == Serve(false, reqs[1..], asWritten)[k - 1]
      {
      }
    }
  }
}
