# Enhanced Magisk boot-image patcher: a Dafny model

This project models the core of `enhanced_magisk_patcher.py`, a desktop tool that
patches an Android boot image with Magisk. The modelled core covers:

- picking the payload binaries out of a Magisk package (`extract_from_apk`),
  including the version code it reads from the package's version script;
- the patch run (`_patch_worker`): every `magiskboot` invocation it issues, in
  order, and every point where it can abort;
- the `config` file the run writes and the `cpio` argument list that patches the
  ramdisk;
- the guard in front of a run (`patch_boot_image`) and the busy flag;
- the release-asset and temporary-directory selections.

The external toolkit is a parameter (`Orchestrator.Toolkit`). Its exit status
and the files it leaves behind are functions of the command it is given. The
`sha1` digest it prints is a string. File-system steps the run performs itself
may raise, and the set `Env.faults` says which do. The package is its list of
entry names plus the decoded version script.

Modules:

- `Wrappers`: `Option` and `Result`.
- `Text`: the Python `str` operations the patcher relies on: `split` on one
  character, `replace(pat, '')`, `strip()`, `startswith` and `endswith`.
- `VersionCode`: the `MAGISK_VER_CODE=` scan.
- `ApkPayload`: entry selection, the payload map and the failure diagnostics.
- `PatchPlan`: the options, the `config` text, the `cpio` arguments, the hex
  patches and the toolkit commands.
- `Orchestrator`: the worker, built stage by stage.
- `Session`: the patch button.
- `Selectors`: the release asset and the temp-directory cleanup.

Only a `stub.apk` inside some folder is extracted: entries with fewer than two
path segments are skipped, so a top-level `stub.apk` is not
(`ApkPayload.PickNeedsTwoSegments`, `ApkPayload.StubExtracted`).

A press of the patch button starts either `_patch_worker` as written or the run
with the self-copy of `magiskinit` removed (see "## Findings"). `Session` takes
the choice as a parameter, and the button's properties hold for both.

## Model

| member | source | states |
|---|---|---|
| Text.Split | enhanced_magisk_patcher.py:1039 | `split('/')` gives at least one part, keeps empty parts, no part holds the separator, joining the parts gives the text back, and there is one part iff the separator is absent |
| Text.SplitJoin | enhanced_magisk_patcher.py:1025 | splitting the join of separator-free parts gives the parts back |
| Text.RemoveAll | enhanced_magisk_patcher.py:1054 | `replace(pat, '')` never lengthens the text |
| Text.RemoveAllKeepsPrefix | enhanced_magisk_patcher.py:1054 | text in front of the first occurrence survives `replace` verbatim |
| Text.Strip | enhanced_magisk_patcher.py:752 | `strip()` returns a slice of its input with only whitespace outside it, and no whitespace at either end of the slice; it gives "" exactly for all-whitespace text |
| Text.StripSurrounded | enhanced_magisk_patcher.py:752 | whitespace runs around a core that neither starts nor ends with whitespace strip to exactly that core |
| Text.StripIdempotent | enhanced_magisk_patcher.py:752 | stripping the already stripped toolkit output again changes nothing |
| VersionCode.DigitRun | enhanced_magisk_patcher.py:1008 | the greedy `\d+` consumes a digit run that ends at the end of the text or at a non-digit |
| VersionCode.DecimalValue | enhanced_magisk_patcher.py:1010 | `int()` of a number's decimal spelling is the number |
| VersionCode.ParseVersionCode | enhanced_magisk_patcher.py:1000-1010 | the version code is the number after the leftmost `MAGISK_VER_CODE=` followed by a digit, or 0 when there is none |
| VersionCode.DeclaredCodeIsRead | enhanced_magisk_patcher.py:1007-1010 | a script declaring `MAGISK_VER_CODE=<n>`, with no earlier `MAGISK_VER_CODE=<digit>` in front of it and no digit right after it, yields exactly `n`; the text in front may hold anything else, the header naming Magisk and the `MAGISK_VER=` line included |
| ApkPayload.AssignStep | enhanced_magisk_patcher.py:1060 | one more dictionary assignment keeps the map equal to "keys written, each holding its last write" |
| ApkPayload.Assign | enhanced_magisk_patcher.py:1037-1092 | the payload map holds exactly the names some entry was extracted under, each mapped to the entry that wrote it last |
| ApkPayload.AvailableArchs | enhanced_magisk_patcher.py:1021-1032 | the diagnostic lists every folder of a three-segment `lib/<arch>/<file>.so` entry, once each |
| ApkPayload.ExtractFromApk | enhanced_magisk_patcher.py:991-1113 | an unreadable package gives nothing; otherwise extraction succeeds iff some entry yields `magiskinit` and no selected entry names the directory itself; on success the map is the last-write map and holds `magiskinit`; a readable package fails with the write error iff some selected entry names the directory itself, and otherwise with the missing-`magiskinit` report, which lists the available folders and says whether the requested one is among them |
| ApkPayload.PickNeedsTwoSegments | enhanced_magisk_patcher.py:1040-1043 | an entry without a `/` is never extracted, so a top-level `stub.apk` is skipped |
| ApkPayload.SplitPath | enhanced_magisk_patcher.py:1040-1045 | a path of separator-free segments splits back into them, so its last two parts are the parent folder and the file |
| ApkPayload.PrimaryLibraryExtracted | enhanced_magisk_patcher.py:1048-1060 | a non-excluded `lib*.so` in the requested folder is extracted under its name with `lib` and `.so` removed |
| ApkPayload.ExcludedNeverExtracted | enhanced_magisk_patcher.py:1049-1051 | `libmagiskboot.so`, `libbusybox.so` and `libmagiskpolicy.so` are never extracted, from any folder |
| ApkPayload.CompatRule | enhanced_magisk_patcher.py:1063-1082 | a library from another folder is extracted iff the version is below 28000, the file is `libmagisk32.so` and the folders are arm64-v8a/armeabi-v7a or x86_64/x86; it is then named `magisk32` |
| ApkPayload.StubExtracted | enhanced_magisk_patcher.py:1085-1092 | `stub.apk` below any folder is extracted for every architecture |
| ApkPayload.MissingScriptEnablesCompat | enhanced_magisk_patcher.py:1000-1019 | without a readable version script the version stays 0, so the 32-bit compatibility copy applies |
| ApkPayload.LogicalNameOfCore | enhanced_magisk_patcher.py:1054 | stripping `lib` and `.so` from `lib<core>.so` gives `<core>` when `<core>` holds neither |
| ApkPayload.CoreName | enhanced_magisk_patcher.py:1054 | the same for any core without `b` or `.` |
| ApkPayload.PackageNames | enhanced_magisk_patcher.py:1054 | the five library files a current package ships become `magisk`, `magisk32`, `magisk64`, `magiskinit` and `init-ld` |
| ApkPayload.OldPackageBorrowsMagisk32 | enhanced_magisk_patcher.py:1037-1107 | a version-27000 arm64 package with `magiskinit` and only an armeabi-v7a `libmagisk32.so` yields exactly `{magiskinit, magisk32}` |
| PatchPlan.FlagText | enhanced_magisk_patcher.py:708-712 | each option is written as `true` or `false` and reads back as itself |
| PatchPlan.ConfigRoundTrip | enhanced_magisk_patcher.py:781-789 | for a one-line digest, the `config` text reads back as the five options and the digest, with a `SHA1=` line iff the digest is non-empty |
| PatchPlan.SplitConfig | enhanced_magisk_patcher.py:781-789 | for a one-line digest, every `config` line ends with a newline and none holds one inside |
| PatchPlan.ConfigFlagsAnyDigest | enhanced_magisk_patcher.py:782-787 | for every digest, multi-line ones included, the first five lines of `config` carry the five flags in order |
| PatchPlan.ConfigDigestAppended | enhanced_magisk_patcher.py:788-789 | for every non-empty digest, multi-line ones included, `config` is the digest-free text followed by `SHA1=<digest>` and a newline |
| PatchPlan.ParseConfigLinesRoundTrip | enhanced_magisk_patcher.py:781-789 | the lines of `config` carry the options in their fixed order and the digest last |
| PatchPlan.PayloadAdds | enhanced_magisk_patcher.py:805-814 | an `add` appears for every payload whose `.xz` exists, and only for such payloads |
| PatchPlan.PayloadAddsOrdered | enhanced_magisk_patcher.py:805-814 | for any two payloads whose `.xz` exists, an `add` for the earlier one comes before an `add` for the later one |
| PatchPlan.PayloadAddsStrictlyOrdered | enhanced_magisk_patcher.py:805-814 | the `add`s come from one pass over the payloads: any two of them, in list order, are for two different payload positions in that same order, so none is repeated or out of order |
| PatchPlan.AddPayloadInjective | enhanced_magisk_patcher.py:808-814 | different payloads get different `add` commands |
| PatchPlan.FixedArgsAreNotAdds | enhanced_magisk_patcher.py:797-822 | none of the fixed `cpio` arguments is a payload `add` |
| PatchPlan.CpioAddsExactly | enhanced_magisk_patcher.py:797-822 | the ramdisk-patch invocation adds a payload iff its `.xz` file is in the working directory |
| PatchPlan.CpioAddsOrdered | enhanced_magisk_patcher.py:805-814 | for any two payloads whose `.xz` exists, the invocation adds the one earlier in the order magisk, magisk32, magisk64, init-ld, stub first |
| PatchPlan.CpioAddsOnceInOrder | enhanced_magisk_patcher.py:797-822 | no payload is added twice, and any two `add`s of the invocation are for payloads in the order magisk, magisk32, magisk64, init-ld, stub |
| PatchPlan.CpioFrame | enhanced_magisk_patcher.py:797-822 | the invocation starts with the fixed `cpio ramdisk.cpio` head, ends with the fixed backup tail, and has at most five `add`s in between |
| PatchPlan.CompressFeedsCpio | enhanced_magisk_patcher.py:761-814 | the `.xz` files compression writes are the ones the ramdisk patch looks for, in the same order |
| Orchestrator.CheckRamdisk | enhanced_magisk_patcher.py:727-746 | without `ramdisk.cpio` nothing happens; otherwise `test` is issued, status 1 adds a restore, any status other than 0 or 1 aborts with "unsupported programs", and a continuing run has the `.orig` backup |
| Orchestrator.Compressions | enhanced_magisk_patcher.py:761-773 | a compress command is issued for a payload iff it was extracted |
| Orchestrator.CompressAll | enhanced_magisk_patcher.py:761-773 | the stage issues exactly the compress commands of the extracted payloads, ignores their statuses, and each compression's output files stay in the directory |
| Orchestrator.CompressedPayloadIsAdded | enhanced_magisk_patcher.py:761-814 | a payload whose compression left its `.xz` is added to the ramdisk |
| Orchestrator.PatchRamdisk | enhanced_magisk_patcher.py:792-827 | with a ramdisk, exactly one `cpio` invocation with the planned arguments is issued and a non-zero status aborts the run |
| Orchestrator.TryPatches | enhanced_magisk_patcher.py:845-860 | every hex patch is attempted, in order, whatever the earlier ones returned |
| Orchestrator.AnyApplied | enhanced_magisk_patcher.py:845-860 | the kernel counts as patched iff some attempt returned 0 |
| Orchestrator.PatchKernel | enhanced_magisk_patcher.py:830-864 | with a kernel, every patch of the list it is given is attempted, in order (the list the run gives it is stated by `PatchPlan.KernelPatchCount` and `Orchestrator.PatchPartsTriesKernelPatches`); the kernel is kept iff some attempt returned 0, and otherwise it is deleted, where a failed deletion aborts |
| PatchPlan.KernelPatchCount | enhanced_magisk_patcher.py:838-858 | the kernel patch list is the three base find/replace pairs in order, followed by the legacy System-as-Root pair as a fourth exactly when `LEGACYSAR` is `true` |
| Orchestrator.PatchDtbs | enhanced_magisk_patcher.py:867-883 | every present device tree is tested and patched; only device-tree commands are issued, each on a candidate file that exists; the stage never aborts |
| Orchestrator.PatchParts | enhanced_magisk_patcher.py:792-883 | the ramdisk, kernel and device-tree stages only append commands; when the ramdisk patch succeeds and the kernel deletion cannot fail, they go through; a failed ramdisk patch stops them right after the `cpio` invocation, and the only ways they stop are a failed ramdisk patch and a failed kernel deletion |
| Orchestrator.PatchPartsTriesKernelPatches | enhanced_magisk_patcher.py:830-864 | with a kernel present, right after the ramdisk stage's `cpio` call the kernel stage issues one `hexpatch` per patch the options select, in order: all of them when the stages go through, and all of them before a failed kernel deletion |
| Orchestrator.Finish | enhanced_magisk_patcher.py:888-931 | repack is the one command added; a non-zero repack status aborts with the repack error, a missing `new-boot.img` with the missing-output error and a failed hash with that step's error, and these and a failed save copy are the only aborts; otherwise the run completes: with a chosen path the image is saved at that path, without one the save is cancelled |
| Orchestrator.AfterConfig | enhanced_magisk_patcher.py:792-931 | a completed run ended with a successful repack after a successful ramdisk patch; the run completes whenever every toolkit step and file step succeeds |
| Orchestrator.Prepare | enhanced_magisk_patcher.py:718-778 | the first command is always `unpack`, and a failed unpack aborts right after it; in `_patch_worker` as written the self-copy of `magiskinit` always aborts; the corrected run goes on whenever unpack and the ramdisk check succeed; the stage stops only on a failed unpack, an unsupported ramdisk, a failed backup or the self-copy |
| Orchestrator.WriteConfigThenFinish | enhanced_magisk_patcher.py:780-789 | `config` is written with the run's digest unless writing raises, and every completed run wrote it |
| Orchestrator.AfterExtract | enhanced_magisk_patcher.py:718-931 | after extraction the run starts with `unpack`, and a run that extracted `magiskinit` never reaches `config` in `_patch_worker` as written |
| Orchestrator.Body | enhanced_magisk_patcher.py:684-935 | extraction failure is reported iff staging worked and extraction failed, and then no command was issued; a failed unpack is the only command issued; a failed copy or hash of the boot image aborts with that step's error before any command |
| Orchestrator.Worker | enhanced_magisk_patcher.py:671-949 | whatever the body does, the busy flag is cleared and the working directory removed unless the removal itself fails; the run's outcome, first command and saved path are as above, and a failed boot-image copy or hash leaves no command issued and no `config` |
| Orchestrator.ConfigReflectsRun | enhanced_magisk_patcher.py:750-789 | when the toolkit's trimmed digest is one line, a run's `config` reads back as its options and that digest; every completed run wrote one |
| Orchestrator.AsWrittenNeverCompletes | enhanced_magisk_patcher.py:776-778 | `_patch_worker` as written never completes and never writes `config` |
| Orchestrator.SelfCopyIsTheOnlyObstacle | enhanced_magisk_patcher.py:776-778 | when every step succeeds `_patch_worker` as written aborts on the self-copy, while the corrected run saves the image and writes `config` |
| Session.PatchBootImage | enhanced_magisk_patcher.py:635-669 | a press during a run is refused; otherwise the first missing selection among boot image, APK and toolkit is reported; a run starts iff all are present and the user confirms; the run clears the busy flag, and `_patch_worker` as written never completes |
| Session.Serve | enhanced_magisk_patcher.py:635-669 | every press gets one response |
| Session.NeverStuckBusy | enhanced_magisk_patcher.py:937-949 | presses handled one after another are never refused as busy, and a complete confirmed request always runs, with either run |
| Selectors.FirstApkAsset | enhanced_magisk_patcher.py:509-513 | the first asset named `Magisk*.apk` is found, with none before it, and nothing is found iff no asset matches |
| Selectors.ApkToDownload | enhanced_magisk_patcher.py:506-517 | a download happens iff the first matching asset has a URL; a later asset is never used |
| Selectors.TempDirs | enhanced_magisk_patcher.py:612-618 | the cleanup considers exactly the entries prefixed `magisk_patch_` |
| Selectors.TempDirsInOrder | enhanced_magisk_patcher.py:616-618 | the working directories are taken in listing order |
| Selectors.RemoveEach | enhanced_magisk_patcher.py:624-631 | every directory is tried; removed plus failed is the total, and a directory is among the failures iff it is unremovable |
| Selectors.RemoveEachInOrder | enhanced_magisk_patcher.py:625-631 | failures are reported in the order the directories are tried |
| Selectors.RemoveEachCount | enhanced_magisk_patcher.py:624-633 | over distinct directories, the count is exactly the number of removable ones and no failure is reported twice |
| Selectors.CleanTempFiles | enhanced_magisk_patcher.py:608-633 | "nothing found" iff no entry has the prefix; otherwise removed plus failed is the number of matches, and the reported failures are exactly the unremovable matches |
| Selectors.CleanTempFilesCount | enhanced_magisk_patcher.py:616-633 | for a listing without repeats, as `os.listdir` gives, the count is exactly the number of removable `magisk_patch_` entries, and each failure is reported once, in listing order |

## Left out

- The Tk user interface, logging, message boxes, the progress bar and the status line: they do not affect what is patched.
- Threads: a run happens on a worker thread, and the model handles presses one after another. `Session.PatchBootImage` states the refusal of a press during a run.
- Network access (the Magisk and toolkit downloads), `check_requirements`, the file dialogs and `save_log`: they only produce inputs of the model.
- File contents: ZIP member bytes, xz compression and the SHA-256 digests. Only the names of files and whether a step raises are modelled.
- Toolkit processes: each command's exit status, created files and printed digest are parameters. A launch failure is the status -1. The printed digest is the stripped standard output whatever the `sha1` exit status; an invocation that raises gives "", which is one possible value of that parameter. The same command always gets the same status.
- `tempfile.mkdtemp` failing, which would leave an earlier run's directory name in place: not modelled.
- Reading a ZIP member that fails halfway through extraction: not modelled. Only an unopenable package and an unwritable name are modelled.
- `MAGISK_VER="..."`: the version name is only logged.
- VersionCode.ParseVersionCode: recognises ASCII digits only, while Python's `\d` also accepts other Unicode decimal digits.
- VersionCode.ParseVersionCode: returns the number for a digit run of any length. From Python 3.11, `int()` raises for more than 4300 digits, the `except` then leaves the version at 0 and the 32-bit rule applies. The limit depends on the interpreter version and its settings.
- ApkPayload.ExtractFromApk: the write error covers only the names "", "." and "..". Names longer than the file system allows (255 bytes on Linux) and Windows-specific file-name rules also make the write raise, but they are not modelled.
- Session.PatchBootImage: Python's `None` and "" for a missing selection are both modelled as "".
- Orchestrator.CompressAll: states which compressions happen, not their relative order.
- Orchestrator.PatchDtbs: states which device-tree commands happen, not how they interleave.
- PatchPlan.ConfigRoundTrip: only for a one-line digest. Stripping removes newlines at the ends of the `sha1` output only, so a toolkit that prints several lines gives a digest with a newline inside, and line 789 writes it as it is. For such a digest, `PatchPlan.ConfigFlagsAnyDigest` and `PatchPlan.ConfigDigestAppended` state what `config` holds.
- PatchPlan.SplitConfig: only for a one-line digest, for the same reason.
- Orchestrator.ConfigReflectsRun: only for a one-line digest, for the same reason.
- Orchestrator.Worker: the GUI calls at enhanced_magisk_patcher.py:673-675, which run before the `try`, and at 946-948, which run in the `finally` before the busy flag is cleared at 949, are assumed not to raise. If one did raise (`set_status` calls `root.update()` from the worker thread), the flag would stay set and every later press would be refused at 637-638.
- Session.NeverStuckBusy: rests on the same assumption about those GUI calls.
- Command lines: each toolkit invocation is a `PatchPlan.Command` value. The `cpio` invocation's arguments are modelled in full (`PatchPlan.CpioArgs`); for the other invocations the argument strings beyond the file or patch they name, the absolute paths given to `compress` and the working directory of each invocation are not modelled.

## Findings

| source | as written | input that shows it | evidently intended | confidence | as-written member | corrected member |
|---|---|---|---|---|---|---|
| enhanced_magisk_patcher.py:776-778 | the run copies `needed_files["magiskinit"]` to `<work dir>/magiskinit`, but extraction already wrote the file to exactly that path, so `shutil.copy2` raises `SameFileError` | any package with `lib/<arch>/libmagiskinit.so` for the chosen architecture and a boot image that unpacks: the run aborts after compression, before `config` is written | `magiskinit` is already in the working directory, so the copy is skipped and the run goes on to write `config` and patch the ramdisk | high; not executed | Orchestrator.AsWrittenNeverCompletes | Orchestrator.SelfCopyIsTheOnlyObstacle |
