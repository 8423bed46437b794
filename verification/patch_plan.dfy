/**
 * The fixed inputs the patch run hands to `magiskboot`: the boolean options and
 * the `config` file built from them, the single `cpio` invocation that patches
 * the ramdisk, the kernel hex patches, the device-tree candidates, and the
 * vocabulary of toolkit commands.
 */
module PatchPlan {
  import opened Wrappers
  import opened Text

  /** The five boot options chosen before a run; never changed during it. */
  datatype Options = Options(
    keepVerity: bool,
    keepForceEncrypt: bool,
    recoveryMode: bool,
    patchVbmetaFlag: bool,
    legacySar: bool)

  /** `'true' if flag else 'false'`. */
  function FlagText(b: bool): (t: string)
    ensures ParseFlag(t) == Some(b)
  {
    if b then "true" else "false"
  }

  function ParseFlag(t: string): Option<bool> {
    if t == "true" then Some(true) else if t == "false" then Some(false) else None
  }

  const ConfigKeys: seq<string> := ["KEEPVERITY", "KEEPFORCEENCRYPT", "RECOVERYMODE", "PATCHVBMETAFLAG", "LEGACYSAR"]

  function Flags(o: Options): seq<bool> {
    [o.keepVerity, o.keepForceEncrypt, o.recoveryMode, o.patchVbmetaFlag, o.legacySar]
  }

  /** One `KEY=value` line, without its newline. */
  function ConfigLine(key: string, value: string): string {
    key + "=" + value
  }

  /** The lines of the `config` file: the five flags in order, then `SHA1=` only for a non-empty digest. */
  function ConfigLines(o: Options, sha1: string): seq<string> {
    [ ConfigLine(ConfigKeys[0], FlagText(o.keepVerity)),
      ConfigLine(ConfigKeys[1], FlagText(o.keepForceEncrypt)),
      ConfigLine(ConfigKeys[2], FlagText(o.recoveryMode)),
      ConfigLine(ConfigKeys[3], FlagText(o.patchVbmetaFlag)),
      ConfigLine(ConfigKeys[4], FlagText(o.legacySar)) ]
    + (if sha1 != "" then [ConfigLine("SHA1", sha1)] else [])
  }

  /** The `config` file's text: every line ends with a newline. */
  function ConfigText(o: Options, sha1: string): string {
    Join(ConfigLines(o, sha1) + [""], '\n')
  }

  /** The value of a `key=value` line, if the line is for `key`. */
  function ValueOf(line: string, key: string): Option<string> {
    if StartsWith(line, key + "=") then Some(line[|key| + 1..]) else None
  }

  function FlagOf(line: string, key: string): Option<bool> {
    match ValueOf(line, key)
    case None => None
    case Some(v) => ParseFlag(v)
  }

  /** A reader for the `config` format: the options and the digest ("" when absent). */
  function ParseConfig(text: string): Option<(Options, string)> {
    ParseConfigLines(Split(text, '\n'))
  }

  function ParseConfigLines(parts: seq<string>): Option<(Options, string)> {
    if !(|parts| == 6 || |parts| == 7) || parts[|parts| - 1] != "" then None
    else
      var kv := FlagOf(parts[0], ConfigKeys[0]);
      var kfe := FlagOf(parts[1], ConfigKeys[1]);
      var rm := FlagOf(parts[2], ConfigKeys[2]);
      var vb := FlagOf(parts[3], ConfigKeys[3]);
      var sar := FlagOf(parts[4], ConfigKeys[4]);
      if kv.None? || kfe.None? || rm.None? || vb.None? || sar.None? then None
      else
        var o := Options(kv.value, kfe.value, rm.value, vb.value, sar.value);
        if |parts| == 6 then Some((o, ""))
        else match ValueOf(parts[5], "SHA1")
          case Some(d) => if d != "" then Some((o, d)) else None
          case None => None
  }

  lemma ValueOfLine(key: string, value: string)
    ensures ValueOf(ConfigLine(key, value), key) == Some(value)
  {
    var line := ConfigLine(key, value);
    assert line[..|key| + 1] == key + "=";
    assert line[|key| + 1..] == value;
  }

  /**
   * Round trip: reading back the `config` text yields the options and the digest
   * it was written from; the digest line is there exactly when the digest is
   * non-empty.
   */
  lemma ConfigRoundTrip(o: Options, sha1: string)
    requires '\n' !in sha1
    ensures ParseConfig(ConfigText(o, sha1)) == Some((o, sha1))
    ensures |Split(ConfigText(o, sha1), '\n')| == (if sha1 == "" then 6 else 7)
  {
    SplitConfig(o, sha1);
    ParseConfigLinesRoundTrip(o, sha1);
  }

  lemma LineWithoutNewline(key: string, value: string)
    requires '\n' !in key && '\n' !in value
    ensures '\n' !in ConfigLine(key, value)
  {
  }

  lemma FlagWithoutNewline(b: bool)
    ensures '\n' !in FlagText(b)
  {
  }

  lemma KeysWithoutNewline()
    ensures forall i :: 0 <= i < |ConfigKeys| ==> '\n' !in ConfigKeys[i]
    ensures '\n' !in "SHA1"
  {
  }

  /** The `config` text splits back into its lines and a trailing empty part. */
  lemma SplitConfig(o: Options, sha1: string)
    requires '\n' !in sha1
    ensures Split(ConfigText(o, sha1), '\n') == ConfigLines(o, sha1) + [""]
  {
    var parts := ConfigLines(o, sha1) + [""];
    KeysWithoutNewline();
    FlagWithoutNewline(o.keepVerity);
    FlagWithoutNewline(o.keepForceEncrypt);
    FlagWithoutNewline(o.recoveryMode);
    FlagWithoutNewline(o.patchVbmetaFlag);
    FlagWithoutNewline(o.legacySar);
    LineWithoutNewline(ConfigKeys[0], FlagText(o.keepVerity));
    LineWithoutNewline(ConfigKeys[1], FlagText(o.keepForceEncrypt));
    LineWithoutNewline(ConfigKeys[2], FlagText(o.recoveryMode));
    LineWithoutNewline(ConfigKeys[3], FlagText(o.patchVbmetaFlag));
    LineWithoutNewline(ConfigKeys[4], FlagText(o.legacySar));
    LineWithoutNewline("SHA1", sha1);
    assert forall i :: 0 <= i < |parts| ==> '\n' !in parts[i];
    SplitJoin(parts, '\n');
  }

  /** The flag lines come first, then whatever the digest contributes. */
  function DigestTail(sha1: string): seq<string> {
    (if sha1 != "" then [ConfigLine("SHA1", sha1)] else []) + [""]
  }

  lemma ConfigTextParts(o: Options, sha1: string)
    ensures ConfigText(o, sha1) == Join(ConfigLines(o, ""), '\n') + "\n" + Join(DigestTail(sha1), '\n')
  {
    assert ConfigLines(o, sha1) + [""] == ConfigLines(o, "") + DigestTail(sha1);
    JoinAppend(ConfigLines(o, ""), DigestTail(sha1), '\n');
  }

  /**
   * For every digest, including one that spans several lines, the first five
   * lines of `config` carry the five flags.
   */
  lemma ConfigFlagsAnyDigest(o: Options, sha1: string)
    ensures var parts := Split(ConfigText(o, sha1), '\n');
            && |parts| >= 6
            && forall k :: 0 <= k < 5 ==> FlagOf(parts[k], ConfigKeys[k]) == Some(Flags(o)[k])
  {
    var flags := ConfigLines(o, "");
    ConfigTextParts(o, sha1);
    FlagLinesWithoutNewline(o);
    SplitJoinThen(flags, Join(DigestTail(sha1), '\n'), '\n');
    var parts := Split(ConfigText(o, sha1), '\n');
    forall k | 0 <= k < 5
      ensures FlagOf(parts[k], ConfigKeys[k]) == Some(Flags(o)[k])
    {
      assert parts[k] == (flags + [""])[k];
      FlagLine(o, "", k);
    }
  }

  /**
   * For every non-empty digest, including one that spans several lines, the
   * digest only appends `SHA1=<digest>` and a newline to the digest-free text.
   */
  lemma ConfigDigestAppended(o: Options, sha1: string)
    requires sha1 != ""
    ensures ConfigText(o, sha1) == ConfigText(o, "") + "SHA1=" + sha1 + "\n"
  {
    ConfigTextParts(o, sha1);
    ConfigTextParts(o, "");
    assert Join(DigestTail(sha1), '\n') == ConfigLine("SHA1", sha1) + "\n";
    assert Join(DigestTail(""), '\n') == "";
  }

  /** No line of the digest-free `config` holds a newline. */
  lemma FlagLinesWithoutNewline(o: Options)
    ensures forall i :: 0 <= i < |ConfigLines(o, "")| ==> '\n' !in ConfigLines(o, "")[i]
  {
    KeysWithoutNewline();
    FlagWithoutNewline(o.keepVerity);
    FlagWithoutNewline(o.keepForceEncrypt);
    FlagWithoutNewline(o.recoveryMode);
    FlagWithoutNewline(o.patchVbmetaFlag);
    FlagWithoutNewline(o.legacySar);
    LineWithoutNewline(ConfigKeys[0], FlagText(o.keepVerity));
    LineWithoutNewline(ConfigKeys[1], FlagText(o.keepForceEncrypt));
    LineWithoutNewline(ConfigKeys[2], FlagText(o.recoveryMode));
    LineWithoutNewline(ConfigKeys[3], FlagText(o.patchVbmetaFlag));
    LineWithoutNewline(ConfigKeys[4], FlagText(o.legacySar));
  }

  lemma FlagOfLine(key: string, b: bool)
    ensures FlagOf(ConfigLine(key, FlagText(b)), key) == Some(b)
  {
    ValueOfLine(key, FlagText(b));
  }

  lemma ParseConfigLinesRoundTrip(o: Options, sha1: string)
    ensures ParseConfigLines(ConfigLines(o, sha1) + [""]) == Some((o, sha1))
  {
    ConfigLinesCarry(o, sha1);
    ParseLines(ConfigLines(o, sha1) + [""], o, sha1);
  }

  /** Each written line carries its flag, and the sixth line the digest when there is one. */
  lemma ConfigLinesCarry(o: Options, sha1: string)
    ensures var parts := ConfigLines(o, sha1) + [""];
            && |parts| == (if sha1 == "" then 6 else 7) && parts[|parts| - 1] == ""
            && (forall k :: 0 <= k < 5 ==> FlagOf(parts[k], ConfigKeys[k]) == Some(Flags(o)[k]))
            && (sha1 != "" ==> ValueOf(parts[5], "SHA1") == Some(sha1))
  {
    var parts := ConfigLines(o, sha1) + [""];
    forall k | 0 <= k < 5
      ensures FlagOf(parts[k], ConfigKeys[k]) == Some(Flags(o)[k])
    {
      FlagLine(o, sha1, k);
    }
    if sha1 != "" {
      DigestLine(o, sha1);
    }
  }

  lemma FlagLine(o: Options, sha1: string, k: int)
    requires 0 <= k < 5
    ensures FlagOf((ConfigLines(o, sha1) + [""])[k], ConfigKeys[k]) == Some(Flags(o)[k])
  {
    assert (ConfigLines(o, sha1) + [""])[k] == ConfigLine(ConfigKeys[k], FlagText(Flags(o)[k]));
    FlagOfLine(ConfigKeys[k], Flags(o)[k]);
  }

  lemma DigestLine(o: Options, sha1: string)
    requires sha1 != ""
    ensures ValueOf((ConfigLines(o, sha1) + [""])[5], "SHA1") == Some(sha1)
  {
    ValueOfLine("SHA1", sha1);
    assert (ConfigLines(o, sha1) + [""])[5] == ConfigLine("SHA1", sha1);
  }

  /** Lines carrying the five flags in order, then the digest line when there is a digest, read back. */
  lemma ParseLines(parts: seq<string>, o: Options, sha1: string)
    requires |parts| == (if sha1 == "" then 6 else 7) && parts[|parts| - 1] == ""
    requires forall k :: 0 <= k < 5 ==> FlagOf(parts[k], ConfigKeys[k]) == Some(Flags(o)[k])
    requires sha1 != "" ==> ValueOf(parts[5], "SHA1") == Some(sha1)
    ensures ParseConfigLines(parts) == Some((o, sha1))
  {
    assert FlagOf(parts[0], ConfigKeys[0]) == Some(o.keepVerity);
    assert FlagOf(parts[1], ConfigKeys[1]) == Some(o.keepForceEncrypt);
    assert FlagOf(parts[2], ConfigKeys[2]) == Some(o.recoveryMode);
    assert FlagOf(parts[3], ConfigKeys[3]) == Some(o.patchVbmetaFlag);
    assert FlagOf(parts[4], ConfigKeys[4]) == Some(o.legacySar);
  }

  /** The payloads the ramdisk receives as `overlay.d/sbin/<name>.xz`, in the order they are added. */
  const XzPayloads: seq<string> := ["magisk", "magisk32", "magisk64", "init-ld", "stub"]

  function XzFile(name: string): string {
    name + ".xz"
  }

  /** The `cpio` command that adds one compressed payload. */
  function AddPayload(name: string): string {
    "add 0644 overlay.d/sbin/" + XzFile(name) + " " + XzFile(name)
  }

  const CpioHead: seq<string> := ["cpio", "ramdisk.cpio", "add 0750 init magiskinit", "mkdir 0750 overlay.d", "mkdir 0750 overlay.d/sbin"]
  const CpioTail: seq<string> := ["patch", "backup ramdisk.cpio.orig", "mkdir 000 .backup", "add 000 .backup/.magisk config"]

  /** One `add` per payload of `names` whose `.xz` file is in the working directory. */
  function PayloadAdds(names: seq<string>, files: set<string>): (adds: seq<string>)
    ensures |adds| <= |names|
    ensures forall k :: 0 <= k < |adds| ==>
              exists i :: 0 <= i < |names| && adds[k] == AddPayload(names[i]) && XzFile(names[i]) in files
    ensures forall i :: 0 <= i < |names| && XzFile(names[i]) in files ==> AddPayload(names[i]) in adds
    decreases |names|
  {
    if |names| == 0 then []
    else
      var rest := PayloadAdds(names[1..], files);
      assert forall i :: 1 <= i < |names| ==> names[i] == names[1..][i - 1];
      if XzFile(names[0]) in files then [AddPayload(names[0])] + rest else rest
  }

  /** Selecting from a concatenation selects from each half in turn. */
  lemma {:induction false} PayloadAddsAppend(a: seq<string>, b: seq<string>, files: set<string>)
    ensures PayloadAdds(a + b, files) == PayloadAdds(a, files) + PayloadAdds(b, files)
    decreases |a|
  {
    if |a| == 0 {
      assert a + b == b;
    } else {
      assert (a + b)[1..] == a[1..] + b;
      PayloadAddsAppend(a[1..], b, files);
    }
  }

  /** Payloads earlier in `names` are added earlier. */
  lemma PayloadAddsOrdered(names: seq<string>, files: set<string>, i: int, j: int)
    requires 0 <= i < j < |names|
    requires XzFile(names[i]) in files && XzFile(names[j]) in files
    ensures exists a, b :: 0 <= a < b < |PayloadAdds(names, files)|
                           && PayloadAdds(names, files)[a] == AddPayload(names[i])
                           && PayloadAdds(names, files)[b] == AddPayload(names[j])
  {
    var front := PayloadAdds(names[..j], files);
    var back := PayloadAdds(names[j..], files);
    assert names == names[..j] + names[j..];
    PayloadAddsAppend(names[..j], names[j..], files);
    assert names[..j][i] == names[i];
    assert AddPayload(names[i]) in front;
    var a :| 0 <= a < |front| && front[a] == AddPayload(names[i]);
    assert names[j..][0] == names[j];
    assert back[0] == AddPayload(names[j]);
    assert PayloadAdds(names, files)[a] == front[a];
    assert PayloadAdds(names, files)[|front|] == back[0];
  }

  /** Any two `add`s, taken in list order, come from two distinct positions of `names` in that same order. */
  ghost predicate AddsFollow(adds: seq<string>, names: seq<string>) {
    forall a, b :: 0 <= a < b < |adds| ==> PairFollows(adds, names, a, b)
  }

  /** The `add`s at `a` and `b` are for payload positions `i < j` of `names`. */
  ghost predicate PairFollows(adds: seq<string>, names: seq<string>, a: int, b: int)
    requires 0 <= a < b < |adds|
  {
    exists i, j :: 0 <= i < j < |names| && adds[a] == AddPayload(names[i]) && adds[b] == AddPayload(names[j])
  }

  /**
   * The `add`s are made in one pass over `names`: no payload position is
   * visited twice and none out of order.
   */
  lemma {:induction false} PayloadAddsStrictlyOrdered(names: seq<string>, files: set<string>)
    ensures AddsFollow(PayloadAdds(names, files), names)
    decreases |names|
  {
    if |names| > 0 {
      var rest := PayloadAdds(names[1..], files);
      PayloadAddsStrictlyOrdered(names[1..], files);
      AddsFollowShift(rest, names);
      if XzFile(names[0]) in files {
        assert PayloadAdds(names, files) == [AddPayload(names[0])] + rest;
        AddsFollowCons(names, files);
      } else {
        assert PayloadAdds(names, files) == rest;
      }
    }
  }

  /** Positions in `names[1..]` are positions in `names`, one further on. */
  lemma AddsFollowShift(adds: seq<string>, names: seq<string>)
    requires |names| >= 1
    requires AddsFollow(adds, names[1..])
    ensures AddsFollow(adds, names)
  {
    forall a, b | 0 <= a < b < |adds|
      ensures PairFollows(adds, names, a, b)
    {
      assert PairFollows(adds, names[1..], a, b);
      var i, j :| 0 <= i < j < |names[1..]| && adds[a] == AddPayload(names[1..][i]) && adds[b] == AddPayload(names[1..][j]);
      assert names[1..][i] == names[i + 1] && names[1..][j] == names[j + 1];
      assert 0 <= i + 1 < j + 1 < |names| && adds[a] == AddPayload(names[i + 1]) && adds[b] == AddPayload(names[j + 1]);
    }
  }

  /** An `add` for the first payload goes in front of the `add`s for the later ones. */
  lemma AddsFollowCons(names: seq<string>, files: set<string>)
    requires |names| >= 1
    requires AddsFollow(PayloadAdds(names[1..], files), names)
    ensures AddsFollow([AddPayload(names[0])] + PayloadAdds(names[1..], files), names)
  {
    var rest := PayloadAdds(names[1..], files);
    var adds := [AddPayload(names[0])] + rest;
    forall a, b | 0 <= a < b < |adds|
      ensures PairFollows(adds, names, a, b)
    {
      assert adds[b] == rest[b - 1];
      if a == 0 {
        var i :| 0 <= i < |names[1..]| && rest[b - 1] == AddPayload(names[1..][i]) && XzFile(names[1..][i]) in files;
        assert names[1..][i] == names[i + 1];
        assert 0 <= 0 < i + 1 < |names| && adds[a] == AddPayload(names[0]) && adds[b] == AddPayload(names[i + 1]);
      } else {
        assert adds[a] == rest[a - 1];
        assert PairFollows(rest, names, a - 1, b - 1);
        var i, j :| 0 <= i < j < |names| && rest[a - 1] == AddPayload(names[i]) && rest[b - 1] == AddPayload(names[j]);
        assert adds[a] == AddPayload(names[i]) && adds[b] == AddPayload(names[j]);
      }
    }
  }

  /** Different payloads get different `add` commands. */
  lemma AddPayloadInjective(m: string, n: string)
    requires AddPayload(m) == AddPayload(n)
    ensures m == n
  {
    var pre := AddPrefix;
    assert |AddPayload(m)| == |pre| + 2 * |m| + 7;
    assert |m| == |n|;
    assert AddPayload(m)[|pre|..|pre| + |m|] == m;
    assert AddPayload(n)[|pre|..|pre| + |n|] == n;
  }

  const AddPrefix: string := "add 0644 overlay.d/sbin/"

  lemma AddPayloadPrefix(n: string)
    ensures StartsWith(AddPayload(n), AddPrefix)
  {
  }

  /** None of the fixed arguments is a payload `add`. */
  lemma FixedArgsAreNotAdds()
    ensures forall c :: c in CpioHead + CpioTail ==> !StartsWith(c, AddPrefix)
  {
    forall c | c in CpioHead + CpioTail
      ensures !StartsWith(c, AddPrefix)
    {
      if |c| >= |AddPrefix| {
        assert c[0] != AddPrefix[0] || c[5] != AddPrefix[5];
      }
    }
  }

  /** The complete argument list of the ramdisk-patch invocation (after the toolkit's path). */
  function CpioArgs(files: set<string>): seq<string> {
    CpioHead + PayloadAdds(XzPayloads, files) + CpioTail
  }

  /** An `add` appears exactly for the payloads whose `.xz` file exists. */
  lemma CpioAddsExactly(files: set<string>, n: string)
    requires n in XzPayloads
    ensures AddPayload(n) in CpioArgs(files) <==> XzFile(n) in files
  {
    var adds := PayloadAdds(XzPayloads, files);
    var args := CpioArgs(files);
    AddPayloadPrefix(n);
    FixedArgsAreNotAdds();
    if AddPayload(n) in args {
      assert AddPayload(n) !in CpioHead + CpioTail;
      assert AddPayload(n) in adds;
      var k :| 0 <= k < |adds| && adds[k] == AddPayload(n);
      var i :| 0 <= i < |XzPayloads| && adds[k] == AddPayload(XzPayloads[i]) && XzFile(XzPayloads[i]) in files;
      AddPayloadInjective(n, XzPayloads[i]);
    } else {
      var i :| 0 <= i < |XzPayloads| && XzPayloads[i] == n;
      assert AddPayload(n) !in adds;
    }
  }

  /** Payload `add`s keep the payload order. */
  lemma CpioAddsOrdered(files: set<string>, i: int, j: int)
    requires 0 <= i < j < |XzPayloads|
    requires XzFile(XzPayloads[i]) in files && XzFile(XzPayloads[j]) in files
    ensures exists a, b :: 0 <= a < b < |CpioArgs(files)|
              && CpioArgs(files)[a] == AddPayload(XzPayloads[i]) && CpioArgs(files)[b] == AddPayload(XzPayloads[j])
  {
    var args := CpioArgs(files);
    var x, y := XzPayloads[i], XzPayloads[j];
    FramedOrder(CpioHead, XzPayloads, CpioTail, files, i, j);
    var a, b :| 0 <= a < b < |args| && args[a] == AddPayload(x) && args[b] == AddPayload(y);
  }

  /**
   * Each payload is added at most once, and the `add`s in the invocation are in
   * the order magisk, magisk32, magisk64, init-ld, stub.
   */
  lemma CpioAddsOnceInOrder(files: set<string>)
    ensures var args := CpioArgs(files);
            forall a, b :: 0 <= a < b < |args| && StartsWith(args[a], AddPrefix) && StartsWith(args[b], AddPrefix) ==>
              exists i, j :: 0 <= i < j < |XzPayloads| && args[a] == AddPayload(XzPayloads[i]) && args[b] == AddPayload(XzPayloads[j])
    ensures var args := CpioArgs(files);
            forall a, b :: 0 <= a < b < |args| && StartsWith(args[a], AddPrefix) ==> args[a] != args[b]
  {
    FixedArgsAreNotAdds();
    XzPayloadsDistinct();
    FramedAddsOnceInOrder(CpioHead, XzPayloads, CpioTail, files);
    assert CpioArgs(files) == CpioHead + PayloadAdds(XzPayloads, files) + CpioTail;
  }

  lemma XzPayloadsDistinct()
    ensures forall i, j :: 0 <= i < j < |XzPayloads| ==> XzPayloads[i] != XzPayloads[j]
  {
  }

  /** The ordering and at-most-once facts for distinct payloads between fixed arguments that are not `add`s. */
  lemma FramedAddsOnceInOrder(head: seq<string>, names: seq<string>, tail: seq<string>, files: set<string>)
    requires forall c :: c in head + tail ==> !StartsWith(c, AddPrefix)
    requires forall i, j :: 0 <= i < j < |names| ==> names[i] != names[j]
    ensures var args := head + PayloadAdds(names, files) + tail;
            forall a, b :: 0 <= a < b < |args| && StartsWith(args[a], AddPrefix) && StartsWith(args[b], AddPrefix) ==>
              exists i, j :: 0 <= i < j < |names| && args[a] == AddPayload(names[i]) && args[b] == AddPayload(names[j])
    ensures var args := head + PayloadAdds(names, files) + tail;
            forall a, b :: 0 <= a < b < |args| && StartsWith(args[a], AddPrefix) ==> args[a] != args[b]
  {
    var adds := PayloadAdds(names, files);
    var args := head + adds + tail;
    PayloadAddsStrictlyOrdered(names, files);
    forall a, b | 0 <= a < b < |args| && StartsWith(args[a], AddPrefix) && StartsWith(args[b], AddPrefix)
      ensures exists i, j :: 0 <= i < j < |names| && args[a] == AddPayload(names[i]) && args[b] == AddPayload(names[j])
    {
      AddIsInTheMiddle(head, adds, tail, a);
      AddIsInTheMiddle(head, adds, tail, b);
      assert PairFollows(adds, names, a - |head|, b - |head|);
    }
    forall a, b | 0 <= a < b < |args| && StartsWith(args[a], AddPrefix)
      ensures args[a] != args[b]
    {
      if args[a] == args[b] {
        AddIsInTheMiddle(head, adds, tail, a);
        AddIsInTheMiddle(head, adds, tail, b);
        assert PairFollows(adds, names, a - |head|, b - |head|);
        var i, j :| 0 <= i < j < |names| && args[a] == AddPayload(names[i]) && args[b] == AddPayload(names[j]);
        AddPayloadInjective(names[i], names[j]);
      }
    }
  }

  /** An argument that looks like a payload `add` is not one of the fixed arguments around the `add`s. */
  lemma AddIsInTheMiddle(head: seq<string>, mid: seq<string>, tail: seq<string>, a: int)
    requires forall c :: c in head + tail ==> !StartsWith(c, AddPrefix)
    requires 0 <= a < |head + mid + tail| && StartsWith((head + mid + tail)[a], AddPrefix)
    ensures |head| <= a < |head| + |mid| && (head + mid + tail)[a] == mid[a - |head|]
  {
  }

  lemma FramedOrder(head: seq<string>, names: seq<string>, tail: seq<string>, files: set<string>, i: int, j: int)
    requires 0 <= i < j < |names|
    requires XzFile(names[i]) in files && XzFile(names[j]) in files
    ensures var args := head + PayloadAdds(names, files) + tail;
            exists a, b :: 0 <= a < b < |args| && args[a] == AddPayload(names[i]) && args[b] == AddPayload(names[j])
  {
    var adds := PayloadAdds(names, files);
    PayloadAddsOrdered(names, files, i, j);
    var a, b :| 0 <= a < b < |adds| && adds[a] == AddPayload(names[i]) && adds[b] == AddPayload(names[j]);
    Framed(head, adds, tail, a);
    Framed(head, adds, tail, b);
    var args := head + adds + tail;
    assert 0 <= |head| + a < |head| + b < |args|
           && args[|head| + a] == AddPayload(names[i]) && args[|head| + b] == AddPayload(names[j]);
  }

  lemma Framed(head: seq<string>, mid: seq<string>, tail: seq<string>, a: int)
    requires 0 <= a < |mid|
    ensures |head| + a < |head + mid + tail| && (head + mid + tail)[|head| + a] == mid[a]
  {
  }

  /** The invocation starts with the fixed head, ends with the fixed tail, and adds at most every payload. */
  lemma CpioFrame(files: set<string>)
    ensures var args := CpioArgs(files);
            && args[..|CpioHead|] == CpioHead
            && args[|args| - |CpioTail|..] == CpioTail
            && |CpioHead| + |CpioTail| <= |args| <= |CpioHead| + |XzPayloads| + |CpioTail|
  {
    var args := CpioArgs(files);
    assert args[..|CpioHead|] == CpioHead;
    assert args[|args| - |CpioTail|..] == CpioTail;
  }

  /** A find/replace pair of hex strings for `magiskboot hexpatch kernel`. */
  datatype HexPatch = HexPatch(find: string, replace: string)

  const BaseKernelPatches: seq<HexPatch> := [
    HexPatch("49010054011440B93FA00F71E9000054010840B93FA00F7189000054001840B91FA00F7188010054",
             "A1020054011440B93FA00F7140020054010840B93FA00F71E0010054001840B91FA00F7181010054"),
    HexPatch("821B8012", "E2FF8F12"),
    HexPatch("70726F63615F636F6E66696700", "70726F63615F6D616769736B00")
  ]

  /** `skip_initramfs` becomes `want_initramfs`: only for legacy System-as-Root. */
  const LegacySarPatch: HexPatch := HexPatch("736B69705F696E697472616D667300", "77616E745F696E697472616D667300")

  /** The hex patches tried on the kernel, in order. */
  function KernelPatches(legacySar: bool): seq<HexPatch> {
    BaseKernelPatches + (if legacySar then [LegacySarPatch] else [])
  }

  /**
   * The three base patches always come first, in order; the legacy
   * System-as-Root patch is the fourth one exactly when it is asked for.
   */
  lemma KernelPatchCount(legacySar: bool)
    ensures |KernelPatches(legacySar)| == |BaseKernelPatches| + (if legacySar then 1 else 0)
    ensures KernelPatches(legacySar)[..|BaseKernelPatches|] == BaseKernelPatches
    ensures legacySar ==> KernelPatches(legacySar)[3] == LegacySarPatch
    ensures LegacySarPatch in KernelPatches(legacySar) <==> legacySar
  {
    assert LegacySarPatch !in BaseKernelPatches;
  }

  /** Device-tree files that are tested and patched when present, in order. */
  const DtbCandidates: seq<string> := ["dtb", "kernel_dtb", "extra"]

  /** Files the run looks for in the working directory. */
  const BootImage: string := "boot.img"
  const RamdiskFile: string := "ramdisk.cpio"
  const RamdiskBackup: string := "ramdisk.cpio.orig"
  const KernelFile: string := "kernel"
  const ConfigFile: string := "config"
  const NewBootImage: string := "new-boot.img"

  /** The payload files compressed before the ramdisk is patched, in order. */
  const CompressSources: seq<string> := ["magisk", "magisk32", "magisk64", "init-ld", "stub.apk"]

  /** Where a payload's compressed copy goes: `stub.apk` becomes `stub.xz`, the rest `<name>.xz`. */
  function XzTarget(source: string): string {
    if source == "stub.apk" then XzFile("stub") else XzFile(source)
  }

  /** The `.xz` files the compression writes are the ones the ramdisk patch adds, in the same order. */
  lemma CompressFeedsCpio()
    ensures |CompressSources| == |XzPayloads|
    ensures forall i :: 0 <= i < |XzPayloads| ==> XzTarget(CompressSources[i]) == XzFile(XzPayloads[i])
  {
  }

  /** One invocation of the boot-image toolkit. */
  datatype Command =
    | Unpack
    | RamdiskTest
    | RamdiskRestore
    | Sha1
    | Compress(source: string, target: string)
    | RamdiskPatch(args: seq<string>)
    | KernelHexPatch(patch: HexPatch)
    | DtbTest(file: string)
    | DtbPatch(file: string)
    | Repack
}
