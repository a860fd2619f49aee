/** The host side of the boot protocol: pkg/runtime/args.go. */
module KernelCmdline {
  import opened Text

  datatype VolumeMount = VolumeMount(source: string, target: string, readOnly: bool)

  /** The fields of QEMUConfig that decide the kernel command line. */
  datatype QEMUConfig = QEMUConfig(useInitrd: bool, rootFSFormat: string, console: string)

  /** What the host hands to the virtual machine at boot. */
  datatype Boot = Boot(cmd: seq<string>, hostname: string, ip: string, gateway: string, dns: string,
                       volumes: seq<VolumeMount>)

  predicate NeedsQuotes(arg: string) {
    exists i | 0 <= i < |arg| :: arg[i] == ' ' || arg[i] == '\t' || arg[i] == '\n'
  }

  function EscapeKernelArg(arg: string): string {
    var escaped := ReplaceAll(arg, "\"", "\\\"");
    if NeedsQuotes(escaped) then "\"" + escaped + "\"" else escaped
  }

  lemma {:induction false} BlanksStay(arg: string, c: char)
    requires c != '"' && c != '\\'
    ensures c in ReplaceAll(arg, "\"", "\\\"") <==> c in arg
  {
    if arg != "" {
      BlanksStay(arg[1..], c);
      assert arg == [arg[0]] + arg[1..];
    }
  }

  /** An argument is put into quotes exactly when it contains a blank, a tab or a line feed. */
  lemma QuotedExactly(arg: string)
    ensures var escaped := ReplaceAll(arg, "\"", "\\\"");
            EscapeKernelArg(arg)
              == if ' ' in arg || '\t' in arg || '\n' in arg then "\"" + escaped + "\"" else escaped
  {
    var escaped := ReplaceAll(arg, "\"", "\\\"");
    BlanksStay(arg, ' ');
    BlanksStay(arg, '\t');
    BlanksStay(arg, '\n');
    assert NeedsQuotes(escaped) <==> ' ' in escaped || '\t' in escaped || '\n' in escaped;
  }

  const ROOT := "root=rootfs"
  const ROOT_TYPE := "rootfstype=9p"
  const ROOT_FLAGS := "rootflags=trans=" + "virtio," + "version=9p2000.L"

  function KernelParts(cfg: QEMUConfig): seq<string> {
    (if !cfg.useInitrd && (cfg.rootFSFormat == "" || cfg.rootFSFormat == "9p")
     then [ROOT, ROOT_TYPE, ROOT_FLAGS, "rw"] else [])
    + (if cfg.console != "" then ["console=" + cfg.console] else [])
    + ["quiet"]
  }

  /** Joined, the parts are one line with one blank between any two words. */
  lemma KernelText(cfg: QEMUConfig)
    ensures Join(KernelParts(cfg), " ")
         == (if !cfg.useInitrd && (cfg.rootFSFormat == "" || cfg.rootFSFormat == "9p")
             then ROOT + " " + ROOT_TYPE + " " + ROOT_FLAGS + " " + "rw" + " " else "")
            + ((if cfg.console != "" then "console=" + cfg.console + " " else "") + "quiet")
  {
    var root := if !cfg.useInitrd && (cfg.rootFSFormat == "" || cfg.rootFSFormat == "9p")
                then [ROOT, ROOT_TYPE, ROOT_FLAGS, "rw"] else [];
    var console := if cfg.console != "" then ["console=" + cfg.console] else [];
    JoinLast(root + console, "quiet");
    if console != [] {
      JoinLast(root, console[0]);
      JoinTail(if root == [] then "" else Join(root, " ") + " ", console[0]);
    } else {
      assert root + console == root;
    }
    JoinFour(ROOT, ROOT_TYPE, ROOT_FLAGS, "rw");
  }

  lemma JoinTail(front: string, word: string)
    ensures front + word + " " + "quiet" == front + (word + " " + "quiet")
  {
  }

  lemma JoinFour(a: string, b: string, c: string, d: string)
    ensures Join([a, b, c, d], " ") == a + " " + b + " " + c + " " + d
  {
    JoinLast([a, b, c], d);
    JoinLast([a, b], c);
    JoinLast([a], b);
    assert [a] + [b] == [a, b] && [a, b] + [c] == [a, b, c] && [a, b, c] + [d] == [a, b, c, d];
  }

  lemma JoinLast(parts: seq<string>, last: string)
    ensures Join(parts + [last], " ") == (if parts == [] then "" else Join(parts, " ") + " ") + last
  {
    assert (parts + [last])[..|parts|] == parts;
  }

  method BuildKernelAppend(cfg: QEMUConfig) returns (line: string)
    ensures line == Join(KernelParts(cfg), " ")
  {
    var parts := [];
    if !cfg.useInitrd {
      if cfg.rootFSFormat == "" || cfg.rootFSFormat == "9p" {
        parts := parts + [ROOT, ROOT_TYPE, ROOT_FLAGS, "rw"];
      }
    }
    if cfg.console != "" {
      parts := parts + ["console=" + cfg.console];
    }
    parts := parts + ["quiet"];
    assert parts == KernelParts(cfg);
    line := Join(parts, " ");
  }

  /** One `key=value` word of the command line. */
  datatype Binding = Binding(key: string, value: string) {
    function Word(): string {
      key + "=" + EscapeKernelArg(value)
    }
  }

  function Words(bindings: seq<Binding>): seq<string> {
    seq(|bindings|, i requires 0 <= i < |bindings| => bindings[i].Word())
  }

  function VolumeKey(i: nat, field: string): string {
    "poqman.volume." + Numeral(i) + "." + field
  }

  function Flag(readOnly: bool): string {
    if readOnly then "true" else "false"
  }

  function VolumeBinding(i: nat, volume: VolumeMount): seq<Binding> {
    [Binding(VolumeKey(i, "source"), volume.source),
     Binding(VolumeKey(i, "target"), volume.target),
     Binding(VolumeKey(i, "readonly"), Flag(volume.readOnly))]
  }

  function VolumeBindings(volumes: seq<VolumeMount>): seq<Binding> {
    if volumes == [] then []
    else
      var n := |volumes| - 1;
      VolumeBindings(volumes[..n]) + VolumeBinding(n, volumes[n])
  }

  /** An unset value prints no word. */
  function NonEmpty(bindings: seq<Binding>): seq<Binding> {
    if bindings == [] then []
    else
      var n := |bindings| - 1;
      NonEmpty(bindings[..n]) + if bindings[n].value == "" then [] else [bindings[n]]
  }

  function HostValues(boot: Boot): seq<Binding> {
    [Binding("poqman.hostname", boot.hostname), Binding("poqman.ip", boot.ip),
     Binding("poqman.gateway", boot.gateway), Binding("poqman.dns", boot.dns)]
  }

  function HostBindings(boot: Boot): seq<Binding> {
    NonEmpty(HostValues(boot))
  }

  function EscapeAll(cmd: seq<string>): seq<string> {
    seq(|cmd|, i requires 0 <= i < |cmd| => EscapeKernelArg(cmd[i]))
  }

  const CMD_KEY := "poqman.cmd"
  const DEFAULT_CMD := "/sbin/init"

  function CommandPart(cmd: seq<string>): string {
    CMD_KEY + "=" + if cmd == [] then DEFAULT_CMD else Join(EscapeAll(cmd), " ")
  }

  /** The parts that the printer joins with blanks. */
  function InitParts(boot: Boot): seq<string> {
    Words(HostBindings(boot) + VolumeBindings(boot.volumes)) + [CommandPart(boot.cmd)]
  }

  method BuildInitCmdline(cmd: seq<string>, hostname: string, ip: string, gateway: string, dns: string,
                          volumes: seq<VolumeMount>)
    returns (line: string)
    ensures line == Join(InitParts(Boot(cmd, hostname, ip, gateway, dns, volumes)), " ")
  {
    ghost var boot := Boot(cmd, hostname, ip, gateway, dns, volumes);
    ghost var values := HostValues(boot);
    assert values[..0] == [] && values[..1] == values[..0] + [values[0]];
    assert values[..2] == values[..1] + [values[1]] && values[..3] == values[..2] + [values[2]];
    assert values == values[..3] + [values[3]];
    var parts := AppendUnlessEmpty([], "poqman.hostname", hostname, []);
    parts := AppendUnlessEmpty(parts, "poqman.ip", ip, values[..1]);
    parts := AppendUnlessEmpty(parts, "poqman.gateway", gateway, values[..2]);
    parts := AppendUnlessEmpty(parts, "poqman.dns", dns, values[..3]);
    var volumeParts := PrintVolumes(volumes);
    WordsAppend(HostBindings(boot), VolumeBindings(volumes));
    var command := PrintCommand(cmd);
    parts := parts + volumeParts + [command];
    line := Join(parts, " ");
  }

  /** One of the four guarded appends of BuildInitCmdline; `before` are the values seen so far. */
  method AppendUnlessEmpty(parts: seq<string>, key: string, value: string, ghost before: seq<Binding>)
    returns (extended: seq<string>)
    requires parts == Words(NonEmpty(before))
    ensures extended == Words(NonEmpty(before + [Binding(key, value)]))
  {
    extended := parts;
    if value != "" {
      extended := extended + [key + "=" + EscapeKernelArg(value)];
    }
    assert (before + [Binding(key, value)])[..|before|] == before;
  }

  /** The volume loop of BuildInitCmdline. */
  method PrintVolumes(volumes: seq<VolumeMount>) returns (parts: seq<string>)
    ensures parts == Words(VolumeBindings(volumes))
  {
    parts := [];
    for i := 0 to |volumes|
      invariant parts == Words(VolumeBindings(volumes[..i]))
    {
      var vol := volumes[i];
      var roFlag := "false";
      if vol.readOnly {
        roFlag := "true";
      }
      parts := parts + ["poqman.volume." + Numeral(i) + ".source=" + EscapeKernelArg(vol.source),
                        "poqman.volume." + Numeral(i) + ".target=" + EscapeKernelArg(vol.target),
                        "poqman.volume." + Numeral(i) + ".readonly=" + roFlag];
      assert volumes[..i + 1][..i] == volumes[..i];
      VolumeWords(i, vol);
      WordsAppend(VolumeBindings(volumes[..i]), VolumeBinding(i, vol));
    }
    assert volumes[..|volumes|] == volumes;
  }

  /** The command part of BuildInitCmdline. */
  method PrintCommand(cmd: seq<string>) returns (part: string)
    ensures part == CommandPart(cmd)
  {
    if |cmd| > 0 {
      var escapedCmd := [];
      for i := 0 to |cmd|
        invariant escapedCmd == EscapeAll(cmd)[..i]
      {
        escapedCmd := escapedCmd + [EscapeKernelArg(cmd[i])];
      }
      assert escapedCmd == EscapeAll(cmd);
      part := "poqman.cmd=" + Join(escapedCmd, " ");
    } else {
      part := "poqman.cmd=/sbin/init";
    }
  }

  lemma FlagNeedsNoEscape(readOnly: bool)
    ensures EscapeKernelArg(Flag(readOnly)) == Flag(readOnly)
  {
    EscapePlain(Flag(readOnly));
  }

  /** A text without quotes and white space is printed as it is. */
  lemma EscapePlain(s: string)
    requires '"' !in s && NoSpace(s)
    ensures EscapeKernelArg(s) == s
  {
    NoQuoteToReplace(s);
  }

  lemma {:induction false} NoQuoteToReplace(s: string)
    requires '"' !in s
    ensures ReplaceAll(s, "\"", "\\\"") == s
  {
    if s != "" {
      assert s[0] != '"';
      NoQuoteToReplace(s[1..]);
    }
  }

  lemma VolumeWords(i: nat, vol: VolumeMount)
    ensures Words(VolumeBinding(i, vol)) ==
            ["poqman.volume." + Numeral(i) + ".source=" + EscapeKernelArg(vol.source),
             "poqman.volume." + Numeral(i) + ".target=" + EscapeKernelArg(vol.target),
             "poqman.volume." + Numeral(i) + ".readonly=" + if vol.readOnly then "true" else "false"]
  {
    FlagNeedsNoEscape(vol.readOnly);
    var p := "poqman.volume." + Numeral(i);
    assert p + "." + "source" + "=" == p + ".source=";
    assert p + "." + "target" + "=" == p + ".target=";
    assert p + "." + "readonly" + "=" == p + ".readonly=";
  }

  lemma WordsAppend(a: seq<Binding>, b: seq<Binding>)
    ensures Words(a + b) == Words(a) + Words(b)
  {
  }

  lemma WordsSplit(bindings: seq<Binding>)
    requires bindings != []
    ensures Words(bindings) == Words(bindings[..|bindings| - 1]) + [bindings[|bindings| - 1].Word()]
  {
  }

  /** The 9p mount tag of the i-th volume. */
  function Tag(i: nat): string {
    "volume" + Numeral(i)
  }

  /** The four QEMU arguments that export one volume. */
  function VolumeArg(i: nat, vol: VolumeMount): seq<string> {
    ["-fsdev",
     "local,id=" + Tag(i) + ",path=" + vol.source + ",security_model=mapped-xattr"
     + (if vol.readOnly then ",readonly=on" else ""),
     "-device",
     "virtio-9p-pci,fsdev=" + Tag(i) + ",mount_tag=" + Tag(i)]
  }

  /** The four texts: a directory with its source and its tag, read only if the volume is, and the device
      that shows it to the guest under this tag. */
  predicate Exports(fsdev: string, directory: string, device: string, shown: string, i: nat, vol: VolumeMount) {
    && fsdev == "-fsdev" && device == "-device"
    && directory == "local,id=" + ("volume" + Numeral(i)) + ",path=" + vol.source + ",security_model=mapped-xattr"
                    + (if vol.readOnly then ",readonly=on" else "")
    && shown == "virtio-9p-pci,fsdev=" + ("volume" + Numeral(i)) + ",mount_tag=" + ("volume" + Numeral(i))
  }

  lemma ArgsExport(four: seq<string>, i: nat, vol: VolumeMount)
    requires four == VolumeArg(i, vol)
    ensures |four| == 4 && Exports(four[0], four[1], four[2], four[3], i, vol)
  {
  }

  /** The part of BuildArgs that exports the volumes. */
  method BuildVolumeArgs(volumes: seq<VolumeMount>) returns (args: seq<string>)
    ensures |args| == 4 * |volumes|
    ensures forall i | 0 <= i < |volumes| :: args[4 * i..4 * i + 4] == VolumeArg(i, volumes[i])
    ensures forall i | 0 <= i < |volumes| ::
              Exports(args[4 * i], args[4 * i + 1], args[4 * i + 2], args[4 * i + 3], i, volumes[i])
  {
    args := [];
    for i := 0 to |volumes|
      invariant |args| == 4 * i
      invariant forall j | 0 <= j < i :: args[4 * j..4 * j + 4] == VolumeArg(j, volumes[j])
    {
      var vol := volumes[i];
      var mountTag := "volume" + Numeral(i);
      var roFlag := "";
      if vol.readOnly {
        roFlag := ",readonly=on";
      }
      ghost var before := args;
      args := args + ["-fsdev",
                      "local,id=" + mountTag + ",path=" + vol.source + ",security_model=mapped-xattr" + roFlag,
                      "-device",
                      "virtio-9p-pci,fsdev=" + mountTag + ",mount_tag=" + mountTag];
      assert forall j | 0 <= j < i :: args[4 * j..4 * j + 4] == before[4 * j..4 * j + 4];
      assert args[4 * i..4 * i + 4] == VolumeArg(i, vol);
    }
    forall i | 0 <= i < |volumes|
      ensures Exports(args[4 * i], args[4 * i + 1], args[4 * i + 2], args[4 * i + 3], i, volumes[i])
    {
      ArgsExport(args[4 * i..4 * i + 4], i, volumes[i]);
    }
  }
}
