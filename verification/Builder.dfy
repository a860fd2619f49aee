/** The builder of pkg/dockerfile/builder.go: its layer list over a whole Dockerfile, and the copies
    into its build root. */
module Builder {
  import opened Text
  import opened FileTree
  import opened Copying
  import opened DockerIgnore
  import opened Images

  /** How far a RUN step with a kernel comes: no kernel image or no QEMU is found; the machine cannot be
      started; it leaves no exit code; or it leaves one, and its changes can be made a layer or not. */
  datatype Machine = Absent | CannotStart | NoExitCode | Exited(code: int, layer: Option<nat>)

  /** The instructions as far as they touch the layer list; None and false stand for the errors of the
      handlers. */
  datatype Instruction =
    | From(base: Option<seq<Layer>>)
    | Kernel(id: Option<string>)
    | Run(machine: Machine)
    | Copy(copied: bool)
    | Other(done: bool)

  datatype BuildState = BuildState(layers: seq<Layer>, kernelID: string)

  function RunDigest(n: nat): string {
    "sha256:build-run-" + Numeral(n)
  }

  function CopyDigest(n: nat): string {
    "sha256:build-copy-" + Numeral(n)
  }

  const ROOTFS_DIGEST := "sha256:build-rootfs"

  /** The instruction ends the build with an error. */
  predicate Fails(s: BuildState, i: Instruction) {
    match i
    case From(base) => base.None?
    case Kernel(id) => id.None?
    case Run(machine) =>
      s.kernelID != "" && !machine.Absent?
      && (machine.Exited? ==> machine.code != 0 || machine.layer.None?)
    case Copy(copied) => !copied
    case Other(done) => !done
  }

  function Execute(s: BuildState, i: Instruction): BuildState {
    if Fails(s, i) then s
    else
      match i
      case From(base) => s.(layers := s.layers + base.value)
      case Kernel(id) => s.(kernelID := id.value)
      case Run(machine) =>
        if s.kernelID == "" || machine.Absent? then s
        else s.(layers := s.layers + [Layer(RunDigest(|s.layers|), machine.layer.value)])
      case Copy(_) => s.(layers := s.layers + [Layer(CopyDigest(|s.layers|), 0)])
      case Other(_) => s
  }

  function ExecuteAll(s: BuildState, instructions: seq<Instruction>): BuildState {
    if instructions == [] then s
    else Execute(ExecuteAll(s, instructions[..|instructions| - 1]), instructions[|instructions| - 1])
  }

  predicate NoneFails(s: BuildState, instructions: seq<Instruction>) {
    instructions == [] ||
    var n := |instructions| - 1;
    NoneFails(s, instructions[..n]) && !Fails(ExecuteAll(s, instructions[..n]), instructions[n])
  }

  /** Every RUN that has a kernel and finds its machine ends with exit code 0, and its changes become a layer
      of the reported size behind those before. */
  ghost predicate RunsSucceed(s: BuildState, instructions: seq<Instruction>) {
    forall n: nat | n < |instructions| :: RunSucceeds(s, instructions, n)
  }

  ghost predicate RunSucceeds(s: BuildState, instructions: seq<Instruction>, n: nat)
    requires n < |instructions|
  {
    var before, after := ExecuteAll(s, instructions[..n]), ExecuteAll(s, instructions[..n + 1]);
    instructions[n].Run? && before.kernelID != "" && !instructions[n].machine.Absent? ==>
      && instructions[n].machine.Exited? && instructions[n].machine.code == 0
      && instructions[n].machine.layer.Some? && |after.layers| == |before.layers| + 1
      && after.layers[..|before.layers|] == before.layers
      && after.layers[|before.layers|].size == instructions[n].machine.layer.value
  }

  lemma NextRun(s: BuildState, instructions: seq<Instruction>, n: nat)
    requires n < |instructions| && !Fails(ExecuteAll(s, instructions[..n]), instructions[n])
    ensures RunSucceeds(s, instructions, n)
  {
    assert instructions[..n + 1][..n] == instructions[..n];
  }

  /** A build in which nothing fails is one whose RUN steps all succeed. */
  lemma {:induction false} NoRunFails(s: BuildState, instructions: seq<Instruction>)
    requires NoneFails(s, instructions)
    ensures RunsSucceed(s, instructions)
  {
    if instructions != [] {
      var front := instructions[..|instructions| - 1];
      NoRunFails(s, front);
      forall n: nat | n < |instructions| ensures RunSucceeds(s, instructions, n) {
        if n < |front| {
          assert front[..n] == instructions[..n] && front[..n + 1] == instructions[..n + 1];
          assert RunSucceeds(s, front, n);
        } else {
          NextRun(s, instructions, n);
        }
      }
    }
  }

  /** What os.Stat finds at a source, with links followed. */
  datatype Opened = NotThere | AFile(content: Bytes) | ADirectory(entries: seq<Entry>)

  /** A source of a COPY step: as it is written, its path from the context, its last name, and what is
      there. */
  datatype Source = Source(text: string, from: Path, name: string, found: Opened)

  /** The destination on the host, below the build root. */
  function HostPath(root: string, to: Path): string {
    if to == [] then root else root + "/" + Join(to, "/")
  }

  /** Where a single file goes: to the destination itself if the destination's text ends in the file's
      name, else into the destination. */
  function FileTarget(root: string, to: Path, name: string): Path {
    if HasSuffix(HostPath(root, to), name) then to else to + [name]
  }

  ghost function CopySource(rules: Rules, root: string, fs: Files, source: Source, to: Path): Result {
    match source.found
    case NotThere => Err(NotFound)
    case ADirectory(entries) => CopyEntries(rules, fs, entries, source.from, to)
    case AFile(content) =>
      var dp := FileTarget(root, to, source.name);
      WriteFile(if dp == [] then fs else MkdirAll(fs, Parent(dp)).OrKeep(fs), dp, content)
  }

  function MakeParent(fs: Files, to: Path): Result {
    if to == [] then Ok(fs) else MkdirAll(fs, Parent(to))
  }

  ghost function CopySources(rules: Rules, root: string, start: Result, sources: seq<Source>, to: Path): Result {
    if sources == [] then start
    else
      var n := |sources| - 1;
      match CopySources(rules, root, start, sources[..n], to)
      case Err(e) => Err(e)
      case Ok(fs) =>
        if ShouldIgnore(rules, sources[n].text) then Ok(fs) else CopySource(rules, root, fs, sources[n], to)
  }

  class Builder {
    const rules: Rules
    const root: string
    var layers: seq<Layer>
    var kernelID: string
    var curRootfs: Files

    constructor (rules: Rules, root: string)
      ensures layers == [] && kernelID == "" && curRootfs == map[[] := DirNode]
      ensures this.rules == rules && this.root == root
    {
      this.rules, this.root := rules, root;
      layers, kernelID, curRootfs := [], "", map[[] := DirNode];
    }

    function State(): BuildState
      reads this
    {
      BuildState(layers, kernelID)
    }

    method HandleFrom(imageLayers: Option<seq<Layer>>) returns (ok: bool)
      modifies this`layers
      ensures State() == Execute(old(State()), From(imageLayers)) && ok == !Fails(old(State()), From(imageLayers))
      ensures ok == imageLayers.Some?
      ensures layers == if ok then old(layers) + imageLayers.value else old(layers)
    {
      if imageLayers.None? {
        return false;
      }
      layers := layers + imageLayers.value;
      return true;
    }

    method HandleKernel(id: Option<string>) returns (ok: bool)
      modifies this`kernelID
      ensures State() == Execute(old(State()), Kernel(id)) && ok == !Fails(old(State()), Kernel(id))
      ensures ok == id.Some? && kernelID == if ok then id.value else old(kernelID)
    {
      if id.None? {
        return false;
      }
      kernelID := id.value;
      return true;
    }

    /** Without a kernel, or without a machine to build in, a RUN step is recorded only. */
    method HandleRun(machine: Machine) returns (ok: bool)
      modifies this`layers
      ensures State() == Execute(old(State()), Run(machine)) && ok == !Fails(old(State()), Run(machine))
      ensures kernelID == "" || machine.Absent? ==> ok && layers == old(layers)
      ensures kernelID != "" && (machine.CannotStart? || machine.NoExitCode?) ==> !ok && layers == old(layers)
      ensures kernelID != "" && machine.Exited? && (machine.code != 0 || machine.layer.None?) ==>
                !ok && layers == old(layers)
      ensures kernelID != "" && machine.Exited? && machine.code == 0 && machine.layer.Some? ==>
                ok && layers == old(layers) + [Layer("sha256:build-run-" + Numeral(|old(layers)|), machine.layer.value)]
    {
      if kernelID == "" {
        return true;
      }
      match machine {
        case Absent => return true;
        case CannotStart => return false;
        case NoExitCode => return false;
        case Exited(exitCode, changed) =>
          if exitCode != 0 {
            return false;
          }
          var layerDigest := "sha256:build-run-" + Numeral(|layers|);
          if changed.None? {
            return false;
          }
          layers := layers + [Layer(layerDigest, changed.value)];
          return true;
      }
    }

    method RecordCopy()
      modifies this`layers
      ensures State() == Execute(old(State()), Copy(true))
      ensures layers == old(layers) + [Layer("sha256:build-copy-" + Numeral(|old(layers)|), 0)]
    {
      var layerDigest := "sha256:build-copy-" + Numeral(|layers|);
      layers := layers + [Layer(layerDigest, 0)];
    }

    method Handle(i: Instruction) returns (ok: bool)
      modifies this`layers, this`kernelID
      ensures State() == Execute(old(State()), i) && ok == !Fails(old(State()), i)
    {
      match i {
        case From(base) => ok := HandleFrom(base);
        case Kernel(id) => ok := HandleKernel(id);
        case Run(machine) => ok := HandleRun(machine);
        case Copy(copied) =>
          if copied {
            RecordCopy();
          }
          ok := copied;
        case Other(done) => ok := done;
      }
    }

    /** The instruction loop: it ends at the first instruction that fails; a Dockerfile without FROM is an
        error. */
    method Process(instructions: seq<Instruction>) returns (ok: bool, ghost n: nat)
      modifies this`layers, this`kernelID
      ensures n <= |instructions| && State() == ExecuteAll(old(State()), instructions[..n])
      ensures NoneFails(old(State()), instructions[..n])
      ensures n < |instructions| ==> Fails(State(), instructions[n])
      ensures ok <==> n == |instructions| && exists i :: 0 <= i < |instructions| && instructions[i].From?
      ensures ok ==> RunsSucceed(old(State()), instructions)
    {
      ghost var start := State();
      var hasFrom := false;
      for i := 0 to |instructions|
        invariant State() == ExecuteAll(start, instructions[..i]) && NoneFails(start, instructions[..i])
        invariant hasFrom <==> exists j :: 0 <= j < i && instructions[j].From?
      {
        assert instructions[..i + 1][..i] == instructions[..i];
        var done := Handle(instructions[i]);
        if instructions[i].From? {
          hasFrom := true;
        }
        if !done {
          return false, i;
        }
      }
      assert instructions[..|instructions|] == instructions;
      NoRunFails(start, instructions);
      return hasFrom, |instructions|;
    }

    /** handleCopy: the sources one after the other, up to the first error, and then the layer. */
    method HandleCopy(sources: seq<Source>, to: Path) returns (ok: bool)
      modifies this`curRootfs, this`layers
      ensures ok == CopySources(rules, root, MakeParent(old(curRootfs), to), sources, to).Ok?
      ensures ok ==> curRootfs == CopySources(rules, root, MakeParent(old(curRootfs), to), sources, to).files
      ensures State() == Execute(old(State()), Copy(ok))
    {
      ghost var start := MakeParent(curRootfs, to);
      if to != [] {
        var made := MkdirAll(curRootfs, Parent(to));
        if made.Err? {
          StartStops(rules, root, start, sources, to);
          return false;
        }
        curRootfs := made.files;
      }
      for i := 0 to |sources|
        invariant CopySources(rules, root, start, sources[..i], to) == Ok(curRootfs)
        invariant State() == old(State())
      {
        assert sources[..i + 1][..i] == sources[..i];
        var ignored := ComputeShouldIgnore(rules, sources[i].text);
        if ignored {
          continue;
        }
        var copied := CopyPath(sources[i], to);
        if !copied {
          SourcesStop(rules, root, start, sources, to, i + 1);
          return false;
        }
      }
      assert sources[..|sources|] == sources;
      RecordCopy();
      return true;
    }

    /** copyWithIgnore on whatever the source is. */
    method CopyPath(source: Source, to: Path) returns (ok: bool)
      modifies this`curRootfs
      ensures ok == CopySource(rules, root, old(curRootfs), source, to).Ok?
      ensures ok ==> curRootfs == CopySource(rules, root, old(curRootfs), source, to).files
    {
      match source.found {
        case NotThere => return false;
        case ADirectory(entries) => ok := CopyWithIgnore(entries, source.from, to);
        case AFile(content) =>
          var dp := to;
          if !HasSuffix(HostPath(root, to), source.name) {
            dp := to + [source.name];
          }
          assert dp == FileTarget(root, to, source.name);
          if dp != [] {
            curRootfs := MkdirAll(curRootfs, Parent(dp)).OrKeep(curRootfs);
          }
          var written := WriteFile(curRootfs, dp, content);
          if written.Err? {
            return false;
          }
          curRootfs := written.files;
          return true;
      }
    }

    /** Making the directory above, and copyFileContents. */
    method CopyFileContents(source: Target, dp: Path) returns (ok: bool)
      requires dp != []
      modifies this`curRootfs
      ensures ok == WriteTarget(old(curRootfs), dp, source).Ok?
      ensures ok ==> curRootfs == WriteTarget(old(curRootfs), dp, source).files
    {
      if source.Unreadable? {
        return false;
      }
      curRootfs := MkdirAll(curRootfs, Parent(dp)).OrKeep(curRootfs);
      var written := WriteFile(curRootfs, dp, source.content);
      if written.Err? {
        return false;
      }
      curRootfs := written.files;
      return true;
    }

    /** copyWithIgnore on a directory. */
    method CopyWithIgnore(es: seq<Entry>, from: Path, to: Path) returns (ok: bool)
      modifies this`curRootfs
      ensures ok == CopyEntries(rules, old(curRootfs), es, from, to).Ok?
      ensures ok ==> curRootfs == CopyEntries(rules, old(curRootfs), es, from, to).files
      decreases es
    {
      ghost var start := curRootfs;
      for i := 0 to |es|
        invariant CopyEntries(rules, start, es[..i], from, to) == Ok(curRootfs)
      {
        var sp, dp := from + [es[i].name], to + [es[i].name];
        CopyNext(rules, start, es, from, to, i);
        var ignored := ComputeShouldIgnore(rules, Join(sp, "/"));
        if ignored {
          continue;
        }
        var copied: bool;
        match es[i].node {
          case Dir(entries) =>
            curRootfs := MkdirAll(curRootfs, dp).OrKeep(curRootfs);
            copied := CopyWithIgnore(entries, sp, dp);
          case File(content) => copied := CopyFileContents(Readable(content), dp);
          case Link(_) => copied := CopyFileContents(rules.follow(sp), dp);
        }
        if !copied {
          CopyStops(rules, start, es, from, to, i + 1);
          return false;
        }
      }
      assert es[..|es|] == es;
      return true;
    }
  }

  lemma CopyNext(rules: Rules, fs: Files, es: seq<Entry>, from: Path, to: Path, i: nat)
    requires i < |es| && CopyEntries(rules, fs, es[..i], from, to).Ok?
    ensures CopyEntries(rules, fs, es[..i + 1], from, to)
         == CopyEntry(rules, CopyEntries(rules, fs, es[..i], from, to).files, es[i].node,
                      from + [es[i].name], to + [es[i].name])
  {
    assert es[..i + 1][..i] == es[..i];
  }

  lemma {:induction false} CopyStops(rules: Rules, fs: Files, es: seq<Entry>, from: Path, to: Path, n: nat)
    requires n <= |es| && CopyEntries(rules, fs, es[..n], from, to).Err?
    ensures CopyEntries(rules, fs, es, from, to).Err?
    decreases |es|
  {
    if n < |es| {
      assert es[..|es| - 1][..n] == es[..n];
      CopyStops(rules, fs, es[..|es| - 1], from, to, n);
    } else {
      assert es[..n] == es;
    }
  }

  lemma {:induction false} StartStops(rules: Rules, root: string, start: Result, sources: seq<Source>, to: Path)
    requires start.Err?
    ensures CopySources(rules, root, start, sources, to).Err?
  {
    if sources != [] {
      StartStops(rules, root, start, sources[..|sources| - 1], to);
    }
  }

  lemma {:induction false} SourcesStop(rules: Rules, root: string, start: Result, sources: seq<Source>, to: Path,
                                       n: nat)
    requires n <= |sources| && CopySources(rules, root, start, sources[..n], to).Err?
    ensures CopySources(rules, root, start, sources, to).Err?
    decreases |sources|
  {
    if n < |sources| {
      assert sources[..|sources| - 1][..n] == sources[..n];
      SourcesStop(rules, root, start, sources[..|sources| - 1], to, n);
    } else {
      assert sources[..n] == sources;
    }
  }

  /** What a source brings: of a directory, what the rules keep; of a file, the file at its target. */
  ghost function Part(rules: Rules, root: string, source: Source, to: Path): Files {
    match source.found
    case NotThere => map[]
    case ADirectory(entries) =>
      DockerIgnore.Kept(rules, FollowEntries(rules, entries, source.from), source.from, to)
    case AFile(content) => map[FileTarget(root, to, source.name) := FileNode(content)]
  }

  /** The sources laid over one another, without the ignored ones. */
  ghost function Overlay(rules: Rules, root: string, fs: Files, sources: seq<Source>, to: Path): Files {
    if sources == [] then fs
    else
      var n := |sources| - 1;
      var front := Overlay(rules, root, fs, sources[..n], to);
      if ShouldIgnore(rules, sources[n].text) then front else front + Part(rules, root, sources[n], to)
  }

  /** Every source that is not ignored is there, can be read, and meets only things of its own kind. */
  ghost predicate SourcesFit(rules: Rules, root: string, fs: Files, sources: seq<Source>, to: Path) {
    sources == [] ||
    var n := |sources| - 1;
    var part := Part(rules, root, sources[n], to);
    && SourcesFit(rules, root, fs, sources[..n], to)
    && (ShouldIgnore(rules, sources[n].text)
        || (!sources[n].found.NotThere? && NoLinkIn(part)
            && Compatible(Overlay(rules, root, fs, sources[..n], to), part)))
  }

  /** A COPY of files and directories into an existing directory overrides it with what each of them
      brings, in the order in which they are written: where several bring a path the last one counts. */
  lemma {:induction false} SourcesOverride(rules: Rules, root: string, fs: Files, sources: seq<Source>, to: Path)
    requires forall s | s in sources && s.found.ADirectory? :: ValidEntries(s.found.entries)
    requires IsDir(fs, to) && SourcesFit(rules, root, fs, sources, to)
    ensures CopySources(rules, root, Ok(fs), sources, to) == Ok(Overlay(rules, root, fs, sources, to))
    ensures IsDir(Overlay(rules, root, fs, sources, to), to)
  {
    if sources != [] {
      var n := |sources| - 1;
      assert sources[n] in sources && forall s | s in sources[..n] :: s in sources;
      SourcesOverride(rules, root, fs, sources[..n], to);
      if !ShouldIgnore(rules, sources[n].text) {
        SourceOverrides(rules, root, Overlay(rules, root, fs, sources[..n], to), sources[n], to);
      }
    }
  }

  lemma SourceOverrides(rules: Rules, root: string, fs: Files, source: Source, to: Path)
    requires IsDir(fs, to) && !source.found.NotThere? && NoLinkIn(Part(rules, root, source, to))
    requires source.found.ADirectory? ==> ValidEntries(source.found.entries)
    requires Compatible(fs, Part(rules, root, source, to))
    ensures CopySource(rules, root, fs, source, to) == Ok(fs + Part(rules, root, source, to))
    ensures IsDir(fs + Part(rules, root, source, to), to)
  {
    match source.found
    case ADirectory(entries) =>
      CopiesWhatIsKept(rules, fs, entries, source.from, to);
      EntriesAreBelow(FollowEntries(rules, entries, source.from), to);
    case AFile(content) =>
      var dp := FileTarget(root, to, source.name);
      assert dp in Part(rules, root, source, to);
      assert dp == to + [source.name] && Parent(dp) == to;
      LeafIsOverride(fs, dp, FileNode(content));
  }

  /** Writing a file after its directory has been made, or has not been. */
  lemma WritesAfterMaking(fs: Files, p: Path, content: Bytes)
    requires Rooted(fs) && LinkFree(fs, p) && p != []
    ensures var result := WriteFile(MkdirAll(fs, Parent(p)).OrKeep(fs), p, content);
            (result.Ok? <==> Writable(fs, p)) && (result.Ok? ==> Written(fs, result.files, p, content))
  {
    var ready := MkdirAll(fs, Parent(p)).OrKeep(fs);
    assert p == Parent(p) + [p[|p| - 1]];
    MadeBeforehand(fs, Parent(p), p);
    WriteExactly(ready, p, content);
    if WriteFile(ready, p, content).Ok? {
      var done := WriteFile(ready, p, content).files;
      WriteChanges(ready, p, content);
      if MkdirAll(fs, Parent(p)).Ok? {
        WrittenBehind(fs, Parent(p), p, done, content);
      }
    }
  }

  /** COPY of one file, whatever the destination is, there or not: the file arrives at its target exactly
      when no directory is in its place and no file above it; and nothing else changes but missing
      directories above it. */
  lemma CopyOfOneFile(rules: Rules, root: string, fs: Files, source: Source, to: Path)
    requires source.found.AFile? && !ShouldIgnore(rules, source.text)
    requires Rooted(fs) && IsDir(fs, []) && LinkFree(fs, FileTarget(root, to, source.name))
    ensures var dp := FileTarget(root, to, source.name);
            var result := CopySources(rules, root, MakeParent(fs, to), [source], to);
            && (result.Ok? <==> Writable(fs, dp))
            && (result.Ok? ==> Written(fs, result.files, dp, source.found.content))
  {
    var dp := FileTarget(root, to, source.name);
    var start := MakeParent(fs, to);
    assert [source][..0] == [];
    assert CopySources(rules, root, start, [source][..0], to) == start;
    if dp != [] {
      if to == [] {
        WritesAfterMaking(fs, dp, source.found.content);
      } else {
        assert to == Parent(to) + [to[|to| - 1]];
        assert Parent(to) < dp;
        MadeBeforehand(fs, Parent(to), dp);
        if start.Ok? {
          WritesAfterMaking(start.files, dp, source.found.content);
          var result := CopySources(rules, root, start, [source], to);
          if result.Ok? {
            WrittenBehind(fs, Parent(to), dp, result.files, source.found.content);
          }
        }
      }
    }
  }

  /** Where a file belongs: at the destination if that has the file's name, else into it. */
  function Place(to: Path, name: string): Path {
    if to != [] && to[|to| - 1] == name then to else to + [name]
  }

  /** The last name of the destination on the host; for the destination / it is that of the build root. */
  function LastName(base: string, to: Path): string {
    if to == [] then base else to[|to| - 1]
  }

  /** The test on the destination looks at text and not at names: a file goes where it belongs exactly when
      the last name does not end in the file's name, or is this name and not that of the build root. */
  lemma TargetExactly(parent: string, base: string, to: Path, name: string)
    requires name != "" && '/' !in name
    ensures FileTarget(parent + "/" + base, to, name) == Place(to, name)
       <==> !HasSuffix(LastName(base, to), name) || (to != [] && LastName(base, to) == name)
  {
    var root := parent + "/" + base;
    if to == [] {
      SuffixOfLast(parent, base, name);
    } else {
      var n := |to| - 1;
      var front := if n == 0 then root else root + "/" + Join(to[..n], "/");
      assert HostPath(root, to) == front + "/" + to[n];
      SuffixOfLast(front, to[n], name);
    }
  }

  lemma SuffixOfLast(front: string, last: string, name: string)
    requires '/' !in name
    ensures HasSuffix(front + "/" + last, name) <==> HasSuffix(last, name)
  {
    var text := front + "/" + last;
    assert text[|front|] == '/';
    assert HasSuffix(text, name) ==> forall k | 0 <= k < |name| :: name[k] == text[|text| - |name| + k];
    if |name| <= |last| {
      assert text[|text| - |name|..] == last[|last| - |name|..];
    }
  }

  /** A digest that numbers a RUN or COPY step names the position of its layer. */
  ghost predicate InPlace(layers: seq<Layer>) {
    forall i, k: nat | 0 <= i < |layers| && (layers[i].digest == RunDigest(k) || layers[i].digest == CopyDigest(k)) ::
      i == k
  }

  /** A digest that no builder generates, such as one that a registry computed from content. */
  ghost predicate Foreign(digest: string) {
    forall k: nat :: digest != RunDigest(k) && digest != CopyDigest(k)
  }

  lemma DigestsDiffer(m: nat, n: nat)
    ensures RunDigest(m) != CopyDigest(n)
    ensures RunDigest(m) == RunDigest(n) ==> m == n
    ensures CopyDigest(m) == CopyDigest(n) ==> m == n
    ensures Foreign(ROOTFS_DIGEST)
  {
    assert RunDigest(m)[13] == 'r' && CopyDigest(n)[13] == 'c';
    assert forall k: nat :: RunDigest(k)[14] == 'u' && CopyDigest(k)[13] == 'c';
    assert ROOTFS_DIGEST[13] == 'r' && ROOTFS_DIGEST[14] == 'o';
    if RunDigest(m) == RunDigest(n) {
      assert RunDigest(m)[17..] == Numeral(m) && RunDigest(n)[17..] == Numeral(n);
      NumeralInjective(m, n);
    }
    if CopyDigest(m) == CopyDigest(n) {
      assert CopyDigest(m)[18..] == Numeral(m) && CopyDigest(n)[18..] == Numeral(n);
      NumeralInjective(m, n);
    }
  }

  /** Generated layers go to the end of the list and carry its length. */
  lemma {:induction false} StepsStayInPlace(s: BuildState, instructions: seq<Instruction>)
    requires InPlace(s.layers) && forall i | 0 <= i < |instructions| :: !instructions[i].From?
    ensures InPlace(ExecuteAll(s, instructions).layers)
  {
    if instructions != [] {
      var n := |instructions| - 1;
      StepsStayInPlace(s, instructions[..n]);
      var at := |ExecuteAll(s, instructions[..n]).layers|;
      forall k: nat
        ensures RunDigest(at) != CopyDigest(k) && CopyDigest(at) != RunDigest(k)
        ensures RunDigest(at) == RunDigest(k) ==> at == k
        ensures CopyDigest(at) == CopyDigest(k) ==> at == k
      {
        DigestsDiffer(at, k);
        DigestsDiffer(k, at);
      }
    }
  }

  /** Where an image comes from: a registry, or a build whose only FROM names such an image, and whose build
      root has the given size. */
  datatype Origin = Registry(pulled: seq<Layer>) | Built(from: Origin, steps: seq<Instruction>, rootSize: nat)

  predicate SingleFrom(o: Origin) {
    o.Built? ==> SingleFrom(o.from) && forall i | 0 <= i < |o.steps| :: !o.steps[i].From?
  }

  ghost predicate ForeignBase(o: Origin) {
    match o
    case Registry(pulled) => forall i | 0 <= i < |pulled| :: Foreign(pulled[i].digest)
    case Built(from, _, _) => ForeignBase(from)
  }

  /** The layer list of the image; commit appends the layer that holds the whole build root. */
  function LayersOf(o: Origin): seq<Layer> {
    match o
    case Registry(pulled) => pulled
    case Built(from, steps, rootSize) =>
      ExecuteAll(BuildState([], ""), [From(Some(LayersOf(from)))] + steps).layers + [Layer(ROOTFS_DIGEST, rootSize)]
  }

  lemma {:induction false} ExecuteFirst(s: BuildState, first: Instruction, rest: seq<Instruction>)
    ensures ExecuteAll(s, [first] + rest) == ExecuteAll(Execute(s, first), rest)
    decreases |rest|
  {
    if rest == [] {
      assert ([first] + rest)[..0] == [] && [first] + rest == [first];
    } else {
      var n := |rest| - 1;
      assert ([first] + rest)[..n + 1] == [first] + rest[..n];
      ExecuteFirst(s, first, rest[..n]);
    }
  }

  /** Through any chain of builds, every generated digest names its position; so no two layers of an
      image share one, although the numbers are counted anew in every build. */
  lemma {:induction false} GeneratedDigestsInPlace(o: Origin)
    requires SingleFrom(o) && ForeignBase(o)
    ensures InPlace(LayersOf(o))
    ensures forall i, j, k: nat | 0 <= i < j < |LayersOf(o)| && LayersOf(o)[i].digest == LayersOf(o)[j].digest ::
              LayersOf(o)[i].digest != RunDigest(k) && LayersOf(o)[i].digest != CopyDigest(k)
  {
    match o
    case Registry(_) =>
    case Built(from, steps, _) =>
      GeneratedDigestsInPlace(from);
      ExecuteFirst(BuildState([], ""), From(Some(LayersOf(from))), steps);
      assert [] + LayersOf(from) == LayersOf(from);
      StepsStayInPlace(BuildState(LayersOf(from), ""), steps);
      DigestsDiffer(0, 0);
  }

  ghost predicate AllForeign(layers: seq<Layer>) {
    forall i | 0 <= i < |layers| :: Foreign(layers[i].digest)
  }

  /** Every FROM comes while there are no layers, or brings no generated digest. */
  ghost predicate FromsFit(s: BuildState, instructions: seq<Instruction>) {
    forall n | 0 <= n < |instructions| && instructions[n].From? && instructions[n].base.Some? ::
      ExecuteAll(s, instructions[..n]).layers == [] || AllForeign(instructions[n].base.value)
  }

  lemma AppendInPlace(layers: seq<Layer>, base: seq<Layer>)
    requires InPlace(base)
    ensures InPlace(layers + base) <==> InPlace(layers) && (layers == [] || AllForeign(base))
  {
    var all := layers + base;
    assert forall i | 0 <= i < |layers| :: all[i] == layers[i];
    assert forall i | 0 <= i < |base| :: all[|layers| + i] == base[i];
    if InPlace(all) && layers != [] {
      forall i | 0 <= i < |base| ensures Foreign(base[i].digest) {
        assert all[|layers| + i] == base[i];
      }
    }
    if layers == [] {
      assert all == base;
    }
  }

  lemma GeneratedInPlace(layers: seq<Layer>, layer: Layer)
    requires layer.digest == RunDigest(|layers|) || layer.digest == CopyDigest(|layers|)
    ensures InPlace(layers + [layer]) <==> InPlace(layers)
  {
    var all := layers + [layer];
    assert forall i | 0 <= i < |layers| :: all[i] == layers[i];
    forall k: nat
      ensures RunDigest(|layers|) != CopyDigest(k) && CopyDigest(|layers|) != RunDigest(k)
      ensures RunDigest(|layers|) == RunDigest(k) ==> |layers| == k
      ensures CopyDigest(|layers|) == CopyDigest(k) ==> |layers| == k
    {
      DigestsDiffer(|layers|, k);
      DigestsDiffer(k, |layers|);
    }
  }

  /** A build with any number of FROMs keeps every generated digest at the position that it names if and
      only if each FROM comes first or brings no generated digest. */
  lemma {:induction false} SeveralFroms(s: BuildState, instructions: seq<Instruction>)
    requires InPlace(s.layers)
    requires forall i | i in instructions && i.From? && i.base.Some? :: InPlace(i.base.value)
    ensures InPlace(ExecuteAll(s, instructions).layers) <==> FromsFit(s, instructions)
  {
    if instructions != [] {
      var n := |instructions| - 1;
      var last := instructions[n];
      assert last in instructions && forall i | i in instructions[..n] :: i in instructions;
      SeveralFroms(s, instructions[..n]);
      FromsSplit(s, instructions);
      var before := ExecuteAll(s, instructions[..n]);
      if last.From? && last.base.Some? {
        AppendInPlace(before.layers, last.base.value);
      } else if Execute(before, last).layers != before.layers {
        GeneratedInPlace(before.layers, Execute(before, last).layers[|before.layers|]);
      }
    }
  }

  lemma FromsSplit(s: BuildState, instructions: seq<Instruction>)
    requires instructions != []
    ensures var n := |instructions| - 1;
            var last := instructions[n];
            FromsFit(s, instructions) <==>
            && FromsFit(s, instructions[..n])
            && (last.From? && last.base.Some? ==>
                  ExecuteAll(s, instructions[..n]).layers == [] || AllForeign(last.base.value))
  {
    var n := |instructions| - 1;
    assert forall m | 0 <= m < n ::
        instructions[..n][m] == instructions[m] && instructions[..n][..m] == instructions[..m];
  }

  /** No generated digest occurs twice. */
  ghost predicate GeneratedOnce(layers: seq<Layer>) {
    forall i, j | 0 <= i < j < |layers| && layers[i].digest == layers[j].digest :: Foreign(layers[i].digest)
  }

  /** The base brings a generated digest that the list holds already. */
  ghost predicate Repeats(layers: seq<Layer>, base: seq<Layer>) {
    exists i, j :: 0 <= i < |layers| && 0 <= j < |base| && layers[i].digest == base[j].digest
                   && !Foreign(layers[i].digest)
  }

  /** Generated digests have numbers below the length of the list. */
  ghost predicate Numbered(layers: seq<Layer>) {
    forall i, k: nat | 0 <= i < |layers| && (layers[i].digest == RunDigest(k) || layers[i].digest == CopyDigest(k)) ::
      k < |layers|
  }

  lemma InPlaceOnce(layers: seq<Layer>)
    requires InPlace(layers)
    ensures GeneratedOnce(layers) && Numbered(layers)
  {
    forall i, j | 0 <= i < j < |layers| && layers[i].digest == layers[j].digest ensures Foreign(layers[i].digest) {
      forall k: nat ensures layers[i].digest != RunDigest(k) && layers[i].digest != CopyDigest(k) {
      }
    }
  }

  lemma RepeatedTwice(layers: seq<Layer>, base: seq<Layer>)
    requires Repeats(layers, base)
    ensures !GeneratedOnce(layers + base)
  {
    var all := layers + base;
    var i, j :| 0 <= i < |layers| && 0 <= j < |base| && layers[i].digest == base[j].digest
                && !Foreign(layers[i].digest);
    assert all[i] == layers[i] && all[|layers| + j] == base[j];
  }

  lemma AppendOnce(layers: seq<Layer>, base: seq<Layer>)
    requires GeneratedOnce(base)
    ensures GeneratedOnce(layers + base) <==> GeneratedOnce(layers) && !Repeats(layers, base)
  {
    var all := layers + base;
    assert forall i | 0 <= i < |layers| :: all[i] == layers[i];
    assert forall i | 0 <= i < |base| :: all[|layers| + i] == base[i];
    if Repeats(layers, base) {
      RepeatedTwice(layers, base);
    }
  }

  lemma AppendNumbered(layers: seq<Layer>, base: seq<Layer>)
    requires Numbered(layers) && Numbered(base)
    ensures Numbered(layers + base)
  {
    var all := layers + base;
    forall i, k: nat | 0 <= i < |all| && (all[i].digest == RunDigest(k) || all[i].digest == CopyDigest(k))
      ensures k < |all|
    {
      assert all[i] == if i < |layers| then layers[i] else base[i - |layers|];
    }
  }

  /** A generated layer gets a number that no layer has yet. */
  lemma GeneratedIsNew(layers: seq<Layer>, layer: Layer)
    requires layer.digest == RunDigest(|layers|) || layer.digest == CopyDigest(|layers|)
    requires Numbered(layers)
    ensures Numbered(layers + [layer]) && (GeneratedOnce(layers + [layer]) <==> GeneratedOnce(layers))
  {
    forall k: nat
      ensures RunDigest(|layers|) != CopyDigest(k) && CopyDigest(|layers|) != RunDigest(k)
      ensures RunDigest(|layers|) == RunDigest(k) ==> |layers| == k
      ensures CopyDigest(|layers|) == CopyDigest(k) ==> |layers| == k
    {
      DigestsDiffer(|layers|, k);
      DigestsDiffer(k, |layers|);
    }
    AppendOnce(layers, [layer]);
    var all := layers + [layer];
    assert forall i | 0 <= i < |layers| :: all[i] == layers[i];
  }

  /** A FROM of the build brings a generated digest that is there already. */
  ghost predicate FromRepeats(s: BuildState, instructions: seq<Instruction>, n: nat)
    requires n < |instructions|
  {
    instructions[n].From? && instructions[n].base.Some?
    && Repeats(ExecuteAll(s, instructions[..n]).layers, instructions[n].base.value)
  }

  ghost predicate NoFromRepeats(s: BuildState, instructions: seq<Instruction>) {
    forall n: nat | n < |instructions| :: !FromRepeats(s, instructions, n)
  }

  lemma NextRepeats(s: BuildState, instructions: seq<Instruction>)
    requires instructions != []
    ensures var n := |instructions| - 1;
            NoFromRepeats(s, instructions)
            <==> NoFromRepeats(s, instructions[..n]) && !FromRepeats(s, instructions, n)
  {
    var n := |instructions| - 1;
    forall m: nat | m < n ensures FromRepeats(s, instructions, m) == FromRepeats(s, instructions[..n], m) {
      assert instructions[..n][..m] == instructions[..m];
    }
  }

  /** When digests really repeat: no generated digest occurs twice after a build with any number of FROMs, if
      and only if no FROM brings one that is there already; the steps never do. */
  lemma {:induction false} DigestsRepeatExactly(s: BuildState, instructions: seq<Instruction>)
    requires InPlace(s.layers)
    requires forall i | i in instructions && i.From? && i.base.Some? :: InPlace(i.base.value)
    ensures Numbered(ExecuteAll(s, instructions).layers)
    ensures GeneratedOnce(ExecuteAll(s, instructions).layers)
       <==> NoFromRepeats(s, instructions)
  {
    if instructions == [] {
      InPlaceOnce(s.layers);
    } else {
      var n := |instructions| - 1;
      var last := instructions[n];
      assert last in instructions && forall i | i in instructions[..n] :: i in instructions;
      DigestsRepeatExactly(s, instructions[..n]);
      NextRepeats(s, instructions);
      LastStepRepeats(ExecuteAll(s, instructions[..n]), last);
    }
  }

  lemma LastStepRepeats(before: BuildState, last: Instruction)
    requires Numbered(before.layers) && (last.From? && last.base.Some? ==> InPlace(last.base.value))
    ensures Numbered(Execute(before, last).layers)
    ensures GeneratedOnce(Execute(before, last).layers)
       <==> GeneratedOnce(before.layers)
            && !(last.From? && last.base.Some? && Repeats(before.layers, last.base.value))
  {
    if last.From? && last.base.Some? {
      InPlaceOnce(last.base.value);
      AppendOnce(before.layers, last.base.value);
      AppendNumbered(before.layers, last.base.value);
    } else if Execute(before, last).layers != before.layers {
      GeneratedIsNew(before.layers, Execute(before, last).layers[|before.layers|]);
    }
  }

  /** So a build whose FROMs fit repeats no generated digest. */
  lemma FittingFromsRepeatNothing(s: BuildState, instructions: seq<Instruction>)
    requires InPlace(s.layers) && FromsFit(s, instructions)
    requires forall i | i in instructions && i.From? && i.base.Some? :: InPlace(i.base.value)
    ensures GeneratedOnce(ExecuteAll(s, instructions).layers)
  {
    SeveralFroms(s, instructions);
    InPlaceOnce(ExecuteAll(s, instructions).layers);
  }

  /** So with a second FROM of an image that was itself built, a digest can occur twice. */
  lemma SecondFromRepeatsDigest(base: seq<Layer>)
    requires base != [] && base[0].digest == CopyDigest(0)
    ensures var layers := ExecuteAll(BuildState([], ""), [From(Some([])), Copy(true), From(Some(base))]).layers;
            |layers| >= 2 && layers[0].digest == layers[1].digest
  {
    var all := [From(Some([])), Copy(true), From(Some(base))];
    assert all[..2][..1] == [From(Some([]))] && all[..2][..1][..0] == [];
    assert all[..2][1] == Copy(true);
    assert ExecuteAll(BuildState([], ""), all[..2][..1]).layers == [];
    assert ExecuteAll(BuildState([], ""), all[..2]).layers == [Layer(CopyDigest(0), 0)];
  }
}
