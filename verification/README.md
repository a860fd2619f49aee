# poqman: a verified model

poqman builds and runs containers as QEMU machines. This project models its parts that do not depend
on QEMU, the network or a registry, and proves what they promise. `dafny verify dfyconfig.toml` checks
all of it.

- **Boot command line** (`KernelCmdline`, `GuestInit`, `BootRoundTrip`). The host prints the settings
  of a container into the kernel command line, and PID 1 in the guest reads them back. The two
  programs undo each other exactly when no value contains white space and no later command word poses
  as one of the settings with another value.
- **File trees** (`FileTree`, `Copying`, `Layers`, `Rootfs`, `DiffLayer`, `DockerIgnore`, `CopyClashes`,
  `Builder`). Recursive merge, walk and copy, and snapshot with diff and extraction all come down to
  override of maps from paths to contents. A build root, the image made of it and the root of a
  container therefore agree.
- **Names and stores** (`ImageRef`, `ImageStore`, `ContainerStore`, `Commands`, `CommandLine`,
  `IndexIntegrity`, `ContainerIntegrity`, `Races`, `RemovalRaces`, `StartRaces`). `Commands` cuts every
  command into steps that write at most one file each. `CommandLine` holds the commands as sequences of
  store calls, proved equal to the uninterrupted steps. The integrity theorems range over all
  interleavings, or over all sequences of commands killed anywhere; the race modules say exactly which
  interleavings of two commands lose a name or an image.
- **Agent protocol** (`AgentProtocol`). Callers share one client and one line to a sequential agent.
- **Dockerfile text** (`DockerfileText`, `Parser`) and **address allocation** (`Network`).

`Text` and `Sorting` hold the functions of Go's standard library that the above rely on, and `Sets` a
fact about finite sets. Paths in the table are those of the repository.

Where the code does not do what one would expect, the code is modelled and the difference is proved:

- A command survives the kernel command line exactly when it is a single word without white space
  (`CommandSurvives`), and later command words can override settings (`ParsePrinted`).
- A container made by `run` is recorded as created or stopped, never as running (`RunStatus`), so `stop`
  does nothing to it (`RunLeavesCreated`).
- A container that loads as running can lose its image. With one command at a time that happens exactly
  when a removal is killed between its unlinks, the state file being gone, and the configuration that is
  left does not say stopped and has lost its image (`IntegrityExactly`, `IntegrityOfSequences`); a start
  that is killed between its two writes, and an rmi, lead there (`TwoCrashesBreakIntegrity`). With `rmi`
  beside a detached `run` that boots, or beside a detached `start`, it happens exactly when the two
  overlap on the image (`ImageLostExactly`, `StartLosesImageExactly`).
- Concurrent loads lose names, exactly when each reads the index before the other one writes it
  (`TagsSurvive`), but never leave a name without its image.
- A signal sent through the agent client can never succeed (`SignalNeverSucceeds`): the agent takes it
  only when nothing runs. A request that crashes the agent blocks the client (`DeadForGood`).
- The full name of an image is not always canonical (`FullNameIsCanonical`).
- A layer whose file meets a directory makes a container fail and a build go on (`FromIgnoresClash`).
- A directory that becomes a file hides its deleted files from the computed difference
  (`SizeIsDifference`), and makes the layer of the step fail over the old root (`LayerReproducesRun`).
- A negated ignore pattern may not reach below an ignored directory; `PruningExactly` says when it does.
- COPY of a file puts it in place of a destination whose name merely ends in the file's name, and `COPY`
  to `/` can do so with the build root itself (`TargetExactly`).
- A second FROM can repeat a generated digest; `DigestsRepeatExactly` says when.
- A Dockerfile line can be merged differently the second time (`MergingTwiceRaw`), and a FROM line
  without a platform can be misread when its image or stage name contains the flag (`FromReadsBack`).

External events are parameters. An operation takes as an argument whether a machine booted, what a
registry offered, whether a write got through, or in which order a directory was emptied; the theorems
hold for all values. Hashes and generated IDs are given values. Globs, the case mappings and the text
form of IPv6 addresses are arbitrary functions.

## Model

| member | source | states |
|---|---|---|
| `BootRoundTrip.UnescapeEscape` | cmd/poqman-init/main.go:337-342 | the guest undoes the host's escaping for every string |
| `BootRoundTrip.BootRoundTrip` | pkg/runtime/args.go:159-198 | PID 1 recovers host name, addresses, all volumes and the first command word if and only if no printed value contains white space and no later command word sets one of these parameters to another value |
| `BootRoundTrip.FullLineRoundTrip` | pkg/runtime/args.go:136-198 | the same for the line that run and start print, behind the kernel's own parameters |
| `BootRoundTrip.CommandSurvives` | cmd/poqman-init/main.go:249-262 | PID 1 starts the command the user gave exactly when it is a single word without white space, whatever else is on the line |
| `BootRoundTrip.ParsePrinted` | cmd/poqman-init/main.go:242-262 | what PID 1 reads is the parameters in front, overridden by the printed ones, overridden by the later command words that look like parameters |
| `BootRoundTrip.QuietCommand` | cmd/poqman-init/main.go:242-262 | later command words that do not look like parameters disturb nothing |
| `BootRoundTrip.VolumesRecovered` | pkg/runtime/args.go:175-185 | every volume's source, target and flag are found under the keys of its own index, and no further volume is there |
| `BootRoundTrip.HostRecovered` | pkg/runtime/args.go:162-173 | host values that are empty print no word and still read back as empty |
| `BootRoundTrip.MountsWhatWasGiven` | cmd/poqman-init/main.go:309-335 | the mounts are exactly the volumes before the first incomplete one, with their targets and flags |
| `BootRoundTrip.TagsAgree` | pkg/runtime/args.go:90-100 | a mounted tag names the QEMU device of the volume with the same index and of no other |
| `BootRoundTrip.ParsedValuesHaveNoSpace` | cmd/poqman-init/main.go:249-262 | nothing that PID 1 reads contains white space, whatever the line |
| `BootRoundTrip.UpToGap` | cmd/poqman-init/main.go:315-319 | the number of leading volumes that have both a source and a target |
| `BootRoundTrip.DeviceInjective` | pkg/runtime/args.go:97-98 | different volumes get different device arguments |
| `GuestInit.ParseCmdline` | cmd/poqman-init/main.go:242-262 | the loop over the words builds the map of ParseWords |
| `GuestInit.WordSets` | cmd/poqman-init/main.go:248-259 | a word sets the parameter in front of its first equals sign to the unescaped text behind, or to 1 if there is none |
| `GuestInit.MountVolumes` | cmd/poqman-init/main.go:309-335 | the unbounded loop ends, and mounts exactly the indices before the first gap |
| `GuestInit.VolumeKeyInjective` | cmd/poqman-init/main.go:311-313 | keys of different indices differ, since numerals do |
| `KernelCmdline.BuildKernelAppend` | pkg/runtime/args.go:136-157 | the parameters for the root file system and the console |
| `KernelCmdline.KernelText` | pkg/runtime/args.go:136-157 | one line: root file system over 9p unless there is an initrd or another format, console if there is one, and quiet |
| `KernelCmdline.BuildInitCmdline` | pkg/runtime/args.go:159-198 | the appended parts join to the printed bindings, in order |
| `KernelCmdline.AppendUnlessEmpty` | pkg/runtime/args.go:162-173 | an empty value prints nothing, any other one its escaped binding |
| `KernelCmdline.PrintVolumes` | pkg/runtime/args.go:175-185 | three bindings for each volume |
| `KernelCmdline.PrintCommand` | pkg/runtime/args.go:187-195 | the escaped words of the command, or the default |
| `KernelCmdline.EscapePlain` | pkg/runtime/args.go:200-206 | texts without quotes and white space are printed unchanged |
| `KernelCmdline.QuotedExactly` | pkg/runtime/args.go:200-206 | an argument is put into quotes exactly when it contains a blank, a tab or a line feed |
| `KernelCmdline.BuildVolumeArgs` | pkg/runtime/args.go:90-100 | the texts of four arguments for each volume, at four times its index |
| `Copying.MergeIsOverride` | pkg/dockerfile/builder.go:637-671 | the recursive merge is map override wherever source and destination agree on files and directories |
| `Copying.MergeNodeIsOverride` | pkg/dockerfile/builder.go:648-668 | the same for one entry |
| `Copying.MergeSkipsClashes` | pkg/dockerfile/builder.go:637-671 | where no path of one side is a link of the other: whatever else clashes, the merge is override by exactly the entries that meet nothing of another kind at their own path or above |
| `Copying.WalkIsOverride` | pkg/storage/rootfs.go:44-71 | where no path of one tree is a link of the other, the walk succeeds exactly when the two agree, and then is map override |
| `Copying.LeafIsOverride` | pkg/storage/rootfs.go:57-69 | where no link is met, a file or link is written exactly when nothing of another kind is in its place |
| `Copying.MkdirAllOnlyAdds` | pkg/storage/rootfs.go:98-101 | making a directory path keeps everything and adds only directories on the way |
| `Copying.MkdirAllFailsExactly` | pkg/storage/rootfs.go:98-101 | on a path without links, making a directory path fails exactly when a file lies on it |
| `Copying.WriteExactly` | pkg/dockerfile/difflayer.go:107-112 | on a path without links, a file can be written exactly when it is no directory and no file lies above it |
| `Layers.SortingSorted` | pkg/storage/rootfs.go:27-29 | sorting a listing that is in name order changes nothing |
| `Layers.NameOrder` | pkg/storage/rootfs.go:27-29 | the order of names: at the first difference the smaller character decides, and a beginning comes before the longer name |
| `Layers.SortingSorts` | pkg/storage/rootfs.go:27-29 | a listing with distinct names is sorted into that order, each layer once |
| `Layers.StackHoldsGreatest` | pkg/storage/rootfs.go:27-39 | each path holds what the layer with the greatest name that has this path holds, whatever the order of the listing |
| `Layers.AssembledHoldsGreatest` | pkg/storage/rootfs.go:11-42 | for layers whose links lie at no path of another layer: assembling succeeds exactly when the layers agree, and then each path holds what the layer with the greatest name has there |
| `Layers.StackHoldsLast` | pkg/storage/rootfs.go:27-39 | a path holds what the last listed layer with that path holds, and nothing else is there |
| `Layers.FitsOnStack` | pkg/storage/rootfs.go:31-39 | a layer fits on the stack exactly when it agrees with every layer below |
| `Layers.AssembleIsStack` | pkg/storage/rootfs.go:11-42 | for layers whose links lie at no path of another layer: assembling succeeds exactly when all layers agree pairwise, and yields the stack |
| `Layers.FromIsStack` | pkg/dockerfile/builder.go:202-208 | the FROM step yields the same stack when the layers agree |
| `Layers.FromKeepsUnclashed` | pkg/dockerfile/builder.go:202-208 | for layers whose links lie at no path of another layer: whatever else clashes, the FROM step heaps up from each layer exactly what meets nothing of another kind |
| `Layers.BuildRootIsContainerRoot` | pkg/dockerfile/builder.go:196-208 | build root after the first FROM and container root of an image are the same tree |
| `Layers.FromIgnoresClash` | pkg/dockerfile/builder.go:202-208 | for layers whose links lie at no path of another layer: a clash makes assembling fail, exactly then, while the FROM step goes on with the heap; without a clash both give the heap |
| `Layers.CommitThenAssemble` | pkg/dockerfile/builder.go:582-603 | a container of a committed build has the build root, path for path |
| `Layers.InjectionChangesTwoFiles` | pkg/storage/rootfs.go:97-113 | where sbin and usr/bin are no links: the injections succeed exactly when no file blocks them, and then only the two binaries differ, apart from missing directories above them |
| `Rootfs.Directory.CopyDirContents` | pkg/dockerfile/builder.go:637-671 | the recursion over the entries computes the merge |
| `Rootfs.Directory.CopyDir` | pkg/storage/rootfs.go:44-71 | the walk applies its visits up to the first error |
| `Rootfs.Directory.AssembleRootfs` | pkg/storage/rootfs.go:11-42 | the layers in name order, up to the first error; from an empty root, for layers whose links lie at no path of another layer, each path then holds what the layer with the greatest name has there; an image without layers leaves the root as it is |
| `Rootfs.Directory.MergeLayerDirs` | pkg/dockerfile/builder.go:202-208 | the loop over the layer directories of a FROM |
| `Rootfs.Directory.InjectBinary` | pkg/storage/rootfs.go:97-113 | directory, then binary, with both error cases |
| `DiffLayer.TakeSnapshot` | pkg/dockerfile/builder.go:421-435 | the modification time of every file, and of nothing else |
| `DiffLayer.ComputeDiff` | pkg/dockerfile/builder.go:437-462 | bytes of changed files plus one for each deleted file that os.Stat reports as not existing |
| `DiffLayer.CreateDiffLayer` | pkg/dockerfile/difflayer.go:12-73 | the new and changed files but the two artefacts, in walk order, and the sum of their bytes |
| `DiffLayer.ExtractLayerFile` | pkg/dockerfile/difflayer.go:92-119 | replays the entries in order, up to the first error |
| `DiffLayer.DifferenceCounts` | pkg/dockerfile/builder.go:437-462 | each file that is new or has another time counts with its bytes, and an old path counts once where nothing is found and no file lies above |
| `DiffLayer.SizeIsDifference` | pkg/dockerfile/builder.go:437-462 | the layer size is the computed difference less one for each counted deletion and less the artefacts' bytes; less one for every deleted file exactly when no deleted file has become one below a new file |
| `DiffLayer.SizeIsChangedBytes` | pkg/dockerfile/difflayer.go:26-73 | the reported size is the bytes of the changed files that are no artefacts |
| `DiffLayer.FileInPlaceOfDirectory` | pkg/dockerfile/builder.go:455-459 | a directory with a file that becomes a file: one file is gone and none is counted |
| `DiffLayer.ExtractExactly` | pkg/dockerfile/difflayer.go:92-119 | extraction over a tree succeeds exactly when no shipped file is a directory there and none lies below a file |
| `DiffLayer.FreshExtraction` | pkg/dockerfile/builder.go:378-381 | extraction into a fresh directory always succeeds and leaves exactly the shipped files |
| `DiffLayer.ExtractedFiles` | pkg/dockerfile/difflayer.go:92-119 | a successful extraction replaces exactly the shipped files |
| `DiffLayer.NewFileShipped` | pkg/dockerfile/difflayer.go:39-42 | a file is shipped exactly when no file was there before with the same time |
| `DiffLayer.ShipsExactly` | pkg/dockerfile/difflayer.go:26-73 | the layer holds each file that is new or has another time, with its content, except the exit code and the script of the build machine in /tmp, and nothing else |
| `DiffLayer.LayerReproducesRun` | pkg/dockerfile/difflayer.go:26-119 | over the old root the layer fails exactly when a shipped file is in the way of a directory or a file; else it gives the new root's files if and only if no content changed behind its time stamp, and deleted files and artefacts stay |
| `DockerIgnore.ComputeShouldIgnore` | pkg/dockerfile/dockerignore.go:46-60 | the loop computes the verdict of the last matching pattern |
| `DockerIgnore.LastMatchDecides` | pkg/dockerfile/dockerignore.go:46-60 | a path is ignored exactly when the last pattern that matches it is not negated |
| `DockerIgnore.MatchReachesDown` | pkg/dockerfile/dockerignore.go:62-68 | a separator pattern that matches a directory matches everything below it |
| `DockerIgnore.SeparatorPatternsMean` | pkg/dockerfile/dockerignore.go:62-68 | a pattern with a separator matches the path it spells, with or without a separator at its end, and all below it, and nothing else |
| `DockerIgnore.OtherPatternsMean` | pkg/dockerfile/dockerignore.go:70-76 | any other pattern is a glob for the whole path or for its last name |
| `DockerIgnore.CopiesIntoMissing` | pkg/dockerfile/builder.go:684-704 | into a destination that is not there yet: a file, or what a link shows, is copied exactly when no path from below the source down to it is ignored; the copy fails exactly when a link that is kept cannot be read; the destination is made only if something is copied |
| `CopyClashes.CopiesExactly` | pkg/dockerfile/builder.go:679-704 | into an existing directory without links in the way: the copy fails exactly when a kept link cannot be read or a kept file meets something of another kind at its path or above; else exactly the kept part arrives that meets nothing of another kind |
| `CopyClashes.CopiesOntoFile` | pkg/dockerfile/builder.go:679-704 | at a file or below one: the copy fails exactly when more than directories is kept, and writes nothing |
| `DockerIgnore.CopyFollows` | pkg/dockerfile/builder.go:684-704 | the copy of a tree with links is that of the tree as opening its entries shows it |
| `DockerIgnore.PruningIsFiltering` | pkg/dockerfile/builder.go:689-697 | for non-negated separator patterns pruning is filtering each file on its own |
| `DockerIgnore.PruningExactly` | pkg/dockerfile/builder.go:689-697 | for separator patterns with negations, pruning is filtering each file on its own exactly when every path that a negated pattern names is itself ignored as soon as a directory above it is |
| `DockerIgnore.NegationComesTooLate` | pkg/dockerfile/builder.go:689-697 | an instance of the failure: the negated file below an ignored directory passes the rules and is not copied |
| `Builder.Builder.HandleFrom` | pkg/dockerfile/builder.go:210 | appends the layers of the base image in order, or fails and appends none |
| `Builder.Builder.HandleKernel` | pkg/dockerfile/builder.go:216-228 | remembers the kernel |
| `Builder.Builder.HandleRun` | pkg/dockerfile/builder.go:230-247 | without a kernel or its image nothing; else an error, and no layer, if the machine does not start, gives no exit code or a code other than 0, or its changes cannot be read; else one layer of exactly the reported size, numbered by the length of the list |
| `Builder.Builder.Handle` | pkg/dockerfile/builder.go:124-161 | one instruction by its handler, with the error of the handler |
| `Builder.Builder.RecordCopy` | pkg/dockerfile/builder.go:483-489 | a layer numbered by the length of the list |
| `Builder.Builder.Process` | pkg/dockerfile/builder.go:122-170 | the instructions in order up to the first that fails; without a FROM an error; after a success every RUN with a kernel and its image has ended with code 0 |
| `Builder.NoRunFails` | pkg/dockerfile/builder.go:347-387 | in a build in which nothing fails, every RUN reached with a kernel and its image ends with code 0 and appends one layer of the reported size |
| `Builder.Builder.HandleCopy` | pkg/dockerfile/builder.go:464-492 | the sources in order, ignored ones skipped, the first error ends it, and only then the layer |
| `Builder.Builder.CopyPath` | pkg/dockerfile/builder.go:673-715 | a directory entry by entry, a file to the destination or into it, anything else an error |
| `Builder.Builder.CopyFileContents` | pkg/dockerfile/builder.go:753-775 | opens the source before it makes the directory of the destination and writes the file |
| `Builder.SourcesOverride` | pkg/dockerfile/builder.go:472-481 | several files and directories that meet only things of their kind override an existing directory with what each of them brings, the last one winning |
| `Builder.CopyOfOneFile` | pkg/dockerfile/builder.go:464-492 | COPY of one file to any destination, there or not: it arrives at its target exactly when no directory is in its place and no file above it, and new are only missing directories above it |
| `Builder.TargetExactly` | pkg/dockerfile/builder.go:706-709 | a file goes to or into the destination as it should exactly when the destination's last name does not end in the file's name, or is that name and not that of the build root |
| `Builder.Builder.CopyWithIgnore` | pkg/dockerfile/builder.go:679-704 | the recursion over the entries, up to the first error |
| `Builder.DigestsDiffer` | pkg/dockerfile/builder.go:365 | generated digests differ for different numbers and kinds |
| `Builder.StepsStayInPlace` | pkg/dockerfile/builder.go:365-387 | steps after the FROM keep every generated digest at the position it names |
| `Builder.GeneratedDigestsInPlace` | pkg/dockerfile/builder.go:599-603 | through any chain of single-FROM builds generated digests sit at their positions and are pairwise distinct |
| `Builder.SeveralFroms` | pkg/dockerfile/builder.go:210 | a build with any number of FROMs keeps every generated digest in place exactly when each FROM finds no layers before it or brings no generated digest |
| `Builder.DigestsRepeatExactly` | pkg/dockerfile/builder.go:365 | no generated digest occurs twice after a build with any number of FROMs, exactly if no FROM brings one that is there already |
| `Builder.FittingFromsRepeatNothing` | pkg/dockerfile/builder.go:210 | if each FROM comes first or brings no generated digest, generated digests are pairwise distinct |
| `Builder.SecondFromRepeatsDigest` | pkg/dockerfile/builder.go:210 | an instance of the failure: with a second FROM a generated digest occurs twice |
| `ImageRef.ParseImageRef` | pkg/image/name.go:21-64 | the three cuts and the defaults, in the order of the code |
| `ImageRef.LocatedName` | pkg/image/name.go:44-61 | registry and repository spell the path, completed by the default registry and namespace |
| `ImageRef.FirstPartDecides` | pkg/image/name.go:44-61 | a name alone is an official image; a first part is the registry if it has a dot or a colon, is localhost, or two parts or more follow; else a namespace of the default registry |
| `ImageRef.ReferenceReadsBack` | pkg/image/name.go:21-64 | a reference with registry, repository and tag reads back as they are |
| `ImageRef.CompletedIsComplete` | pkg/image/name.go:44-61 | a completed path is used as it is the next time |
| `ImageRef.TagInLastPart` | pkg/image/name.go:33-38 | a tag is cut off exactly when the last part of the path holds a colon |
| `ImageRef.UntaggedShape` | pkg/image/name.go:33-38 | cutting off a tag keeps the number of parts and the registry |
| `ImageRef.FullNameIsCanonical` | pkg/image/name.go:83-89 | parsing the full name gives the full name again exactly for the references of the predicate Stable |
| `ImageRef.UsualNamesAreCanonical` | pkg/image/name.go:83-89 | with at most one at sign: unless there is a digest and a colon is left before it |
| `ImageRef.TagIsDropped` | pkg/image/name.go:83-89 | a tag in front of a digest is dropped |
| `ImageRef.EachReadingDropsATag` | pkg/image/name.go:28-38 | with two colons before a digest each reading of the name drops one |
| `ImageRef.PathWithAtSign` | pkg/image/name.go:28-31 | an at sign in the path turns the rest of the name into a digest |
| `ImageRef.TagWithAtSign` | pkg/image/name.go:28-31 | a name with an at sign in its tag is never read back as itself |
| `ImageRef.CutAtLastOf` | pkg/image/name.go:91-97 | the cut is at the last separator |
| `Images.ImageIndex.Add` | pkg/image/image.go:51-55 | sets one name |
| `Images.ImageIndex.Remove` | pkg/image/image.go:57-61 | deletes one name |
| `Images.ImageIndex.Lookup` | pkg/image/image.go:63-68 | the ID of a name, if it has one |
| `ImageStore.Store.LoadIndex` | pkg/image/store.go:25-41 | a copy of the index file |
| `ImageStore.Store.SaveIndex` | pkg/image/store.go:43-55 | replaces the index file and nothing else |
| `ImageStore.Store.Get` | pkg/image/store.go:57-71 | the stored configuration, if there is one |
| `ImageStore.Store.Save` | pkg/image/store.go:73-107 | stores the configuration under the image's ID |
| `ImageStore.Store.Remove` | pkg/image/store.go:109-127 | exactly the names of the image go, with its files; all others stay as they are |
| `ImageStore.Store.Resolve` | pkg/image/store.go:129-144 | what the full name names, even if that is gone; without this name, what the latest tag of the repository names |
| `ImageStore.Store.List` | pkg/image/store.go:146-168 | every named and stored image, once, however many names it has, newest first |
| `ImageStore.AddedNames` | pkg/cli/saveload.go:94-99 | all tags name the image, and all other names stay |
| `ContainerStore.Store.Create` | pkg/container/store.go:21-40 | the record says created, whatever status the caller has set |
| `ContainerStore.Store.Load` | pkg/container/store.go:42-77 | the configuration, with status, process and address of the state file where there is one |
| `ContainerStore.Store.Save` | pkg/container/store.go:79-89 | writes both files |
| `ContainerStore.Store.SaveState` | pkg/container/store.go:121-136 | writes the state file only |
| `ContainerStore.Store.Remove` | pkg/container/store.go:91-94 | removes both files |
| `ContainerStore.Store.List` | pkg/container/store.go:96-119 | exactly the records that can be loaded, each once, newest first |
| `Sorting.SortFalling` | pkg/image/store.go:164-166 | the same elements, each as often as before, with falling keys |
| `Commands.PullRefines` | pkg/registry/pull.go:30-126 | the steps of a pull add up to its effect |
| `Commands.PullStoresDownload` | pkg/registry/pull.go:67-121 | a pull that downloads: the reference resolves to the image stored under the offered ID, with the offered layers one by one, the sum of their sizes, the present time and the full name as only tag |
| `Commands.PullWithoutDownload` | pkg/registry/pull.go:31-67 | any other pull stores no image: it finds the reference, or names the offered image that is there, or fails and changes nothing |
| `Commands.SizesAdd` | pkg/registry/pull.go:67-98 | each layer adds its size to the total |
| `Commands.PullIsIdempotent` | pkg/registry/pull.go:31-35 | a pulled reference is found, and pulling it again changes nothing |
| `Commands.LoadRefines` | pkg/cli/saveload.go:86-99 | the steps of load store the image and name it by all its tags |
| `Commands.LoadedTagIsFound` | pkg/cli/saveload.go:94-99 | a tag that is its own full name, registered by load, is found again by Resolve |
| `Commands.BuildStores` | pkg/dockerfile/builder.go:122-163 | a build whose bases can be pulled one after the other stores its image under all its tags; any other only adds images that its bases name |
| `Commands.RmiRefines` | pkg/cli/rm.go:93-117 | refused while a container uses the image, else all its names and its files go |
| `Commands.RmiForgetsOneImage` | pkg/cli/rm.go:93-117 | refused while a container that is not stopped was made from the image; else that image and its names go, and nothing else |
| `Commands.RunRefines` | pkg/cli/run.go:65-278 | pull, then the writes of the record |
| `Commands.RunWritesOneRecord` | pkg/cli/run.go:237-278 | after the pull one record changes: image, process, address and time of this run, stopped if attached, else created; none is left if it is removed |
| `Commands.RunStatus` | pkg/cli/run.go:237-271 | a run that boots and keeps its container records image, process, address and time, as stopped if attached, else as created |
| `Commands.RunLeavesCreated` | pkg/cli/run.go:237-247 | stop does nothing to a container made by run, and after a detached run start does nothing either and rmi is refused |
| `Commands.StartRefines` | pkg/cli/start.go:33-136 | guards on status and image, then the running record |
| `Commands.StartWritesOneRecord` | pkg/cli/start.go:36-136 | only a stopped or failed container with its image is started: process and address are new, and the status is running, or stopped after an attached start; nothing else changes |
| `Commands.StopRefines` | pkg/cli/stop.go:33-72 | only a running container is saved as stopped |
| `Commands.RmRefines` | pkg/cli/rm.go:36-60 | a running container only by force, and then saved as stopped first |
| `Commands.RmRemovesOneRecord` | pkg/cli/rm.go:36-60 | both files of the one record go, whether it was saved as stopped first or not; a running container without force stays as it is |
| `Commands.WholeActions` | pkg/container/store.go:79-94 | uninterrupted, a save or a removal acts on both files at once |
| `Commands.StepsFinish` | pkg/registry/pull.go:30-126 | a process that is not killed runs to its end |
| `CommandLine.Cli.PullImage` | pkg/registry/pull.go:30-126 | image, index and files after each of the four outcomes: found, cached, failed, downloaded |
| `CommandLine.Cli.Pull` | pkg/registry/pull.go:30-126 | its calls of the stores leave the disk as the finished step program does |
| `CommandLine.Cli.Register` | pkg/dockerfile/builder.go:623-630 | save the image, load the index, add, save the index |
| `CommandLine.Cli.LoadArchive` | pkg/cli/saveload.go:86-101 | its calls of the stores leave the disk as the finished step program does |
| `CommandLine.Cli.Build` | pkg/dockerfile/builder.go:122-163 | leaves the disk as the finished step program does; succeeds exactly when all bases can be pulled, and then the image is stored under all its tags |
| `CommandLine.Cli.HasUser` | pkg/cli/rm.go:107-112 | going through the list of containers decides whether the image is in use |
| `CommandLine.Cli.Rmi` | pkg/cli/rm.go:93-117 | leaves the disk as the finished step program does: without the image and its names, unless a container uses it |
| `CommandLine.Cli.Run` | pkg/cli/run.go:65-278 | leaves the disk as the finished step program does: with the one record of this run, or without it |
| `CommandLine.Cli.Start` | pkg/cli/start.go:33-136 | leaves the disk as the finished step program does: one record is running, or stopped again, with a new process and address |
| `CommandLine.Cli.Stop` | pkg/cli/stop.go:33-76 | leaves the disk as the finished step program does: both files of one running container say stopped |
| `CommandLine.Cli.Rm` | pkg/cli/rm.go:36-63 | leaves the disk as the finished step program does: both files of one record are gone, if it does not run or by force |
| `IndexIntegrity.StepKeepsSound` | pkg/registry/pull.go:110-121 | one step keeps every name on a stored image that carries its ID |
| `IndexIntegrity.StepKeepsImages` | pkg/image/store.go:73-107 | a process other than rmi never loses an image |
| `IndexIntegrity.InterleavingsStaySound` | pkg/image/store.go:25-55 | any interleaving of any number of processes without rmi, killed anywhere, keeps disk and memory sound: a name that resolves always loads |
| `IndexIntegrity.ConcurrentAddsLoseNames` | pkg/cli/saveload.go:94-99 | an instance: two loads that both read before either writes lose the first one's new names |
| `Races.TagsSurvive` | pkg/cli/saveload.go:86-101 | every interleaving of two loads of different tags: all tags of both survive if and only if one load writes the index before the other one reads it |
| `Races.NameSurvives` | pkg/cli/saveload.go:94-99 | one name of one load survives exactly when it was there before, its load wrote last, or its load wrote before the other one read |
| `Races.LoadsReach` | pkg/cli/saveload.go:86-101 | index and memory of both loads at every moment, from the order of reads and writes alone |
| `Races.WriteUndoesTheRest` | pkg/image/store.go:25-55 | reading and writing the index around anything else: exactly the changes in between to names of others are undone |
| `Races.WriteKeepsNamesStored` | pkg/image/store.go:43-55 | that write keeps every name on a stored image exactly when no image with a name at the read, nor its own, has been removed |
| `IndexIntegrity.SequencesStaySound` | pkg/image/store.go:109-127 | any sequence of commands with rmi, each killed anywhere, keeps every name on a stored image that carries its ID |
| `ContainerIntegrity.ContainersWithStateKeepImages` | pkg/cli/rm.go:106-117 | whatever is killed where: a container with a state file that loads as not stopped has its image |
| `ContainerIntegrity.IntegrityExactly` | pkg/cli/rm.go:36-117 | for every command and every number of steps after which it is killed: all containers that load as not stopped still have their images if and only if it is not a removal that has unlinked the state file and left a configuration that does not say stopped and has lost its image |
| `ContainerIntegrity.IntegrityOfSequences` | pkg/cli/rm.go:36-117 | the same for sequences of commands: integrity holds after every command if and only if none is such a kill on the disk that it finds |
| `ContainerIntegrity.WholeRemovalsKeepIntegrity` | pkg/container/store.go:91-94 | so integrity holds after every command, whatever saves are killed, if no removal is killed between its unlinks |
| `ContainerIntegrity.UncutSavesKeepIntegrity` | pkg/container/store.go:79-89 | and if no save was cut before the last command, wherever that one is killed |
| `ContainerIntegrity.ConfigFirstKeepsIntegrity` | pkg/container/store.go:91-94 | so integrity holds after every command, whatever is killed, if removals unlink the configuration first |
| `ContainerIntegrity.TwoCrashesBreakIntegrity` | pkg/cli/start.go:123-127 | a start killed between its writes and a removal killed between its unlinks leave a running container without its image |
| `ContainerIntegrity.IntegrityFailsFromScratch` | pkg/cli/rm.go:106-117 | five commands from an empty disk that end there |
| `ContainerIntegrity.StoppedFromScratch` | pkg/cli/run.go:264-271 | load and an attached run leave a container stopped in both files |
| `ContainerIntegrity.StepKeepsBacked` | pkg/cli/rm.go:106-117 | one step keeps the invariants about records and images |
| `ContainerIntegrity.StepKeepsTorn` | pkg/container/store.go:79-89 | only a save under way leaves a record whose two files disagree |
| `ContainerIntegrity.UncutSequence` | pkg/container/store.go:79-89 | sequences without a cut save leave no torn record |
| `RemovalRaces.ImageLostExactly` | pkg/cli/rm.go:93-117 | every interleaving of an rmi and a detached run that boots and keeps its container: a container loses its image if and only if at some moment rmi is past its guard for the image that run has in memory, and has not removed it, while run has not written both files of its record |
| `RemovalRaces.ApartKeepsIntegrity` | pkg/cli/rm.go:93-117 | without such a moment integrity holds throughout, whatever is killed |
| `RemovalRaces.MeetAtOnce` | pkg/cli/run.go:65-278 | such a moment comes when run has found its image and rmi then passes its guard |
| `RemovalRaces.UnlinkKeepsIntegrity` | pkg/image/store.go:109-127 | unlinking an image keeps integrity exactly when no container uses it at that moment |
| `RemovalRaces.RecordKeepsIntegrity` | pkg/container/store.go:21-40 | writing a configuration keeps integrity exactly when the image is there or the record loads as stopped |
| `StartRaces.StartLosesImageExactly` | pkg/cli/start.go:45-127 | every interleaving of a detached start and an rmi: a container loses its image if and only if at some moment rmi is past its guard for the image that start has found, and has not removed it, while start has not written both files of its record |
| `StartRaces.StartApartKeepsIntegrity` | pkg/cli/start.go:45-127 | without such a moment integrity holds throughout, whatever is killed |
| `StartRaces.StartMeetsAtOnce` | pkg/cli/start.go:36-56 | such a moment comes for any stopped container whose image nothing else uses, when start has found the image and rmi then passes its guard |
| `AgentProtocol.Agent.HandleExecute` | cmd/poqman-agent/main.go:64-122 | one response: exit status and output of the child, or an error if it does not start; no process is active afterwards; without arguments a crash |
| `AgentProtocol.Agent.HandleSignal` | cmd/poqman-agent/main.go:124-141 | an error without an active process, else success if the signal is delivered |
| `AgentProtocol.Agent.Serve` | cmd/poqman-agent/main.go:39-62 | one response a request, in order, up to the first crash |
| `AgentProtocol.AgentClient.SendAndReceive` | pkg/runtime/agent.go:125-145 | the agent's answer; an error once writing or scanning fails; or no return, with the lock held, if the agent never answers |
| `AgentProtocol.AgentClient.Execute` | pkg/runtime/agent.go:49-72 | a new ID; on a free lock, a working line and a live agent the exit status and output of the child, or a failure if it does not start; a call that meets a held lock waits |
| `AgentProtocol.AgentClient.Signal` | pkg/runtime/agent.go:74-98 | a new ID, and never a success: a failure, or no return if the agent is dead |
| `AgentProtocol.AgentClient.Ping` | pkg/runtime/agent.go:100-123 | a new ID, and success exactly when the line works and the agent is alive |
| `AgentProtocol.RunsKeepProtocol` | pkg/runtime/agent.go:49-145 | increasing IDs, one request at a time, an active process only while the agent is busy, answers that match: over every run |
| `AgentProtocol.CallsGetTheirOwnResponse` | pkg/runtime/agent.go:125-145 | over every run, a call that returns carries exit status and output of the child of the very step at which the agent took its request |
| `AgentProtocol.TakenOnce` | cmd/poqman-agent/main.go:39-62 | over every run, the agent takes each request at one step at most |
| `AgentProtocol.AnsweredWasTaken` | cmd/poqman-agent/main.go:39-62 | over every run, each answer tells of the child of the step at which its request was taken |
| `AgentProtocol.AtMostOneOutstanding` | pkg/runtime/agent.go:49-51 | at most one request is under way until the scanner fails |
| `AgentProtocol.NoActiveProcessAtTake` | cmd/poqman-agent/main.go:83-113 | no process is active when the agent takes a request |
| `AgentProtocol.SignalNeverSucceeds` | cmd/poqman-agent/main.go:124-132 | every answered signal call fails with the same error |
| `AgentProtocol.BrokenForGood` | pkg/runtime/agent.go:135-137 | after one failed scan no call succeeds |
| `AgentProtocol.DeadForGood` | cmd/poqman-agent/main.go:64-122 | over every run, once the agent has crashed and no response is on its way, no call gets a response, and a call that awaits one keeps the lock until a scan fails |
| `AgentProtocol.UndisturbedCall` | pkg/runtime/agent.go:49-72 | on an idle line a call gets through and leaves the line idle |
| `DockerfileText.MergeContinuations` | pkg/dockerfile/parser.go:36-66 | both loops compute the kept logical lines |
| `DockerfileText.NothingVisibleIsLost` | pkg/dockerfile/parser.go:36-66 | result lines are trimmed, non-empty and no comments, and lose no visible character but continuation marks and comment lines |
| `DockerfileText.MarkIsLast` | pkg/dockerfile/parser.go:40-49 | a line is continued exactly when its last character that is neither blank nor tab is a backslash, and only that and the blanks behind it go |
| `DockerfileText.LogicalLinesKeepInk` | pkg/dockerfile/parser.go:40-54 | merging keeps every visible character in order but the continuation marks |
| `DockerfileText.LogicalLinesKeepWords` | pkg/dockerfile/parser.go:42-48 | merging glues no two words together and splits none |
| `DockerfileText.KeptLines` | pkg/dockerfile/parser.go:56-63 | dropping blank and comment lines loses nothing else |
| `DockerfileText.DroppedLines` | pkg/dockerfile/parser.go:58-61 | a line is dropped exactly when it shows nothing or shows a number sign first |
| `DockerfileText.MergingTwice` | pkg/dockerfile/parser.go:36-66 | merging again changes nothing exactly when no result line ends in a backslash |
| `DockerfileText.MergingTwiceRaw` | pkg/dockerfile/parser.go:36-66 | the same on the raw lines: exactly when no run of lines joined by continuation marks shows a text that is no comment and ends in a backslash |
| `DockerfileText.OnlyContinuationMarks` | pkg/dockerfile/parser.go:41-49 | so for files whose only backslashes are continuation marks |
| `Parser.Parse` | pkg/dockerfile/parser.go:68-99 | the first bad line is an error, else the instructions with their stages resolved |
| `Parser.StagesResolve` | pkg/dockerfile/parser.go:86-93 | each COPY gets the image of the last earlier FROM of that name, or keeps its own word; all else stays |
| `Parser.AliasesHoldLast` | pkg/dockerfile/parser.go:86-88 | the alias map holds the image of the last FROM of each name |
| `Parser.ComputeCopy` | pkg/dockerfile/parser.go:225-250 | flags are taken out, the last word is the destination, and fewer than two words are an error |
| `Parser.CopyReadsBack` | pkg/dockerfile/parser.go:225-250 | a canonical COPY line reads back exactly when no word looks like the flag |
| `Parser.FromReadsBack` | pkg/dockerfile/parser.go:157-198 | a canonical FROM line, with AS in capitals or not, reads back if it has a platform; else exactly if the image, or when that is free of the flag the stage, has the flag nowhere or only as its end, and the image is not the bare flag in front of a stage |
| `Parser.FromNamesImage` | pkg/dockerfile/parser.go:157-198 | a FROM line that is accepted names an image; one that is blank is an error |
| `Parser.LinesReadBack` | pkg/dockerfile/parser.go:101-155 | the same for whole lines: keyword in any case, a blank, and the text |
| `Parser.KeywordEnds` | pkg/dockerfile/parser.go:145-155 | a line is cut at the first blank behind its keyword |
| `Network.AllocateIP` | pkg/network/manager.go:267-297 | the loop computes first fit |
| `Network.FirstFreeIsLowest` | pkg/network/manager.go:288-296 | the lowest free candidate, and a failure exactly when all are taken |
| `Network.DottedInjective` | pkg/network/manager.go:290 | different addresses print differently |
| `Network.CandidateText` | pkg/network/manager.go:285-290 | the candidates are the base address with its last number replaced by 2 to 253 |
| `Network.Manager.CreateTap` | pkg/network/manager.go:139-173 | an allocated address is recorded under the container and nothing else changes; a failure changes nothing |
| `Network.Manager.ReleaseIP` | pkg/network/manager.go:183-193 | forgets the address of this container and of no other |
| `Network.RunsStayGood` | pkg/network/manager.go:162-193 | over every run: no shared address, none the gateway's, all candidates with last byte 2 to 253 |
| `Network.AddressesDiffer` | pkg/network/manager.go:139-193 | over every run, two taps of different containers get different addresses unless the first container is released, or given another one, in between |
| `Network.HoldsOn` | pkg/network/manager.go:139-193 | an address stays with its container until that is released or given another one |
| `Network.FailsExactlyWhenFull` | pkg/network/manager.go:285-296 | allocation fails exactly when all 252 candidates are held, or 251 if the gateway is one |
| `Network.CandidatesInSubnet` | pkg/network/manager.go:285-290 | all candidates lie in the subnet exactly for prefixes up to 24 |
| `Network.HeldAddressesInSubnet` | pkg/network/manager.go:162-193 | over every run in a subnet with a prefix of at most 24 bits, every held address prints an address of the subnet |
| `Network.AllocateIPv6` | pkg/network/ipv6.go:37-64 | the loop over two bytes, skipping 0 and 1, computes first fit |
| `Network.FirstFree6IsLowest` | pkg/network/ipv6.go:51-63 | the first unused candidate, and a failure exactly when all are used |
| `Network.CandidateCount6` | pkg/network/ipv6.go:51-56 | the 65023 tried addresses are pairwise different and never end in byte 0 or 1 |
| `Network.CandidateNumber6` | pkg/network/ipv6.go:51-56 | the tried addresses are the base address with its last two bytes replaced |
| `Network.CandidatesInSubnet6` | pkg/network/ipv6.go:48-53 | all tried addresses lie in the subnet exactly for prefixes up to 112 |

## Left out

- Writing through a symbolic link of the destination: it is an error of the model (`ThroughLink`), and
  follows the link in the program. The theorems about layers, extraction, injection and copies therefore
  ask that no file or directory comes where the other side has a link. Links of the build context are
  followed, as COPY does.
- Symbolic links in a diff layer: its entries are regular files.
- ADD: its sources on disk are copied like those of COPY, and downloads are not implemented.
- The patterns file: the model starts from the parsed patterns.
- File modes, ownership, extended attributes, devices, hard links and whiteouts.
- The manifest file beside an image configuration: nothing reads it. Layer directories of an image:
  only its configuration file decides whether it is stored.
- gzip, tar and JSON as byte formats: an archive is a list of entries, and a JSON file is its value,
  written as a whole. Unreadable files are not part of this model.
- Times other than those of files and of creation.
- Loading a record, and the guard of rmi, read several files in one step, so that the race of run and rmi
  has no write of a record in the middle of the guard. The theorems for any number of processes are
  about the index and leave rmi out, since a write of the index after a removal can bring back a name of
  the removed image (`Races.WriteKeepsNamesStored`); those with rmi take two processes.
- RemovalRaces.ImageLostExactly: for a detached run that boots and keeps its container. An attached run ends
  stopped, which integrity does not ask about, and a run that does not boot writes no record.
- StartRaces.StartLosesImageExactly: for a detached start; an attached one ends stopped as well.
- Several arguments of rm and rmi: they are that many commands, one after the other. rmi with force.
- HTTP, token and registry formats, the kernel store, and QEMU, iptables, cgroup, mount and terminal
  effects.
- Health checks, logs, inspect and the other commands that only read.
- The other instructions of a Dockerfile: they enter `Parser` as a function of the line.
- Network.RunsStayGood: addresses handed out are unique among the recorded ones. A network state that
  cannot be written is not part of this model, nor are managers of several processes, whose locks do
  not exclude each other.
- Parsing of subnets: the tables take the parsed base address and prefix.
- Buffering and partial writes of the agent line: a line is delivered whole or not at all.
