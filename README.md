# image-clone-controller in Dafny

This project models the decision logic of image-clone-controller. This Kubernetes controller watches Deployments and DaemonSets. When an object uses an image that is not yet in a configured backup registry, it copies that image there and rewrites the object to point at the copy.

Two source files make up the model:

- `src/registry.go` becomes module `ImageRegistry` in `registry.dfy`. It holds three things:
  - `imageInfo`, the total string splitter that turns a reference into (registry, repository, tag);
  - the suffix test `IsImageFromBackUp`;
  - `AddImageToBackUp`, which lists tags, checks for a collision, parses the tag and copies the image.
- `src/controller.go` becomes module `Controller` in `controller.dfy`. It holds three things:
  - the `Reconcile` entry point, which skips `kube-system` and dispatches on the type name;
  - the per-kind body that `reconcileDeployment` and `reconcileDaemonSet` share;
  - that body's two container loops, with a write only when something changed.

Go's `strings.Split` and `strings.HasSuffix`, for a one-character separator, are modelled in `strings.dfy`. `Wrappers.Option` stands for Go's nil-able results. `seqs.dfy` holds generic facts about sequences that the loop proofs use. Among them are `Until`, a front-to-back reading of a list that stops at the first element that fails, and `Any`, which says whether some element satisfies a test. `Trace`, `Aborts` and `AnyNeedsBackup` are defined through these two.

How the model is built:

- **External calls are oracles.** A `Remote` value fixes the outcomes of `crane.ListTags`, `name.NewTag` and `crane.Copy`. A `Cluster` value fixes the outcomes of `client.Get` and `client.Update`. Operations return the calls they made (`Call` traces and `Effects`), so the contracts can say what was and was not attempted.
- **Loops stay loops.** `AddImageToBackUp`, `BackupContainers` and `ReconcileKind` are methods. Each is proved equal to a specification function (`Backup`, `Run`, `Reconciled`), and lemmas prove what those functions mean.

The source has three quirks, and the model keeps all of them as written:

- `imageInfo` takes registry and repository from the text before the FIRST `:`, but the tag from the text after the LAST `:`. So a registry given with a port (`localhost:5000/app:v1`) is parsed as repository `localhost`, with no registry.
- The collision check in `AddImageToBackUp` compares each listed tag with the REPOSITORY name, not with the image's tag. An error from `ListTags` is never checked, because `err` is overwritten by the `NewTag` result.
- `IsImageFromBackUp` compares the parsed registry, which never holds `/` or `:`, with the configured backup registry name. A name with an organisation path (`registry.example.com/team`) or a port (`localhost:5000`) therefore never matches. So no image ever counts as backed up, and every pass whose backups all succeed copies every image again and writes the object again. A failed backup still ends the pass with no write, for instance the `AlreadyExists` an untagged image meets on its second pass. The backup-name round trip and the quiet second pass hold only for names without `/` and `:`. With a port it is worse: the second pass sends `localhost:5000/app:v1` and `localhost:5000/db:v1` to the same name, `localhost:5000/localhost:v1`.

## Model

| member | source | states |
|---|---|---|
| Strings.SplitFirstIsBefore | src/registry.go:62-63 | the first piece of `strings.Split` is the text before the first separator (all of it when there is none) |
| Strings.SplitLastIsAfter | src/registry.go:64 | the last piece of `strings.Split` is the text after the last separator (all of it when there is none) |
| Strings.SplitSecondLast | src/registry.go:69-70 | the second-to-last piece is the last piece of the text before the last separator, and there is one piece fewer there |
| Strings.SplitFirst | src/registry.go:62-63 | with a separator, the first piece ends at the first separator (proved by induction against the back-recursive definition of `Split`) |
| Strings.BeforeShape | src/registry.go:63 | the text before the first `c` is a `c`-free prefix that ends at the end or at a `c` |
| Strings.BeforeUnique | src/registry.go:63 | it is the only such prefix |
| Strings.AfterShape | src/registry.go:64 | the text after the last `c` is a `c`-free suffix that starts at the start or after a `c` |
| Strings.AfterUnique | src/registry.go:64 | it is the only such suffix |
| ImageRegistry.NewRegistry | src/registry.go:18-23 | keeps the backup registry, and uses the user and token as basic credentials |
| ImageRegistry.ImageInfoParts | src/registry.go:61-73 | the `Split`-based parse equals the positional one: the tag is the text after the last `:`; the repository is the text after the last `/` of the text before the first `:`; the registry is the segment before that, or "" |
| ImageRegistry.ImageInfoTag | src/registry.go:62-64 | the tag is a `:`-free suffix of the reference, preceded by `:` or the whole reference; without `:` it is the whole reference |
| ImageRegistry.ImageInfoDelimiters | src/registry.go:62-71 | repository and registry contain neither `/` nor `:`; the tag contains no `:` |
| ImageRegistry.ImageInfoOfEmpty | src/registry.go:61-73 | the parse is total: the empty reference gives three empty parts |
| ImageRegistry.ImageInfoOfComposed | src/registry.go:61-73 | separator-free parts `registry/repository:tag` parse back to exactly those parts |
| ImageRegistry.HostWithPortIsNotARegistry | src/registry.go:62-67 | in `host:rest:tag` the host is read as the repository and no registry is found |
| ImageRegistry.LocalhostExample | src/registry.go:62-71 | `localhost:5000/app:v1` parses to ("", `localhost`, `v1`) |
| ImageRegistry.EmptyBackupRegistryMatchesAll | src/registry.go:55-58 | an empty backup registry name makes every image count as backed up |
| ImageRegistry.NoRegistryIsNeverFromBackUp | src/registry.go:55-58 | a reference with no `/` before its first `:` is never from a non-empty backup registry |
| ImageRegistry.ImageInfoOfUnqualified | src/registry.go:61-73 | a reference `repository:tag` with separator-free parts parses to no registry with that repository and tag |
| ImageRegistry.SeparatorInBackupNeverMatches | src/registry.go:55-58 | a backup registry name containing `/` or `:` makes no image count as backed up |
| ImageRegistry.PortedBackupLosesRepository | src/registry.go:29-30 | with backup registry `host:port`, `repository:tag` is copied to `host:port/repository:tag`, and backing that copy up again gives `host:port/host:tag` |
| ImageRegistry.PortedBackupsCollide | src/registry.go:29-30 | with a ported backup registry, two repositories with the same tag get one name on the second pass |
| ImageRegistry.BackupNameRoundTrip | src/registry.go:29-30 | if the backup registry name has no `/` or `:`, the backup name parses to the backup registry with the original repository and tag, and counts as backed up |
| ImageRegistry.ListedTags | src/registry.go:33-34 | a failed listing yields no tags to check |
| ImageRegistry.Backup | src/registry.go:28-52 | on success the result is `backup/repository:tag` of the input's parse; on any failure it is "" |
| ImageRegistry.BackupOutcomes | src/registry.go:33-49 | tags are listed first; a tag equal to the repository name is exactly the AlreadyExists error, with no further call; a failed listing counts as no collision; a copy is attempted iff there is no collision and the name parses as a tag; success iff, in addition, the copy succeeds |
| ImageRegistry.AddImageToBackUp | src/registry.go:28-52 | the loop with its early return, then NewTag and Copy, produce exactly the name, error and calls of `Backup` |
| ImageRegistry.ExistingTagDoesNotStopCopy | src/registry.go:34-38 | a backup repository that already holds the image's tag (but not a tag equal to the repository name) does not stop the copy |
| Controller.KindOf | src/controller.go:56-63 | "Deployment" and "DaemonSet" select their kind; every other name is unsupported |
| Controller.RunFailedStays | src/controller.go:97-100 | once a backup has failed, later containers change nothing |
| Controller.BackupContainers | src/controller.go:92-104 | the in-place loop returns at the first failure and otherwise gives the containers, flag and calls of `Run` |
| Controller.RunTrace | src/controller.go:92-118 | a loop fails iff some needed backup fails, and its calls are `Trace`: each container in index order up to and including the first failure |
| Controller.TraceAppend | src/controller.go:92-118 | the calls of init containers followed by containers are those of the init containers, then, unless one failed, those of the containers |
| Controller.RunChanged | src/controller.go:93-94 | `objectChanged` is set iff some image is not from backup, and it is always set when a backup failed |
| Controller.StepShape | src/controller.go:102 | a step that does not fail appends its container, backed up when needed |
| Controller.RunShape | src/controller.go:92-104 | a loop that does not fail keeps every container's name and the list length, leaves images from backup unchanged, and sets every other image to its backup name |
| Controller.RunQuiet | src/controller.go:92-104 | over images all from backup, a loop makes no call and changes nothing |
| Controller.BackedUpFromIsBackedUp | src/controller.go:102 | with a backup registry name free of `/` and `:`, every image after the pass is from backup |
| Controller.SeparatorRegistryRewritesEveryPass | src/controller.go:92-132 | with `/` or `:` in the backup registry name, a fetched object with a container and no failing backup is written on every pass |
| Controller.ReconciledCallsInOrder | src/controller.go:89-118 | a fetched object's registry calls are one pass over init containers then containers, in index order, stopping at the first failure |
| Controller.ReconciledWrites | src/controller.go:92-132 | all or nothing: Update runs iff the object was fetched, no backup failed and some image needed a backup; the written object is the fetched one with exactly those images replaced |
| Controller.ReconciledErrors | src/controller.go:79-132 | an error is returned iff the fetch failed (other than NotFound) or the Update failed; NotFound and fetch errors make no registry call and no write |
| Controller.ReconciledQuiet | src/controller.go:120-124 | when every image is from backup: no registry call, no write, no error |
| Controller.SecondPassIsQuiet | src/controller.go:92-124 | reconciling the object a pass wrote does nothing more |
| Controller.ReconcileKind | src/controller.go:74-133 | the per-kind body (Deployment and DaemonSet alike, lines 136-196) produces exactly the outcome of `Reconciled` |
| Controller.Reconcile | src/controller.go:44-71 | `kube-system` and unsupported type names give no error and no effect at all; otherwise the outcome is that of the selected kind |

## Left out

- src/main.go is not part of this model. It loads configuration and wires up the manager, the watches and signal handling.
- The bodies of `crane.ListTags`, `name.NewTag`, `crane.Copy`, `client.Get` and `client.Update` are not modelled. Their outcomes are fixed functions of their arguments (`Remote`, `Cluster`). So a copy made earlier in a pass does not change what a later `ListTags` returns. An error value is reduced to its message or to a tag.
- A failed `crane.ListTags` is assumed to return no tags (`ListedTags`). The source ignores that error, so the collision loop then runs over whatever list the library returned alongside it. The model reads that list as empty.
- The canonical text `tag.String()` of a parsed tag is whatever `Remote.newTag` returns. The normalisation that `name.NewTag` performs is not modelled.
- Logging, `context.Context` and `reconcile.Result` are left out. The result is always the zero value, and logging has no effect on any result.
- Concurrency between the two controllers that share one registry configuration is left out, as are caching and optimistic concurrency in the client.
- Controller.Reconcile: the wrapper's `errors.IsNotFound(err)` test (src/controller.go:65-68) has no branch in the model. The per-kind functions already turn NotFound into success, and they return only freshly formatted errors (`%+v`, not wrapped), which that test cannot recognise. The model therefore returns the per-kind error unchanged, as the code does.
- A Deployment or DaemonSet is reduced to its two container lists, each container to its name and image. Every other field is carried through an Update untouched in the source, and is absent here.
- The object being edited is a local value updated in place by index (`updated[i := ...]`). It is never shared, so aliasing does not arise.
- Strings are sequences of characters, not bytes. The only separators used are ASCII `:` and `/`, so no result depends on the difference.
