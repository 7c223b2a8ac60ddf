/**
  Image-reference bookkeeping of the backup controller (src/registry.go):
  splitting a raw image reference into registry, repository and tag, deciding
  whether an image already lives in the backup registry, and copying an image
  into the backup registry under the name `backup/repository:tag`.

  The registry's network operations (listing tags, parsing a tag name,
  copying an image) are not modelled: a `Remote` value supplies their
  outcomes, and every call made is recorded in a trace so that what was, and
  was not, attempted can be stated.
 */
module ImageRegistry {
  import opened Wrappers
  import opened Strings

  /** The three parts `imageInfo` extracts from a raw image reference. */
  datatype ImageRef = ImageRef(registry: string, repository: string, tag: string)

  /** Basic credentials handed to every registry operation. */
  datatype Auth = Basic(username: string, password: string)

  /** The process-wide backup configuration: the backup registry and its credentials. */
  datatype Registry = Registry(backupRegistry: string, dockerAuth: Auth)

  /** `NewRegistry`: keeps the backup registry and wraps user and token as basic credentials. */
  function NewRegistry(backupRegistry: string, dockerUser: string, dockerToken: string): (r: Registry)
    ensures r.backupRegistry == backupRegistry
    ensures r.dockerAuth.username == dockerUser && r.dockerAuth.password == dockerToken
  {
    Registry(backupRegistry, Basic(dockerUser, dockerToken))
  }

  /** The segment before the last `/` of `w`, or "" when `w` has a single segment. */
  function SecondToLastSegment(w: string): string
  {
    if '/' in w then After(w[..LastIndexOf(w, '/')], '/') else ""
  }

  /**
    `imageInfo`, computed with `strings.Split` as the source does: the tag is
    the last `:`-piece, and the first `:`-piece is split on `/`, its last
    piece being the repository and its second-to-last, if any, the registry.
    Total: every string, the empty one included, has a parse.
   */
  function ImageInfo(image: string): ImageRef
  {
    var ss := Split(image, ':');
    var imageWithoutTag := ss[0];
    var tag := ss[|ss| - 1];
    var segments := Split(imageWithoutTag, '/');
    var repository := segments[|segments| - 1];
    var registry := if |segments| > 1 then segments[|segments| - 2] else "";
    ImageRef(registry, repository, tag)
  }

  /**
    `imageInfo` by separator positions: the tag is the text after the LAST
    `:`; with `w` the text before the FIRST `:`, the repository is the text
    of `w` after its last `/` and the registry the segment before that one.
   */
  lemma ImageInfoParts(image: string)
    ensures var w := Before(image, ':');
      ImageInfo(image) == ImageRef(SecondToLastSegment(w), After(w, '/'), After(image, ':'))
  {
    SplitFirstIsBefore(image, ':');
    SplitLastIsAfter(image, ':');
    SegmentsOf(Before(image, ':'));
  }

  /** The last `/`-piece of `w` and the one before it, if any. */
  lemma SegmentsOf(w: string)
    ensures var ss := Split(w, '/');
      ss[|ss| - 1] == After(w, '/') &&
      (if |ss| > 1 then ss[|ss| - 2] else "") == SecondToLastSegment(w)
  {
    SplitLastIsAfter(w, '/');
    if '/' in w {
      SplitSecondLast(w, '/');
      SplitLastIsAfter(w[..LastIndexOf(w, '/')], '/');
    } else {
      SplitNone(w, '/');
    }
  }

  /** The second-to-last segment holds no `/`, nor any character `w` lacks. */
  lemma SecondToLastSegmentExcludes(w: string, d: char)
    requires d !in w
    ensures '/' !in SecondToLastSegment(w) && d !in SecondToLastSegment(w)
  {
    if '/' in w {
      var u := w[..LastIndexOf(w, '/')];
      SliceExcludes(w, 0, |u|, d);
      var registry := After(u, '/');
      AfterShape(u, '/');
      SliceExcludes(u, |u| - |registry|, |u|, d);
    }
  }

  /** Neither separator survives in the parts, except that `/` may remain in the tag. */
  lemma ImageInfoDelimiters(image: string)
    ensures var r := ImageInfo(image);
      ':' !in r.tag && '/' !in r.repository && ':' !in r.repository &&
      '/' !in r.registry && ':' !in r.registry
  {
    ImageInfoParts(image);
    AfterShape(image, ':');
    var w := Before(image, ':');
    BeforeShape(image, ':');
    var repository := After(w, '/');
    AfterShape(w, '/');
    SliceExcludes(w, |w| - |repository|, |w|, ':');
    SecondToLastSegmentExcludes(w, ':');
  }

  /**
    The tag is the text after the last `:` of the reference: a `:`-free
    suffix preceded by `:`; with no `:` at all the tag is the whole reference.
   */
  lemma ImageInfoTag(image: string)
    ensures var t := ImageInfo(image).tag;
      |t| <= |image| && image[|image| - |t|..] == t && ':' !in t &&
      (|t| == |image| || image[|image| - |t| - 1] == ':')
    ensures ':' !in image ==> ImageInfo(image).tag == image
  {
    ImageInfoParts(image);
    AfterShape(image, ':');
  }

  /** Separator-free parts composed as `registry/repository:tag` parse back to themselves. */
  lemma ImageInfoOfComposed(registry: string, repository: string, tag: string)
    requires '/' !in registry && ':' !in registry
    requires '/' !in repository && ':' !in repository
    requires ':' !in tag
    ensures ImageInfo(registry + "/" + repository + ":" + tag) == ImageRef(registry, repository, tag)
  {
    var w := registry + "/" + repository;
    var image := w + ":" + tag;
    ImageInfoParts(image);
    assert image[..|w|] == w;
    assert image[|w|] == ':';
    BeforeUnique(image, ':', w);
    assert image[|image| - |tag|..] == tag;
    AfterUnique(image, ':', tag);
    assert w[|w| - |repository|..] == repository;
    assert w[|registry|] == '/';
    AfterUnique(w, '/', repository);
    LastIndexOfUnique(w, '/', |registry|);
    assert w[..|registry|] == registry;
    AfterUnique(registry, '/', registry);
  }

  /**
    A registry given with a port is not recognised: in `host:port/path:tag`
    the first `:` cuts the reference, so the host is read as the repository
    and no registry is found.
   */
  lemma HostWithPortIsNotARegistry(host: string, rest: string, tag: string)
    requires '/' !in host && ':' !in host && ':' !in tag
    ensures ImageInfo(host + ":" + rest + ":" + tag) == ImageRef("", host, tag)
  {
    var image := host + ":" + rest + ":" + tag;
    ImageInfoParts(image);
    assert image[..|host|] == host;
    assert image[|host|] == ':';
    BeforeUnique(image, ':', host);
    assert image[|image| - |tag|..] == tag;
    assert image[|image| - |tag| - 1] == ':';
    AfterUnique(image, ':', tag);
    AfterUnique(host, '/', host);
  }

  /** For instance, `localhost:5000/app:v1` parses to no registry, repository `localhost`, tag `v1`. */
  lemma LocalhostExample()
    ensures ImageInfo("localhost:5000/app:v1") == ImageRef("", "localhost", "v1")
  {
    HostWithPortIsNotARegistry("localhost", "5000/app", "v1");
    assert "localhost" + ":" + "5000/app" + ":" + "v1" == "localhost:5000/app:v1";
  }

  /** The empty reference parses to three empty parts. */
  lemma ImageInfoOfEmpty()
    ensures ImageInfo("") == ImageRef("", "", "")
  {
    ImageInfoParts("");
  }

  /** `IsImageFromBackUp`: the parsed registry ends with the backup registry's name. */
  predicate IsImageFromBackUp(r: Registry, image: string)
  {
    HasSuffix(ImageInfo(image).registry, r.backupRegistry)
  }

  /** With an empty backup registry name, every image counts as backed up. */
  lemma EmptyBackupRegistryMatchesAll(r: Registry, image: string)
    requires r.backupRegistry == ""
    ensures IsImageFromBackUp(r, image)
  {
  }

  /** An image with no `/` before its first `:` is never backed up under a non-empty backup registry. */
  lemma NoRegistryIsNeverFromBackUp(r: Registry, image: string)
    requires r.backupRegistry != ""
    requires '/' !in Before(image, ':')
    ensures !IsImageFromBackUp(r, image)
  {
    ImageInfoParts(image);
  }

  /** The repository the backup copy goes to. */
  function BackupRepository(r: Registry, image: string): string
  {
    r.backupRegistry + "/" + ImageInfo(image).repository
  }

  /** The name of the backup copy: only the registry of the parsed image changes. */
  function BackupName(r: Registry, image: string): string
  {
    BackupRepository(r, image) + ":" + ImageInfo(image).tag
  }

  /**
    The backup name round-trips: when the backup registry name holds neither
    `/` nor `:`, parsing the backup name gives the backup registry with the
    original repository and tag, so the copy counts as backed up.
   */
  lemma BackupNameRoundTrip(r: Registry, image: string)
    requires '/' !in r.backupRegistry && ':' !in r.backupRegistry
    ensures ImageInfo(BackupName(r, image)) == ImageInfo(image).(registry := r.backupRegistry)
    ensures IsImageFromBackUp(r, BackupName(r, image))
  {
    var info := ImageInfo(image);
    ImageInfoDelimiters(image);
    ImageInfoOfComposed(r.backupRegistry, info.repository, info.tag);
    assert ImageInfo(BackupName(r, image)).registry == r.backupRegistry;
  }

  /** What `crane.ListTags` gives back: the tags, or an error (whose tag list is nil). */
  datatype TagListing = Tags(tags: seq<string>) | ListFailed(reason: string)

  /**
    The outcomes of the registry's network operations, fixed in advance:
    `crane.ListTags` for a repository, `name.NewTag` (the tag's canonical
    name, or None when the name does not parse) and whether `crane.Copy`
    from a source to a destination succeeds.
   */
  datatype Remote = Remote(
    listTags: (string, Auth) -> TagListing,
    newTag: string -> Option<string>,
    copy: (string, string, Auth) -> bool)

  /** One registry operation, as recorded in a trace. */
  datatype Call =
    | ListTags(repository: string, auth: Auth)
    | NewTag(name: string)
    | Copy(source: string, destination: string, auth: Auth)

  /** Why `AddImageToBackUp` gave up. */
  datatype BackupError =
    | AlreadyExists(backupName: string)
    | InvalidTag(backupName: string)
    | CopyFailed(source: string, destination: string)

  /** The result of `AddImageToBackUp` (a name, an error or nil) and the calls it made. */
  datatype Attempt = Attempt(name: string, err: Option<BackupError>, calls: seq<Call>)

  /**
    A backup registry name holding `/` (an organisation path) or `:` (a
    port) never matches: a parsed registry holds neither, so no image, not
    even a backup copy, counts as backed up.
   */
  lemma SeparatorInBackupNeverMatches(r: Registry, image: string)
    requires '/' in r.backupRegistry || ':' in r.backupRegistry
    ensures !IsImageFromBackUp(r, image)
  {
    ImageInfoDelimiters(image);
  }

  /** A reference without registry, `repository:tag`, parses to an empty registry. */
  lemma ImageInfoOfUnqualified(repository: string, tag: string)
    requires '/' !in repository && ':' !in repository && ':' !in tag
    ensures ImageInfo(repository + ":" + tag) == ImageRef("", repository, tag)
  {
    var image := repository + ":" + tag;
    ImageInfoParts(image);
    assert image[..|repository|] == repository;
    assert image[|repository|] == ':';
    BeforeUnique(image, ':', repository);
    assert image[|image| - |tag|..] == tag;
    AfterUnique(image, ':', tag);
    AfterUnique(repository, '/', repository);
  }

  /**
    With a port in the backup registry name, backing up a backup copy again
    loses the repository: the copy of `repository:tag` is named
    `host:port/repository:tag`, and that name, read with the port quirk, is
    backed up as `host:port/host:tag`, whatever the repository was.
   */
  lemma PortedBackupLosesRepository(r: Registry, host: string, port: string, repository: string, tag: string)
    requires r.backupRegistry == host + ":" + port
    requires '/' !in host && ':' !in host
    requires '/' !in repository && ':' !in repository && ':' !in tag
    ensures BackupName(r, repository + ":" + tag) == r.backupRegistry + "/" + repository + ":" + tag
    ensures BackupName(r, BackupName(r, repository + ":" + tag)) == r.backupRegistry + "/" + host + ":" + tag
  {
    ImageInfoOfUnqualified(repository, tag);
    var first := BackupName(r, repository + ":" + tag);
    assert first == host + ":" + (port + "/" + repository) + ":" + tag;
    HostWithPortIsNotARegistry(host, port + "/" + repository, tag);
  }

  /**
    So two repositories with the same tag, kept apart by the first pass,
    end up at one name on the second pass: with backup registry
    `localhost:5000`, the copies `localhost:5000/app:v1` and
    `localhost:5000/db:v1` are both sent to `localhost:5000/localhost:v1`.
   */
  lemma PortedBackupsCollide(r: Registry, host: string, port: string, first: string, second: string, tag: string)
    requires r.backupRegistry == host + ":" + port
    requires '/' !in host && ':' !in host && ':' !in tag
    requires '/' !in first && ':' !in first && '/' !in second && ':' !in second
    ensures BackupName(r, BackupName(r, first + ":" + tag)) == BackupName(r, BackupName(r, second + ":" + tag))
  {
    PortedBackupLosesRepository(r, host, port, first, tag);
    PortedBackupLosesRepository(r, host, port, second, tag);
  }

  /** The tags `AddImageToBackUp` looks at: a failed listing leaves none. */
  function ListedTags(listing: TagListing): (tags: seq<string>)
    ensures listing.ListFailed? ==> tags == []
  {
    match listing
    case Tags(ts) => ts
    case ListFailed(_) => []
  }

  /** The tag-collision test as written: it compares each listed tag with the REPOSITORY name. */
  predicate Collides(r: Registry, remote: Remote, image: string)
  {
    ImageInfo(image).repository in ListedTags(remote.listTags(BackupRepository(r, image), r.dockerAuth))
  }

  /** Whether a trace holds a copy. */
  predicate CopyAttempted(calls: seq<Call>)
  {
    exists i :: 0 <= i < |calls| && calls[i].Copy?
  }

  /**
    What `AddImageToBackUp` does: list the backup repository's tags, give up
    if one equals the repository name, then parse the backup name as a tag
    and copy the image there. On success the result is the backup name, on
    any failure the empty string.
   */
  function Backup(r: Registry, remote: Remote, image: string): (a: Attempt)
    ensures a.err.None? ==> a.name == BackupName(r, image)
    ensures a.err.Some? ==> a.name == ""
  {
    var name := BackupName(r, image);
    var listed := [ListTags(BackupRepository(r, image), r.dockerAuth)];
    if Collides(r, remote, image) then
      Attempt("", Some(AlreadyExists(name)), listed)
    else
      match remote.newTag(name)
      case None =>
        Attempt("", Some(InvalidTag(name)), listed + [NewTag(name)])
      case Some(tag) =>
        var calls := listed + [NewTag(name), Copy(image, tag, r.dockerAuth)];
        if remote.copy(image, tag, r.dockerAuth) then Attempt(name, None, calls)
        else Attempt("", Some(CopyFailed(image, tag)), calls)
  }

  /**
    The outcomes of a backup attempt. The tags are always listed first. A
    tag equal to the repository name is exactly the `AlreadyExists` error,
    after which nothing else is called. A failed listing is not checked and
    counts as no collision. A copy is attempted exactly when there is no
    collision and the backup name parses as a tag, and the attempt succeeds
    exactly when, in addition, the copy succeeds.
   */
  lemma BackupOutcomes(r: Registry, remote: Remote, image: string)
    ensures var a := Backup(r, remote, image);
      |a.calls| >= 1 && a.calls[0] == ListTags(BackupRepository(r, image), r.dockerAuth)
    ensures var a := Backup(r, remote, image);
      Collides(r, remote, image) <==> a.err == Some(AlreadyExists(BackupName(r, image)))
    ensures Collides(r, remote, image) ==>
      Backup(r, remote, image).calls == [ListTags(BackupRepository(r, image), r.dockerAuth)]
    ensures remote.listTags(BackupRepository(r, image), r.dockerAuth).ListFailed? ==> !Collides(r, remote, image)
    ensures CopyAttempted(Backup(r, remote, image).calls) <==>
      !Collides(r, remote, image) && remote.newTag(BackupName(r, image)).Some?
    ensures Backup(r, remote, image).err.None? <==>
      !Collides(r, remote, image) && remote.newTag(BackupName(r, image)).Some? &&
      remote.copy(image, remote.newTag(BackupName(r, image)).value, r.dockerAuth)
  {
    var a := Backup(r, remote, image);
    if !Collides(r, remote, image) && remote.newTag(BackupName(r, image)).Some? {
      assert a.calls[2].Copy?;
    }
  }

  /**
    `AddImageToBackUp`, step by step: one pass over the listed tags with an
    early return on a collision, then the tag parse and the copy, each of
    whose failures returns "" and the error.
   */
  method AddImageToBackUp(r: Registry, remote: Remote, image: string)
    returns (name: string, err: Option<BackupError>, calls: seq<Call>)
    ensures Attempt(name, err, calls) == Backup(r, remote, image)
  {
    var info := ImageInfo(image);
    var backupImageName := r.backupRegistry + "/" + info.repository + ":" + info.tag;
    calls := [ListTags(r.backupRegistry + "/" + info.repository, r.dockerAuth)];
    var tags := ListedTags(remote.listTags(r.backupRegistry + "/" + info.repository, r.dockerAuth));
    var i := 0;
    while i < |tags|
      invariant 0 <= i <= |tags|
      invariant info.repository !in tags[..i]
    {
      if tags[i] == info.repository {
        return "", Some(AlreadyExists(backupImageName)), calls;
      }
      assert tags[..i + 1] == tags[..i] + [tags[i]];
      i := i + 1;
    }
    assert tags[..i] == tags;
    calls := calls + [NewTag(backupImageName)];
    var tag := remote.newTag(backupImageName);
    if tag.None? {
      return "", Some(InvalidTag(backupImageName)), calls;
    }
    calls := calls + [Copy(image, tag.value, r.dockerAuth)];
    if !remote.copy(image, tag.value, r.dockerAuth) {
      return "", Some(CopyFailed(image, tag.value)), calls;
    }
    return backupImageName, None, calls;
  }

  /**
    The collision test looks for the repository name among the tags, not
    for the image's tag: a backup repository that already holds the image's
    tag does not stop the copy.
   */
  lemma ExistingTagDoesNotStopCopy(r: Registry, remote: Remote, image: string)
    requires remote.listTags(BackupRepository(r, image), r.dockerAuth) == Tags([ImageInfo(image).tag])
    requires ImageInfo(image).tag != ImageInfo(image).repository
    requires remote.newTag(BackupName(r, image)).Some?
    ensures CopyAttempted(Backup(r, remote, image).calls)
  {
    BackupOutcomes(r, remote, image);
  }
}
