/** From a queued file to the source whose rules its extract job uses: the directory match of
    createExtractPodForNewFile, the substring match of getTable, and the job's own lookup by name. */
module Routing {
  import opened Wrappers
  import opened Domain

  // ---- paths ----

  /** Up to and including the last slash. */
  function ThroughLastSlash(path: string): string {
    if path == [] || path[|path| - 1] == '/' then path else ThroughLastSlash(path[..|path| - 1])
  }

  /** filepath.Dir, over the library's own `clean`. */
  function Dir(path: string, clean: string -> string): string {
    clean(ThroughLastSlash(path))
  }

  lemma {:induction false} DirOfFile(dir: string, name: string, clean: string -> string)
    requires forall i :: 0 <= i < |name| ==> name[i] != '/'
    ensures Dir(dir + "/" + name, clean) == clean(dir + "/")
  {
    var path := dir + "/" + name;
    if name == [] {
      assert path == dir + "/";
    } else {
      assert path[..|path| - 1] == dir + "/" + name[..|name| - 1];
      DirOfFile(dir, name[..|name| - 1], clean);
    }
  }

  /** strings.Contains. */
  predicate Contains(s: string, part: string) {
    exists i :: 0 <= i <= |s| && part <= s[i..]
  }

  /** The part stands somewhere in the text. */
  lemma ContainsExactly(s: string, part: string)
    ensures Contains(s, part) <==> exists a: string, b: string :: s == a + part + b
  {
    if i :| 0 <= i <= |s| && part <= s[i..] {
      assert s == s[..i] + part + s[i + |part|..];
    }
    if a: string, b: string :| s == a + part + b {
      assert s[|a|..] == part + b;
    }
  }

  // ---- the two lookups of the dispatcher ----

  predicate Fits(s: Source, scheme: string, baseDir: string) {
    s.scheme == scheme && Contains(baseDir, s.path)
  }

  method GetTable(baseDir: string, scheme: string, sources: seq<Source>) returns (found: Option<nat>)
    ensures match found
            case Some(i) => i < |sources| && Fits(sources[i], scheme, baseDir)
                            && forall j :: 0 <= j < i ==> !Fits(sources[j], scheme, baseDir)
            case None => forall j :: 0 <= j < |sources| ==> !Fits(sources[j], scheme, baseDir)
  {
    for i := 0 to |sources|
      invariant forall j :: 0 <= j < i ==> !Fits(sources[j], scheme, baseDir)
    {
      if sources[i].scheme == scheme && Contains(baseDir, sources[i].path) {
        return Some(i);
      }
    }
    return None;
  }

  predicate IsWatched(s: Source) {
    s.scheme != API_SCHEME && s.scheme != HTTPPOST_SCHEME
  }

  predicate KnownScheme(scheme: string) {
    scheme in {API_SCHEME, XML_SCHEME, CSV_SCHEME, JSON_SCHEME, JSONPATH_SCHEME, XLSX_SCHEME, HTTPPOST_SCHEME}
  }

  /** Which sources are watched, which schemes a job can have, and which sources fit a directory. */
  lemma SchemesExactly(s: Source, scheme: string, baseDir: string)
    ensures IsWatched(s) <==> s.scheme != "api" && s.scheme != "httppost"
    ensures KnownScheme(scheme)
            <==> || scheme == "api" || scheme == "xml" || scheme == "csv" || scheme == "json" || scheme == "jsonpath"
                 || scheme == "xlsx" || scheme == "httppost"
    ensures Fits(s, scheme, baseDir) <==> s.scheme == scheme && exists a: string, b: string :: baseDir == a + s.path + b
  {
    ContainsExactly(baseDir, s.path);
    hide Contains;
  }

  /** The job a pod is created with. */
  datatype Job = Job(sourceName: string, tablename: string, scheme: string, filePath: string)

  datatype Dispatch = Created(job: Job) | NoSuchDirectory | NoTable | UnknownScheme

  ghost predicate WatchedAt(sources: seq<Source>, dirPath: string, w: nat) {
    && w < |sources| && IsWatched(sources[w]) && sources[w].path == dirPath
    && forall j :: 0 <= j < w ==> !(IsWatched(sources[j]) && sources[j].path == dirPath)
  }

  ghost predicate FirstFit(sources: seq<Source>, scheme: string, baseDir: string, i: nat) {
    i < |sources| && Fits(sources[i], scheme, baseDir) && forall j :: 0 <= j < i ==> !Fits(sources[j], scheme, baseDir)
  }

  method CreateExtractPod(c: Source, filePath: string, baseDir: string, sources: seq<Source>) returns (d: Dispatch)
    ensures !d.NoSuchDirectory?
    ensures d.NoTable? <==> forall j :: 0 <= j < |sources| ==> !Fits(sources[j], c.scheme, baseDir)
    ensures d.UnknownScheme? ==> !KnownScheme(c.scheme)
    ensures d.Created? ==>
              && KnownScheme(c.scheme) && d.job.scheme == c.scheme && d.job.filePath == filePath
              && forall i: nat | && i < |sources| && Fits(sources[i], c.scheme, baseDir)
                                 && forall j :: 0 <= j < i ==> !Fits(sources[j], c.scheme, baseDir) ::
                   d.job.sourceName == sources[i].name && d.job.tablename == sources[i].tablename
  {
    hide Fits, KnownScheme;
    var i := GetTable(baseDir, c.scheme, sources);
    if i.None? {
      return NoTable;
    }
    assert Fits(sources[i.value], c.scheme, baseDir);
    if !KnownScheme(c.scheme) {
      return UnknownScheme;
    }
    return Created(Job(sources[i.value].name, sources[i.value].tablename, c.scheme, filePath));
  }

  /** The first watched source of the directory decides the scheme and ends the search, also when its
      dispatch fails. The job has that scheme and the file, and the name and the table of the first
      source that fits. */
  method CreateExtractPodForNewFile(dirPath: string, filePath: string, sources: seq<Source>, clean: string -> string)
    returns (d: Dispatch)
    ensures d.NoSuchDirectory?
            <==> forall j :: 0 <= j < |sources| ==> !(IsWatched(sources[j]) && sources[j].path == dirPath)
    ensures forall w: nat | && w < |sources| && IsWatched(sources[w]) && sources[w].path == dirPath
                            && (forall j :: 0 <= j < w ==> !(IsWatched(sources[j]) && sources[j].path == dirPath)) ::
              var baseDir := Dir(filePath, clean);
              && (d.NoTable? <==> forall j :: 0 <= j < |sources| ==> !Fits(sources[j], sources[w].scheme, baseDir))
              && (d.UnknownScheme? ==> !KnownScheme(sources[w].scheme))
              && (d.Created? ==>
                    && KnownScheme(sources[w].scheme)
                    && d.job.scheme == sources[w].scheme && d.job.filePath == filePath
                    && forall i: nat | && i < |sources| && Fits(sources[i], sources[w].scheme, baseDir)
                                       && forall j :: 0 <= j < i ==> !Fits(sources[j], sources[w].scheme, baseDir) ::
                         d.job.sourceName == sources[i].name && d.job.tablename == sources[i].tablename)
  {
    hide Fits, KnownScheme, Dir;
    for k := 0 to |sources|
      invariant forall j :: 0 <= j < k ==> !(IsWatched(sources[j]) && sources[j].path == dirPath)
    {
      var c := sources[k];
      if c.scheme == API_SCHEME || c.scheme == HTTPPOST_SCHEME {
        continue;
      }
      if dirPath == c.path {
        assert IsWatched(c);
        hide IsWatched;
        d := CreateExtractPod(c, filePath, Dir(filePath, clean), sources);
        return;
      }
    }
    return NoSuchDirectory;
  }

  // ---- the lookup of the job ----

  /** NewExtractServer scans all sources by name without a break: the last one wins. */
  method SourceOfJob(name: string, sources: seq<Source>) returns (used: Option<nat>)
    ensures match used
            case Some(u) => u < |sources| && sources[u].name == name && forall j :: u < j < |sources| ==>
                sources[j].name != name
            case None => forall j :: 0 <= j < |sources| ==> sources[j].name != name
  {
    used := None;
    for i := 0 to |sources|
      invariant match used
                case Some(u) => u < i && sources[u].name == name && forall j :: u < j < i ==> sources[j].name != name
                case None => forall j :: 0 <= j < i ==> sources[j].name != name
    {
      if sources[i].name == name {
        used := Some(i);
      }
    }
  }

  ghost predicate LastNamed(sources: seq<Source>, name: string, u: nat) {
    u < |sources| && sources[u].name == name && forall j :: u < j < |sources| ==> sources[j].name != name
  }

  // ---- theorems ----

  lemma ContainsSelf(s: string)
    ensures Contains(s, s)
  {
    assert s <= s[0..];
  }

  lemma {:induction false} FirstFitExists(sources: seq<Source>, scheme: string, baseDir: string, w: nat)
    returns (i: nat)
    requires w < |sources| && Fits(sources[w], scheme, baseDir)
    ensures FirstFit(sources, scheme, baseDir, i) && i <= w
  {
    if j :| 0 <= j < w && Fits(sources[j], scheme, baseDir) {
      i := FirstFitExists(sources, scheme, baseDir, j);
    } else {
      i := w;
    }
  }

  /** A file that appears in a clean watched directory always finds a table: that of the first
      source of the same scheme whose path is a substring of the directory. With unique paths
      that source is the watched one exactly when no earlier source of its scheme has such a path. */
  lemma FileFindsItsSource(sources: seq<Source>, w: nat, name: string, clean: string -> string) returns (i: nat)
    requires UniqueBy(sources, SourcePath) && w < |sources| && IsWatched(sources[w])
    requires clean(sources[w].path + "/") == sources[w].path
    requires forall k :: 0 <= k < |name| ==> name[k] != '/'
    ensures WatchedAt(sources, sources[w].path, w)
    ensures FirstFit(sources, sources[w].scheme, Dir(sources[w].path + "/" + name, clean), i)
    ensures i == w <==> forall j :: 0 <= j < w ==> !(sources[j].scheme == sources[w].scheme
                                                     && Contains(sources[w].path, sources[j].path))
  {
    DirOfFile(sources[w].path, name, clean);
    ContainsSelf(sources[w].path);
    i := FirstFitExists(sources, sources[w].scheme, sources[w].path, w);
  }

  lemma {:induction false} LastNamedExists(sources: seq<Source>, name: string, i: nat) returns (u: nat)
    requires i < |sources| && sources[i].name == name
    ensures LastNamed(sources, name, u) && i <= u
    decreases |sources| - i
  {
    if j :| i < j < |sources| && sources[j].name == name {
      u := LastNamedExists(sources, name, j);
    } else {
      u := i;
    }
  }

  /** Source j would take files of source w's directory. */
  predicate Captures(sources: seq<Source>, j: nat, w: nat) {
    && j < |sources| && w < |sources|
    && sources[j].scheme == sources[w].scheme && Contains(sources[w].path, sources[j].path)
  }

  /** Of the sources that would take w's files the first in the list bears w's name. */
  ghost predicate FirstCaptorIsNamesake(sources: seq<Source>, w: nat) {
    exists j: nat :: j <= w && Captures(sources, j, w) && sources[j].name == sources[w].name
                     && forall l: nat :: l < j ==> !Captures(sources, l, w)
  }

  lemma FitsIsCaptures(sources: seq<Source>, j: nat, w: nat)
    requires j < |sources| && w < |sources|
    ensures Fits(sources[j], sources[w].scheme, sources[w].path) <==> Captures(sources, j, w)
  {
  }

  /** End to end, as a condition on the list alone: a file of watched source w is extracted with w's
      rules if and only if the first source that would take w's files bears w's name, and no source
      behind w does. The table is that of source i, the rules are those of source u. */
  lemma JobUsesWatchedSource(sources: seq<Source>, w: nat, name: string, clean: string -> string)
    returns (i: nat, u: nat)
    requires UniqueBy(sources, SourcePath) && w < |sources| && IsWatched(sources[w])
    requires clean(sources[w].path + "/") == sources[w].path
    requires forall k :: 0 <= k < |name| ==> name[k] != '/'
    ensures FirstFit(sources, sources[w].scheme, Dir(sources[w].path + "/" + name, clean), i)
    ensures LastNamed(sources, sources[i].name, u)
    ensures u == w <==> FirstCaptorIsNamesake(sources, w)
                        && forall j :: w < j < |sources| ==> sources[j].name != sources[w].name
  {
    i := FileFindsItsSource(sources, w, name, clean);
    u := LastNamedExists(sources, sources[i].name, i);
    DirOfFile(sources[w].path, name, clean);
    ContainsSelf(sources[w].path);
    hide Contains, Dir;
    forall j: nat | j < |sources|
      ensures Fits(sources[j], sources[w].scheme, sources[w].path) <==> Captures(sources, j, w)
    {
      FitsIsCaptures(sources, j, w);
    }
    hide Fits, Captures;
    assert FirstCaptorIsNamesake(sources, w) <==> sources[i].name == sources[w].name;
  }

  /** With unique names table and rules are both the watched source's if and only if no earlier
      source of its scheme has a path within its own. */
  lemma UniqueNamesRouteRight(sources: seq<Source>, w: nat, name: string, clean: string -> string)
    requires UniqueBy(sources, SourcePath) && UniqueBy(sources, SourceName)
    requires w < |sources| && IsWatched(sources[w]) && clean(sources[w].path + "/") == sources[w].path
    requires forall k :: 0 <= k < |name| ==> name[k] != '/'
    ensures FirstFit(sources, sources[w].scheme, Dir(sources[w].path + "/" + name, clean), w)
            <==> forall j: nat :: j < w ==> !Captures(sources, j, w)
    ensures LastNamed(sources, sources[w].name, w)
  {
    var i := FileFindsItsSource(sources, w, name, clean);
    FirstFitIsUnique(sources, sources[w].scheme, Dir(sources[w].path + "/" + name, clean), i, w);
    hide Contains, Dir, FirstFit;
    assert forall j: nat :: j < w ==> (Captures(sources, j, w) <==> sources[j].scheme == sources[w].scheme
                                                                    && Contains(sources[w].path, sources[j].path));
  }

  lemma FirstFitIsUnique(sources: seq<Source>, scheme: string, baseDir: string, i: nat, w: nat)
    requires FirstFit(sources, scheme, baseDir, i)
    ensures FirstFit(sources, scheme, baseDir, w) <==> i == w
  {
    hide Fits;
  }
}
