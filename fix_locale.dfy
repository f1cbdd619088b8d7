/**
 * The program as a whole: `update_envrc`, `update_shell_profile` and `main`,
 * acting on a host whose file system is a map from path to content (a missing key
 * is a missing file) and whose process environment is a map from name to value.
 */
module FixLocale {
  import opened Wrappers
  import opened Text
  import opened Resolve
  import opened Patch

  /** The environment variable `main` sets. */
  const EnvKey := "LOCALE_ARCHIVE"

  /** The project-local direnv file, relative to the working directory. */
  const EnvrcPath := ".envrc"

  /** `Path(dir) / name` for a single file name: no separator is doubled, and
      an empty directory stands for the working directory. */
  function Join(dir: string, name: string): string
  {
    if dir == [] then name
    else if dir[|dir| - 1] == '/' then dir + name
    else dir + "/" + name
  }

  /** The joined path is the directory, then a separator unless the directory
      is empty or already ends in one, then the name: the name is a whole last
      component. */
  lemma JoinSpec(dir: string, name: string)
    ensures var r := Join(dir, name);
      && |r| >= |name| && r[|r| - |name|..] == name
      && dir <= r
      && var head := r[..|r| - |name|];
      && (head == dir || head == dir + "/")
      && (head == [] || head[|head| - 1] == '/')
      && (head == dir <==> (dir == [] || dir[|dir| - 1] == '/'))
  {
  }

  /** The profile candidates, in the order they are visited. */
  function ProfilePaths(home: string): seq<string>
  {
    [Join(home, ".bashrc"), Join(home, ".zshrc"), Join(home, ".profile")]
  }

  /** The four target paths are pairwise distinct, so patching one never touches another. */
  lemma TargetsDistinct(home: string)
    ensures EnvrcPath !in ProfilePaths(home)
    ensures var ps := ProfilePaths(home); ps[0] != ps[1] && ps[0] != ps[2] && ps[1] != ps[2]
  {
    JoinSpec(home, ".bashrc");
    JoinSpec(home, ".zshrc");
    JoinSpec(home, ".profile");
  }

  /** Python truthiness of `find_glibc_locales()`'s result: `None` or `""`. */
  predicate Falsy(found: Option<string>)
  {
    found.None? || found.value == ""
  }

  /** The status `main` returns and the state it leaves behind. */
  datatype Outcome = Outcome(status: int, files: map<string, string>, environ: map<string, string>)

  /** The files after the patching half of `main` with the archive at `archive`:
      `.envrc` if it exists, then each existing profile in turn. */
  function PatchTargets(files: map<string, string>, home: string, archive: string): map<string, string>
  {
    var afterEnvrc :=
      if EnvrcPath in files then files[EnvrcPath := Patched(files[EnvrcPath], EnvrcBlock(archive))] else files;
    PatchExisting(afterEnvrc, ProfilePaths(home), ProfileBlock(archive))
  }

  /** What one run of `main` does, as a function of the state before it. */
  function RunSpec(files: map<string, string>, environ: map<string, string>, home: string, tool: ToolRun): Outcome
  {
    var found := FindGlibcLocales(tool);
    if Falsy(found) then Outcome(1, files, environ)
    else Outcome(0, PatchTargets(files, home, found.value), environ[EnvKey := found.value])
  }

  /** The resolved path is never empty, so the truthiness test fails exactly on `None`. */
  lemma FalsyIffUnresolved(tool: ToolRun)
    ensures Falsy(FindGlibcLocales(tool)) <==> tool.exitCode != 0
  {
  }

  /** A failed `nix-build` query makes `main` return 1 and change nothing. */
  lemma RunFailure(files: map<string, string>, environ: map<string, string>, home: string, tool: ToolRun)
    requires tool.exitCode != 0
    ensures RunSpec(files, environ, home, tool) == Outcome(1, files, environ)
  {
  }

  /** A successful query makes `main` return 0 and set `LOCALE_ARCHIVE` to the
      resolved path, leaving every other variable as it was. */
  lemma RunSetsEnvironment(files: map<string, string>, environ: map<string, string>, home: string, tool: ToolRun)
    requires tool.exitCode == 0
    ensures var out := RunSpec(files, environ, home, tool);
      && out.status == 0
      && out.environ.Keys == environ.Keys + {EnvKey}
      && out.environ[EnvKey] == Strip(tool.stdout) + ArchiveSuffix
      && (forall k :: k in environ && k != EnvKey ==> out.environ[k] == environ[k])
  {
  }

  /** Patching creates no file, patches `.envrc` and each profile where they exist,
      and leaves every other file alone. */
  lemma PatchTargetsEffect(files: map<string, string>, home: string, archive: string)
    ensures var out := PatchTargets(files, home, archive);
      && out.Keys == files.Keys
      && (EnvrcPath in files ==> out[EnvrcPath] == Patched(files[EnvrcPath], EnvrcBlock(archive)))
      && (forall q :: q in files && q in ProfilePaths(home) ==> out[q] == Patched(files[q], ProfileBlock(archive)))
      && (forall q :: q in files && q != EnvrcPath && q !in ProfilePaths(home) ==> out[q] == files[q])
  {
    var afterEnvrc :=
      if EnvrcPath in files then files[EnvrcPath := Patched(files[EnvrcPath], EnvrcBlock(archive))] else files;
    BlockMarked(ProfileComment, archive);
    PatchExistingEffect(afterEnvrc, ProfilePaths(home), ProfileBlock(archive));
    TargetsDistinct(home);
  }

  /** A successful run leaves the files as the patching half of `main` makes them
      with the resolved path. */
  lemma RunPatchesFiles(files: map<string, string>, environ: map<string, string>, home: string, tool: ToolRun)
    requires tool.exitCode == 0
    ensures var archive := Strip(tool.stdout) + ArchiveSuffix;
      var out := RunSpec(files, environ, home, tool);
      && out.files.Keys == files.Keys
      && (EnvrcPath in files ==> out.files[EnvrcPath] == Patched(files[EnvrcPath], EnvrcBlock(archive)))
      && (forall q :: q in files && q in ProfilePaths(home) ==> out.files[q] == Patched(files[q], ProfileBlock(archive)))
      && (forall q :: q in files && q != EnvrcPath && q !in ProfilePaths(home) ==> out.files[q] == files[q])
  {
    ResolvedPath(tool);
    PatchTargetsEffect(files, home, Strip(tool.stdout) + ArchiveSuffix);
  }

  /** After patching, every target that exists carries the marker. */
  lemma PatchTargetsMarked(files: map<string, string>, home: string, archive: string)
    ensures var out := PatchTargets(files, home, archive);
      forall q :: q in files && (q == EnvrcPath || q in ProfilePaths(home)) ==>
        q in out && Contains(out[q], Marker)
  {
    var out := PatchTargets(files, home, archive);
    PatchTargetsEffect(files, home, archive);
    BlockMarked(EnvrcComment, archive);
    BlockMarked(ProfileComment, archive);
    forall q | q in files && (q == EnvrcPath || q in ProfilePaths(home))
      ensures Contains(out[q], Marker)
    {
      if q == EnvrcPath {
        PatchedMarked(files[q], EnvrcBlock(archive));
      } else {
        PatchedMarked(files[q], ProfileBlock(archive));
      }
    }
  }

  /** A target that had no marker before carries exactly one afterwards, provided
      the archive path does not itself spell the marker. */
  lemma PatchTargetsMarkOnce(files: map<string, string>, home: string, archive: string, q: string)
    requires !Contains(archive, Marker)
    requires q in files && (q == EnvrcPath || q in ProfilePaths(home)) && !Contains(files[q], Marker)
    ensures var out := PatchTargets(files, home, archive);
      q in out && Count(out[q], Marker) == 1
  {
    PatchTargetsEffect(files, home, archive);
    CommentsUnmarked();
    if q == EnvrcPath {
      PatchedCount(files[q], EnvrcComment, archive);
    } else {
      PatchedCount(files[q], ProfileComment, archive);
    }
  }

  /** Patching the targets a second time with the same path changes nothing. */
  lemma PatchTargetsIdempotent(files: map<string, string>, home: string, archive: string)
    ensures PatchTargets(PatchTargets(files, home, archive), home, archive) == PatchTargets(files, home, archive)
  {
    var eb, pb, ps := EnvrcBlock(archive), ProfileBlock(archive), ProfilePaths(home);
    var afterEnvrc := if EnvrcPath in files then files[EnvrcPath := Patched(files[EnvrcPath], eb)] else files;
    var once := PatchExisting(afterEnvrc, ps, pb);
    BlockMarked(EnvrcComment, archive);
    BlockMarked(ProfileComment, archive);
    PatchExistingEffect(afterEnvrc, ps, pb);
    PatchExistingIdempotent(afterEnvrc, ps, pb);
    TargetsDistinct(home);
    if EnvrcPath in files {
      PatchedIdempotent(files[EnvrcPath], eb);
      assert once[EnvrcPath := Patched(once[EnvrcPath], eb)] == once;
    }
  }

  /** A resolved run, spelt out: status 0, the variable set, the targets patched. */
  lemma RunResolved(files: map<string, string>, environ: map<string, string>, home: string, tool: ToolRun)
    requires tool.exitCode == 0
    ensures var archive := Strip(tool.stdout) + ArchiveSuffix;
      RunSpec(files, environ, home, tool) == Outcome(0, PatchTargets(files, home, archive), environ[EnvKey := archive])
  {
  }

  /** A second run with the same query result finds every target patched. */
  lemma RunFilesSettle(files: map<string, string>, environ: map<string, string>, home: string, tool: ToolRun)
    requires tool.exitCode == 0
    ensures var archive := Strip(tool.stdout) + ArchiveSuffix;
      RunSpec(PatchTargets(files, home, archive), environ[EnvKey := archive], home, tool).files
        == PatchTargets(files, home, archive)
  {
    var archive := Strip(tool.stdout) + ArchiveSuffix;
    RunResolved(PatchTargets(files, home, archive), environ[EnvKey := archive], home, tool);
    PatchTargetsIdempotent(files, home, archive);
  }

  /** Running the program a second time with the same query result changes nothing more. */
  lemma RunIdempotent(files: map<string, string>, environ: map<string, string>, home: string, tool: ToolRun)
    ensures var once := RunSpec(files, environ, home, tool);
      RunSpec(once.files, once.environ, home, tool) == once
  {
    if tool.exitCode == 0 {
      var archive := Strip(tool.stdout) + ArchiveSuffix;
      RunResolved(files, environ, home, tool);
      RunFilesSettle(files, environ, home, tool);
      var environ1 := environ[EnvKey := archive];
      assert environ1[EnvKey := archive] == environ1;
    }
  }

  /** A `.envrc` without the marker gains exactly the two lines of the program's
      format string. */
  lemma EnvrcAppendedText(content: string, archive: string)
    requires !Contains(content, Marker)
    ensures Patched(content, EnvrcBlock(archive))
         == content + "\n# Fix locale issues\nexport LOCALE_ARCHIVE=\"" + archive + "\"\n"
  {
    var head, line := "\n# Fix locale issues", "\nexport LOCALE_ARCHIVE=\"";
    assert "\n" + EnvrcComment == head;
    assert head + line == "\n# Fix locale issues\nexport LOCALE_ARCHIVE=\"";
  }

  /** After one `update_envrc`, a later call with any archive path finds the
      marker: it reports no write and leaves the file as it is. */
  lemma EnvrcSecondCallNoop(content: string, archive: string, later: string)
    ensures var once := Patched(content, EnvrcBlock(archive));
      Contains(once, Marker) && Patched(once, EnvrcBlock(later)) == once
  {
    BlockMarked(EnvrcComment, archive);
    PatchedMarked(content, EnvrcBlock(archive));
  }

  /** A profile without the marker gains exactly the two lines of the program's
      format string. */
  lemma ProfileAppendedText(content: string, archive: string)
    requires !Contains(content, Marker)
    ensures Patched(content, ProfileBlock(archive))
         == content + "\n# Fix Nix locale issues\nexport LOCALE_ARCHIVE=\"" + archive + "\"\n"
  {
    var head, line := "\n# Fix Nix locale issues", "\nexport LOCALE_ARCHIVE=\"";
    assert "\n" + ProfileComment == head;
    assert head + line == "\n# Fix Nix locale issues\nexport LOCALE_ARCHIVE=\"";
  }

  /** With none of the targets present, a successful run still returns 0 and
      leaves every file as it was. */
  lemma RunWithoutTargets(files: map<string, string>, environ: map<string, string>, home: string, tool: ToolRun)
    requires tool.exitCode == 0
    requires EnvrcPath !in files && forall q :: q in ProfilePaths(home) ==> q !in files
    ensures RunSpec(files, environ, home, tool).status == 0
    ensures RunSpec(files, environ, home, tool).files == files
  {
    RunSetsEnvironment(files, environ, home, tool);
    RunPatchesFiles(files, environ, home, tool);
  }

  /** The machine the program runs on: its files, its process environment and
      the user's home directory. */
  class Host {
    var files: map<string, string>
    var environ: map<string, string>
    const home: string

    constructor (files: map<string, string>, environ: map<string, string>, home: string)
      ensures this.files == files && this.environ == environ && this.home == home
    {
      this.files := files;
      this.environ := environ;
      this.home := home;
    }

    /** `update_envrc`: reads the file and appends the block unless the marker is
        already there; reports whether it wrote. */
    method UpdateEnvrc(path: string, archive: string) returns (updated: bool)
      requires path in files
      modifies this`files
      ensures updated <==> !Contains(old(files)[path], Marker)
      ensures files == old(files)[path := Patched(old(files)[path], EnvrcBlock(archive))]
    {
      var content := files[path];
      if Contains(content, Marker) {
        return false;
      }
      files := files[path := content + EnvrcBlock(archive)];
      return true;
    }

    /** `update_shell_profile`: visits `~/.bashrc`, `~/.zshrc` and `~/.profile`
        in order, skipping missing files and files that have the marker. */
    method UpdateShellProfile(archive: string)
      modifies this`files
      ensures files == PatchExisting(old(files), ProfilePaths(home), ProfileBlock(archive))
    {
      var profilePaths := ProfilePaths(home);
      for i := 0 to |profilePaths|
        invariant files == PatchExisting(old(files), profilePaths[..i], ProfileBlock(archive))
      {
        assert profilePaths[..i + 1][..i] == profilePaths[..i];
        var profilePath := profilePaths[i];
        if profilePath in files {
          var content := files[profilePath];
          if Contains(content, Marker) {
            continue;
          }
          files := files[profilePath := content + ProfileBlock(archive)];
        }
      }
      assert profilePaths[..|profilePaths|] == profilePaths;
    }

    /** `main`: resolve the archive, give up with status 1 if that fails, else set
        the variable, patch `.envrc` if present, patch the profiles, and return 0. */
    method Run(tool: ToolRun) returns (status: int)
      modifies this`files, this`environ
      ensures Outcome(status, files, environ) == RunSpec(old(files), old(environ), home, tool)
    {
      var found := FindGlibcLocales(tool);
      if Falsy(found) {
        return 1;
      }
      var archive := found.value;
      environ := environ[EnvKey := archive];
      if EnvrcPath in files {
        var updated := UpdateEnvrc(EnvrcPath, archive);
      }
      UpdateShellProfile(archive);
      return 0;
    }
  }
}
