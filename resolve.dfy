/**
 * Locating the glibc locale archive (`find_glibc_locales`).
 *
 * The program runs `nix-build <nixpkgs> -A glibcLocales --no-out-link` with
 * `check=True`; the process itself is not modelled, only what it gave back.
 */
module Resolve {
  import opened Wrappers
  import opened Text

  /** The exit status and captured standard output of the `nix-build` query. */
  datatype ToolRun = ToolRun(exitCode: int, stdout: string)

  /** Appended to the package's output directory to name the archive file. */
  const ArchiveSuffix := "/lib/locale/locale-archive"

  predicate HasArchiveSuffix(path: string)
  {
    |path| >= |ArchiveSuffix| && path[|path| - |ArchiveSuffix|..] == ArchiveSuffix
  }

  /** The store directory an archive path was composed from. */
  function StoreDir(path: string): (dir: string)
    requires HasArchiveSuffix(path)
    ensures dir + ArchiveSuffix == path
  {
    path[..|path| - |ArchiveSuffix|]
  }

  /** A non-zero exit raises `CalledProcessError`, which becomes `None`; otherwise
      the stripped output is the store directory and the suffix is appended. */
  function FindGlibcLocales(run: ToolRun): (r: Option<string>)
    ensures r.None? <==> run.exitCode != 0
  {
    if run.exitCode != 0 then None else Some(Strip(run.stdout) + ArchiveSuffix)
  }

  /** A successful query yields a non-empty path ending in the archive suffix,
      whose directory part is exactly the stripped output, so the suffix is
      appended even when the tool printed nothing but white space. */
  lemma ResolvedPath(run: ToolRun)
    requires run.exitCode == 0
    ensures var path := FindGlibcLocales(run).value;
      && HasArchiveSuffix(path) && path != ""
      && StoreDir(path) == Strip(run.stdout)
  {
  }

  /** The directory read back from a resolved path carries no surrounding white space. */
  lemma ResolvedDirIsStripped(run: ToolRun)
    requires run.exitCode == 0
    ensures var dir := StoreDir(FindGlibcLocales(run).value);
      dir == Strip(dir) && (dir != [] ==> !IsSpace(dir[0]) && !IsSpace(dir[|dir| - 1]))
  {
    ResolvedPath(run);
    StripIdempotent(run.stdout);
    StripTrimmed(run.stdout);
  }

  /** White space printed before or after the store directory does not change
      the resolved path. */
  lemma ResolveIgnoresSurroundingSpace(w1: string, out: string, w2: string)
    requires AllSpace(w1) && AllSpace(w2)
    ensures FindGlibcLocales(ToolRun(0, w1 + out + w2)) == FindGlibcLocales(ToolRun(0, out))
  {
    StripIgnoresSurroundingSpace(w1, out, w2);
  }
}
