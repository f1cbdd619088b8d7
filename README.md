# fix-locale: a verified model

`fix-locale.py` repairs locale settings in Nix environments. It asks
`nix-build` for the `glibcLocales` package, derives the path of the
`locale-archive` file from the store directory printed, and sets
`LOCALE_ARCHIVE` in the process environment. It then appends a comment line
and an export line to the project's `.envrc`, if that file exists, and to
whichever of `~/.bashrc`, `~/.zshrc` and `~/.profile` exist. Any file that
already mentions `LOCALE_ARCHIVE` is left alone.

The model works over an abstract host:

- the file system is a `map<string, string>` from path to content, and a
  missing key is a missing file;
- the process environment is a `map<string, string>`;
- the home directory is a string;
- the `nix-build` query is supplied as its exit status and captured standard
  output (`Resolve.ToolRun`).

Modules:

- `Wrappers`: the `Option` datatype.
- `Text`: Python's `str.strip()` (using Python's `str.isspace` character set)
  and the substring test `pat in s`. It also has an occurrence count `Count`,
  used to say "exactly one marker".
- `Resolve`: `find_glibc_locales`, as a function of the tool result.
- `Patch`: the marker-guarded append shared by `update_envrc` and the body of
  `update_shell_profile`:
  - `Patched` acts on one file's content;
  - `PatchExisting` is the in-order fold over a list of candidate paths;
  - `PatchAll` is a closed-form reference definition that the fold is proved
    equal to.
- `FixLocale`:
  - the class `Host` holds the file and environment maps. Its methods are
    `UpdateEnvrc`, `UpdateShellProfile` (a loop with `continue`) and `Run`
    (`main`). Each method's new state is tied to a specification function.
  - `RunSpec` states what one run of `main` does. `PatchTargets` states the
    patching half of `main`. The lemmas about both cover failure, the
    environment, which files change, markers and idempotence.

## Model

| member | source | states |
|---|---|---|
| Text.TrimStartSpec | fix-locale.py:21 | leading trim keeps a suffix of the input that does not start with white space, and drops only white space |
| Text.TrimEndSpec | fix-locale.py:21 | trailing trim keeps a prefix of the input that does not end with white space, and drops only white space |
| Text.StripTrimmed | fix-locale.py:21 | neither end of a stripped string is white space; the result is empty exactly when the input is all white space |
| Text.StripSurrounded | fix-locale.py:21 | the stripped string sits inside the input with only white space before and after it |
| Text.StripIdempotent | fix-locale.py:21 | stripping an already stripped string changes nothing |
| Text.StripIgnoresSurroundingSpace | fix-locale.py:21 | white space added at either end of a string does not change what it strips to |
| Text.CountZeroIff | fix-locale.py:33 | the marker count is zero exactly when the substring test `in` fails |
| Text.CountSeparated | fix-locale.py:39 | a character absent from the pattern splits the occurrence count additively |
| Resolve.FindGlibcLocales | fix-locale.py:11-24 | the result is `None` exactly when the tool exits non-zero (`CalledProcessError`) |
| Resolve.ResolvedPath | fix-locale.py:21-22 | on success the path is non-empty, ends in `/lib/locale/locale-archive`, and its directory part is exactly the stripped output |
| Resolve.ResolvedDirIsStripped | fix-locale.py:21-22 | the directory part of a resolved path is a fixed point of strip and has no white space at either end |
| Resolve.ResolveIgnoresSurroundingSpace | fix-locale.py:21-22 | white space printed before or after the tool's output does not change the resolved path |
| Patch.CommentsUnmarked | fix-locale.py:39 | neither comment line of the appended blocks contains `LOCALE_ARCHIVE` |
| Patch.BlockCount | fix-locale.py:39 | appending a block adds exactly one marker, plus any the archive path itself carries |
| Patch.BlockMarked | fix-locale.py:39 | every appended block carries the marker on its export line, whatever its comment |
| Patch.PatchedOutcome | fix-locale.py:29-41 | a file is left unchanged exactly when it already has the marker; otherwise exactly the block is appended; the old content is always a prefix of the new |
| Patch.PatchedMarked | fix-locale.py:33-39 | after a guarded append the file carries the marker |
| Patch.PatchedIdempotent | fix-locale.py:33-39 | a second guarded append with the same block changes nothing |
| Patch.PatchedCount | fix-locale.py:33-39 | an unmarked file patched with an unmarked path ends up with exactly one marker; a marked file keeps its count |
| Patch.PatchExistingIsPatchAll | fix-locale.py:52-64 | the in-order loop over candidate paths equals patching every existing candidate once and leaving every other file alone |
| Patch.PatchExistingEffect | fix-locale.py:52-64 | the profile loop never creates or deletes a file, patches each existing candidate, leaves other files alone, and marks every existing candidate |
| Patch.PatchExistingIdempotent | fix-locale.py:52-64 | running the profile loop twice is running it once |
| FixLocale.JoinSpec | fix-locale.py:47-49 | `Path(dir) / name` is the directory, a `/` unless the directory is empty or already ends in one, and then the name, so the name is a whole last path component |
| FixLocale.TargetsDistinct | fix-locale.py:46-50 | `.envrc` and the three profile candidates are pairwise distinct paths |
| FixLocale.FalsyIffUnresolved | fix-locale.py:72-73 | the truthiness test in `main` fails exactly when the tool failed |
| FixLocale.RunFailure | fix-locale.py:72-76 | on tool failure `main` returns 1 with files and environment unchanged |
| FixLocale.RunSetsEnvironment | fix-locale.py:78-79 | on success `main` returns 0 and sets `LOCALE_ARCHIVE` to the resolved path; every other variable keeps its value |
| FixLocale.PatchTargetsEffect | fix-locale.py:82-89 | patching creates no file, patches `.envrc` and each profile where they exist, and leaves every other file alone |
| FixLocale.RunPatchesFiles | fix-locale.py:82-94 | on success the files are exactly those the patching half produces with the resolved path |
| FixLocale.PatchTargetsMarked | fix-locale.py:82-89 | after patching, every existing target contains the marker |
| FixLocale.PatchTargetsMarkOnce | fix-locale.py:82-89 | a target without the marker carries exactly one afterwards, provided the archive path does not spell the marker |
| FixLocale.PatchTargetsIdempotent | fix-locale.py:82-89 | patching the targets again with the same path changes nothing |
| FixLocale.RunFilesSettle | fix-locale.py:82-89 | a second run with the same query result leaves the files as the first run left them |
| FixLocale.RunIdempotent | fix-locale.py:69-94 | running `main` a second time with the same query result gives the same status, files and environment |
| FixLocale.EnvrcSecondCallNoop | fix-locale.py:33-39 | after one `update_envrc`, any later call finds the marker and leaves the file as it is |
| FixLocale.EnvrcAppendedText | fix-locale.py:38-39 | an unmarked `.envrc` gains exactly `"\n# Fix locale issues\nexport LOCALE_ARCHIVE=\"" + path + "\"\n"` |
| FixLocale.ProfileAppendedText | fix-locale.py:63-64 | an unmarked profile gains exactly `"\n# Fix Nix locale issues\nexport LOCALE_ARCHIVE=\"" + path + "\"\n"` |
| FixLocale.RunWithoutTargets | fix-locale.py:82-94 | with no target file present, a successful run returns 0 and leaves the file system unchanged |
| FixLocale.Host.UpdateEnvrc | fix-locale.py:27-41 | returns true exactly when the old content lacked the marker; the file becomes the guarded append of the `.envrc` block and nothing else changes |
| FixLocale.Host.UpdateShellProfile | fix-locale.py:44-66 | the file map becomes the in-order fold of the guarded append over `~/.bashrc`, `~/.zshrc`, `~/.profile`, skipping missing and marked files |
| FixLocale.Host.Run | fix-locale.py:69-94 | the returned status and the new files and environment are exactly `RunSpec` of the old state |

## Left out

- The `nix-build <nixpkgs> -A glibcLocales --no-out-link` process
  (fix-locale.py:15-20) is replaced by its exit status and standard output.
  The `FileNotFoundError` raised when `nix-build` is missing is not caught by
  the program and is not modelled.
- Text decoding of the tool output and of the files, and newline translation,
  are not modelled. Contents are taken as Unicode strings.
- Every `print` (fix-locale.py:34, 59, 66, 74-75, 80, 86, 91-92) is left out.
  It is console output only.
- Exceptions from `open`, read or write are left out. The program catches
  none of them, so one failing file aborts the whole run. The model has no
  error path for them, and it has no per-file error isolation, because the
  program has none.
- `Path.exists()` is also true for a directory, and `open` would then fail.
  The model only knows files (map keys).
- `Path.home()`, the working directory and `os.environ` are taken as state:
  `Host.home`, the relative key `.envrc`, and `Host.environ`. Only the
  textual form of `Path(dir) / name` is modelled (`FixLocale.Join`, specified
  by `FixLocale.JoinSpec`). Path normalisation and symbolic links are not.
- `sys.exit(main())` and the `__main__` guard (fix-locale.py:97-98) are left
  out. `Host.Run` returns the status that would be passed to `sys.exit`.
- Exactly one marker after patching is guaranteed in two cases:
  - the file had no marker and the archive path does not contain the text
    `LOCALE_ARCHIVE`;
  - the file already had exactly one marker.

  A file with two or more markers keeps them all, since a marked file is left
  alone (`Patch.PatchedCount`, `FixLocale.PatchTargetsMarkOnce`).
- FixLocale.Host.Run and FixLocale.RunSpec: the `ValueError` ("embedded null
  byte") that the assignment to `os.environ` (fix-locale.py:79) raises when the
  resolved path contains a NUL character is not modelled. In that case the
  program stops at line 79 with an uncaught exception: no file is touched and
  the environment is unchanged. The model instead returns 0, sets the variable
  and patches the targets.
- The resolved path is never empty: the suffix is appended even when the tool
  printed only white space. As a result, the `if not locale_archive_path`
  test in `main` triggers only on `None`. The model keeps the test as
  written, and `FixLocale.FalsyIffUnresolved` proves this.
