/**
 * The marker-guarded append shared by `update_envrc` and the loop body of
 * `update_shell_profile`, on file contents and on a whole file map.
 */
module Patch {
  import opened Text

  /** The idempotency key: a file containing it anywhere is left alone. */
  const Marker := "LOCALE_ARCHIVE"

  const EnvrcComment := "# Fix locale issues"
  const ProfileComment := "# Fix Nix locale issues"

  /** The two-line block appended to a file: a comment line and the export line. */
  function Block(comment: string, archive: string): string
  {
    "\n" + comment + "\nexport LOCALE_ARCHIVE=\"" + archive + "\"\n"
  }

  function EnvrcBlock(archive: string): string
  {
    Block(EnvrcComment, archive)
  }

  function ProfileBlock(archive: string): string
  {
    Block(ProfileComment, archive)
  }

  /** The content of a file after one guarded append of `block`. */
  function Patched(content: string, block: string): string
  {
    if Contains(content, Marker) then content else content + block
  }

  /** Three words shorter than the marker, joined by spaces, do not contain it. */
  lemma ShortWordsUnmarked(w1: string, w2: string, w3: string)
    requires |w1| < |Marker| && |w2| < |Marker| && |w3| < |Marker|
    ensures !Contains(w1 + " " + w2 + " " + w3, Marker)
  {
    var sp := ' ';
    assert sp !in Marker;
    CountSeparated(w2, sp, w3, Marker);
    CountSeparated(w1, sp, w2 + [sp] + w3, Marker);
    assert w1 + " " + w2 + " " + w3 == w1 + [sp] + (w2 + [sp] + w3);
    CountZeroIff(w1 + " " + w2 + " " + w3, Marker);
  }

  /** Neither comment line mentions the marker. */
  lemma CommentsUnmarked()
    ensures !Contains(EnvrcComment, Marker) && !Contains(ProfileComment, Marker)
  {
    ShortWordsUnmarked("#", "Fix", "locale issues");
    assert EnvrcComment == "#" + " " + "Fix" + " " + "locale issues";
    ShortWordsUnmarked("# Fix", "Nix", "locale issues");
    assert ProfileComment == "# Fix" + " " + "Nix" + " " + "locale issues";
  }

  /** The block, cut at the characters that cannot occur in the marker. */
  lemma BlockShape(comment: string, archive: string)
    ensures Block(comment, archive)
         == [] + ['\n'] + (comment + ['\n'] + ("export" + [' '] + (Marker + ['='] + ([] + ['"'] + (archive + ['"'] + ['\n'])))))
  {
  }

  /** Counting over the pieces of a block: no occurrence of `pat` straddles one
      of the separating characters, since none of them occurs in `pat`. */
  lemma {:induction false} CountBlockParts(content: string, comment: string, word: string, archive: string, pat: string)
    requires pat != [] && |word| < |pat|
    requires '\n' !in pat && ' ' !in pat && '=' !in pat && '"' !in pat
    ensures Count(content + ['\n'] + (comment + ['\n'] + (word + [' '] + (pat + ['='] + ([] + ['"'] + (archive + ['"'] + ['\n']))))), pat)
         == Count(content, pat) + Count(comment, pat) + 1 + Count(archive, pat)
  {
    var t5 := archive + ['"'] + ['\n'];
    CountSeparated(archive, '"', ['\n'], pat);
    var t4 := [] + ['"'] + t5;
    CountSeparated([], '"', t5, pat);
    var t2 := pat + ['='] + t4;
    CountSeparated(pat, '=', t4, pat);
    CountSelf(pat);
    var t1 := word + [' '] + t2;
    CountSeparated(word, ' ', t2, pat);
    var t0 := comment + ['\n'] + t1;
    CountSeparated(comment, '\n', t1, pat);
    CountSeparated(content, '\n', t0, pat);
  }

  /** Appending a block adds exactly one marker, plus any the archive path itself
      carries: the line breaks, the space, `=` and the quotes around the path keep
      any occurrence from straddling two parts. */
  lemma BlockCount(content: string, comment: string, archive: string)
    requires !Contains(comment, Marker)
    ensures Count(content + Block(comment, archive), Marker)
         == Count(content, Marker) + 1 + Count(archive, Marker)
  {
    BlockShape(comment, archive);
    assert content + Block(comment, archive)
        == content + ['\n'] + (comment + ['\n'] + ("export" + [' '] + (Marker + ['='] + ([] + ['"'] + (archive + ['"'] + ['\n'])))));
    CountBlockParts(content, comment, "export", archive, Marker);
    CountZeroIff(comment, Marker);
  }

  /** Every block carries the marker, on its export line, whatever the comment. */
  lemma BlockMarked(comment: string, archive: string)
    ensures Contains(Block(comment, archive), Marker)
  {
    var pre := [] + ['\n'] + (comment + ['\n'] + ("export" + [' ']));
    var post := ['='] + ([] + ['"'] + (archive + ['"'] + ['\n']));
    var b := Block(comment, archive);
    BlockShape(comment, archive);
    assert b == pre + Marker + post;
    assert b[|pre|..|pre| + |Marker|] == Marker;
    assert MatchesAt(b, Marker, |pre|);
  }

  /** A file is left unchanged exactly when it already has the marker; otherwise
      its old content is kept as a prefix and exactly the block is added. */
  lemma PatchedOutcome(content: string, comment: string, archive: string)
    ensures var r := Patched(content, Block(comment, archive));
      && (r == content <==> Contains(content, Marker))
      && (!Contains(content, Marker) ==> r == content + Block(comment, archive))
      && content <= r
  {
  }

  /** After a patch the marker is present, whatever the file held before. */
  lemma PatchedMarked(content: string, block: string)
    requires Contains(block, Marker)
    ensures Contains(Patched(content, block), Marker)
  {
    if !Contains(content, Marker) {
      ContainsAfterPrefix(content, block, Marker);
    }
  }

  /** Patching twice with the same block is patching once. */
  lemma PatchedIdempotent(content: string, block: string)
    requires Contains(block, Marker)
    ensures Patched(Patched(content, block), block) == Patched(content, block)
  {
    PatchedMarked(content, block);
  }

  /** A file without the marker, patched with a path that does not mention the
      marker either, ends up with exactly one marker; a file that already had it
      keeps however many it had. */
  lemma PatchedCount(content: string, comment: string, archive: string)
    requires !Contains(comment, Marker)
    ensures Contains(content, Marker) ==>
      Count(Patched(content, Block(comment, archive)), Marker) == Count(content, Marker)
    ensures !Contains(content, Marker) && !Contains(archive, Marker) ==>
      Count(Patched(content, Block(comment, archive)), Marker) == 1
  {
    if !Contains(content, Marker) {
      BlockCount(content, comment, archive);
      CountZeroIff(content, Marker);
      CountZeroIff(archive, Marker);
    }
  }

  /** Visits `paths` in order and patches each one that is a key of the map;
      a path that is not a key is skipped and never created. */
  function PatchExisting(files: map<string, string>, paths: seq<string>, block: string): map<string, string>
    decreases |paths|
  {
    if paths == [] then files
    else
      var prev := PatchExisting(files, paths[..|paths| - 1], block);
      var p := paths[|paths| - 1];
      if p in prev then prev[p := Patched(prev[p], block)] else prev
  }

  /** The reference definition: every existing file named in `paths` is patched
      once, whatever the order and however often it is named; nothing else changes. */
  function PatchAll(files: map<string, string>, paths: seq<string>, block: string): map<string, string>
  {
    map q | q in files :: if q in paths then Patched(files[q], block) else files[q]
  }

  lemma {:induction false} PatchExistingIsPatchAll(files: map<string, string>, paths: seq<string>, block: string)
    requires Contains(block, Marker)
    ensures PatchExisting(files, paths, block) == PatchAll(files, paths, block)
    decreases |paths|
  {
    if paths == [] {
      assert PatchAll(files, paths, block) == files;
    } else {
      var init := paths[..|paths| - 1];
      var p := paths[|paths| - 1];
      PatchExistingIsPatchAll(files, init, block);
      assert forall q :: q in paths <==> q in init || q == p by {
        assert paths == init + [p];
      }
      if p in files && p in init {
        PatchedIdempotent(files[p], block);
      }
    }
  }

  /** Patching the files keeps the set of files, patches each existing target,
      leaves every other file alone, and marks every existing target. */
  lemma PatchExistingEffect(files: map<string, string>, paths: seq<string>, block: string)
    requires Contains(block, Marker)
    ensures var r := PatchExisting(files, paths, block);
      && r.Keys == files.Keys
      && (forall q :: q in files && q !in paths ==> r[q] == files[q])
      && (forall q :: q in files && q in paths ==> r[q] == Patched(files[q], block))
      && (forall q :: q in files && q in paths ==> Contains(r[q], Marker))
  {
    PatchExistingIsPatchAll(files, paths, block);
    forall q | q in files && q in paths
      ensures Contains(Patched(files[q], block), Marker)
    {
      PatchedMarked(files[q], block);
    }
  }

  /** Running the profile loop a second time changes nothing. */
  lemma PatchExistingIdempotent(files: map<string, string>, paths: seq<string>, block: string)
    requires Contains(block, Marker)
    ensures PatchExisting(PatchExisting(files, paths, block), paths, block) == PatchExisting(files, paths, block)
  {
    var once := PatchExisting(files, paths, block);
    PatchExistingIsPatchAll(files, paths, block);
    PatchExistingIsPatchAll(once, paths, block);
    forall q | q in files && q in paths
      ensures Patched(once[q], block) == once[q]
    {
      PatchedIdempotent(files[q], block);
    }
  }
}
