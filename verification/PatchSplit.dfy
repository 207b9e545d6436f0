/** Splitting the output of `git diff` into one record per file: `_parse_git_diff`. */
module PatchSplit {
  import opened Wrappers
  import opened Text

  datatype Status = Modified | Added | Deleted | Renamed

  datatype FileChange = FileChange(
    filename: string,
    status: Status,
    previous: Option<string>,
    additions: nat,
    deletions: nat,
    changes: nat,
    patch: string)

  const HEADER := "diff --git "
  const NEW_FILE := "new file"
  const DELETED_FILE := "deleted file"
  const RENAME_FROM := "rename from "
  const RENAME_TO := "rename to "
  const NEW_PATH := "+++ b/"
  const PATH_MARK := " b/"

  predicate IsHeader(line: string) {
    StartsWith(line, HEADER)
  }

  /** A line of the new text of the file, and one of the old, as the parser recognises them. */
  predicate CountsAsAdded(line: string) {
    StartsWith(line, "+") && !StartsWith(line, "+++")
  }

  predicate CountsAsDeleted(line: string) {
    StartsWith(line, "-") && !StartsWith(line, "---")
  }

  function After(line: string, prefix: string): string
    requires StartsWith(line, prefix)
  {
    line[|prefix|..]
  }

  /** What `line.split(" b/", 1)` leaves after the mark, or the empty text when there is no mark. */
  function HeaderName(line: string): string {
    if StartsWith(line, PATH_MARK) then line[|PATH_MARK|..]
    else if line == "" then ""
    else HeaderName(line[1..])
  }

  // ---------------------------------------------------------------- what the records are

  /** The lines from each header up to the next; what precedes the first header belongs to no section. */
  function Sections(lines: seq<string>): (r: seq<seq<string>>)
    ensures forall k :: 0 <= k < |r| ==> r[k] != [] && IsHeader(r[k][0])
  {
    if lines == [] then [] else Next(Sections(lines[..|lines| - 1]), lines[|lines| - 1])
  }

  function Next(sections: seq<seq<string>>, line: string): seq<seq<string>> {
    if IsHeader(line) then sections + [[line]]
    else if sections == [] then []
    else sections[|sections| - 1 := sections[|sections| - 1] + [line]]
  }

  function Tally(lines: seq<string>, counts: string -> bool): nat {
    if lines == [] then 0
    else Tally(lines[..|lines| - 1], counts) + if counts(lines[|lines| - 1]) then 1 else 0
  }

  /** The status, former name and name after reading a section up to here. */
  function Describe(section: seq<string>): (Status, Option<string>, string)
    requires section != []
  {
    if |section| == 1 then (Modified, None, HeaderName(section[0]))
    else
      var (status, previous, filename) := Describe(section[..|section| - 1]);
      var line := section[|section| - 1];
      if StartsWith(line, NEW_FILE) then (Added, previous, filename)
      else if StartsWith(line, DELETED_FILE) then (Deleted, previous, filename)
      else if StartsWith(line, RENAME_FROM) then (Renamed, Some(After(line, RENAME_FROM)), filename)
      else if StartsWith(line, RENAME_TO) then (status, previous, After(line, RENAME_TO))
      else if StartsWith(line, NEW_PATH) then (status, previous, After(line, NEW_PATH))
      else (status, previous, filename)
  }

  function FileOf(section: seq<string>): FileChange
    requires section != []
  {
    var (status, previous, filename) := Describe(section);
    var additions, deletions := Tally(section[1..], CountsAsAdded), Tally(section[1..], CountsAsDeleted);
    FileChange(filename, status, previous, additions, deletions, additions + deletions, Join("\n", section))
  }

  function FilesOf(sections: seq<seq<string>>): (r: seq<FileChange>)
    requires forall k :: 0 <= k < |sections| ==> sections[k] != []
    ensures |r| == |sections|
  {
    seq(|sections|, k requires 0 <= k < |sections| => FileOf(sections[k]))
  }

  // ---------------------------------------------------------------- the loop

  /** The record being filled, before its patch text and total are set. */
  function Partial(section: seq<string>): FileChange
    requires section != []
  {
    FileOf(section).(changes := 0, patch := "")
  }

  method ReadLine(line: string, current: FileChange, ghost section: seq<string>) returns (updated: FileChange)
    requires section != [] && current == Partial(section) && !IsHeader(line)
    ensures updated == Partial(section + [line])
  {
    updated := current;
    SectionOneMore(section, line);
    Prefixes(line);
    if StartsWith(line, NEW_FILE) {
      updated := updated.(status := Added);
    } else if StartsWith(line, DELETED_FILE) {
      updated := updated.(status := Deleted);
    } else if StartsWith(line, RENAME_FROM) {
      updated := updated.(status := Renamed, previous := Some(After(line, RENAME_FROM)));
    } else if StartsWith(line, RENAME_TO) {
      updated := updated.(filename := After(line, RENAME_TO));
    } else if StartsWith(line, NEW_PATH) {
      updated := updated.(filename := After(line, NEW_PATH));
    } else if StartsWith(line, "+") && !StartsWith(line, "+++") {
      updated := updated.(additions := updated.additions + 1);
    } else if StartsWith(line, "-") && !StartsWith(line, "---") {
      updated := updated.(deletions := updated.deletions + 1);
    }
  }

  lemma SectionOneMore(section: seq<string>, line: string)
    requires section != []
    ensures (section + [line])[..|section|] == section
    ensures Tally((section + [line])[1..], CountsAsAdded)
         == Tally(section[1..], CountsAsAdded) + if CountsAsAdded(line) then 1 else 0
    ensures Tally((section + [line])[1..], CountsAsDeleted)
         == Tally(section[1..], CountsAsDeleted) + if CountsAsDeleted(line) then 1 else 0
  {
    var rest := (section + [line])[1..];
    assert rest == section[1..] + [line];
    assert rest[..|rest| - 1] == section[1..];
  }

  /** A line read as a status, a name or a path is neither an added nor a deleted line. */
  lemma Prefixes(line: string)
    ensures SetsAField(line) ==> !CountsAsAdded(line) && !CountsAsDeleted(line)
    ensures !(CountsAsAdded(line) && CountsAsDeleted(line))
  {
    if StartsWith(line, NEW_PATH) { assert line[..3] == NEW_PATH[..3] == "+++"; }
    if |line| > 0 { assert StartsWith(line, [line[0]]); }
  }

  predicate SetsAField(line: string) {
    || StartsWith(line, NEW_FILE) || StartsWith(line, DELETED_FILE)
    || StartsWith(line, RENAME_FROM) || StartsWith(line, RENAME_TO)
    || StartsWith(line, NEW_PATH)
  }

  /** The loop's variables after the lines that make up these sections. */
  predicate ReadsAs(files: seq<FileChange>, current: Option<FileChange>, patchLines: seq<string>,
                    sections: seq<seq<string>>)
    requires Started(sections)
  {
    if sections == [] then current.None? && files == []
    else
      var last := sections[|sections| - 1];
      current == Some(Partial(last)) && patchLines == last && files == FilesOf(sections[..|sections| - 1])
  }

  function Close(current: FileChange, patchLines: seq<string>): FileChange {
    current.(patch := Join("\n", patchLines), changes := current.additions + current.deletions)
  }

  lemma FilesOneMore(sections: seq<seq<string>>)
    requires sections != [] && forall k :: 0 <= k < |sections| ==> sections[k] != []
    ensures FilesOf(sections) == FilesOf(sections[..|sections| - 1]) + [FileOf(sections[|sections| - 1])]
  {
  }

  lemma HeaderReads(line: string, sections: seq<seq<string>>)
    requires forall k :: 0 <= k < |sections| ==> sections[k] != []
    ensures ReadsAs(FilesOf(sections), Some(FileChange(HeaderName(line), Modified, None, 0, 0, 0, "")),
              [line], sections + [[line]])
  {
    var all := sections + [[line]];
    assert all[..|all| - 1] == sections;
    assert [line][1..] == [];
  }

  lemma LineReads(files: seq<FileChange>, sections: seq<seq<string>>, line: string)
    requires sections != [] && forall k :: 0 <= k < |sections| ==> sections[k] != []
    requires files == FilesOf(sections[..|sections| - 1])
    ensures var longer := sections[|sections| - 1] + [line];
            ReadsAs(files, Some(Partial(longer)), longer, sections[|sections| - 1 := longer])
  {
    var longer := sections[|sections| - 1] + [line];
    assert sections[|sections| - 1 := longer][..|sections| - 1] == sections[..|sections| - 1];
  }

  predicate Started(sections: seq<seq<string>>) {
    forall k :: 0 <= k < |sections| ==> sections[k] != []
  }

  /** A header line: the record being filled is finished, and a new one begins. */
  method TakeHeader(line: string, files: seq<FileChange>, current: Option<FileChange>, patchLines: seq<string>,
                    ghost sections: seq<seq<string>>)
    returns (newFiles: seq<FileChange>, newCurrent: FileChange)
    requires IsHeader(line) && Started(sections) && ReadsAs(files, current, patchLines, sections)
    ensures ReadsAs(newFiles, Some(newCurrent), [line], sections + [[line]])
  {
    newFiles := files;
    if current.Some? {
      FilesOneMore(sections);
      newFiles := files + [Close(current.value, patchLines)];
    }
    HeaderReads(line, sections);
    newCurrent := FileChange(HeaderName(line), Modified, None, 0, 0, 0, "");
  }

  method TakeLine(line: string, files: seq<FileChange>, current: Option<FileChange>, patchLines: seq<string>,
                  ghost sections: seq<seq<string>>)
    returns (newFiles: seq<FileChange>, newCurrent: Option<FileChange>, newPatchLines: seq<string>)
    requires Started(sections) && ReadsAs(files, current, patchLines, sections)
    ensures Started(Next(sections, line)) && ReadsAs(newFiles, newCurrent, newPatchLines, Next(sections, line))
  {
    newFiles, newCurrent, newPatchLines := files, current, patchLines;
    if IsHeader(line) {
      var started;
      newFiles, started := TakeHeader(line, files, current, patchLines, sections);
      newCurrent, newPatchLines := Some(started), [line];
    } else if current.Some? {
      LineReads(files, sections, line);
      var updated := ReadLine(line, current.value, patchLines);
      newCurrent, newPatchLines := Some(updated), patchLines + [line];
    }
  }

  method CloseLast(files: seq<FileChange>, current: Option<FileChange>, patchLines: seq<string>,
                   ghost sections: seq<seq<string>>)
    returns (all: seq<FileChange>)
    requires Started(sections) && ReadsAs(files, current, patchLines, sections)
    ensures all == FilesOf(sections)
  {
    all := files;
    if current.Some? {
      FilesOneMore(sections);
      all := files + [Close(current.value, patchLines)];
    }
  }

  method ParseGitDiff(output: string) returns (files: seq<FileChange>)
    ensures files == FilesOf(Sections(SplitLines(output)))
  {
    var lines := SplitLines(output);
    files := [];
    var current: Option<FileChange> := None;
    var patchLines: seq<string> := [];
    for i := 0 to |lines|
      invariant ReadsAs(files, current, patchLines, Sections(lines[..i]))
    {
      assert lines[..i + 1][..i] == lines[..i];
      files, current, patchLines := TakeLine(lines[i], files, current, patchLines, Sections(lines[..i]));
    }
    assert lines[..|lines|] == lines;
    files := CloseLast(files, current, patchLines, Sections(lines));
  }

  // ---------------------------------------------------------------- nothing is lost

  /** The number of lines before the first header: all of them when there is none. */
  function Preamble(lines: seq<string>): (k: nat)
    ensures k <= |lines| && (k < |lines| ==> IsHeader(lines[k]))
    ensures forall i :: 0 <= i < k ==> !IsHeader(lines[i])
  {
    if lines == [] then 0
    else if Preamble(lines[..|lines| - 1]) < |lines| - 1 then Preamble(lines[..|lines| - 1])
    else if IsHeader(lines[|lines| - 1]) then |lines| - 1
    else |lines|
  }

  function Concat(sections: seq<seq<string>>): seq<string> {
    if sections == [] then [] else Concat(sections[..|sections| - 1]) + sections[|sections| - 1]
  }

  lemma ConcatNext(sections: seq<seq<string>>, line: string)
    ensures Concat(Next(sections, line))
         == if !IsHeader(line) && sections == [] then [] else Concat(sections) + [line]
  {
    var after := Next(sections, line);
    if IsHeader(line) {
      assert after[..|after| - 1] == sections;
    } else if sections != [] {
      var n := |sections| - 1;
      assert after[..n] == sections[..n];
      assert Concat(sections[..n]) + (sections[n] + [line]) == Concat(sections[..n]) + sections[n] + [line];
    }
  }

  lemma DropLast(lines: seq<string>, k: nat)
    requires k < |lines|
    ensures lines[k..] == lines[..|lines| - 1][k..] + [lines[|lines| - 1]]
  {
  }

  /** The sections are the lines from the first header on, cut at the headers and nowhere else. */
  lemma {:induction false} SectionsCoverLines(lines: seq<string>)
    ensures Concat(Sections(lines)) == lines[Preamble(lines)..]
    ensures Sections(lines) == [] <==> Preamble(lines) == |lines|
    decreases |lines|
  {
    if lines != [] {
      var n := |lines| - 1;
      SectionsCoverLines(lines[..n]);
      ConcatNext(Sections(lines[..n]), lines[n]);
      if Preamble(lines) < |lines| {
        DropLast(lines, Preamble(lines));
      }
    }
  }

  /** A section holds one header, its first line. */
  lemma {:induction false} OneHeaderPerSection(lines: seq<string>)
    ensures forall k, i :: 0 <= k < |Sections(lines)| && 0 < i < |Sections(lines)[k]| ==>
              !IsHeader(Sections(lines)[k][i])
    ensures |Sections(lines)| == Tally(lines, IsHeader)
    decreases |lines|
  {
    if lines != [] {
      OneHeaderPerSection(lines[..|lines| - 1]);
    }
  }

  function Patches(files: seq<FileChange>): (r: seq<string>)
    ensures |r| == |files|
  {
    seq(|files|, k requires 0 <= k < |files| => files[k].patch)
  }

  lemma {:induction false} JoinSections(sections: seq<seq<string>>)
    requires sections != [] && forall k :: 0 <= k < |sections| ==> sections[k] != []
    ensures Concat(sections) != []
    ensures Join("\n", Patches(FilesOf(sections))) == Join("\n", Concat(sections))
    decreases |sections|
  {
    var n := |sections| - 1;
    var before, last := sections[..n], sections[n];
    var patch := Join("\n", last);
    assert Patches(FilesOf(sections)) == Patches(FilesOf(before)) + [patch];
    if before == [] {
      assert Concat(sections) == last;
      assert Patches(FilesOf(sections)) == [patch];
    } else {
      JoinSections(before);
      JoinConcat("\n", Patches(FilesOf(before)), [patch]);
      JoinConcat("\n", Concat(before), last);
    }
  }

  /**
  Nothing is lost: there is a record for each header line, and joining the patches with newlines
  gives back the output from its first header line on; what precedes is lines without a header.
  */
  lemma PatchesGiveBackTheOutput(output: string)
    ensures var lines := SplitLines(output);
            var files := FilesOf(Sections(lines));
            var k := Preamble(lines);
            && |files| == Tally(lines, IsHeader)
            && (files == [] <==> k == |lines|)
            && (files != [] && k == 0 ==> output == Join("\n", Patches(files)))
            && (files != [] && k > 0 ==> output == Join("\n", lines[..k]) + "\n" + Join("\n", Patches(files)))
  {
    var lines := SplitLines(output);
    var k := Preamble(lines);
    JoinSplit(output);
    SectionsCoverLines(lines);
    OneHeaderPerSection(lines);
    if Sections(lines) != [] {
      JoinSections(Sections(lines));
      if k > 0 {
        assert lines == lines[..k] + lines[k..];
        JoinConcat("\n", lines[..k], lines[k..]);
      }
    }
  }

  // ---------------------------------------------------------------- the counts

  lemma {:induction false} TallyConcat(a: seq<string>, b: seq<string>, counts: string -> bool)
    ensures Tally(a + b, counts) == Tally(a, counts) + Tally(b, counts)
    decreases |b|
  {
    if b == [] {
      assert a + b == a;
    } else {
      TallyConcat(a, b[..|b| - 1], counts);
      assert (a + b)[..|a + b| - 1] == a + b[..|b| - 1];
    }
  }

  // ---------------------------------------------------------------- names and states

  function NamedBy(line: string): Option<string> {
    if StartsWith(line, RENAME_TO) then Some(line[|RENAME_TO|..])
    else if StartsWith(line, NEW_PATH) then Some(line[|NEW_PATH|..])
    else None
  }

  function StatusBy(line: string): Option<Status> {
    if StartsWith(line, NEW_FILE) then Some(Added)
    else if StartsWith(line, DELETED_FILE) then Some(Deleted)
    else if StartsWith(line, RENAME_FROM) then Some(Renamed)
    else None
  }

  function FormerNameBy(line: string): Option<string> {
    if StartsWith(line, RENAME_FROM) then Some(line[|RENAME_FROM|..]) else None
  }

  /** The last of the lines after the header that says something, or None. */
  function LastSaid<T>(section: seq<string>, says: string -> Option<T>): Option<T>
    requires section != []
  {
    if |section| == 1 then None
    else if says(section[|section| - 1]).Some? then says(section[|section| - 1])
    else LastSaid(section[..|section| - 1], says)
  }

  lemma {:induction false} LastSaidIs<T>(section: seq<string>, says: string -> Option<T>, k: nat)
    requires 0 < k < |section| && says(section[k]).Some? && forall j :: k < j < |section| ==> says(section[j]).None?
    ensures LastSaid(section, says) == says(section[k])
    decreases |section|
  {
    if k < |section| - 1 {
      LastSaidIs(section[..|section| - 1], says, k);
    }
  }

  lemma FirstLetters(line: string)
    ensures StatusBy(line).Some? || StartsWith(line, RENAME_FROM) ==> NamedBy(line).None?
    ensures StartsWith(line, NEW_FILE) ==> FormerNameBy(line).None?
    ensures StartsWith(line, DELETED_FILE) ==> FormerNameBy(line).None?
  {
    if StartsWith(line, NEW_FILE) { assert line[0] == NEW_FILE[0]; }
    if StartsWith(line, DELETED_FILE) { assert line[0] == DELETED_FILE[0]; }
    if StartsWith(line, NEW_PATH) { assert line[0] == NEW_PATH[0]; }
    if StartsWith(line, RENAME_FROM) { assert line[7] == RENAME_FROM[7]; }
    if StartsWith(line, RENAME_TO) { assert line[7] == RENAME_TO[7]; }
  }

  /**
  Each of a file's name, status and former name is what the last line that speaks of it says; a file no
  line speaks of is modified and named by its header.
  */
  lemma {:induction false} LastLineWins(section: seq<string>)
    requires section != []
    ensures var (status, previous, filename) := Describe(section);
            && filename == (if LastSaid(section, NamedBy).Some? then LastSaid(section, NamedBy).value
                 else HeaderName(section[0]))
            && status == (if LastSaid(section, StatusBy).Some? then LastSaid(section, StatusBy).value else Modified)
            && previous == LastSaid(section, FormerNameBy)
    decreases |section|
  {
    if |section| > 1 {
      LastLineWins(section[..|section| - 1]);
      FirstLetters(section[|section| - 1]);
    }
  }

  // ---------------------------------------------------------------- the diff behind the text

  /** One file of a diff as git writes it: lines about the file, the first its header, then its hunks. */
  datatype FileDiff = FileDiff(head: seq<string>, hunks: seq<string>)

  /** A hunk is made of context, added and removed lines, each with its mark, and of range and remark lines. */
  predicate IsHunkLine(line: string) {
    line != "" ==> line[0] in {' ', '+', '-', '\\', '@'}
  }

  /** In the head only the two path lines begin with a plus or a minus. */
  predicate IsHeadLine(line: string) {
    (StartsWith(line, "+") ==> StartsWith(line, "+++ ")) && (StartsWith(line, "-") ==> StartsWith(line, "--- "))
  }

  predicate WellFormed(d: FileDiff) {
    && d.head != [] && IsHeader(d.head[0])
    && (forall k :: 0 <= k < |d.head| ==> IsHeadLine(d.head[k]) && (IsHeader(d.head[k]) ==> k == 0))
    && (forall k :: 0 <= k < |d.hunks| ==> IsHunkLine(d.hunks[k]))
  }

  function Lines(d: FileDiff): (r: seq<string>)
    ensures d.head != [] ==> r != []
  {
    d.head + d.hunks
  }

  function AllLines(diffs: seq<FileDiff>): seq<string> {
    if diffs == [] then [] else AllLines(diffs[..|diffs| - 1]) + Lines(diffs[|diffs| - 1])
  }

  /** The lines the diff adds and removes: those of a hunk that carry the mark. */
  predicate IsAdded(line: string) {
    StartsWith(line, "+")
  }

  predicate IsRemoved(line: string) {
    StartsWith(line, "-")
  }

  lemma BeginsLike(line: string, prefix: string)
    requires prefix != ""
    ensures StartsWith(line, prefix) ==> line != "" && line[0] == prefix[0]
  {
    assert StartsWith(line, prefix) ==> line[..|prefix|][0] == prefix[0];
  }

  lemma HunkLineFacts(line: string)
    requires IsHunkLine(line)
    ensures !IsHeader(line) && StatusBy(line).None? && FormerNameBy(line).None? && !StartsWith(line, RENAME_TO)
  {
    BeginsLike(line, HEADER);
    BeginsLike(line, NEW_FILE);
    BeginsLike(line, DELETED_FILE);
    BeginsLike(line, RENAME_FROM);
    BeginsLike(line, RENAME_TO);
  }

  lemma {:induction false} SectionGrows(lines: seq<string>, section: seq<string>)
    requires section != [] && IsHeader(section[0]) && forall k :: 0 < k < |section| ==> !IsHeader(section[k])
    ensures Sections(lines + section) == Sections(lines) + [section]
    decreases |section|
  {
    var n := |section| - 1;
    var all := lines + section;
    assert all[|all| - 1] == section[n];
    assert all[..|all| - 1] == lines + section[..n];
    if n == 0 {
      assert lines + section[..n] == lines;
      assert section == [section[0]];
    } else {
      SectionGrows(lines, section[..n]);
      var before := Sections(lines) + [section[..n]];
      assert section[..n] + [section[n]] == section;
      assert before[|before| - 1 := section] == Sections(lines) + [section];
    }
  }

  function LinesOf(diffs: seq<FileDiff>): (r: seq<seq<string>>)
    ensures |r| == |diffs| && forall k :: 0 <= k < |diffs| ==> r[k] == Lines(diffs[k])
  {
    if diffs == [] then [] else LinesOf(diffs[..|diffs| - 1]) + [Lines(diffs[|diffs| - 1])]
  }

  lemma FileIsSection(d: FileDiff)
    requires WellFormed(d)
    ensures Lines(d) != [] && IsHeader(Lines(d)[0]) && forall k :: 0 < k < |Lines(d)| ==> !IsHeader(Lines(d)[k])
  {
    forall k | 0 <= k < |d.hunks| ensures !IsHeader(d.hunks[k]) { HunkLineFacts(d.hunks[k]); }
  }

  /** The sections of a diff are its files. */
  lemma {:induction false} SectionsAreFiles(diffs: seq<FileDiff>)
    requires forall k :: 0 <= k < |diffs| ==> WellFormed(diffs[k])
    ensures Sections(AllLines(diffs)) == LinesOf(diffs)
    decreases |diffs|
  {
    if diffs != [] {
      var n := |diffs| - 1;
      SectionsAreFiles(diffs[..n]);
      FileIsSection(diffs[n]);
      SectionGrows(AllLines(diffs[..n]), Lines(diffs[n]));
    }
  }

  lemma {:induction false} NothingTallied(lines: seq<string>, counts: string -> bool)
    requires forall k :: 0 <= k < |lines| ==> !counts(lines[k])
    ensures Tally(lines, counts) == 0
    decreases |lines|
  {
    if lines != [] {
      NothingTallied(lines[..|lines| - 1], counts);
    }
  }

  /** A narrower test counts as many lines as a wider one exactly when it misses none of them. */
  lemma {:induction false} TallyEqualIff(lines: seq<string>, narrow: string -> bool, wide: string -> bool)
    requires forall line :: narrow(line) ==> wide(line)
    ensures Tally(lines, narrow) <= Tally(lines, wide)
    ensures Tally(lines, narrow) == Tally(lines, wide)
         <==> forall k :: 0 <= k < |lines| && wide(lines[k]) ==> narrow(lines[k])
    decreases |lines|
  {
    if lines != [] {
      var n := |lines| - 1;
      TallyEqualIff(lines[..n], narrow, wide);
      if forall k :: 0 <= k < n && wide(lines[..n][k]) ==> narrow(lines[..n][k]) {
        forall k | 0 <= k < n && wide(lines[k]) ensures narrow(lines[k]) { assert lines[..n][k] == lines[k]; }
      } else {
        var k :| 0 <= k < n && wide(lines[..n][k]) && !narrow(lines[..n][k]);
        assert lines[k] == lines[..n][k];
      }
    }
  }

  /** Only the hunks are counted. */
  lemma HeadIsNotCounted(d: FileDiff)
    requires WellFormed(d)
    ensures FileOf(Lines(d)).additions == Tally(d.hunks, CountsAsAdded)
    ensures FileOf(Lines(d)).deletions == Tally(d.hunks, CountsAsDeleted)
  {
    var rest := d.head[1..];
    assert Lines(d)[1..] == rest + d.hunks;
    forall k | 0 <= k < |rest| ensures !CountsAsAdded(rest[k]) && !CountsAsDeleted(rest[k]) {
      assert rest[k] == d.head[k + 1];
      ShorterPrefix(rest[k], "+++ ", "+++");
      ShorterPrefix(rest[k], "--- ", "---");
    }
    NothingTallied(rest, CountsAsAdded);
    NothingTallied(rest, CountsAsDeleted);
    TallyConcat(rest, d.hunks, CountsAsAdded);
    TallyConcat(rest, d.hunks, CountsAsDeleted);
  }

  lemma ShorterPrefix(line: string, longer: string, shorter: string)
    requires |shorter| <= |longer| && longer[..|shorter|] == shorter
    ensures StartsWith(line, longer) ==> StartsWith(line, shorter)
  {
    if StartsWith(line, longer) {
      assert line[..|shorter|] == line[..|longer|][..|shorter|];
    }
  }

  lemma MarkedLine(line: string, mark: char)
    ensures StartsWith(line, [mark, mark, mark])
       <==> StartsWith(line, [mark]) && StartsWith(line[1..], [mark, mark])
  {
    if StartsWith(line, [mark, mark, mark]) {
      assert line[0] == mark && line[1] == mark && line[2] == mark;
      assert line[1..][..2] == [mark, mark];
    }
    if StartsWith(line, [mark]) && StartsWith(line[1..], [mark, mark]) {
      assert line[1] == line[1..][..2][0] && line[2] == line[1..][..2][1];
      assert line[..3] == [mark, mark, mark];
    }
  }

  /** The additions of a file are the lines its diff adds exactly when no added text begins with two plus signs. */
  lemma AdditionsExactIff(d: FileDiff)
    requires WellFormed(d)
    ensures FileOf(Lines(d)).additions == Tally(d.hunks, IsAdded)
       <==> forall k :: 0 <= k < |d.hunks| && IsAdded(d.hunks[k]) ==> !StartsWith(d.hunks[k][1..], "++")
  {
    HeadIsNotCounted(d);
    TallyEqualIff(d.hunks, CountsAsAdded, IsAdded);
    forall k | 0 <= k < |d.hunks| && IsAdded(d.hunks[k])
      ensures CountsAsAdded(d.hunks[k]) <==> !StartsWith(d.hunks[k][1..], "++") {
      MarkedLine(d.hunks[k], '+');
    }
  }

  /** The deletions likewise: a removed line whose text begins with two hyphens, a comment in SQL or Lua, is missed. */
  lemma DeletionsExactIff(d: FileDiff)
    requires WellFormed(d)
    ensures FileOf(Lines(d)).deletions == Tally(d.hunks, IsRemoved)
       <==> forall k :: 0 <= k < |d.hunks| && IsRemoved(d.hunks[k]) ==> !StartsWith(d.hunks[k][1..], "--")
  {
    HeadIsNotCounted(d);
    TallyEqualIff(d.hunks, CountsAsDeleted, IsRemoved);
    forall k | 0 <= k < |d.hunks| && IsRemoved(d.hunks[k])
      ensures CountsAsDeleted(d.hunks[k]) <==> !StartsWith(d.hunks[k][1..], "--") {
      MarkedLine(d.hunks[k], '-');
    }
  }

  /** Line k is the last added line whose text begins `++ b/`. */
  predicate LastPathText(hunks: seq<string>, k: nat) {
    && k < |hunks| && IsPathText(hunks[k])
    && forall j :: k < j < |hunks| ==> !IsPathText(hunks[j])
  }

  predicate IsPathText(line: string) {
    IsAdded(line) && StartsWith(line[1..], "++ b/")
  }

  lemma PathText(line: string)
    ensures StartsWith(line, NEW_PATH) <==> IsPathText(line)
    ensures IsPathText(line) ==> line[|NEW_PATH|..] == line[1..][|"++ b/"|..]
  {
    if StartsWith(line, NEW_PATH) {
      assert line[..|NEW_PATH|][..1] == "+" && line[..1] == line[..|NEW_PATH|][..1];
      assert line[1..][..5] == line[..|NEW_PATH|][1..] == "++ b/";
    }
    if IsPathText(line) {
      assert line == "+" + line[1..];
      assert line[..|NEW_PATH|] == "+" + line[1..][..5] == NEW_PATH;
    }
  }

  lemma {:induction false} LastSaidInHunks<T>(d: FileDiff, says: string -> Option<T>)
    requires d.head != []
    ensures (forall k :: 0 <= k < |d.hunks| ==> says(d.hunks[k]).None?) ==>
              LastSaid(Lines(d), says) == LastSaid(d.head, says)
    decreases |d.hunks|
  {
    var section := Lines(d);
    if d.hunks == [] {
      assert section == d.head;
    } else {
      var n := |d.hunks| - 1;
      var shorter := FileDiff(d.head, d.hunks[..n]);
      LastSaidInHunks(shorter, says);
      assert section[..|section| - 1] == Lines(shorter);
      assert section[|section| - 1] == d.hunks[n];
    }
  }

  /** Reading the hunks leaves the status and the former name to the head. */
  lemma HunksKeepStatus(d: FileDiff)
    requires WellFormed(d)
    ensures FileOf(Lines(d)).status == FileOf(d.head).status && FileOf(Lines(d)).previous == FileOf(d.head).previous
  {
    forall k | 0 <= k < |d.hunks| ensures StatusBy(d.hunks[k]).None? && FormerNameBy(d.hunks[k]).None? {
      HunkLineFacts(d.hunks[k]);
    }
    LastSaidInHunks(d, StatusBy);
    LastSaidInHunks(d, FormerNameBy);
    LastLineWins(Lines(d));
    LastLineWins(d.head);
  }

  lemma {:induction false} LastPathExists(hunks: seq<string>)
    ensures (exists k :: 0 <= k < |hunks| && IsPathText(hunks[k])) ==> exists k: nat :: LastPathText(hunks, k)
    decreases |hunks|
  {
    if hunks != [] {
      var n := |hunks| - 1;
      if IsPathText(hunks[n]) {
        assert LastPathText(hunks, n);
      } else if k :| 0 <= k < |hunks| && IsPathText(hunks[k]) {
        assert hunks[..n][k] == hunks[k];
        LastPathExists(hunks[..n]);
        var l: nat :| LastPathText(hunks[..n], l);
        assert forall j :: l < j < n ==> hunks[..n][j] == hunks[j];
        assert LastPathText(hunks, l);
      }
    }
  }

  /** The last added text that begins `++ b/` names the file; without one its head does. */
  lemma NameFromHunks(d: FileDiff)
    requires WellFormed(d)
    ensures (forall k: nat :: !LastPathText(d.hunks, k)) ==> FileOf(Lines(d)).filename == FileOf(d.head).filename
    ensures forall k: nat :: LastPathText(d.hunks, k) ==>
              FileOf(Lines(d)).filename == d.hunks[k][1..][|"++ b/"|..]
  {
    var section := Lines(d);
    LastLineWins(section);
    LastLineWins(d.head);
    forall k | 0 <= k < |d.hunks| ensures NamedBy(d.hunks[k]).Some? <==> IsPathText(d.hunks[k]) {
      HunkLineFacts(d.hunks[k]);
      PathText(d.hunks[k]);
    }
    LastPathExists(d.hunks);
    if k: nat :| LastPathText(d.hunks, k) {
      var at := |d.head| + k;
      assert section[at] == d.hunks[k];
      forall j | at < j < |section| ensures NamedBy(section[j]).None? { assert section[j] == d.hunks[j - |d.head|]; }
      LastSaidIs(section, NamedBy, at);
      HunkLineFacts(d.hunks[k]);
      PathText(d.hunks[k]);
      assert forall l: nat :: LastPathText(d.hunks, l) ==> l == k;
    } else {
      LastSaidInHunks(d, NamedBy);
    }
  }

  /**
  The file keeps the name its head gives it exactly when no added text begins `++ b/`, or the last such
  text goes on with that same name.
  */
  lemma NameExactIff(d: FileDiff)
    requires WellFormed(d)
    ensures FileOf(Lines(d)).filename == FileOf(d.head).filename
       <==> forall k: nat :: LastPathText(d.hunks, k) ==> d.hunks[k][1..][|"++ b/"|..] == FileOf(d.head).filename
  {
    NameFromHunks(d);
  }

  // ---------------------------------------------------------------- the name and the path

  /** A path, and how git writes it: as it stands, or in quotes with some characters escaped. */
  datatype PathName = Plain(path: string) | Quoted(path: string, escaped: string)

  predicate Escapes(name: PathName) {
    name.Quoted? ==> |name.escaped| >= |name.path|
  }

  function Labelled(prefix: string, name: PathName): string {
    match name
    case Plain(path) => prefix + path
    case Quoted(_, escaped) => "\"" + prefix + (escaped + "\"")
  }

  function Heading(former: PathName, name: PathName): string {
    HEADER + (Labelled("a/", former) + (" " + Labelled("b/", name)))
  }

  /** The line of the new path ends with a tab when the path has a space. */
  function NewPathLine(name: PathName): string {
    "+++ " + (Labelled("b/", name) + if ' ' in name.path then "\t" else "")
  }

  /** The lines that say a name, in order. */
  function Naming(lines: seq<string>): seq<string> {
    if lines == [] then []
    else
      var n := |lines| - 1;
      Naming(lines[..n]) + if NamedBy(lines[n]).Some? then [lines[n]] else []
  }

  /**
  What git writes about a file: its header, the new path of a rename, and, if the file has any text to
  compare, the line of its new path.  Only a rename has two paths.
  */
  predicate HeadOf(head: seq<string>, former: PathName, name: PathName, renamed: bool, compared: bool) {
    && head != [] && head[0] == Heading(former, name) && (!renamed ==> former == name)
    && Naming(head[1..])
       == (if renamed then ["rename to " + Labelled("", name)] else [])
          + (if compared && name.Plain? then [NewPathLine(name)] else [])
  }

  predicate MarkAt(s: string, k: nat) {
    k + 3 <= |s| && s[k] == ' ' && s[k + 1] == 'b' && s[k + 2] == '/'
  }

  predicate HasMark(s: string) {
    exists k: nat :: k < |s| && MarkAt(s, k)
  }

  lemma MarkIsPrefix(s: string)
    ensures StartsWith(s, PATH_MARK) <==> MarkAt(s, 0)
  {
    if MarkAt(s, 0) { assert s[..3] == PATH_MARK; }
    if StartsWith(s, PATH_MARK) { assert s[..3][0] == ' ' && s[..3][1] == 'b' && s[..3][2] == '/'; }
  }

  /** What follows the first mark, and nothing when there is none. */
  lemma {:induction false} FirstMark(s: string)
    ensures !HasMark(s) ==> HeaderName(s) == ""
    ensures forall k: nat :: MarkAt(s, k) && (forall j: nat :: j < k ==> !MarkAt(s, j)) ==> HeaderName(s) == s[k + 3..]
    ensures forall k: nat :: MarkAt(s, k) ==> |HeaderName(s)| >= |s| - k - 3
    decreases |s|
  {
    MarkIsPrefix(s);
    if MarkAt(s, 0) {
      assert HasMark(s) && HeaderName(s) == s[3..];
    } else if s != "" {
      FirstMark(s[1..]);
      forall k: nat ensures MarkAt(s[1..], k) <==> MarkAt(s, k + 1) { }
      forall k: nat | MarkAt(s, k) ensures k > 0 && MarkAt(s[1..], k - 1) { }
    }
  }

  /** In a text, some other text from a place on. */
  predicate HoldsAt(s: string, k: nat, part: string) {
    k + |part| <= |s| && forall i: nat :: i < |part| ==> s[k + i] == part[i]
  }

  /** A mark in the text is one in its part, when nothing around the part helps to make one. */
  lemma MarkInPart(s: string, k: nat, part: string, j: nat)
    requires HoldsAt(s, k, part) && k <= j < k + |part| && MarkAt(s, j)
    requires k + |part| < |s| && s[k + |part|] != '/' && s[k + |part|] != 'b'
    ensures MarkAt(part, j - k)
  {
    var i := j - k;
    assert s[k + i] == part[i];
    if i + 1 < |part| {
      assert s[k + (i + 1)] == part[i + 1];
      if i + 2 < |part| { assert s[k + (i + 2)] == part[i + 2]; }
    }
  }

  lemma PartMark(s: string, k: nat, part: string, j: nat)
    requires HoldsAt(s, k, part) && MarkAt(part, j)
    ensures MarkAt(s, k + j)
  {
    assert s[k + j] == part[j] && s[k + (j + 1)] == part[j + 1] && s[k + (j + 2)] == part[j + 2];
  }

  lemma PartsHold(a: string, b: string, c: string, d: string)
    ensures var s := a + (b + (c + d));
            && |s| == |a| + |b| + |c| + |d|
            && HoldsAt(s, 0, a) && HoldsAt(s, |a|, b) && HoldsAt(s, |a| + |b|, c) && HoldsAt(s, |a| + |b| + |c|, d)
            && s[|a| + |b| + |c|..] == d
  {
  }

  const OPENING := "diff --git a/"
  const QUOTED_OPENING := "diff --git \"a/"
  const QUOTED_MARK := "\" \"b/"

  lemma PlainHeadingText(path: string)
    ensures Heading(Plain(path), Plain(path)) == OPENING + (path + (PATH_MARK + path))
  {
    assert OPENING == HEADER + "a/" && PATH_MARK == " " + "b/";
    Associative(" ", "b/", path);
    Associative("a/", path, PATH_MARK + path);
    Associative(HEADER, "a/", path + (PATH_MARK + path));
  }

  lemma QuotedHeadingText(name: PathName)
    requires name.Quoted?
    ensures Heading(name, name) == QUOTED_OPENING + (name.escaped + (QUOTED_MARK + (name.escaped + "\"")))
  {
    var q, e := "\"", name.escaped;
    assert QUOTED_OPENING == HEADER + (q + "a/") && QUOTED_MARK == q + (" " + (q + "b/"));
    Associative(" ", q + "b/", e + q);
    Associative(q, " " + (q + "b/"), e + q);
    Associative(e, q, " " + (q + "b/" + (e + q)));
    Associative(q + "a/", e + q, " " + (q + "b/" + (e + q)));
    Associative(HEADER, q + "a/", e + (QUOTED_MARK + (e + q)));
  }

  /** No mark begins in the opening of a header. */
  lemma NoMarkInOpening(s: string, opening: string, j: nat)
    requires opening in {OPENING, QUOTED_OPENING} && HoldsAt(s, 0, opening) && j < |opening|
    ensures !MarkAt(s, j)
  {
    assert s[0 + j] == opening[j];
    if j + 1 < |opening| { assert s[0 + (j + 1)] == opening[j + 1]; }
  }

  lemma NoMarkInQuotes(s: string, k: nat, i: nat)
    requires HoldsAt(s, k, QUOTED_MARK) && i < |QUOTED_MARK|
    ensures !MarkAt(s, k + i)
  {
    assert s[k + i] == QUOTED_MARK[i];
    if i + 1 < |QUOTED_MARK| { assert s[k + (i + 1)] == QUOTED_MARK[i + 1]; }
  }

  /** Without a rename, a plain header gives the path exactly when the path does not hold the mark. */
  lemma PlainHeading(path: string)
    ensures HeaderName(Heading(Plain(path), Plain(path))) == path <==> !HasMark(path)
  {
    PlainHeadingText(path);
    PartsHold(OPENING, path, PATH_MARK, path);
    PlainHeadingIff(Heading(Plain(path), Plain(path)), path);
  }

  lemma PlainHeadingIff(s: string, path: string)
    requires |s| == 16 + 2 * |path| && HoldsAt(s, 0, OPENING) && HoldsAt(s, 13, path)
    requires HoldsAt(s, 13 + |path|, PATH_MARK) && s[16 + |path|..] == path
    ensures HeaderName(s) == path <==> !HasMark(path)
  {
    FirstMark(s);
    if HasMark(path) {
      var i: nat :| MarkAt(path, i);
      PartMark(s, 13, path, i);
    } else {
      PartMark(s, 13 + |path|, PATH_MARK, 0);
      forall j: nat | j < 13 + |path| ensures !MarkAt(s, j) { NoEarlierMark(s, path, j); }
    }
  }

  lemma NoEarlierMark(s: string, path: string, j: nat)
    requires HoldsAt(s, 0, OPENING) && HoldsAt(s, 13, path) && HoldsAt(s, 13 + |path|, PATH_MARK)
    requires j < 13 + |path|
    ensures MarkAt(s, j) ==> HasMark(path)
  {
    assert s[13 + |path| + 0] == PATH_MARK[0] == ' ';
    if j < 13 {
      NoMarkInOpening(s, OPENING, j);
    } else if MarkAt(s, j) {
      MarkInPart(s, 13, path, j);
    }
  }

  /** A quoted header never does. */
  lemma QuotedHeading(name: PathName)
    requires name.Quoted? && Escapes(name) && name.path != ""
    ensures HeaderName(Heading(name, name)) != name.path
  {
    var e := name.escaped;
    QuotedHeadingText(name);
    PartsHold(QUOTED_OPENING, e, QUOTED_MARK, e + "\"");
    assert HoldsAt(Heading(name, name), 19 + |e|, e + "\"");
    QuotedHeadingIsLonger(Heading(name, name), e);
  }

  lemma QuotedHeadingIsLonger(s: string, e: string)
    requires |s| == 20 + 2 * |e| && HoldsAt(s, 0, QUOTED_OPENING) && HoldsAt(s, 14, e)
    requires HoldsAt(s, 14 + |e|, QUOTED_MARK) && HoldsAt(s, 19 + |e|, e + "\"")
    ensures HeaderName(s) == "" || |HeaderName(s)| > |e|
  {
    FirstMark(s);
    if HasMark(e) {
      var i: nat :| MarkAt(e, i);
      PartMark(s, 14, e, i);
    } else {
      forall j: nat ensures !MarkAt(s, j) { NoQuotedMark(s, e, j); }
    }
  }

  lemma NoQuotedMark(s: string, e: string, j: nat)
    requires |s| == 20 + 2 * |e| && HoldsAt(s, 0, QUOTED_OPENING) && HoldsAt(s, 14, e)
    requires HoldsAt(s, 14 + |e|, QUOTED_MARK) && HoldsAt(s, 19 + |e|, e + "\"")
    ensures MarkAt(s, j) ==> HasMark(e)
  {
    var n := |e|;
    assert s[14 + n + 0] == QUOTED_MARK[0] == '\"';
    assert s[19 + n + n] == (e + "\"")[n] == '\"';
    if j < 14 {
      NoMarkInOpening(s, QUOTED_OPENING, j);
    } else if j < 14 + n {
      if MarkAt(s, j) { MarkInPart(s, 14, e, j); }
    } else if j < 19 + n {
      NoMarkInQuotes(s, 14 + n, j - 14 - n);
    } else if MarkAt(s, j) {
      assert HoldsAt(s, 19 + n, e) by {
        forall i: nat | i < n ensures s[19 + n + i] == e[i] { assert (e + "\"")[i] == e[i]; }
      }
      MarkInPart(s, 19 + n, e, j);
    }
  }

  lemma {:induction false} LastNaming(section: seq<string>)
    requires section != []
    ensures var naming := Naming(section[1..]);
            LastSaid(section, NamedBy) == if naming == [] then None else NamedBy(naming[|naming| - 1])
    decreases |section|
  {
    if |section| > 1 {
      var n := |section| - 1;
      LastNaming(section[..n]);
      assert section[..n][1..] == section[1..][..n - 1];
    }
  }

  lemma SaidNames(name: PathName)
    ensures NamedBy(RENAME_TO + Labelled("", name)) == Some(Labelled("", name))
    ensures name.Plain? ==> NamedBy(NewPathLine(name)) == Some(name.path + if ' ' in name.path then "\t" else "")
  {
    var renaming, naming := RENAME_TO + Labelled("", name), NewPathLine(name);
    assert renaming[..|RENAME_TO|] == RENAME_TO && renaming[|RENAME_TO|..] == Labelled("", name);
    if name.Plain? {
      var tab := if ' ' in name.path then "\t" else "";
      assert naming == NEW_PATH + (name.path + tab);
      assert naming[..|NEW_PATH|] == NEW_PATH && naming[|NEW_PATH|..] == name.path + tab;
      assert naming[0] == '+' && RENAME_TO[0] == 'r';
    }
  }

  /** What can be told of the path: whether its record is named after it. */
  predicate Survives(name: PathName, renamed: bool, compared: bool) {
    name.Plain? && if compared then ' ' !in name.path else renamed || !HasMark(name.path)
  }

  /**
  The head names the file after its path exactly when the path is written plain and: has no space, if the
  line of the new path is there; else does not hold ` b/`, unless the file was renamed.
  */
  lemma HeadNameIsPathIff(head: seq<string>, former: PathName, name: PathName, renamed: bool, compared: bool)
    requires HeadOf(head, former, name, renamed, compared) && Escapes(name) && name.path != ""
    ensures FileOf(head).filename == name.path <==> Survives(name, renamed, compared)
  {
    LastLineWins(head);
    LastNaming(head);
    SaidNames(name);
    if name.Plain? {
      PlainHeading(name.path);
    } else {
      QuotedHeading(name);
    }
  }

  /**
  The record of a file is named after its path exactly when the last added text that begins `++ b/` goes
  on with that path, or there is none and the head names it so.
  */
  lemma RecordIsNamedAfterPathIff(d: FileDiff, former: PathName, name: PathName, renamed: bool, compared: bool)
    requires WellFormed(d) && HeadOf(d.head, former, name, renamed, compared) && Escapes(name) && name.path != ""
    ensures FileOf(Lines(d)).filename == name.path
       <==> if exists k: nat :: LastPathText(d.hunks, k)
            then exists k: nat :: LastPathText(d.hunks, k) && d.hunks[k][1..][|"++ b/"|..] == name.path
            else Survives(name, renamed, compared)
  {
    HeadNameIsPathIff(d.head, former, name, renamed, compared);
    NameFromHunks(d);
  }

  // ---------------------------------------------------------------- the status and the former name

  /** What a head says happened to its file. */
  datatype Change = Edited | Created(mode: string) | Dropped(mode: string) | MovedFrom(former: PathName)

  /** The lines that say so, in order. */
  function Telling(lines: seq<string>): seq<string> {
    if lines == [] then []
    else
      var n := |lines| - 1;
      Telling(lines[..n]) + if StatusBy(lines[n]).Some? then [lines[n]] else []
  }

  predicate HeadTells(head: seq<string>, change: Change) {
    && head != []
    && Telling(head[1..])
       == match change
          case Edited => []
          case Created(mode) => ["new file mode " + mode]
          case Dropped(mode) => ["deleted file mode " + mode]
          case MovedFrom(former) => ["rename from " + Labelled("", former)]
  }

  lemma {:induction false} LastTelling(section: seq<string>)
    requires section != []
    ensures LastSaid(section, StatusBy) == LastSaid([section[0]] + Telling(section[1..]), StatusBy)
    ensures LastSaid(section, FormerNameBy) == LastSaid([section[0]] + Telling(section[1..]), FormerNameBy)
    decreases |section|
  {
    if |section| == 1 {
      assert [section[0]] + Telling(section[1..]) == section;
    } else {
      var n := |section| - 1;
      LastTelling(section[..n]);
      var rest := section[1..];
      assert section[..n][1..] == rest[..n - 1] && rest[n - 1] == section[n];
      var before := [section[0]] + Telling(rest[..n - 1]);
      if StatusBy(section[n]).Some? {
        assert [section[0]] + Telling(rest) == before + [section[n]];
        assert (before + [section[n]])[..|before|] == before;
      } else {
        assert [section[0]] + Telling(rest) == before;
      }
    }
  }

  lemma ToldBy(mode: string, former: PathName)
    ensures StatusBy("new file mode " + mode) == Some(Added) && FormerNameBy("new file mode " + mode) == None
    ensures StatusBy("deleted file mode " + mode) == Some(Deleted) && FormerNameBy("deleted file mode " + mode) == None
    ensures var line := "rename from " + Labelled("", former);
            StatusBy(line) == Some(Renamed) && FormerNameBy(line) == Some(Labelled("", former))
  {
    var created, dropped, moved := "new file mode " + mode, "deleted file mode " + mode,
        "rename from " + Labelled("", former);
    assert created[..8] == "new file" && created[0] == 'n';
    assert dropped[..12] == "deleted file" && dropped[0] == 'd';
    assert moved[..12] == "rename from " && moved[12..] == Labelled("", former) && moved[0] == 'r';
    BeginsLike(created, DELETED_FILE);
    BeginsLike(created, RENAME_FROM);
    BeginsLike(dropped, NEW_FILE);
    BeginsLike(dropped, RENAME_FROM);
    BeginsLike(moved, NEW_FILE);
    BeginsLike(moved, DELETED_FILE);
  }

  /** The record of a file has the status its head tells, and the former path, as it is written, exactly if it moved. */
  lemma RecordHasItsStatus(d: FileDiff, change: Change)
    requires WellFormed(d) && HeadTells(d.head, change)
    ensures FileOf(Lines(d)).status == match change
                                       case Edited => Modified
                                       case Created(_) => Added
                                       case Dropped(_) => Deleted
                                       case MovedFrom(_) => Renamed
    ensures FileOf(Lines(d)).previous == if change.MovedFrom? then Some(Labelled("", change.former)) else None
    ensures FileOf(Lines(d)).changes == FileOf(Lines(d)).additions + FileOf(Lines(d)).deletions
  {
    HunksKeepStatus(d);
    LastLineWins(d.head);
    LastTelling(d.head);
    var told := [d.head[0]] + Telling(d.head[1..]);
    if !change.Edited? {
      ToldBy(if change.MovedFrom? then "" else change.mode, if change.MovedFrom? then change.former else Plain(""));
      assert |told| == 2 && told[..1] == [d.head[0]];
    } else {
      assert told == [d.head[0]];
    }
  }

  predicate AllWellFormed(diffs: seq<FileDiff>) {
    forall k :: 0 <= k < |diffs| ==> WellFormed(diffs[k])
  }

  /** The record of each file of a diff. */
  function Records(diffs: seq<FileDiff>): seq<FileChange>
    requires AllWellFormed(diffs)
  {
    if diffs == [] then [] else Records(diffs[..|diffs| - 1]) + [FileOf(Lines(diffs[|diffs| - 1]))]
  }

  lemma {:induction false} RecordsAreFiles(diffs: seq<FileDiff>)
    requires AllWellFormed(diffs)
    ensures Started(LinesOf(diffs)) && FilesOf(LinesOf(diffs)) == Records(diffs)
    decreases |diffs|
  {
    if diffs != [] {
      RecordsAreFiles(diffs[..|diffs| - 1]);
      assert LinesOf(diffs)[..|diffs| - 1] == LinesOf(diffs[..|diffs| - 1]);
      FilesOneMore(LinesOf(diffs));
    }
  }

  /** A well-formed diff comes back as its files, in order, each read as the lemmas above describe. */
  lemma DiffComesBack(output: string, diffs: seq<FileDiff>)
    requires AllWellFormed(diffs) && SplitLines(output) == AllLines(diffs)
    ensures FilesOf(Sections(SplitLines(output))) == Records(diffs)
  {
    SectionsAreFiles(diffs);
    RecordsAreFiles(diffs);
  }

  /** A diff that removes a comment and adds an operator. */
  const COMMENTED := FileDiff(["diff --git a/q.sql b/q.sql"], ["--- total", "+++ b/c"])

  lemma CommentedIsWellFormed()
    ensures WellFormed(COMMENTED)
    ensures IsRemoved("--- total") && !CountsAsDeleted("--- total") && !IsAdded("--- total")
    ensures IsPathText("+++ b/c") && !CountsAsAdded("+++ b/c") && !IsRemoved("+++ b/c")
    ensures "+++ b/c"[1..][|"++ b/"|..] == "c"
  {
    var head, removed, added := "diff --git a/q.sql b/q.sql", "--- total", "+++ b/c";
    assert head[..|HEADER|] == HEADER;
    assert head[0] == 'd' && removed[..1] == "-" && added[..1] == "+" && removed[0] != '+' && added[0] != '-';
    assert removed[..3] == "---" && added[..3] == "+++" && added[1..][..5] == "++ b/";
  }

  /**
  Both misreadings occur: of a removed comment and an added operator, neither counted, the second
  renaming the file.
  */
  lemma CommentsAreMisread()
    ensures WellFormed(COMMENTED)
    ensures Tally(COMMENTED.hunks, IsRemoved) == 1 && FileOf(Lines(COMMENTED)).deletions == 0
    ensures Tally(COMMENTED.hunks, IsAdded) == 1 && FileOf(Lines(COMMENTED)).additions == 0
    ensures FileOf(Lines(COMMENTED)).filename == "c"
  {
    var removed, added := COMMENTED.hunks[0], COMMENTED.hunks[1];
    CommentedIsWellFormed();
    HeadIsNotCounted(COMMENTED);
    assert COMMENTED.hunks[..1] == [removed] && [removed][..0] == [];
    assert LastPathText(COMMENTED.hunks, 1);
    NameFromHunks(COMMENTED);
  }
}
