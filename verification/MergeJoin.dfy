/** Pairing the file diffs of two patches, for a diff of the diffs. */
module MergeJoin {
  import opened Wrappers

  datatype FileDiff = FileDiff(filename: string, text: string)

  // ---------------------------------------------- a patch as file diffs

  const HEADER := "diff --git "
  const DEV_NULL := "/dev/null"

  predicate IsHeader(line: string) {
    HEADER <= line
  }

  predicate IsSpace(c: char) {
    c in {'\t', '\n', '\U{0B}', '\U{0C}', '\r', ' ', '\U{A0}', '\U{1680}', '\U{2028}', '\U{2029}', '\U{202F}',
          '\U{205F}', '\U{3000}', '\U{FEFF}'} || '\U{2000}' <= c <= '\U{200A}'
  }

  function Trim(s: string): string {
    if s != "" && IsSpace(s[0]) then Trim(s[1..])
    else if s != "" && IsSpace(s[|s| - 1]) then Trim(s[..|s| - 1])
    else s
  }

  function StripGitPrefix(path: string): string {
    if "a/" <= path || "b/" <= path then path[2..] else path
  }

  /** The path on the first line with the mark, or the empty string. */
  function PathAt(mark: string, lines: seq<string>): string {
    if lines == [] then ""
    else if mark <= lines[0] then Trim(lines[0][|mark|..])
    else PathAt(mark, lines[1..])
  }

  /** The empty string where the source has none; both drop the file diff. */
  function FileDiffFilename(lines: seq<string>): string {
    var minusPath, plusPath := PathAt("--- ", lines), PathAt("+++ ", lines);
    if plusPath != "" && plusPath != DEV_NULL then StripGitPrefix(plusPath)
    else if minusPath != "" && minusPath != DEV_NULL then StripGitPrefix(minusPath)
    else ""
  }

  function Join(lines: seq<string>): string {
    if lines == [] then "" else lines[0] + "\n" + Join(lines[1..])
  }

  function Named(block: seq<string>): seq<FileDiff> {
    if FileDiffFilename(block) == "" then [] else [FileDiff(FileDiffFilename(block), Join(block))]
  }

  function AllNamed(blocks: seq<seq<string>>): seq<FileDiff> {
    if blocks == [] then [] else AllNamed(blocks[..|blocks| - 1]) + Named(blocks[|blocks| - 1])
  }

  /** The lines from the first header on, cut before every header. */
  function Blocks(lines: seq<string>): seq<seq<string>> {
    if lines == [] then []
    else
      var before, line := Blocks(lines[..|lines| - 1]), lines[|lines| - 1];
      if IsHeader(line) then before + [[line]]
      else if before == [] then []
      else before[..|before| - 1] + [before[|before| - 1] + [line]]
  }

  /** The file diffs of a patch. */
  function FileDiffs(lines: seq<string>): seq<FileDiff> {
    AllNamed(Blocks(lines))
  }

  method StreamPatchFileDiffs(lines: seq<string>) returns (diffs: seq<FileDiff>)
    ensures diffs == FileDiffs(lines)
  {
    diffs := [];
    var currentBlock: seq<string> := [];
    for i := 0 to |lines|
      invariant currentBlock == [] ==> Blocks(lines[..i]) == [] && diffs == []
      invariant currentBlock != [] ==>
                  && Blocks(lines[..i]) != []
                  && currentBlock == Blocks(lines[..i])[|Blocks(lines[..i])| - 1]
                  && diffs == AllNamed(Blocks(lines[..i])[..|Blocks(lines[..i])| - 1])
    {
      assert lines[..i + 1][..i] == lines[..i];
      ghost var before := Blocks(lines[..i]);
      if IsHeader(lines[i]) {
        if |currentBlock| > 0 {
          diffs := diffs + Named(currentBlock);
        }
        currentBlock := [lines[i]];
        assert Blocks(lines[..i + 1])[..|before|] == before;
        continue;
      }
      if |currentBlock| > 0 {
        currentBlock := currentBlock + [lines[i]];
        assert Blocks(lines[..i + 1])[..|before| - 1] == before[..|before| - 1];
      }
    }
    assert lines[..|lines|] == lines;
    if |currentBlock| > 0 {
      diffs := diffs + Named(currentBlock);
    }
  }

  function Flatten(blocks: seq<seq<string>>): seq<string> {
    if blocks == [] then [] else Flatten(blocks[..|blocks| - 1]) + blocks[|blocks| - 1]
  }

  function Preamble(lines: seq<string>): seq<string> {
    if lines == [] || IsHeader(lines[0]) then [] else [lines[0]] + Preamble(lines[1..])
  }

  predicate IsBlock(block: seq<string>) {
    block != [] && forall k | 0 <= k < |block| :: IsHeader(block[k]) <==> k == 0
  }

  predicate HasHeader(lines: seq<string>) {
    exists k :: 0 <= k < |lines| && IsHeader(lines[k])
  }

  lemma {:induction false} PreambleGrows(lines: seq<string>, line: string)
    ensures HasHeader(lines) ==> Preamble(lines + [line]) == Preamble(lines)
    ensures !HasHeader(lines) ==> Preamble(lines) == lines
    ensures !HasHeader(lines) ==> Preamble(lines + [line]) == if IsHeader(line) then lines else lines + [line]
    decreases |lines|
  {
    if lines == [] {
      assert ([] + [line])[1..] == [];
    } else if IsHeader(lines[0]) {
    } else {
      assert (lines + [line])[1..] == lines[1..] + [line];
      PreambleGrows(lines[1..], line);
      if HasHeader(lines) {
        var k :| 0 <= k < |lines| && IsHeader(lines[k]);
        assert IsHeader(lines[1..][k - 1]);
      }
    }
  }

  lemma FlattenSnoc(blocks: seq<seq<string>>, block: seq<string>)
    ensures Flatten(blocks + [block]) == Flatten(blocks) + block
  {
    assert (blocks + [block])[..|blocks|] == blocks;
  }

  lemma FlattenGrows(blocks: seq<seq<string>>, line: string)
    requires blocks != []
    ensures Flatten(blocks[..|blocks| - 1] + [blocks[|blocks| - 1] + [line]]) == Flatten(blocks) + [line]
  {
    var front, last := blocks[..|blocks| - 1], blocks[|blocks| - 1];
    FlattenSnoc(front, last + [line]);
    assert Flatten(front) + (last + [line]) == (Flatten(front) + last) + [line];
  }

  lemma HeaderSnoc(lines: seq<string>, line: string)
    ensures HasHeader(lines + [line]) <==> HasHeader(lines) || IsHeader(line)
  {
    if HasHeader(lines) {
      var k :| 0 <= k < |lines| && IsHeader(lines[k]);
      assert IsHeader((lines + [line])[k]);
    }
    if IsHeader(line) {
      assert IsHeader((lines + [line])[|lines|]);
    }
  }

  lemma {:induction false} BlocksStart(lines: seq<string>)
    ensures Blocks(lines) != [] <==> HasHeader(lines)
    decreases |lines|
  {
    if lines == [] {
    } else {
      var init, line := lines[..|lines| - 1], lines[|lines| - 1];
      assert lines == init + [line];
      BlocksStart(init);
      HeaderSnoc(init, line);
    }
  }

  /** Every block is one header and what follows it. */
  lemma {:induction false} BlocksAreBlocks(lines: seq<string>)
    ensures forall b | b in Blocks(lines) :: IsBlock(b)
    decreases |lines|
  {
    if lines == [] {
    } else {
      var before := Blocks(lines[..|lines| - 1]);
      BlocksAreBlocks(lines[..|lines| - 1]);
      assert before != [] ==> before[|before| - 1] in before;
      assert forall b | b in before :: IsBlock(b);
    }
  }

  lemma FlatSnoc(lines: seq<string>, line: string)
    ensures Flatten(Blocks(lines + [line])) ==
            if IsHeader(line) || Blocks(lines) != [] then Flatten(Blocks(lines)) + [line] else []
  {
    assert (lines + [line])[..|lines|] == lines;
    if IsHeader(line) {
      FlattenSnoc(Blocks(lines), [line]);
    } else if Blocks(lines) != [] {
      FlattenGrows(Blocks(lines), line);
    }
  }

  lemma PartitionSnoc(lines: seq<string>, line: string)
    requires lines == Preamble(lines) + Flatten(Blocks(lines))
    ensures lines + [line] == Preamble(lines + [line]) + Flatten(Blocks(lines + [line]))
  {
    BlocksStart(lines);
    PreambleGrows(lines, line);
    FlatSnoc(lines, line);
    if IsHeader(line) || Blocks(lines) != [] {
      assert Preamble(lines + [line]) == Preamble(lines);
      Regroup(Preamble(lines), Flatten(Blocks(lines)), [line]);
    } else {
      assert Preamble(lines + [line]) == lines + [line];
    }
  }

  lemma Regroup<T>(a: seq<T>, b: seq<T>, c: seq<T>)
    ensures (a + b) + c == a + (b + c)
  {
  }

  /** No line from the first header on is lost or moved. */
  lemma {:induction false} BlocksPartition(lines: seq<string>)
    ensures lines == Preamble(lines) + Flatten(Blocks(lines))
    decreases |lines|
  {
    if lines == [] {
    } else {
      var init, line := lines[..|lines| - 1], lines[|lines| - 1];
      assert lines == init + [line];
      BlocksPartition(init);
      PartitionSnoc(init, line);
    }
  }

  /** The lines of a text, each of which ends in a newline. */
  function LinesOf(text: string): seq<string> {
    if text == "" then []
    else
      var rest := LinesOf(text[1..]);
      if text[0] == '\n' then [""] + rest
      else if rest == [] then [[text[0]]]
      else [[text[0]] + rest[0]] + rest[1..]
  }

  lemma {:induction false} LineFirst(line: string, text: string)
    requires '\n' !in line
    ensures LinesOf(line + "\n" + text) == [line] + LinesOf(text)
    decreases |line|
  {
    var all := line + "\n" + text;
    if line == "" {
      assert all[1..] == text;
    } else {
      assert all[1..] == line[1..] + "\n" + text;
      LineFirst(line[1..], text);
      assert line == [line[0]] + line[1..];
    }
  }

  /** A file diff keeps its lines: they can be read back from its text. */
  lemma {:induction false} JoinKeepsLines(lines: seq<string>)
    requires forall i | 0 <= i < |lines| :: '\n' !in lines[i]
    ensures LinesOf(Join(lines)) == lines
    decreases |lines|
  {
    if lines == [] {
    } else {
      LineFirst(lines[0], Join(lines[1..]));
      JoinKeepsLines(lines[1..]);
      assert lines == [lines[0]] + lines[1..];
    }
  }

  // ---------------------------------------------- the names in a patch

  /** No line has any of the characters that end lines. */
  predicate AreLines(ends: set<char>, lines: seq<string>) {
    forall i, k | 0 <= i < |lines| && 0 <= k < |lines[i]| :: lines[i][k] !in ends
  }

  /** Headers can be written. */
  predicate CanWriteHeaders(ends: set<char>) {
    AreLines(ends, [HEADER, "+++ b/"])
  }

  /** What can name a file diff. */
  predicate Nameable(ends: set<char>, name: string) {
    name != "" && !IsSpace(name[|name| - 1]) && forall k | 0 <= k < |name| :: name[k] !in ends
  }

  /** `part` is cut out of `s`. */
  ghost predicate CutFrom(part: string, s: string) {
    forall k | 0 <= k < |part| :: part[k] in s
  }

  lemma {:induction false} TrimCuts(s: string)
    ensures CutFrom(Trim(s), s)
    ensures Trim(s) != "" ==> !IsSpace(Trim(s)[|Trim(s)| - 1])
    decreases |s|
  {
    if s != "" && IsSpace(s[0]) {
      TrimCuts(s[1..]);
    } else if s != "" && IsSpace(s[|s| - 1]) {
      TrimCuts(s[..|s| - 1]);
    }
  }

  lemma TrimmedIsNameable(ends: set<char>, line: string, mark: string)
    requires AreLines(ends, [line]) && mark <= line
    ensures Trim(line[|mark|..]) != "" ==> Nameable(ends, Trim(line[|mark|..]))
  {
    TrimCuts(line[|mark|..]);
    assert [line][0] == line;
  }

  lemma {:induction false} PathIsNameable(ends: set<char>, mark: string, lines: seq<string>)
    requires AreLines(ends, lines)
    ensures PathAt(mark, lines) != "" ==> Nameable(ends, PathAt(mark, lines))
    decreases |lines|
  {
    if lines == [] {
    } else if mark <= lines[0] {
      TrimmedIsNameable(ends, lines[0], mark);
    } else {
      PathIsNameable(ends, mark, lines[1..]);
    }
  }

  lemma StrippedIsNameable(ends: set<char>, path: string)
    requires Nameable(ends, path)
    ensures StripGitPrefix(path) != "" ==> Nameable(ends, StripGitPrefix(path))
  {
  }

  lemma FilenameIsNameable(ends: set<char>, block: seq<string>)
    requires AreLines(ends, block) && FileDiffFilename(block) != ""
    ensures Nameable(ends, FileDiffFilename(block))
  {
    PathIsNameable(ends, "--- ", block);
    PathIsNameable(ends, "+++ ", block);
    var minusPath, plusPath := PathAt("--- ", block), PathAt("+++ ", block);
    if plusPath != "" && plusPath != DEV_NULL {
      StrippedIsNameable(ends, plusPath);
    } else {
      StrippedIsNameable(ends, minusPath);
    }
  }

  /** No line has a path. */
  predicate NoPaths(lines: seq<string>) {
    forall i | 0 <= i < |lines| :: !("--- " <= lines[i]) && !("+++ " <= lines[i])
  }

  lemma {:induction false} FirstPath(mark: string, before: seq<string>, line: string, after: seq<string>)
    requires forall i | 0 <= i < |before| :: !(mark <= before[i])
    ensures mark <= line ==> PathAt(mark, before + [line] + after) == Trim(line[|mark|..])
    ensures !(mark <= line) ==> PathAt(mark, before + [line] + after) == PathAt(mark, after)
    decreases |before|
  {
    var all := before + [line] + after;
    if before == [] {
      assert all[0] == line && all[1..] == after;
    } else {
      assert all[0] == before[0] && all[1..] == before[1..] + [line] + after;
      FirstPath(mark, before[1..], line, after);
    }
  }

  lemma TrimmedPath(prefix: string, name: string)
    requires prefix != "" && !IsSpace(prefix[0]) && name != "" && !IsSpace(name[|name| - 1])
    ensures Trim(prefix + name) == prefix + name
  {
    assert (prefix + name)[0] == prefix[0] && (prefix + name)[|prefix + name| - 1] == name[|name| - 1];
  }

  /** The paths of a block are on the first lines with their marks. */
  lemma PathsOf(before: seq<string>, minus: string, plus: string, after: seq<string>)
    requires NoPaths(before)
    ensures
      var block := before + ["--- " + minus, "+++ " + plus] + after;
      PathAt("--- ", block) == Trim(minus) && PathAt("+++ ", block) == Trim(plus)
  {
    var first, second := "--- " + minus, "+++ " + plus;
    var block := before + [first, second] + after;
    assert first[4..] == minus && second[4..] == plus && first[0] == '-' && second[0] == '+';
    assert block == before + [first] + ([second] + after) && block == (before + [first]) + [second] + after;
    FirstPath("--- ", before, first, [second] + after);
    FirstPath("+++ ", before, first, [second] + after);
    FirstPath("+++ ", [], second, after);
    assert [] + [second] + after == [second] + after;
  }

  lemma FilenameOf(before: seq<string>, minus: string, plus: string, after: seq<string>)
    requires NoPaths(before)
    ensures
      var name := FileDiffFilename(before + ["--- " + minus, "+++ " + plus] + after);
      && (Trim(plus) != "" && Trim(plus) != DEV_NULL ==> name == StripGitPrefix(Trim(plus)))
      && (Trim(plus) == DEV_NULL && Trim(minus) != "" && Trim(minus) != DEV_NULL ==>
            name == StripGitPrefix(Trim(minus)))
      && (Trim(plus) == Trim(minus) == DEV_NULL ==> name == "")
  {
    PathsOf(before, minus, plus, after);
  }

  /** Which file a block is about: the one it leaves behind, without git's
      prefix, or for a deletion the one it takes away; without paths, none. */
  lemma FilenameIs(before: seq<string>, after: seq<string>, name: string, was: string)
    requires NoPaths(before) && name != "" && !IsSpace(name[|name| - 1]) && was != "" && !IsSpace(was[|was| - 1])
    ensures FileDiffFilename(before + ["--- a/" + was, "+++ b/" + name] + after) == name
    ensures FileDiffFilename(before + ["--- /dev/null", "+++ b/" + name] + after) == name
    ensures FileDiffFilename(before + ["--- a/" + was, "+++ /dev/null"] + after) == was
    ensures FileDiffFilename(before + ["--- /dev/null", "+++ /dev/null"] + after) == ""
    ensures FileDiffFilename(before) == ""
    ensures !IsSpace(name[0]) && name != "/dev/null" && !("a/" <= name) && !("b/" <= name) ==>
      FileDiffFilename(before + ["--- a/" + was, "+++ " + name] + after) == name
  {
    TrimmedPath("a/", was);
    TrimmedPath("b/", name);
    assert "a/" + was != DEV_NULL && "b/" + name != DEV_NULL by {
      assert ("a/" + was)[0] == 'a' && ("b/" + name)[0] == 'b';
    }
    assert ("a/" + was)[2..] == was && ("b/" + name)[2..] == name;
    assert Trim("/dev/null") == "/dev/null";
    assert "--- " + ("a/" + was) == "--- a/" + was && "+++ " + ("b/" + name) == "+++ b/" + name;
    assert "--- " + "/dev/null" == "--- /dev/null" && "+++ " + "/dev/null" == "+++ /dev/null";
    FilenameOf(before, "a/" + was, "b/" + name, after);
    FilenameOf(before, "/dev/null", "b/" + name, after);
    FilenameOf(before, "a/" + was, "/dev/null", after);
    FilenameOf(before, "/dev/null", "/dev/null", after);
    FilenameOf(before, "a/" + was, name, after);
    NoPathAt("--- ", before);
    NoPathAt("+++ ", before);
  }

  /** A path that is nothing but a prefix names no file. */
  lemma PrefixIsNoFilename(before: seq<string>, minus: string, after: seq<string>)
    requires NoPaths(before)
    ensures FileDiffFilename(before + ["--- " + minus, "+++ a/"] + after) == ""
    ensures FileDiffFilename(before + ["--- " + minus, "+++ b/"] + after) == ""
  {
    assert Trim("a/") == "a/" && Trim("b/") == "b/";
    assert "+++ " + "a/" == "+++ a/" && "+++ " + "b/" == "+++ b/" && "a/"[2..] == "b/"[2..] == "";
    FilenameOf(before, minus, "a/", after);
    FilenameOf(before, minus, "b/", after);
  }

  lemma {:induction false} NoPathAt(mark: string, lines: seq<string>)
    requires forall i | 0 <= i < |lines| :: !(mark <= lines[i])
    ensures PathAt(mark, lines) == ""
    decreases |lines|
  {
    if lines != [] {
      NoPathAt(mark, lines[1..]);
    }
  }

  /** A block that names the file. */
  function BlockFor(name: string): seq<string> {
    [HEADER, "+++ b/" + name]
  }

  lemma BlockForNames(ends: set<char>, name: string)
    requires CanWriteHeaders(ends) && Nameable(ends, name)
    ensures IsBlock(BlockFor(name)) && AreLines(ends, BlockFor(name)) && FileDiffFilename(BlockFor(name)) == name
  {
    var block := BlockFor(name);
    assert AreLines(ends, block) by {
      assert [HEADER, "+++ b/"][0] == HEADER && [HEADER, "+++ b/"][1] == "+++ b/";
    }
    var path := "b/" + name;
    assert block[1][|"+++ "|..] == path && path[|path| - 1] == name[|name| - 1] && path[2..] == name;
    assert Trim(path) == path && path[0] == 'b' && !(DEV_NULL <= path);
    assert block[0][0] == 'd' && block[1][0] == '+' && block[1..][0] == block[1] && block[1..][1..] == [];
    assert PathAt("+++ ", block) == PathAt("+++ ", block[1..]) == path;
    assert PathAt("--- ", block) == PathAt("--- ", block[1..]) == PathAt("--- ", []);
  }

  /** The names of file diffs are exactly those that are not empty, do not end
      in a space and fit on a line. */
  lemma NameableExactly(ends: set<char>, name: string)
    requires CanWriteHeaders(ends)
    ensures Nameable(ends, name) <==>
            name != "" && exists block :: IsBlock(block) && AreLines(ends, block) && FileDiffFilename(block) == name
  {
    if Nameable(ends, name) {
      BlockForNames(ends, name);
    }
    if name != "" && exists block :: IsBlock(block) && AreLines(ends, block) && FileDiffFilename(block) == name {
      var block :| IsBlock(block) && AreLines(ends, block) && FileDiffFilename(block) == name;
      FilenameIsNameable(ends, block);
    }
  }

  /** A patch that goes on with the changes to one more file has one more file
      diff, with its lines. */
  lemma FileIsYielded(lines: seq<string>, rest: string, before: seq<string>, was: string, name: string,
                      after: seq<string>)
    requires NoPaths(before) && name != "" && !IsSpace(name[|name| - 1]) && was != "" && !IsSpace(was[|was| - 1])
    requires forall i | 0 <= i < |before| :: !("diff --git " <= before[i])
    requires forall i | 0 <= i < |after| :: !("diff --git " <= after[i])
    ensures
      var block := ["diff --git " + rest] + before + ["--- a/" + was, "+++ b/" + name] + after;
      FileDiffs(lines + block) == FileDiffs(lines) + [FileDiff(name, Join(block))]
  {
    var header, paths := "diff --git " + rest, ["--- a/" + was, "+++ b/" + name];
    var block := [header] + before + paths + after;
    assert header[0] == 'd' && paths[0][0] == '-' && paths[1][0] == '+';
    assert NoPaths([header] + before);
    FilenameIs([header] + before, after, name, was);
    assert block == ([header] + before) + paths + after;
    FileDiffsAppend(lines, block);
  }

  lemma {:induction false} BlocksAreLines(ends: set<char>, lines: seq<string>)
    requires AreLines(ends, lines)
    ensures forall i | 0 <= i < |Blocks(lines)| :: AreLines(ends, Blocks(lines)[i])
    decreases |lines|
  {
    if lines == [] {
    } else {
      BlocksAreLines(ends, lines[..|lines| - 1]);
    }
  }

  lemma {:induction false} NamesAreNameable(ends: set<char>, blocks: seq<seq<string>>)
    requires forall i | 0 <= i < |blocks| :: AreLines(ends, blocks[i])
    ensures forall i | 0 <= i < |AllNamed(blocks)| :: Nameable(ends, AllNamed(blocks)[i].filename)
    decreases |blocks|
  {
    if blocks == [] {
    } else {
      var last := blocks[|blocks| - 1];
      NamesAreNameable(ends, blocks[..|blocks| - 1]);
      if FileDiffFilename(last) != "" {
        FilenameIsNameable(ends, last);
      }
    }
  }

  lemma {:induction false} BlocksAppend(lines: seq<string>, block: seq<string>)
    requires IsBlock(block)
    ensures Blocks(lines + block) == Blocks(lines) + [block]
    decreases |block|
  {
    var n := |block| - 1;
    assert (lines + block)[..|lines| + n] == lines + block[..n];
    if n == 0 {
      assert lines + block[..0] == lines && block == [block[0]];
    } else {
      BlocksAppend(lines, block[..n]);
      assert block == block[..n] + [block[n]];
    }
  }

  lemma FileDiffsAppend(lines: seq<string>, block: seq<string>)
    requires IsBlock(block)
    ensures FileDiffs(lines + block) == FileDiffs(lines) + Named(block)
  {
    BlocksAppend(lines, block);
    assert (Blocks(lines) + [block])[..|Blocks(lines)|] == Blocks(lines);
  }

  // --------------------------------------------------------- pairing up

  datatype Pairing = Pairing(filename: string, a: Option<string>, b: Option<string>)

  type Compare = (string, string) -> int

  function First(compare: Compare, a: seq<FileDiff>, b: seq<FileDiff>): string
    requires a != [] || b != []
  {
    if a != [] && b != [] then
      if compare(a[0].filename, b[0].filename) <= 0 then a[0].filename else b[0].filename
    else if a != [] then a[0].filename
    else b[0].filename
  }

  predicate Uses(s: seq<FileDiff>, filename: string) {
    s != [] && s[0].filename == filename
  }

  function Head(s: seq<FileDiff>, filename: string): Option<string> {
    if Uses(s, filename) then Some(s[0].text) else None
  }

  function Rest(s: seq<FileDiff>, filename: string): seq<FileDiff> {
    if Uses(s, filename) then s[1..] else s
  }

  /** The pairings the loop goes through. */
  function Merge(compare: Compare, a: seq<FileDiff>, b: seq<FileDiff>): seq<Pairing>
    decreases |a| + |b|
  {
    if a == [] && b == [] then []
    else
      var filename := First(compare, a, b);
      [Pairing(filename, Head(a, filename), Head(b, filename))] +
      Merge(compare, Rest(a, filename), Rest(b, filename))
  }

  /** What one side contributes to a pairing. */
  function Part(filename: string, text: Option<string>): seq<FileDiff> {
    if text.Some? then [FileDiff(filename, text.value)] else []
  }

  function SideA(pairings: seq<Pairing>): seq<FileDiff> {
    if pairings == [] then [] else Part(pairings[0].filename, pairings[0].a) + SideA(pairings[1..])
  }

  function SideB(pairings: seq<Pairing>): seq<FileDiff> {
    if pairings == [] then [] else Part(pairings[0].filename, pairings[0].b) + SideB(pairings[1..])
  }

  /** Whatever the streams and however they are compared, each is consumed
      once and in order. */
  lemma {:induction false} MergeConsumes(compare: Compare, a: seq<FileDiff>, b: seq<FileDiff>)
    ensures SideA(Merge(compare, a, b)) == a && SideB(Merge(compare, a, b)) == b
    decreases |a| + |b|
  {
    if a == [] && b == [] {
    } else {
      var filename := First(compare, a, b);
      MergeConsumes(compare, Rest(a, filename), Rest(b, filename));
      var head := Pairing(filename, Head(a, filename), Head(b, filename));
      var rest := Merge(compare, Rest(a, filename), Rest(b, filename));
      assert Merge(compare, a, b) == [head] + rest;
      SidesOf(head, rest);
      HeadAndRest(a, filename);
      HeadAndRest(b, filename);
    }
  }

  lemma SidesOf(head: Pairing, rest: seq<Pairing>)
    ensures SideA([head] + rest) == Part(head.filename, head.a) + SideA(rest)
    ensures SideB([head] + rest) == Part(head.filename, head.b) + SideB(rest)
  {
    assert ([head] + rest)[1..] == rest;
  }

  lemma HeadAndRest(s: seq<FileDiff>, filename: string)
    ensures s == Part(filename, Head(s, filename)) + Rest(s, filename)
  {
    assert s != [] ==> s == [s[0]] + s[1..];
  }

  predicate Has(s: seq<FileDiff>, filename: string) {
    exists i :: 0 <= i < |s| && s[i].filename == filename
  }

  /** Every name is dealt with once, and paired if and only if both streams
      have it. */
  predicate Faithful(pairings: seq<Pairing>, a: seq<FileDiff>, b: seq<FileDiff>) {
    && (forall p | p in pairings :: (p.a.Some? <==> Has(a, p.filename)) && (p.b.Some? <==> Has(b, p.filename)))
    && (forall i, j | 0 <= i < j < |pairings| :: pairings[i].filename != pairings[j].filename)
  }

  predicate HaveText(s: seq<FileDiff>) {
    forall i | 0 <= i < |s| :: s[i].text != ""
  }

  lemma {:induction false} BlocksHaveText(blocks: seq<seq<string>>)
    requires forall i | 0 <= i < |blocks| :: blocks[i] != []
    ensures HaveText(AllNamed(blocks))
    decreases |blocks|
  {
    if blocks == [] {
    } else {
      BlocksHaveText(blocks[..|blocks| - 1]);
    }
  }

  /** Whatever the patch, every file diff that is yielded has a text. */
  lemma StreamHasText(lines: seq<string>)
    ensures HaveText(FileDiffs(lines))
  {
    BlocksAreBlocks(lines);
    assert forall i | 0 <= i < |Blocks(lines)| :: Blocks(lines)[i] in Blocks(lines);
    BlocksHaveText(Blocks(lines));
  }

  type Less = (string, string) -> bool

  /** A strict total order, as that of bytes, in which git lists files. */
  ghost predicate StrictTotal(lt: Less) {
    && (forall x :: !lt(x, x))
    && (forall x, y, z | lt(x, y) && lt(y, z) :: lt(x, z))
    && (forall x, y | x != y :: lt(x, y) || lt(y, x))
  }

  predicate Sorted(lt: Less, s: seq<FileDiff>) {
    forall i, j | 0 <= i < j < |s| :: lt(s[i].filename, s[j].filename)
  }

  predicate NamesIn(s: seq<FileDiff>, names: set<string>) {
    forall i | 0 <= i < |s| :: s[i].filename in names
  }

  /** The comparison of two different names gives the order of the streams. */
  predicate Agrees(compare: Compare, lt: Less, names: set<string>) {
    forall x, y | x in names && y in names && x != y :: compare(x, y) <= 0 <==> lt(x, y)
  }

  /** A patch with its files in order, all of them from `names`. */
  predicate SortedPatch(lt: Less, ends: set<char>, names: set<string>, lines: seq<string>) {
    AreLines(ends, lines) && Sorted(lt, FileDiffs(lines)) && NamesIn(FileDiffs(lines), names)
  }

  ghost predicate AlwaysFaithful(compare: Compare, lt: Less, ends: set<char>, names: set<string>) {
    forall a, b | SortedPatch(lt, ends, names, a) && SortedPatch(lt, ends, names, b) ::
      Faithful(Merge(compare, FileDiffs(a), FileDiffs(b)), FileDiffs(a), FileDiffs(b))
  }

  lemma {:induction false} MergeNames(compare: Compare, a: seq<FileDiff>, b: seq<FileDiff>)
    ensures forall p | p in Merge(compare, a, b) :: Has(a, p.filename) || Has(b, p.filename)
    decreases |a| + |b|
  {
    if a == [] && b == [] {
    } else {
      var filename := First(compare, a, b);
      MergeNames(compare, Rest(a, filename), Rest(b, filename));
      RestHas(a, filename);
      RestHas(b, filename);
    }
  }

  lemma RestHas(s: seq<FileDiff>, filename: string)
    ensures forall n :: Has(s, n) <==> Has(Rest(s, filename), n) || (Uses(s, filename) && n == filename)
  {
    forall n
      ensures Has(s, n) <==> Has(Rest(s, filename), n) || (Uses(s, filename) && n == filename)
    {
      var rest := Rest(s, filename);
      if Uses(s, filename) {
        if i :| 0 <= i < |s| && s[i].filename == n {
          assert i > 0 ==> rest[i - 1].filename == n;
        }
        if i :| 0 <= i < |rest| && rest[i].filename == n {
          assert s[i + 1].filename == n;
        }
      }
    }
  }

  /** In sorted streams the name dealt with is taken from wherever it is, and
      does not come again. */
  lemma FirstIsLeast(compare: Compare, lt: Less, names: set<string>, a: seq<FileDiff>, b: seq<FileDiff>)
    requires StrictTotal(lt) && Agrees(compare, lt, names)
    requires Sorted(lt, a) && Sorted(lt, b) && NamesIn(a, names) && NamesIn(b, names)
    requires a != [] || b != []
    ensures
      var filename := First(compare, a, b);
      && (Has(a, filename) <==> Uses(a, filename)) && (Has(b, filename) <==> Uses(b, filename))
      && !Has(Rest(a, filename), filename) && !Has(Rest(b, filename), filename)
  {
  }

  /** A pairing for a name that does not come again. */
  lemma OneMorePairing(a: seq<FileDiff>, b: seq<FileDiff>, filename: string, rest: seq<Pairing>)
    requires (Has(a, filename) <==> Uses(a, filename)) && (Has(b, filename) <==> Uses(b, filename))
    requires !Has(Rest(a, filename), filename) && !Has(Rest(b, filename), filename)
    requires Faithful(rest, Rest(a, filename), Rest(b, filename))
    requires forall p | p in rest :: Has(Rest(a, filename), p.filename) || Has(Rest(b, filename), p.filename)
    ensures Faithful([Pairing(filename, Head(a, filename), Head(b, filename))] + rest, a, b)
  {
    var head := Pairing(filename, Head(a, filename), Head(b, filename));
    RestHas(a, filename);
    RestHas(b, filename);
    forall p | p in [head] + rest
      ensures (p.a.Some? <==> Has(a, p.filename)) && (p.b.Some? <==> Has(b, p.filename))
    {
      if p != head {
        assert p in rest && p.filename != filename;
      }
    }
    assert forall i | 0 <= i < |rest| :: rest[i] in rest && rest[i].filename != filename;
  }

  lemma {:induction false} SortedMergeIsFaithful(
    compare: Compare, lt: Less, names: set<string>, a: seq<FileDiff>, b: seq<FileDiff>)
    requires StrictTotal(lt) && Agrees(compare, lt, names)
    requires Sorted(lt, a) && Sorted(lt, b) && NamesIn(a, names) && NamesIn(b, names)
    ensures Faithful(Merge(compare, a, b), a, b)
    decreases |a| + |b|
  {
    if a == [] && b == [] {
    } else {
      var filename := First(compare, a, b);
      var restA, restB := Rest(a, filename), Rest(b, filename);
      FirstIsLeast(compare, lt, names, a, b);
      SortedMergeIsFaithful(compare, lt, names, restA, restB);
      MergeNames(compare, restA, restB);
      OneMorePairing(a, b, filename, Merge(compare, restA, restB));
    }
  }

  /** Those of the names that a patch can have. */
  function Used(ends: set<char>, names: set<string>): set<string> {
    set x | x in names && Nameable(ends, x)
  }

  lemma NamesAreUsed(lt: Less, ends: set<char>, names: set<string>, lines: seq<string>)
    requires SortedPatch(lt, ends, names, lines)
    ensures NamesIn(FileDiffs(lines), Used(ends, names))
  {
    BlocksAreLines(ends, lines);
    NamesAreNameable(ends, Blocks(lines));
  }

  /** Patches that are sorted in an order are paired up faithfully, all of
      them, if and only if the comparison agrees with that order on the names
      that patches can have. */
  lemma FaithfulExactly(compare: Compare, lt: Less, ends: set<char>, names: set<string>)
    requires StrictTotal(lt) && CanWriteHeaders(ends)
    ensures AlwaysFaithful(compare, lt, ends, names) <==> Agrees(compare, lt, Used(ends, names))
  {
    if Agrees(compare, lt, Used(ends, names)) {
      forall a, b | SortedPatch(lt, ends, names, a) && SortedPatch(lt, ends, names, b)
        ensures Faithful(Merge(compare, FileDiffs(a), FileDiffs(b)), FileDiffs(a), FileDiffs(b))
      {
        NamesAreUsed(lt, ends, names, a);
        NamesAreUsed(lt, ends, names, b);
        SortedMergeIsFaithful(compare, lt, Used(ends, names), FileDiffs(a), FileDiffs(b));
      }
    } else {
      var x, y :|
        x in Used(ends, names) && y in Used(ends, names) && x != y && !(compare(x, y) <= 0 <==> lt(x, y));
      Disagreement(compare, lt, ends, names, x, y);
    }
  }

  lemma PatchOfOne(lt: Less, ends: set<char>, names: set<string>, x: string) returns (lines: seq<string>)
    requires StrictTotal(lt) && CanWriteHeaders(ends) && x in names && Nameable(ends, x)
    ensures SortedPatch(lt, ends, names, lines) && FileDiffs(lines) == Named(BlockFor(x)) && AreLines(ends, lines)
    ensures Named(BlockFor(x)) == [FileDiff(x, Join(BlockFor(x)))]
  {
    lines := BlockFor(x);
    BlockForNames(ends, x);
    FileDiffsAppend([], lines);
    assert [] + lines == lines;
  }

  lemma PatchOfTwo(lt: Less, ends: set<char>, names: set<string>, x: string, y: string) returns (lines: seq<string>)
    requires StrictTotal(lt) && CanWriteHeaders(ends) && lt(x, y)
    requires x in names && Nameable(ends, x) && y in names && Nameable(ends, y)
    ensures SortedPatch(lt, ends, names, lines)
    ensures FileDiffs(lines) == [FileDiff(x, Join(BlockFor(x))), FileDiff(y, Join(BlockFor(y)))]
  {
    var first := PatchOfOne(lt, ends, names, x);
    BlockForNames(ends, y);
    FileDiffsAppend(first, BlockFor(y));
    lines := first + BlockFor(y);
  }

  lemma Disagreement(compare: Compare, lt: Less, ends: set<char>, names: set<string>, x: string, y: string)
    requires StrictTotal(lt) && CanWriteHeaders(ends)
    requires x in Used(ends, names) && y in Used(ends, names) && x != y && !(compare(x, y) <= 0 <==> lt(x, y))
    ensures !AlwaysFaithful(compare, lt, ends, names)
  {
    var t, u := Join(BlockFor(x)), Join(BlockFor(y));
    if lt(x, y) {
      MisorderedPair(compare, x, y, t, u, u);
      var a := PatchOfTwo(lt, ends, names, x, y);
      var b := PatchOfOne(lt, ends, names, y);
      assert !Faithful(Merge(compare, FileDiffs(a), FileDiffs(b)), FileDiffs(a), FileDiffs(b));
    } else {
      MisorderedPairB(compare, x, y, t, u, t);
      var a := PatchOfOne(lt, ends, names, x);
      var b := PatchOfTwo(lt, ends, names, y, x);
      assert !Faithful(Merge(compare, FileDiffs(a), FileDiffs(b)), FileDiffs(a), FileDiffs(b));
    }
  }

  /** The file y is in both streams, but is taken for created before x and for
      deleted after it. */
  lemma MisorderedPair(compare: Compare, x: string, y: string, t: string, u: string, v: string)
    requires x != y && compare(x, y) > 0
    ensures
      var a, b := [FileDiff(x, t), FileDiff(y, u)], [FileDiff(y, v)];
      && Merge(compare, a, b) == [Pairing(y, None, Some(v)), Pairing(x, Some(t), None), Pairing(y, Some(u), None)]
      && !Faithful(Merge(compare, a, b), a, b)
  {
    var a, b := [FileDiff(x, t), FileDiff(y, u)], [FileDiff(y, v)];
    assert a[1..] == [FileDiff(y, u)] && a[1..][1..] == [] && b[1..] == [];
    assert Merge(compare, [FileDiff(y, u)], []) == [Pairing(y, Some(u), None)] + Merge(compare, [], []);
    assert Merge(compare, a, []) == [Pairing(x, Some(t), None)] + Merge(compare, a[1..], []);
    assert Merge(compare, a, b) == [Pairing(y, None, Some(v))] + Merge(compare, a, []);
  }

  lemma MisorderedPairB(compare: Compare, x: string, y: string, t: string, u: string, v: string)
    requires x != y && compare(x, y) <= 0
    ensures
      var a, b := [FileDiff(x, t)], [FileDiff(y, u), FileDiff(x, v)];
      && Merge(compare, a, b) == [Pairing(x, Some(t), None), Pairing(y, None, Some(u)), Pairing(x, None, Some(v))]
      && !Faithful(Merge(compare, a, b), a, b)
  {
    var a, b := [FileDiff(x, t)], [FileDiff(y, u), FileDiff(x, v)];
    assert b[1..] == [FileDiff(x, v)] && b[1..][1..] == [] && a[1..] == [];
    assert Merge(compare, [], [FileDiff(x, v)]) == [Pairing(x, None, Some(v))] + Merge(compare, [], []);
    assert Merge(compare, [], b) == [Pairing(y, None, Some(u))] + Merge(compare, [], b[1..]);
    assert Merge(compare, a, b) == [Pairing(x, Some(t), None)] + Merge(compare, [], b);
  }

  // ----------------------------------------------------------- the report

  /** The `diff` command on two labels and two texts, the text of /dev/null
      being empty.  It fails where its exit code is neither 0 nor 1. */
  type Diff = (string, string, string, string) -> Result<string, string>

  function TextOf(patch: Option<string>): string {
    match patch { case Some(text) => text case None => "" }
  }

  function Label(side: string, filename: string, patch: Option<string>): string {
    if patch.Some? then side + filename else DEV_NULL
  }

  function Entry(diff: Diff, diffDevNull: bool, p: Pairing): Result<string, string> {
    if !diffDevNull && (p.a.None? || p.b.None?) then
      Success(if p.a.Some? then "Deleted file fork-base/" + p.filename + "\n"
              else "Created file merge-fork/" + p.filename + "\n")
    else
      var left, right := Label("fork-base/", p.filename, p.a), Label("merge-fork/", p.filename, p.b);
      var out :- diff(left, right, TextOf(p.a), TextOf(p.b));
      if out == "" then Success("")
      else Success("diff -u " + left + " " + right + "\n" + out + (if out[|out| - 1] == '\n' then "" else "\n"))
  }

  /** The output of `diff` under a line that names its two sides; it ends in a
      newline, and there is none without a difference. */
  ghost predicate Renders(entry: Result<string, string>, left: string, right: string, out: Result<string, string>) {
    if out.Failure? then entry == Failure(out.error)
    else if out.value == "" then entry == Success("")
    else
      exists newline | newline in {"", "\n"} ::
        && entry == Success("diff -u " + left + " " + right + "\n" + out.value + newline)
        && (newline == "" <==> out.value[|out.value| - 1] == '\n')
  }

  /** What is written for a file that is in both patches, or in one of them. */
  lemma EntryIs(diff: Diff, diffDevNull: bool, filename: string, a: string, b: string)
    ensures Renders(Entry(diff, diffDevNull, Pairing(filename, Some(a), Some(b))),
                    "fork-base/" + filename, "merge-fork/" + filename,
                    diff("fork-base/" + filename, "merge-fork/" + filename, a, b))
    ensures
      var deleted := Entry(diff, diffDevNull, Pairing(filename, Some(a), None));
      if diffDevNull then
        Renders(deleted, "fork-base/" + filename, "/dev/null", diff("fork-base/" + filename, "/dev/null", a, ""))
      else deleted == Success("Deleted file fork-base/" + filename + "\n")
    ensures
      var created := Entry(diff, diffDevNull, Pairing(filename, None, Some(b)));
      if diffDevNull then
        Renders(created, "/dev/null", "merge-fork/" + filename, diff("/dev/null", "merge-fork/" + filename, "", b))
      else created == Success("Created file merge-fork/" + filename + "\n")
  {
    Rendered("fork-base/" + filename, "merge-fork/" + filename,
             diff("fork-base/" + filename, "merge-fork/" + filename, a, b),
             Entry(diff, diffDevNull, Pairing(filename, Some(a), Some(b))));
    if diffDevNull {
      Rendered("fork-base/" + filename, "/dev/null", diff("fork-base/" + filename, "/dev/null", a, ""),
               Entry(diff, true, Pairing(filename, Some(a), None)));
      Rendered("/dev/null", "merge-fork/" + filename, diff("/dev/null", "merge-fork/" + filename, "", b),
               Entry(diff, true, Pairing(filename, None, Some(b))));
    }
  }

  lemma Rendered(left: string, right: string, out: Result<string, string>, entry: Result<string, string>)
    requires entry ==
             if out.Failure? then Failure(out.error)
             else if out.value == "" then Success("")
             else Success("diff -u " + left + " " + right + "\n" + out.value +
                          (if out.value[|out.value| - 1] == '\n' then "" else "\n"))
    ensures Renders(entry, left, right, out)
  {
    if out.Success? && out.value != "" {
      var newline := if out.value[|out.value| - 1] == '\n' then "" else "\n";
      assert newline in {"", "\n"};
    }
  }

  /** What is written, and the failure it ends with if there is one. */
  function Entries(diff: Diff, diffDevNull: bool, pairings: seq<Pairing>): (string, Option<string>) {
    if pairings == [] then ("", None)
    else match Entry(diff, diffDevNull, pairings[0])
      case Failure(e) => ("", Some(e))
      case Success(text) =>
        var rest := Entries(diff, diffDevNull, pairings[1..]);
        (text + rest.0, rest.1)
  }

  const NO_DIFF := "No diff.\n"

  function Report(diff: Diff, diffDevNull: bool, pairings: seq<Pairing>): (string, Option<string>) {
    var r := Entries(diff, diffDevNull, pairings);
    if r == ("", None) then (NO_DIFF, None) else r
  }

  function Before(text: string, r: (string, Option<string>)): (string, Option<string>) {
    (text + r.0, r.1)
  }

  lemma BeforeTwice(s: string, t: string, r: (string, Option<string>))
    ensures Before(s, Before(t, r)) == Before(s + t, r)
  {
    assert s + (t + r.0) == s + t + r.0;
  }

  lemma BeforeNothing(s: string, e: Option<string>)
    ensures Before(s, ("", e)) == Before("", (s, e)) == (s, e)
  {
    assert s + "" == s && "" + s == s;
  }

  lemma EntriesStep(diff: Diff, diffDevNull: bool, p: Pairing, rest: seq<Pairing>)
    ensures Entries(diff, diffDevNull, [p] + rest) ==
            if Entry(diff, diffDevNull, p).Failure? then ("", Some(Entry(diff, diffDevNull, p).error))
            else Before(Entry(diff, diffDevNull, p).value, Entries(diff, diffDevNull, rest))
  {
    assert ([p] + rest)[1..] == rest;
  }

  /** One turn of the loop, on what is left of the streams. */
  method WritePairing(diff: Diff, diffDevNull: bool, filename: string, aPatch: Option<string>, bPatch: Option<string>)
    returns (text: Result<string, string>, counts: bool)
    ensures text == Entry(diff, diffDevNull, Pairing(filename, aPatch, bPatch))
    ensures text.Success? ==> (counts <==> text.value != "")
  {
    if !diffDevNull && (aPatch.None? || bPatch.None?) {
      counts := true;
      text := Success(if aPatch.Some? then "Deleted file fork-base/" + filename + "\n"
                      else "Created file merge-fork/" + filename + "\n");
      return;
    }
    var leftLabel, rightLabel := Label("fork-base/", filename, aPatch), Label("merge-fork/", filename, bPatch);
    text := diff(leftLabel, rightLabel, TextOf(aPatch), TextOf(bPatch));
    counts := text.Success? && text.value != "";
    if counts {
      var out := text.value;
      text := Success("diff -u " + leftLabel + " " + rightLabel + "\n" + out +
                      (if out[|out| - 1] == '\n' then "" else "\n"));
    }
  }

  method WritePairedDiffOfDiffs(compare: Compare, diff: Diff, diffDevNull: bool, a: seq<FileDiff>, b: seq<FileDiff>)
    returns (output: string, error: Option<string>)
    ensures (output, error) == Report(diff, diffDevNull, Merge(compare, a, b))
  {
    output, error := "", None;
    var diffCount := 0;
    var aNext, bNext := a, b;
    ghost var all := Entries(diff, diffDevNull, Merge(compare, a, b));
    BeforeNothing(all.0, all.1);
    while aNext != [] || bNext != []
      invariant diffCount == 0 <==> output == ""
      invariant all == Before(output, Entries(diff, diffDevNull, Merge(compare, aNext, bNext)))
      decreases |aNext| + |bNext|
    {
      var filename :=
        if aNext != [] && bNext != [] then
          if compare(aNext[0].filename, bNext[0].filename) <= 0 then aNext[0].filename else bNext[0].filename
        else if aNext != [] then aNext[0].filename
        else bNext[0].filename;
      var useA := aNext != [] && aNext[0].filename == filename;
      var useB := bNext != [] && bNext[0].filename == filename;
      var aPatch := if useA then Some(aNext[0].text) else None;
      var bPatch := if useB then Some(bNext[0].text) else None;
      ghost var rest := Merge(compare, Rest(aNext, filename), Rest(bNext, filename));
      EntriesStep(diff, diffDevNull, Pairing(filename, aPatch, bPatch), rest);
      var text, counts := WritePairing(diff, diffDevNull, filename, aPatch, bPatch);
      if text.Failure? {
        error := Some(text.error);
        BeforeNothing(output, error);
        return;
      }
      BeforeTwice(output, text.value, Entries(diff, diffDevNull, rest));
      output := output + text.value;
      if counts {
        diffCount := diffCount + 1;
      }
      if useA {
        aNext := aNext[1..];
      }
      if useB {
        bNext := bNext[1..];
      }
    }
    BeforeNothing(output, None);
    if diffCount == 0 {
      output := NO_DIFF;
    }
  }

  /** A `diff` that works prints nothing for equal texts, and only for those. */
  ghost predicate Sound(diff: Diff) {
    forall l, r, s, t :: diff(l, r, s, t).Success? && (diff(l, r, s, t).value == "" <==> s == t)
  }

  /** An entry is empty exactly if the pairing has the same text twice. */
  lemma EmptyEntry(diff: Diff, diffDevNull: bool, p: Pairing)
    requires Sound(diff)
    requires p.a != Some("") && p.b != Some("") && (p.a.Some? || p.b.Some?)
    ensures Entry(diff, diffDevNull, p).Success?
    ensures Entry(diff, diffDevNull, p).value == "" <==> p.a == p.b
  {
  }

  lemma {:induction false} EmptyEntries(diff: Diff, diffDevNull: bool, pairings: seq<Pairing>)
    requires Sound(diff)
    requires forall p | p in pairings :: p.a != Some("") && p.b != Some("") && (p.a.Some? || p.b.Some?)
    ensures Entries(diff, diffDevNull, pairings).1 == None
    ensures Entries(diff, diffDevNull, pairings).0 == "" <==> forall p | p in pairings :: p.a == p.b
    ensures Entries(diff, diffDevNull, pairings).0 != NO_DIFF
    decreases |pairings|
  {
    if pairings == [] {
    } else {
      EmptyEntry(diff, diffDevNull, pairings[0]);
      EmptyEntries(diff, diffDevNull, pairings[1..]);
      assert pairings == [pairings[0]] + pairings[1..];
      if Entry(diff, diffDevNull, pairings[0]).value != "" {
        EntryStart(diff, diffDevNull, pairings[0]);
      }
    }
  }

  /** No entry reads like the message that there is none. */
  lemma EntryStart(diff: Diff, diffDevNull: bool, p: Pairing)
    requires Entry(diff, diffDevNull, p).Success? && Entry(diff, diffDevNull, p).value != ""
    ensures Entry(diff, diffDevNull, p).value[0] != 'N'
  {
  }

  lemma {:induction false} SamePatches(compare: Compare, a: seq<FileDiff>, b: seq<FileDiff>)
    ensures (forall p | p in Merge(compare, a, b) :: p.a == p.b) <==> a == b
    decreases |a| + |b|
  {
    if a == [] && b == [] {
    } else {
      var filename := First(compare, a, b);
      SamePatches(compare, Rest(a, filename), Rest(b, filename));
      var head := Pairing(filename, Head(a, filename), Head(b, filename));
      var rest := Merge(compare, Rest(a, filename), Rest(b, filename));
      assert Merge(compare, a, b) == [head] + rest;
      if head.a == head.b {
        assert a == [a[0]] + Rest(a, filename) && b == [b[0]] + Rest(b, filename);
      }
      if a == b {
        assert Rest(a, filename) == Rest(b, filename);
      }
    }
  }

  /** The report says that there is no difference exactly if the two patches
      have the same file diffs, however they are ordered and compared. */
  lemma NoDiffExactly(compare: Compare, diff: Diff, diffDevNull: bool, a: seq<FileDiff>, b: seq<FileDiff>)
    requires Sound(diff) && HaveText(a) && HaveText(b)
    ensures Report(diff, diffDevNull, Merge(compare, a, b)) == ("No diff.\n", None) <==> a == b
  {
    MergeHasText(compare, a, b);
    EmptyEntries(diff, diffDevNull, Merge(compare, a, b));
    SamePatches(compare, a, b);
  }

  lemma {:induction false} MergeHasText(compare: Compare, a: seq<FileDiff>, b: seq<FileDiff>)
    requires HaveText(a) && HaveText(b)
    ensures forall p | p in Merge(compare, a, b) :: p.a != Some("") && p.b != Some("") && (p.a.Some? || p.b.Some?)
    decreases |a| + |b|
  {
    if a == [] && b == [] {
    } else {
      var filename := First(compare, a, b);
      MergeHasText(compare, Rest(a, filename), Rest(b, filename));
    }
  }
}
