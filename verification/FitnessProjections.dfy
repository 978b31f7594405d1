// The projection rewriters of src/fitness_cli.rs and the counters that check them.
module FitnessProjections {
  import opened Wrappers
  import opened Text
  import opened LineSplitting

  const SNAPSHOT_HEADING: string := "### \U{1F511} `"

  // The two projections of the memory that name fitness entries.
  datatype Projection = Core | Snapshot

  // `generated_backup_entry_key`: the key of `- [..] **key**: ..`.
  function GeneratedBackupEntryKey(line: string): Option<string> {
    if !("- [" <= line) then None
    else
      match Find(line[3..], "] **")
      case None => None
      case Some(i) =>
        var rest := line[3..][i + 4..];
        match Find(rest, "**:")
        case None => None
        case Some(j) => if j == 0 then None else Some(rest[..j])
  }

  function StripBacktick(s: string): Option<string> {
    if s != "" && s[|s| - 1] == '`' then Some(s[..|s| - 1]) else None
  }

  // The key of a snapshot heading, as the rewriter and as the counter read it:
  // only the rewriter allows whitespace behind the closing backtick.
  function SnapshotKey(line: string): Option<string> {
    if SNAPSHOT_HEADING <= line then StripBacktick(TrimEnd(line[|SNAPSHOT_HEADING|..])) else None
  }

  function CountedSnapshotKey(line: string): Option<string> {
    if SNAPSHOT_HEADING <= line then StripBacktick(line[|SNAPSHOT_HEADING|..]) else None
  }

  function KeyOf(p: Projection, line: string): Option<string> {
    match p
    case Core => GeneratedBackupEntryKey(line)
    case Snapshot => SnapshotKey(line)
  }

  function CountedKey(p: Projection, line: string): Option<string> {
    match p
    case Core => GeneratedBackupEntryKey(line)
    case Snapshot => CountedSnapshotKey(line)
  }

  // The first "] **" and the first "**:" behind it enclose the key.
  predicate IsEntry(line: string, stamp: string, key: string, rest: string) {
    && line == "- [" + stamp + "] **" + key + "**:" + rest
    && Find(stamp + "] **" + key + "**:" + rest, "] **") == Some(|stamp|)
    && Find(key + "**:" + rest, "**:") == Some(|key|)
  }

  lemma {:induction false} KeyedLineIsEntry(line: string, key: string) returns (stamp: string, rest: string)
    requires GeneratedBackupEntryKey(line) == Some(key)
    ensures key != "" && IsEntry(line, stamp, key, rest)
  {
    hide Find, OccursAt, NoneBefore;
    var body := line[3..];
    var i := Find(body, "] **").value;
    stamp := body[..i];
    var behind := CutAt(body, "] **");
    rest := CutAt(behind, "**:");
    assert key == behind[..Find(behind, "**:").value];
    assert line == "- [" + body;
    assert body == stamp + "] **" + key + "**:" + rest;
  }

  // A text around the first occurrence of a pattern.
  lemma {:induction false} CutAt(s: string, pattern: string) returns (behind: string)
    requires Find(s, pattern).Some?
    ensures behind == s[Find(s, pattern).value + |pattern|..]
    ensures s == s[..Find(s, pattern).value] + pattern + behind
  {
    hide Find;
    FindFinds(s, pattern);
    behind := s[Find(s, pattern).value + |pattern|..];
  }

  lemma {:induction false} EntryIsKeyed(line: string, stamp: string, key: string, rest: string)
    requires key != "" && IsEntry(line, stamp, key, rest)
    ensures GeneratedBackupEntryKey(line) == Some(key)
  {
    hide Find;
    var behind := key + "**:" + rest;
    var body := stamp + "] **" + key + "**:" + rest;
    assert body == stamp + "] **" + behind;
    assert line == "- [" + body;
    assert line[..3] == "- [" && line[3..] == body;
    assert body[|stamp| + 4..] == behind && behind[..|key|] == key;
  }

  // The keyed lines are exactly the entries `- [stamp] **key**:rest`.
  lemma {:induction false} BackupKeyReadsEntries(line: string, key: string)
    ensures GeneratedBackupEntryKey(line) == Some(key)
            <==> key != "" && exists stamp, rest :: IsEntry(line, stamp, key, rest)
  {
    hide GeneratedBackupEntryKey, IsEntry;
    if GeneratedBackupEntryKey(line) == Some(key) {
      var stamp, rest := KeyedLineIsEntry(line, key);
    }
    if key != "" {
      forall stamp, rest | IsEntry(line, stamp, key, rest) ensures GeneratedBackupEntryKey(line) == Some(key) {
        EntryIsKeyed(line, stamp, key, rest);
      }
    }
  }

  // The snapshot headings are exactly the heading mark, the key, a backtick and
  // whitespace.
  lemma {:induction false} SnapshotKeyReadsHeadings(line: string, key: string)
    ensures SnapshotKey(line) == Some(key)
            <==> exists pad :: AllWhitespace(pad) && line == "### \U{1F511} `" + (key + "`") + pad
  {
    hide TrimEnd, AllWhitespace;
    var n := |SNAPSHOT_HEADING|;
    if SnapshotKey(line) == Some(key) {
      var rest := line[n..];
      var r := TrimEnd(rest);
      assert r == key + "`" && rest == r + rest[|r|..];
      assert line == SNAPSHOT_HEADING + rest;
      assert line == SNAPSHOT_HEADING + (key + "`") + rest[|r|..];
    }
    forall pad | AllWhitespace(pad) && line == SNAPSHOT_HEADING + (key + "`") + pad
      ensures SnapshotKey(line) == Some(key)
    {
      assert line[n..] == (key + "`") + pad;
      assert SNAPSHOT_HEADING <= line by { assert line[..n] == SNAPSHOT_HEADING; }
      TrimEndSkips(key + "`", pad);
      assert (key + "`")[..|key|] == key;
    }
  }

  // ---------------------------------------------------------------- sections

  // A heading to remove, another heading, a line that ends a section, any other.
  datatype Kind = Target | OtherHeading | Ending | Body

  function KindOf(p: Projection, prefix: string, line: string): Kind {
    match KeyOf(p, line)
    case Some(key) => if prefix <= key then Target else OtherHeading
    case None => if p.Snapshot? && Trim(line) == "---" then Ending else Body
  }

  // The line belongs to a removed section: a heading to remove stands at or
  // above it, with no other heading down to it and no ending above it.
  ghost predicate InRemovedSection(p: Projection, prefix: string, lines: seq<string>, i: nat)
    requires i < |lines|
  {
    exists j :: 0 <= j <= i && KindOf(p, prefix, lines[j]) == Target && Reaches(p, prefix, lines, j, i)
  }

  ghost predicate Reaches(p: Projection, prefix: string, lines: seq<string>, j: nat, i: nat)
    requires j <= i < |lines|
  {
    && (forall k :: j < k <= i ==> KindOf(p, prefix, lines[k]) != OtherHeading)
    && (forall k :: j <= k < i ==> KindOf(p, prefix, lines[k]) != Ending)
  }

  // The rewriters' own view: whether the text behind `lines` is being skipped.
  function Skipping(p: Projection, prefix: string, lines: seq<string>): bool {
    if lines == [] then false
    else
      match KindOf(p, prefix, lines[|lines| - 1])
      case Target => true
      case OtherHeading => false
      case Ending => false
      case Body => Skipping(p, prefix, lines[..|lines| - 1])
  }

  predicate IsSkipped(p: Projection, prefix: string, before: seq<string>, line: string) {
    var kind := KindOf(p, prefix, line);
    kind == Target || (kind != OtherHeading && Skipping(p, prefix, before))
  }

  function Kept(p: Projection, prefix: string, lines: seq<string>): seq<string> {
    if lines == [] then []
    else
      var before, last := lines[..|lines| - 1], lines[|lines| - 1];
      Kept(p, prefix, before) + (if IsSkipped(p, prefix, before, last) then [] else [last])
  }

  function Rewritten(p: Projection, prefix: string, content: string): string {
    Concat(Kept(p, prefix, SplitInclusive(content)))
  }

  lemma {:induction false} SkippingMeansReached(p: Projection, prefix: string, lines: seq<string>, n: nat)
    requires n < |lines|
    ensures Skipping(p, prefix, lines[..n])
            <==> exists j :: 0 <= j < n && KindOf(p, prefix, lines[j]) == Target
                             && (forall k :: j < k < n ==> KindOf(p, prefix, lines[k]) != OtherHeading)
                             && (forall k :: j <= k < n ==> KindOf(p, prefix, lines[k]) != Ending)
  {
    hide KindOf;
    if n > 0 {
      SkippingMeansReached(p, prefix, lines, n - 1);
      assert lines[..n][..n - 1] == lines[..n - 1];
      var kind := KindOf(p, prefix, lines[n - 1]);
    }
  }

  // The lines kept are exactly those outside the removed sections, in order.
  lemma {:induction false} KeepsLinesOutsideSections(p: Projection, prefix: string, lines: seq<string>, i: nat)
    requires i < |lines|
    ensures Kept(p, prefix, lines[..i + 1])
            == Kept(p, prefix, lines[..i]) + (if InRemovedSection(p, prefix, lines, i) then [] else [lines[i]])
  {
    hide KindOf, Skipping;
    assert lines[..i + 1][..i] == lines[..i];
    SkippingMeansReached(p, prefix, lines, i);
    assert KindOf(p, prefix, lines[i]) == Target ==> Reaches(p, prefix, lines, i, i);
    if InRemovedSection(p, prefix, lines, i) {
      var j :| 0 <= j <= i && KindOf(p, prefix, lines[j]) == Target && Reaches(p, prefix, lines, j, i);
    }
    if Skipping(p, prefix, lines[..i]) && KindOf(p, prefix, lines[i]) != OtherHeading {
      var j :| 0 <= j < i && KindOf(p, prefix, lines[j]) == Target
               && (forall k :: j < k < i ==> KindOf(p, prefix, lines[k]) != OtherHeading)
               && (forall k :: j <= k < i ==> KindOf(p, prefix, lines[k]) != Ending);
      assert Reaches(p, prefix, lines, j, i);
    }
  }

  // In the core projection a line goes exactly with an entry at or above it whose
  // key has the prefix and no other entry between.
  lemma {:induction false} CoreKeepsExactly(prefix: string, lines: seq<string>, i: nat)
    requires i < |lines|
    ensures Kept(Core, prefix, lines[..i + 1]) == Kept(Core, prefix, lines[..i]) +
            if exists j, key :: 0 <= j <= i && GeneratedBackupEntryKey(lines[j]) == Some(key) && prefix <= key
                                && forall k, other :: j < k <= i && GeneratedBackupEntryKey(lines[k]) == Some(other)
                                                      ==> prefix <= other
            then [] else [lines[i]]
  {
    hide Kept, GeneratedBackupEntryKey, InRemovedSection;
    KeepsLinesOutsideSections(Core, prefix, lines, i);
    if InRemovedSection(Core, prefix, lines, i) {
      var j := RemovedByEntry(prefix, lines, i);
    }
    if j, key :| 0 <= j <= i && GeneratedBackupEntryKey(lines[j]) == Some(key) && prefix <= key
                 && forall k, other :: j < k <= i && GeneratedBackupEntryKey(lines[k]) == Some(other)
                                       ==> prefix <= other {
      EntryRemoves(prefix, lines, i, j);
    }
  }

  lemma {:induction false} EntryRemoves(prefix: string, lines: seq<string>, i: nat, j: nat)
    requires j <= i < |lines|
    requires GeneratedBackupEntryKey(lines[j]).Some? && prefix <= GeneratedBackupEntryKey(lines[j]).value
    requires forall k, other :: j < k <= i && GeneratedBackupEntryKey(lines[k]) == Some(other) ==> prefix <= other
    ensures InRemovedSection(Core, prefix, lines, i)
  {
    hide GeneratedBackupEntryKey, Trim;
    assert KindOf(Core, prefix, lines[j]) == Target;
    assert Reaches(Core, prefix, lines, j, i);
  }

  lemma {:induction false} RemovedByEntry(prefix: string, lines: seq<string>, i: nat) returns (j: nat)
    requires i < |lines| && InRemovedSection(Core, prefix, lines, i)
    ensures j <= i && GeneratedBackupEntryKey(lines[j]).Some? && prefix <= GeneratedBackupEntryKey(lines[j]).value
    ensures forall k, other :: j < k <= i && GeneratedBackupEntryKey(lines[k]) == Some(other) ==> prefix <= other
  {
    j :| 0 <= j <= i && KindOf(Core, prefix, lines[j]) == Target && Reaches(Core, prefix, lines, j, i);
    hide GeneratedBackupEntryKey, Trim;
    forall k, other | j < k <= i && GeneratedBackupEntryKey(lines[k]) == Some(other) ensures prefix <= other {
      assert KindOf(Core, prefix, lines[k]) != OtherHeading;
    }
  }

  // In a snapshot the section of a heading ends behind a line `---` too.
  lemma {:induction false} SnapshotKeepsExactly(prefix: string, lines: seq<string>, i: nat)
    requires i < |lines|
    ensures Kept(Snapshot, prefix, lines[..i + 1]) == Kept(Snapshot, prefix, lines[..i]) +
            if exists j, key :: 0 <= j <= i && SnapshotKey(lines[j]) == Some(key) && prefix <= key
                                && (forall k, other :: j < k <= i && SnapshotKey(lines[k]) == Some(other)
                                                       ==> prefix <= other)
                                && (forall k :: j <= k < i ==> Trim(lines[k]) != "---")
            then [] else [lines[i]]
  {
    hide Kept, SnapshotKey, Trim, InRemovedSection;
    KeepsLinesOutsideSections(Snapshot, prefix, lines, i);
    if InRemovedSection(Snapshot, prefix, lines, i) {
      var j := RemovedBySnapshotHeading(prefix, lines, i);
    }
    if j, key :| 0 <= j <= i && SnapshotKey(lines[j]) == Some(key) && prefix <= key
                 && (forall k, other :: j < k <= i && SnapshotKey(lines[k]) == Some(other) ==> prefix <= other)
                 && (forall k :: j <= k < i ==> Trim(lines[k]) != "---") {
      SnapshotHeadingRemoves(prefix, lines, i, j);
    }
  }

  lemma {:induction false} SnapshotHeadingRemoves(prefix: string, lines: seq<string>, i: nat, j: nat)
    requires j <= i < |lines| && SnapshotKey(lines[j]).Some? && prefix <= SnapshotKey(lines[j]).value
    requires forall k, other :: j < k <= i && SnapshotKey(lines[k]) == Some(other) ==> prefix <= other
    requires forall k :: j <= k < i ==> Trim(lines[k]) != "---"
    ensures InRemovedSection(Snapshot, prefix, lines, i)
  {
    hide SnapshotKey, Trim;
    assert KindOf(Snapshot, prefix, lines[j]) == Target;
    assert Reaches(Snapshot, prefix, lines, j, i);
  }

  lemma {:induction false} RemovedBySnapshotHeading(prefix: string, lines: seq<string>, i: nat) returns (j: nat)
    requires i < |lines| && InRemovedSection(Snapshot, prefix, lines, i)
    ensures j <= i && SnapshotKey(lines[j]).Some? && prefix <= SnapshotKey(lines[j]).value
    ensures forall k, other :: j < k <= i && SnapshotKey(lines[k]) == Some(other) ==> prefix <= other
    ensures forall k :: j <= k < i ==> Trim(lines[k]) != "---"
  {
    j :| 0 <= j <= i && KindOf(Snapshot, prefix, lines[j]) == Target && Reaches(Snapshot, prefix, lines, j, i);
    hide SnapshotKey, Trim;
    forall k, other | j < k <= i && SnapshotKey(lines[k]) == Some(other) ensures prefix <= other {
      assert KindOf(Snapshot, prefix, lines[k]) != OtherHeading;
    }
    forall k | j <= k < i ensures Trim(lines[k]) != "---" {
      assert KindOf(Snapshot, prefix, lines[k]) != Ending;
      if SnapshotKey(lines[k]).Some? { EndingIsNoHeading(Snapshot, lines[k]); }
    }
  }

  lemma {:induction false} EndingIsNoHeading(p: Projection, line: string)
    requires KeyOf(p, line).Some?
    ensures p.Snapshot? ==> Trim(line) != "---"
  {
    hide TrimEnd, StripBacktick;
    if p.Snapshot? {
      assert line[0] == '#';
      assert TrimStart(line) == line;
      var r := Trim(line);
      if r != "" { assert r[0] == line[0]; }
    }
  }

  // ---------------------------------------------------------------- the rewriters

  method RewriteSnapshotProjection(existing: string, prefix: string) returns (output: string)
    ensures output == Rewritten(Snapshot, prefix, existing)
  {
    hide SplitInclusive, SnapshotKey, Trim;
    output := "";
    var skip := false;
    var lines := SplitInclusive(existing);
    assert lines[..0] == [];
    for i := 0 to |lines|
      invariant output == Concat(Kept(Snapshot, prefix, lines[..i]))
      invariant skip == Skipping(Snapshot, prefix, lines[..i])
    {
      var line := lines[i];
      OneMoreKept(Snapshot, prefix, lines, i);
      var heading := SnapshotKey(line);
      if heading.Some? {
        EndingIsNoHeading(Snapshot, line);
        skip := prefix <= heading.value;
      }
      if !skip {
        output := output + line;
      }
      if skip && Trim(line) == "---" {
        skip := false;
      }
    }
    assert lines[..|lines|] == lines;
  }

  lemma {:induction false} OneMoreKept(p: Projection, prefix: string, lines: seq<string>, i: nat)
    requires i < |lines|
    ensures Concat(Kept(p, prefix, lines[..i + 1]))
            == Concat(Kept(p, prefix, lines[..i]))
               + (if IsSkipped(p, prefix, lines[..i], lines[i]) then "" else lines[i])
    ensures Skipping(p, prefix, lines[..i + 1])
            == match KindOf(p, prefix, lines[i])
               case Target => true
               case OtherHeading => false
               case Ending => false
               case Body => Skipping(p, prefix, lines[..i])
  {
    hide KindOf;
    assert lines[..i + 1][..i] == lines[..i];
    var kept := Kept(p, prefix, lines[..i]);
    ConcatJoins(kept, [lines[i]]);
    assert kept + [] == kept && Concat([lines[i]]) == lines[i] + Concat([]);
  }

  // A block of the core projection: its key, unless it precedes every entry.
  type KeyedBlock = (Option<string>, string)

  predicate IsRemoved(block: KeyedBlock, prefix: string) {
    block.0.Some? && prefix <= block.0.value
  }

  function KeptBlocks(blocks: seq<KeyedBlock>, prefix: string): string {
    if blocks == [] then ""
    else
      var last := blocks[|blocks| - 1];
      KeptBlocks(blocks[..|blocks| - 1], prefix) + (if IsRemoved(last, prefix) then "" else last.1)
  }

  lemma {:induction false} BlockAdded(blocks: seq<KeyedBlock>, block: KeyedBlock, prefix: string)
    ensures KeptBlocks(blocks + [block], prefix)
            == KeptBlocks(blocks, prefix) + (if IsRemoved(block, prefix) then "" else block.1)
  {
    assert (blocks + [block])[..|blocks|] == blocks;
  }

  lemma {:induction false} BlockGrown(blocks: seq<KeyedBlock>, line: string, prefix: string)
    requires blocks != []
    ensures var n := |blocks| - 1;
            KeptBlocks(blocks[n := (blocks[n].0, blocks[n].1 + line)], prefix)
            == KeptBlocks(blocks, prefix) + (if IsRemoved(blocks[n], prefix) then "" else line)
  {
    var n := |blocks| - 1;
    assert blocks[n := (blocks[n].0, blocks[n].1 + line)][..n] == blocks[..n];
  }

  method RewriteCoreProjection(existing: string, prefix: string) returns (output: string)
    ensures output == Rewritten(Core, prefix, existing)
  {
    hide SplitInclusive, GeneratedBackupEntryKey, Kept, Concat, Skipping;
    var blocks: seq<KeyedBlock> := [];
    var lines := SplitInclusive(existing);
    NothingKept(Core, prefix, lines);
    for i := 0 to |lines|
      invariant blocks == [] <==> i == 0
      invariant KeptBlocks(blocks, prefix) == Concat(Kept(Core, prefix, lines[..i]))
      invariant Skipping(Core, prefix, lines[..i]) == (blocks != [] && IsRemoved(blocks[|blocks| - 1], prefix))
    {
      var line := lines[i];
      OneMoreKept(Core, prefix, lines, i);
      var key := GeneratedBackupEntryKey(line);
      if key.Some? || blocks == [] {
        BlockAdded(blocks, (key, line), prefix);
        blocks := blocks + [(key, line)];
      } else {
        BlockGrown(blocks, line, prefix);
        var n := |blocks| - 1;
        blocks := blocks[n := (blocks[n].0, blocks[n].1 + line)];
      }
    }
    assert lines[..|lines|] == lines;
    output := "";
    for i := 0 to |blocks|
      invariant output == KeptBlocks(blocks[..i], prefix)
    {
      assert blocks[..i + 1] == blocks[..i] + [blocks[i]];
      BlockAdded(blocks[..i], blocks[i], prefix);
      if blocks[i].0.None? || !(prefix <= blocks[i].0.value) {
        output := output + blocks[i].1;
      }
    }
    assert blocks[..|blocks|] == blocks;
  }

  lemma {:induction false} NothingKept(p: Projection, prefix: string, lines: seq<string>)
    ensures Concat(Kept(p, prefix, lines[..0])) == "" && !Skipping(p, prefix, lines[..0])
  {
  }

  // ---------------------------------------------------------------- the counters

  predicate IsCounted(p: Projection, prefix: string, line: string) {
    var key := CountedKey(p, line);
    key.Some? && prefix <= key.value
  }

  function CountIn(p: Projection, prefix: string, lines: seq<string>): nat {
    if lines == [] then 0
    else CountIn(p, prefix, lines[..|lines| - 1]) + (if IsCounted(p, prefix, lines[|lines| - 1]) then 1 else 0)
  }

  // The counters count the lines whose key has the prefix, each once.
  lemma {:induction false} CountsTheLines(p: Projection, prefix: string, lines: seq<string>)
    ensures CountIn(p, prefix, lines)
            == |set i | 0 <= i < |lines| && CountedKey(p, lines[i]).Some? && prefix <= CountedKey(p, lines[i]).value|
  {
    hide CountedKey;
    CountIsSize(p, prefix, lines);
    assert (set i | 0 <= i < |lines| && CountedKey(p, lines[i]).Some? && prefix <= CountedKey(p, lines[i]).value)
        == Counted(p, prefix, lines);
  }

  function Counted(p: Projection, prefix: string, lines: seq<string>): set<int> {
    set i | 0 <= i < |lines| && IsCounted(p, prefix, lines[i])
  }

  lemma {:induction false} CountIsSize(p: Projection, prefix: string, lines: seq<string>)
    ensures CountIn(p, prefix, lines) == |Counted(p, prefix, lines)|
  {
    hide IsCounted, Counted;
    if lines == [] {
      NothingCounted(p, prefix);
    } else {
      CountIsSize(p, prefix, lines[..|lines| - 1]);
      OneMoreCounted(p, prefix, lines);
    }
  }

  lemma {:induction false} NothingCounted(p: Projection, prefix: string)
    ensures Counted(p, prefix, []) == {}
  {
  }

  lemma {:induction false} OneMoreCounted(p: Projection, prefix: string, lines: seq<string>)
    requires lines != []
    ensures var n := |lines| - 1;
            && n !in Counted(p, prefix, lines[..n])
            && Counted(p, prefix, lines)
               == Counted(p, prefix, lines[..n]) + if IsCounted(p, prefix, lines[n]) then {n} else {}
  {
    hide IsCounted;
    var n := |lines| - 1;
    assert forall i :: 0 <= i < n ==> lines[..n][i] == lines[i];
  }

  function CountEntries(p: Projection, prefix: string, content: string): nat {
    CountIn(p, prefix, Lines(content))
  }

  // A pattern without line-break characters is found at the same place when a
  // line break follows.
  lemma {:induction false} FindBeforeBreak(s: string, end: string, pattern: string)
    requires pattern != "" && end in {"", "\n", "\r\n"} && '\n' !in pattern && '\r' !in pattern
    ensures Find(s + end, pattern) == Find(s, pattern)
  {
    hide Find, OccursAt;
    forall j: nat ensures OccursAt(s + end, pattern, j) <==> OccursAt(s, pattern, j) {
      OccursBeforeBreak(s, end, pattern, j);
    }
    FindFinds(s, pattern);
    if Find(s, pattern).Some? {
      FindIs(s + end, pattern, Find(s, pattern).value);
    } else {
      assert NoneBefore(s + end, pattern, |s + end| + 1) by {
        forall j: nat ensures !OccursAt(s, pattern, j) {
          if j > |s| { OccursInside(s, pattern, j); }
        }
      }
      FindIsNone(s + end, pattern);
    }
  }

  lemma {:induction false} OccursInside(s: string, pattern: string, j: nat)
    ensures OccursAt(s, pattern, j) ==> j <= |s|
  {
  }

  lemma {:induction false} OccursBeforeBreak(s: string, end: string, pattern: string, j: nat)
    requires pattern != "" && end in {"", "\n", "\r\n"} && '\n' !in pattern && '\r' !in pattern
    ensures OccursAt(s + end, pattern, j) <==> OccursAt(s, pattern, j)
  {
    var t, n := s + end, j + |pattern|;
    if n <= |s| {
      assert t[j..n] == s[j..n];
    } else if n <= |t| {
      assert t[j..n][|pattern| - 1] == t[n - 1] == end[n - 1 - |s|];
    }
  }

  lemma {:induction false} StrippedSplits(piece: string) returns (end: string)
    ensures end in {"", "\n", "\r\n"} && piece == Stripped(piece) + end
  {
    end := piece[|Stripped(piece)|..];
    var n := |piece|;
    if n > 0 && piece[n - 1] == '\n' {
      if n > 1 && piece[n - 2] == '\r' {
        assert end == "\r\n";
      } else {
        assert end == "\n";
      }
    } else {
      assert end == "";
    }
  }

  lemma {:induction false} PrefixBeforeBreak(s: string, end: string, pattern: string)
    requires pattern != "" && end in {"", "\n", "\r\n"} && '\n' !in pattern && '\r' !in pattern
    ensures pattern <= s + end <==> pattern <= s
  {
    OccursAtStart(s, pattern);
    OccursAtStart(s + end, pattern);
    OccursBeforeBreak(s, end, pattern, 0);
  }

  // The backup key is the same with and without the line break.
  lemma {:induction false} BackupKeyIgnoresBreak(s: string, end: string)
    requires end in {"", "\n", "\r\n"}
    ensures GeneratedBackupEntryKey(s + end) == GeneratedBackupEntryKey(s)
  {
    hide Find;
    PrefixBeforeBreak(s, end, "- [");
    if "- [" <= s {
      assert (s + end)[3..] == s[3..] + end;
      FindBeforeBreak(s[3..], end, "] **");
      if Find(s[3..], "] **").Some? {
        var i := Find(s[3..], "] **").value;
        var rest := s[3..][i + 4..];
        assert (s[3..] + end)[i + 4..] == rest + end;
        FindBeforeBreak(rest, end, "**:");
        if Find(rest, "**:").Some? {
          assert (rest + end)[..Find(rest, "**:").value] == rest[..Find(rest, "**:").value];
        }
      }
    }
  }

  // What the counter reads as a heading, the rewriter reads as one.
  lemma {:induction false} SnapshotKeyAllowsBreak(s: string, end: string)
    requires end in {"", "\n", "\r\n"}
    ensures CountedSnapshotKey(s).Some? ==> SnapshotKey(s + end) == CountedSnapshotKey(s)
    ensures CountedSnapshotKey(s).Some? <==> SnapshotKey(s + end).Some? && s[|s| - 1] == '`'
  {
    hide TrimEnd;
    PrefixBeforeBreak(s, end, SNAPSHOT_HEADING);
    if SNAPSHOT_HEADING <= s {
      var rest := s[|SNAPSHOT_HEADING|..];
      assert (s + end)[|SNAPSHOT_HEADING|..] == rest + end;
      assert rest != "" ==> s[|s| - 1] == rest[|rest| - 1];
      if rest != "" && rest[|rest| - 1] == '`' {
        TrimEndSkips(rest, end);
      } else if rest == "" {
        assert rest + end == "" + end;
        TrimEndSkips("", end);
      }
    }
  }

  // The counter counts a line exactly when the rewriter removes it as a heading
  // and, in a snapshot, nothing follows its backtick.
  lemma {:induction false} CounterAgrees(p: Projection, prefix: string, piece: string)
    ensures IsCounted(p, prefix, Stripped(piece))
            <==> KindOf(p, prefix, piece) == Target
                 && (p.Snapshot? ==> Stripped(piece) != "" && Stripped(piece)[|Stripped(piece)| - 1] == '`')
  {
    hide GeneratedBackupEntryKey, SnapshotKey, CountedSnapshotKey, Stripped;
    var end := StrippedSplits(piece);
    var s := Stripped(piece);
    match p
    case Core => BackupKeyIgnoresBreak(s, end);
    case Snapshot =>
      SnapshotKeyAllowsBreak(s, end);
      HeadingIsNotEmpty(s);
  }

  lemma {:induction false} HeadingIsNotEmpty(s: string)
    ensures CountedSnapshotKey(s).Some? ==> s != ""
  {
  }

  // So the counter misses a heading the rewriter removes, one with whitespace
  // behind its backtick.
  lemma {:induction false} CounterMissesPaddedHeading(key: string, prefix: string)
    requires prefix <= key
    ensures var line := SNAPSHOT_HEADING + key + "` ";
            KindOf(Snapshot, prefix, line) == Target && !IsCounted(Snapshot, prefix, line)
  {
    hide TrimEnd;
    var line := SNAPSHOT_HEADING + key + "` ";
    assert line[|SNAPSHOT_HEADING|..] == (key + "`") + " ";
    TrimEndSkips(key + "`", " ");
    assert (key + "`")[..|key|] == key;
  }

  // ---------------------------------------------------------------- after a rewrite

  lemma {:induction false} KeptAreLines(p: Projection, prefix: string, lines: seq<string>)
    requires AreLines(lines)
    ensures AreLines(Kept(p, prefix, lines))
  {
    hide IsSkipped, IsWholeLine, IsLastLine;
    if lines != [] {
      var before, last := lines[..|lines| - 1], lines[|lines| - 1];
      KeptAreWhole(p, prefix, before);
      var kept := Kept(p, prefix, before);
      WholeAreLines(kept);
      assert forall i :: 0 <= i < |kept| ==> (kept + [last])[i] == kept[i];
    }
  }

  lemma {:induction false} WholeAreLines(lines: seq<string>)
    requires forall i :: 0 <= i < |lines| ==> IsWholeLine(lines[i])
    ensures AreLines(lines)
  {
  }

  lemma {:induction false} KeptAreWhole(p: Projection, prefix: string, lines: seq<string>)
    requires forall i :: 0 <= i < |lines| ==> IsWholeLine(lines[i])
    ensures forall i :: 0 <= i < |Kept(p, prefix, lines)| ==> IsWholeLine(Kept(p, prefix, lines)[i])
  {
    hide IsSkipped, IsWholeLine;
    if lines != [] { KeptAreWhole(p, prefix, lines[..|lines| - 1]); }
  }

  lemma {:induction false} KeptHoldsNoTarget(p: Projection, prefix: string, lines: seq<string>)
    ensures forall i :: 0 <= i < |Kept(p, prefix, lines)| ==> KindOf(p, prefix, Kept(p, prefix, lines)[i]) != Target
  {
    hide KindOf;
    if lines != [] { KeptHoldsNoTarget(p, prefix, lines[..|lines| - 1]); }
  }

  lemma {:induction false} WithoutTargetNothingIsSkipped(p: Projection, prefix: string, lines: seq<string>)
    requires forall i :: 0 <= i < |lines| ==> KindOf(p, prefix, lines[i]) != Target
    ensures !Skipping(p, prefix, lines) && Kept(p, prefix, lines) == lines
  {
    hide KindOf;
    if lines != [] {
      WithoutTargetNothingIsSkipped(p, prefix, lines[..|lines| - 1]);
      assert lines == lines[..|lines| - 1] + [lines[|lines| - 1]];
    }
  }

  // The rewritten text has the kept lines and no others.
  lemma {:induction false} RewrittenLines(p: Projection, prefix: string, content: string)
    ensures SplitInclusive(Rewritten(p, prefix, content)) == Kept(p, prefix, SplitInclusive(content))
  {
    hide SplitInclusive, Concat, Kept, AreLines;
    SplittingCutsIntoLines(content);
    KeptAreLines(p, prefix, SplitInclusive(content));
    LinesAreSplitAgain(Kept(p, prefix, SplitInclusive(content)));
  }

  lemma {:induction false} NoTargetCountsZero(p: Projection, prefix: string, pieces: seq<string>)
    requires forall i :: 0 <= i < |pieces| ==> KindOf(p, prefix, pieces[i]) != Target
    ensures CountIn(p, prefix, StripAll(pieces)) == 0
  {
    hide KindOf, IsCounted, Stripped;
    if pieces != [] {
      var n := |pieces| - 1;
      CounterAgrees(p, prefix, pieces[n]);
      NoTargetCountsZero(p, prefix, pieces[..n]);
      assert StripAll(pieces)[..n] == StripAll(pieces[..n]);
    }
  }

  // After a rewrite the counter finds nothing, though it splits lines its own
  // way; and a second rewrite changes nothing.
  lemma {:induction false} RewriteClearsAndSettles(p: Projection, prefix: string, content: string)
    ensures CountEntries(p, prefix, Rewritten(p, prefix, content)) == 0
    ensures Rewritten(p, prefix, Rewritten(p, prefix, content)) == Rewritten(p, prefix, content)
  {
    hide KindOf, SplitInclusive, Concat, Kept, CountIn;
    var kept := Kept(p, prefix, SplitInclusive(content));
    RewrittenLines(p, prefix, content);
    KeptHoldsNoTarget(p, prefix, SplitInclusive(content));
    NoTargetCountsZero(p, prefix, kept);
    WithoutTargetNothingIsSkipped(p, prefix, kept);
  }
}
