/** Logical lines of a Dockerfile: mergeContinuations in pkg/dockerfile/parser.go. */
module DockerfileText {
  import opened Text

  /** strings.TrimRight for spaces and tabs. */
  function TrimBlanks(s: string): string {
    if s != "" && (s[|s| - 1] == ' ' || s[|s| - 1] == '\t') then TrimBlanks(s[..|s| - 1]) else s
  }

  function TrimRight(s: string): string {
    if s != "" && IsSpace(s[|s| - 1]) then TrimRight(s[..|s| - 1]) else s
  }

  function TrimLeft(s: string): string {
    if s != "" && IsSpace(s[0]) then TrimLeft(s[1..]) else s
  }

  /** strings.TrimSpace. */
  function TrimSpace(s: string): string {
    TrimRight(TrimLeft(s))
  }

  predicate EndsInBackslash(s: string) {
    s != "" && s[|s| - 1] == '\\'
  }

  predicate Continued(line: string) {
    EndsInBackslash(TrimBlanks(line))
  }

  /** A line without its trailing blanks and its continuation mark. */
  function Body(line: string): string {
    var trimmed := TrimBlanks(line);
    if EndsInBackslash(trimmed) then trimmed[..|trimmed| - 1] else trimmed
  }

  /** Logical lines that are complete, and the text of the one that is still open. */
  datatype Progress = Progress(merged: seq<string>, current: string)

  function Merge(lines: seq<string>): Progress {
    if lines == [] then Progress([], "")
    else
      var n := |lines| - 1;
      var before := Merge(lines[..n]);
      if Continued(lines[n]) then before.(current := before.current + Body(lines[n]) + " ")
      else Progress(before.merged + [before.current + Body(lines[n])], "")
  }

  function Logical(lines: seq<string>): seq<string> {
    var end := Merge(lines);
    end.merged + if end.current == "" then [] else [end.current]
  }

  predicate Dropped(line: string) {
    TrimSpace(line) == "" || TrimSpace(line)[0] == '#'
  }

  function Kept(logical: seq<string>): seq<string> {
    if logical == [] then []
    else
      var n := |logical| - 1;
      Kept(logical[..n]) + if Dropped(logical[n]) then [] else [TrimSpace(logical[n])]
  }

  lemma NextMerged(lines: seq<string>, n: nat)
    requires n < |lines|
    ensures var before := Merge(lines[..n]);
            Merge(lines[..n + 1])
              == if Continued(lines[n]) then before.(current := before.current + Body(lines[n]) + " ")
                 else Progress(before.merged + [before.current + Body(lines[n])], "")
  {
    assert lines[..n + 1][..n] == lines[..n];
  }

  lemma NextKept(logical: seq<string>, n: nat)
    requires n < |logical|
    ensures Kept(logical[..n + 1])
         == Kept(logical[..n]) + if Dropped(logical[n]) then [] else [TrimSpace(logical[n])]
  {
    assert logical[..n + 1][..n] == logical[..n];
  }

  method MergeContinuations(lines: seq<string>) returns (result: seq<string>)
    ensures result == Kept(Logical(lines))
  {
    var merged: seq<string> := [];
    var current := "";
    for i := 0 to |lines|
      invariant Merge(lines[..i]) == Progress(merged, current)
    {
      NextMerged(lines, i);
      var trimmed := TrimBlanks(lines[i]);
      if EndsInBackslash(trimmed) {
        current := current + trimmed[..|trimmed| - 1];
        current := current + " ";
        continue;
      }
      current := current + trimmed;
      merged := merged + [current];
      current := "";
    }
    assert lines[..|lines|] == lines;
    if |current| > 0 {
      merged := merged + [current];
    }
    assert merged == Logical(lines);
    result := [];
    for i := 0 to |merged|
      invariant Kept(merged[..i]) == result
    {
      NextKept(merged, i);
      var line := TrimSpace(merged[i]);
      if line == "" || HasPrefix(line, "#") {
        continue;
      }
      result := result + [line];
    }
    assert merged[..|merged|] == merged;
  }

  /** A text without its white space. */
  function Visible(s: string): string {
    if s == "" then ""
    else Visible(s[..|s| - 1]) + if IsSpace(s[|s| - 1]) then "" else [s[|s| - 1]]
  }

  lemma {:induction false} VisibleConcat(a: string, b: string)
    ensures Visible(a + b) == Visible(a) + Visible(b)
    decreases b
  {
    if b == "" {
      assert a + b == a;
    } else {
      assert (a + b)[..|a + b| - 1] == a + b[..|b| - 1];
      VisibleConcat(a, b[..|b| - 1]);
    }
  }

  lemma {:induction false} TrimBlanksKeeps(s: string)
    ensures Visible(TrimBlanks(s)) == Visible(s)
  {
    if s != "" && (s[|s| - 1] == ' ' || s[|s| - 1] == '\t') {
      TrimBlanksKeeps(s[..|s| - 1]);
    }
  }

  lemma {:induction false} TrimRightKeeps(s: string)
    ensures Visible(TrimRight(s)) == Visible(s)
    ensures TrimRight(s) != "" ==> !IsSpace(TrimRight(s)[|TrimRight(s)| - 1])
    ensures s != "" && !IsSpace(s[0]) ==> TrimRight(s) != "" && TrimRight(s)[0] == s[0]
  {
    if s != "" && IsSpace(s[|s| - 1]) {
      TrimRightKeeps(s[..|s| - 1]);
    }
  }

  lemma {:induction false} TrimLeftKeeps(s: string)
    ensures Visible(TrimLeft(s)) == Visible(s)
    ensures TrimLeft(s) != "" ==> !IsSpace(TrimLeft(s)[0])
  {
    if s != "" && IsSpace(s[0]) {
      TrimLeftKeeps(s[1..]);
      assert s == [s[0]] + s[1..];
      VisibleConcat([s[0]], s[1..]);
      assert Visible([s[0]]) == "" by {
        assert [s[0]][..0] == "";
      }
    }
  }

  predicate Trimmed(s: string) {
    s != "" && !IsSpace(s[0]) && !IsSpace(s[|s| - 1])
  }

  lemma TrimSpaceKeeps(s: string)
    ensures Visible(TrimSpace(s)) == Visible(s)
    ensures TrimSpace(s) != "" ==> Trimmed(TrimSpace(s))
  {
    TrimLeftKeeps(s);
    TrimRightKeeps(TrimLeft(s));
  }

  lemma TrimmedStays(s: string)
    requires Trimmed(s)
    ensures TrimSpace(s) == s && TrimBlanks(s) == s
  {
  }

  lemma {:induction false} BlanksGo(s: string, n: nat)
    requires n <= |s| && (forall k | n <= k < |s| :: s[k] == ' ' || s[k] == '\t')
    requires n > 0 ==> s[n - 1] != ' ' && s[n - 1] != '\t'
    ensures TrimBlanks(s) == s[..n]
    decreases |s|
  {
    if n < |s| {
      BlanksGo(s[..|s| - 1], n);
      assert s[..|s| - 1][..n] == s[..n];
    } else {
      assert s[..n] == s;
    }
  }

  /** A line is continued exactly when a backslash is the last character that is neither blank nor tab; its
      body is what comes before the mark, or before the trailing blanks if there is no mark. */
  lemma MarkIsLast(line: string, k: nat)
    requires k < |line| && line[k] != ' ' && line[k] != '\t'
    requires forall j | k < j < |line| :: line[j] == ' ' || line[j] == '\t'
    ensures Continued(line) <==> line[k] == '\\'
    ensures Body(line) == if line[k] == '\\' then line[..k] else line[..k + 1]
  {
    BlanksGo(line, k + 1);
    assert line[..k + 1][..k] == line[..k];
  }

  /** Everything that is visible in some lines, in order. */
  function Ink(lines: seq<string>): string {
    if lines == [] then "" else Ink(lines[..|lines| - 1]) + Visible(lines[|lines| - 1])
  }

  function Bodies(lines: seq<string>): seq<string> {
    if lines == [] then [] else Bodies(lines[..|lines| - 1]) + [Body(lines[|lines| - 1])]
  }

  lemma InkAppend(lines: seq<string>, line: string)
    ensures Ink(lines + [line]) == Ink(lines) + Visible(line)
  {
    assert (lines + [line])[..|lines|] == lines;
  }

  lemma {:induction false} MergeKeepsInk(lines: seq<string>)
    ensures Ink(Merge(lines).merged) + Visible(Merge(lines).current) == Ink(Bodies(lines))
  {
    if lines != [] {
      var n := |lines| - 1;
      MergeKeepsInk(lines[..n]);
      var before := Merge(lines[..n]);
      InkAppend(Bodies(lines[..n]), Body(lines[n]));
      OpenInk(before.merged, before.current, Body(lines[n]));
    }
  }

  /** A body that is added to the open line, which then is left open or closed. */
  lemma OpenInk(merged: seq<string>, current: string, body: string)
    ensures Ink(merged) + Visible(current + body + " ") == Ink(merged) + Visible(current) + Visible(body)
    ensures Ink(merged + [current + body]) + Visible("") == Ink(merged) + Visible(current) + Visible(body)
  {
    VisibleConcat(current, body);
    VisibleBlank(current + body);
    InkAppend(merged, current + body);
    AddVisible(Ink(merged), Visible(current), Visible(body));
  }

  lemma AddVisible(x: string, y: string, z: string)
    ensures x + (y + z) == x + y + z && x + (y + z) + Visible("") == x + y + z
  {
  }

  lemma VisibleBlank(text: string)
    ensures Visible(text + " ") == Visible(text)
  {
    assert (text + " ")[..|text|] == text;
  }

  /** Merging loses no visible character but the continuation backslashes, and keeps their order. */
  lemma LogicalLinesKeepInk(lines: seq<string>)
    ensures Ink(Logical(lines)) == Ink(Bodies(lines))
  {
    MergeKeepsInk(lines);
    var end := Merge(lines);
    if end.current != "" {
      InkAppend(end.merged, end.current);
    } else {
      assert end.merged + [] == end.merged;
    }
  }

  lemma {:induction false} MergeKeepsWords(lines: seq<string>)
    ensures AllFields(Merge(lines).merged) + Fields(Merge(lines).current) == AllFields(Bodies(lines))
    ensures Merge(lines).current != "" ==> HasSuffix(Merge(lines).current, " ")
  {
    if lines != [] {
      var n := |lines| - 1;
      MergeKeepsWords(lines[..n]);
      var before := Merge(lines[..n]);
      var body := Body(lines[n]);
      AllFieldsAppend(Bodies(lines[..n]), body);
      OpenLine(before.current, body);
      assert AllFields(Bodies(lines))
          == AllFields(before.merged) + (Fields(before.current) + Fields(body));
      if Continued(lines[n]) {
        TrailingBlank(before.current + body);
      } else {
        AllFieldsAppend(before.merged, before.current + body);
        NoWords(AllFields(Merge(lines).merged));
      }
    }
  }

  lemma NoWords(words: seq<string>)
    ensures words + Fields("") == words
  {
  }

  lemma TrailingBlank(text: string)
    ensures Fields(text + " ") == Fields(text)
  {
    FieldsSplit(text, "");
    assert text + " " + "" == text + " ";
    NoWords(Fields(text));
  }

  lemma OpenLine(current: string, body: string)
    requires current != "" ==> HasSuffix(current, " ")
    ensures Fields(current + body) == Fields(current) + Fields(body)
  {
    if current == "" {
      assert current + body == body;
      assert Fields(current) == [];
    } else {
      var text := current[..|current| - 1];
      assert current == text + " ";
      FieldsSplit(text, body);
      TrailingBlank(text);
    }
  }

  /** Merging glues no two words together and splits none. */
  lemma LogicalLinesKeepWords(lines: seq<string>)
    ensures AllFields(Logical(lines)) == AllFields(Bodies(lines))
  {
    MergeKeepsWords(lines);
    var end := Merge(lines);
    if end.current != "" {
      AllFieldsAppend(end.merged, end.current);
    } else {
      assert end.merged + [] == end.merged;
    }
  }

  predicate Comment(line: string) {
    Visible(line) != "" && Visible(line)[0] == '#'
  }

  /** What is visible in the lines that are not comments. */
  function Spoken(lines: seq<string>): string {
    if lines == [] then ""
    else Spoken(lines[..|lines| - 1]) + if Comment(lines[|lines| - 1]) then "" else Visible(lines[|lines| - 1])
  }

  lemma FirstVisible(s: string)
    requires s != "" && !IsSpace(s[0])
    ensures Visible(s) != "" && Visible(s)[0] == s[0]
  {
    var first, rest := [s[0]], s[1..];
    assert s == first + rest;
    VisibleConcat(first, rest);
    OneVisible(s[0]);
  }

  lemma OneVisible(c: char)
    requires !IsSpace(c)
    ensures Visible([c]) == [c]
  {
    assert [c][..0] == "";
  }

  lemma DroppedLines(line: string)
    ensures Dropped(line) <==> Visible(line) == "" || Comment(line)
  {
    TrimSpaceKeeps(line);
    if TrimSpace(line) != "" {
      FirstVisible(TrimSpace(line));
    }
  }

  /** Dropping blank lines and comments loses nothing else, and what is left is trimmed, not empty and no
      comment. */
  lemma {:induction false} KeptLines(logical: seq<string>)
    ensures Ink(Kept(logical)) == Spoken(logical)
    ensures forall line | line in Kept(logical) :: Trimmed(line) && line[0] != '#'
  {
    if logical != [] {
      var n := |logical| - 1;
      KeptLines(logical[..n]);
      DroppedLines(logical[n]);
      TrimSpaceKeeps(logical[n]);
      if Dropped(logical[n]) {
        assert Kept(logical[..n]) + [] == Kept(logical[..n]);
      } else {
        InkAppend(Kept(logical[..n]), TrimSpace(logical[n]));
      }
    }
  }

  /** The result for a Dockerfile: its lines are trimmed, not empty and no comments, and they show what the
      logical lines show, which is what the raw lines show without their continuation marks. */
  lemma NothingVisibleIsLost(lines: seq<string>)
    ensures forall line | line in Kept(Logical(lines)) :: Trimmed(line) && line[0] != '#'
    ensures Ink(Kept(Logical(lines))) == Spoken(Logical(lines))
    ensures Ink(Logical(lines)) == Ink(Bodies(lines))
  {
    KeptLines(Logical(lines));
    LogicalLinesKeepInk(lines);
  }

  predicate Clean(lines: seq<string>) {
    forall line | line in lines :: Trimmed(line) && line[0] != '#'
  }

  lemma {:induction false} CleanStays(lines: seq<string>)
    requires Clean(lines) && forall line | line in lines :: !EndsInBackslash(line)
    ensures Merge(lines) == Progress(lines, "") && Kept(lines) == lines
  {
    if lines != [] {
      var n := |lines| - 1;
      assert lines == lines[..n] + [lines[n]];
      CleanStays(lines[..n]);
      TrimmedStays(lines[n]);
      assert "" + lines[n] == lines[n];
    }
  }

  lemma {:induction false} SpokenIsShort(lines: seq<string>)
    ensures |Spoken(lines)| <= |Ink(lines)|
  {
    if lines != [] {
      SpokenIsShort(lines[..|lines| - 1]);
    }
  }

  lemma {:induction false} BodiesAreShort(lines: seq<string>)
    requires Clean(lines)
    ensures |Ink(Bodies(lines))| <= |Ink(lines)|
    ensures (exists line :: line in lines && EndsInBackslash(line)) ==> |Ink(Bodies(lines))| < |Ink(lines)|
  {
    if lines != [] {
      var n := |lines| - 1;
      assert lines == lines[..n] + [lines[n]];
      BodiesAreShort(lines[..n]);
      InkAppend(Bodies(lines[..n]), Body(lines[n]));
      TrimmedStays(lines[n]);
      if EndsInBackslash(lines[n]) {
        assert Visible(lines[n]) == Visible(Body(lines[n])) + "\\";
      }
    }
  }

  /** Merging its own result again changes nothing, if and only if no line of it ends in a backslash. */
  lemma MergingTwice(lines: seq<string>)
    ensures var once := Kept(Logical(lines));
            Kept(Logical(once)) == once <==> forall line | line in once :: !EndsInBackslash(line)
  {
    var once := Kept(Logical(lines));
    NothingVisibleIsLost(lines);
    if forall line | line in once :: !EndsInBackslash(line) {
      CleanStays(once);
      assert once + [] == once;
    } else {
      NothingVisibleIsLost(once);
      SpokenIsShort(Logical(once));
      BodiesAreShort(once);
    }
  }

  lemma {:induction false} TrimmedParts(s: string)
    ensures forall c | c in TrimSpace(s) :: c in s
  {
    TrimLeftParts(s);
    TrimRightParts(TrimLeft(s));
  }

  lemma {:induction false} TrimLeftParts(s: string)
    ensures forall c | c in TrimLeft(s) :: c in s
  {
    if s != "" && IsSpace(s[0]) {
      TrimLeftParts(s[1..]);
    }
  }

  lemma {:induction false} TrimRightParts(s: string)
    ensures forall c | c in TrimRight(s) :: c in s
  {
    if s != "" && IsSpace(s[|s| - 1]) {
      TrimRightParts(s[..|s| - 1]);
    }
  }

  lemma {:induction false} NoBackslashMerged(lines: seq<string>)
    requires forall line | line in lines :: '\\' !in Body(line)
    ensures '\\' !in Merge(lines).current && forall line | line in Merge(lines).merged :: '\\' !in line
  {
    if lines != [] {
      NoBackslashMerged(lines[..|lines| - 1]);
    }
  }

  lemma {:induction false} NoBackslashKept(logical: seq<string>)
    requires forall line | line in logical :: '\\' !in line
    ensures forall line | line in Kept(logical) :: '\\' !in line
  {
    if logical != [] {
      NoBackslashKept(logical[..|logical| - 1]);
      TrimmedParts(logical[|logical| - 1]);
    }
  }

  /** So a Dockerfile whose only backslashes are continuation marks is merged once and for all. */
  lemma OnlyContinuationMarks(lines: seq<string>)
    requires forall line | line in lines :: '\\' !in Body(line)
    ensures Kept(Logical(Kept(Logical(lines)))) == Kept(Logical(lines))
  {
    NoBackslashMerged(lines);
    NoBackslashKept(Logical(lines));
    MergingTwice(lines);
  }

  // The same condition on the raw lines

  /** What the raw lines from `i` to before `j` show. */
  function Shown(lines: seq<string>, i: nat, j: nat): string
    requires i <= j <= |lines|
  {
    Ink(Bodies(lines[i..j]))
  }

  /** A text that is no comment and ends in a backslash. */
  predicate Marked(ink: string) {
    ink != "" && ink[0] != '#' && ink[|ink| - 1] == '\\'
  }

  /** Where the logical line begins that is open behind the lines. */
  function OpenFrom(lines: seq<string>): (i: nat)
    ensures i <= |lines|
    ensures i == 0 || !Continued(lines[i - 1])
    ensures forall m | i <= m < |lines| :: Continued(lines[m])
  {
    if lines == [] then 0
    else if Continued(lines[|lines| - 1]) then OpenFrom(lines[..|lines| - 1]) else |lines|
  }

  lemma ShownNext(lines: seq<string>, i: nat, j: nat)
    requires i <= j < |lines|
    ensures Shown(lines, i, j + 1) == Shown(lines, i, j) + Visible(Body(lines[j]))
  {
    assert lines[i..j + 1][..j - i] == lines[i..j];
    InkAppend(Bodies(lines[i..j]), Body(lines[j]));
  }

  lemma {:induction false} OpenShows(lines: seq<string>)
    ensures Visible(Merge(lines).current) == Shown(lines, OpenFrom(lines), |lines|)
    ensures Merge(lines).current == "" <==> OpenFrom(lines) == |lines|
  {
    if lines == [] {
    } else {
      var n := |lines| - 1;
      var front := lines[..n];
      OpenShows(front);
      if Continued(lines[n]) {
        LineShows(lines);
        VisibleConcat(Merge(front).current, Body(lines[n]));
        VisibleBlank(Merge(front).current + Body(lines[n]));
      } else {
        assert lines[n + 1..n + 1] == [];
      }
    }
  }

  /** What the last line adds to the logical line that is open before it. */
  lemma LineShows(lines: seq<string>)
    requires lines != []
    ensures var n := |lines| - 1;
            var i := OpenFrom(lines[..n]);
            Shown(lines, i, n + 1) == Shown(lines[..n], i, n) + Visible(Body(lines[n]))
  {
    var n := |lines| - 1;
    var i := OpenFrom(lines[..n]);
    assert lines[..n][i..n] == lines[i..n];
    ShownNext(lines, i, n);
  }

  predicate Starts(lines: seq<string>, i: nat, j: nat) {
    && i <= j < |lines| && (i == 0 || !Continued(lines[i - 1]))
    && forall m | i <= m < j :: Continued(lines[m])
  }

  /** The raw lines make a logical line that is complete and marked. */
  predicate MarkedGroup(lines: seq<string>, i: nat, j: nat) {
    Starts(lines, i, j) && !Continued(lines[j]) && Marked(Shown(lines, i, j + 1))
  }

  predicate AnyMarked(logical: seq<string>) {
    exists line :: line in logical && Marked(Visible(line))
  }

  ghost predicate AnyMarkedGroup(lines: seq<string>) {
    exists i: nat, j: nat :: MarkedGroup(lines, i, j)
  }

  lemma StartsInside(lines: seq<string>, i: nat, k: nat, j: nat)
    ensures Starts(lines, i, j) && i < k <= j ==> Continued(lines[k - 1])
  {
  }

  lemma LastStarts(lines: seq<string>, i: nat)
    requires lines != []
    ensures Starts(lines, i, |lines| - 1) <==> i == OpenFrom(lines[..|lines| - 1])
  {
    var n := |lines| - 1;
    var open := OpenFrom(lines[..n]);
    assert forall m | 0 <= m < n :: lines[..n][m] == lines[m];
    assert Starts(lines, open, n);
    StartsInside(lines, i, open, n);
    StartsInside(lines, open, i, n);
  }

  lemma EarlierGroup(lines: seq<string>, i: nat, j: nat)
    requires lines != [] && j < |lines| - 1
    ensures MarkedGroup(lines, i, j) <==> MarkedGroup(lines[..|lines| - 1], i, j)
  {
    var front := lines[..|lines| - 1];
    if i <= j {
      assert front[i..j + 1] == lines[i..j + 1];
      assert forall m | 0 <= m <= j :: front[m] == lines[m];
    }
  }

  /** Groups of raw lines from the groups of the lines before the last one. */
  lemma NextGroup(lines: seq<string>)
    requires lines != []
    ensures var n := |lines| - 1;
            AnyMarkedGroup(lines) <==>
              AnyMarkedGroup(lines[..n]) || MarkedGroup(lines, OpenFrom(lines[..n]), n)
  {
    var n := |lines| - 1;
    if i: nat, j: nat :| MarkedGroup(lines, i, j) {
      if j < n {
        EarlierGroup(lines, i, j);
      } else {
        LastStarts(lines, i);
      }
    }
    if i: nat, j: nat :| MarkedGroup(lines[..n], i, j) {
      EarlierGroup(lines, i, j);
    }
  }

  lemma {:induction false} MergedGroups(lines: seq<string>)
    ensures AnyMarked(Merge(lines).merged) <==> AnyMarkedGroup(lines)
  {
    if lines != [] {
      var n := |lines| - 1;
      var front := lines[..n];
      MergedGroups(front);
      NextGroup(lines);
      LastStarts(lines, OpenFrom(front));
      if !Continued(lines[n]) {
        var current := Merge(front).current;
        OpenShows(front);
        LineShows(lines);
        VisibleConcat(current, Body(lines[n]));
        AnyMarkedAppend(Merge(front).merged, current + Body(lines[n]));
      }
    }
  }

  lemma AnyMarkedAppend(logical: seq<string>, line: string)
    ensures AnyMarked(logical + [line]) <==> AnyMarked(logical) || Marked(Visible(line))
  {
    if AnyMarked(logical) {
      var some :| some in logical && Marked(Visible(some));
      assert some in logical + [line];
    }
    assert line in logical + [line];
  }

  /** A logical line ends up with a backslash exactly when what it shows is marked. */
  lemma MarkedLine(line: string)
    ensures Marked(Visible(line)) <==> !Dropped(line) && EndsInBackslash(TrimSpace(line))
  {
    DroppedLines(line);
    TrimSpaceKeeps(line);
    var s := TrimSpace(line);
    if s != "" {
      assert Visible(s) == Visible(s[..|s| - 1]) + [s[|s| - 1]];
    }
  }

  lemma {:induction false} KeptMarked(logical: seq<string>)
    ensures AnyMarked(logical) <==> exists line :: line in Kept(logical) && EndsInBackslash(line)
  {
    if logical != [] {
      var n := |logical| - 1;
      var last := logical[n];
      KeptMarked(logical[..n]);
      MarkedLine(last);
      assert logical == logical[..n] + [last];
      AnyMarkedAppend(logical[..n], last);
      if Marked(Visible(last)) {
        assert TrimSpace(last) in Kept(logical);
      }
    }
  }

  /** The logical line that is open behind the last raw line. */
  predicate OpenMarked(lines: seq<string>) {
    OpenFrom(lines) < |lines| && Marked(Shown(lines, OpenFrom(lines), |lines|))
  }

  /** On the raw lines: merging the result again changes nothing, if and only if no run of lines that are
      joined by continuation marks shows a text that is no comment and ends in a backslash. A run may be
      one line, and a last one may be open; a backslash in front of a carriage return is no mark. */
  lemma MergingTwiceRaw(lines: seq<string>)
    ensures Kept(Logical(Kept(Logical(lines)))) == Kept(Logical(lines))
       <==> !AnyMarkedGroup(lines) && !OpenMarked(lines)
  {
    MergingTwice(lines);
    KeptMarked(Logical(lines));
    MergedGroups(lines);
    OpenShows(lines);
    var end := Merge(lines);
    if end.current == "" {
      assert end.merged + [] == end.merged;
    } else {
      AnyMarkedAppend(end.merged, end.current);
    }
  }
}
