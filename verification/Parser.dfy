/** FROM and COPY lines and the stage aliases of pkg/dockerfile/parser.go. */
module Parser {
  import opened Text
  import opened DockerfileText

  datatype Instruction =
    | From(image: string, platform: string, stage: string)
    | Copy(sources: seq<string>, destination: string, fromStage: string)
    | Other(line: string)

  /** What a line parses to: an instruction, nothing, or an error. */
  datatype Parsed = Ok(instruction: Instruction) | Skip | Err

  predicate OccursAt(s: string, sub: string, i: nat) {
    i + |sub| <= |s| && forall k | 0 <= k < |sub| :: s[i + k] == sub[k]
  }

  /** strings.Index. */
  function Index(s: string, sub: string): (i: int)
    ensures -1 <= i
    ensures i >= 0 ==> i + |sub| <= |s| && sub <= s[i..]
  {
    if |s| < |sub| then -1
    else if sub <= s then 0
    else
      var i := Index(s[1..], sub);
      assert i >= 0 ==> s[1..][i..] == s[i + 1..];
      if i < 0 then -1 else i + 1
  }

  predicate IsBlank(c: char) {
    c == ' ' || c == '\t'
  }

  /** strings.IndexAny for spaces and tabs. */
  function IndexBlank(s: string): (i: int)
    ensures -1 <= i < |s| && (i >= 0 ==> IsBlank(s[i]))
    ensures forall k | 0 <= k < if i < 0 then |s| else i :: !IsBlank(s[k])
  {
    if s == "" then -1
    else if IsBlank(s[0]) then 0
    else
      var i := IndexBlank(s[1..]);
      assert forall k | 1 <= k < |s| :: s[k] == s[1..][k - 1];
      if i < 0 then -1 else i + 1
  }

  function SplitLine(line: string): (string, string) {
    var trimmed := TrimSpace(line);
    var i := IndexBlank(trimmed);
    if i >= 0 then (trimmed[..i], TrimSpace(trimmed[i + 1..])) else (trimmed, "")
  }

  const PLATFORM := "--platform="
  const FROM_STAGE := "--from="

  /** The text between the flag at `i` and the next blank; the flag itself has none. */
  function PlatformAt(rest: string, i: nat): string
    requires i + 11 <= |rest|
  {
    var end := IndexBlank(rest[i..]);
    if end >= 11 then rest[i + 11..i + end] else rest[i + 11..]
  }

  function Platform(rest: string): string {
    var i := Index(rest, PLATFORM);
    if i < 0 then "" else PlatformAt(rest, i)
  }

  function WithoutPlatform(rest: string): string {
    var space := Index(rest, " ");
    if PLATFORM <= rest && space >= 0 then TrimSpace(rest[space..]) else rest
  }

  function AsIndex(clean: string): (i: int)
    ensures i >= 0 ==> i + 4 <= |clean|
  {
    var i := Index(clean, " AS ");
    if i < 0 then Index(clean, " as ") else i
  }

  function ImageAndStage(clean: string): (string, string) {
    var i := AsIndex(clean);
    if i >= 0 then (TrimSpace(clean[..i]), TrimSpace(clean[i + 4..])) else (TrimSpace(clean), "")
  }

  function ParseFrom(rest: string): Parsed {
    var (image, stage) := ImageAndStage(WithoutPlatform(rest));
    if rest == "" || image == "" then Err else Ok(From(image, Platform(rest), stage))
  }

  /** The words of a COPY line without its flags, and the last stage that a flag names. */
  function Filtered(parts: seq<string>): seq<string> {
    if parts == [] then []
    else
      var n := |parts| - 1;
      Filtered(parts[..n]) + if FROM_STAGE <= parts[n] then [] else [parts[n]]
  }

  function Stage(parts: seq<string>): string {
    if parts == [] then ""
    else
      var n := |parts| - 1;
      if FROM_STAGE <= parts[n] then parts[n][7..] else Stage(parts[..n])
  }

  function ParseCopy(rest: string): Parsed {
    var parts := Fields(rest);
    var words := Filtered(parts);
    if |words| < 2 then Err
    else Ok(Copy(words[..|words| - 1], words[|words| - 1], Stage(parts)))
  }

  method ComputeCopy(rest: string) returns (result: Parsed)
    ensures result == ParseCopy(rest)
    ensures result == Err <==> |Filtered(Fields(rest))| < 2
  {
    if rest == "" {
      assert Fields(rest) == [];
      return Err;
    }
    var fromStage := "";
    var parts := Fields(rest);
    var filtered: seq<string> := [];
    for i := 0 to |parts|
      invariant filtered == Filtered(parts[..i]) && fromStage == Stage(parts[..i])
    {
      assert parts[..i + 1][..i] == parts[..i];
      var part := parts[i];
      if HasPrefix(part, FROM_STAGE) {
        fromStage := part[7..];
        continue;
      }
      filtered := filtered + [part];
    }
    assert parts[..|parts|] == parts;
    if |filtered| < 2 {
      return Err;
    }
    return Ok(Copy(filtered[..|filtered| - 1], filtered[|filtered| - 1], fromStage));
  }

  /** The language of the lines: `parse` reads one line, and `lower` is strings.ToLower. */
  datatype Language = Language(parse: string -> Parsed, lower: string -> string)

  /** parseLine, with strings.ToUpper as `upper` and the remaining instructions as `other`. */
  function ParseLine(upper: string -> string, other: string -> Parsed, line: string): Parsed {
    var (keyword, rest) := SplitLine(line);
    if upper(keyword) == "FROM" then ParseFrom(rest)
    else if upper(keyword) == "COPY" then ParseCopy(rest)
    else other(line)
  }

  predicate AllParse(language: Language, lines: seq<string>) {
    forall line | line in lines :: !language.parse(line).Err?
  }

  /** The instructions of the lines, in line order. */
  function Instructions(language: Language, lines: seq<string>): seq<Instruction> {
    if lines == [] then []
    else
      var n := |lines| - 1;
      var last := language.parse(lines[n]);
      Instructions(language, lines[..n]) + if last.Ok? then [last.instruction] else []
  }

  /** The stage names known after some instructions. */
  function Aliases(language: Language, instructions: seq<Instruction>): map<string, string> {
    if instructions == [] then map[]
    else
      var n := |instructions| - 1;
      var last := instructions[n];
      var before := Aliases(language, instructions[..n]);
      if last.From? && last.stage != "" then before[language.lower(last.stage) := last.image] else before
  }

  function Resolve(language: Language, aliases: map<string, string>, i: Instruction): Instruction {
    if i.Copy? && i.fromStage != "" && language.lower(i.fromStage) in aliases
    then i.(fromStage := aliases[language.lower(i.fromStage)]) else i
  }

  function ResolveAll(language: Language, instructions: seq<Instruction>): (r: seq<Instruction>)
    ensures |r| == |instructions|
  {
    if instructions == [] then []
    else
      var n := |instructions| - 1;
      ResolveAll(language, instructions[..n])
      + [Resolve(language, Aliases(language, instructions), instructions[n])]
  }

  lemma NextLine(language: Language, lines: seq<string>, n: nat)
    requires n < |lines|
    ensures AllParse(language, lines[..n + 1]) <==> AllParse(language, lines[..n]) && !language.parse(lines[n]).Err?
    ensures var parsed := language.parse(lines[n]);
            Instructions(language, lines[..n + 1])
              == Instructions(language, lines[..n]) + if parsed.Ok? then [parsed.instruction] else []
  {
    assert lines[..n + 1][..n] == lines[..n] && lines[..n + 1] == lines[..n] + [lines[n]];
  }

  lemma NextInstruction(language: Language, seen: seq<Instruction>, i: Instruction)
    ensures Aliases(language, seen + [i])
         == if i.From? && i.stage != "" then Aliases(language, seen)[language.lower(i.stage) := i.image]
            else Aliases(language, seen)
    ensures ResolveAll(language, seen + [i])
         == ResolveAll(language, seen) + [Resolve(language, Aliases(language, seen + [i]), i)]
  {
    assert (seen + [i])[..|seen|] == seen;
  }

  method Parse(language: Language, lines: seq<string>) returns (ok: bool, result: seq<Instruction>)
    ensures ok == AllParse(language, lines)
    ensures ok ==> result == ResolveAll(language, Instructions(language, lines))
  {
    var pos := 0;
    var aliases: map<string, string> := map[];
    result := [];
    ghost var seen: seq<Instruction> := [];
    while pos < |lines|
      invariant 0 <= pos <= |lines| && AllParse(language, lines[..pos]) && seen == Instructions(language, lines[..pos])
      invariant aliases == Aliases(language, seen) && result == ResolveAll(language, seen)
    {
      var line := lines[pos];
      NextLine(language, lines, pos);
      pos := pos + 1;
      var parsed := language.parse(line);
      if parsed.Err? {
        assert line in lines;
        return false, [];
      }
      if parsed.Skip? {
        continue;
      }
      var instr := parsed.instruction;
      NextInstruction(language, seen, instr);
      seen := seen + [instr];
      if instr.From? && instr.stage != "" {
        aliases := aliases[language.lower(instr.stage) := instr.image];
      }
      if instr.Copy? && instr.fromStage != "" {
        if language.lower(instr.fromStage) in aliases {
          instr := instr.(fromStage := aliases[language.lower(instr.fromStage)]);
        }
      }
      result := result + [instr];
    }
    assert lines[..|lines|] == lines;
    ok := true;
  }

  predicate Names(language: Language, i: Instruction, key: string) {
    i.From? && i.stage != "" && language.lower(i.stage) == key
  }

  /** FROM number `i` has the stage name `key`, and no later one of the instructions has it. */
  ghost predicate LastNamed(language: Language, instructions: seq<Instruction>, key: string, i: int) {
    && 0 <= i < |instructions| && Names(language, instructions[i], key)
    && forall j | i < j < |instructions| :: !Names(language, instructions[j], key)
  }

  lemma {:induction false} AliasesHoldLast(language: Language, instructions: seq<Instruction>, key: string)
    ensures key in Aliases(language, instructions) <==> exists i :: LastNamed(language, instructions, key, i)
    ensures forall i | LastNamed(language, instructions, key, i) ::
              key in Aliases(language, instructions) && Aliases(language, instructions)[key] == instructions[i].image
  {
    if instructions != [] {
      var n := |instructions| - 1;
      AliasesHoldLast(language, instructions[..n], key);
      assert forall i | 0 <= i < n :: instructions[..n][i] == instructions[i];
      if Names(language, instructions[n], key) {
        assert LastNamed(language, instructions, key, n);
      } else {
        assert forall i ::
            LastNamed(language, instructions, key, i) <==> LastNamed(language, instructions[..n], key, i);
      }
    }
  }

  /** Every instruction stays in its place, and every COPY with a stage copies from the image of the last
      earlier FROM whose stage has that name without regard to case, or from what it names itself if
      there is none. Nothing else changes. */
  lemma {:induction false} StagesResolve(language: Language, instructions: seq<Instruction>, n: nat)
    requires n < |instructions|
    ensures var i := instructions[n];
            var r := ResolveAll(language, instructions)[n];
            if i.Copy? && i.fromStage != "" then
              var key := language.lower(i.fromStage);
              && r.Copy? && r == i.(fromStage := r.fromStage)
              && (forall k | LastNamed(language, instructions[..n], key, k) :: r.fromStage == instructions[k].image)
              && ((forall k :: !LastNamed(language, instructions[..n], key, k)) ==> r == i)
            else r == i
    decreases |instructions|
  {
    var last := |instructions| - 1;
    if n < last {
      assert instructions[..last][..n] == instructions[..n];
      StagesResolve(language, instructions[..last], n);
    } else if instructions[n].Copy? && instructions[n].fromStage != "" {
      AliasesHoldLast(language, instructions[..n], language.lower(instructions[n].fromStage));
    }
  }

  /** A line is cut at the first blank behind its keyword. */
  lemma KeywordEnds(line: string, n: nat)
    requires n < |line| && IsBlank(line[n]) && NoSpace(line[..n])
    ensures IndexBlank(line) == n
  {
    BlankBehind(line[..n], line[n + 1..], line[n]);
    assert line[..n] + [line[n]] + line[n + 1..] == line;
  }

  lemma {:induction false} BlankBehind(word: string, rest: string, blank: char)
    requires NoSpace(word) && IsBlank(blank)
    ensures IndexBlank(word + [blank] + rest) == |word|
    decreases word
  {
    if word != "" {
      BlankBehind(word[1..], rest, blank);
      assert (word + [blank] + rest)[1..] == word[1..] + [blank] + rest;
    }
  }

  lemma {:induction false} IndexOf(a: string, sub: string, b: string)
    requires sub != "" && sub[0] !in a
    ensures Index(a + sub + b, sub) == |a|
    decreases a
  {
    var s := a + sub + b;
    if a == "" {
      assert sub <= s;
    } else {
      assert s[1..] == a[1..] + sub + b;
      assert s[0] != sub[0];
      IndexOf(a[1..], sub, b);
    }
  }

  lemma {:induction false} IndexNone(s: string, sub: string)
    requires sub != "" && sub[0] !in s
    ensures Index(s, sub) == -1
    decreases s
  {
    if |s| >= |sub| {
      IndexNone(s[1..], sub);
    }
  }

  lemma {:induction false} FilteredAll(words: seq<string>)
    ensures |Filtered(words)| <= |words|
    ensures |Filtered(words)| == |words| <==> forall w | w in words :: !(FROM_STAGE <= w)
    ensures (forall w | w in words :: !(FROM_STAGE <= w)) ==> Filtered(words) == words && Stage(words) == ""
  {
    if words != [] {
      var n := |words| - 1;
      assert words == words[..n] + [words[n]];
      assert words[n] in words && forall w | w in words[..n] :: w in words;
      FilteredAll(words[..n]);
    }
  }

  lemma {:induction false} FlagFirst(flag: string, words: seq<string>)
    requires FROM_STAGE <= flag
    ensures Filtered([flag] + words) == Filtered(words)
    ensures (forall w | w in words :: !(FROM_STAGE <= w)) ==> Stage([flag] + words) == flag[7..]
  {
    if words == [] {
      assert [flag][..0] == [] && [flag] + words == [flag];
    } else {
      var n := |words| - 1;
      assert ([flag] + words)[..n + 1] == [flag] + words[..n];
      assert words == words[..n] + [words[n]];
      assert words[n] in words && forall w | w in words[..n] :: w in words;
      FlagFirst(flag, words[..n]);
    }
  }

  lemma WordsReadBack(words: seq<string>)
    requires forall w | w in words :: w != "" && NoSpace(w)
    ensures Fields(Join(words, " ")) == words
  {
    assert forall k | 0 <= k < |words| :: words[k] in words;
    FieldsOfJoin(words);
    FieldsOfWords(words);
  }

  /** A COPY line as one writes it: the words of the instruction, one blank between them. */
  function CopyWords(i: Instruction): seq<string>
    requires i.Copy?
  {
    (if i.fromStage == "" then [] else [FROM_STAGE + i.fromStage]) + (i.sources + [i.destination])
  }

  /** A canonical COPY line reads back as its instruction, if and only if no source and no destination
      looks like the flag. */
  lemma CopyReadsBack(i: Instruction)
    requires i.Copy? && i.sources != [] && NoSpace(i.fromStage)
    requires forall w | w in i.sources + [i.destination] :: w != "" && NoSpace(w)
    ensures ParseCopy(Join(CopyWords(i), " ")) == Ok(i)
       <==> forall w | w in i.sources + [i.destination] :: !(FROM_STAGE <= w)
  {
    var words := i.sources + [i.destination];
    var all := CopyWords(i);
    CopyWordsAre(i);
    WordsReadBack(all);
    assert Fields(Join(all, " ")) == all;
    assert words[..|words| - 1] == i.sources;
    FilteredAll(words);
    if Filtered(words) != words {
      assert |Filtered(words)| != |words|;
    }
  }

  /** The words of the line, and what the flags in them come to. */
  lemma CopyWordsAre(i: Instruction)
    requires i.Copy? && NoSpace(i.fromStage)
    requires forall w | w in i.sources + [i.destination] :: w != "" && NoSpace(w)
    ensures forall w | w in CopyWords(i) :: w != "" && NoSpace(w)
    ensures var words := i.sources + [i.destination];
            && Filtered(CopyWords(i)) == Filtered(words)
            && ((forall w | w in words :: !(FROM_STAGE <= w)) ==> Stage(CopyWords(i)) == i.fromStage)
  {
    var words := i.sources + [i.destination];
    if i.fromStage == "" {
      assert CopyWords(i) == words;
      FilteredAll(words);
    } else {
      StageFlagIsWord(i.fromStage);
      FlagFirst(FROM_STAGE + i.fromStage, words);
      assert (FROM_STAGE + i.fromStage)[7..] == i.fromStage;
    }
  }

  lemma StageFlagIsWord(stage: string)
    requires NoSpace(stage)
    ensures NoSpace(FROM_STAGE + stage) && FROM_STAGE <= FROM_STAGE + stage
  {
  }

  /** The two spellings of the word between image and stage. */
  predicate IsAs(word: string) {
    word == "AS" || word == "as"
  }

  /** What follows the platform flag in a FROM line. */
  function FromTail(i: Instruction, word: string): string
    requires i.From?
  {
    if i.stage == "" then i.image else i.image + (" " + word + " ") + i.stage
  }

  function FromText(i: Instruction, word: string): string
    requires i.From?
  {
    if i.platform == "" then FromTail(i, word) else PLATFORM + i.platform + " " + FromTail(i, word)
  }

  lemma TailTrimmed(i: Instruction, word: string)
    requires IsAs(word) && i.From? && i.image != "" && NoSpace(i.image) && NoSpace(i.stage)
    ensures Trimmed(FromTail(i, word)) && TrimSpace(FromTail(i, word)) == FromTail(i, word)
  {
    TrimmedStays(FromTail(i, word));
  }

  lemma WordStays(s: string)
    requires NoSpace(s)
    ensures TrimSpace(s) == s
  {
    if s != "" {
      TrimmedStays(s);
    }
  }

  /** In a text whose only blanks are the two around a word, another word between blanks does not occur. */
  lemma OtherWord(s: string, sub: string, at: nat, k: nat)
    requires |sub| == 4 && sub[0] == ' ' && sub[3] == ' ' && at + 3 < |s| && s[at + 1] != sub[1]
    requires forall j | 0 <= j < |s| && s[j] == ' ' :: j == at || j == at + 3
    ensures !OccursAt(s, sub, k)
  {
    FirstAndLast(s, sub, k);
  }

  lemma SmallAsIsFound(image: string, stage: string)
    requires NoSpace(image) && NoSpace(stage)
    ensures AsIndex(image + " as " + stage) == |image|
  {
    var clean := image + " as " + stage;
    IndexOf(image, " as ", stage);
    assert clean[|image| + 1] == 'a' && " AS "[1] == 'A';
    forall k: nat ensures !OccursAt(clean, " AS ", k) {
      OtherWord(clean, " AS ", |image|, k);
    }
    IndexIsFirst(clean, " AS ");
  }

  /** The word is found behind the image: written small, too, as it is not also there in capitals. */
  lemma AsIsFound(image: string, word: string, stage: string)
    requires IsAs(word) && NoSpace(image) && NoSpace(stage)
    ensures AsIndex(image + (" " + word + " ") + stage) == |image|
  {
    if word == "as" {
      SmallAsIsFound(image, stage);
      assert " " + word + " " == " as ";
    } else {
      IndexOf(image, " AS ", stage);
      assert " " + word + " " == " AS ";
    }
  }

  /** Image and stage are found in what is left after the platform flag. */
  lemma TailReadsBack(i: Instruction, word: string)
    requires IsAs(word) && i.From? && i.image != "" && NoSpace(i.image) && NoSpace(i.stage)
    ensures ImageAndStage(FromTail(i, word)) == (i.image, i.stage)
  {
    WordStays(i.image);
    WordStays(i.stage);
    var clean := FromTail(i, word);
    if i.stage == "" {
      IndexNone(clean, " AS ");
      IndexNone(clean, " as ");
    } else {
      AsIsFound(i.image, word, i.stage);
      assert clean[..|i.image|] == i.image && clean[|i.image| + 4..] == i.stage;
    }
  }

  lemma TrimBlankFirst(s: string)
    requires Trimmed(s)
    ensures TrimSpace(" " + s) == s
  {
    TrimmedStays(s);
    assert (" " + s)[1..] == s;
    assert TrimLeft(" " + s) == TrimLeft(s);
  }

  lemma FlaggedWord(platform: string)
    requires NoSpace(platform)
    ensures NoSpace(PLATFORM + platform)
  {
  }

  lemma IndexAtStart(sub: string, s: string)
    ensures Index(sub + s, sub) == 0
  {
    assert sub <= sub + s;
  }

  lemma PlatformIsRead(platform: string, tail: string)
    requires NoSpace(platform)
    ensures Platform(PLATFORM + platform + " " + tail) == platform
  {
    var flag := PLATFORM + platform;
    var rest := flag + " " + tail;
    FlaggedWord(platform);
    assert rest == PLATFORM + (platform + " " + tail);
    IndexAtStart(PLATFORM, platform + " " + tail);
    BlankBehind(flag, tail, ' ');
    assert flag + [' '] + tail == flag + " " + tail;
    assert rest[0..] == rest && rest[11..|flag|] == platform;
  }

  lemma PlatformIsCut(flag: string, tail: string)
    requires PLATFORM <= flag && NoSpace(flag) && Trimmed(tail)
    ensures WithoutPlatform(flag + " " + tail) == tail
  {
    var rest := flag + " " + tail;
    assert PLATFORM <= rest;
    IndexOf(flag, " ", tail);
    assert rest[|flag|..] == " " + tail;
    TrimBlankFirst(tail);
  }

  /** The flag occurs in the word at most as its end. */
  ghost predicate FlagOnlyEnds(word: string) {
    forall i: nat | OccursAt(word, PLATFORM, i) :: i + |PLATFORM| == |word|
  }

  ghost predicate Contains(word: string, sub: string) {
    exists i: nat :: OccursAt(word, sub, i)
  }

  /** Nothing in the line is taken for the flag: an image that contains it ends in it, and contains it
      nowhere else, and is not the bare flag in front of a stage; or else the stage contains it only as its
      end. */
  ghost predicate NoFlag(i: Instruction)
    requires i.From?
  {
    if Contains(i.image, PLATFORM) then FlagOnlyEnds(i.image) && (PLATFORM <= i.image ==> i.stage == "")
    else FlagOnlyEnds(i.stage)
  }

  lemma OccursInside(front: string, word: string, rest: string, sub: string, i: nat)
    requires i + |sub| <= |word|
    ensures OccursAt(front + word + rest, sub, |front| + i) <==> OccursAt(word, sub, i)
  {
    var s := front + word + rest;
    assert forall k | 0 <= k < |word| :: s[|front| + k] == word[k];
    assert forall k | 0 <= k < |sub| :: s[(|front| + i) + k] == sub[k] <==> word[i + k] == sub[k];
  }

  /** Index finds the first occurrence. */
  lemma {:induction false} IndexIsFirst(s: string, sub: string)
    ensures Index(s, sub) < 0 <==> !Contains(s, sub)
    ensures Index(s, sub) >= 0 ==> OccursAt(s, sub, Index(s, sub))
    ensures forall i: nat | OccursAt(s, sub, i) :: 0 <= Index(s, sub) <= i
    decreases s
  {
    if |s| >= |sub| {
      assert OccursAt(s, sub, 0) <==> sub <= s;
      if !(sub <= s) {
        IndexIsFirst(s[1..], sub);
        OccursLater(s, sub);
        assert forall i: nat | OccursAt(s[1..], sub, i) :: OccursAt(s, sub, i + 1);
      }
    }
  }

  lemma OccursLater(s: string, sub: string)
    requires s != "" && !OccursAt(s, sub, 0)
    ensures forall i: nat :: OccursAt(s[1..], sub, i) <==> OccursAt(s, sub, i + 1)
    ensures forall i: nat | OccursAt(s, sub, i) :: i > 0 && OccursAt(s[1..], sub, i - 1)
  {
    assert s == [s[0]] + s[1..] + "";
    forall i: nat ensures OccursAt(s[1..], sub, i) <==> OccursAt(s, sub, i + 1) {
      if i + |sub| <= |s| - 1 {
        OccursInside([s[0]], s[1..], "", sub, i);
      }
    }
    assert forall i: nat | i > 0 :: OccursAt(s, sub, i) <==> OccursAt(s, sub, (i - 1) + 1);
  }

  lemma {:induction false} BlankBehindPart(rest: string, n: nat)
    requires n <= |rest| && forall k | 0 <= k < n :: !IsBlank(rest[k])
    ensures IndexBlank(rest) < 0 || IndexBlank(rest) >= n
    ensures IndexBlank(rest) == n <==> n < |rest| && IsBlank(rest[n])
    decreases n
  {
    if n > 0 {
      BlankBehindPart(rest[1..], n - 1);
    }
  }

  /** What the parser takes for the platform is empty exactly if the flag ends its word. */
  lemma PlatformEmpty(s: string, i: nat)
    requires i + 11 <= |s| && forall k | 0 <= k < 11 :: !IsBlank(s[i..][k])
    ensures PlatformAt(s, i) == "" <==> i + 11 == |s| || IsBlank(s[i + 11])
  {
    BlankBehindPart(s[i..], 11);
    CutAtBlank(s, i, IndexBlank(s[i..]));
  }

  lemma CutAtBlank(s: string, i: nat, end: int)
    requires i + 11 <= |s| && (end < 0 || 11 <= end < |s| - i)
    requires end == 11 <==> 11 < |s| - i && IsBlank(s[i..][11])
    ensures (if end >= 11 then s[i + 11..i + end] else s[i + 11..]) == "" <==> i + 11 == |s| || IsBlank(s[i + 11])
  {
    assert i + 11 < |s| ==> s[i..][11] == s[i + 11];
  }

  lemma FlagIsWord(rest: string)
    requires PLATFORM <= rest
    ensures forall k | 0 <= k < 11 :: !IsBlank(rest[k])
  {
    assert forall k | 0 <= k < 11 :: rest[k] == PLATFORM[k] && !IsBlank(PLATFORM[k]);
  }

  lemma FirstIn(front: string, word: string, rest: string, sub: string)
    requires Contains(word, sub)
    requires forall i: nat | OccursAt(front + word + rest, sub, i) :: |front| <= i
    ensures Index(front + word + rest, sub) == |front| + Index(word, sub)
  {
    var s := front + word + rest;
    IndexIsFirst(word, sub);
    IndexIsFirst(s, sub);
    var first := Index(word, sub);
    OccursInside(front, word, rest, sub, first);
    var i := Index(s, sub);
    OccursInside(front, word, rest, sub, i - |front|);
  }

  /** In a text whose first flag lies in the given word. */
  lemma FirstFlag(front: string, word: string, rest: string)
    requires NoSpace(word) && (rest == "" || rest[0] == ' ') && Contains(word, PLATFORM)
    requires forall i: nat | OccursAt(front + word + rest, PLATFORM, i) :: |front| <= i
    ensures Platform(front + word + rest) == "" <==> FlagOnlyEnds(word)
  {
    var s := front + word + rest;
    FirstIn(front, word, rest, PLATFORM);
    IndexIsFirst(word, PLATFORM);
    FlagIsWord(s[Index(s, PLATFORM)..]);
    PlatformEmpty(s, Index(s, PLATFORM));
    WordEnds(front, word, rest, Index(s, PLATFORM) + 11);
    EndsExactly(word);
  }

  lemma WordEnds(front: string, word: string, rest: string, end: nat)
    requires NoSpace(word) && (rest == "" || rest[0] == ' ') && |front| <= end <= |front| + |word|
    ensures var s := front + word + rest;
            (end == |s| || IsBlank(s[end])) <==> end == |front| + |word|
  {
    var s := front + word + rest;
    assert end < |front| + |word| ==> s[end] == word[end - |front|];
    assert end == |front| + |word| && end < |s| ==> s[end] == rest[0];
  }

  lemma EndsExactly(word: string)
    requires Contains(word, PLATFORM)
    ensures FlagOnlyEnds(word) <==> Index(word, PLATFORM) + 11 == |word|
  {
    IndexIsFirst(word, PLATFORM);
  }

  lemma OccursLetter(s: string, sub: string, i: nat, at: nat)
    requires OccursAt(s, sub, i)
    ensures i <= at < i + |sub| ==> s[at] == sub[at - i]
  {
    if i <= at < i + |sub| {
      assert s[i + (at - i)] == sub[at - i];
    }
  }

  /** A word does not reach across a blank. */
  lemma NotAcross(a: string, b: string, sub: string, i: nat)
    requires sub != "" && (forall k | 0 <= k < |sub| :: !IsBlank(sub[k])) && OccursAt(a + " " + b, sub, i)
    ensures OccursAt(a, sub, i) || (i > |a| && OccursAt(b, sub, i - |a| - 1))
  {
    var s := a + " " + b;
    assert s[|a|] == ' ';
    OccursLetter(s, sub, i, |a|);
    if i + |sub| <= |a| {
      assert s == "" + a + (" " + b);
      OccursInside("", a, " " + b, sub, i);
    } else {
      assert s == (a + " ") + b + "";
      OccursInside(a + " ", b, "", sub, i - |a| - 1);
    }
  }

  lemma NoFlagAcross(a: string, b: string, i: nat)
    requires OccursAt(a + " " + b, PLATFORM, i)
    ensures OccursAt(a, PLATFORM, i) || (i > |a| && OccursAt(b, PLATFORM, i - |a| - 1))
  {
    FlagIsWord(PLATFORM);
    NotAcross(a, b, PLATFORM, i);
  }

  lemma FlagInTail(i: Instruction, word: string, k: nat)
    requires IsAs(word) && i.From? && i.stage != "" && OccursAt(FromTail(i, word), PLATFORM, k)
    ensures OccursAt(i.image, PLATFORM, k) || (k >= |i.image| + 4 && OccursAt(i.stage, PLATFORM, k - |i.image| - 4))
  {
    var behind := word + " " + i.stage;
    assert FromTail(i, word) == i.image + " " + behind;
    NoFlagAcross(i.image, behind, k);
    if k > |i.image| && OccursAt(behind, PLATFORM, k - |i.image| - 1) {
      NoFlagAcross(word, i.stage, k - |i.image| - 1);
    }
  }

  /** Without a platform flag of its own, a line is read without a platform exactly as the texts of image
      and stage tell. */
  lemma NoPlatformRead(i: Instruction, word: string)
    requires IsAs(word) && i.From? && NoSpace(i.image) && NoSpace(i.stage)
    ensures Platform(FromTail(i, word)) == ""
       <==> if Contains(i.image, PLATFORM) then FlagOnlyEnds(i.image) else FlagOnlyEnds(i.stage)
  {
    var behind := if i.stage == "" then "" else " " + word + " " + i.stage;
    var tail := FromTail(i, word);
    assert tail == "" + i.image + behind;
    if Contains(i.image, PLATFORM) {
      FirstFlag("", i.image, behind);
    } else if i.stage != "" && Contains(i.stage, PLATFORM) {
      var front := i.image + (" " + word + " ");
      assert tail == front + i.stage + "";
      forall k: nat | OccursAt(tail, PLATFORM, k) ensures |front| <= k {
        FlagInTail(i, word, k);
      }
      FirstFlag(front, i.stage, "");
    } else {
      forall k: nat ensures !OccursAt(tail, PLATFORM, k) && !OccursAt(i.stage, PLATFORM, k) {
        if OccursAt(tail, PLATFORM, k) && i.stage != "" {
          FlagInTail(i, word, k);
        }
      }
      IndexIsFirst(tail, PLATFORM);
    }
  }

  lemma WordPrefix(word: string, head: string, rest: string)
    requires NoSpace(word) && (rest != "" ==> IsSpace(rest[0]))
    ensures word <= head + rest <==> word <= head
  {
    var s := head + rest;
    assert head == s[..|head|] && (rest != "" ==> s[|head|] == rest[0]);
    assert word <= s ==> forall k | 0 <= k < |word| :: word[k] == s[k];
  }

  lemma FlagBeginsImage(i: Instruction, word: string)
    requires IsAs(word) && i.From?
    ensures PLATFORM <= FromTail(i, word) <==> PLATFORM <= i.image
  {
    var behind := if i.stage == "" then "" else " " + word + " " + i.stage;
    assert FromTail(i, word) == i.image + behind;
    WordPrefix(PLATFORM, i.image, behind);
  }

  lemma StageLost(i: Instruction, word: string)
    requires IsAs(word) && i.From? && NoSpace(i.image) && NoSpace(i.stage) && i.stage != "" && PLATFORM <= i.image
    ensures ParseFrom(FromTail(i, word)) != Ok(i)
  {
    var left := word + " " + i.stage;
    assert FromTail(i, word) == i.image + " " + left;
    assert left[0] == word[0] && left[2] == ' ';
    PlatformIsCut(i.image, left);
    NoSecondBlank(word, i.stage);
    TrimmedStays(left);
    assert ImageAndStage(left).0 == left;
  }

  lemma NoSecondBlank(word: string, stage: string)
    requires IsAs(word) && NoSpace(stage)
    ensures AsIndex(word + " " + stage) == -1
  {
    NoBlankAs(word, stage, " AS ");
    NoBlankAs(word, stage, " as ");
  }

  lemma FirstAndLast(s: string, sub: string, i: nat)
    requires |sub| == 4
    ensures OccursAt(s, sub, i) ==> i + 3 < |s| && s[i] == sub[0] && s[i + 1] == sub[1] && s[i + 3] == sub[3]
  {
    assert OccursAt(s, sub, i) ==> s[i + 0] == sub[0];
  }

  lemma NoBlankAs(word: string, stage: string, sub: string)
    requires IsAs(word) && NoSpace(stage) && |sub| == 4 && sub[0] == ' ' && sub[3] == ' '
    ensures Index(word + " " + stage, sub) == -1
  {
    var left := word + " " + stage;
    assert forall k | 3 <= k < |left| :: left[k] == stage[k - 3];
    forall i: nat ensures !OccursAt(left, sub, i) {
      FirstAndLast(left, sub, i);
    }
    IndexIsFirst(left, sub);
  }

  lemma FromWithPlatform(i: Instruction, word: string)
    requires IsAs(word) && i.From? && i.image != "" && NoSpace(i.image) && NoSpace(i.platform) && NoSpace(i.stage)
    requires i.platform != ""
    ensures ParseFrom(FromText(i, word)) == Ok(i)
  {
    TailTrimmed(i, word);
    TailReadsBack(i, word);
    FlaggedWord(i.platform);
    PlatformIsRead(i.platform, FromTail(i, word));
    PlatformIsCut(PLATFORM + i.platform, FromTail(i, word));
  }

  lemma WithoutPlatformKeeps(i: Instruction, word: string)
    requires IsAs(word) && i.From? && i.image != "" && NoSpace(i.image) && (PLATFORM <= i.image ==> i.stage == "")
    ensures WithoutPlatform(FromTail(i, word)) == FromTail(i, word)
  {
    FlagBeginsImage(i, word);
    if PLATFORM <= i.image {
      IndexNone(i.image, " ");
    }
  }

  /** A canonical FROM line of whitespace-free words reads back as its instruction if it has a platform
      flag; without one, if and only if nothing in it is taken for the flag. */
  lemma FromReadsBack(i: Instruction, word: string)
    requires IsAs(word) && i.From? && i.image != "" && NoSpace(i.image) && NoSpace(i.platform) && NoSpace(i.stage)
    ensures ParseFrom(FromText(i, word)) == Ok(i) <==> i.platform != "" || NoFlag(i)
  {
    if i.platform != "" {
      FromWithPlatform(i, word);
    } else if PLATFORM <= i.image && i.stage != "" {
      StageLost(i, word);
      FlagFirstIsContained(i.image);
    } else {
      WithoutPlatformKeeps(i, word);
      TailReadsBack(i, word);
      NoPlatformRead(i, word);
    }
  }

  lemma FlagFirstIsContained(image: string)
    requires PLATFORM <= image
    ensures Contains(image, PLATFORM)
  {
    assert OccursAt(image, PLATFORM, 0);
  }

  /** A FROM line that is accepted names an image; one without visible text is an error. */
  lemma FromNamesImage(rest: string)
    ensures ParseFrom(rest).Ok? ==> ParseFrom(rest).instruction.From? && ParseFrom(rest).instruction.image != ""
    ensures (forall k | 0 <= k < |rest| :: rest[k] == ' ') ==> ParseFrom(rest) == Err
  {
    if forall k | 0 <= k < |rest| :: rest[k] == ' ' {
      IndexIsFirst(rest, " AS ");
      IndexIsFirst(rest, " as ");
      forall k: nat ensures !OccursAt(rest, " AS ", k) && !OccursAt(rest, " as ", k) {
        FirstAndLast(rest, " AS ", k);
        FirstAndLast(rest, " as ", k);
      }
      BlankTrimsToNothing(rest);
    }
  }

  lemma {:induction false} BlankTrimsToNothing(s: string)
    requires forall k | 0 <= k < |s| :: s[k] == ' '
    ensures TrimSpace(s) == ""
  {
    if s != "" {
      BlankTrimsToNothing(s[1..]);
      assert TrimLeft(s) == TrimLeft(s[1..]);
    }
  }

  /** Whole lines read back just when their texts do, with the keyword in any case and AS in capitals or
      not. */
  lemma LinesReadBack(upper: string -> string, other: string -> Parsed, line: string, n: nat, i: Instruction,
                      word: string)
    requires IsAs(word) && 0 < n < |line| && IsBlank(line[n]) && NoSpace(line[..n])
    requires i.From? ==> upper(line[..n]) == "FROM" && line[n + 1..] == FromText(i, word)
                         && i.image != "" && NoSpace(i.image) && NoSpace(i.platform) && NoSpace(i.stage)
    requires i.Copy? ==> upper(line[..n]) == "COPY" && line[n + 1..] == Join(CopyWords(i), " ")
                         && i.sources != [] && NoSpace(i.fromStage)
                         && forall w | w in i.sources + [i.destination] :: w != "" && NoSpace(w)
    ensures i.From? ==> (ParseLine(upper, other, line) == Ok(i) <==> i.platform != "" || NoFlag(i))
    ensures i.Copy? ==> (ParseLine(upper, other, line) == Ok(i)
                         <==> forall w | w in i.sources + [i.destination] :: !(FROM_STAGE <= w))
  {
    var rest := line[n + 1..];
    if i.From? {
      TailTrimmed(i, word);
      assert Trimmed(rest);
      FromReadsBack(i, word);
    } else if i.Copy? {
      StageFlagIsWord(i.fromStage);
      JoinTrimmed(CopyWords(i));
      CopyReadsBack(i);
    }
    if i.From? || i.Copy? {
      WholeTrimmed(line, n);
      TrimmedStays(line);
      KeywordEnds(line, n);
      TrimmedStays(rest);
    }
  }

  lemma WholeTrimmed(line: string, n: nat)
    requires 0 < n < |line| && NoSpace(line[..n]) && Trimmed(line[n + 1..])
    ensures Trimmed(line)
  {
    assert line[..n][0] == line[0];
    assert line[n + 1..][|line| - n - 2] == line[|line| - 1];
  }

  lemma {:induction false} JoinTrimmed(words: seq<string>)
    requires words != [] && forall w | w in words :: w != "" && NoSpace(w)
    ensures Trimmed(Join(words, " "))
  {
    var n := |words| - 1;
    assert words[n] in words && forall w | w in words[..n] :: w in words;
    if n > 0 {
      JoinTrimmed(words[..n]);
    }
  }
}
