/** Image references and their canonical names: pkg/image/name.go. */
module ImageRef {
  import opened Text

  const DEFAULT_REGISTRY := "docker.io"
  const DEFAULT_NAMESPACE := "library"
  const DEFAULT_TAG := "latest"

  datatype Ref = Ref(registry: string, repository: string, tag: string, digest: string)

  datatype ParseResult = Malformed | Parsed(ref: Ref)

  /** strings.LastIndex for one character. */
  function LastIndex(s: string, c: char): (i: int)
    ensures -1 <= i < |s|
    ensures i == -1 <==> c !in s
    ensures i >= 0 ==> s[i] == c && c !in s[i + 1..]
  {
    if s == "" then -1
    else if s[|s| - 1] == c then |s| - 1
    else
      assert s == s[..|s| - 1] + [s[|s| - 1]];
      var i := LastIndex(s[..|s| - 1], c);
      assert i >= 0 ==> s[i + 1..] == s[..|s| - 1][i + 1..] + [s[|s| - 1]];
      i
  }

  datatype Cut = Cut(before: string, after: string, found: bool)

  function CutAtLast(s: string, c: char): Cut {
    var i := LastIndex(s, c);
    if i < 0 then Cut(s, "", false) else Cut(s[..i], s[i + 1..], true)
  }

  lemma LastIndexIs(s: string, c: char, i: nat)
    requires i < |s| && s[i] == c && forall k | i < k < |s| :: s[k] != c
    ensures LastIndex(s, c) == i
  {
    var j := LastIndex(s, c);
    assert forall k | j < k < |s| :: s[k] == s[j + 1..][k - j - 1] != c;
  }

  lemma CutAtLastOf(a: string, c: char, b: string)
    requires c !in b
    ensures CutAtLast(a + [c] + b, c) == Cut(a, b, true)
  {
    var s := a + [c] + b;
    LastIndexIs(s, c, |a|);
    assert s[..|a|] == a && s[|a| + 1..] == b;
  }

  /** strings.Split at slashes. */
  function Split(s: string): (parts: seq<string>)
    ensures |parts| >= 1
    ensures |parts| == 1 <==> '/' !in s
    decreases s
  {
    if '/' !in s then [s]
    else
      var i := FirstSlash(s);
      [s[..i]] + Split(s[i + 1..])
  }

  function FirstSlash(s: string): (i: nat)
    requires '/' in s
    ensures i < |s| && s[i] == '/' && '/' !in s[..i]
  {
    if s[0] == '/' then 0
    else
      assert s == [s[0]] + s[1..];
      var i := 1 + FirstSlash(s[1..]);
      assert s[..i] == [s[0]] + s[1..][..i - 1];
      i
  }

  predicate IsRegistryHost(host: string) {
    '.' in host || host == "localhost" || ':' in host
  }

  /** ParseImageRef. */
  method ParseImageRef(raw: string) returns (result: ParseResult)
    ensures result == Parse(raw)
  {
    if raw == "" {
      return Malformed;
    }
    var registry, repository, tag, digest := "", "", "", "";
    var rest := raw;
    var atSign := CutAtLast(rest, '@');
    if atSign.found {
      digest := atSign.after;
      rest := atSign.before;
    }
    var colon := CutAtLast(rest, ':');
    if colon.found {
      if '/' !in colon.after {
        tag := colon.after;
        rest := colon.before;
      }
    }
    if tag == "" {
      tag := DEFAULT_TAG;
    }
    var parts := Split(rest);
    if |parts| == 1 {
      registry := DEFAULT_REGISTRY;
      repository := DEFAULT_NAMESPACE + "/" + parts[0];
    } else if |parts| == 2 {
      if IsRegistryHost(parts[0]) {
        registry := parts[0];
        repository := parts[1];
      } else {
        registry := DEFAULT_REGISTRY;
        repository := parts[0] + "/" + parts[1];
      }
    } else {
      registry := parts[0];
      repository := Join(parts[1..], "/");
    }
    return Parsed(Ref(registry, repository, tag, digest));
  }

  /** The three cuts of a reference: digest, tag and the path that is left. */
  function Digest(raw: string): string {
    CutAtLast(raw, '@').after
  }

  function Untagged(rest: string): string {
    var colon := CutAtLast(rest, ':');
    if colon.found && '/' !in colon.after then colon.before else rest
  }

  function Tag(rest: string): string {
    var colon := CutAtLast(rest, ':');
    if colon.found && '/' !in colon.after && colon.after != "" then colon.after else DEFAULT_TAG
  }

  function Located(path: string): (string, string) {
    var parts := Split(path);
    if |parts| == 1 then (DEFAULT_REGISTRY, DEFAULT_NAMESPACE + "/" + parts[0])
    else if |parts| == 2 then
      if IsRegistryHost(parts[0]) then (parts[0], parts[1]) else (DEFAULT_REGISTRY, parts[0] + "/" + parts[1])
    else (parts[0], Join(parts[1..], "/"))
  }

  function Parse(raw: string): ParseResult {
    if raw == "" then Malformed
    else
      var rest := CutAtLast(raw, '@').before;
      var (registry, repository) := Located(Untagged(rest));
      Parsed(Ref(registry, repository, Tag(rest), Digest(raw)))
  }

  function FullName(ref: Ref): (name: string)
    ensures name != ""
  {
    var name := ref.registry + "/" + ref.repository;
    if ref.digest != "" then name + "@" + ref.digest else name + ":" + ref.tag
  }

  /** The name tried second by Resolve. */
  function LatestName(ref: Ref): string {
    ref.registry + "/" + ref.repository + ":latest"
  }

  /** What follows the last slash. */
  function LastPart(s: string): string {
    s[LastIndex(s, '/') + 1..]
  }

  /** A path that is used as it is: three or more parts, or a registry host and one more part. */
  predicate Complete(path: string) {
    var parts := Split(path);
    |parts| >= 3 || (|parts| == 2 && IsRegistryHost(parts[0]))
  }

  function Completed(path: string): string {
    if Complete(path) then path
    else if '/' in path then DEFAULT_REGISTRY + "/" + path
    else DEFAULT_REGISTRY + "/" + (DEFAULT_NAMESPACE + "/" + path)
  }

  lemma FirstSlashIs(s: string, i: nat)
    requires i < |s| && s[i] == '/' && '/' !in s[..i]
    ensures FirstSlash(s) == i
  {
    var j := FirstSlash(s);
    assert forall k | 0 <= k < i :: s[k] == s[..i][k];
    assert forall k | 0 <= k < j :: s[k] == s[..j][k];
  }

  lemma SplitBehind(head: string, path: string)
    requires '/' !in head
    ensures Split(head + "/" + path) == [head] + Split(path)
  {
    var s := head + "/" + path;
    assert s[|head|] == '/' && s[..|head|] == head && s[|head| + 1..] == path;
    FirstSlashIs(s, |head|);
  }

  lemma {:induction false} JoinHead(head: string, parts: seq<string>, sep: string)
    requires parts != []
    ensures Join([head] + parts, sep) == head + sep + Join(parts, sep)
    decreases |parts|
  {
    var n := |parts| - 1;
    if n > 0 {
      JoinHead(head, parts[..n], sep);
      assert ([head] + parts)[..n + 1] == [head] + parts[..n];
    } else {
      assert ([head] + parts)[..1] == [head];
    }
  }

  lemma {:induction false} JoinSplit(s: string, sep: string)
    requires sep == ['/']
    ensures Join(Split(s), sep) == s
    decreases s
  {
    if '/' in s {
      var i := FirstSlash(s);
      var head, rest := s[..i], s[i + 1..];
      assert s == head + "/" + rest;
      SplitBehind(head, rest);
      JoinSplit(rest, sep);
      JoinHead(head, Split(rest), sep);
    }
  }

  /** Registry and repository together spell the completed path. */
  lemma LocatedName(path: string)
    ensures Located(path).0 + "/" + Located(path).1 == Completed(path)
  {
    var parts := Split(path);
    JoinSplit(path, "/");
    if |parts| >= 2 {
      JoinHead(parts[0], parts[1..], "/");
      assert parts == [parts[0]] + parts[1..];
      if |parts| == 2 {
        assert parts[1..] == [parts[1]];
      }
    }
  }

  /** What the parts in front of a name say: alone it is an official image; a first part is the registry if
      it has a dot or a colon, is localhost, or is followed by two parts or more; else it is a namespace. */
  lemma FirstPartDecides(first: string, name: string)
    requires '/' !in first
    ensures '/' !in name ==> Located(name) == ("docker.io", "library/" + name)
    ensures Located(first + "/" + name)
         == if '/' in name || '.' in first || ':' in first || first == "localhost" then (first, name)
            else ("docker.io", first + "/" + name)
  {
    var parts := Split(name);
    SplitBehind(first, name);
    assert ([first] + parts)[1..] == parts && |[first] + parts| == 1 + |parts|;
    JoinSplit(name, "/");
    assert "library" + "/" + name == "library/" + name;
    assert '/' !in name ==> parts == [name];
  }

  /** A reference with registry, repository and tag reads back as they are. */
  lemma ReferenceReadsBack(registry: string, repository: string, tag: string)
    requires '/' !in registry && ('/' in repository || '.' in registry || ':' in registry || registry == "localhost")
    requires tag != "" && '/' !in tag && ':' !in tag && '@' !in registry + "/" + repository + ":" + tag
    ensures Parse(registry + "/" + repository + ":" + tag) == Parsed(Ref(registry, repository, tag, ""))
  {
    CutAtLastOf(registry + "/" + repository, ':', tag);
    assert registry + "/" + repository + [':'] + tag == registry + "/" + repository + ":" + tag;
    FirstPartDecides(registry, repository);
  }

  lemma CompletedIsComplete(path: string)
    ensures Complete(Completed(path))
    ensures Completed(Completed(path)) == Completed(path)
  {
    if !Complete(path) {
      SplitBehind(DEFAULT_NAMESPACE, path);
      SplitBehind(DEFAULT_REGISTRY, path);
      SplitBehind(DEFAULT_REGISTRY, DEFAULT_NAMESPACE + "/" + path);
    }
  }

  lemma {:induction false} SplitPrefix(path: string, suffix: string)
    requires '/' !in suffix
    ensures |Split(path + suffix)| == |Split(path)|
    ensures '/' in path ==> Split(path + suffix)[0] == Split(path)[0]
    decreases path
  {
    if '/' in path {
      var i := FirstSlash(path);
      var head, rest := path[..i], path[i + 1..];
      assert path == head + "/" + rest && path + suffix == head + "/" + (rest + suffix);
      SplitBehind(head, rest);
      SplitBehind(head, rest + suffix);
      SplitPrefix(rest, suffix);
    }
  }

  lemma LastPartOf(a: string, b: string)
    requires '/' !in b
    ensures LastPart(a + ['/'] + b) == b
  {
    CutAtLastOf(a, '/', b);
  }

  lemma LastPartBelow(front: string, a: string, b: string)
    requires '/' !in b
    ensures LastPart(front + (a + ['/'] + b)) == LastPart(a + ['/'] + b) == b
  {
    assert front + (a + ['/'] + b) == (front + a) + ['/'] + b;
    LastPartOf(front + a, b);
    LastPartOf(a, b);
  }

  lemma CutApart(s: string, c: char)
    ensures var cut := CutAtLast(s, c); cut.found ==> s == cut.before + [c] + cut.after && c !in cut.after
    ensures CutAtLast(s, c).found <==> c in s
  {
  }

  lemma LastPartBehind(head: string, path: string)
    ensures LastPart(head + "/" + path) == LastPart(path)
  {
    if '/' in path {
      var cut := CutAtLast(path, '/');
      CutApart(path, '/');
      LastPartBelow(head + "/", cut.before, cut.after);
    } else {
      LastPartOf(head, path);
      assert LastPart(path) == path;
    }
  }

  lemma CompletedLastPart(path: string)
    ensures LastPart(Completed(path)) == LastPart(path)
  {
    LastPartBehind(DEFAULT_REGISTRY, path);
    LastPartBehind(DEFAULT_NAMESPACE, path);
    LastPartBehind(DEFAULT_REGISTRY, DEFAULT_NAMESPACE + "/" + path);
  }

  /** A tag is cut off exactly when the last part of the path holds a colon. */
  lemma TagInLastPart(s: string)
    ensures CutAtLast(s, ':').found && '/' !in CutAtLast(s, ':').after <==> ':' in LastPart(s)
  {
    var i, j := LastIndex(s, ':'), LastIndex(s, '/');
    if i >= 0 {
      assert i > j ==> s[j + 1..][i - j - 1] == ':';
      assert i < j ==> s[i + 1..][j - i - 1] == '/';
      assert forall k | i < k < |s| :: s[k] == s[i + 1..][k - i - 1] != ':';
    }
    assert forall k | j < k < |s| :: s[k] == s[j + 1..][k - j - 1] != '/';
  }

  lemma TaggedShape(path: string, tag: string)
    requires '/' !in tag
    ensures Complete(path + [':'] + tag) <==> Complete(path)
  {
    SplitPrefix(path, [':'] + tag);
    assert path + [':'] + tag == path + ([':'] + tag);
  }

  /** Cutting off a tag leaves a path as complete as it was. */
  lemma UntaggedShape(s: string)
    ensures Complete(Untagged(s)) <==> Complete(s)
    ensures |Untagged(s)| <= |s|
    ensures Untagged(s) == s <==> ':' !in LastPart(s)
  {
    TagInLastPart(s);
    var cut := CutAtLast(s, ':');
    if ':' in LastPart(s) {
      CutApart(s, ':');
      TaggedShape(cut.before, cut.after);
    }
  }

  /** The full name of a raw reference. */
  function Name(raw: string): (name: string)
    requires raw != ""
    ensures name != ""
  {
    FullName(Parse(raw).ref)
  }

  function Path(raw: string): string {
    Completed(Untagged(CutAtLast(raw, '@').before))
  }

  lemma NameIs(raw: string)
    requires raw != ""
    ensures Name(raw) == if Digest(raw) != "" then Path(raw) + "@" + Digest(raw)
                         else Path(raw) + ":" + Tag(CutAtLast(raw, '@').before)
  {
    LocatedName(Untagged(CutAtLast(raw, '@').before));
  }

  /** A name with a digest is read back with its digest, and without a tag in its path. */
  lemma ReadDigested(path: string, digest: string)
    requires '@' !in digest && digest != ""
    ensures Name(path + "@" + digest) == Completed(Untagged(path)) + "@" + digest
  {
    CutAtLastOf(path, '@', digest);
    NameIs(path + "@" + digest);
  }

  /** A name with a tag, possibly empty, and perhaps a trailing at sign. */
  lemma ReadTagged(raw: string, path: string, tag: string)
    requires CutAtLast(raw, '@').before == path + ":" + tag && Digest(raw) == ""
    requires ':' !in tag && '/' !in tag
    ensures raw != "" && Name(raw) == Completed(path) + ":" + if tag == "" then "latest" else tag
  {
    CutAtLastOf(path, ':', tag);
    assert raw != "" by {
      assert raw == "" ==> CutAtLast(raw, '@').before == "";
    }
    NameIs(raw);
  }

  lemma TagIsPlain(rest: string)
    ensures Tag(rest) != "" && ':' !in Tag(rest) && '/' !in Tag(rest)
    ensures '@' !in rest ==> '@' !in Tag(rest) && '@' !in Untagged(rest)
  {
  }

  /** Exactly when parsing the full name gives the full name again: a digested reference may not keep a
      colon in the last part of its path, and a reference with an at sign left in its path or tag must
      be complete without what follows it. */
  predicate Stable(raw: string) {
    var rest := CutAtLast(raw, '@').before;
    if Digest(raw) != "" then ':' !in LastPart(Untagged(rest))
    else if '@' !in rest then true
    else
      && '@' !in Tag(rest)
      && var front := CutAtLast(Path(raw), '@').before;
         Complete(front) && ':' !in LastPart(front)
  }

  lemma DigestedStable(raw: string)
    requires raw != "" && Digest(raw) != ""
    ensures Name(Name(raw)) == Name(raw) <==> Stable(raw)
  {
    var rest := CutAtLast(raw, '@').before;
    NameIs(raw);
    FrontStays(Path(raw), Digest(raw));
    CompletedIsComplete(Untagged(rest));
    CompletedLastPart(Untagged(rest));
  }

  lemma NoAtSignInPath(path: string)
    requires '@' !in path
    ensures '@' !in Completed(path)
  {
  }

  lemma PlainStable(raw: string)
    requires raw != "" && Digest(raw) == "" && '@' !in CutAtLast(raw, '@').before
    ensures Name(Name(raw)) == Name(raw)
  {
    var rest := CutAtLast(raw, '@').before;
    NameIs(raw);
    TagIsPlain(rest);
    NoAtSignInPath(Untagged(rest));
    assert '@' !in Name(raw);
    ReadTagged(Name(raw), Path(raw), Tag(rest));
    CompletedIsComplete(Untagged(rest));
  }

  lemma TagEndsInAtSign(path: string, tag: string)
    requires ':' !in tag && '/' !in tag && Completed(path) == path
    ensures Name(path + ":" + (tag + "@" + "")) != path + ":" + (tag + "@" + "")
  {
    var raw := path + ":" + (tag + "@" + "");
    CutAtLastOf(path + ":" + tag, '@', "");
    assert path + ":" + tag + "@" + "" == raw;
    ReadTagged(raw, path, tag);
    if tag == "" {
      assert |Name(raw)| == |path| + 7;
    } else {
      assert |Name(raw)| == |raw| - 1;
    }
  }

  lemma TagHoldsDigest(path: string, tag: string, digest: string)
    requires ':' !in tag && '/' !in tag && '@' !in digest && digest != "" && Completed(path) == path
    ensures Name(path + ":" + (tag + "@" + digest)) != path + ":" + (tag + "@" + digest)
  {
    assert path + ":" + (tag + "@" + digest) == path + ":" + tag + "@" + digest;
    TagIsDropped(path, tag, digest);
    assert |path + ":" + (tag + "@" + digest)| > |path + "@" + digest|;
  }

  /** An at sign inside the tag is taken for a digest, or lost. */
  lemma TagWithAtSign(path: string, tag: string)
    requires '@' in tag && ':' !in tag && '/' !in tag && Completed(path) == path
    ensures Name(path + ":" + tag) != path + ":" + tag
  {
    var cut := CutAtLast(tag, '@');
    assert tag == cut.before + "@" + cut.after;
    assert cut.before <= tag;
    if cut.after == "" {
      TagEndsInAtSign(path, cut.before);
    } else {
      TagHoldsDigest(path, cut.before, cut.after);
    }
  }

  lemma CompletedUntagged(front: string)
    ensures Completed(Untagged(front)) == front <==> Complete(front) && ':' !in LastPart(front)
  {
    UntaggedShape(front);
    CompletedIsComplete(Untagged(front));
  }

  /** With a digest, only the front of a name is read as a path; it stays when it is complete and untagged. */
  lemma FrontStays(front: string, digest: string)
    requires '@' !in digest && digest != ""
    ensures Name(front + "@" + digest) == front + "@" + digest <==> Complete(front) && ':' !in LastPart(front)
  {
    ReadDigested(front, digest);
    SameFront(Completed(Untagged(front)), front, "@", digest);
    CompletedUntagged(front);
  }

  /** An at sign inside the path turns the rest of the name into a digest. */
  lemma PathWithAtSign(path: string, tag: string)
    requires '@' in path && '@' !in tag
    ensures var front := CutAtLast(path, '@').before;
            Name(path + ":" + tag) == path + ":" + tag <==> Complete(front) && ':' !in LastPart(front)
  {
    var cut := CutAtLast(path, '@');
    assert path == cut.before + ['@'] + cut.after;
    assert path + ":" + tag == cut.before + "@" + (cut.after + ":" + tag);
    FrontStays(cut.before, cut.after + ":" + tag);
  }

  lemma SameFront(a: string, b: string, sep: string, behind: string)
    ensures a + sep + behind == b + sep + behind <==> a == b
  {
    if a + sep + behind == b + sep + behind {
      assert |a| == |b|;
      assert a == (a + sep + behind)[..|a|] && b == (b + sep + behind)[..|b|];
    }
  }

  lemma AtSignStable(raw: string)
    requires raw != "" && Digest(raw) == "" && '@' in CutAtLast(raw, '@').before
    ensures Name(Name(raw)) == Name(raw) <==> Stable(raw)
  {
    var rest := CutAtLast(raw, '@').before;
    NameIs(raw);
    TagIsPlain(rest);
    CompletedIsComplete(Untagged(rest));
    if '@' in Tag(rest) {
      TagWithAtSign(Path(raw), Tag(rest));
    } else {
      AtSignInPath(rest);
      PathWithAtSign(Path(raw), Tag(rest));
    }
  }

  lemma AtSignInPath(rest: string)
    requires '@' in rest && '@' !in Tag(rest)
    ensures '@' in Completed(Untagged(rest))
  {
    var cut := CutAtLast(rest, ':');
    assert cut.found ==> rest == cut.before + [':'] + cut.after;
  }

  /** The full name is a canonical form exactly for the stable references. */
  lemma FullNameIsCanonical(raw: string)
    requires raw != ""
    ensures Name(Name(raw)) == Name(raw) <==> Stable(raw)
  {
    var rest := CutAtLast(raw, '@').before;
    if Digest(raw) != "" {
      DigestedStable(raw);
    } else if '@' in rest {
      AtSignStable(raw);
    } else {
      PlainStable(raw);
    }
  }

  /** References with at most one at sign and no digest are stable, with or without a tag. */
  lemma UsualNamesAreCanonical(raw: string)
    requires raw != "" && '@' !in CutAtLast(raw, '@').before
    ensures Name(Name(raw)) == Name(raw)
       <==> Digest(raw) == "" || ':' !in LastPart(Untagged(CutAtLast(raw, '@').before))
  {
    FullNameIsCanonical(raw);
  }

  /** The tag in front of a digest is dropped. */
  lemma TagIsDropped(path: string, tag: string, digest: string)
    requires ':' !in tag && '/' !in tag && '@' !in digest && digest != ""
    ensures Name(path + ":" + tag + "@" + digest) == Completed(path) + "@" + digest
  {
    CutAtLastOf(path, ':', tag);
    ReadDigested(path + ":" + tag, digest);
  }

  /** With two colons before a digest the name is not canonical: each reading drops one of them. */
  lemma EachReadingDropsATag(x: string, y: string, z: string, digest: string)
    requires forall c | c in x || c in y || c in z || c in digest :: c != ':' && c != '/' && c != '@'
    requires digest != ""
    ensures Name(x + ":" + y + ":" + z + "@" + digest) == Completed(x + ":" + y) + "@" + digest
    ensures Name(Completed(x + ":" + y) + "@" + digest) == Completed(x) + "@" + digest
    ensures Completed(x + ":" + y) != Completed(x)
  {
    TagIsDropped(x + ":" + y, z, digest);
    TagIsDropped(Completed(x), y, digest);
    OnePart(x, y);
    CompletedIsComplete(x);
  }

  lemma OnePart(x: string, y: string)
    requires '/' !in x && '/' !in y
    ensures Completed(x + ":" + y) == Completed(x) + ":" + y
  {
    var h, l := DEFAULT_REGISTRY, DEFAULT_NAMESPACE;
    assert h + "/" + (l + "/" + (x + ":" + y)) == h + "/" + (l + "/" + x) + ":" + y;
  }
}
