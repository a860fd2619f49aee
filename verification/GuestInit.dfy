/** The guest side of the boot protocol: cmd/poqman-init/main.go, which runs as PID 1. */
module GuestInit {
  import opened Text
  import opened KernelCmdline
  import opened Sets

  function UnescapeArg(arg: string): string {
    var body := if |arg| >= 2 && arg[0] == '"' && arg[|arg| - 1] == '"' then arg[1..|arg| - 1] else arg;
    ReplaceAll(body, "\\\"", "\"")
  }

  /** The position of the first '=', or the length of the word when there is none. */
  function EqualsAt(word: string): (i: nat)
    ensures i <= |word| && '=' !in word[..i] && (i < |word| ==> word[i] == '=')
  {
    if word == "" || word[0] == '=' then 0 else 1 + EqualsAt(word[1..])
  }

  /** What one word of the command line does to the parameters read so far. */
  function AddWord(params: map<string, string>, word: string): map<string, string> {
    if !HasPrefix(word, "poqman.") then params
    else
      var i := EqualsAt(word);
      if i < |word| then params[word[..i] := UnescapeArg(word[i + 1..])] else params[word := "1"]
  }

  /** A word sets the parameter in front of its first equals sign to the text behind, or to 1 if it has none;
      only names of this program are read. */
  lemma WordSets(params: map<string, string>, key: string, value: string)
    requires '=' !in key
    ensures AddWord(params, key) == if "poqman." <= key then params[key := "1"] else params
    ensures AddWord(params, key + "=" + value)
         == if "poqman." <= key then params[key := UnescapeArg(value)] else params
  {
    var word := key + "=" + value;
    assert word[|key|] == '=' && word[..|key|] == key && word[|key| + 1..] == value;
    assert key[..|key|] == key;
    EqualsAtIs(key, |key|);
    EqualsAtIs(word, |key|);
    SamePrefix("poqman.", key, "=" + value);
    assert key + ("=" + value) == word;
  }

  lemma SamePrefix(p: string, key: string, rest: string)
    requires rest != "" && rest[0] !in p
    ensures p <= key + rest <==> p <= key
  {
    var word := key + rest;
    PrefixLetter(p, word, |key|);
    assert word[|key|] == rest[0];
    assert |p| <= |key| ==> word[..|p|] == key[..|p|];
  }

  lemma PrefixLetter(p: string, word: string, k: nat)
    ensures p <= word && k < |p| ==> word[k] in p
  {
    assert p <= word && k < |p| ==> p[k] == word[k];
  }

  lemma {:induction false} EqualsAtIs(word: string, n: nat)
    requires n <= |word| && '=' !in word[..n] && (n < |word| ==> word[n] == '=')
    ensures EqualsAt(word) == n
  {
    if n > 0 {
      assert word[..n][0] == word[0] && word[..n][1..] == word[1..][..n - 1];
      EqualsAtIs(word[1..], n - 1);
    }
  }

  function ParseWords(words: seq<string>): map<string, string> {
    if words == [] then map[] else AddWord(ParseWords(words[..|words| - 1]), words[|words| - 1])
  }

  method ParseCmdline(data: string) returns (params: map<string, string>)
    ensures params == ParseWords(Fields(data))
  {
    params := map[];
    var words := Fields(data);
    for n := 0 to |words|
      invariant params == ParseWords(words[..n])
    {
      var part := words[n];
      assert words[..n + 1][..n] == words[..n];
      if !HasPrefix(part, "poqman.") {
        continue;
      }
      var i := EqualsAt(part);
      if i < |part| {
        var val := UnescapeArg(part[i + 1..]);
        params := params[part[..i] := val];
      } else {
        params := params[part := "1"];
      }
    }
    assert words[..|words|] == words;
  }

  /** Reading a Go map: a missing key yields the empty string. */
  function Get(params: map<string, string>, key: string): string {
    if key in params then params[key] else ""
  }

  datatype Mount = Mount(tag: string, target: string, options: string)

  predicate HasVolume(params: map<string, string>, i: nat) {
    Get(params, VolumeKey(i, "source")) != "" && Get(params, VolumeKey(i, "target")) != ""
  }

  function MountAt(params: map<string, string>, i: nat): Mount {
    Mount(Tag(i), Get(params, VolumeKey(i, "target")),
          "trans=virtio,version=9p2000.L"
          + if Get(params, VolumeKey(i, "readonly")) == "true" then ",ro" else ",rw")
  }

  /** These are the mounts of the indices from 0 up to, not including, the first missing one. */
  ghost predicate MountsUpToGap(params: map<string, string>, mounts: seq<Mount>) {
    && (forall i | 0 <= i < |mounts| :: HasVolume(params, i) && mounts[i] == MountAt(params, i))
    && !HasVolume(params, |mounts|)
  }

  /** The loop of PID 1 has no bound of its own. It ends because every index it passes owns a key
      of the finite parameter map that no other index owns. */
  method MountVolumes(params: map<string, string>) returns (mounts: seq<Mount>)
    ensures MountsUpToGap(params, mounts)
  {
    mounts := [];
    var i := 0;
    ghost var passed: set<string> := {};
    while true
      invariant i == |mounts|
      invariant forall j | 0 <= j < i :: HasVolume(params, j) && mounts[j] == MountAt(params, j)
      invariant Passed(params, passed, i)
      decreases |params.Keys| - i
    {
      var source := Get(params, VolumeKey(i, "source"));
      var target := Get(params, VolumeKey(i, "target"));
      if source == "" || target == "" {
        break;
      }
      var mountOpts := "trans=virtio,version=9p2000.L";
      if Get(params, VolumeKey(i, "readonly")) == "true" {
        mountOpts := mountOpts + ",ro";
      } else {
        mountOpts := mountOpts + ",rw";
      }
      var mountTag := "volume" + Numeral(i);
      mounts := mounts + [Mount(mountTag, target, mountOpts)];
      passed := PassNext(params, passed, i);
      i := i + 1;
    }
  }

  /** The source keys of the indices below `i`, each of them once. */
  ghost predicate Passed(params: map<string, string>, passed: set<string>, i: nat) {
    && passed <= params.Keys && |passed| == i <= |params.Keys|
    && forall k | k in passed :: exists j: nat :: j < i && k == VolumeKey(j, "source")
  }

  lemma PassNext(params: map<string, string>, passed: set<string>, i: nat) returns (next: set<string>)
    requires Passed(params, passed, i) && HasVolume(params, i)
    ensures Passed(params, next, i + 1)
  {
    var key := VolumeKey(i, "source");
    forall j: nat | j < i ensures VolumeKey(j, "source") != key {
      if VolumeKey(j, "source") == key {
        VolumeKeyInjective(j, "source", i, "source");
      }
    }
    next := passed + {key};
    SubsetSize(next, params.Keys);
  }

  /** No two indices share a key, although the numerals have different lengths. */
  lemma VolumeKeyInjective(i: nat, field: string, j: nat, other: string)
    requires VolumeKey(i, field) == VolumeKey(j, other)
    ensures i == j && field == other
  {
    var a, b := Numeral(i), Numeral(j);
    assert VolumeKey(i, field) == "poqman.volume." + (a + ['.'] + field);
    assert VolumeKey(j, other) == "poqman.volume." + (b + ['.'] + other);
    CutBehind("poqman.volume.", a, b, '.', field, other);
    NumeralInjective(i, j);
  }
}
