/** The two ends of the boot protocol live in different programs. These are the statements that
    tie them together: what the host prints, PID 1 reads back. */
module BootRoundTrip {
  import opened Text
  import opened KernelCmdline
  import opened GuestInit

  /** Quoting and unquoting: for every string, whatever quotes, backslashes or blanks it holds. */
  lemma UnescapeEscape(s: string)
    ensures UnescapeArg(EscapeKernelArg(s)) == s
  {
    var e := ReplaceAll(s, "\"", "\\\"");
    QuotesUndone(s);
    if NeedsQuotes(e) {
      assert ("\"" + e + "\"")[1..|"\"" + e + "\""| - 1] == e;
    }
  }

  /** An escaped text never begins with a quote, and replacing back restores the text. */
  lemma {:induction false} QuotesUndone(s: string)
    ensures var e := ReplaceAll(s, "\"", "\\\"");
            && (e != "" ==> e[0] != '"') && (e == "" <==> s == "")
            && ReplaceAll(e, "\\\"", "\"") == s
  {
    if s != "" {
      QuotesUndone(s[1..]);
      var rest := ReplaceAll(s[1..], "\"", "\\\"");
      var e := ReplaceAll(s, "\"", "\\\"");
      if s[0] == '"' {
        assert "\"" <= s;
        assert e == "\\\"" + rest;
        assert e[2..] == rest;
      } else {
        assert e == [s[0]] + rest;
        assert e[1..] == rest;
      }
    }
  }

  /** Escaping adds no white space to a text that has none, and none disappears. */
  lemma {:induction false} EscapeKeepsNoSpace(s: string)
    ensures NoSpace(EscapeKernelArg(s)) <==> NoSpace(s)
  {
    ReplaceKeepsNoSpace(s);
    var e := ReplaceAll(s, "\"", "\\\"");
    if NeedsQuotes(e) {
      var i :| 0 <= i < |e| && (e[i] == ' ' || e[i] == '\t' || e[i] == '\n');
      assert ("\"" + e + "\"")[i + 1] == e[i];
    }
  }

  lemma {:induction false} ReplaceKeepsNoSpace(s: string)
    ensures NoSpace(ReplaceAll(s, "\"", "\\\"")) <==> NoSpace(s)
  {
    if s != "" {
      ReplaceKeepsNoSpace(s[1..]);
      var rest := ReplaceAll(s[1..], "\"", "\\\"");
      assert s == [s[0]] + s[1..];
      NoSpaceAppend([s[0]], s[1..]);
      if s[0] == '"' {
        assert "\"" <= s;
        NoSpaceAppend("\\\"", rest);
      } else {
        NoSpaceAppend([s[0]], rest);
      }
    }
  }

  lemma NoSpaceAppend(a: string, b: string)
    ensures NoSpace(a + b) <==> NoSpace(a) && NoSpace(b)
  {
    if NoSpace(a + b) {
      assert forall i | 0 <= i < |a| :: a[i] == (a + b)[i];
      assert forall i | 0 <= i < |b| :: b[i] == (a + b)[|a| + i];
    }
  }

  /** A key as the host prints it. */
  predicate ParamKey(key: string) {
    HasPrefix(key, "poqman.") && '=' !in key && NoSpace(key)
  }

  predicate PrintableBindings(bindings: seq<Binding>) {
    forall i | 0 <= i < |bindings| :: ParamKey(bindings[i].key) && NoSpace(bindings[i].value)
  }

  /** Words that PID 1 skips. */
  predicate Foreign(words: seq<string>) {
    forall i | 0 <= i < |words| :: !HasPrefix(words[i], "poqman.")
  }

  function BindAll(bindings: seq<Binding>): map<string, string> {
    if bindings == [] then map[]
    else
      var n := |bindings| - 1;
      BindAll(bindings[..n])[bindings[n].key := bindings[n].value]
  }

  lemma {:induction false} EqualsAtFirst(key: string, rest: string)
    requires '=' !in key
    ensures EqualsAt(key + "=" + rest) == |key|
  {
    if key != "" {
      var word := key + "=" + rest;
      assert word[0] == key[0] && word[1..] == key[1..] + "=" + rest;
      EqualsAtFirst(key[1..], rest);
    }
  }

  /** Reading one printed word binds its key to the unescaped value. */
  lemma AddPrintedWord(params: map<string, string>, b: Binding)
    requires ParamKey(b.key)
    ensures AddWord(params, b.Word()) == params[b.key := b.value]
  {
    var word := b.Word();
    EqualsAtFirst(b.key, EscapeKernelArg(b.value));
    assert word[..|b.key|] == b.key;
    assert word[|b.key| + 1..] == EscapeKernelArg(b.value);
    UnescapeEscape(b.value);
  }

  lemma {:induction false} ParseForeign(words: seq<string>, foreign: seq<string>)
    requires Foreign(foreign)
    ensures ParseWords(words + foreign) == ParseWords(words)
  {
    if foreign == [] {
      assert words + foreign == words;
    } else {
      var n := |foreign| - 1;
      assert (words + foreign)[..|words| + n] == words + foreign[..n];
      ParseForeign(words, foreign[..n]);
    }
  }

  lemma ParseAppend(words: seq<string>, word: string)
    ensures ParseWords(words + [word]) == AddWord(ParseWords(words), word)
  {
    assert (words + [word])[..|words|] == words;
  }

  lemma {:induction false} ParseBindings(foreign: seq<string>, bindings: seq<Binding>)
    requires Foreign(foreign) && PrintableBindings(bindings)
    ensures ParseWords(foreign + Words(bindings)) == BindAll(bindings)
  {
    if bindings == [] {
      assert foreign + Words(bindings) == [] + foreign;
      ParseForeign([], foreign);
    } else {
      var n := |bindings| - 1;
      ParseBindings(foreign, bindings[..n]);
      var front, w := Words(bindings[..n]), bindings[n].Word();
      WordsSplit(bindings);
      assert foreign + (front + [w]) == foreign + front + [w];
      ParseAppend(foreign + front, w);
      AddPrintedWord(BindAll(bindings[..n]), bindings[n]);
    }
  }

  /** Splitting a line of printed words at its blanks gives these words again. */
  lemma {:induction false} FieldsOfBindings(bindings: seq<Binding>)
    requires PrintableBindings(bindings)
    ensures AllFields(Words(bindings)) == Words(bindings)
  {
    if bindings != [] {
      var n := |bindings| - 1;
      FieldsOfBindings(bindings[..n]);
      FieldsOfBinding(bindings[n]);
      AllFieldsAppend(Words(bindings[..n]), bindings[n].Word());
      WordsSplit(bindings);
    }
  }

  lemma FieldsOfBinding(b: Binding)
    requires NoSpace(b.key) && NoSpace(b.value)
    ensures Fields(b.Word()) == [b.Word()]
  {
    WordHasNoSpace(b);
    FieldsOfOneWord(b.Word());
  }

  lemma WordHasNoSpace(b: Binding)
    requires NoSpace(b.key) && NoSpace(b.value)
    ensures NoSpace(b.Word())
  {
    EscapeKeepsNoSpace(b.value);
    NoSpaceAppend(b.key, "=");
    NoSpaceAppend(b.key + "=", EscapeKernelArg(b.value));
  }

  /** The bindings that one boot prints; the command contributes its first word. */
  function BootBindings(boot: Boot): seq<Binding> {
    HostBindings(boot) + VolumeBindings(boot.volumes) + [CommandBinding(boot.cmd)]
  }

  function CommandBinding(cmd: seq<string>): Binding {
    Binding(CMD_KEY, if cmd == [] then DEFAULT_CMD else cmd[0])
  }

  predicate PrintableVolumes(volumes: seq<VolumeMount>) {
    forall i | 0 <= i < |volumes| :: NoSpace(volumes[i].source) && NoSpace(volumes[i].target)
  }

  /** All values that the command line has to carry are free of white space. */
  predicate Printable(boot: Boot) {
    && NoSpace(boot.hostname) && NoSpace(boot.ip) && NoSpace(boot.gateway) && NoSpace(boot.dns)
    && PrintableVolumes(boot.volumes)
    && (boot.cmd != [] ==> NoSpace(boot.cmd[0]))
  }

  /** What PID 1 sees of the command behind its first word. */
  function Later(cmd: seq<string>): seq<string> {
    if cmd == [] then [] else AllFields(EscapeAll(cmd)[1..])
  }

  predicate Agrees(params: map<string, string>, key: string, value: string) {
    key in params ==> params[key] == value
  }

  /** No later command word that poses as a parameter gives another value to one that PID 1 reads, and none
      makes a further volume. */
  ghost predicate Undisturbed(boot: Boot) {
    LeavesAlone(ParseWords(Later(boot.cmd)), boot)
  }

  ghost predicate LeavesAlone(later: map<string, string>, boot: Boot) {
    && Agrees(later, "poqman.hostname", boot.hostname)
    && Agrees(later, "poqman.ip", boot.ip)
    && Agrees(later, "poqman.gateway", boot.gateway)
    && Agrees(later, "poqman.dns", boot.dns)
    && Agrees(later, CMD_KEY, CommandBinding(boot.cmd).value)
    && (forall i | 0 <= i < |boot.volumes| ::
          && Agrees(later, VolumeKey(i, "source"), boot.volumes[i].source)
          && Agrees(later, VolumeKey(i, "target"), boot.volumes[i].target)
          && Agrees(later, VolumeKey(i, "readonly"), Flag(boot.volumes[i].readOnly)))
    && (forall i: nat | |boot.volumes| <= i :: VolumeKey(i, "source") !in later)
  }

  lemma {:induction false} VolumeBindingsPrintable(volumes: seq<VolumeMount>)
    requires PrintableVolumes(volumes)
    ensures PrintableBindings(VolumeBindings(volumes))
  {
    if volumes != [] {
      var n := |volumes| - 1;
      VolumeBindingsPrintable(volumes[..n]);
      VolumeKeyIsParamKey(n, "source");
      VolumeKeyIsParamKey(n, "target");
      VolumeKeyIsParamKey(n, "readonly");
    }
  }

  lemma VolumeKeyIsParamKey(i: nat, field: string)
    requires '=' !in field && NoSpace(field)
    ensures ParamKey(VolumeKey(i, field))
  {
  }

  lemma {:induction false} ParseConcat(a: seq<string>, b: seq<string>)
    ensures ParseWords(a + b) == ParseWords(a) + ParseWords(b)
  {
    if b == [] {
      assert a + b == a;
    } else {
      var n := |b| - 1;
      assert (a + b)[..|a| + n] == a + b[..n];
      ParseConcat(a, b[..n]);
      AddOver(ParseWords(a), ParseWords(b[..n]), b[n]);
    }
  }

  lemma AddOver(front: map<string, string>, params: map<string, string>, word: string)
    ensures AddWord(front + params, word) == front + AddWord(params, word)
  {
  }

  /** The parameters PID 1 reads: those in front, overridden by the printed bindings, overridden by the
      later command words that look like parameters. */
  lemma ParsePrinted(before: string, boot: Boot)
    requires Printable(boot)
    ensures ParseWords(Fields(before + " " + Join(InitParts(boot), " ")))
         == ParseWords(Fields(before)) + BindAll(BootBindings(boot)) + ParseWords(Later(boot.cmd))
  {
    var bindings := HostBindings(boot) + VolumeBindings(boot.volumes);
    BindingsPrintable(boot);
    PrintedFields(before, boot);
    CommandBindingPrintable(boot.cmd);
    ParseLine(Fields(before), bindings, CommandBinding(boot.cmd), Later(boot.cmd));
  }

  /** The words of the line: those in front, the printed bindings, and the later words of the command. */
  lemma PrintedFields(before: string, boot: Boot)
    requires Printable(boot)
    ensures Fields(before + " " + Join(InitParts(boot), " "))
         == Fields(before) + (Words(HostBindings(boot) + VolumeBindings(boot.volumes))
                              + ([CommandBinding(boot.cmd).Word()] + Later(boot.cmd)))
  {
    var bindings := HostBindings(boot) + VolumeBindings(boot.volumes);
    BindingsPrintable(boot);
    CommandFields(boot.cmd);
    FieldsOfLine(before, bindings, CommandPart(boot.cmd));
    FieldsOfBindings(bindings);
  }

  lemma BindingsPrintable(boot: Boot)
    requires Printable(boot)
    ensures PrintableBindings(HostBindings(boot) + VolumeBindings(boot.volumes))
  {
    VolumeBindingsPrintable(boot.volumes);
    HostValuesPrintable(boot);
    NonEmptyPrintable(HostValues(boot));
  }

  lemma HostValuesPrintable(boot: Boot)
    requires Printable(boot)
    ensures PrintableBindings(HostValues(boot))
  {
    assert ParamKey("poqman.hostname");
    assert ParamKey("poqman.ip");
    assert ParamKey("poqman.gateway");
    assert ParamKey("poqman.dns");
  }

  lemma {:induction false} NonEmptyPrintable(bindings: seq<Binding>)
    requires PrintableBindings(bindings)
    ensures PrintableBindings(NonEmpty(bindings))
  {
    if bindings != [] {
      NonEmptyPrintable(bindings[..|bindings| - 1]);
    }
  }

  lemma FieldsOfLine(before: string, bindings: seq<Binding>, part: string)
    ensures Fields(before + " " + Join(Words(bindings) + [part], " "))
         == Fields(before) + (AllFields(Words(bindings)) + Fields(part))
  {
    var parts := Words(bindings) + [part];
    FieldsSplit(before, Join(parts, " "));
    FieldsOfJoin(parts);
    AllFieldsAppend(Words(bindings), part);
  }

  lemma ParseLine(before: seq<string>, bindings: seq<Binding>, last: Binding, later: seq<string>)
    requires PrintableBindings(bindings + [last])
    ensures ParseWords(before + (Words(bindings) + ([last.Word()] + later)))
         == ParseWords(before) + BindAll(bindings + [last]) + ParseWords(later)
  {
    var all := bindings + [last];
    WordsAppend(bindings, [last]);
    assert Words([last]) == [last.Word()];
    assert before + (Words(bindings) + ([last.Word()] + later)) == before + Words(all) + later;
    ParseConcat(before + Words(all), later);
    ParseConcat(before, Words(all));
    ParseBindings([], all);
    assert [] + Words(all) == Words(all);
  }

  lemma CommandBindingPrintable(cmd: seq<string>)
    requires cmd != [] ==> NoSpace(cmd[0])
    ensures ParamKey(CommandBinding(cmd).key) && NoSpace(CommandBinding(cmd).value)
  {
  }

  lemma CommandFields(cmd: seq<string>)
    requires cmd != [] ==> NoSpace(cmd[0])
    ensures Fields(CommandPart(cmd)) == [CommandBinding(cmd).Word()] + Later(cmd)
  {
    CommandBindingPrintable(cmd);
    FieldsOfBinding(CommandBinding(cmd));
    if cmd == [] {
      DefaultCommandWord();
    } else {
      FieldsOfHeadedJoin(CMD_KEY + "=", EscapeAll(cmd));
    }
  }

  lemma DefaultCommandWord()
    ensures CommandPart([]) == CommandBinding([]).Word()
  {
    EscapePlain(DEFAULT_CMD);
  }

  lemma {:induction false} BindAllConcat(a: seq<Binding>, b: seq<Binding>)
    ensures BindAll(a + b) == BindAll(a) + BindAll(b)
  {
    if b == [] {
      assert a + b == a;
    } else {
      var n := |b| - 1;
      assert (a + b)[..|a| + n] == a + b[..n];
      BindAllConcat(a, b[..n]);
    }
  }

  predicate IsVolumeKey(key: string) {
    |key| > 7 && key[7] == 'v'
  }

  /** The volume parameters of a map, read index by index. */
  ghost predicate RecoversVolumes(params: map<string, string>, volumes: seq<VolumeMount>) {
    && (forall i | 0 <= i < |volumes| ::
          && Get(params, VolumeKey(i, "source")) == volumes[i].source
          && Get(params, VolumeKey(i, "target")) == volumes[i].target
          && Get(params, VolumeKey(i, "readonly")) == Flag(volumes[i].readOnly))
    && (forall i: nat | |volumes| <= i :: VolumeKey(i, "source") !in params)
  }

  lemma {:induction false} VolumesRecovered(volumes: seq<VolumeMount>)
    ensures RecoversVolumes(BindAll(VolumeBindings(volumes)), volumes)
    ensures forall k | k in BindAll(VolumeBindings(volumes)) :: IsVolumeKey(k)
  {
    if volumes != [] {
      var n := |volumes| - 1;
      var bs := VolumeBinding(n, volumes[n]);
      VolumesRecovered(volumes[..n]);
      BindAllConcat(VolumeBindings(volumes[..n]), bs);
      BindThree(bs[0], bs[1], bs[2]);
      VolumeStep(BindAll(VolumeBindings(volumes[..n])), volumes, BindAll(VolumeBindings(volumes)));
    }
  }

  lemma BindThree(a: Binding, b: Binding, c: Binding)
    ensures BindAll([a, b, c]) == map[][a.key := a.value][b.key := b.value][c.key := c.value]
  {
    assert [a][..0] == [];
    assert BindAll([a]) == map[][a.key := a.value];
    assert [a, b][..1] == [a];
    assert [a, b, c][..2] == [a, b];
  }

  /** Binding the keys of the last volume leaves the earlier volumes as they were. */
  lemma VolumeStep(params: map<string, string>, volumes: seq<VolumeMount>, more: map<string, string>)
    requires volumes != []
    requires RecoversVolumes(params, volumes[..|volumes| - 1])
    requires var n := |volumes| - 1; var v := volumes[n];
             more == params + map[][VolumeKey(n, "source") := v.source][VolumeKey(n, "target") := v.target]
                                   [VolumeKey(n, "readonly") := Flag(v.readOnly)]
    ensures RecoversVolumes(more, volumes)
  {
    var n := |volumes| - 1;
    FieldsApart(n);
    forall i: nat | i != n
      ensures VolumeKey(i, "source") in more <==> VolumeKey(i, "source") in params
      ensures Get(more, VolumeKey(i, "source")) == Get(params, VolumeKey(i, "source"))
      ensures Get(more, VolumeKey(i, "target")) == Get(params, VolumeKey(i, "target"))
      ensures Get(more, VolumeKey(i, "readonly")) == Get(params, VolumeKey(i, "readonly"))
    {
      KeysApart(i, "source", n);
      KeysApart(i, "target", n);
      KeysApart(i, "readonly", n);
    }
  }

  lemma FieldsApart(n: nat)
    ensures VolumeKey(n, "source") != VolumeKey(n, "target")
    ensures VolumeKey(n, "source") != VolumeKey(n, "readonly")
    ensures VolumeKey(n, "target") != VolumeKey(n, "readonly")
  {
    var at := |VolumeKey(n, "")|;
    assert VolumeKey(n, "source")[at] == 's';
    assert VolumeKey(n, "target")[at] == 't';
    assert VolumeKey(n, "readonly")[at] == 'r';
  }

  lemma KeysApart(i: nat, field: string, n: nat)
    ensures VolumeKey(i, field) == VolumeKey(n, "source") ==> i == n
    ensures VolumeKey(i, field) == VolumeKey(n, "target") ==> i == n
    ensures VolumeKey(i, field) == VolumeKey(n, "readonly") ==> i == n
  {
    forall other | VolumeKey(i, field) == VolumeKey(n, other) ensures i == n {
      VolumeKeyInjective(i, field, n, other);
    }
  }

  /** PID 1 sees every value that the host passed to BuildInitCmdline: the empty ones as unset, of
      the command its first word, and no volume beyond the given ones. */
  ghost predicate Recovers(params: map<string, string>, boot: Boot) {
    && Get(params, "poqman.hostname") == boot.hostname
    && Get(params, "poqman.ip") == boot.ip
    && Get(params, "poqman.gateway") == boot.gateway
    && Get(params, "poqman.dns") == boot.dns
    && Get(params, CMD_KEY) == CommandBinding(boot.cmd).value
    && RecoversVolumes(params, boot.volumes)
  }

  predicate DistinctKeys(bindings: seq<Binding>) {
    forall i, j | 0 <= i < j < |bindings| :: bindings[i].key != bindings[j].key
  }

  /** Binding all values but the empty ones. */
  function BindNonEmpty(bindings: seq<Binding>): map<string, string> {
    if bindings == [] then map[]
    else
      var n := |bindings| - 1;
      var front := BindNonEmpty(bindings[..n]);
      if bindings[n].value == "" then front else front[bindings[n].key := bindings[n].value]
  }

  lemma {:induction false} BindingNonEmpty(bindings: seq<Binding>)
    ensures BindAll(NonEmpty(bindings)) == BindNonEmpty(bindings)
  {
    if bindings != [] {
      var n := |bindings| - 1;
      BindingNonEmpty(bindings[..n]);
      BindUnlessEmpty(NonEmpty(bindings[..n]), bindings[n]);
    }
  }

  predicate Unused(bindings: seq<Binding>, key: string) {
    forall i | 0 <= i < |bindings| :: bindings[i].key != key
  }

  lemma {:induction false} UnusedNotBound(bindings: seq<Binding>, key: string)
    requires Unused(bindings, key)
    ensures key !in BindNonEmpty(bindings)
  {
    if bindings != [] {
      UnusedNotBound(bindings[..|bindings| - 1], key);
    }
  }

  /** Leaving out the empty values is invisible to a reader for whom a missing key is empty. */
  lemma {:induction false} NonEmptyBound(bindings: seq<Binding>, i: nat)
    requires DistinctKeys(bindings) && i < |bindings|
    ensures Get(BindNonEmpty(bindings), bindings[i].key) == bindings[i].value
  {
    var n := |bindings| - 1;
    if i < n {
      NonEmptyBound(bindings[..n], i);
    } else {
      UnusedNotBound(bindings[..n], bindings[n].key);
    }
  }

  lemma BindUnlessEmpty(front: seq<Binding>, last: Binding)
    ensures BindAll(front + if last.value == "" then [] else [last])
         == if last.value == "" then BindAll(front) else BindAll(front)[last.key := last.value]
  {
    if last.value == "" {
      assert front + [] == front;
    } else {
      assert (front + [last])[..|front|] == front;
    }
  }

  predicate RecoversHost(host: map<string, string>, boot: Boot) {
    && Get(host, "poqman.hostname") == boot.hostname
    && Get(host, "poqman.ip") == boot.ip
    && Get(host, "poqman.gateway") == boot.gateway
    && Get(host, "poqman.dns") == boot.dns
  }

  lemma HostKeysDistinct(boot: Boot)
    ensures DistinctKeys(HostValues(boot))
    ensures forall i | 0 <= i < 4 :: !IsVolumeKey(HostValues(boot)[i].key)
  {
    var values := HostValues(boot);
    assert values[0].key[7] == 'h' && values[1].key[7] == 'i';
    assert values[2].key[7] == 'g' && values[3].key[7] == 'd';
  }

  lemma HostRecovered(boot: Boot)
    ensures var host := BindAll(HostBindings(boot));
            RecoversHost(host, boot) && forall k | k in host :: !IsVolumeKey(k)
  {
    HostKeysDistinct(boot);
    BindingNonEmpty(HostValues(boot));
    HostValuesBound(boot);
    forall k | IsVolumeKey(k) ensures k !in BindNonEmpty(HostValues(boot)) {
      UnusedNotBound(HostValues(boot), k);
    }
  }

  lemma HostValuesBound(boot: Boot)
    requires DistinctKeys(HostValues(boot))
    ensures RecoversHost(BindNonEmpty(HostValues(boot)), boot)
  {
    var values := HostValues(boot);
    NonEmptyBound(values, 0);
    NonEmptyBound(values, 1);
    NonEmptyBound(values, 2);
    NonEmptyBound(values, 3);
  }

  lemma MergeRecovers(host: map<string, string>, vols: map<string, string>, boot: Boot)
    requires RecoversHost(host, boot) && forall k | k in host :: !IsVolumeKey(k)
    requires RecoversVolumes(vols, boot.volumes) && forall k | k in vols :: IsVolumeKey(k)
    ensures Recovers((host + vols)[CMD_KEY := CommandBinding(boot.cmd).value], boot)
  {
    var params := (host + vols)[CMD_KEY := CommandBinding(boot.cmd).value];
    forall k | IsVolumeKey(k)
      ensures (k in params <==> k in vols) && Get(params, k) == Get(vols, k)
    {
    }
    forall i: nat, f ensures IsVolumeKey(VolumeKey(i, f)) {}
    assert RecoversVolumes(params, boot.volumes);
    forall k | !IsVolumeKey(k) && k != CMD_KEY ensures Get(params, k) == Get(host, k) {}
  }

  lemma BindingsRecovered(boot: Boot)
    ensures Recovers(BindAll(BootBindings(boot)), boot)
  {
    var host, vols := BindAll(HostBindings(boot)), BindAll(VolumeBindings(boot.volumes));
    var before := HostBindings(boot) + VolumeBindings(boot.volumes);
    assert BootBindings(boot)[..|before|] == before;
    BindAllConcat(HostBindings(boot), VolumeBindings(boot.volumes));
    HostRecovered(boot);
    VolumesRecovered(boot.volumes);
    MergeRecovers(host, vols, boot);
  }

  /** No value that PID 1 ever reads contains white space. */
  lemma {:induction false} ParsedValuesHaveNoSpace(words: seq<string>)
    requires forall i | 0 <= i < |words| :: NoSpace(words[i])
    ensures forall k | k in ParseWords(words) :: NoSpace(ParseWords(words)[k])
  {
    if words != [] {
      var word := words[|words| - 1];
      ParsedValuesHaveNoSpace(words[..|words| - 1]);
      var i := EqualsAt(word);
      if i < |word| {
        UnescapeHasNoSpace(word[i + 1..]);
      }
    }
  }

  lemma UnescapeHasNoSpace(arg: string)
    requires NoSpace(arg)
    ensures NoSpace(UnescapeArg(arg))
  {
    if |arg| >= 2 && arg[0] == '"' && arg[|arg| - 1] == '"' {
      QuoteReplaceHasNoSpace(arg[1..|arg| - 1]);
    } else {
      QuoteReplaceHasNoSpace(arg);
    }
  }

  lemma {:induction false} QuoteReplaceHasNoSpace(s: string)
    requires NoSpace(s)
    ensures NoSpace(ReplaceAll(s, "\\\"", "\""))
  {
    if |s| >= 2 {
      QuoteReplaceHasNoSpace(s[2..]);
      QuoteReplaceHasNoSpace(s[1..]);
      NoSpaceAppend("\"", ReplaceAll(s[2..], "\\\"", "\""));
      NoSpaceAppend([s[0]], ReplaceAll(s[1..], "\\\"", "\""));
    }
  }

  lemma OverrideRecovers(printed: map<string, string>, later: map<string, string>, boot: Boot)
    requires Recovers(printed, boot)
    ensures Recovers(printed + later, boot) <==> LeavesAlone(later, boot)
  {
    var params := printed + later;
    assert forall k, v | Get(printed, k) == v :: Get(params, k) == v <==> Agrees(later, k, v);
  }

  lemma ParsedLine(before: string, boot: Boot)
    requires Foreign(Fields(before)) && Printable(boot)
    ensures ParseWords(Fields(before + " " + Join(InitParts(boot), " ")))
         == BindAll(BootBindings(boot)) + ParseWords(Later(boot.cmd))
  {
    ParsePrinted(before, boot);
    ForeignIsNothing(Fields(before));
    assert map[] + BindAll(BootBindings(boot)) == BindAll(BootBindings(boot));
  }

  lemma ForeignIsNothing(words: seq<string>)
    requires Foreign(words)
    ensures ParseWords(words) == map[]
  {
    ParseForeign([], words);
    assert [] + words == words;
  }

  lemma OnlyPrintableRecovers(line: string, boot: Boot)
    requires Recovers(ParseWords(Fields(line)), boot)
    ensures Printable(boot)
  {
    ReadValuesHaveNoSpace(line);
    assert forall i | 0 <= i < |boot.volumes| :: NoSpace(boot.volumes[i].source) && NoSpace(boot.volumes[i].target);
  }

  /** The main statement. Behind any kernel parameters of the host, PID 1 recovers everything if and only if
      no value contains white space, and no later command word poses as a parameter with another value. */
  lemma BootRoundTrip(before: string, boot: Boot)
    requires Foreign(Fields(before))
    ensures Recovers(ParseWords(Fields(before + " " + Join(InitParts(boot), " "))), boot)
       <==> Printable(boot) && Undisturbed(boot)
  {
    if Printable(boot) {
      ParsedLine(before, boot);
      BindingsRecovered(boot);
      OverrideRecovers(BindAll(BootBindings(boot)), ParseWords(Later(boot.cmd)), boot);
    } else if Recovers(ParseWords(Fields(before + " " + Join(InitParts(boot), " "))), boot) {
      OnlyPrintableRecovers(before + " " + Join(InitParts(boot), " "), boot);
    }
  }

  lemma ReadValuesHaveNoSpace(line: string)
    ensures forall k :: NoSpace(Get(ParseWords(Fields(line)), k))
  {
    FieldsAreWords(line, "");
    ParsedValuesHaveNoSpace(Fields(line));
  }

  /** The line run and start really print: the kernel parameters first, for any console device. */
  lemma FullLineRoundTrip(cfg: QEMUConfig, boot: Boot)
    requires NoSpace(cfg.console)
    ensures Recovers(ParseWords(Fields(Join(KernelParts(cfg), " ") + " " + Join(InitParts(boot), " "))), boot)
       <==> Printable(boot) && Undisturbed(boot)
  {
    FieldsOfJoin(KernelParts(cfg));
    KernelWords(cfg);
    assert forall i | 0 <= i < |KernelParts(cfg)| :: SkippedWord(KernelParts(cfg)[i]);
    FieldsOfWords(KernelParts(cfg));
    BootRoundTrip(Join(KernelParts(cfg), " "), boot);
  }

  /** Without later words that look like parameters nothing is disturbed. */
  lemma QuietCommand(boot: Boot)
    requires Foreign(Later(boot.cmd))
    ensures Undisturbed(boot)
  {
    ForeignIsNothing(Later(boot.cmd));
    NothingDisturbs(boot);
  }

  lemma NothingDisturbs(boot: Boot)
    ensures LeavesAlone(map[], boot)
  {
  }

  predicate SkippedWord(word: string) {
    word != "" && NoSpace(word) && !HasPrefix(word, "poqman.")
  }

  lemma KernelWords(cfg: QEMUConfig)
    requires NoSpace(cfg.console)
    ensures forall i | 0 <= i < |KernelParts(cfg)| :: SkippedWord(KernelParts(cfg)[i])
  {
    FixedWords();
    FlagsWord();
    ConsoleWord(cfg.console);
    RootWords(cfg);
  }

  lemma FixedWords()
    ensures SkippedWord(ROOT) && SkippedWord(ROOT_TYPE) && SkippedWord("rw") && SkippedWord("quiet")
  {
    KernelWord(ROOT);
    KernelWord(ROOT_TYPE);
    KernelWord("rw");
    KernelWord("quiet");
  }

  lemma FlagsWord()
    ensures SkippedWord(ROOT_FLAGS)
  {
    NoSpaceAppend("rootflags=trans=", "virtio,");
    NoSpaceAppend("rootflags=trans=" + "virtio,", "version=9p2000.L");
    KernelWord(ROOT_FLAGS);
  }

  lemma RootWords(cfg: QEMUConfig)
    requires SkippedWord(ROOT) && SkippedWord(ROOT_TYPE) && SkippedWord(ROOT_FLAGS) && SkippedWord("rw")
    requires SkippedWord("console=" + cfg.console) && SkippedWord("quiet")
    ensures forall i | 0 <= i < |KernelParts(cfg)| :: SkippedWord(KernelParts(cfg)[i])
  {
  }

  lemma KernelWord(word: string)
    requires word != "" && word[0] != 'p' && NoSpace(word)
    ensures SkippedWord(word)
  {
  }

  lemma ConsoleWord(console: string)
    requires NoSpace(console)
    ensures SkippedWord("console=" + console)
  {
    NoSpaceAppend("console=", console);
    KernelWord("console=" + console);
  }

  /** PID 1 starts the command the user gave exactly when that command is a single word without white
      space, whatever else is on the line. */
  lemma CommandSurvives(before: string, boot: Boot)
    requires boot.cmd != []
    ensures var params := ParseWords(Fields(before + " " + Join(InitParts(boot), " ")));
            Get(params, CMD_KEY) == Join(boot.cmd, " ") <==> |boot.cmd| == 1 && NoSpace(boot.cmd[0])
  {
    var line := before + " " + Join(InitParts(boot), " ");
    ReadValuesHaveNoSpace(line);
    if |boot.cmd| > 1 {
      var n := |boot.cmd| - 1;
      assert Join(boot.cmd, " ")[|Join(boot.cmd[..n], " ")|] == ' ';
    } else if NoSpace(boot.cmd[0]) {
      LastWordCounts(before, boot);
    }
  }

  lemma LastWordCounts(before: string, boot: Boot)
    requires |boot.cmd| == 1 && NoSpace(boot.cmd[0])
    ensures Get(ParseWords(Fields(before + " " + Join(InitParts(boot), " "))), CMD_KEY) == boot.cmd[0]
  {
    var bindings := HostBindings(boot) + VolumeBindings(boot.volumes);
    CommandFields(boot.cmd);
    OneWordHasNoLater(boot.cmd);
    FieldsOfLine(before, bindings, CommandPart(boot.cmd));
    CommandBindingPrintable(boot.cmd);
    LastBindingCounts(Fields(before), AllFields(Words(bindings)), CommandBinding(boot.cmd));
  }

  lemma OneWordHasNoLater(cmd: seq<string>)
    requires |cmd| == 1
    ensures Later(cmd) == []
  {
    assert EscapeAll(cmd)[1..] == [];
  }

  lemma LastBindingCounts(before: seq<string>, words: seq<string>, b: Binding)
    requires ParamKey(b.key)
    ensures Get(ParseWords(before + (words + ([b.Word()] + []))), b.key) == b.value
  {
    assert before + (words + ([b.Word()] + [])) == before + words + [b.Word()];
    ParseAppend(before + words, b.Word());
    AddPrintedWord(ParseWords(before + words), b);
  }

  /** How many volumes PID 1 asks for: it stops at the first one without a source or a target. */
  function UpToGap(volumes: seq<VolumeMount>): (n: nat)
    ensures n <= |volumes|
    ensures forall i | 0 <= i < n :: volumes[i].source != "" && volumes[i].target != ""
    ensures n < |volumes| ==> volumes[n].source == "" || volumes[n].target == ""
  {
    if volumes == [] || volumes[0].source == "" || volumes[0].target == "" then 0
    else 1 + UpToGap(volumes[1..])
  }

  /** PID 1 mounts, in order, exactly the volumes before the first incomplete one, each under its own
      target and with its own read-only flag. */
  lemma MountsWhatWasGiven(params: map<string, string>, boot: Boot, mounts: seq<Mount>)
    requires Recovers(params, boot) && MountsUpToGap(params, mounts)
    ensures |mounts| == UpToGap(boot.volumes)
    ensures forall i | 0 <= i < |mounts| ::
              mounts[i] == Mount(Tag(i), boot.volumes[i].target,
                                 "trans=virtio,version=9p2000.L" + if boot.volumes[i].readOnly then ",ro" else ",rw")
  {
    var n := UpToGap(boot.volumes);
    assert forall i: nat | i < n :: HasVolume(params, i);
    assert !HasVolume(params, n);
    assert forall i: nat | i < |mounts| :: HasVolume(params, i);
  }

  /** The tag that PID 1 mounts at index i is the tag under which QEMU exports that very volume, and
      no two volumes share a tag. */
  lemma TagsAgree(params: map<string, string>, boot: Boot, mounts: seq<Mount>, args: seq<string>, i: nat, j: nat)
    requires Recovers(params, boot) && MountsUpToGap(params, mounts)
    requires |args| == 4 * |boot.volumes|
    requires forall k | 0 <= k < |boot.volumes| :: args[4 * k..4 * k + 4] == VolumeArg(k, boot.volumes[k])
    requires i < |mounts| && j < |boot.volumes|
    ensures args[4 * j + 3] == Device(mounts[i].tag) <==> i == j
    ensures i == j ==> args[4 * j + 1] == "local,id=" + mounts[i].tag + ",path=" + boot.volumes[j].source
                       + ",security_model=mapped-xattr" + if boot.volumes[j].readOnly then ",readonly=on" else ""
  {
    MountsWhatWasGiven(params, boot, mounts);
    var arg := args[4 * j..4 * j + 4];
    assert arg[3] == args[4 * j + 3] && arg[1] == args[4 * j + 1];
    if arg[3] == Device(Tag(i)) {
      DeviceInjective(i, j);
    }
  }

  function Device(tag: string): string {
    "virtio-9p-pci,fsdev=" + tag + ",mount_tag=" + tag
  }

  lemma DeviceInjective(i: nat, j: nat)
    requires Device(Tag(i)) == Device(Tag(j))
    ensures i == j
  {
    var a, b := Numeral(i), Numeral(j);
    DeviceParts(a);
    DeviceParts(b);
    CutBehind("virtio-9p-pci,fsdev=" + "volume", a, b, ',',
              "mount_tag=" + ("volume" + a), "mount_tag=" + ("volume" + b));
    NumeralInjective(i, j);
  }

  lemma DeviceParts(a: string)
    ensures Device("volume" + a)
         == "virtio-9p-pci,fsdev=" + "volume" + (a + [','] + ("mount_tag=" + ("volume" + a)))
  {
    assert ",mount_tag=" == [','] + "mount_tag=";
  }
}
