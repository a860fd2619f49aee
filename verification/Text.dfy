/** The string operations of Go's standard library that the modelled code relies on. A string is
    a sequence of characters: texts are taken to be valid UTF-8 and are seen rune by rune. */
module Text {

  /** unicode.IsSpace: the runes at which strings.Fields splits and which strings.TrimSpace removes. */
  predicate IsSpace(c: char) {
    || '\t' <= c <= '\r' || c == ' ' || c == '\U{85}' || c == '\U{A0}' || c == '\U{1680}'
    || '\U{2000}' <= c <= '\U{200A}' || c == '\U{2028}' || c == '\U{2029}'
    || c == '\U{202F}' || c == '\U{205F}' || c == '\U{3000}'
  }

  predicate NoSpace(s: string) {
    forall i | 0 <= i < |s| :: !IsSpace(s[i])
  }

  predicate HasPrefix(s: string, p: string) {
    p <= s
  }

  predicate HasSuffix(s: string, p: string) {
    |p| <= |s| && s[|s| - |p|..] == p
  }

  /** strings.ReplaceAll for a non-empty pattern: left to right, without overlap. */
  function ReplaceAll(s: string, pattern: string, with: string): string
    requires pattern != ""
  {
    if |s| < |pattern| then s
    else if pattern <= s then with + ReplaceAll(s[|pattern|..], pattern, with)
    else [s[0]] + ReplaceAll(s[1..], pattern, with)
  }

  /** strings.Join. */
  function Join(parts: seq<string>, sep: string): string {
    if parts == [] then ""
    else if |parts| == 1 then parts[0]
    else Join(parts[..|parts| - 1], sep) + sep + parts[|parts| - 1]
  }

  /** strings.Fields, with the word read so far in `word`. */
  function FieldsFrom(s: string, word: string): seq<string> {
    if s == "" then Flush(word)
    else if IsSpace(s[0]) then Flush(word) + FieldsFrom(s[1..], "")
    else FieldsFrom(s[1..], word + [s[0]])
  }

  function Flush(word: string): seq<string> {
    if word == "" then [] else [word]
  }

  function Fields(s: string): seq<string> {
    FieldsFrom(s, "")
  }

  lemma {:induction false} FieldsFromSplit(a: string, c: char, b: string, word: string)
    requires IsSpace(c)
    ensures FieldsFrom(a + [c] + b, word) == FieldsFrom(a, word) + Fields(b)
    decreases a
  {
    var s := a + [c] + b;
    if a == "" {
      assert s[1..] == b;
    } else {
      assert s[1..] == a[1..] + [c] + b;
      FieldsFromSplit(a[1..], c, b, if IsSpace(a[0]) then "" else word + [a[0]]);
    }
  }

  /** A blank separates words: the words of the two sides are found independently. */
  lemma FieldsSplit(a: string, b: string)
    ensures Fields(a + " " + b) == Fields(a) + Fields(b)
  {
    FieldsFromSplit(a, ' ', b, "");
  }

  lemma {:induction false} FieldsOfWord(s: string, word: string)
    requires NoSpace(s)
    ensures FieldsFrom(s, word) == Flush(word + s)
    decreases s
  {
    if s == "" {
      assert word + s == word;
    } else {
      FieldsOfWord(s[1..], word + [s[0]]);
      assert word + [s[0]] + s[1..] == word + s;
    }
  }

  lemma FieldsOfOneWord(s: string)
    requires NoSpace(s) && s != ""
    ensures Fields(s) == [s]
  {
    FieldsOfWord(s, "");
    assert "" + s == s;
  }

  /** Every word that Fields yields is non-empty and free of white space. */
  lemma {:induction false} FieldsAreWords(s: string, word: string)
    requires NoSpace(word)
    ensures forall w | w in FieldsFrom(s, word) :: w != "" && NoSpace(w)
    decreases s
  {
    if s != "" {
      FieldsAreWords(s[1..], if IsSpace(s[0]) then "" else word + [s[0]]);
    }
  }

  /** The words of a joined line are the words of its parts, in order. */
  function AllFields(parts: seq<string>): seq<string> {
    if parts == [] then [] else AllFields(parts[..|parts| - 1]) + Fields(parts[|parts| - 1])
  }

  lemma AllFieldsAppend(parts: seq<string>, part: string)
    ensures AllFields(parts + [part]) == AllFields(parts) + Fields(part)
  {
    assert (parts + [part])[..|parts|] == parts;
  }

  /** Words are their own words. */
  lemma {:induction false} FieldsOfWords(words: seq<string>)
    requires forall i | 0 <= i < |words| :: words[i] != "" && NoSpace(words[i])
    ensures AllFields(words) == words
  {
    if words != [] {
      FieldsOfWords(words[..|words| - 1]);
      FieldsOfOneWord(words[|words| - 1]);
    }
  }

  lemma {:induction false} FieldsOfJoin(parts: seq<string>)
    ensures Fields(Join(parts, " ")) == AllFields(parts)
  {
    if |parts| == 1 {
      assert AllFields(parts[..0]) == [];
      assert AllFields(parts) == Fields(parts[0]);
    } else if parts != [] {
      FieldsOfJoin(parts[..|parts| - 1]);
      FieldsSplit(Join(parts[..|parts| - 1], " "), parts[|parts| - 1]);
    }
  }

  /** Only the first part of a joined list stays attached to a text in front of the list. */
  lemma {:induction false} FieldsOfHeadedJoin(head: string, parts: seq<string>)
    requires parts != []
    ensures Fields(head + Join(parts, " ")) == Fields(head + parts[0]) + AllFields(parts[1..])
  {
    var n := |parts| - 1;
    if n == 0 {
      assert AllFields(parts[1..]) == [];
    } else {
      FieldsOfHeadedJoin(head, parts[..n]);
      assert head + Join(parts, " ") == head + Join(parts[..n], " ") + " " + parts[n];
      FieldsSplit(head + Join(parts[..n], " "), parts[n]);
      assert parts[1..][..n - 1] == parts[..n][1..];
    }
  }

  /** The decimal numeral that fmt's %d prints for a natural number. */
  function Numeral(n: nat): (s: string)
    ensures s != "" && forall i | 0 <= i < |s| :: '0' <= s[i] <= '9'
  {
    if n < 10 then [Digit(n)] else Numeral(n / 10) + [Digit(n % 10)]
  }

  function Digit(d: nat): (c: char)
    requires d < 10
    ensures '0' <= c <= '9'
  {
    ('0' as int + d) as char
  }

  function Value(s: string): int {
    if s == "" then 0 else 10 * Value(s[..|s| - 1]) + (s[|s| - 1] as int - '0' as int)
  }

  lemma {:induction false} ValueOfNumeral(n: nat)
    ensures Value(Numeral(n)) == n
  {
    if n >= 10 {
      ValueOfNumeral(n / 10);
      assert Numeral(n)[..|Numeral(n)| - 1] == Numeral(n / 10);
    } else {
      assert Numeral(n)[..0] == "";
    }
  }

  /** Different numbers have different numerals. */
  lemma NumeralInjective(m: nat, n: nat)
    requires Numeral(m) == Numeral(n)
    ensures m == n
  {
    ValueOfNumeral(m);
    ValueOfNumeral(n);
  }

  /** A text is determined by its part up to the first separator and the part behind it. */
  lemma CutAtFirst(a: string, b: string, sep: char, x: string, y: string)
    requires sep !in a && sep !in b
    requires a + [sep] + x == b + [sep] + y
    ensures a == b && x == y
  {
    var s := a + [sep] + x;
    assert s[|a|] == sep && s[|b|] == sep;
    assert forall i | 0 <= i < |a| :: s[i] == a[i];
    assert forall i | 0 <= i < |b| :: s[i] == b[i];
    assert a == s[..|a|] && b == s[..|b|];
    assert x == s[|a| + 1..] && y == s[|b| + 1..];
  }

  lemma CutBehind(head: string, a: string, b: string, sep: char, x: string, y: string)
    requires sep !in a && sep !in b
    requires head + (a + [sep] + x) == head + (b + [sep] + y)
    ensures a == b && x == y
  {
    assert (head + (a + [sep] + x))[|head|..] == a + [sep] + x;
    assert (head + (b + [sep] + y))[|head|..] == b + [sep] + y;
    CutAtFirst(a, b, sep, x, y);
  }
}
