/** The parts of Go's `strings` and `strconv` packages that the schedule parser calls. */
module Strings {
  import opened Wrappers

  /** `unicode.IsSpace`. */
  predicate IsSpace(c: char) {
    || '\U{0009}' <= c <= '\U{000D}' || c == ' ' || c == '\U{0085}' || c == '\U{00A0}' || c == '\U{1680}'
    || '\U{2000}' <= c <= '\U{200A}' || c == '\U{2028}' || c == '\U{2029}' || c == '\U{202F}' || c == '\U{205F}'
    || c == '\U{3000}'
  }

  function TrimLeft(s: string): string {
    if s != "" && IsSpace(s[0]) then TrimLeft(s[1..]) else s
  }

  function TrimRight(s: string): string {
    if s != "" && IsSpace(s[|s| - 1]) then TrimRight(s[..|s| - 1]) else s
  }

  function TrimSpace(s: string): string {
    TrimRight(TrimLeft(s))
  }

  /** The position of the first `c`, or `|s|` when there is none. */
  function IndexOf(s: string, c: char): (i: nat)
    ensures i <= |s|
    ensures c !in s[..i]
    ensures i < |s| ==> s[i] == c
  {
    if s == "" || s[0] == c then 0 else
      assert forall i: nat :: i <= |s[1..]| ==> s[..i + 1] == [s[0]] + s[1..][..i];
      IndexOf(s[1..], c) + 1
  }

  /** `strings.Split` on a one-character separator. */
  function Split(s: string, c: char): (parts: seq<string>)
    ensures |parts| >= 1
    decreases |s|
  {
    var i := IndexOf(s, c);
    if i == |s| then [s] else [s[..i]] + Split(s[i + 1..], c)
  }

  /** `strings.SplitN` with a limit of two pieces. */
  function SplitTwo(s: string, c: char): (parts: seq<string>)
    ensures |parts| == if c in s then 2 else 1
  {
    var i := IndexOf(s, c);
    assert c in s <==> i < |s| by {
      if i == |s| { assert s[..i] == s; }
    }
    if i == |s| then [s] else [s[..i], s[i + 1..]]
  }

  /** The length of the leading run of non-space characters. */
  function WordLength(s: string): (n: nat)
    ensures n <= |s|
    ensures s != "" && !IsSpace(s[0]) ==> n > 0
  {
    if s == "" || IsSpace(s[0]) then 0 else WordLength(s[1..]) + 1
  }

  /** `strings.Fields`. */
  function Fields(s: string): seq<string>
    decreases |s|
  {
    if s == "" then [] else
    if IsSpace(s[0]) then Fields(s[1..])
    else var n := WordLength(s); [s[..n]] + Fields(s[n..])
  }

  predicate HasPrefix(s: string, prefix: string) {
    prefix <= s
  }

  // ---------------------------------------------------------------------------
  // Decimal numbers
  // ---------------------------------------------------------------------------

  const MAX_INT64 := 0x7FFF_FFFF_FFFF_FFFF
  const MIN_INT64 := -0x8000_0000_0000_0000

  predicate IsDigit(c: char) {
    '0' <= c <= '9'
  }

  predicate AllDigits(s: string) {
    forall i :: 0 <= i < |s| ==> IsDigit(s[i])
  }

  function DecimalValue(s: string): nat
    requires AllDigits(s)
  {
    if s == "" then 0
    else DecimalValue(s[..|s| - 1]) * 10 + (s[|s| - 1] as int - '0' as int)
  }

  /** `strconv.Atoi` on a 64-bit platform: an optional sign, then digits, within the range of `int64`. */
  function Atoi(s: string): Option<int> {
    var digits := if s != "" && s[0] in {'+', '-'} then s[1..] else s;
    if digits == "" || !AllDigits(digits) then None else
    var magnitude: int := DecimalValue(digits);
    var n := if s[0] == '-' then -magnitude else magnitude;
    if MIN_INT64 <= n <= MAX_INT64 then Some(n) else None
  }

  /** `strconv.Itoa` of a natural number. */
  function Itoa(n: nat): (s: string)
    ensures s != "" && AllDigits(s)
  {
    var last := [('0' as int + n % 10) as char];
    if n < 10 then last else Itoa(n / 10) + last
  }

  /** A number written in decimal, with or without a sign, is read back exactly when it is in the range of `int64`. */
  lemma AtoiItoa(n: nat)
    ensures Atoi(Itoa(n)) == Atoi("+" + Itoa(n)) == if n <= MAX_INT64 then Some(n) else None
    ensures var m: int := n; Atoi("-" + Itoa(n)) == if MIN_INT64 <= -m then Some(-m) else None
  {
    DecimalOfItoa(n);
    assert IsDigit(Itoa(n)[0]);
    assert ("+" + Itoa(n))[1..] == Itoa(n) && ("-" + Itoa(n))[1..] == Itoa(n);
  }

  lemma {:induction false} DecimalOfItoa(n: nat)
    ensures DecimalValue(Itoa(n)) == n
  {
    if n >= 10 {
      DecimalOfItoa(n / 10);
      var s := Itoa(n);
      assert s[..|s| - 1] == Itoa(n / 10);
    } else {
      assert Itoa(n)[..0] == "";
    }
  }

  /** Leading zeros do not matter. */
  lemma AtoiLeadingZero(s: string)
    requires s != "" && AllDigits(s)
    ensures Atoi("0" + s) == Atoi(s)
  {
    ZeroInFront(s);
    assert IsDigit(s[0]) && ("0" + s)[0] == '0';
  }

  lemma {:induction false} ZeroInFront(s: string)
    requires AllDigits(s)
    ensures DecimalValue("0" + s) == DecimalValue(s)
  {
    var t := "0" + s;
    if s == "" {
      assert t[..0] == "";
    } else {
      assert t[..|t| - 1] == "0" + s[..|s| - 1];
      ZeroInFront(s[..|s| - 1]);
    }
  }

  /** One more digit counts ten times what stands before it. */
  lemma AtoiNextDigit(s: string, c: char)
    requires s != "" && AllDigits(s) && IsDigit(c)
    ensures Atoi([c]) == Some(c as int - '0' as int)
    ensures Atoi(s + [c]).Some? ==>
              Atoi(s).Some? && Atoi(s + [c]).value == Atoi(s).value * 10 + Atoi([c]).value
  {
    var t := s + [c];
    assert t[..|t| - 1] == s && [c][..0] == "";
    assert IsDigit(s[0]) && t[0] == s[0];
    assert DecimalValue([c]) == c as int - '0' as int;
  }

  /** Nothing but an optional sign and at least one digit is a number. */
  lemma AtoiRefuses(s: string)
    ensures Atoi(s).Some? ==> s != "" && s != "+" && s != "-"
    ensures forall i :: Atoi(s).Some? && 0 <= i < |s| ==> IsDigit(s[i]) || (i == 0 && s[i] in {'+', '-'})
  {
    if Atoi(s).Some? && s[0] in {'+', '-'} {
      assert forall i :: 0 < i < |s| ==> s[i] == s[1..][i - 1];
    }
  }

  // ---------------------------------------------------------------------------
  // Text without separators
  // ---------------------------------------------------------------------------

  predicate NoSpaces(s: string) {
    forall i :: 0 <= i < |s| ==> !IsSpace(s[i])
  }

  predicate AllSpaces(s: string) {
    forall i :: 0 <= i < |s| ==> IsSpace(s[i])
  }

  lemma TrimIsIdentity(s: string)
    requires s == "" || (!IsSpace(s[0]) && !IsSpace(s[|s| - 1]))
    ensures TrimSpace(s) == s
  {
  }

  /** Surrounding white space is taken off. */
  lemma TrimOfPadded(left: string, core: string, right: string)
    requires AllSpaces(left) && AllSpaces(right) && core != "" && !IsSpace(core[0]) && !IsSpace(core[|core| - 1])
    ensures TrimSpace(left + core + right) == core
  {
    hide IsSpace;
    TrimLeftOf(left, core + right);
    assert left + (core + right) == left + core + right;
    TrimRightOf(core, right);
  }

  lemma {:induction false} TrimLeftOf(left: string, rest: string)
    requires AllSpaces(left) && rest != "" && !IsSpace(rest[0])
    ensures TrimLeft(left + rest) == rest
  {
    hide IsSpace;
    if left == "" {
      assert left + rest == rest;
    } else {
      assert (left + rest)[1..] == left[1..] + rest;
      TrimLeftOf(left[1..], rest);
    }
  }

  lemma {:induction false} TrimRightOf(core: string, right: string)
    requires AllSpaces(right) && core != "" && !IsSpace(core[|core| - 1])
    ensures TrimRight(core + right) == core
    decreases |right|
  {
    hide IsSpace;
    var s := core + right;
    if right == "" {
      assert s == core;
    } else {
      assert s[..|s| - 1] == core + right[..|right| - 1] && s[|s| - 1] == right[|right| - 1];
      TrimRightOf(core, right[..|right| - 1]);
    }
  }

  /** Among ASCII characters, white space is tab, line feed, vertical tab, form feed, carriage return and space. */
  lemma AsciiSpaces(c: char)
    requires c < '\U{0080}'
    ensures IsSpace(c) <==> c as int in {9, 10, 11, 12, 13, 32}
  {
    assert c as int in {9, 10, 11, 12, 13} <==> 9 <= c as int <= 13;
  }

  lemma {:induction false} IndexPastPrefix(a: string, b: string, c: char)
    requires c !in a
    ensures IndexOf(a + b, c) == |a| + IndexOf(b, c)
  {
    if a == "" {
      assert a + b == b;
    } else {
      assert a[0] in a && forall x :: x in a[1..] ==> x in a;
      assert (a + b)[1..] == a[1..] + b;
      IndexPastPrefix(a[1..], b, c);
    }
  }

  /** Splitting at the first separator. */
  lemma SplitAtSeparator(a: string, b: string, c: char)
    requires c !in a
    ensures Split(a, c) == [a]
    ensures Split(a + [c] + b, c) == [a] + Split(b, c)
    ensures SplitTwo(a + [c] + b, c) == [a, b]
  {
    hide IndexOf;
    FirstSeparator(a, b, c);
    var s := a + [c] + b;
    assert s[..|a|] == a && s[|a| + 1..] == b && |s| > |a|;
  }

  lemma FirstSeparator(a: string, b: string, c: char)
    requires c !in a
    ensures IndexOf(a, c) == |a| && IndexOf(a + [c] + b, c) == |a|
  {
    hide IndexOf;
    IndexAtFront(b, c);
    IndexPastPrefix(a, "", c);
    assert a + "" == a;
    IndexPastPrefix(a, [c] + b, c);
    assert a + [c] + b == a + ([c] + b);
  }

  lemma IndexAtFront(b: string, c: char)
    ensures IndexOf("", c) == 0 && IndexOf([c] + b, c) == 0
  {
  }

  /** The two pieces around the first separator. */
  lemma SplitTwoMeaning(s: string, c: char)
    requires c in s
    ensures var parts := SplitTwo(s, c); s == parts[0] + [c] + parts[1] && c !in parts[0]
  {
    var i := IndexOf(s, c);
    assert forall j :: 0 <= j < i ==> s[j] == s[..i][j] && s[..i][j] in s[..i];
    assert s == s[..i] + [s[i]] + s[i + 1..];
  }

  function Join(parts: seq<string>, c: char): string {
    if parts == [] then "" else
    if |parts| == 1 then parts[0] else parts[0] + [c] + Join(parts[1..], c)
  }

  lemma {:induction false} SplitOfJoin(parts: seq<string>, c: char)
    requires parts != []
    requires forall i :: 0 <= i < |parts| ==> c !in parts[i]
    ensures Split(Join(parts, c), c) == parts
  {
    if |parts| == 1 {
      SplitAtSeparator(parts[0], "", c);
    } else {
      SplitAtSeparator(parts[0], Join(parts[1..], c), c);
      SplitOfJoin(parts[1..], c);
    }
  }

  lemma {:induction false} WordThenSpace(word: string, rest: string)
    requires NoSpaces(word)
    requires rest == "" || IsSpace(rest[0])
    ensures WordLength(word + rest) == |word|
  {
    hide IsSpace;
    if word == "" {
      assert word + rest == rest;
    } else {
      assert (word + rest)[1..] == word[1..] + rest;
      WordThenSpace(word[1..], rest);
    }
  }

  /** The words with a gap before each of them and one at the end. */
  function Weave(gaps: seq<string>, words: seq<string>): string
    requires |gaps| == |words| + 1
  {
    if words == [] then gaps[0] else gaps[0] + words[0] + Weave(gaps[1..], words[1..])
  }

  /** Gaps are white space; only the first and the last may be empty. */
  predicate AreGaps(gaps: seq<string>) {
    && (forall i :: 0 <= i < |gaps| ==> AllSpaces(gaps[i]))
    && (forall i :: 0 < i < |gaps| - 1 ==> gaps[i] != "")
  }

  lemma {:induction false} FieldsSkip(gap: string, s: string)
    requires AllSpaces(gap)
    ensures Fields(gap + s) == Fields(s)
  {
    hide IsSpace;
    if gap == "" {
      assert gap + s == s;
    } else {
      assert (gap + s)[1..] == gap[1..] + s;
      FieldsSkip(gap[1..], s);
    }
  }

  /** Words set apart by any white space, with any around them, are the fields of the line. */
  lemma {:induction false} FieldsOfWeave(gaps: seq<string>, words: seq<string>)
    requires |gaps| == |words| + 1 && AreGaps(gaps)
    requires forall i :: 0 <= i < |words| ==> words[i] != "" && NoSpaces(words[i])
    ensures Fields(Weave(gaps, words)) == words
    decreases |words|
  {
    hide IsSpace;
    if words == [] {
      assert gaps[0] + "" == gaps[0];
      FieldsSkip(gaps[0], "");
    } else {
      var rest := Weave(gaps[1..], words[1..]);
      var s := words[0] + rest;
      assert Weave(gaps, words) == gaps[0] + s;
      FieldsSkip(gaps[0], s);
      WeaveStartsOnGap(gaps[1..], words[1..]);
      WordThenSpace(words[0], rest);
      assert s[0] == words[0][0] && s[..|words[0]|] == words[0] && s[|words[0]|..] == rest;
      GapsTail(gaps);
      FieldsOfWeave(gaps[1..], words[1..]);
    }
  }

  lemma GapsTail(gaps: seq<string>)
    requires gaps != [] && AreGaps(gaps)
    ensures AreGaps(gaps[1..])
  {
    hide AllSpaces;
  }

  lemma {:induction false} WeaveLast(gaps: seq<string>, words: seq<string>)
    requires |gaps| == |words| + 1
    ensures Weave(gaps, words) == Weave(gaps[|words| := ""], words) + gaps[|words|]
    decreases |words|
  {
    if words != [] {
      WeaveLast(gaps[1..], words[1..]);
      assert gaps[|words| := ""][1..] == gaps[1..][|words| - 1 := ""];
    }
  }

  /** Trimming a line of words takes off its first and its last gap. */
  lemma TrimOfWeave(gaps: seq<string>, words: seq<string>)
    requires |gaps| == |words| + 1 && AreGaps(gaps) && words != []
    requires forall i :: 0 <= i < |words| ==> words[i] != "" && NoSpaces(words[i])
    ensures var inner := gaps[|words| := ""][0 := ""];
            && TrimSpace(Weave(gaps, words)) == Weave(inner, words) && AreGaps(inner)
            && Weave(inner, words) != "" && Weave(inner, words)[0] == words[0][0]
  {
    var inner := gaps[|words| := ""][0 := ""];
    var core := Weave(inner, words);
    assert AreGaps(inner) by { hide IsSpace; }
    WeaveBetween(gaps, words);
    WeaveEndsOnWord(inner, words);
    FirstIsNoSpace(words[0]);
    hide Weave, TrimSpace, NoSpaces, IsSpace;
    TrimOfPadded(gaps[0], core, gaps[|words|]);
  }

  lemma FirstIsNoSpace(word: string)
    requires word != "" && NoSpaces(word)
    ensures !IsSpace(word[0])
  {
    hide IsSpace;
  }

  lemma WeaveBetween(gaps: seq<string>, words: seq<string>)
    requires |gaps| == |words| + 1 && words != []
    ensures Weave(gaps, words) == gaps[0] + Weave(gaps[|words| := ""][0 := ""], words) + gaps[|words|]
  {
    var open := gaps[|words| := ""];
    var inner := open[0 := ""];
    WeaveLast(gaps, words);
    assert open[1..] == inner[1..];
    assert Weave(open, words) == gaps[0] + Weave(inner, words);
  }

  lemma {:induction false} WeaveEndsOnWord(gaps: seq<string>, words: seq<string>)
    requires |gaps| == |words| + 1 && words != [] && gaps[|words|] == ""
    requires forall i :: 0 <= i < |words| ==> words[i] != "" && NoSpaces(words[i])
    ensures var s := Weave(gaps, words);
            s != "" && !IsSpace(s[|s| - 1]) && (gaps[0] == "" ==> s[0] == words[0][0])
    decreases |words|
  {
    hide IsSpace;
    if |words| > 1 {
      WeaveEndsOnWord(gaps[1..], words[1..]);
    } else {
      assert words[1..] == [];
    }
  }

  lemma WeaveStartsOnGap(gaps: seq<string>, words: seq<string>)
    requires |gaps| == |words| + 1 && AllSpaces(gaps[0]) && (words == [] || gaps[0] != "")
    ensures var s := Weave(gaps, words); s == "" || IsSpace(s[0])
  {
    hide IsSpace;
  }
}
