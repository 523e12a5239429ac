/**
 * The Python string operations the paper generator is built from, as functions
 * on `string` (= `seq<char>`): `str.strip`, `str.find`, `str.split(sep)`,
 * `str.split()`, `sep.join`, `str.upper`, `str.lower`, `str.isalnum` and
 * `str(int)`. Character classes are those of ASCII; see README.md.
 */
module Text {
  import opened Wrappers

  // ---------------------------------------------------------------------------
  // Character classes
  // ---------------------------------------------------------------------------

  /**
   * The ASCII characters for which Python's `str.isspace` holds: tab, line
   * feed, vertical tab, form feed and carriage return (9-13), the four
   * separators 28-31, and the space (32).
   */
  predicate IsSpace(c: char) {
    '\t' <= c <= '\r' || '\U{1C}' <= c <= ' '
  }

  predicate IsDigit(c: char) {
    '0' <= c <= '9'
  }

  /** `str.isalnum` on one ASCII character. */
  predicate IsAlnum(c: char) {
    IsDigit(c) || 'a' <= c <= 'z' || 'A' <= c <= 'Z'
  }

  predicate AllSpace(s: string) {
    forall i :: 0 <= i < |s| ==> IsSpace(s[i])
  }

  predicate NoSpace(s: string) {
    forall i :: 0 <= i < |s| ==> !IsSpace(s[i])
  }

  function UpperChar(c: char): char {
    if 'a' <= c <= 'z' then (c as int - 32) as char else c
  }

  function LowerChar(c: char): char {
    if 'A' <= c <= 'Z' then (c as int + 32) as char else c
  }

  /** `str.upper()` */
  function Upper(s: string): string {
    if s == [] then [] else [UpperChar(s[0])] + Upper(s[1..])
  }

  /** `str.lower()` */
  function Lower(s: string): string {
    if s == [] then [] else [LowerChar(s[0])] + Lower(s[1..])
  }

  /** Lower-casing works character by character, so it distributes over concatenation. */
  lemma {:induction false} LowerAppend(a: string, b: string)
    ensures Lower(a + b) == Lower(a) + Lower(b)
    decreases |a|
  {
    if a == [] {
      assert a + b == b;
    } else {
      assert (a + b)[1..] == a[1..] + b;
      LowerAppend(a[1..], b);
    }
  }

  /** Lower-casing leaves text without upper-case ASCII letters as it is. */
  lemma {:induction false} LowerNoUpper(s: string)
    requires forall i :: 0 <= i < |s| ==> !('A' <= s[i] <= 'Z')
    ensures Lower(s) == s
    decreases |s|
  {
    if s != [] {
      assert forall i :: 0 <= i < |s[1..]| ==> s[1..][i] == s[i + 1];
      LowerNoUpper(s[1..]);
    }
  }

  // ---------------------------------------------------------------------------
  // str.strip()
  // ---------------------------------------------------------------------------

  /** The number of whitespace characters at the start of `s`, which `str.lstrip()` removes. */
  function LeadingSpace(s: string): (k: nat)
    ensures k <= |s| && (k == |s| || !IsSpace(s[k]))
  {
    if s != [] && IsSpace(s[0]) then 1 + LeadingSpace(s[1..]) else 0
  }

  /** The number of whitespace characters at the end of `s`, which `str.rstrip()` removes. */
  function TrailingSpace(s: string): (k: nat)
    ensures k <= |s| && (k == |s| || !IsSpace(s[|s| - 1 - k]))
  {
    if s != [] && IsSpace(s[|s| - 1]) then 1 + TrailingSpace(s[..|s| - 1]) else 0
  }

  /** `str.lstrip()` */
  function TrimStart(s: string): string {
    s[LeadingSpace(s)..]
  }

  /** `str.rstrip()` */
  function TrimEnd(s: string): string {
    s[..|s| - TrailingSpace(s)]
  }

  /** `str.strip()` */
  function Strip(s: string): string {
    TrimEnd(TrimStart(s))
  }

  lemma AllSpaceCons(c: char, s: string)
    requires IsSpace(c) && AllSpace(s)
    ensures AllSpace([c] + s)
  {
  }

  lemma AllSpaceSnoc(s: string, c: char)
    requires AllSpace(s) && IsSpace(c)
    ensures AllSpace(s + [c])
  {
  }

  /** What `str.lstrip()` removes is whitespace. */
  lemma {:induction false} LeadingSpaceIsSpace(s: string)
    ensures AllSpace(s[..LeadingSpace(s)])
    decreases |s|
  {
    if s != [] && IsSpace(s[0]) {
      var k := LeadingSpace(s[1..]);
      LeadingSpaceIsSpace(s[1..]);
      AllSpaceCons(s[0], s[1..][..k]);
      assert s[..k + 1] == [s[0]] + s[1..][..k];
    }
  }

  /** What `str.rstrip()` removes is whitespace. */
  lemma {:induction false} TrailingSpaceIsSpace(s: string)
    ensures AllSpace(s[|s| - TrailingSpace(s)..])
    decreases |s|
  {
    if s != [] && IsSpace(s[|s| - 1]) {
      TrailingSpaceIsSpace(s[..|s| - 1]);
      SpaceSuffixSnoc(s, TrailingSpace(s[..|s| - 1]));
    }
  }

  lemma SpaceSuffixSnoc(s: string, k: nat)
    requires s != [] && IsSpace(s[|s| - 1]) && k <= |s| - 1
    requires AllSpace(s[..|s| - 1][|s| - 1 - k..])
    ensures AllSpace(s[|s| - (k + 1)..])
  {
    var tail := s[..|s| - 1][|s| - 1 - k..];
    var suffix := s[|s| - (k + 1)..];
    forall i | 0 <= i < k + 1 ensures IsSpace(suffix[i]) {
      if i < k {
        assert suffix[i] == tail[i];
      }
    }
  }

  /** The result of `str.strip()` neither starts nor ends with whitespace. */
  lemma StripEnds(s: string)
    ensures Strip(s) == [] || (!IsSpace(Strip(s)[0]) && !IsSpace(Strip(s)[|Strip(s)| - 1]))
  {
    var t := TrimStart(s);
    var r := Strip(s);
    if r != [] {
      assert r[0] == t[0] == s[LeadingSpace(s)];
      assert r[|r| - 1] == t[|t| - 1 - TrailingSpace(t)];
    }
  }

  /** `str.strip()` leaves text that neither starts nor ends with whitespace as it is. */
  lemma StripOfStripped(s: string)
    requires s == [] || (!IsSpace(s[0]) && !IsSpace(s[|s| - 1]))
    ensures Strip(s) == s
  {
    if s != [] {
      assert LeadingSpace(s) == 0;
      assert TrimStart(s) == s;
      assert TrailingSpace(s) == 0;
    }
  }

  /** Stripping twice is stripping once. */
  lemma StripIdempotent(s: string)
    ensures Strip(Strip(s)) == Strip(s)
  {
    StripEnds(s);
    StripOfStripped(Strip(s));
  }

  /** `str.strip()` returns a slice of its argument. */
  lemma StripIsSlice(s: string)
    ensures LeadingSpace(s) + |Strip(s)| <= |s|
    ensures Strip(s) == s[LeadingSpace(s)..LeadingSpace(s) + |Strip(s)|]
  {
  }

  /** `str.strip()` gives the empty string exactly for all-whitespace text. */
  lemma StripEmpty(s: string)
    ensures Strip(s) == [] <==> AllSpace(s)
  {
    var k := LeadingSpace(s);
    var t := TrimStart(s);
    LeadingSpaceIsSpace(s);
    TrailingSpaceIsSpace(t);
    if Strip(s) == [] {
      assert t[|t| - TrailingSpace(t)..] == t;
      assert s[..k] == s;
    }
  }

  // ---------------------------------------------------------------------------
  // Searching, splitting and joining
  // ---------------------------------------------------------------------------

  predicate OccursAt(s: string, pat: string, k: nat) {
    k + |pat| <= |s| && s[k..k + |pat|] == pat
  }

  /** `s.find(pat, from)`: the first position at or after `from` where `pat` occurs. */
  function Find(s: string, pat: string, from: nat): (r: Option<nat>)
    ensures r.Some? ==> from <= r.value && OccursAt(s, pat, r.value)
    ensures r.Some? ==> forall k :: from <= k < r.value ==> !OccursAt(s, pat, k)
    ensures r.None? ==> forall k :: from <= k ==> !OccursAt(s, pat, k)
    decreases |s| - from
  {
    if from + |pat| > |s| then None
    else if s[from..from + |pat|] == pat then Some(from)
    else Find(s, pat, from + 1)
  }

  /** `str.find` when some occurrence at `m` is preceded by none at or after `from`. */
  lemma FindFirst(s: string, pat: string, from: nat, m: nat)
    requires from <= m && OccursAt(s, pat, m)
    requires forall k :: from <= k < m ==> !OccursAt(s, pat, k)
    ensures Find(s, pat, from) == Some(m)
  {
  }

  /** `s.split(sep)` for a non-empty separator. */
  function SplitOn(s: string, sep: string): (r: seq<string>)
    requires sep != []
    ensures |r| >= 1
    decreases |s|
  {
    match Find(s, sep, 0)
    case None => [s]
    case Some(i) => [s[..i]] + SplitOn(s[i + |sep|..], sep)
  }

  /** `sep.join(parts)` */
  function Join(sep: string, parts: seq<string>): string {
    if parts == [] then []
    else if |parts| == 1 then parts[0]
    else parts[0] + sep + Join(sep, parts[1..])
  }

  /** Joining the pieces of a split with the same separator gives back the string. */
  lemma {:induction false} JoinSplitOn(s: string, sep: string)
    requires sep != []
    ensures Join(sep, SplitOn(s, sep)) == s
    decreases |s|
  {
    match Find(s, sep, 0)
    case None =>
    case Some(i) =>
      var rest := s[i + |sep|..];
      var parts := SplitOn(rest, sep);
      assert SplitOn(s, sep) == [s[..i]] + parts;
      assert ([s[..i]] + parts)[1..] == parts;
      JoinSplitOn(rest, sep);
      assert s == s[..i] + sep + rest;
  }

  /** A pattern cannot occur where its first character does not. */
  lemma NoOccurrenceBefore(s: string, pat: string, m: nat)
    requires pat != [] && m <= |s|
    requires forall k :: 0 <= k < m ==> s[k] != pat[0]
    ensures forall k :: 0 <= k < m ==> !OccursAt(s, pat, k)
  {
    forall k | 0 <= k < m ensures !OccursAt(s, pat, k) {
      if k + |pat| <= |s| {
        assert s[k..k + |pat|][0] == s[k];
      }
    }
  }

  /** A string without the separator's first character splits into itself. */
  lemma SplitOnSingle(p: string, sep: string)
    requires sep != [] && sep[0] !in p
    ensures SplitOn(p, sep) == [p]
  {
    NoOccurrenceBefore(p, sep, |p|);
    assert Find(p, sep, 0) == None;
  }

  /** A part without the separator's first character, then the separator, splits off first. */
  lemma SplitOnCons(p: string, sep: string, rest: string)
    requires sep != [] && sep[0] !in p
    ensures SplitOn(p + sep + rest, sep) == [p] + SplitOn(rest, sep)
  {
    var s := p + sep + rest;
    NoOccurrenceBefore(s, sep, |p|);
    assert s[|p|..|p| + |sep|] == sep;
    FindFirst(s, sep, 0, |p|);
    assert s[..|p|] == p;
    assert s[|p| + |sep|..] == rest;
  }

  /**
   * Splitting a join gives back the parts, when no part contains the
   * separator's first character (so that no occurrence straddles a part).
   */
  lemma {:induction false} SplitOnJoin(parts: seq<string>, sep: string)
    requires sep != [] && |parts| >= 1
    requires forall i :: 0 <= i < |parts| ==> sep[0] !in parts[i]
    ensures SplitOn(Join(sep, parts), sep) == parts
    decreases |parts|
  {
    var p := parts[0];
    if |parts| == 1 {
      SplitOnSingle(p, sep);
    } else {
      var tail := parts[1..];
      SplitOnCons(p, sep, Join(sep, tail));
      SplitOnJoin(tail, sep);
      assert parts == [p] + tail;
    }
  }

  // ---------------------------------------------------------------------------
  // str.split() and whitespace collapsing
  // ---------------------------------------------------------------------------

  /** The longest prefix of `s` without whitespace. */
  function WordPrefix(s: string): (r: string)
    ensures |r| <= |s| && r == s[..|r|] && NoSpace(r)
    ensures |r| == |s| || IsSpace(s[|r|])
  {
    if s == [] || IsSpace(s[0]) then [] else [s[0]] + WordPrefix(s[1..])
  }

  /** Every element is a non-empty run of non-whitespace characters. */
  predicate IsWordList(ws: seq<string>) {
    forall i :: 0 <= i < |ws| ==> ws[i] != [] && NoSpace(ws[i])
  }

  /** `s.split()`: the maximal runs of non-whitespace characters, in order. */
  function Words(s: string): seq<string>
    decreases |s|
  {
    var t := TrimStart(s);
    if t == [] then []
    else
      var w := WordPrefix(t);
      [w] + Words(t[|w|..])
  }

  /** `s.split()` yields non-empty words without whitespace. */
  lemma {:induction false} WordsAreWords(s: string)
    ensures IsWordList(Words(s))
    decreases |s|
  {
    var t := TrimStart(s);
    if t != [] {
      var w := WordPrefix(t);
      var rest := t[|w|..];
      assert w != [];
      WordsAreWords(rest);
      var ws := Words(rest);
      var all := [w] + ws;
      assert Words(s) == all;
      forall i | 0 <= i < |all| ensures all[i] != [] && NoSpace(all[i]) {
        if i > 0 {
          assert all[i] == ws[i - 1];
        }
      }
    } else {
      assert Words(s) == [];
    }
  }

  /** `' '.join(s.split())`: whitespace runs become single spaces, ends are trimmed. */
  function Collapse(s: string): string {
    Join(" ", Words(s))
  }

  /**
   * A collapsed string: its only whitespace is single spaces strictly
   * between two non-whitespace characters.
   */
  predicate Collapsed(s: string) {
    forall i :: 0 <= i < |s| && IsSpace(s[i]) ==> s[i] == ' ' && 0 < i < |s| - 1 && !IsSpace(s[i - 1]) && !IsSpace(s[i + 1])
  }

  /** The non-whitespace characters of `s`, in order. */
  function NonSpace(s: string): string {
    if s == [] then [] else (if IsSpace(s[0]) then [] else [s[0]]) + NonSpace(s[1..])
  }

  lemma {:induction false} NonSpaceIsNoSpace(s: string)
    ensures NoSpace(NonSpace(s))
    decreases |s|
  {
    if s != [] {
      NonSpaceIsNoSpace(s[1..]);
    }
  }

  lemma {:induction false} NonSpaceAppend(a: string, b: string)
    ensures NonSpace(a + b) == NonSpace(a) + NonSpace(b)
    decreases |a|
  {
    if a == [] {
      assert a + b == b;
    } else {
      NonSpaceAppend(a[1..], b);
      assert (a + b)[0] == a[0];
      assert (a + b)[1..] == a[1..] + b;
      NonSpaceStep(a + b, a[1..] + b);
      NonSpaceStep(a, a[1..]);
    }
  }

  lemma NonSpaceStep(s: string, rest: string)
    requires s != [] && rest == s[1..]
    ensures NonSpace(s) == (if IsSpace(s[0]) then [] else [s[0]]) + NonSpace(rest)
  {
  }

  lemma {:induction false} NonSpaceOfAllSpace(s: string)
    requires AllSpace(s)
    ensures NonSpace(s) == []
    decreases |s|
  {
    if s != [] {
      NonSpaceOfAllSpace(s[1..]);
    }
  }

  lemma {:induction false} NonSpaceOfNoSpace(s: string)
    requires NoSpace(s)
    ensures NonSpace(s) == s
    decreases |s|
  {
    if s != [] {
      NonSpaceOfNoSpace(s[1..]);
    }
  }

  /** Stripping removes whitespace only. */
  lemma StripKeepsText(s: string)
    ensures NonSpace(Strip(s)) == NonSpace(s)
  {
    TrimStartKeepsText(s);
    TrimEndKeepsText(TrimStart(s));
  }

  /** The concatenation of a list of strings. */
  function Concat(parts: seq<string>): string {
    if parts == [] then [] else parts[0] + Concat(parts[1..])
  }

  /** `s.split()` drops exactly the whitespace of `s`. */
  lemma {:induction false} WordsKeepText(s: string)
    ensures Concat(Words(s)) == NonSpace(s)
    decreases |s|
  {
    var t := TrimStart(s);
    TrimStartKeepsText(s);
    if t != [] {
      var w := WordPrefix(t);
      var rest := t[|w|..];
      WordSplitKeepsText(t, w, rest);
      WordsKeepText(rest);
      ConcatCons(w, Words(rest));
    }
  }

  lemma TrimStartKeepsText(s: string)
    ensures NonSpace(TrimStart(s)) == NonSpace(s)
  {
    var k := LeadingSpace(s);
    LeadingSpaceIsSpace(s);
    assert s == s[..k] + s[k..];
    NonSpaceAppend(s[..k], s[k..]);
    NonSpaceOfAllSpace(s[..k]);
  }

  lemma TrimEndKeepsText(s: string)
    ensures NonSpace(TrimEnd(s)) == NonSpace(s)
  {
    var k := |s| - TrailingSpace(s);
    TrailingSpaceIsSpace(s);
    assert s == s[..k] + s[k..];
    NonSpaceAppend(s[..k], s[k..]);
    NonSpaceOfAllSpace(s[k..]);
  }

  lemma WordSplitKeepsText(t: string, w: string, rest: string)
    requires |w| <= |t| && w == t[..|w|] && NoSpace(w) && rest == t[|w|..]
    ensures NonSpace(t) == w + NonSpace(rest)
  {
    assert t == w + rest;
    NonSpaceAppend(w, rest);
    NonSpaceOfNoSpace(w);
  }

  lemma ConcatCons(part: string, parts: seq<string>)
    ensures Concat([part] + parts) == part + Concat(parts)
  {
    assert ([part] + parts)[1..] == parts;
  }

  /** Joining with a whitespace separator keeps the non-whitespace text of the parts. */
  lemma {:induction false} JoinKeepsText(sep: string, parts: seq<string>)
    requires AllSpace(sep)
    ensures NonSpace(Join(sep, parts)) == NonSpace(Concat(parts))
    decreases |parts|
  {
    if |parts| == 1 {
      var p := parts[0];
      assert Concat(parts[1..]) == [];
      assert Concat(parts) == p + [] == p;
      assert Join(sep, parts) == p;
    } else if |parts| > 1 {
      var p, tail := parts[0], parts[1..];
      var j := Join(sep, tail);
      assert Join(sep, parts) == (p + sep) + j;
      assert Concat(parts) == p + Concat(tail);
      JoinKeepsText(sep, tail);
      NonSpaceAppend(p + sep, j);
      NonSpaceAppend(p, sep);
      NonSpaceOfAllSpace(sep);
      NonSpaceAppend(p, Concat(tail));
    }
  }

  lemma SpaceIsSpace()
    ensures AllSpace(" ")
  {
  }

  /** Collapsing whitespace loses no visible character and adds none. */
  lemma CollapseKeepsText(s: string)
    ensures NonSpace(Collapse(s)) == NonSpace(s)
  {
    SpaceIsSpace();
    JoinKeepsText(" ", Words(s));
    WordsKeepText(s);
    NonSpaceIsNoSpace(s);
    NonSpaceOfNoSpace(NonSpace(s));
  }

  lemma {:induction false} JoinWordsCollapsed(words: seq<string>)
    requires IsWordList(words)
    ensures Collapsed(Join(" ", words))
    ensures words != [] ==> Join(" ", words) != [] && !IsSpace(Join(" ", words)[0])
    decreases |words|
  {
    if words == [] {
    } else if |words| == 1 {
    } else {
      var w := words[0];
      var rest := Join(" ", words[1..]);
      JoinWordsCollapsed(words[1..]);
      var s := w + " " + rest;
      assert Join(" ", words) == s;
      forall i | 0 <= i < |s| && IsSpace(s[i])
        ensures s[i] == ' ' && 0 < i < |s| - 1 && !IsSpace(s[i - 1]) && !IsSpace(s[i + 1])
      {
        if i < |w| {
          assert false;
        } else if i > |w| {
          var j := i - |w| - 1;
          assert s[i] == rest[j];
          assert j != 0;
          assert s[i - 1] == rest[j - 1];
          assert s[i + 1] == rest[j + 1];
        } else {
          assert s[i - 1] == w[|w| - 1];
          assert s[i + 1] == rest[0];
        }
      }
      assert s[0] == w[0];
    }
  }

  /** `' '.join(s.split())` has no leading, trailing, repeated or non-space whitespace. */
  lemma CollapseWellFormed(s: string)
    ensures Collapsed(Collapse(s))
  {
    WordsAreWords(s);
    JoinWordsCollapsed(Words(s));
  }

  lemma {:induction false} WordPrefixOfNoSpace(w: string, tail: string)
    requires NoSpace(w)
    requires tail == [] || IsSpace(tail[0])
    ensures WordPrefix(w + tail) == w
    decreases |w|
  {
    if w != [] {
      assert (w + tail)[1..] == w[1..] + tail;
      WordPrefixOfNoSpace(w[1..], tail);
    }
  }

  /** `s.split()` of a word followed by whitespace or nothing starts with that word. */
  lemma WordsCons(w: string, tail: string)
    requires w != [] && NoSpace(w)
    requires tail == [] || IsSpace(tail[0])
    ensures Words(w + tail) == [w] + Words(tail)
  {
    var s := w + tail;
    assert !IsSpace(s[0]);
    assert TrimStart(s) == s;
    WordPrefixOfNoSpace(w, tail);
    assert s[|w|..] == tail;
  }

  /** Leading whitespace does not change `s.split()`. */
  lemma WordsSkipSpace(c: char, s: string)
    requires IsSpace(c)
    ensures Words([c] + s) == Words(s)
  {
    assert ([c] + s)[1..] == s;
    assert TrimStart([c] + s) == TrimStart(s);
  }

  /** One more word in front of a join splits off as the first word. */
  lemma WordsOfJoinCons(w: string, tail: seq<string>)
    requires w != [] && NoSpace(w) && tail != []
    ensures Words(Join(" ", [w] + tail)) == [w] + Words(Join(" ", tail))
  {
    var rest := Join(" ", tail);
    var spaced := [' '] + rest;
    assert ([w] + tail)[1..] == tail;
    assert Join(" ", [w] + tail) == w + spaced;
    WordsCons(w, spaced);
    WordsSkipSpace(' ', rest);
  }

  /** Splitting a single-space join of words gives back the words. */
  lemma {:induction false} WordsOfJoin(words: seq<string>)
    requires IsWordList(words)
    ensures Words(Join(" ", words)) == words
    decreases |words|
  {
    if words == [] {
      assert Words([]) == [];
    } else if |words| == 1 {
      var w := words[0];
      WordsCons(w, []);
      assert Words([]) == [];
      assert w + [] == w;
    } else {
      var w, tail := words[0], words[1..];
      assert words == [w] + tail;
      assert IsWordList(tail) by {
        forall i | 0 <= i < |tail| ensures tail[i] != [] && NoSpace(tail[i]) {
          assert tail[i] == words[i + 1];
        }
      }
      WordsOfJoin(tail);
      WordsOfJoinCons(w, tail);
    }
  }

  /** Collapsing whitespace twice is the same as collapsing it once. */
  lemma CollapseIdempotent(s: string)
    ensures Collapse(Collapse(s)) == Collapse(s)
  {
    WordsAreWords(s);
    WordsOfJoin(Words(s));
  }

  // ---------------------------------------------------------------------------
  // str(int) and its inverse
  // ---------------------------------------------------------------------------

  function DigitChar(d: nat): char
    requires d < 10
  {
    "0123456789"[d]
  }

  function DigitValue(c: char): nat
    requires IsDigit(c)
  {
    c as int - '0' as int
  }

  predicate AllDigits(s: string) {
    forall i :: 0 <= i < |s| ==> IsDigit(s[i])
  }

  /** `str(n)` for a non-negative integer: its shortest decimal numeral. */
  function NatToString(n: nat): (r: string)
    ensures r != [] && AllDigits(r)
    ensures |r| > 1 ==> r[0] != '0'
  {
    if n < 10 then [DigitChar(n)] else NatToString(n / 10) + [DigitChar(n % 10)]
  }

  /** `str(i)` for any integer: a minus sign before the numeral of a negative one. */
  function IntToString(i: int): (r: string)
    ensures r != []
  {
    if i < 0 then "-" + NatToString(-i) else NatToString(i)
  }

  /** The value of a decimal numeral, read most significant digit first (`int(s)`). */
  function DigitsValue(s: string): nat
    requires AllDigits(s)
  {
    if s == [] then 0 else DigitsValue(s[..|s| - 1]) * 10 + DigitValue(s[|s| - 1])
  }

  function IntValue(s: string): int
    requires s != []
    requires if s[0] == '-' then AllDigits(s[1..]) else AllDigits(s)
  {
    if s[0] == '-' then -(DigitsValue(s[1..]) as int) else DigitsValue(s)
  }

  /** Reading back the numeral `str(n)` gives `n`. */
  lemma {:induction false} NatToStringRoundTrip(n: nat)
    ensures DigitsValue(NatToString(n)) == n
  {
    if n >= 10 {
      NatToStringRoundTrip(n / 10);
      var s := NatToString(n);
      assert s[..|s| - 1] == NatToString(n / 10);
    }
  }

  /** Reading back `str(i)` gives `i`, so distinct integers print differently. */
  lemma IntToStringRoundTrip(i: int)
    ensures var s := IntToString(i); s[0] == '-' <==> i < 0
    ensures IntValue(IntToString(i)) == i
  {
    if i < 0 {
      NatToStringRoundTrip(-i);
      SignedNumeral(NatToString(-i));
    } else {
      NatToStringRoundTrip(i);
    }
  }

  lemma SignedNumeral(d: string)
    ensures ("-" + d)[0] == '-' && ("-" + d)[1..] == d
  {
  }
}
