/**
 * The handful of Python string operations the core relies on: `str.isspace`,
 * `str.strip`, `len(str.split())`, `sep.join(parts)`, substring tests, ASCII
 * `lower()`, `split(sep)`, `repr()` and decimal rendering of integers (`f"{n}"`,
 * `f"{n:02d}"`).
 */
module Text {
  import opened Wrappers

  /** The characters Python's `str.isspace()` accepts: those `str.strip()`
      removes and `str.split()` splits on. */
  const Whitespace: string :=
    " \t\n\U{b}\U{c}\r\U{1c}\U{1d}\U{1e}\U{1f}\U{85}\U{a0}\U{1680}"
    + "\U{2000}\U{2001}\U{2002}\U{2003}\U{2004}\U{2005}\U{2006}\U{2007}\U{2008}\U{2009}\U{200a}"
    + "\U{2028}\U{2029}\U{202f}\U{205f}\U{3000}"

  /** `c` occurs in `s`. */
  predicate Occurs(c: char, s: string) {
    s != [] && (c == s[0] || Occurs(c, s[1..]))
  }

  lemma {:induction false} OccursIn(c: char, s: string)
    ensures Occurs(c, s) <==> c in s
  {
    if s != [] {
      OccursIn(c, s[1..]);
      assert s == [s[0]] + s[1..];
    }
  }

  /** `c.isspace()` for a single character. */
  predicate IsSpace(c: char) {
    Occurs(c, Whitespace)
  }

  /** Every character of `s` is whitespace (`not s.strip()`). */
  predicate IsBlank(s: string) {
    forall i :: 0 <= i < |s| ==> IsSpace(s[i])
  }

  /** `s.lstrip()`: drops leading whitespace. */
  function TrimLeft(s: string): (r: string)
  {
    if s != [] && IsSpace(s[0]) then TrimLeft(s[1..]) else s
  }

  /** `s.rstrip()`: drops trailing whitespace. */
  function TrimRight(s: string): (r: string)
  {
    if s != [] && IsSpace(s[|s| - 1]) then TrimRight(s[..|s| - 1]) else s
  }

  /** `s.strip()`: drops whitespace at both ends, so that what is left
      neither starts nor ends with whitespace. */
  function Strip(s: string): (r: string)
  {
    TrimLeft(TrimRight(s))
  }

  /** `lstrip` keeps a suffix that is empty or starts with a non-space. */
  lemma {:induction false} TrimLeftSpec(s: string)
    ensures var r := TrimLeft(s);
            && |r| <= |s| && r == s[|s| - |r|..]
            && (r == [] || !IsSpace(r[0]))
  {
    if s != [] && IsSpace(s[0]) {
      TrimLeftSpec(s[1..]);
    }
  }

  /** `rstrip` keeps a prefix that is empty or ends with a non-space. */
  lemma {:induction false} TrimRightSpec(s: string)
    ensures var r := TrimRight(s);
            && |r| <= |s| && r == s[..|r|]
            && (r == [] || !IsSpace(r[|r| - 1]))
            && IsBlank(s[|r|..])
  {
    if s != [] && IsSpace(s[|s| - 1]) {
      var init := s[..|s| - 1];
      TrimRightSpec(init);
      var r := TrimRight(init);
      assert s[|r|..] == init[|r|..] + [s[|s| - 1]];
    }
  }

  /** What `strip` leaves is a piece of the string that neither starts nor
      ends with whitespace. */
  lemma StripEnds(s: string)
    ensures var r := Strip(s);
            && |r| <= |s|
            && (r == [] || (!IsSpace(r[0]) && !IsSpace(r[|r| - 1])))
  {
    var m := TrimRight(s);
    TrimRightSpec(s);
    TrimLeftSpec(m);
    var r := TrimLeft(m);
    if r != [] {
      assert r[|r| - 1] == m[|m| - 1];
    }
  }

  lemma {:induction false} TrimLeftBlank(s: string)
    ensures TrimLeft(s) == [] <==> IsBlank(s)
  {
    if s != [] && IsSpace(s[0]) {
      TrimLeftBlank(s[1..]);
      assert IsBlank(s) <==> IsBlank(s[1..]);
    }
  }

  lemma {:induction false} TrimRightBlank(s: string)
    ensures TrimRight(s) == [] <==> IsBlank(s)
  {
    if s != [] && IsSpace(s[|s| - 1]) {
      TrimRightBlank(s[..|s| - 1]);
      assert IsBlank(s) <==> IsBlank(s[..|s| - 1]);
    }
  }

  /** Stripping leaves nothing exactly when the string is blank. */
  lemma StripEmpty(s: string)
    ensures Strip(s) == [] <==> IsBlank(s)
  {
    TrimRightBlank(s);
    TrimRightSpec(s);
    TrimLeftBlank(TrimRight(s));
    if TrimRight(s) == [] {
      assert TrimLeft(TrimRight(s)) == [];
    }
  }

  /** A string with no whitespace at either end is its own strip. */
  lemma StripUnchanged(s: string)
    requires s == [] || (!IsSpace(s[0]) && !IsSpace(s[|s| - 1]))
    ensures Strip(s) == s
  {
    assert TrimRight(s) == s;
  }

  /** Stripping twice is stripping once. */
  lemma StripIdempotent(s: string)
    ensures Strip(Strip(s)) == Strip(s)
  {
    StripEnds(s);
    StripUnchanged(Strip(s));
  }

  /** Stripping a string that starts with a non-space keeps every prefix of
      it that ends with a non-space. */
  lemma StripKeepsPrefix(x: string, p: string)
    requires x != [] && !IsSpace(x[0])
    requires p != [] && p <= x && !IsSpace(p[|p| - 1])
    ensures p <= Strip(x)
  {
    TrimRightSpec(x);
    var r := TrimRight(x);
    if |r| < |p| {
      assert false;
    }
    assert r != [] && r[0] == x[0];
    assert TrimLeft(r) == r;
  }

  /** Number of maximal runs of non-whitespace characters in `s`; a run that
      begins at position 0 is counted only when `atStart` holds (the character
      before `s` was whitespace, or there was none). */
  function Runs(s: string, atStart: bool): nat
  {
    if s == [] then 0
    else if IsSpace(s[0]) then Runs(s[1..], true)
    else (if atStart then 1 else 0) + Runs(s[1..], false)
  }

  /** `_word_count(text)`: `len(text.split()) if text else 0`, the number of
      whitespace-separated tokens of `text`. */
  function WordCount(text: string): nat {
    if text == [] then 0 else Runs(text, true)
  }

  /** A run needs a separator before the next one: at most one run per two
      characters, plus one when a run may start right away. */
  lemma {:induction false} RunsBound(s: string, atStart: bool)
    ensures 2 * Runs(s, atStart) <= |s| + (if atStart then 1 else 0)
    decreases |s|
  {
    if s != [] {
      RunsBound(s[1..], IsSpace(s[0]));
    }
  }

  /** Words need a separator between them, so there are at most half as
      many as characters, rounded up. */
  lemma WordCountBound(text: string)
    ensures 2 * WordCount(text) <= |text| + 1
  {
    RunsBound(text, true);
  }

  /** Counting runs over a concatenation: the right part continues from the
      last character of the left part. */
  lemma {:induction false} RunsAppend(a: string, b: string, atStart: bool)
    ensures Runs(a + b, atStart)
         == Runs(a, atStart) + Runs(b, if a == [] then atStart else IsSpace(a[|a| - 1]))
  {
    if a != [] {
      var ab := a + b;
      assert ab[0] == a[0] && ab[1..] == a[1..] + b;
      var next := IsSpace(a[0]);
      RunsAppend(a[1..], b, next);
      var flag := if a[1..] == [] then next else IsSpace(a[1..][|a[1..]| - 1]);
      assert flag == IsSpace(a[|a| - 1]);
    } else {
      assert a + b == b;
    }
  }

  /** A string has no words exactly when it is blank. */
  lemma {:induction false} WordCountZero(s: string)
    ensures WordCount(s) == 0 <==> IsBlank(s)
  {
    if s != [] {
      WordCountZero(s[1..]);
      if IsSpace(s[0]) {
        assert IsBlank(s) <==> IsBlank(s[1..]);
      }
    }
  }

  /** A single space separates words: counts of the two sides add up. */
  lemma WordCountSpaceJoin(a: string, b: string)
    ensures WordCount(a + " " + b) == WordCount(a) + WordCount(b)
  {
    RunsAppend(a + " ", b, true);
    RunsAppend(a, " ", true);
    assert (a + " ")[|a + " "| - 1] == ' ';
  }

  /** `sep.join(parts)`. */
  function Join(sep: string, parts: seq<string>): string
  {
    if |parts| == 0 then ""
    else if |parts| == 1 then parts[0]
    else Join(sep, parts[..|parts| - 1]) + sep + parts[|parts| - 1]
  }

  /** Adding a part at the end of a non-empty join. */
  lemma JoinSnoc(sep: string, parts: seq<string>, part: string)
    requires parts != []
    ensures Join(sep, parts + [part]) == Join(sep, parts) + sep + part
  {
    assert (parts + [part])[..|parts|] == parts;
  }

  /** A join starts with its first part. */
  lemma {:induction false} JoinFirst(sep: string, parts: seq<string>)
    requires parts != []
    ensures parts[0] <= Join(sep, parts)
  {
    if |parts| > 1 {
      JoinFirst(sep, parts[..|parts| - 1]);
    }
  }

  /** Sum of the word counts of `parts`. */
  function SumWords(parts: seq<string>): nat
  {
    if parts == [] then 0 else SumWords(parts[..|parts| - 1]) + WordCount(parts[|parts| - 1])
  }

  lemma SumWordsSnoc(parts: seq<string>, part: string)
    ensures SumWords(parts + [part]) == SumWords(parts) + WordCount(part)
  {
    assert (parts + [part])[..|parts|] == parts;
  }

  /** Joining with single spaces neither merges nor splits words. */
  lemma {:induction false} WordCountJoin(parts: seq<string>)
    ensures WordCount(Join(" ", parts)) == SumWords(parts)
  {
    if |parts| > 1 {
      var init := parts[..|parts| - 1];
      WordCountJoin(init);
      WordCountSpaceJoin(Join(" ", init), parts[|parts| - 1]);
      assert SumWords(init) == SumWords(parts[..|parts| - 1]);
    } else if |parts| == 1 {
      assert parts[..0] == [];
    }
  }

  /** Each part is non-empty and already stripped. */
  predicate AllStripped(parts: seq<string>) {
    forall i :: 0 <= i < |parts| ==> parts[i] != [] && !IsSpace(parts[i][0]) && !IsSpace(parts[i][|parts[i]| - 1])
  }

  lemma {:induction false} JoinStrippedEnds(sep: string, parts: seq<string>)
    requires parts != [] && AllStripped(parts)
    ensures var j := Join(sep, parts);
      j != [] && j[0] == parts[0][0] && j[|j| - 1] == parts[|parts| - 1][|parts[|parts| - 1]| - 1]
  {
    if |parts| > 1 {
      JoinStrippedEnds(sep, parts[..|parts| - 1]);
    }
  }

  /** `" ".join(parts).strip()` is the join itself when every part is a
      non-empty stripped string. */
  lemma JoinStrippedUnchanged(sep: string, parts: seq<string>)
    requires AllStripped(parts)
    ensures Strip(Join(sep, parts)) == Join(sep, parts)
  {
    if parts != [] {
      JoinStrippedEnds(sep, parts);
    }
    StripUnchanged(Join(sep, parts));
  }

  lemma ConcatEmpty(a: string)
    ensures a + "" == a
  {
  }

  lemma ConcatAssoc(a: string, b: string, c: string)
    ensures (a + b) + c == a + (b + c)
  {
  }

  /** `s.endswith(suffix)`. */
  predicate EndsWith(s: string, suffix: string) {
    |suffix| <= |s| && s[|s| - |suffix|..] == suffix
  }

  lemma EndsWithConcat(prefix: string, suffix: string)
    ensures EndsWith(prefix + suffix, suffix)
  {
    assert (prefix + suffix)[|prefix|..] == suffix;
  }

  /** `sub in s` for strings. */
  predicate Contains(s: string, sub: string)
    decreases |s|
  {
    sub <= s || (s != [] && Contains(s[1..], sub))
  }

  /** First index of `c` in `s`, or `|s|` when absent (`s.find(c)` with -1
      mapped to `|s|`). */
  function IndexOf(s: string, c: char): (r: nat)
    ensures r <= |s|
    ensures r < |s| ==> s[r] == c
    ensures forall j :: 0 <= j < r ==> s[j] != c
  {
    if s == [] then 0 else if s[0] == c then 0 else 1 + IndexOf(s[1..], c)
  }

  /** Finding `c` past a prefix that does not hold it. */
  lemma {:induction false} IndexOfConcat(x: string, y: string, c: char)
    requires c !in x
    ensures IndexOf(x + y, c) == |x| + IndexOf(y, c)
  {
    if x == [] {
      assert x + y == y;
    } else {
      assert (x + y)[0] == x[0] && x[0] != c;
      assert (x + y)[1..] == x[1..] + y;
      IndexOfConcat(x[1..], y, c);
      assert IndexOf(x + y, c) == 1 + IndexOf((x + y)[1..], c);
    }
  }

  /** First index of any character of `cs` in `s`, or `|s|` when there is none. */
  function IndexOfAny(s: string, cs: string): (r: nat)
    ensures r <= |s|
    ensures r < |s| ==> s[r] in cs
    ensures forall j :: 0 <= j < r ==> s[j] !in cs
  {
    if s == [] then 0 else if s[0] in cs then 0 else 1 + IndexOfAny(s[1..], cs)
  }

  lemma {:induction false} IndexOfAnyConcat(x: string, y: string, cs: string)
    requires forall i :: 0 <= i < |x| ==> x[i] !in cs
    ensures IndexOfAny(x + y, cs) == |x| + IndexOfAny(y, cs)
  {
    if x == [] {
      assert x + y == y;
    } else {
      assert (x + y)[0] == x[0] && x[0] !in cs;
      assert forall i :: 0 <= i < |x[1..]| ==> x[1..][i] == x[i + 1];
      assert (x + y)[1..] == x[1..] + y;
      IndexOfAnyConcat(x[1..], y, cs);
      assert IndexOfAny(x + y, cs) == 1 + IndexOfAny((x + y)[1..], cs);
    }
  }

  /** `s.lower()` restricted to ASCII letters. */
  function ToLower(s: string): (r: string)
    ensures |r| == |s|
    ensures forall i :: 0 <= i < |s| ==> (if 'A' <= s[i] <= 'Z' then r[i] as int == s[i] as int + 32 else r[i] == s[i])
  {
    if s == [] then []
    else [if 'A' <= s[0] <= 'Z' then (s[0] as int + 32) as char else s[0]] + ToLower(s[1..])
  }

  /** Lower-casing leaves a string without capitals as it is. */
  lemma ToLowerUnchanged(s: string)
    requires forall i :: 0 <= i < |s| ==> !('A' <= s[i] <= 'Z')
    ensures ToLower(s) == s
  {
  }

  /** `sub` occurs in `s` at offset `i`. */
  predicate OccursAt(s: string, sub: string, i: int) {
    0 <= i <= |s| - |sub| && s[i..i + |sub|] == sub
  }

  lemma PrefixAgrees(s: string, sub: string, k: nat)
    requires sub <= s && k < |sub|
    ensures s[0] == sub[0] && s[k] == sub[k]
  {
  }

  /** `sub` is not in `s` when, at every offset where it could start, `s`
      differs from it at position 0 or at position `k`. */
  lemma {:induction false} NoOccurrence(s: string, sub: string, k: nat)
    requires k < |sub|
    requires forall i :: 0 <= i <= |s| - |sub| ==> s[i] != sub[0] || s[i + k] != sub[k]
    ensures !Contains(s, sub)
    decreases |s|
  {
    if sub <= s {
      PrefixAgrees(s, sub, k);
      assert false;
    }
    if s != [] {
      NoOccurrence(s[1..], sub, k);
    }
  }

  /** `sub` is not in `s` when one of its characters is nowhere in `s`. */
  lemma NoOccurrenceChar(s: string, sub: string, k: nat)
    requires k < |sub|
    requires forall i :: 0 <= i < |s| ==> s[i] != sub[k]
    ensures !Contains(s, sub)
  {
    NoOccurrence(s, sub, k);
  }

  /** `sub in s` holds exactly when `sub` occurs at some offset of `s`. */
  lemma {:induction false} ContainsAt(s: string, sub: string)
    ensures Contains(s, sub) <==> exists i :: OccursAt(s, sub, i)
    decreases |s|
  {
    if s != [] {
      ContainsAt(s[1..], sub);
    }
    if Contains(s, sub) {
      if sub <= s {
        assert OccursAt(s, sub, 0);
      } else {
        var t := s[1..];
        var i :| OccursAt(t, sub, i);
        var here, there := s[i + 1..i + 1 + |sub|], t[i..i + |sub|];
        assert forall j :: 0 <= j < |sub| ==> here[j] == there[j];
        assert here == there;
        assert OccursAt(s, sub, i + 1);
      }
    }
    forall i | OccursAt(s, sub, i)
      ensures Contains(s, sub)
    {
      if i != 0 {
        var t := s[1..];
        var here, there := s[i..i + |sub|], t[i - 1..i - 1 + |sub|];
        assert forall j :: 0 <= j < |sub| ==> here[j] == there[j];
        assert here == there;
        assert OccursAt(t, sub, i - 1);
      }
    }
  }

  /** Whatever contains `sub` contains every suffix of `sub`. */
  lemma ContainsSuffix(s: string, sub: string, j: nat)
    requires j <= |sub| && Contains(s, sub)
    ensures Contains(s, sub[j..])
  {
    ContainsAt(s, sub);
    ContainsAt(s, sub[j..]);
    var i :| OccursAt(s, sub, i);
    var whole, tail := s[i..i + |sub|], s[i + j..i + |sub|];
    assert tail == whole[j..];
    assert OccursAt(s, sub[j..], i + j);
  }


  predicate IsDigit(c: char) { '0' <= c <= '9' }

  predicate AllDigits(s: string) {
    forall i :: 0 <= i < |s| ==> IsDigit(s[i])
  }

  /** Printable ASCII characters other than the space are not whitespace. */
  lemma GraphicNotSpace(c: char)
    requires '!' <= c <= '~'
    ensures !IsSpace(c)
  {
    OccursIn(c, Whitespace);
  }

  /** Digits are not whitespace. */
  lemma DigitNotSpace(c: char)
    requires IsDigit(c)
    ensures !IsSpace(c)
  {
    OccursIn(c, Whitespace);
  }

  function DigitChar(d: nat): (c: char)
    requires d < 10
    ensures IsDigit(c) && c as int - '0' as int == d
  {
    ('0' as int + d) as char
  }

  /** `f"{n}"` for a non-negative integer: its decimal digits. */
  function NatToString(n: nat): (s: string)
    ensures s != [] && AllDigits(s)
    ensures n < 10 ==> |s| == 1
    ensures 10 <= n < 100 ==> |s| == 2
    decreases n
  {
    if n < 10 then [DigitChar(n)] else NatToString(n / 10) + [DigitChar(n % 10)]
  }

  /** `f"{i}"` for any integer: a minus sign before the digits of `-i`. */
  function IntToString(i: int): (s: string)
    ensures s != [] && IsDigit(s[|s| - 1])
    ensures forall k :: 0 <= k < |s| ==> (k == 0 && i < 0 && s[k] == '-') || IsDigit(s[k])
  {
    if i < 0 then "-" + NatToString(-i) else NatToString(i)
  }

  /** `f"{n:02d}"` for a non-negative integer: zero-padded to two digits. */
  function Pad2(n: nat): (s: string)
    ensures n < 100 ==> |s| == 2
    ensures AllDigits(s)
  {
    if n < 10 then "0" + NatToString(n) else NatToString(n)
  }

  /** The value of a string of decimal digits (leading zeros allowed). */
  function DecimalValue(s: string): nat
    requires AllDigits(s)
  {
    if s == [] then 0
    else
      assert IsDigit(s[|s| - 1]);
      10 * DecimalValue(s[..|s| - 1]) + (s[|s| - 1] as int - '0' as int)
  }

  /** Reading the decimal rendering back gives the number. */
  lemma {:induction false} NatToStringRoundTrip(n: nat)
    ensures DecimalValue(NatToString(n)) == n
    decreases n
  {
    if n >= 10 {
      NatToStringRoundTrip(n / 10);
      var s := NatToString(n);
      assert s[..|s| - 1] == NatToString(n / 10);
    }
  }

  /** Reading the two-digit rendering back gives the number. */
  lemma Pad2RoundTrip(n: nat)
    ensures DecimalValue(Pad2(n)) == n
  {
    NatToStringRoundTrip(n);
    if n < 10 {
      assert Pad2(n)[..1] == "0";
    }
  }

  /** `s.split(sep)` for a one-character separator: the pieces between
      separators, empty pieces included. */
  function Split(s: string, sep: char): (parts: seq<string>)
    ensures parts != []
    decreases |s|
  {
    var i := IndexOf(s, sep);
    if i == |s| then [s] else [s[..i]] + Split(s[i + 1..], sep)
  }

  /** Splitting at the first separator. */
  lemma SplitCons(x: string, sep: char, y: string)
    requires sep !in x
    ensures Split(x + [sep] + y, sep) == [x] + Split(y, sep)
  {
    var s := x + [sep] + y;
    assert s[|x|] == sep;
    assert forall j :: 0 <= j < |x| ==> s[j] == x[j];
    assert IndexOf(s, sep) == |x|;
    assert s[..|x|] == x;
    assert s[|x| + 1..] == y;
  }

  /** A string without the separator is a single piece. */
  lemma SplitNone(s: string, sep: char)
    requires sep !in s
    ensures Split(s, sep) == [s]
  {
  }

  /** The lower-case hexadecimal digit of `d`. */
  function HexDigit(d: nat): (c: char)
    requires d < 16
    ensures '0' <= c <= 'f'
  {
    if d < 10 then ('0' as int + d) as char else ('a' as int + d - 10) as char
  }

  predicate IsHex(c: char) { '0' <= c <= '9' || 'a' <= c <= 'f' }

  function HexValue(c: char): (d: nat)
    requires IsHex(c)
    ensures d < 16
  {
    if c <= '9' then c as int - '0' as int else c as int - 'a' as int + 10
  }

  lemma HexRoundTrip(d: nat)
    requires d < 16
    ensures IsHex(HexDigit(d)) && HexValue(HexDigit(d)) == d
  {
  }

  predicate IsQuote(q: char) { q == '\'' || q == '"' }

  /** The quote `repr(s)` puts around a string: double quotes only when the
      string holds a single quote and no double quote. */
  function ReprQuote(s: string): (q: char)
    ensures IsQuote(q)
  {
    if '\'' in s && '"' !in s then '"' else '\''
  }

  /** How `repr` writes one character inside quotes `q`. */
  function EscapeChar(c: char, q: char): string {
    if c == q || c == '\\' then ['\\', c]
    else if c == '\t' then "\\t"
    else if c == '\n' then "\\n"
    else if c == '\r' then "\\r"
    else if c < ' ' || c == '\U{7f}' then ['\\', 'x', HexDigit(c as int / 16), HexDigit(c as int % 16)]
    else [c]
  }

  function Escape(s: string, q: char): string {
    if s == [] then [] else EscapeChar(s[0], q) + Escape(s[1..], q)
  }

  /** `repr(s)`: the string between quotes, with backslashes, the quote,
      and control characters escaped. */
  function Repr(s: string): string {
    var q := ReprQuote(s);
    [q] + Escape(s, q) + [q]
  }

  /** Reading an escaped body back; `None` for a stray quote or backslash. */
  function Unescape(e: string, q: char): Option<string>
    decreases |e|
  {
    if e == [] then Some([])
    else if e[0] != '\\' then
      if e[0] == q then None else Prepend(e[0], Unescape(e[1..], q))
    else if |e| < 2 then None
    else if e[1] == '\\' || e[1] == q then Prepend(e[1], Unescape(e[2..], q))
    else if e[1] == 't' then Prepend('\t', Unescape(e[2..], q))
    else if e[1] == 'n' then Prepend('\n', Unescape(e[2..], q))
    else if e[1] == 'r' then Prepend('\r', Unescape(e[2..], q))
    else if e[1] == 'x' && |e| >= 4 && IsHex(e[2]) && IsHex(e[3]) then
      Prepend((16 * HexValue(e[2]) + HexValue(e[3])) as char, Unescape(e[4..], q))
    else None
  }

  function Prepend(c: char, o: Option<string>): Option<string> {
    if o.Some? then Some([c] + o.value) else None
  }

  /** Reading a quoted literal back, as `ast.literal_eval` would for the
      escapes `repr` produces. */
  function Unrepr(r: string): Option<string> {
    if |r| >= 2 && IsQuote(r[0]) && r[|r| - 1] == r[0] then Unescape(r[1..|r| - 1], r[0])
    else None
  }

  lemma EscapeCharRoundTrip(c: char, q: char, rest: string)
    requires IsQuote(q)
    ensures Unescape(EscapeChar(c, q) + rest, q) == Prepend(c, Unescape(rest, q))
  {
    var e := EscapeChar(c, q) + rest;
    if c == q || c == '\\' || c == '\t' || c == '\n' || c == '\r' {
      assert e[2..] == rest;
    } else if c < ' ' || c == '\U{7f}' {
      HexRoundTrip(c as int / 16);
      HexRoundTrip(c as int % 16);
      assert e[4..] == rest;
    } else {
      assert e[1..] == rest;
    }
  }

  lemma {:induction false} EscapeRoundTrip(s: string, q: char)
    requires IsQuote(q)
    ensures Unescape(Escape(s, q), q) == Some(s)
  {
    if s != [] {
      EscapeRoundTrip(s[1..], q);
      EscapeCharRoundTrip(s[0], q, Escape(s[1..], q));
      assert [s[0]] + s[1..] == s;
    }
  }

  /** `repr` loses nothing: the literal reads back as the string. */
  lemma ReprRoundTrip(s: string)
    ensures Unrepr(Repr(s)) == Some(s)
  {
    var q := ReprQuote(s);
    EscapeRoundTrip(s, q);
    var r := Repr(s);
    assert r[1..|r| - 1] == Escape(s, q);
  }

  lemma {:induction false} EscapeOneLine(s: string, q: char)
    requires IsQuote(q)
    ensures '\n' !in Escape(s, q)
  {
    if s != [] {
      EscapeOneLine(s[1..], q);
      assert '\n' !in EscapeChar(s[0], q);
    }
  }

  /** `repr` never writes a line break. */
  lemma ReprOneLine(s: string)
    ensures '\n' !in Repr(s)
  {
    EscapeOneLine(s, ReprQuote(s));
  }
}
