/**
 * The Python `str` operations the flashcard code uses, over `seq<char>`.
 *
 * Searching (`in`, `find`, `count`, `split`, `rsplit(sep, 1)`) follows Python's
 * left-to-right, non-overlapping scan exactly. Classification and case mapping
 * (`isalpha`, `isdigit`, `lower`) are restricted to ASCII; `isspace` (and so
 * `strip`/`lstrip`) uses Python's full list of whitespace characters.
 */
module Strings {
  import opened Wrappers

  /** `sep` occurs in `s` at index `i`. */
  predicate SepAt(s: string, sep: string, i: nat) {
    i + |sep| <= |s| && s[i..i + |sep|] == sep
  }

  /** The first index at or after `from` where `sep` occurs, or -1. */
  function IndexFrom(s: string, sep: string, from: nat): (r: int)
    requires |sep| > 0
    ensures r == -1 || (from <= r && SepAt(s, sep, r))
    ensures r >= 0 ==> forall j :: from <= j < r ==> !SepAt(s, sep, j)
    ensures r == -1 ==> forall j :: from <= j ==> !SepAt(s, sep, j)
    decreases |s| - from
  {
    if from + |sep| > |s| then -1
    else if SepAt(s, sep, from) then from
    else IndexFrom(s, sep, from + 1)
  }

  /** `s.find(sep)`. */
  function IndexOf(s: string, sep: string): (r: int)
    requires |sep| > 0
    ensures -1 <= r && (r >= 0 ==> SepAt(s, sep, r))
    ensures r >= 0 ==> forall j :: 0 <= j < r ==> !SepAt(s, sep, j)
    ensures r == -1 ==> forall j :: !SepAt(s, sep, j)
  {
    IndexFrom(s, sep, 0)
  }

  /** `sep in s`. */
  predicate Contains(s: string, sep: string)
    requires |sep| > 0
  {
    IndexOf(s, sep) >= 0
  }

  /** Containment is having an occurrence somewhere. */
  lemma ContainsAt(s: string, sep: string, i: nat)
    requires |sep| > 0 && SepAt(s, sep, i)
    ensures Contains(s, sep)
  {
  }

  /** Text added after a string does not remove the occurrences in it. */
  lemma ContainsAppend(a: string, b: string, sep: string)
    requires |sep| > 0 && Contains(a, sep)
    ensures Contains(a + b, sep)
  {
    var i := IndexOf(a, sep);
    assert (a + b)[i..i + |sep|] == a[i..i + |sep|];
    ContainsAt(a + b, sep, i);
  }

  /** A prefix that ends before the first occurrence holds no occurrence. */
  lemma PrefixBeforeFirst(s: string, sep: string, i: nat)
    requires |sep| > 0 && i <= |s|
    requires forall j :: 0 <= j < i ==> !SepAt(s, sep, j)
    ensures !Contains(s[..i], sep)
  {
    var k := IndexOf(s[..i], sep);
    if k >= 0 {
      assert s[..i][k..k + |sep|] == s[k..k + |sep|];
      assert SepAt(s, sep, k);
    }
  }

  /** `s.split(sep)`: the pieces between successive leftmost occurrences. */
  function Split(s: string, sep: string): (r: seq<string>)
    requires |sep| > 0
    ensures |r| >= 1
    ensures forall k :: 0 <= k < |r| ==> !Contains(r[k], sep)
    decreases |s|
  {
    var i := IndexOf(s, sep);
    if i < 0 then [s]
    else
      PrefixBeforeFirst(s, sep, i);
      [s[..i]] + Split(s[i + |sep|..], sep)
  }

  /** `s.count(sep)`: the number of non-overlapping occurrences, scanning left to right. */
  function Count(s: string, sep: string): nat
    requires |sep| > 0
    decreases |s|
  {
    var i := IndexOf(s, sep);
    if i < 0 then 0 else 1 + Count(s[i + |sep|..], sep)
  }

  /** `sep.join(parts)`. */
  function Join(parts: seq<string>, sep: string): string {
    if |parts| == 0 then ""
    else if |parts| == 1 then parts[0]
    else parts[0] + sep + Join(parts[1..], sep)
  }

  /** `count` is one less than the number of pieces `split` yields. */
  lemma {:induction false} SplitLength(s: string, sep: string)
    requires |sep| > 0
    ensures |Split(s, sep)| == Count(s, sep) + 1
    decreases |s|
  {
    var i := IndexOf(s, sep);
    if i >= 0 {
      SplitLength(s[i + |sep|..], sep);
    }
  }

  /** Joining the pieces of a split with the same separator gives the text back. */
  lemma {:induction false} JoinSplit(s: string, sep: string)
    requires |sep| > 0
    ensures Join(Split(s, sep), sep) == s
    decreases |s|
  {
    var i := IndexOf(s, sep);
    if i >= 0 {
      var rest := s[i + |sep|..];
      var tail := Split(rest, sep);
      JoinSplit(rest, sep);
      var parts := [s[..i]] + tail;
      assert Split(s, sep) == parts;
      assert parts[0] == s[..i] && parts[1..] == tail;
      calc {
        Join(parts, sep);
        s[..i] + sep + Join(tail, sep);
        s[..i] + sep + rest;
        { assert s[i..i + |sep|] == sep; }
        s;
      }
    }
  }

  /** Joining two non-empty lists puts one separator between their joins. */
  lemma {:induction false} JoinConcat(a: seq<string>, b: seq<string>, sep: string)
    requires |a| > 0 && |b| > 0
    ensures Join(a + b, sep) == Join(a, sep) + sep + Join(b, sep)
    decreases |a|
  {
    if |a| == 1 {
      assert (a + b)[1..] == b;
    } else {
      assert (a + b)[1..] == a[1..] + b;
      JoinConcat(a[1..], b, sep);
    }
  }

  /** Gluing two neighbouring parts with the separator does not change the join. */
  lemma {:induction false} JoinGlue(a: seq<string>, x: string, y: string, b: seq<string>, sep: string)
    ensures Join(a + [x, y] + b, sep) == Join(a + [x + sep + y] + b, sep)
    decreases |a|
  {
    var l := a + [x, y] + b;
    var g := a + [x + sep + y] + b;
    if |a| == 0 {
      assert l == [x] + ([y] + b) && g == [x + sep + y] + b;
      assert l[1..] == [y] + b;
      if |b| > 0 {
        assert ([y] + b)[1..] == b && g[1..] == b;
      }
    } else {
      JoinGlue(a[1..], x, y, b, sep);
      assert l[1..] == a[1..] + [x, y] + b;
      assert g[1..] == a[1..] + [x + sep + y] + b;
    }
  }

  /** Extending the last part after a separator extends the join in the same way. */
  lemma JoinExtendLast(a: seq<string>, x: string, y: string, sep: string)
    ensures Join(a + [x + sep + y], sep) == Join(a + [x], sep) + sep + y
  {
    if |a| > 0 {
      JoinConcat(a, [x + sep + y], sep);
      JoinConcat(a, [x], sep);
    }
  }

  /** A character outside the separator is in a join exactly when it is in one of the parts. */
  lemma {:induction false} InJoin(parts: seq<string>, sep: string, c: char)
    requires c !in sep
    ensures c in Join(parts, sep) <==> exists m :: 0 <= m < |parts| && c in parts[m]
  {
    if |parts| > 1 {
      InJoin(parts[1..], sep, c);
      assert Join(parts, sep) == parts[0] + sep + Join(parts[1..], sep);
      if c in Join(parts[1..], sep) {
        var m :| 1 <= m + 1 < |parts| && c in parts[1..][m];
        assert c in parts[m + 1];
      }
      forall m | 1 <= m < |parts| && c in parts[m]
        ensures c in Join(parts[1..], sep)
      {
        assert parts[1..][m - 1] == parts[m];
      }
    }
  }

  /** A character is in the text exactly when it is in a piece split off on a separator without it. */
  lemma InSplit(s: string, sep: string, c: char)
    requires |sep| > 0 && c !in sep
    ensures c in s <==> exists m :: 0 <= m < |Split(s, sep)| && c in Split(s, sep)[m]
  {
    JoinSplit(s, sep);
    InJoin(Split(s, sep), sep, c);
  }

  /** The largest index below `hi` where `sep` occurs, or -1. */
  function LastIndexBelow(s: string, sep: string, hi: nat): (r: int)
    ensures -1 <= r < hi && (r >= 0 ==> SepAt(s, sep, r))
    ensures r >= 0 ==> forall j :: r < j < hi ==> !SepAt(s, sep, j)
    ensures r == -1 ==> forall j :: 0 <= j < hi ==> !SepAt(s, sep, j)
  {
    if hi == 0 then -1
    else if SepAt(s, sep, hi - 1) then hi - 1
    else LastIndexBelow(s, sep, hi - 1)
  }

  /** `s.rfind(sep)`. */
  function LastIndexOf(s: string, sep: string): (r: int)
    requires |sep| > 0
    ensures -1 <= r && (r >= 0 ==> SepAt(s, sep, r))
    ensures r >= 0 ==> forall j :: r < j ==> !SepAt(s, sep, j)
    ensures r == -1 ==> forall j :: !SepAt(s, sep, j)
  {
    LastIndexBelow(s, sep, |s|)
  }

  /** `"\n".join(s.rsplit(sep, 1))`: the last occurrence of `sep` becomes a line break. */
  function ReplaceLast(s: string, sep: string): string
    requires |sep| > 0
  {
    var i := LastIndexOf(s, sep);
    if i < 0 then s else s[..i] + "\n" + s[i + |sep|..]
  }

  /** For a one-character separator, an occurrence is just that character. */
  lemma SepAtChar(s: string, c: char, i: nat)
    ensures SepAt(s, [c], i) <==> i < |s| && s[i] == c
  {
    if i < |s| {
      assert s[i..i + 1] == [s[i]];
    }
  }

  /** For a one-character separator, `count` counts that character. */
  lemma {:induction false} CountChar(s: string, c: char)
    ensures Count(s, [c]) == multiset(s)[c]
    decreases |s|
  {
    var i := IndexOf(s, [c]);
    if i < 0 {
      if c in s {
        var k :| 0 <= k < |s| && s[k] == c;
        SepAtChar(s, c, k);
      }
    } else {
      SepAtChar(s, c, i);
      var rest := s[i + 1..];
      CountChar(rest, c);
      assert s == s[..i] + [c] + rest;
      if c in s[..i] {
        var k :| 0 <= k < i && s[..i][k] == c;
        SepAtChar(s, c, k);
      }
    }
  }

  /**
   * With a one-character separator other than a line break, replacing the last
   * occurrence removes exactly one occurrence.
   */
  lemma ReplaceLastCount(s: string, c: char)
    requires c != '\n' && Count(s, [c]) > 0
    ensures Count(ReplaceLast(s, [c]), [c]) == Count(s, [c]) - 1
  {
    CountChar(s, c);
    var i := LastIndexOf(s, [c]);
    assert i >= 0 by {
      assert SepAt(s, [c], IndexOf(s, [c]));
    }
    SepAtChar(s, c, i);
    var r := ReplaceLast(s, [c]);
    assert s == s[..i] + [c] + s[i + 1..];
    assert r == s[..i] + "\n" + s[i + 1..];
    CountChar(r, c);
  }

  /** For a one-character separator, containment is membership. */
  lemma ContainsChar(s: string, c: char)
    ensures Contains(s, [c]) <==> c in s
  {
    if c in s {
      var k :| 0 <= k < |s| && s[k] == c;
      SepAtChar(s, c, k);
    }
    var i := IndexOf(s, [c]);
    if i >= 0 {
      SepAtChar(s, c, i);
    }
  }

  /** The first occurrence of a character is where it first appears. */
  lemma IndexOfCharAt(s: string, c: char, i: nat)
    requires i < |s| && s[i] == c && c !in s[..i]
    ensures IndexOf(s, [c]) == i
  {
    SepAtChar(s, c, i);
    var k := IndexOf(s, [c]);
    assert k >= 0;
    SepAtChar(s, c, k);
  }

  /** Splitting on a character at its first occurrence `i`. */
  lemma SplitCharAt(s: string, c: char, i: nat)
    requires i < |s| && s[i] == c && c !in s[..i]
    ensures Split(s, [c]) == [s[..i]] + Split(s[i + 1..], [c])
  {
    IndexOfCharAt(s, c, i);
  }

  /** Splitting on a character that does not occur. */
  lemma SplitCharNone(s: string, c: char)
    requires c !in s
    ensures Split(s, [c]) == [s]
  {
    ContainsChar(s, c);
  }

  /** Splitting on a character at its first occurrence, in concatenation form. */
  lemma SplitAtFirst(a: string, c: char, rest: string)
    requires c !in a
    ensures Split(a + [c] + rest, [c]) == [a] + Split(rest, [c])
  {
    var s := a + [c] + rest;
    assert s[..|a|] == a && s[|a| + 1..] == rest;
    SplitCharAt(s, c, |a|);
  }

  /** Splitting on a character that occurs once gives the two sides. */
  lemma SplitAround(a: string, c: char, b: string)
    requires c !in a && c !in b
    ensures Split(a + [c] + b, [c]) == [a, b]
  {
    var s := a + [c] + b;
    assert s[..|a|] == a && s[|a| + 1..] == b;
    SplitCharAt(s, c, |a|);
    SplitCharNone(b, c);
  }

  /** Replacing the last occurrence of a character, found at `i`. */
  lemma ReplaceLastCharAt(s: string, c: char, i: nat)
    requires i < |s| && s[i] == c && c !in s[i + 1..]
    ensures ReplaceLast(s, [c]) == s[..i] + "\n" + s[i + 1..]
  {
    SepAtChar(s, c, i);
    var k := LastIndexOf(s, [c]);
    SepAtChar(s, c, k);
  }
  /** Replacing the last occurrence of a character that `b` lacks. */
  lemma ReplaceLastAround(a: string, c: char, b: string)
    requires c !in b
    ensures ReplaceLast(a + [c] + b, [c]) == a + "\n" + b
  {
    var s := a + [c] + b;
    assert s[..|a|] == a && s[|a| + 1..] == b;
    ReplaceLastCharAt(s, c, |a|);
  }


  /** `c.isspace()`: Python's whitespace characters. */
  predicate IsSpace(c: char) {
    || c == ' ' || ('\t' <= c <= '\r') || ('\U{1c}' <= c <= '\U{1f}')
    || c == '\U{85}' || c == '\U{a0}' || c == '\U{1680}' || ('\U{2000}' <= c <= '\U{200a}')
    || c == '\U{2028}' || c == '\U{2029}' || c == '\U{202f}' || c == '\U{205f}' || c == '\U{3000}'
  }

  /** `c.isdigit()`, restricted to the ASCII digits. */
  predicate IsDigit(c: char) {
    '0' <= c <= '9'
  }

  /** `c.isalpha()`, restricted to the ASCII letters. */
  predicate IsAlpha(c: char) {
    ('a' <= c <= 'z') || ('A' <= c <= 'Z')
  }

  /** The end of the run of whitespace that starts at `i`. */
  function SpacesFrom(s: string, i: nat): (r: nat)
    requires i <= |s|
    ensures i <= r <= |s|
    ensures forall k :: i <= k < r ==> IsSpace(s[k])
    ensures r < |s| ==> !IsSpace(s[r])
    decreases |s| - i
  {
    if i < |s| && IsSpace(s[i]) then SpacesFrom(s, i + 1) else i
  }

  /** The start of the run of whitespace that ends at `j`. */
  function SpacesBefore(s: string, j: nat): (r: nat)
    requires j <= |s|
    ensures r <= j
    ensures forall k :: r <= k < j ==> IsSpace(s[k])
    ensures r > 0 ==> !IsSpace(s[r - 1])
  {
    if j > 0 && IsSpace(s[j - 1]) then SpacesBefore(s, j - 1) else j
  }

  /** `s.lstrip()`: drop leading whitespace. */
  function LStrip(s: string): (r: string)
    ensures |r| <= |s|
    ensures forall k :: 0 <= k < |s| - |r| ==> IsSpace(s[k])
    ensures r != [] ==> !IsSpace(r[0])
  {
    s[SpacesFrom(s, 0)..]
  }

  /** `s.rstrip()`: drop trailing whitespace. */
  function RStrip(s: string): (r: string)
    ensures |r| <= |s|
    ensures forall k :: |r| <= k < |s| ==> IsSpace(s[k])
    ensures r != [] ==> !IsSpace(r[|r| - 1])
  {
    s[..SpacesBefore(s, |s|)]
  }

  /** `s.strip()`. */
  function Strip(s: string): string {
    RStrip(LStrip(s))
  }

  /** `c.lower()`, restricted to the ASCII letters. */
  function LowerChar(c: char): char {
    if 'A' <= c <= 'Z' then (c as int + 32) as char else c
  }

  /** `s.lower()`: every character lowered on its own. */
  function Lower(s: string): (r: string)
    ensures |r| == |s|
    ensures forall k :: 0 <= k < |s| ==> r[k] == LowerChar(s[k])
  {
    seq(|s|, k requires 0 <= k < |s| => LowerChar(s[k]))
  }

  /** `s.isdigit()`: non-empty and every character a digit. */
  predicate AllDigits(s: string) {
    |s| > 0 && forall k :: 0 <= k < |s| ==> IsDigit(s[k])
  }

  /** The digits of `s`, read in base 10, underscores skipped. */
  function DigitsValue(s: string): (n: nat)
    requires DigitsOrUnderscores(s)
  {
    if s == [] then 0
    else if s[|s| - 1] == '_' then DigitsValue(s[..|s| - 1])
    else
      assert IsDigit(s[|s| - 1]);
      10 * DigitsValue(s[..|s| - 1]) + (s[|s| - 1] as int - '0' as int)
  }

  /** Every character is a digit or an underscore. */
  predicate DigitsOrUnderscores(s: string) {
    forall k :: 0 <= k < |s| ==> IsDigit(s[k]) || s[k] == '_'
  }

  /** Python's base-10 integer literal body: digits, with single underscores between digits. */
  predicate IsDecimal(s: string) {
    && |s| > 0 && IsDigit(s[0]) && IsDigit(s[|s| - 1]) && DigitsOrUnderscores(s)
    && forall i, j :: 0 <= i < |s| && 0 <= j < |s| && j == i + 1 && s[i] == '_' ==> IsDigit(s[j])
  }

  /** `int(s)`: surrounding whitespace, an optional sign, a decimal body; anything else raises `ValueError`. */
  function ParseInt(s: string): Option<int> {
    var t := Strip(s);
    if IsDecimal(t) then Some(DigitsValue(t))
    else if |t| > 0 && t[0] == '+' && IsDecimal(t[1..]) then Some(DigitsValue(t[1..]))
    else if |t| > 0 && t[0] == '-' && IsDecimal(t[1..]) then Some(-(DigitsValue(t[1..]) as int))
    else None
  }

  /** Decimal text of a number, the inverse of `DigitsValue` on digit strings. */
  function DecimalText(n: nat): (s: string)
    ensures AllDigits(s) && DigitsValue(s) == n
    ensures s[0] != '0' || n == 0
  {
    if n < 10 then [('0' as int + n) as char]
    else
      var s := DecimalText(n / 10) + [('0' as int + n % 10) as char];
      assert s[..|s| - 1] == DecimalText(n / 10);
      s
  }

  /** Text that neither starts nor ends with whitespace is its own `strip()`. */
  lemma NoSpaceStrip(s: string)
    requires |s| > 0 && !IsSpace(s[0]) && !IsSpace(s[|s| - 1])
    ensures Strip(s) == s
  {
    assert SpacesFrom(s, 0) == 0;
    assert LStrip(s) == s;
    assert SpacesBefore(s, |s|) == |s|;
  }

  /** `strip()` is idempotent. */
  lemma StripIdempotent(s: string)
    ensures Strip(Strip(s)) == Strip(s)
  {
    var t := Strip(s);
    if t != [] {
      assert t == RStrip(LStrip(s));
      assert LStrip(s)[..|t|] == t;
      assert !IsSpace(t[0]);
      NoSpaceStrip(t);
    }
  }

  /** `int(str(n))` is `n`: decimal text parses back to its number. */
  lemma DecimalParses(n: nat)
    ensures Strip(DecimalText(n)) == DecimalText(n)
    ensures ParseInt(DecimalText(n)) == Some(n as int)
  {
    var s := DecimalText(n);
    NoSpaceStrip(s);
    assert IsDecimal(s);
  }

  /** `lower()` is idempotent and keeps whitespace where it is. */
  lemma LowerIdempotent(s: string)
    ensures Lower(Lower(s)) == Lower(s)
    ensures forall k :: 0 <= k < |s| ==> (IsSpace(Lower(s)[k]) <==> IsSpace(s[k]))
  {
  }
}
