/** The Python `str` operations the modelled code relies on, over `string`
    (a sequence of Unicode code points). Case mapping and the digit test cover
    ASCII and the Latin-1 letters only. */
module Strings {

  predicate StartsWith(s: string, prefix: string) {
    |prefix| <= |s| && s[..|prefix|] == prefix
  }

  predicate EndsWith(s: string, suffix: string) {
    |suffix| <= |s| && s[|s| - |suffix|..] == suffix
  }

  /** Characters `str.strip()` removes (Python's `str.isspace`). */
  predicate IsSpace(c: char) {
    var n := c as int;
    || (0x09 <= n <= 0x0D) || (0x1C <= n <= 0x20) || n == 0x85 || n == 0xA0
    || n == 0x1680 || (0x2000 <= n <= 0x200A) || n == 0x2028 || n == 0x2029
    || n == 0x202F || n == 0x205F || n == 0x3000
  }

  function TrimLeft(s: string): (r: string)
    ensures |r| <= |s| && r == s[|s| - |r|..]
    ensures |r| > 0 ==> !IsSpace(r[0])
  {
    if |s| > 0 && IsSpace(s[0]) then TrimLeft(s[1..]) else s
  }

  function TrimRight(s: string): (r: string)
    ensures |r| <= |s| && r == s[..|r|]
    ensures |r| > 0 ==> !IsSpace(r[|r| - 1])
  {
    if |s| > 0 && IsSpace(s[|s| - 1]) then TrimRight(s[..|s| - 1]) else s
  }

  /** `s.strip()` */
  function Strip(s: string): (r: string)
    ensures |r| <= |s|
    ensures forall i | 0 <= i < |r| :: r[i] in s
    ensures |r| > 0 ==> !IsSpace(r[0]) && !IsSpace(r[|r| - 1])
  {
    var left := TrimLeft(s);
    var r := TrimRight(left);
    SliceWithin(s, |s| - |left|, r);
    r
  }

  /** The characters of a slice of `s` are characters of `s`. */
  lemma SliceWithin(s: string, k: nat, r: string)
    requires k + |r| <= |s| && r == s[k..k + |r|]
    ensures forall i | 0 <= i < |r| :: r[i] in s
  {
    forall i | 0 <= i < |r| ensures r[i] in s {
      assert r[i] == s[k + i];
    }
  }

  /** `s.rstrip(c)` for a single character `c`: removes every trailing `c`. */
  function RStripChar(s: string, c: char): (r: string)
    ensures |r| <= |s| && r == s[..|r|]
    ensures |r| > 0 ==> r[|r| - 1] != c
    ensures forall i | |r| <= i < |s| :: s[i] == c
  {
    if |s| > 0 && s[|s| - 1] == c then RStripChar(s[..|s| - 1], c) else s
  }

  /** `s.replace(a, b)` for single characters. */
  function ReplaceChar(s: string, a: char, b: char): (r: string)
    ensures |r| == |s|
    ensures forall i | 0 <= i < |s| :: r[i] == (if s[i] == a then b else s[i])
  {
    if |s| == 0 then "" else [if s[0] == a then b else s[0]] + ReplaceChar(s[1..], a, b)
  }

  /** `sep.join(parts)` */
  function Join(sep: string, parts: seq<string>): string {
    if |parts| == 0 then ""
    else if |parts| == 1 then parts[0]
    else parts[0] + sep + Join(sep, parts[1..])
  }

  /** `"".join(parts)` */
  function Concat(parts: seq<string>): string {
    if |parts| == 0 then "" else parts[0] + Concat(parts[1..])
  }

  function CountChar(s: string, c: char): nat {
    if |s| == 0 then 0 else (if s[0] == c then 1 else 0) + CountChar(s[1..], c)
  }

  /** `s.split(c)` for a single-character separator: the pieces between
      occurrences of `c`, empty pieces included. */
  function Split(s: string, c: char): seq<string> {
    SplitFrom(s, c, "")
  }

  function SplitFrom(s: string, c: char, acc: string): seq<string> {
    if |s| == 0 then [acc]
    else if s[0] == c then [acc] + SplitFrom(s[1..], c, "")
    else SplitFrom(s[1..], c, acc + [s[0]])
  }

  lemma JoinCons(sep: string, a: string, rest: seq<string>)
    requires |rest| > 0
    ensures Join(sep, [a] + rest) == a + sep + Join(sep, rest)
  {
    assert ([a] + rest)[1..] == rest;
  }

  /** A split has one piece more than there are separators. */
  lemma {:induction false} SplitFromCount(s: string, c: char, acc: string)
    ensures |SplitFrom(s, c, acc)| == CountChar(s, c) + 1
  {
    if |s| > 0 {
      if s[0] == c {
        SplitFromCount(s[1..], c, "");
      } else {
        SplitFromCount(s[1..], c, acc + [s[0]]);
      }
    }
  }

  /** Joining the pieces with the separator gives back the text. */
  lemma {:induction false} SplitFromJoin(s: string, c: char, acc: string)
    ensures Join([c], SplitFrom(s, c, acc)) == acc + s
  {
    if |s| == 0 {
      assert acc + s == acc;
    } else if s[0] == c {
      SplitFromJoin(s[1..], c, "");
      SplitFromCount(s[1..], c, "");
      JoinCons([c], acc, SplitFrom(s[1..], c, ""));
      assert s == [c] + s[1..];
    } else {
      SplitFromJoin(s[1..], c, acc + [s[0]]);
      assert (acc + [s[0]]) + s[1..] == acc + s;
    }
  }

  /** Every character of a piece comes from the text (or the piece begun so far). */
  lemma {:induction false} SplitFromChars(s: string, c: char, acc: string, j: int, k: int)
    requires 0 <= j < |SplitFrom(s, c, acc)| && 0 <= k < |SplitFrom(s, c, acc)[j]|
    ensures SplitFrom(s, c, acc)[j][k] in acc || SplitFrom(s, c, acc)[j][k] in s
  {
    if |s| > 0 {
      if s[0] == c {
        if j > 0 {
          SplitFromChars(s[1..], c, "", j - 1, k);
        }
      } else {
        SplitFromChars(s[1..], c, acc + [s[0]], j, k);
      }
    }
  }

  /** `strip` leaves text without white space unchanged. */
  lemma StripNoSpace(s: string)
    requires forall i | 0 <= i < |s| :: !IsSpace(s[i])
    ensures Strip(s) == s
  {
    assert TrimLeft(s) == s;
    assert TrimRight(s) == s;
  }

  /** Letters Python counts as cased, for the Latin-1 range: upper case are
      the ASCII capitals and À to Þ (multiplication sign excluded); lower case
      are the ASCII small letters, ß to ÿ (division sign excluded) and the
      ordinal and micro signs ª, º, µ. The case partners of ÿ and µ, Ÿ and
      Greek Μ, and Greek μ (which also upper-cases to Μ) are included so
      that both case maps stay inside this set; all other characters are
      uncased. */
  predicate IsUpper(c: char) {
    ('A' <= c <= 'Z') || ('À' <= c <= 'Þ' && c != '×') || c == 'Ÿ' || c == 'Μ'
  }

  predicate IsLower(c: char) {
    ('a' <= c <= 'z') || ('ß' <= c <= 'ÿ' && c != '÷') || c == 'ª' || c == 'º' || c == 'µ' || c == 'μ'
  }

  predicate IsCased(c: char) {
    IsUpper(c) || IsLower(c)
  }

  /** `c.lower()` */
  function LowerChar(c: char): char {
    if c == 'Ÿ' then 'ÿ'
    else if c == 'Μ' then 'μ'
    else if IsUpper(c) then (c as int + 32) as char
    else c
  }

  /** Lower-case letters whose title case is not a single different
      character: ª and º have none, and ß title-cases to the two letters
      "Ss", which this one-character map does not produce. */
  predicate KeepsTitleCase(c: char) {
    c == 'ß' || c == 'ª' || c == 'º'
  }

  /** `c.title()` for one character, with `ß` kept as it is. */
  function UpperChar(c: char): char {
    if c == 'ÿ' then 'Ÿ'
    else if c == 'µ' || c == 'μ' then 'Μ'
    else if IsLower(c) && !KeepsTitleCase(c) then (c as int - 32) as char
    else c
  }

  /** `s.lower()` */
  function Lower(s: string): (r: string)
    ensures |r| == |s|
    ensures forall i | 0 <= i < |s| :: r[i] == LowerChar(s[i])
  {
    if |s| == 0 then "" else [LowerChar(s[0])] + Lower(s[1..])
  }

  /** `s.title()`: a cased character is upper-cased when the character before
      it is not cased and lower-cased otherwise; other characters are kept. */
  function Title(s: string): string {
    TitleFrom(s, false)
  }

  function TitleFrom(s: string, prevCased: bool): (r: string)
    ensures |r| == |s|
  {
    if |s| == 0 then ""
    else
      var c := s[0];
      var c' := if !IsCased(c) then c else if prevCased then LowerChar(c) else UpperChar(c);
      [c'] + TitleFrom(s[1..], IsCased(c))
  }

  predicate IsDigit(c: char) {
    '0' <= c <= '9'
  }

  /** `s.isdigit()`: non-empty and made of digits only. */
  predicate IsDigits(s: string) {
    |s| > 0 && forall i | 0 <= i < |s| :: IsDigit(s[i])
  }

  /** `int(s)` for a string of digits. */
  function DigitsValue(s: string): nat
    requires forall i | 0 <= i < |s| :: IsDigit(s[i])
  {
    if |s| == 0 then 0
    else
      assert IsDigit(s[|s| - 1]);
      DigitsValue(s[..|s| - 1]) * 10 + (s[|s| - 1] as int - '0' as int)
  }

  function DigitChar(d: nat): char
    requires d < 10
  {
    ('0' as int + d) as char
  }

  function NatToString(n: nat): (r: string)
    ensures IsDigits(r)
  {
    if n < 10 then [DigitChar(n)] else NatToString(n / 10) + [DigitChar(n % 10)]
  }

  /** `str(n)` for an integer. */
  function IntToString(n: int): string {
    if n < 0 then "-" + NatToString(-n) else NatToString(n)
  }

  /** `s[:n]` */
  function Take(s: string, n: nat): (r: string)
    ensures |r| == (if n < |s| then n else |s|)
    ensures r == s[..|r|]
  {
    if n < |s| then s[..n] else s
  }

  /** Index of the last occurrence of `c` in `s`, or -1. */
  function LastIndexOf(s: string, c: char): (i: int)
    ensures -1 <= i < |s|
    ensures i >= 0 ==> s[i] == c
    ensures forall j | i < j < |s| :: s[j] != c
  {
    if |s| == 0 then -1
    else if s[|s| - 1] == c then |s| - 1
    else LastIndexOf(s[..|s| - 1], c)
  }

  /** `os.path.basename(p)`: the part after the last '/'. */
  function Basename(p: string): (r: string)
    ensures '/' !in r
    ensures EndsWith(p, r)
  {
    if |p| == 0 || p[|p| - 1] == '/' then ""
    else
      var r := Basename(p[..|p| - 1]) + [p[|p| - 1]];
      assert p[..|p| - 1][|p| - |r|..] == r[..|r| - 1];
      r
  }

  /** `os.path.join(d, name)` for a relative or absolute `name`. */
  function PathJoin(d: string, name: string): string {
    if StartsWith(name, "/") then name
    else if |d| == 0 || EndsWith(d, "/") then d + name
    else d + "/" + name
  }

  /** `pathlib.PurePath(name).stem`: the name without its last suffix, where a
      suffix is a '.' that is neither the first nor the last character. */
  function Stem(name: string): (r: string)
    ensures |r| <= |name| && r == name[..|r|]
  {
    var i := LastIndexOf(name, '.');
    if 0 < i < |name| - 1 then name[..i] else name
  }
}
