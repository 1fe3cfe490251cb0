/** The PHP string built-ins the catalog rules use, over `seq<char>`:
    `trim`, `strtoupper`, `str_replace(" ", "_", …)`, `substr($s, 0, n)` and
    the digit-string reading of a numeric cell. */
module Text {

  /** The characters PHP's `trim` strips by default: space, tab, line feed,
      carriage return, NUL and vertical tab. */
  predicate IsTrimSpace(ch: char) {
    ch == ' ' || ch == '\t' || ch == '\n' || ch == '\r' || ch == '\0' || ch == '\U{000B}'
  }

  /** `ltrim`: drops the maximal run of leading trim characters. */
  function TrimStart(s: string): (r: string)
    ensures |r| <= |s|
    ensures r == [] || !IsTrimSpace(r[0])
  {
    if |s| > 0 && IsTrimSpace(s[0]) then TrimStart(s[1..]) else s
  }

  /** What `ltrim` drops is trim characters only, and what it keeps is a suffix. */
  lemma {:induction false} TrimStartSuffix(s: string)
    ensures var r := TrimStart(s);
      r == s[|s| - |r|..] && forall k :: 0 <= k < |s| - |r| ==> IsTrimSpace(s[k])
  {
    if |s| > 0 && IsTrimSpace(s[0]) {
      TrimStartSuffix(s[1..]);
    }
  }

  /** `rtrim`: drops the maximal run of trailing trim characters. */
  function TrimEnd(s: string): (r: string)
    ensures |r| <= |s|
    ensures r == [] || !IsTrimSpace(r[|r| - 1])
  {
    if |s| > 0 && IsTrimSpace(s[|s| - 1]) then TrimEnd(s[..|s| - 1]) else s
  }

  /** What `rtrim` drops is trim characters only, and what it keeps is a prefix. */
  lemma {:induction false} TrimEndPrefix(s: string)
    ensures var r := TrimEnd(s);
      r == s[..|r|] && forall k :: |r| <= k < |s| ==> IsTrimSpace(s[k])
  {
    if |s| > 0 && IsTrimSpace(s[|s| - 1]) {
      TrimEndPrefix(s[..|s| - 1]);
    }
  }

  /** `trim`: the slice of the input between a run of leading and a run of
      trailing trim characters, with neither of its own ends a trim character. */
  function Trim(s: string): (r: string)
    ensures IsTrimmed(r)
  {
    TrimStartSuffix(TrimEnd(s));
    TrimStart(TrimEnd(s))
  }

  /** A string that `trim` leaves alone. */
  predicate IsTrimmed(s: string) {
    s == [] || (!IsTrimSpace(s[0]) && !IsTrimSpace(s[|s| - 1]))
  }

  /** What `trim` removes is trim characters only, from both ends. */
  lemma TrimIsSlice(s: string)
    ensures var r, e := Trim(s), |TrimEnd(s)|;
      |r| <= e <= |s| && r == s[e - |r|..e]
      && forall k :: 0 <= k < e - |r| || e <= k < |s| ==> IsTrimSpace(s[k])
  {
    var e := TrimEnd(s);
    var r := TrimStart(e);
    TrimEndPrefix(s);
    TrimStartSuffix(e);
    assert forall k :: 0 <= k < |e| - |r| ==> s[k] == e[k];
  }

  /** Trimming is idempotent: a trimmed cell is stored unchanged by a second `trim`. */
  lemma {:induction false} TrimFixesTrimmed(s: string)
    requires IsTrimmed(s)
    ensures Trim(s) == s
  {
  }

  lemma TrimIdempotent(s: string)
    ensures Trim(Trim(s)) == Trim(s)
  {
    TrimFixesTrimmed(Trim(s));
  }

  /** PHP 8's `strtoupper` on one character: ASCII letters only. */
  function UpperChar(ch: char): (u: char)
    ensures 'a' <= ch <= 'z' ==> 'A' <= u <= 'Z' && u as int == ch as int - 32
    ensures !('a' <= ch <= 'z') ==> u == ch
  {
    if 'a' <= ch <= 'z' then (ch as int - 32) as char else ch
  }

  predicate NoLower(s: string) {
    forall k :: 0 <= k < |s| ==> !('a' <= s[k] <= 'z')
  }

  /** `strtoupper`: same length, every lower-case ASCII letter raised, nothing else touched. */
  function ToUpper(s: string): (r: string)
    ensures |r| == |s|
  {
    seq(|s|, k requires 0 <= k < |s| => UpperChar(s[k]))
  }

  lemma ToUpperMeans(s: string)
    ensures NoLower(ToUpper(s))
    ensures forall k :: 0 <= k < |s| && !('a' <= s[k] <= 'z') ==> ToUpper(s)[k] == s[k]
  {
  }

  lemma ToUpperAppend(a: string, b: string)
    ensures ToUpper(a + b) == ToUpper(a) + ToUpper(b)
  {
    assert forall k :: 0 <= k < |a + b| ==> ToUpper(a + b)[k] == (ToUpper(a) + ToUpper(b))[k];
  }

  lemma ToUpperKeepsUpper(s: string)
    requires NoLower(s)
    ensures ToUpper(s) == s
  {
  }

  /** `str_replace(" ", "_", s)`. */
  function SpacesToUnderscores(s: string): (r: string)
    ensures |r| == |s|
  {
    seq(|s|, k requires 0 <= k < |s| => if s[k] == ' ' then '_' else s[k])
  }

  /** Every space becomes an underscore and nothing else changes. */
  lemma SpacesToUnderscoresMeans(s: string)
    ensures ' ' !in SpacesToUnderscores(s)
    ensures forall k :: 0 <= k < |s| && s[k] != ' ' ==> SpacesToUnderscores(s)[k] == s[k]
    ensures forall k :: 0 <= k < |s| && s[k] == ' ' ==> SpacesToUnderscores(s)[k] == '_'
  {
    var r := SpacesToUnderscores(s);
    assert forall ch :: ch in r ==> exists k :: 0 <= k < |r| && r[k] == ch;
  }

  /** `substr(s, 0, n)`: the first `n` characters, or all of a shorter string. */
  function Prefix(s: string, n: nat): (r: string)
    ensures |r| == if |s| < n then |s| else n
    ensures r <= s
  {
    if |s| < n then s else s[..n]
  }

  predicate IsDigit(ch: char) {
    '0' <= ch <= '9'
  }

  function DigitValue(ch: char): (d: nat)
    requires IsDigit(ch)
    ensures d < 10
  {
    ch as int - '0' as int
  }

  /** A cell the model reads as a count: one or more decimal digits. */
  predicate IsDigits(s: string) {
    |s| > 0 && forall k :: 0 <= k < |s| ==> IsDigit(s[k])
  }

  /** The natural number a digit string denotes (`intval`), read left to right. */
  function DigitsValue(s: string): nat
    requires forall k :: 0 <= k < |s| ==> IsDigit(s[k])
  {
    if s == [] then 0
    else DigitsValue(s[..|s| - 1]) * 10 + DigitValue(s[|s| - 1])
  }

  /** The decimal rendering of `n` (`%d`), without leading zeros. */
  function DigitsOf(n: nat): (r: string)
    ensures IsDigits(r)
    ensures |r| > 1 ==> r[0] != '0'
    decreases n
  {
    var last := [('0' as int + n % 10) as char];
    if n < 10 then last else DigitsOf(n / 10) + last
  }

  /** Reading back a rendered count gives the count. */
  lemma {:induction false} DigitsRoundTrip(n: nat)
    ensures DigitsValue(DigitsOf(n)) == n
    decreases n
  {
    var r := DigitsOf(n);
    if n >= 10 {
      DigitsRoundTrip(n / 10);
      assert r[..|r| - 1] == DigitsOf(n / 10);
    } else {
      assert r[..|r| - 1] == [];
    }
  }
}
