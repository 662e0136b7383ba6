/**
 * The Python string built-ins that `hello.py` relies on: `\d`, `str.isspace`,
 * `str.strip`, `str.find`, slicing past the end, `str.endswith` and
 * `str.split("\n")`.
 */
module Text {

  /** `\d`, restricted to the ASCII digits. */
  predicate IsDigit(c: char) {
    '0' <= c <= '9'
  }

  function DigitValue(c: char): (d: nat)
    requires IsDigit(c)
    ensures d < 10
  {
    c as int - '0' as int
  }

  /** Python's `str.isspace()`: the code points `str.strip()` removes. */
  predicate IsSpace(c: char) {
    var n := c as int;
    || 0x09 <= n <= 0x0D
    || 0x1C <= n <= 0x20
    || n == 0x85 || n == 0xA0 || n == 0x1680
    || 0x2000 <= n <= 0x200A
    || n == 0x2028 || n == 0x2029 || n == 0x202F || n == 0x205F || n == 0x3000
  }

  predicate AllSpace(s: string) {
    forall k :: 0 <= k < |s| ==> IsSpace(s[k])
  }

  predicate AllDigits(s: string) {
    forall k :: 0 <= k < |s| ==> IsDigit(s[k])
  }

  /** `int()` of a string of decimal digits. */
  function DigitsValue(ds: string): nat
    requires AllDigits(ds)
  {
    if ds == [] then 0 else 10 * DigitsValue(ds[..|ds| - 1]) + DigitValue(ds[|ds| - 1])
  }

  /** `int()` ignores leading zeros. */
  lemma {:induction false} LeadingZero(ds: string)
    requires AllDigits(ds)
    ensures AllDigits("0" + ds) && DigitsValue("0" + ds) == DigitsValue(ds)
  {
    if ds != [] {
      var init := ds[..|ds| - 1];
      LeadingZero(init);
      assert ("0" + ds)[..|ds|] == "0" + init;
    }
  }

  /** `str.lstrip()`: drops the leading white space and nothing else. */
  function LStrip(s: string): (r: string)
    ensures |r| <= |s| && r == s[|s| - |r|..]
    ensures AllSpace(s[..|s| - |r|])
    ensures r == [] || !IsSpace(r[0])
  {
    if s != [] && IsSpace(s[0]) then
      var r := LStrip(s[1..]);
      assert s[..|s| - |r|] == [s[0]] + s[1..][..|s| - 1 - |r|];
      r
    else
      s
  }

  /** `str.rstrip()`: drops the trailing white space and nothing else. */
  function RStrip(s: string): (r: string)
    ensures |r| <= |s| && r == s[..|r|]
    ensures AllSpace(s[|r|..])
    ensures r == [] || !IsSpace(r[|r| - 1])
  {
    if s != [] && IsSpace(s[|s| - 1]) then
      var r := RStrip(s[..|s| - 1]);
      assert s[|r|..] == s[..|s| - 1][|r|..] + [s[|s| - 1]];
      r
    else
      s
  }

  /** `str.strip()`. */
  function Strip(s: string): (r: string)
    ensures |r| <= |s|
    ensures r == [] || (!IsSpace(r[0]) && !IsSpace(r[|r| - 1]))
  {
    RStrip(LStrip(s))
  }

  /**
   * Stripping leaves a slice of `s` with only white space on either side,
   * which neither begins nor ends with white space.
   */
  lemma StripSlice(s: string)
    ensures var r := Strip(s);
      exists i :: 0 <= i <= |s| - |r| && r == s[i..i + |r|] && AllSpace(s[..i]) && AllSpace(s[i + |r|..])
    ensures var r := Strip(s);
      r == [] || (!IsSpace(r[0]) && !IsSpace(r[|r| - 1]))
  {
    var l := LStrip(s);
    SliceOfSlice(s, l, RStrip(l), |s| - |l|);
  }

  lemma SliceOfSlice(s: string, l: string, r: string, i: nat)
    requires i <= |s| && l == s[i..] && AllSpace(s[..i]) && (l == [] || !IsSpace(l[0]))
    requires |r| <= |l| && r == l[..|r|] && AllSpace(l[|r|..]) && (r == [] || !IsSpace(r[|r| - 1]))
    ensures i <= |s| - |r| && r == s[i..i + |r|] && AllSpace(s[..i]) && AllSpace(s[i + |r|..])
    ensures r == [] || (!IsSpace(r[0]) && !IsSpace(r[|r| - 1]))
  {
    assert s[i + |r|..] == l[|r|..];
  }

  /** `LStrip` removes exactly a leading run of white space. */
  lemma {:induction false} LStripExact(s: string, i: nat)
    requires i <= |s| && AllSpace(s[..i]) && (i == |s| || !IsSpace(s[i]))
    ensures LStrip(s) == s[i..]
  {
    if i > 0 {
      assert IsSpace(s[..i][0]);
      assert s[1..][..i - 1] == s[..i][1..];
      LStripExact(s[1..], i - 1);
      assert s[1..][i - 1..] == s[i..];
    }
  }

  /** `RStrip` removes exactly a trailing run of white space. */
  lemma {:induction false} RStripExact(s: string, j: nat)
    requires j <= |s| && AllSpace(s[j..]) && (j == 0 || !IsSpace(s[j - 1]))
    ensures RStrip(s) == s[..j]
  {
    if j < |s| {
      assert IsSpace(s[j..][|s| - 1 - j]);
      assert s[..|s| - 1][j..] == s[j..][..|s| - 1 - j];
      RStripExact(s[..|s| - 1], j);
      assert s[..|s| - 1][..j] == s[..j];
    }
  }

  /** `pat` occurs in `s` at index `i`. */
  predicate At(s: string, i: int, pat: string) {
    0 <= i && i + |pat| <= |s| && s[i..i + |pat|] == pat
  }

  /** The first occurrence of `pat` in `s` is at index `i`. */
  predicate FirstAt(s: string, i: int, pat: string) {
    At(s, i, pat) && forall j :: 0 <= j < i ==> !At(s, j, pat)
  }

  /** `s.find(pat)`: the lowest index at which `pat` occurs, or -1. */
  function Find(s: string, pat: string): (r: int)
    ensures -1 <= r
    ensures r == -1 <==> forall i :: !At(s, i, pat)
    ensures r >= 0 ==> At(s, r, pat) && forall i :: 0 <= i < r ==> !At(s, i, pat)
  {
    FindFrom(s, pat, 0)
  }

  /** The first occurrence is the one `Find` reports. */
  lemma FindIsFirst(s: string, pat: string)
    ensures forall i :: FirstAt(s, i, pat) ==> Find(s, pat) == i
  {
  }

  function FindFrom(s: string, pat: string, from: nat): (r: int)
    requires from <= |s|
    ensures -1 <= r
    ensures r == -1 <==> forall i :: from <= i ==> !At(s, i, pat)
    ensures r >= 0 ==> from <= r && At(s, r, pat) && forall i :: from <= i < r ==> !At(s, i, pat)
    decreases |s| - from
  {
    if At(s, from, pat) then from
    else if from == |s| then -1
    else FindFrom(s, pat, from + 1)
  }

  /** `s[k:]` for a non-negative `k`, which is empty past the end. */
  function Drop(s: string, k: nat): string {
    if k <= |s| then s[k..] else []
  }

  /** `s.endswith(suffix)`. */
  predicate EndsWith(s: string, suffix: string) {
    |suffix| <= |s| && s[|s| - |suffix|..] == suffix
  }

  /**
   * Length of the longest run of characters satisfying `keep` from index
   * `i`: the `\d+` and `[^)]+` parts of a regular expression, which are
   * greedy.
   */
  function RunLength(s: string, i: nat, keep: char -> bool): (k: nat)
    requires i <= |s|
    ensures i + k <= |s|
    ensures forall j :: i <= j < i + k ==> keep(s[j])
    ensures i + k == |s| || !keep(s[i + k])
    decreases |s| - i
  {
    if i < |s| && keep(s[i]) then 1 + RunLength(s, i + 1, keep) else 0
  }

  /**
   * A fixed-shape regular expression made of `\d` and literal characters,
   * written as a template where `d` stands for `\d`: `s` starts with a
   * string of that shape.
   */
  predicate FitsChar(c: char, t: char) {
    if t == 'd' then IsDigit(c) else c == t
  }

  function Fits(s: string, template: string): (b: bool)
    ensures b <==> |template| <= |s| && forall k :: 0 <= k < |template| ==> FitsChar(s[k], template[k])
  {
    if template == [] then true
    else if s == [] then false
    else
      FitsChar(s[0], template[0]) && Fits(s[1..], template[1..])
  }

  /** `s.split("\n")`: never empty, one more piece than there are newlines. */
  function Split(s: string): (parts: seq<string>)
    ensures |parts| >= 1
    ensures forall k :: 0 <= k < |parts| ==> '\n' !in parts[k]
  {
    if s == [] then [""]
    else
      var rest := Split(s[1..]);
      if s[0] == '\n' then [""] + rest
      else [[s[0]] + rest[0]] + rest[1..]
  }

  /** `"\n".join(parts)`. */
  function Join(parts: seq<string>): string
    requires |parts| >= 1
  {
    if |parts| == 1 then parts[0] else parts[0] + "\n" + Join(parts[1..])
  }

  /** Joining the pieces of a split gives back the text. */
  lemma {:induction false} JoinSplit(s: string)
    ensures Join(Split(s)) == s
  {
    if s != [] {
      var rest := Split(s[1..]);
      JoinSplit(s[1..]);
      if s[0] == '\n' {
        assert Split(s) == [""] + rest;
        assert Split(s)[1..] == rest;
        assert s == [s[0]] + s[1..];
      } else {
        var parts := Split(s);
        assert parts == [[s[0]] + rest[0]] + rest[1..];
        if |rest| == 1 {
          assert s == [s[0]] + rest[0];
        } else {
          assert parts[1..] == rest[1..];
          assert Join(rest) == rest[0] + "\n" + Join(rest[1..]);
          assert s == [s[0]] + s[1..];
        }
      }
    }
  }

  /** Splitting a join of newline-free pieces gives back the pieces. */
  lemma {:induction false} SplitJoin(parts: seq<string>)
    requires |parts| >= 1
    requires forall k :: 0 <= k < |parts| ==> '\n' !in parts[k]
    ensures Split(Join(parts)) == parts
  {
    if |parts| == 1 {
      SplitPiece(parts[0]);
    } else {
      SplitJoin(parts[1..]);
      SplitPrefix(parts[0], Join(parts[1..]));
      assert parts == [parts[0]] + parts[1..];
    }
  }

  lemma {:induction false} SplitPiece(p: string)
    requires '\n' !in p
    ensures Split(p) == [p]
  {
    if p != [] {
      SplitPiece(p[1..]);
      assert p == [p[0]] + p[1..];
    }
  }

  lemma {:induction false} SplitPrefix(p: string, tail: string)
    requires '\n' !in p
    ensures Split(p + "\n" + tail) == [p] + Split(tail)
  {
    if p == [] {
      assert p + "\n" + tail == "\n" + tail;
      assert ("\n" + tail)[1..] == tail;
    } else {
      SplitPrefix(p[1..], tail);
      assert (p + "\n" + tail)[1..] == p[1..] + "\n" + tail;
      assert p == [p[0]] + p[1..];
    }
  }
}
