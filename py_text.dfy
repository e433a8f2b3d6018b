/** The Python string and path operations the service relies on, for POSIX
    paths: `str.rfind`, `str.endswith`, `str.split('.')[0]`, `str(int)`,
    `os.path.join` with two arguments and `os.path.splitext`. */
module PyText {

  /** Index of the last occurrence of `c` in `s`, or -1 when there is none
      (`s.rfind(c)`). */
  function RFind(s: string, c: char): (i: int)
    ensures -1 <= i < |s|
    ensures 0 <= i ==> s[i] == c
    ensures forall j :: i < j < |s| ==> s[j] != c
  {
    if s == [] then -1
    else if s[|s| - 1] == c then |s| - 1
    else RFind(s[..|s| - 1], c)
  }

  predicate AllDots(s: string) {
    forall k :: 0 <= k < |s| ==> s[k] == '.'
  }

  /** `os.path.splitext(p)`: the extension is the text from the last '.' of
      the last path component on, unless everything before that '.' in the
      component is dots (a hidden file such as ".bashrc" has no extension). */
  function SplitExt(p: string): (r: (string, string))
    ensures r.0 + r.1 == p
    ensures r.1 == [] || (r.1[0] == '.' && '.' !in r.1[1..] && '/' !in r.1)
  {
    var sepIndex := RFind(p, '/');
    var dotIndex := RFind(p, '.');
    if dotIndex > sepIndex && !AllDots(p[sepIndex + 1..dotIndex]) then
      TailAfterLastDot(p, sepIndex, dotIndex);
      (p[..dotIndex], p[dotIndex..])
    else
      (p, "")
  }

  /** Where `splitext` splits: at the last '.', when that '.' lies in the last
      path component and something other than dots precedes it there;
      otherwise nowhere. Leading dots of the last component stay in the stem. */
  lemma SplitExtAtLastDot(p: string)
    ensures var sepIndex, dotIndex := RFind(p, '/'), RFind(p, '.');
            if dotIndex > sepIndex && !AllDots(p[sepIndex + 1..dotIndex])
            then SplitExt(p) == (p[..dotIndex], p[dotIndex..])
            else SplitExt(p) == (p, "")
    ensures SplitExt(p).1 != "" ==>
              exists k :: RFind(p, '/') < k < |SplitExt(p).0| && p[k] != '.'
  {
    var sepIndex, dotIndex := RFind(p, '/'), RFind(p, '.');
    if dotIndex > sepIndex && !AllDots(p[sepIndex + 1..dotIndex]) {
      var stem := p[..dotIndex];
      assert SplitExt(p) == (stem, p[dotIndex..]);
      var m :| 0 <= m < dotIndex - (sepIndex + 1) && p[sepIndex + 1..dotIndex][m] != '.';
      var k := sepIndex + 1 + m;
      assert sepIndex < k < |stem| && p[k] != '.';
    } else {
      assert SplitExt(p) == (p, "");
    }
  }

  /** The text from the last '.' on, when that '.' follows the last '/', is a
      single extension and completes the text before it to `p`. */
  lemma TailAfterLastDot(p: string, sepIndex: int, dotIndex: int)
    requires sepIndex == RFind(p, '/') && dotIndex == RFind(p, '.')
    requires sepIndex < dotIndex
    ensures p[..dotIndex] + p[dotIndex..] == p
    ensures p[dotIndex..][0] == '.' && '.' !in p[dotIndex..][1..] && '/' !in p[dotIndex..]
  {
    var ext := p[dotIndex..];
    assert p[..dotIndex] + ext == p;
    assert forall m :: 0 <= m < |ext| ==> ext[m] == p[dotIndex + m];
    assert forall m :: 0 <= m < |ext| - 1 ==> ext[1..][m] == p[dotIndex + 1 + m];
  }

  /** The stem of a non-empty path is non-empty and starts where the path
      does. */
  lemma StemKeepsFirstChar(p: string)
    requires |p| > 0
    ensures |SplitExt(p).0| > 0 && SplitExt(p).0[0] == p[0]
  {
    var sepIndex, dotIndex := RFind(p, '/'), RFind(p, '.');
    if dotIndex > sepIndex && !AllDots(p[sepIndex + 1..dotIndex]) {
      assert sepIndex + 1 < dotIndex;
    }
  }

  /** `os.path.join(a, b)` for POSIX paths: an absolute `b` replaces `a`, and a
      separator is inserted unless `a` is empty or already ends with one. */
  function Join(a: string, b: string): (r: string)
  {
    if |b| > 0 && b[0] == '/' then b
    else if a == "" || a[|a| - 1] == '/' then a + b
    else a + "/" + b
  }

  /** An absolute `b` is the whole result; otherwise the result starts with
      `a`. Either way it ends with `b`. */
  lemma JoinShape(a: string, b: string)
    ensures EndsWith(Join(a, b), b)
    ensures |b| > 0 && b[0] == '/' ==> Join(a, b) == b
    ensures !(|b| > 0 && b[0] == '/') ==> a <= Join(a, b)
  {
    var r := Join(a, b);
    assert r[|r| - |b|..] == b;
  }

  /** Joining the same relative directory to two names gives two paths that
      differ whenever the names differ. */
  lemma JoinInjective(a: string, b1: string, b2: string)
    requires |a| > 0 && a[0] != '/'
    requires Join(a, b1) == Join(a, b2)
    ensures b1 == b2
  {
    var j := Join(a, b1);
    if !(|b1| > 0 && b1[0] == '/') && !(|b2| > 0 && b2[0] == '/') {
      var n := if a[|a| - 1] == '/' then |a| else |a| + 1;
      assert j[n..] == b1;
      assert j[n..] == b2;
    }
  }

  /** `s.endswith(suffix)`. */
  predicate EndsWith(s: string, suffix: string)
  {
    |suffix| <= |s| && s[|s| - |suffix|..] == suffix
  }

  /** `endswith` compares the last `|suffix|` characters one by one. */
  lemma EndsWithChars(s: string, suffix: string)
    ensures EndsWith(s, suffix) <==>
              |suffix| <= |s| && forall i :: 0 <= i < |suffix| ==> s[|s| - |suffix| + i] == suffix[i]
  {
    if |suffix| <= |s| && forall i :: 0 <= i < |suffix| ==> s[|s| - |suffix| + i] == suffix[i] {
      assert s[|s| - |suffix|..] == suffix;
    }
  }

  /** `s.split('.')[0]`: everything before the first '.', or all of `s`. */
  function BeforeFirstDot(s: string): (r: string)
    ensures r <= s
    ensures '.' !in r
    ensures r == s || s[|r|] == '.'
  {
    if s == [] || s[0] == '.' then ""
    else [s[0]] + BeforeFirstDot(s[1..])
  }

  predicate IsDigit(c: char) {
    48 <= c as int <= 57
  }

  function DigitChar(d: nat): (c: char)
    requires d < 10
    ensures IsDigit(c) && c as int - 48 == d
  {
    (48 + d) as char
  }

  /** `str(n)` for a non-negative integer: its decimal digits, no leading zero. */
  function NatToStr(n: nat): (s: string)
    ensures |s| > 0
    ensures forall i :: 0 <= i < |s| ==> IsDigit(s[i])
    decreases n
  {
    if n < 10 then [DigitChar(n)] else NatToStr(n / 10) + [DigitChar(n % 10)]
  }

  /** The value of a string of decimal digits (Python's `int(s)`). */
  function ParseNat(s: string): nat
    requires forall i :: 0 <= i < |s| ==> IsDigit(s[i])
  {
    if s == [] then 0
    else
      assert IsDigit(s[|s| - 1]);
      10 * ParseNat(s[..|s| - 1]) + (s[|s| - 1] as int - 48)
  }

  lemma {:induction false} ParseNatToStr(n: nat)
    ensures ParseNat(NatToStr(n)) == n
    decreases n
  {
    if n >= 10 {
      var s := NatToStr(n);
      assert s[..|s| - 1] == NatToStr(n / 10);
      ParseNatToStr(n / 10);
    }
  }

  /** Different integers print differently. */
  lemma NatToStrInjective(a: nat, b: nat)
    requires a != b
    ensures NatToStr(a) != NatToStr(b)
  {
    ParseNatToStr(a);
    ParseNatToStr(b);
  }
}
