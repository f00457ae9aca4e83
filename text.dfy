/**
 * The few Python `str` operations the core relies on: `isspace`, `strip`,
 * `startswith`, `endswith`, `lower` (restricted to ASCII, which is
 * all the suffix tests of the extractor can observe) and `"".join`.
 */
module Text {

  /** Python's `str.isspace` for one character: the full Unicode list. */
  predicate IsSpace(c: char) {
    var n := c as int;
    (9 <= n <= 13) || (28 <= n <= 32) || n == 0x85 || n == 0xA0 || n == 0x1680
    || (0x2000 <= n <= 0x200A) || n == 0x2028 || n == 0x2029 || n == 0x202F
    || n == 0x205F || n == 0x3000
  }

  /** Every character is whitespace; Python's `not s.strip()`. */
  predicate IsBlank(s: string) {
    forall i :: 0 <= i < |s| ==> IsSpace(s[i])
  }

  /** Neither end of `s` is whitespace. */
  predicate IsStripped(s: string) {
    s == [] || (!IsSpace(s[0]) && !IsSpace(s[|s| - 1]))
  }

  /** The first position at or after `i` that does not hold whitespace (or `|s|`). */
  function SkipSpaces(s: string, i: nat): (r: nat)
    requires i <= |s|
    ensures i <= r <= |s|
    ensures forall k :: i <= k < r ==> IsSpace(s[k])
    ensures r < |s| ==> !IsSpace(s[r])
    decreases |s| - i
  {
    if i < |s| && IsSpace(s[i]) then SkipSpaces(s, i + 1) else i
  }

  /**
   * Walking back from `j`, not below `lo`: the end of the last character
   * before `j` that is not whitespace (or `lo`).
   */
  function SkipSpacesBack(s: string, j: nat, lo: nat): (r: nat)
    requires lo <= j <= |s|
    ensures lo <= r <= j
    ensures forall k :: r <= k < j ==> IsSpace(s[k])
    ensures r > lo ==> !IsSpace(s[r - 1])
    decreases j
  {
    if j > lo && IsSpace(s[j - 1]) then SkipSpacesBack(s, j - 1, lo) else j
  }

  /** The properties of `SkipSpacesBack` determine its result. */
  lemma {:induction false} SkipSpacesBackUnique(s: string, j: nat, lo: nat, r: nat)
    requires lo <= r <= j <= |s|
    requires forall k :: r <= k < j ==> IsSpace(s[k])
    requires r > lo ==> !IsSpace(s[r - 1])
    ensures SkipSpacesBack(s, j, lo) == r
    decreases j
  {
    if j > r {
      SkipSpacesBackUnique(s, j - 1, lo, r);
    }
  }

  /**
   * The longest prefix of `s` not ending in whitespace: a step towards
   * `Strip`, and the shape of the error string's message.
   */
  function TrimRight(s: string): (r: string)
    ensures |r| <= |s| && r == s[..|r|]
    ensures IsBlank(s[|r|..])
    ensures r == [] || !IsSpace(r[|r| - 1])
  {
    var b := SkipSpacesBack(s, |s|, 0);
    assert IsBlank(s[b..]);
    s[..b]
  }

  /**
   * Python's `s.strip()`: `s` with its leading and trailing whitespace cut
   * off. The result has no whitespace at either end, it is what lies between
   * a blank run at the front and one at the back, and it is empty exactly
   * when `s` is blank.
   */
  function Strip(s: string): (r: string)
    ensures IsStripped(r)
    ensures r == [] <==> IsBlank(s)
    ensures var a := SkipSpaces(s, 0);
      a + |r| <= |s| && r == s[a..a + |r|]
      && IsBlank(s[..a]) && IsBlank(s[a + |r|..])
  {
    var a := SkipSpaces(s, 0);
    var b := SkipSpacesBack(s, |s|, a);
    assert IsBlank(s[..a]) && IsBlank(s[b..]);
    assert a == b ==> IsBlank(s);
    s[a..b]
  }

  predicate StartsWith(s: string, prefix: string) {
    |prefix| <= |s| && s[..|prefix|] == prefix
  }

  predicate EndsWith(s: string, suffix: string) {
    |suffix| <= |s| && s[|s| - |suffix|..] == suffix
  }

  /** A string whose first character is not whitespace is not blank, nor is anything it opens. */
  lemma OpeningNotBlank(p: string, m: string)
    requires p != [] && !IsSpace(p[0])
    ensures !IsBlank(p) && !IsBlank(p + m)
  {
    assert (p + m)[0] == p[0];
  }

  lemma AppendAssoc(a: string, b: string, c: string)
    ensures (a + b) + c == a + (b + c)
  {
  }

  lemma StartsWithSelf(s: string)
    ensures StartsWith(s, s)
  {
    assert s[..|s|] == s;
  }

  /** A concatenation opens with its first part. */
  lemma StartsWithFirst(a: string, b: string)
    ensures StartsWith(a + b, a)
  {
    assert (a + b)[..|a|] == a;
  }

  /** A string opening with `a + b` opens with `a`. */
  lemma StartsWithShorter(s: string, a: string, b: string)
    requires StartsWith(s, a + b)
    ensures StartsWith(s, a)
  {
    assert s[..|a|] == (a + b)[..|a|];
  }

  function LowerChar(c: char): char {
    if 'A' <= c <= 'Z' then (c as int + 32) as char else c
  }

  /** Python's `s.lower()` on the ASCII letters; other characters are kept. */
  function Lower(s: string): string {
    seq(|s|, i requires 0 <= i < |s| => LowerChar(s[i]))
  }

  /** Python's `"".join(xs)`. */
  function Concat(xs: seq<string>): string {
    if xs == [] then "" else xs[0] + Concat(xs[1..])
  }

  /** A string that already has no whitespace at either end is its own strip. */
  lemma {:induction false} StripStripped(s: string)
    requires IsStripped(s)
    ensures Strip(s) == s
  {
    if s != [] {
      SkipSpacesBackUnique(s, |s|, 0, |s|);
      assert s[0..|s|] == s;
    }
  }

  /** Stripping twice is stripping once. */
  lemma StripIdempotent(s: string)
    ensures Strip(Strip(s)) == Strip(s)
  {
    StripStripped(Strip(s));
  }

  /**
   * Stripping a word, a space and a message gives the word alone when the
   * message is blank, and otherwise the word, the space and the message
   * without its trailing whitespace.
   */
  lemma StripAfterWord(w: string, m: string)
    requires w != [] && IsStripped(w)
    ensures Strip(w + " " + m) == if IsBlank(m) then w else w + " " + TrimRight(m)
  {
    var p := w + " ";
    assert p[0] == w[0];
    StripAfterPrefix(p, m);
    if IsBlank(m) {
      assert p[|w|] == ' ';
      assert p[|w| - 1] == w[|w| - 1];
      SkipSpacesBackUnique(p, |p|, 0, |w|);
      assert p[..|w|] == w;
    }
  }

  /**
   * A prefix with no whitespace at either end survives stripping: the
   * stripped string still opens with it.
   */
  lemma StripKeepsOpening(p: string, m: string)
    requires p != [] && IsStripped(p)
    ensures StartsWith(Strip(p + m), p)
  {
    StripAfterPrefix(p, m);
    if IsBlank(m) {
      SkipSpacesBackUnique(p, |p|, 0, |p|);
      assert p[..|p|] == p;
    } else {
      assert (p + TrimRight(m))[..|p|] == p;
    }
  }

  /**
   * Stripping a string that opens with a non-space prefix `p` keeps `p`
   * intact, unless everything after it is whitespace.
   */
  lemma {:induction false} StripAfterPrefix(p: string, m: string)
    requires p != [] && !IsSpace(p[0])
    ensures Strip(p + m) == if IsBlank(m) then TrimRight(p) else p + TrimRight(m)
  {
    var s := p + m;
    assert s[0] == p[0];
    assert SkipSpaces(s, 0) == 0;
    if IsBlank(m) {
      var rp := SkipSpacesBack(p, |p|, 0);
      forall k | rp <= k < |s| ensures IsSpace(s[k]) {
        if k < |p| { assert s[k] == p[k]; } else { assert s[k] == m[k - |p|]; }
      }
      assert rp > 0 ==> s[rp - 1] == p[rp - 1];
      SkipSpacesBackUnique(s, |s|, 0, rp);
      assert s[0..rp] == p[..rp];
    } else {
      var rm := SkipSpacesBack(m, |m|, 0);
      assert rm == 0 ==> IsBlank(m);
      forall k | |p| + rm <= k < |s| ensures IsSpace(s[k]) {
        assert s[k] == m[k - |p|];
      }
      assert s[|p| + rm - 1] == m[rm - 1];
      SkipSpacesBackUnique(s, |s|, 0, |p| + rm);
      assert s[0..|p| + rm] == p + m[..rm];
    }
  }
}
