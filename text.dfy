/**
 * The Python `str` operations the quiz pipeline relies on, over `seq<char>`:
 * `strip`, `find`, `replace(old, "", 1)` and `lower`.
 */
module Text {
  import opened Wrappers

  /** Python's `str.isspace()`: the ASCII and Unicode whitespace characters. */
  predicate IsSpace(c: char) {
    var n := c as int;
    if n <= 0x20 then 0x09 <= n <= 0x0D || 0x1C <= n
    else
      || n == 0x85 || n == 0xA0 || n == 0x1680 || 0x2000 <= n <= 0x200A
      || n == 0x2028 || n == 0x2029 || n == 0x202F || n == 0x205F || n == 0x3000
  }

  /** The character set of `strip("```")`. */
  predicate IsBacktick(c: char) {
    c == '`'
  }

  /** Every character of `s` is one that `drop` selects. */
  predicate AllIn(s: string, drop: char -> bool) {
    forall k :: 0 <= k < |s| ==> drop(s[k])
  }

  /** Length of the longest prefix of `s` made only of characters `drop` selects. */
  function LeadingRun(s: string, drop: char -> bool): (n: nat)
    ensures n <= |s|
    ensures forall k :: 0 <= k < n ==> drop(s[k])
    ensures n == |s| || !drop(s[n])
  {
    if |s| > 0 && drop(s[0]) then LeadingRun(s[1..], drop) + 1 else 0
  }

  /** Length of the longest suffix of `s` made only of characters `drop` selects. */
  function TrailingRun(s: string, drop: char -> bool): (n: nat)
    ensures n <= |s|
    ensures forall k :: |s| - n <= k < |s| ==> drop(s[k])
    ensures n == |s| || !drop(s[|s| - 1 - n])
  {
    if |s| > 0 && drop(s[|s| - 1]) then TrailingRun(s[..|s| - 1], drop) + 1 else 0
  }

  /** Neither the first nor the last character of `s` is one that `drop` selects. */
  predicate Trimmed(s: string, drop: char -> bool) {
    s == [] || (!drop(s[0]) && !drop(s[|s| - 1]))
  }

  /** Python's `s.strip(chars)`: the result neither starts nor ends with a dropped character. */
  function Strip(s: string, drop: char -> bool): (r: string)
    ensures Trimmed(r, drop)
  {
    var t := s[LeadingRun(s, drop)..];
    t[..|t| - TrailingRun(t, drop)]
  }

  /**
   * `Strip` removes only characters `drop` selects, and only at the ends: its result
   * is the slice `s[i..j]` of the input, where everything before `i` and
   * everything from `j` on is a dropped character.
   */
  lemma StripIsTrim(s: string, drop: char -> bool)
    ensures exists i, j :: 0 <= i <= j <= |s| && Strip(s, drop) == s[i..j] && AllIn(s[..i], drop) && AllIn(s[j..], drop)
  {
    var i, j := StripBounds(s, drop);
  }

  /** The bounds of the slice `Strip` keeps. */
  lemma StripBounds(s: string, drop: char -> bool) returns (i: nat, j: nat)
    ensures i <= j <= |s| && Strip(s, drop) == s[i..j] && AllIn(s[..i], drop) && AllIn(s[j..], drop)
  {
    i := LeadingRun(s, drop);
    var t := s[i..];
    j := |s| - TrailingRun(t, drop);
    assert t[..j - i] == s[i..j];
    forall k | 0 <= k < |s| - j
      ensures drop(s[j..][k])
    {
      assert s[j..][k] == t[j - i + k];
    }
  }

  /** A string whose ends are not selected by `drop` is left alone by `Strip`. */
  lemma StripUntrimmed(s: string, drop: char -> bool)
    requires Trimmed(s, drop)
    ensures Strip(s, drop) == s
  {
    assert s[0..] == s;
    assert s[..|s|] == s;
  }

  /** Characters `drop` selects in front of a string are all removed by `Strip`. */
  lemma {:induction false} StripDropsPrefix(p: string, s: string, drop: char -> bool)
    requires AllIn(p, drop)
    requires s != [] && !drop(s[0])
    ensures Strip(p + s, drop) == Strip(s, drop)
  {
    var ps := p + s;
    assert ps[|p|] == s[0];
    assert LeadingRun(ps, drop) == |p|;
    assert LeadingRun(s, drop) == 0;
    assert ps[|p|..] == s;
  }

  /** Characters `drop` selects behind a string are all removed by `Strip`. */
  lemma {:induction false} StripDropsSuffix(s: string, p: string, drop: char -> bool)
    requires AllIn(p, drop)
    requires s != [] && !drop(s[0]) && !drop(s[|s| - 1])
    ensures Strip(s + p, drop) == s
  {
    var sp := s + p;
    assert LeadingRun(sp, drop) == 0;
    assert sp[0..] == sp;
    assert sp[|sp| - 1 - |p|] == s[|s| - 1];
    assert TrailingRun(sp, drop) == |p|;
    assert sp[..|sp| - |p|] == s;
  }

  /** `pat` occurs in `s` starting at index `k`. */
  predicate OccursAt(s: string, pat: string, k: int) {
    0 <= k && k + |pat| <= |s| && StartsWith(s[k..], pat)
  }

  /** `s` begins with `pat`, compared character by character. */
  predicate StartsWith(s: string, pat: string) {
    pat == [] || (s != [] && s[0] == pat[0] && StartsWith(s[1..], pat[1..]))
  }

  /** `StartsWith` holds exactly when the first `|pat|` characters of `s` are `pat`. */
  lemma {:induction false} StartsWithIff(s: string, pat: string)
    ensures StartsWith(s, pat) <==> |pat| <= |s| && s[..|pat|] == pat
  {
    if pat != [] && s != [] {
      StartsWithIff(s[1..], pat[1..]);
      assert pat == [pat[0]] + pat[1..];
      if |pat| <= |s| {
        assert s[..|pat|] == [s[0]] + s[1..][..|pat| - 1];
      }
    }
  }

  /** `pat` occurs at `k` exactly when the slice of `s` starting at `k` is `pat`. */
  lemma OccursAtIff(s: string, pat: string, k: int)
    ensures OccursAt(s, pat, k) <==> 0 <= k && k + |pat| <= |s| && s[k..k + |pat|] == pat
  {
    if 0 <= k <= |s| {
      StartsWithIff(s[k..], pat);
      if k + |pat| <= |s| {
        assert s[k..][..|pat|] == s[k..k + |pat|];
      }
    }
  }

  /** Python's `s.find(pat, i)`: the first index at or after `i` where `pat` occurs. */
  function FindFrom(s: string, pat: string, i: nat): (r: Option<nat>)
    requires i <= |s|
    decreases |s| - i
    ensures r.Some? ==> i <= r.value && OccursAt(s, pat, r.value)
    ensures r.Some? ==> forall k :: i <= k < r.value ==> !OccursAt(s, pat, k)
    ensures r.None? ==> forall k :: i <= k <= |s| ==> !OccursAt(s, pat, k)
  {
    if OccursAt(s, pat, i) then Some(i)
    else if i == |s| then None
    else FindFrom(s, pat, i + 1)
  }

  function Find(s: string, pat: string): Option<nat> {
    FindFrom(s, pat, 0)
  }

  /** A pattern longer than the text is not found. */
  lemma FindTooLong(s: string, pat: string)
    requires |s| < |pat|
    ensures Find(s, pat).None?
  {
    var r := Find(s, pat);
    if r.Some? {
      OccursAtIff(s, pat, r.value);
    }
  }

  /** A text that starts with the pattern finds it at index 0. */
  lemma FindAtStart(s: string, pat: string)
    requires OccursAt(s, pat, 0)
    ensures Find(s, pat) == Some(0)
  {
  }

  /**
   * Python's `s.replace(pat, "", 1)`: deletes the first occurrence of `pat`,
   * keeps everything before and after it, and is the identity when `pat` does not occur.
   */
  function RemoveFirst(s: string, pat: string): (r: string)
    ensures Find(s, pat).None? ==> r == s
    ensures Find(s, pat).Some? ==> |r| == |s| - |pat|
    ensures Find(s, pat).Some? ==>
      var k := Find(s, pat).value;
      r[..k] == s[..k] && r[k..] == s[k + |pat|..]
  {
    match Find(s, pat)
    case None => s
    case Some(k) => s[..k] + s[k + |pat|..]
  }

  /**
   * Only the first occurrence is removed: every occurrence of `pat` that starts
   * after the removed one is still in the result, shifted left by `|pat|`.
   */
  lemma LaterOccurrencesKept(s: string, pat: string, j: int)
    requires Find(s, pat).Some?
    requires OccursAt(s, pat, j) && j >= Find(s, pat).value + |pat|
    ensures OccursAt(RemoveFirst(s, pat), pat, j - |pat|)
  {
    var k := Find(s, pat).value;
    var r := RemoveFirst(s, pat);
    OccursAtIff(s, pat, k);
    OccursAtIff(s, pat, j);
    OccursAtIff(r, pat, j - |pat|);
    assert r[k..] == s[k + |pat|..];
    assert r[j - |pat|..j] == r[k..][j - |pat| - k..j - k];
    assert s[j..j + |pat|] == s[k + |pat|..][j - k - |pat|..j - k];
  }

  /** Python's `str.lower()` on one character, restricted to ASCII letters. */
  function LowerChar(c: char): (d: char)
    ensures 'A' <= c <= 'Z' ==> 'a' <= d <= 'z' && d as int == c as int + 32
    ensures !('A' <= c <= 'Z') ==> d == c
  {
    if 'A' <= c <= 'Z' then (c as int + 32) as char else c
  }

  /** Python's `s.lower()`: the same length, each character lower-cased. */
  function Lower(s: string): (r: string)
    ensures |r| == |s|
    ensures forall k :: 0 <= k < |s| ==> r[k] == LowerChar(s[k])
  {
    if s == [] then [] else [LowerChar(s[0])] + Lower(s[1..])
  }

  /** Lower-casing twice is lower-casing once. */
  lemma LowerIdempotent(s: string)
    ensures Lower(Lower(s)) == Lower(s)
  {
    var once := Lower(s);
    assert forall k :: 0 <= k < |s| ==> Lower(once)[k] == once[k];
  }
}
