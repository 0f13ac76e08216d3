/**
 * The handful of Python string operations the parsers and lookups use:
 * `str.replace(c, '')` for a one-character pattern, `str.strip()`,
 * `str.endswith(c)`, `str.lower()` and substring containment, and the
 * narrower trimming `float()` does before it reads a number.
 * Characters are treated as ASCII: Unicode whitespace and case mapping
 * outside ASCII are not modelled.
 */
module Text {

  /**
   * Python's `str.isspace()` on the ASCII range: space, tab, line feed,
   * vertical tab, form feed, carriage return and the four separators
   * `\x1c`–`\x1f`.
   */
  predicate IsSpace(c: char) {
    c == ' ' || '\U{0009}' <= c <= '\U{000D}' || '\U{001C}' <= c <= '\U{001F}'
  }

  /**
   * C's `isspace()` in the default locale: space, tab, line feed, vertical
   * tab, form feed and carriage return. This is the whitespace `float()`
   * skips around a number; unlike `str.isspace()` it leaves out `\x1c`–`\x1f`.
   */
  predicate IsCSpace(c: char) {
    c == ' ' || '\U{0009}' <= c <= '\U{000D}'
  }

  /** `s.replace(c, '')`: every occurrence of `c` is dropped, nothing else changes. */
  function RemoveChar(s: string, c: char): (r: string)
    ensures c !in r
    ensures |r| <= |s|
  {
    if s == [] then []
    else
      assert s == [s[0]] + s[1..];
      (if s[0] == c then [] else [s[0]]) + RemoveChar(s[1..], c)
  }

  /** Removing a character distributes over concatenation, so it keeps the order of what it keeps. */
  lemma {:induction false} RemoveCharAppend(a: string, b: string, c: char)
    ensures RemoveChar(a + b, c) == RemoveChar(a, c) + RemoveChar(b, c)
  {
    if a == [] {
      assert a + b == b;
    } else {
      var head := if a[0] == c then [] else [a[0]];
      assert (a + b)[0] == a[0];
      assert (a + b)[1..] == a[1..] + b;
      assert RemoveChar(a + b, c) == head + RemoveChar(a[1..] + b, c);
      assert RemoveChar(a, c) == head + RemoveChar(a[1..], c);
      RemoveCharAppend(a[1..], b, c);
    }
  }

  /** A string that does not contain `c` is left as it is. */
  lemma {:induction false} RemoveCharAbsent(s: string, c: char)
    requires c !in s
    ensures RemoveChar(s, c) == s
  {
    if s != [] {
      assert c !in s[1..];
      RemoveCharAbsent(s[1..], c);
      assert s == [s[0]] + s[1..];
    }
  }

  /** Removing a character twice is removing it once. */
  lemma RemoveCharIdempotent(s: string, c: char)
    ensures RemoveChar(RemoveChar(s, c), c) == RemoveChar(s, c)
  {
    RemoveCharAbsent(RemoveChar(s, c), c);
  }

  /** Every other character is kept, as often as it occurs. */
  lemma {:induction false} RemoveCharCounts(s: string, c: char, x: char)
    requires x != c
    ensures multiset(RemoveChar(s, c))[x] == multiset(s)[x]
  {
    if s != [] {
      assert s == [s[0]] + s[1..];
      RemoveCharCounts(s[1..], c, x);
    }
  }

  /** Every other character survives the removal. */
  lemma RemoveCharKeeps(s: string, c: char, x: char)
    requires x != c && x in s
    ensures x in RemoveChar(s, c)
  {
    assert x in multiset(s);
    RemoveCharCounts(s, c, x);
  }

  /** The order in which two characters are removed does not matter. */
  lemma {:induction false} RemoveCharCommute(s: string, a: char, b: char)
    ensures RemoveChar(RemoveChar(s, a), b) == RemoveChar(RemoveChar(s, b), a)
  {
    if s != [] {
      var h := [s[0]];
      assert s == h + s[1..];
      RemoveCharAppend(h, s[1..], a);
      RemoveCharAppend(h, s[1..], b);
      RemoveCharAppend(RemoveChar(h, a), RemoveChar(s[1..], a), b);
      RemoveCharAppend(RemoveChar(h, b), RemoveChar(s[1..], b), a);
      RemoveCharCommute(s[1..], a, b);
    }
  }

  /** `s.lstrip()`: drops the leading whitespace and nothing else. */
  function StripLeft(s: string): (r: string)
    ensures |r| <= |s| && r == s[|s| - |r|..]
    ensures forall k | 0 <= k < |s| - |r| :: IsSpace(s[k])
    ensures r != [] ==> !IsSpace(r[0])
  {
    if s != [] && IsSpace(s[0]) then StripLeft(s[1..]) else s
  }

  /** `s.rstrip()`: drops the trailing whitespace and nothing else. */
  function StripRight(s: string): (r: string)
    ensures |r| <= |s| && r == s[..|r|]
    ensures forall k | |r| <= k < |s| :: IsSpace(s[k])
    ensures r != [] ==> !IsSpace(r[|r| - 1])
  {
    if s != [] && IsSpace(s[|s| - 1]) then StripRight(s[..|s| - 1]) else s
  }

  /** `s.strip()`: neither end of the result is whitespace. */
  function Strip(s: string): (r: string)
    ensures r != [] ==> !IsSpace(r[0]) && !IsSpace(r[|r| - 1])
  {
    StripRight(StripLeft(s))
  }

  /** The information separators count as whitespace, as they do for `str.strip()`. */
  lemma StripSeparators()
    ensures Strip("\U{001C}7\U{001F}") == "7"
  {
    assert StripLeft("\U{001C}7\U{001F}") == "7\U{001F}";
    assert "7\U{001F}"[..1] == "7";
  }

  /** A leading separator is stripped. */
  lemma StripLeadingSeparator()
    ensures Strip("\U{001C}5") == "5"
  {
    assert StripLeft("\U{001C}5") == "5";
  }

  /** Stripping keeps every character that is not whitespace. */
  lemma StripKeeps(s: string, k: nat)
    requires k < |s| && !IsSpace(s[k])
    ensures s[k] in Strip(s)
  {
    var left := StripLeft(s);
    var d := |s| - |left|;
    assert d <= k;
    assert left[k - d] == s[k];
    var r := StripRight(left);
    assert k - d < |r|;
    assert r[k - d] == s[k];
  }

  /** A slice holds no character its sequence does not. */
  lemma SliceOmits(s: string, i: nat, j: nat, c: char)
    requires i <= j <= |s| && c !in s
    ensures c !in s[i..j]
  {
    assert forall m | 0 <= m < j - i :: s[i..j][m] == s[i + m];
  }

  /** Stripping adds no character. */
  lemma StripOmits(s: string, c: char)
    requires c !in s
    ensures c !in Strip(s)
  {
    var left := StripLeft(s);
    SliceOmits(s, |s| - |left|, |s|, c);
    SliceOmits(left, 0, |StripRight(left)|, c);
  }

  /** Text with no whitespace at either end is its own strip. */
  lemma StripUnpadded(s: string)
    requires s != [] ==> !IsSpace(s[0]) && !IsSpace(s[|s| - 1])
    ensures Strip(s) == s
  {
  }

  /** Whitespace added on either side is stripped again. */
  lemma {:induction false} StripPadded(lead: string, s: string, trail: string)
    requires forall k | 0 <= k < |lead| :: IsSpace(lead[k])
    requires forall k | 0 <= k < |trail| :: IsSpace(trail[k])
    requires s != [] && !IsSpace(s[0]) && !IsSpace(s[|s| - 1])
    ensures Strip(lead + s + trail) == s
  {
    StripLeftPadded(lead, s + trail);
    assert lead + s + trail == lead + (s + trail);
    StripRightPadded(s, trail);
  }

  lemma {:induction false} StripLeftPadded(lead: string, s: string)
    requires forall k | 0 <= k < |lead| :: IsSpace(lead[k])
    requires s != [] ==> !IsSpace(s[0])
    ensures StripLeft(lead + s) == s
  {
    if lead != [] {
      assert (lead + s)[1..] == lead[1..] + s;
      StripLeftPadded(lead[1..], s);
    } else {
      assert lead + s == s;
    }
  }

  lemma {:induction false} StripRightPadded(s: string, trail: string)
    requires forall k | 0 <= k < |trail| :: IsSpace(trail[k])
    requires s != [] ==> !IsSpace(s[|s| - 1])
    ensures StripRight(s + trail) == s
  {
    if trail != [] {
      var t := trail[..|trail| - 1];
      assert (s + trail)[..|s + trail| - 1] == s + t;
      StripRightPadded(s, t);
    } else {
      assert s + trail == s;
    }
  }

  /** The leading C whitespace of `s` dropped, as `float()` skips it. */
  function TrimLeft(s: string): (r: string)
    ensures |r| <= |s| && r == s[|s| - |r|..]
    ensures forall k | 0 <= k < |s| - |r| :: IsCSpace(s[k])
    ensures r != [] ==> !IsCSpace(r[0])
  {
    if s != [] && IsCSpace(s[0]) then TrimLeft(s[1..]) else s
  }

  /** The trailing C whitespace of `s` dropped, as `float()` skips it. */
  function TrimRight(s: string): (r: string)
    ensures |r| <= |s| && r == s[..|r|]
    ensures forall k | |r| <= k < |s| :: IsCSpace(s[k])
    ensures r != [] ==> !IsCSpace(r[|r| - 1])
  {
    if s != [] && IsCSpace(s[|s| - 1]) then TrimRight(s[..|s| - 1]) else s
  }

  /** The text `float()` reads a number from: C whitespace dropped at both ends. */
  function Trim(s: string): (r: string)
    ensures r != [] ==> !IsCSpace(r[0]) && !IsCSpace(r[|r| - 1])
  {
    TrimRight(TrimLeft(s))
  }

  /** Trimming keeps every character that is not C whitespace. */
  lemma TrimKeeps(s: string, k: nat)
    requires k < |s| && !IsCSpace(s[k])
    ensures s[k] in Trim(s)
  {
    var left := TrimLeft(s);
    var d := |s| - |left|;
    assert d <= k;
    assert left[k - d] == s[k];
    var r := TrimRight(left);
    assert k - d < |r|;
    assert r[k - d] == s[k];
  }

  /** Text with no C whitespace at either end is its own trim. */
  lemma TrimUnpadded(s: string)
    requires s != [] ==> !IsCSpace(s[0]) && !IsCSpace(s[|s| - 1])
    ensures Trim(s) == s
  {
  }

  /**
   * Where the trimmed text starts and ends with a character that is not
   * whitespace at all, `str.strip()` removes exactly what `float()` skips.
   */
  lemma StripAgreesWithTrim(s: string)
    requires Trim(s) != [] && !IsSpace(Trim(s)[0]) && !IsSpace(Trim(s)[|Trim(s)| - 1])
    ensures Strip(s) == Trim(s)
  {
    var left := TrimLeft(s);
    var w := TrimRight(left);
    assert left[0] == w[0];
    StripLeftAgrees(s);
    StripRightAgrees(left);
  }

  lemma {:induction false} StripLeftAgrees(s: string)
    requires TrimLeft(s) != [] && !IsSpace(TrimLeft(s)[0])
    ensures StripLeft(s) == TrimLeft(s)
  {
    if s != [] && IsCSpace(s[0]) {
      StripLeftAgrees(s[1..]);
    }
  }

  lemma {:induction false} StripRightAgrees(s: string)
    requires TrimRight(s) != [] && !IsSpace(TrimRight(s)[|TrimRight(s)| - 1])
    ensures StripRight(s) == TrimRight(s)
  {
    if s != [] && IsCSpace(s[|s| - 1]) {
      StripRightAgrees(s[..|s| - 1]);
    }
  }

  /** C whitespace added on either side is trimmed again. */
  lemma {:induction false} TrimPadded(lead: string, s: string, trail: string)
    requires forall k | 0 <= k < |lead| :: IsCSpace(lead[k])
    requires forall k | 0 <= k < |trail| :: IsCSpace(trail[k])
    requires s != [] && !IsCSpace(s[0]) && !IsCSpace(s[|s| - 1])
    ensures Trim(lead + s + trail) == s
  {
    TrimLeftPadded(lead, s + trail);
    assert lead + s + trail == lead + (s + trail);
    TrimRightPadded(s, trail);
  }

  lemma {:induction false} TrimLeftPadded(lead: string, s: string)
    requires forall k | 0 <= k < |lead| :: IsCSpace(lead[k])
    requires s != [] ==> !IsCSpace(s[0])
    ensures TrimLeft(lead + s) == s
  {
    if lead != [] {
      assert (lead + s)[1..] == lead[1..] + s;
      TrimLeftPadded(lead[1..], s);
    } else {
      assert lead + s == s;
    }
  }

  lemma {:induction false} TrimRightPadded(s: string, trail: string)
    requires forall k | 0 <= k < |trail| :: IsCSpace(trail[k])
    requires s != [] ==> !IsCSpace(s[|s| - 1])
    ensures TrimRight(s + trail) == s
  {
    if trail != [] {
      var t := trail[..|trail| - 1];
      assert (s + trail)[..|s + trail| - 1] == s + t;
      TrimRightPadded(s, t);
    } else {
      assert s + trail == s;
    }
  }

  /** `s.endswith(c)` for a one-character suffix. */
  predicate EndsWith(s: string, c: char) {
    |s| > 0 && s[|s| - 1] == c
  }

  /** `c.lower()` on the ASCII range. */
  function LowerChar(c: char): char {
    if 'A' <= c <= 'Z' then (c as int - 'A' as int + 'a' as int) as char else c
  }

  /** `s.lower()`, character by character. */
  function Lower(s: string): (r: string)
    ensures |r| == |s|
    ensures forall k | 0 <= k < |s| :: r[k] == LowerChar(s[k])
  {
    if s == [] then [] else [LowerChar(s[0])] + Lower(s[1..])
  }

  /** Lower-casing is idempotent: `s.lower().lower() == s.lower()`. */
  lemma LowerIdempotent(s: string)
    ensures Lower(Lower(s)) == Lower(s)
  {
    assert forall k | 0 <= k < |s| :: LowerChar(LowerChar(s[k])) == LowerChar(s[k]);
  }

  /** Does `p` occur in `s` starting at position `k`? */
  predicate OccursAt(s: string, p: string, k: int) {
    0 <= k && k + |p| <= |s| && s[k..k + |p|] == p
  }

  /** An occurrence in the tail is an occurrence one position further in the whole. */
  lemma OccursShift(s: string, p: string, k: int)
    requires s != [] && 0 <= k
    ensures OccursAt(s[1..], p, k) <==> OccursAt(s, p, k + 1)
  {
    if 0 <= k && k + |p| <= |s| - 1 {
      assert s[1..][k..k + |p|] == s[k + 1..k + 1 + |p|];
    }
  }

  /** `p in s`: literal substring containment (the empty pattern occurs everywhere). */
  function Contains(s: string, p: string): (r: bool)
    ensures r <==> exists k :: OccursAt(s, p, k)
  {
    if |p| <= |s| && s[..|p|] == p then
      assert OccursAt(s, p, 0);
      true
    else if s == [] then
      assert forall k :: !OccursAt(s, p, k);
      false
    else
      var tail := Contains(s[1..], p);
      assert tail ==> exists k :: OccursAt(s, p, k) by {
        if tail {
          var k :| OccursAt(s[1..], p, k);
          OccursShift(s, p, k);
        }
      }
      assert (exists k :: OccursAt(s, p, k)) ==> tail by {
        if exists k :: OccursAt(s, p, k) {
          var k :| OccursAt(s, p, k);
          assert k != 0;
          OccursShift(s, p, k - 1);
        }
      }
      tail
  }
}
