/** The two string operations of Python's `str` that the core relies on:
    `strip()` with no argument and `replace(old, "")`. */
module Text {

  /** Python's whitespace test for `str.strip()`: U+0009..U+000D, U+001C..U+0020,
      U+0085, U+00A0, U+1680, U+2000..U+200A, U+2028, U+2029, U+202F, U+205F, U+3000. */
  predicate IsSpace(c: char)
    ensures c == ' ' || '\t' <= c <= '\r' ==> IsSpace(c)
    ensures IsSpace(c) ==> !('0' <= c <= '9') && !('A' <= c <= 'Z') && !('a' <= c <= 'z')
  {
    var n := c as int;
    (0x09 <= n <= 0x0D) || (0x1C <= n <= 0x20) || n == 0x85 || n == 0xA0 ||
    n == 0x1680 || (0x2000 <= n <= 0x200A) || n == 0x2028 || n == 0x2029 ||
    n == 0x202F || n == 0x205F || n == 0x3000
  }

  /** Every character of `s` is whitespace. */
  predicate AllSpace(s: string)
  {
    forall i :: 0 <= i < |s| ==> IsSpace(s[i])
  }

  /** `s.lstrip()`: `s` without its leading whitespace. */
  function TrimStart(s: string): (r: string)
    ensures |r| <= |s|
  {
    if s != [] && IsSpace(s[0]) then TrimStart(s[1..]) else s
  }

  /** `s.rstrip()`: `s` without its trailing whitespace. */
  function TrimEnd(s: string): (r: string)
    ensures |r| <= |s|
  {
    if s != [] && IsSpace(s[|s| - 1]) then TrimEnd(s[..|s| - 1]) else s
  }

  /** `s.strip()`: `s` without its leading and trailing whitespace. */
  function Strip(s: string): (r: string)
    ensures |r| <= |s|
    ensures s == [] || (!IsSpace(s[0]) && !IsSpace(s[|s| - 1])) ==> r == s
  {
    TrimEnd(TrimStart(s))
  }

  /** `TrimStart` removes a whitespace run, and the rest does not start with whitespace. */
  lemma {:induction false} TrimStartSplit(s: string) returns (lead: string)
    ensures s == lead + TrimStart(s) && AllSpace(lead)
    ensures TrimStart(s) == [] || !IsSpace(TrimStart(s)[0])
  {
    if s != [] && IsSpace(s[0]) {
      var rest := TrimStartSplit(s[1..]);
      lead := [s[0]] + rest;
      assert TrimStart(s) == TrimStart(s[1..]);
      assert s == [s[0]] + rest + TrimStart(s[1..]);
      assert AllSpace(lead) by {
        forall i | 0 <= i < |lead| ensures IsSpace(lead[i]) {
          if i > 0 { assert lead[i] == rest[i - 1]; }
        }
      }
    } else {
      lead := [];
    }
  }

  /** `TrimEnd` removes a whitespace run, and the rest does not end with whitespace. */
  lemma {:induction false} TrimEndSplit(s: string) returns (trail: string)
    ensures s == TrimEnd(s) + trail && AllSpace(trail)
    ensures TrimEnd(s) == [] || !IsSpace(TrimEnd(s)[|TrimEnd(s)| - 1])
  {
    if s != [] && IsSpace(s[|s| - 1]) {
      var front := s[..|s| - 1];
      var rest := TrimEndSplit(front);
      trail := rest + [s[|s| - 1]];
      assert TrimEnd(s) == TrimEnd(front);
      assert s == TrimEnd(front) + rest + [s[|s| - 1]];
      assert AllSpace(trail) by {
        forall i | 0 <= i < |trail| ensures IsSpace(trail[i]) {
          if i < |rest| { assert trail[i] == rest[i]; }
        }
      }
    } else {
      trail := [];
    }
  }

  /** `Strip` removes whitespace and nothing else, and only at the two ends:
      `s` is `Strip(s)` between two whitespace runs. */
  lemma {:induction false} StripSplit(s: string) returns (lead: string, trail: string)
    ensures s == lead + Strip(s) + trail
    ensures AllSpace(lead) && AllSpace(trail)
  {
    lead := TrimStartSplit(s);
    trail := TrimEndSplit(TrimStart(s));
  }

  /** `Strip(s)` neither starts nor ends with whitespace. */
  lemma {:induction false} StripTrimmed(s: string)
    ensures Strip(s) == [] || (!IsSpace(Strip(s)[0]) && !IsSpace(Strip(s)[|Strip(s)| - 1]))
  {
    var t := TrimStart(s);
    var _ := TrimStartSplit(s);
    var trail := TrimEndSplit(t);
    if Strip(s) != [] {
      assert Strip(s)[0] == t[0];
    }
  }

  /** Stripping a stripped string changes nothing. */
  lemma {:induction false} StripIdempotent(s: string)
    ensures Strip(Strip(s)) == Strip(s)
  {
    var r := Strip(s);
    StripTrimmed(s);
    assert TrimStart(r) == r;
    assert TrimEnd(r) == r;
  }

  /** `pat` occurs in `s` starting at position `i`. */
  predicate OccursAt(pat: string, s: string, i: nat)
  {
    i <= |s| && pat <= s[i..]
  }

  /** `pat` occurs in `s` at some position. */
  predicate Occurs(pat: string, s: string)
  {
    exists i: nat | i <= |s| :: OccursAt(pat, s, i)
  }

  /** A string with no occurrence of `pat` has none after its first character either. */
  lemma NotInTail(pat: string, s: string)
    requires s != [] && !Occurs(pat, s)
    ensures !Occurs(pat, s[1..])
  {
    forall i: nat ensures !OccursAt(pat, s[1..], i) {
      assert !OccursAt(pat, s, i + 1);
      if i <= |s| - 1 {
        assert s[1..][i..] == s[i + 1..];
      }
    }
  }

  /** A string that starts with `t`, where `t` is at least as long as `pat` and
      `pat` does not occur in it, does not start with `pat`. */
  lemma NotAtStart(pat: string, t: string, s: string)
    requires !Occurs(pat, t) && t <= s && |pat| <= |t|
    ensures !(pat <= s)
  {
    assert !OccursAt(pat, t, 0);
    assert t[0..] == t;
  }

  /** `s.replace(pat, "")`: scanning left to right, every non-overlapping
      occurrence of `pat` is deleted. */
  function RemoveAll(s: string, pat: string): (r: string)
    requires pat != []
    ensures |r| <= |s|
    decreases |s|
  {
    if |s| < |pat| then s
    else if pat <= s then RemoveAll(s[|pat|..], pat)
    else [s[0]] + RemoveAll(s[1..], pat)
  }

  /** A string in which `pat` does not occur is left as it is. */
  lemma {:induction false} RemoveAllAbsent(s: string, pat: string)
    requires pat != [] && !Occurs(pat, s)
    ensures RemoveAll(s, pat) == s
    decreases |s|
  {
    if |s| >= |pat| {
      assert !OccursAt(pat, s, 0);
      assert s[0..] == s;
      NotInTail(pat, s);
      RemoveAllAbsent(s[1..], pat);
    }
  }

  /** A string that does not start with `pat` keeps its first character. */
  lemma RemoveAllKeep(s: string, pat: string)
    requires pat != [] && s != [] && !(pat <= s)
    ensures RemoveAll(s, pat) == [s[0]] + RemoveAll(s[1..], pat)
  {
    if |s| < |pat| {
      RemoveAllAbsent(s[1..], pat);
    }
  }

  /** Before the first occurrence of `pat`, the scan keeps a character and the
      occurrence is still the first one in what remains. */
  lemma FirstKept(a: string, pat: string, b: string)
    requires pat != [] && a != [] && !Occurs(pat, a + pat[..|pat| - 1])
    ensures !(pat <= a + pat + b)
    ensures !Occurs(pat, a[1..] + pat[..|pat| - 1])
  {
    var t := a + pat[..|pat| - 1];
    assert a + pat + b == t + ([pat[|pat| - 1]] + b) by {
      assert pat == pat[..|pat| - 1] + [pat[|pat| - 1]];
    }
    NotAtStart(pat, t, a + pat + b);
    NotInTail(pat, t);
    assert t[1..] == a[1..] + pat[..|pat| - 1];
  }

  /** An occurrence of `pat` with no earlier occurrence before or overlapping it
      is deleted, the text before it is kept, and the scan resumes after it. */
  lemma {:induction false} RemoveAllFirst(a: string, pat: string, b: string)
    requires pat != [] && !Occurs(pat, a + pat[..|pat| - 1])
    ensures RemoveAll(a + pat + b, pat) == a + RemoveAll(b, pat)
    decreases |a|
  {
    var s := a + pat + b;
    if a == [] {
      assert s == pat + b;
      assert s[|pat|..] == b;
    } else {
      var a' := a[1..];
      FirstKept(a, pat, b);
      RemoveAllFirst(a', pat, b);
      RemoveAllKeep(s, pat);
      assert s[1..] == a' + pat + b;
      assert a == [a[0]] + a';
    }
  }

  /** Removal shortens the string by a whole number `k` of copies of `pat`. */
  lemma {:induction false} RemoveAllCount(s: string, pat: string) returns (k: nat)
    requires pat != []
    ensures |s| == |RemoveAll(s, pat)| + k * |pat|
    ensures k == 0 ==> RemoveAll(s, pat) == s
    decreases |s|
  {
    if |s| < |pat| {
      k := 0;
    } else if pat <= s {
      var k' := RemoveAllCount(s[|pat|..], pat);
      k := k' + 1;
      assert RemoveAll(s, pat) == RemoveAll(s[|pat|..], pat);
      assert |s| == |s[|pat|..]| + |pat|;
      assert k * |pat| == k' * |pat| + |pat| by {
        var w := |pat|;
        calc {
          k * w;
          (k' + 1) * w;
          k' * w + 1 * w;
        }
      }
    } else {
      k := RemoveAllCount(s[1..], pat);
      assert RemoveAll(s, pat) == [s[0]] + RemoveAll(s[1..], pat);
      assert s == [s[0]] + s[1..];
    }
  }
}
