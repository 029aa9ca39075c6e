/** Text operations the service uses from Rust's standard library: the
    substring replacement `str::replace` and the decimal rendering of an
    unsigned integer. */
module Strings {

  /** `pat` occurs in `s` at index `i`. */
  predicate OccursAt(s: string, pat: string, i: nat) {
    i + |pat| <= |s| && s[i..i + |pat|] == pat
  }

  /** `pat` occurs somewhere in `s`. */
  predicate Occurs(s: string, pat: string) {
    exists i: nat | i <= |s| :: OccursAt(s, pat, i)
  }

  /** `s.replace(pat, rep)`: every occurrence of a non-empty `pat`, found
      left to right and never overlapping, is replaced by `rep`. An empty
      `pat` matches at every character boundary, both ends included. */
  function Replace(s: string, pat: string, rep: string): string
    decreases |s|
  {
    if |pat| == 0 then Interleave(s, rep)
    else if |s| < |pat| then s
    else if s[..|pat|] == pat then rep + Replace(s[|pat|..], pat, rep)
    else [s[0]] + Replace(s[1..], pat, rep)
  }

  /** `rep` before every character of `s` and once more at the end. */
  function Interleave(s: string, rep: string): string
    decreases |s|
  {
    if |s| == 0 then rep else rep + [s[0]] + Interleave(s[1..], rep)
  }

  /** A string that does not contain `pat` is left as it is. */
  lemma {:induction false} ReplaceAbsent(s: string, pat: string, rep: string)
    requires !Occurs(s, pat)
    ensures Replace(s, pat, rep) == s
    decreases |s|
  {
    assert |pat| > 0 by {
      if |pat| == 0 {
        assert OccursAt(s, pat, 0);
      }
    }
    if |s| >= |pat| {
      assert !OccursAt(s, pat, 0);
      assert s[..|pat|] != pat;
      assert !Occurs(s[1..], pat) by {
        forall i: nat | OccursAt(s[1..], pat, i)
          ensures false
        {
          assert s[1..][i..i + |pat|] == s[i + 1..i + 1 + |pat|];
          assert OccursAt(s, pat, i + 1);
        }
      }
      ReplaceAbsent(s[1..], pat, rep);
      assert s == [s[0]] + s[1..];
    }
  }

  /** A string without the first character of `pat` does not contain `pat`. */
  lemma FirstCharAbsent(s: string, pat: string)
    requires |pat| > 0 && pat[0] !in s
    ensures !Occurs(s, pat)
  {
    forall i: nat
      ensures !OccursAt(s, pat, i)
    {
      if i + |pat| <= |s| {
        assert s[i..i + |pat|][0] == s[i];
      }
    }
  }

  /** Text before which no occurrence can start is copied through:
      replacement begins at the first character of the pattern. */
  lemma {:induction false} ReplaceAppend(a: string, t: string, pat: string, rep: string)
    requires |pat| > 0 && pat[0] !in a
    ensures Replace(a + t, pat, rep) == a + Replace(t, pat, rep)
    decreases |a|
  {
    if |a| > 0 {
      var u := a[1..] + t;
      assert a + t == [a[0]] + u;
      assert a[0] != pat[0] by { assert a[0] in a; }
      assert |u| + 1 >= |pat| ==> ([a[0]] + u)[..|pat|] != pat by {
        if |u| + 1 >= |pat| {
          assert ([a[0]] + u)[..|pat|][0] == a[0];
        }
      }
      ReplaceSkipHead(a[0], u, pat, rep);
      ReplaceAppend(a[1..], t, pat, rep);
      assert a == [a[0]] + a[1..];
    } else {
      assert a + t == t;
    }
  }

  /** A string that starts with the pattern has that occurrence replaced. */
  lemma ReplaceHead(t: string, pat: string, rep: string)
    requires |pat| > 0
    ensures Replace(pat + t, pat, rep) == rep + Replace(t, pat, rep)
  {
    assert (pat + t)[..|pat|] == pat;
    assert (pat + t)[|pat|..] == t;
  }

  /** A string that does not start with the pattern keeps its first character. */
  lemma ReplaceSkipHead(c: char, t: string, pat: string, rep: string)
    requires |pat| > 0
    requires |t| + 1 >= |pat| ==> ([c] + t)[..|pat|] != pat
    ensures Replace([c] + t, pat, rep) == [c] + Replace(t, pat, rep)
  {
    assert ([c] + t)[1..] == t;
    if |t| + 1 < |pat| {
      assert Replace(t, pat, rep) == t;
    }
  }

  /** Replacing a pattern by itself changes nothing. */
  lemma {:induction false} ReplaceSelf(s: string, pat: string)
    ensures Replace(s, pat, pat) == s
    decreases |s|
  {
    if |pat| == 0 {
      InterleaveEmpty(s);
    } else if |s| >= |pat| {
      ReplaceSelf(s[|pat|..], pat);
      ReplaceSelf(s[1..], pat);
      if s[..|pat|] == pat {
        assert s == s[..|pat|] + s[|pat|..];
      } else {
        assert s == [s[0]] + s[1..];
      }
    }
  }

  lemma {:induction false} InterleaveEmpty(s: string)
    ensures Interleave(s, "") == s
    decreases |s|
  {
    if |s| > 0 {
      InterleaveEmpty(s[1..]);
      assert s == [s[0]] + s[1..];
    }
  }

  /** Replacing with a marker character that does not occur in `s`, then
      replacing the marker back, restores `s`: the replacement loses no text. */
  lemma {:induction false} ReplaceMarkerRoundTrip(s: string, pat: string, c: char)
    requires c !in s
    ensures Replace(Replace(s, pat, [c]), [c], pat) == s
    decreases |s|
  {
    if |pat| == 0 {
      InterleaveMarkerRoundTrip(s, c);
    } else if |s| < |pat| {
      ReplaceAbsent(s, [c], pat) by { FirstCharAbsent(s, [c]); }
    } else if s[..|pat|] == pat {
      var rest := s[|pat|..];
      assert forall k :: 0 <= k < |rest| ==> rest[k] == s[|pat| + k];
      ReplaceMarkerRoundTrip(rest, pat, c);
      MarkerPrefix([c] + Replace(rest, pat, [c]), c, pat);
      assert ([c] + Replace(rest, pat, [c]))[1..] == Replace(rest, pat, [c]);
      assert s == pat + rest;
    } else {
      var rest := s[1..];
      ReplaceMarkerRoundTrip(rest, pat, c);
      var once := [s[0]] + Replace(rest, pat, [c]);
      assert once[..1] != [c] by { assert once[0] == s[0] != c; }
      assert once[1..] == Replace(rest, pat, [c]);
      assert s == [s[0]] + rest;
    }
  }

  /** `pat` occurs in the tail of `s` exactly where it occurs in `s` one
      position further on. */
  lemma OccursInTail(s: string, pat: string, j: nat)
    requires |s| > 0
    ensures OccursAt(s[1..], pat, j) <==> OccursAt(s, pat, j + 1)
  {
    if j + 1 + |pat| <= |s| {
      assert s[1..][j..j + |pat|] == s[j + 1..j + 1 + |pat|];
    }
  }

  /** Replacement works left to right: when `pat` does not start anywhere
      in `a`, the occurrence right after `a` is the first one; it is
      replaced, `a` is copied, and the scan resumes after the occurrence. */
  lemma {:induction false} ReplaceAtFirst(a: string, pat: string, b: string, rep: string)
    requires |pat| > 0
    requires forall j: nat :: j < |a| ==> !OccursAt(a + pat + b, pat, j)
    ensures Replace(a + pat + b, pat, rep) == a + rep + Replace(b, pat, rep)
    decreases |a|
  {
    if |a| == 0 {
      assert a + pat + b == pat + b;
      ReplaceHead(b, pat, rep);
    } else {
      var s := a + pat + b;
      var u := a[1..] + pat + b;
      assert s == [a[0]] + u;
      assert !OccursAt(s, pat, 0);
      ReplaceSkipHead(a[0], u, pat, rep);
      forall j: nat | j < |a[1..]|
        ensures !OccursAt(u, pat, j)
      {
        OccursInTail(s, pat, j);
        assert s[1..] == u;
      }
      ReplaceAtFirst(a[1..], pat, b, rep);
      assert a == [a[0]] + a[1..];
    }
  }

  /** The same, by index: at the first occurrence `i` of `pat` in `s`, the
      text before it is copied, the occurrence is replaced, and the rest is
      scanned afresh, so occurrences never overlap. */
  lemma ReplaceFirstOccurrence(s: string, pat: string, rep: string, i: nat)
    requires |pat| > 0 && OccursAt(s, pat, i)
    requires forall j: nat :: j < i ==> !OccursAt(s, pat, j)
    ensures Replace(s, pat, rep) == s[..i] + rep + Replace(s[i + |pat|..], pat, rep)
  {
    var a, b := s[..i], s[i + |pat|..];
    SplitAround(s, i, |pat|);
    assert s == a + pat + b;
    ReplaceAtFirst(a, pat, b, rep);
  }

  lemma SplitAround(s: string, i: nat, n: nat)
    requires i + n <= |s|
    ensures s == s[..i] + s[i..i + n] + s[i + n..]
  {
  }

  /** Text of the result that contains no marker character was copied from
      the input unchanged: no replacement happened in it. */
  lemma {:induction false} UnmarkedPrefix(s: string, pat: string, c: char, n: nat)
    requires |pat| > 0
    requires n <= |Replace(s, pat, [c])|
    requires c !in Replace(s, pat, [c])[..n]
    ensures n <= |s| && Replace(s, pat, [c])[..n] == s[..n]
    decreases |s|
  {
    var r := Replace(s, pat, [c]);
    if n > 0 {
      assert r[0] == r[..n][0];
    }
    if n > 0 && |s| >= |pat| && s[..|pat|] != pat {
      var rest := Replace(s[1..], pat, [c]);
      assert r == [s[0]] + rest;
      assert r[..n] == [s[0]] + rest[..n - 1];
      UnmarkedPrefix(s[1..], pat, c, n - 1);
      assert s[..n] == [s[0]] + s[1..][..n - 1];
    }
  }

  /** Replacing with a marker that is not part of the pattern leaves no
      occurrence of the pattern: every occurrence is found. */
  lemma {:induction false} ReplaceMarkerLeavesNone(s: string, pat: string, c: char)
    requires |pat| > 0 && c !in pat
    ensures !Occurs(Replace(s, pat, [c]), pat)
    decreases |s|
  {
    var r := Replace(s, pat, [c]);
    if |s| < |pat| {
      forall k: nat
        ensures !OccursAt(r, pat, k)
      {
      }
    } else if s[..|pat|] == pat {
      ReplaceMarkerLeavesNone(s[|pat|..], pat, c);
      var rest := Replace(s[|pat|..], pat, [c]);
      assert r == [c] + rest;
      forall k: nat
        ensures !OccursAt(r, pat, k)
      {
        if k == 0 {
          if |pat| <= |r| {
            assert r[..|pat|][0] == c;
          }
        } else {
          OccursInTail(r, pat, k - 1);
          assert r[1..] == rest;
        }
      }
    } else {
      ReplaceMarkerLeavesNone(s[1..], pat, c);
      var rest := Replace(s[1..], pat, [c]);
      assert r == [s[0]] + rest;
      forall k: nat
        ensures !OccursAt(r, pat, k)
      {
        if k == 0 {
          if |pat| <= |r| && c !in r[..|pat|] {
            UnmarkedPrefix(s, pat, c, |pat|);
          }
        } else {
          OccursInTail(r, pat, k - 1);
          assert r[1..] == rest;
        }
      }
    }
  }

  /** Unfolding `Replace` on a string that starts with the one-character pattern. */
  lemma MarkerPrefix(t: string, c: char, rep: string)
    requires |t| > 0 && t[0] == c
    ensures Replace(t, [c], rep) == rep + Replace(t[1..], [c], rep)
  {
    assert t[..1] == [c];
  }

  lemma {:induction false} InterleaveMarkerRoundTrip(s: string, c: char)
    requires c !in s
    ensures Replace(Interleave(s, [c]), [c], "") == s
    decreases |s|
  {
    if |s| == 0 {
      assert Interleave(s, [c]) == [c];
      MarkerPrefix([c], c, "");
    } else {
      var tail := Interleave(s[1..], [c]);
      var t := [c] + [s[0]] + tail;
      InterleaveMarkerRoundTrip(s[1..], c);
      MarkerPrefix(t, c, "");
      var u := t[1..];
      assert u == [s[0]] + tail;
      assert u[..1] != [c];
      assert u[1..] == tail;
      assert s == [s[0]] + s[1..];
    }
  }

  /** The decimal digit for `d`. */
  function DigitChar(d: nat): (c: char)
    requires d < 10
    ensures '0' <= c <= '9'
    ensures c as int - '0' as int == d
  {
    ('0' as int + d) as char
  }

  predicate AllDigits(s: string) {
    forall i :: 0 <= i < |s| ==> '0' <= s[i] <= '9'
  }

  /** The decimal form of `n`, as `n.to_string()` writes it. */
  function Decimal(n: nat): (r: string)
    ensures |r| > 0 && AllDigits(r)
    ensures |r| > 1 ==> r[0] != '0'
    decreases n
  {
    if n < 10 then [DigitChar(n)] else Decimal(n / 10) + [DigitChar(n % 10)]
  }

  /** The value of a string of decimal digits. */
  function ParseDecimal(s: string): nat
    requires AllDigits(s)
    decreases |s|
  {
    if |s| == 0 then 0
    else ParseDecimal(s[..|s| - 1]) * 10 + (s[|s| - 1] as int - '0' as int)
  }

  /** Reading back the decimal form of `n` gives `n`. */
  lemma {:induction false} DecimalRoundTrip(n: nat)
    ensures ParseDecimal(Decimal(n)) == n
    decreases n
  {
    if n >= 10 {
      DecimalRoundTrip(n / 10);
      var d := Decimal(n);
      assert d[..|d| - 1] == Decimal(n / 10);
    }
  }
}
