/** The string operations the tool relies on: `str.startswith`, the `in`
    substring test, splitting on '/', joining with '/' and ASCII lower-casing. */
module Text {

  /** `s.startswith(prefix)` */
  predicate StartsWith(s: string, prefix: string) {
    |prefix| <= |s| && s[..|prefix|] == prefix
  }

  /** `pat in s` for two strings: `pat` occurs somewhere in `s` as a substring. */
  predicate Contains(s: string, pat: string)
    decreases |s|
  {
    StartsWith(s, pat) || (|s| > 0 && Contains(s[1..], pat))
  }

  /** `pat` occurs in `s` starting at position `i`. */
  predicate OccursAt(s: string, pat: string, i: int) {
    0 <= i && i + |pat| <= |s| && s[i..i + |pat|] == pat
  }

  /** An occurrence at some position makes `Contains` true. */
  lemma {:induction false} ContainsAt(s: string, pat: string, i: nat)
    requires OccursAt(s, pat, i)
    ensures Contains(s, pat)
    decreases i
  {
    if i == 0 {
      assert s[..|pat|] == s[0..0 + |pat|];
    } else {
      assert s[1..][i - 1..i - 1 + |pat|] == s[i..i + |pat|];
      ContainsAt(s[1..], pat, i - 1);
    }
  }

  /** Conversely, `Contains` always has a witness position. */
  lemma {:induction false} ContainsWitness(s: string, pat: string) returns (i: nat)
    requires Contains(s, pat)
    ensures OccursAt(s, pat, i)
    decreases |s|
  {
    if StartsWith(s, pat) {
      i := 0;
      assert s[..|pat|] == s[0..0 + |pat|];
    } else {
      var j := ContainsWitness(s[1..], pat);
      assert s[1..][j..j + |pat|] == s[j + 1..j + 1 + |pat|];
      i := j + 1;
    }
  }

  /** Without an occurrence at any position, `Contains` is false. */
  lemma {:induction false} ContainsNowhere(s: string, pat: string)
    requires forall i :: !OccursAt(s, pat, i)
    ensures !Contains(s, pat)
    decreases |s|
  {
    if |pat| <= |s| {
      assert !OccursAt(s, pat, 0);
      assert s[..|pat|] == s[0..0 + |pat|];
    }
    if |s| > 0 {
      forall i
        ensures !OccursAt(s[1..], pat, i)
      {
        if 0 <= i && i + |pat| <= |s| - 1 {
          assert s[1..][i..i + |pat|] == s[i + 1..i + 1 + |pat|];
          assert !OccursAt(s, pat, i + 1);
        }
      }
      ContainsNowhere(s[1..], pat);
    }
  }

  /** An occurrence survives appending text on either side. */
  lemma ContainsWithin(u: string, t: string, v: string, pat: string)
    requires Contains(t, pat)
    ensures Contains(u + t + v, pat)
  {
    var i := ContainsWitness(t, pat);
    assert (u + t + v)[|u| + i..|u| + i + |pat|] == t[i..i + |pat|];
    assert OccursAt(u + t + v, pat, |u| + i);
    ContainsAt(u + t + v, pat, |u| + i);
  }

  /** Splits `cur + s` on '/', where `cur` is the segment read so far
      (the segments of `str.split('/')`, empty ones included). */
  function SplitFrom(s: string, cur: string): (r: seq<string>)
    ensures |r| > 0
    decreases |s|
  {
    if s == [] then [cur]
    else if s[0] == '/' then [cur] + SplitFrom(s[1..], "")
    else SplitFrom(s[1..], cur + [s[0]])
  }

  /** `s.split('/')` */
  function Split(s: string): seq<string> {
    SplitFrom(s, "")
  }

  /** A string without '/' is a single segment. */
  lemma {:induction false} SplitWithoutSlash(s: string, cur: string)
    requires '/' !in s
    ensures SplitFrom(s, cur) == [cur + s]
    decreases |s|
  {
    if s != [] {
      SplitWithoutSlash(s[1..], cur + [s[0]]);
      assert cur + [s[0]] + s[1..] == cur + s;
    } else {
      assert cur + s == cur;
    }
  }

  /** No segment of a split holds a separator. */
  lemma {:induction false} SplitFromHasNoSlash(s: string, cur: string, seg: string)
    requires '/' !in cur
    requires seg in SplitFrom(s, cur)
    ensures '/' !in seg
    decreases |s|
  {
    if s != [] {
      if s[0] == '/' {
        if seg != cur {
          SplitFromHasNoSlash(s[1..], "", seg);
        }
      } else {
        SplitFromHasNoSlash(s[1..], cur + [s[0]], seg);
      }
    }
  }

  /** A pattern found inside one segment is found in the whole string. */
  lemma {:induction false} SplitFromKeepsPattern(s: string, cur: string, seg: string, pat: string)
    requires seg in SplitFrom(s, cur) && Contains(seg, pat)
    ensures Contains(cur + s, pat)
    decreases |s|
  {
    if s == [] {
      assert cur + s == cur;
    } else if s[0] == '/' {
      if seg == cur {
        ContainsWithin([], cur, s, pat);
        assert [] + cur + s == cur + s;
      } else {
        SplitFromKeepsPattern(s[1..], "", seg, pat);
        assert "" + s[1..] == s[1..];
        ContainsWithin(cur + [s[0]], s[1..], [], pat);
        assert cur + [s[0]] + s[1..] + [] == cur + s;
      }
    } else {
      SplitFromKeepsPattern(s[1..], cur + [s[0]], seg, pat);
      assert cur + [s[0]] + s[1..] == cur + s;
    }
  }

  /** `'/'.join(parts)` */
  function JoinSlash(parts: seq<string>): string
    decreases |parts|
  {
    if parts == [] then ""
    else if |parts| == 1 then parts[0]
    else parts[0] + "/" + JoinSlash(parts[1..])
  }

  /** A joined path begins with its first name. */
  lemma JoinSlashStart(parts: seq<string>)
    requires parts != []
    ensures |parts[0]| <= |JoinSlash(parts)| && JoinSlash(parts)[..|parts[0]|] == parts[0]
  {
  }

  /** A '/' between two strings keeps their dots apart: ".." in the joined
      string is ".." in one of the two. */
  lemma DotDotAcrossSlash(a: string, b: string)
    ensures Contains(a + "/" + b, "..") <==> Contains(a, "..") || Contains(b, "..")
  {
    var s := a + "/" + b;
    if Contains(a, "..") || Contains(b, "..") {
      if Contains(a, "..") {
        ContainsWithin([], a, "/" + b, "..");
        assert [] + a + ("/" + b) == s;
      } else {
        ContainsWithin(a + "/", b, [], "..");
        assert a + "/" + b + [] == s;
      }
    } else {
      forall i
        ensures !OccursAt(s, "..", i)
      {
        if 0 <= i <= |s| - 2 {
          if i + 2 <= |a| {
            if OccursAt(s, "..", i) {
              assert a[i..i + 2] == s[i..i + 2];
              ContainsAt(a, "..", i);
            }
          } else if i == |a| - 1 {
            assert s[i..i + 2][1] == s[i + 1] == '/';
          } else if i == |a| {
            assert s[i..i + 2][0] == s[i] == '/';
          } else if OccursAt(s, "..", i) {
            assert b[i - |a| - 1..i - |a| + 1] == s[i..i + 2];
            ContainsAt(b, "..", i - |a| - 1);
          }
        }
      }
      ContainsNowhere(s, "..");
    }
  }

  /** Joining names with '/' creates ".." exactly when one of the names holds it. */
  lemma {:induction false} DotDotInJoin(parts: seq<string>)
    ensures Contains(JoinSlash(parts), "..") <==> exists k :: 0 <= k < |parts| && Contains(parts[k], "..")
    decreases |parts|
  {
    if parts == [] {
      assert !StartsWith("", "..");
    } else if |parts| > 1 {
      DotDotInJoin(parts[1..]);
      DotDotAcrossSlash(parts[0], JoinSlash(parts[1..]));
      if exists k :: 0 <= k < |parts| && Contains(parts[k], "..") {
        var k :| 0 <= k < |parts| && Contains(parts[k], "..");
        if k > 0 {
          assert parts[1..][k - 1] == parts[k];
        }
      }
      if exists k :: 0 <= k < |parts| - 1 && Contains(parts[1..][k], "..") {
        var k :| 0 <= k < |parts| - 1 && Contains(parts[1..][k], "..");
        assert parts[k + 1] == parts[1..][k];
      }
    }
  }

  /** `str.lower()` restricted to ASCII: 'A'..'Z' become 'a'..'z', everything else is kept. */
  function LowerChar(c: char): char {
    if 'A' <= c <= 'Z' then (c as int + 32) as char else c
  }

  function LowerAscii(s: string): (r: string)
    ensures |r| == |s|
  {
    seq(|s|, i requires 0 <= i < |s| => LowerChar(s[i]))
  }
}
