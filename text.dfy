/** Python string primitives used by the quiz parser: str.strip(), the `\s`
    class of `re`, ASCII lower()/upper(), str.startswith(), str.replace(p, "")
    and str.join(). */
module Text {

  /** Python's str.isspace() (also what `\s` matches in a str pattern):
      U+0009..U+000D, U+001C..U+0020, U+0085, U+00A0, U+1680,
      U+2000..U+200A, U+2028, U+2029, U+202F, U+205F and U+3000. */
  predicate IsSpace(c: char)
  {
    || ('\t' <= c <= '\r')
    || ('\U{1C}' <= c <= ' ')
    || c == '\U{85}' || c == '\U{A0}' || c == '\U{1680}'
    || ('\U{2000}' <= c <= '\U{200A}')
    || c == '\U{2028}' || c == '\U{2029}' || c == '\U{202F}'
    || c == '\U{205F}' || c == '\U{3000}'
  }

  /** Every character of `s` is whitespace. */
  predicate IsBlank(s: string)
  {
    forall k :: 0 <= k < |s| ==> IsSpace(s[k])
  }

  /** str.lstrip(): drops the leading whitespace, and only that. */
  function StripLeft(s: string): (r: string)
    ensures |r| <= |s| && r == s[|s| - |r|..]
    ensures r == [] || !IsSpace(r[0])
    ensures IsBlank(s[..|s| - |r|])
  {
    if s != [] && IsSpace(s[0]) then
      var t := s[1..];
      var r := StripLeft(t);
      var n := |t| - |r|;
      assert s[n + 1..] == t[n..];
      var blank := s[..n + 1];
      assert blank == [s[0]] + t[..n];
      assert IsBlank(blank) by {
        forall k | 0 <= k < |blank| ensures IsSpace(blank[k]) {
          if k > 0 {
            assert blank[k] == t[..n][k - 1];
          }
        }
      }
      r
    else s
  }

  /** str.rstrip(): drops the trailing whitespace, and only that. */
  function StripRight(s: string): (r: string)
    ensures |r| <= |s| && r == s[..|r|]
    ensures r == [] || !IsSpace(r[|r| - 1])
    ensures IsBlank(s[|r|..])
  {
    if s != [] && IsSpace(s[|s| - 1]) then
      var t := s[..|s| - 1];
      var r := StripRight(t);
      assert s[..|r|] == t[..|r|];
      assert IsBlank(s[|r|..]) by {
        forall k | 0 <= k < |s| - |r| ensures IsSpace(s[|r|..][k]) {
          if k < |t| - |r| {
            assert s[|r|..][k] == t[|r|..][k];
          }
        }
      }
      r
    else s
  }

  /** str.strip(). */
  function Strip(s: string): (r: string)
    ensures |r| <= |s|
    ensures r == [] || (!IsSpace(r[0]) && !IsSpace(r[|r| - 1]))
  {
    StripRight(StripLeft(s))
  }

  /** A string with no surrounding whitespace is its own strip. */
  predicate IsTrimmed(s: string)
  {
    s == [] || (!IsSpace(s[0]) && !IsSpace(s[|s| - 1]))
  }

  /** Strip removes only surrounding whitespace: the result is the piece
      s[i..i + |Strip(s)|] of the input and everything around it is
      whitespace. */
  lemma {:induction false} StripIsSlice(s: string) returns (i: nat)
    ensures i + |Strip(s)| <= |s| && Strip(s) == s[i..i + |Strip(s)|]
    ensures IsBlank(s[..i]) && IsBlank(s[i + |Strip(s)|..])
  {
    var l := StripLeft(s);
    i := |s| - |l|;
    var r := StripRight(l);
    assert Strip(s) == r;
    TrimmedPiece(s, l, r);
  }

  /** Cutting a blank prefix and then a blank suffix leaves a middle piece
      with blank surroundings. */
  lemma {:induction false} TrimmedPiece(s: string, l: string, r: string)
    requires |l| <= |s| && l == s[|s| - |l|..] && IsBlank(s[..|s| - |l|])
    requires |r| <= |l| && r == l[..|r|] && IsBlank(l[|r|..])
    ensures r == s[|s| - |l|..|s| - |l| + |r|]
    ensures IsBlank(s[|s| - |l| + |r|..])
  {
    var i := |s| - |l|;
    assert s[i..][..|r|] == s[i..i + |r|];
    assert s[i..][|r|..] == s[i + |r|..];
  }

  /** Strip is idempotent. */
  lemma {:induction false} StripIdempotent(s: string)
    ensures Strip(Strip(s)) == Strip(s)
  {
    TrimmedFixed(Strip(s));
  }

  /** A trimmed string is left alone by Strip. */
  lemma {:induction false} TrimmedFixed(s: string)
    requires IsTrimmed(s)
    ensures Strip(s) == s
  {
  }

  /** Strip yields the empty string exactly for all-whitespace input. */
  lemma {:induction false} StripEmptyIff(s: string)
    ensures Strip(s) == [] <==> IsBlank(s)
  {
    var l := StripLeft(s);
    var n := |s| - |l|;
    assert l == s[n..];
    if Strip(s) == [] {
      assert IsBlank(l[0..]);
      assert l[0..] == l;
      forall k | 0 <= k < |s| ensures IsSpace(s[k]) {
        if k < n { assert s[k] == s[..n][k]; } else { assert s[k] == l[k - n]; }
      }
    }
  }

  /** Whitespace in front of a string does not change its strip. */
  lemma {:induction false} StripSkipsLeadingSpace(w: string, t: string)
    requires IsBlank(w)
    ensures Strip(w + t) == Strip(t)
    ensures StripLeft(w + t) == StripLeft(t)
  {
    if w != [] {
      assert IsSpace((w + t)[0]);
      assert (w + t)[1..] == w[1..] + t;
      assert IsBlank(w[1..]) by {
        forall k | 0 <= k < |w[1..]| ensures IsSpace(w[1..][k]) {
          assert w[1..][k] == w[k + 1];
        }
      }
      StripSkipsLeadingSpace(w[1..], t);
      assert StripLeft(w + t) == StripLeft(w[1..] + t);
    } else {
      assert w + t == t;
    }
  }

  /** Strip after lstrip is plain strip (the regexes end in `\s*`). */
  lemma {:induction false} StripAfterStripLeft(s: string)
    ensures Strip(StripLeft(s)) == Strip(s)
  {
    var l := StripLeft(s);
    assert s == s[..|s| - |l|] + l;
    StripSkipsLeadingSpace(s[..|s| - |l|], l);
  }

  /** ASCII str.lower() of one character. */
  function LowerChar(c: char): (r: char)
    ensures 'A' <= c <= 'Z' ==> 'a' <= r <= 'z' && r as int == c as int + 32
    ensures !('A' <= c <= 'Z') ==> r == c
  {
    if 'A' <= c <= 'Z' then (c as int - 'A' as int + 'a' as int) as char else c
  }

  /** ASCII str.upper() of one character. */
  function UpperChar(c: char): (r: char)
    ensures 'a' <= c <= 'z' ==> 'A' <= r <= 'Z' && r as int == c as int - 32
    ensures !('a' <= c <= 'z') ==> r == c
  {
    if 'a' <= c <= 'z' then (c as int - 'a' as int + 'A' as int) as char else c
  }

  /** ASCII str.lower(). */
  function Lower(s: string): (r: string)
    ensures |r| == |s| && forall k :: 0 <= k < |s| ==> r[k] == LowerChar(s[k])
  {
    seq(|s|, k requires 0 <= k < |s| => LowerChar(s[k]))
  }

  /** str.startswith(p). */
  predicate StartsWith(s: string, p: string)
  {
    |p| <= |s| && s[..|p|] == p
  }

  /** str.replace(p, ""): occurrences of `p` found left to right, without
      overlap, are deleted; nothing is added. */
  function RemoveAll(s: string, p: string): (r: string)
    requires |p| > 0
    ensures multiset(r) <= multiset(s)
    decreases |s|
  {
    if |s| < |p| then s
    else if s[..|p|] == p then
      var r := RemoveAll(s[|p|..], p);
      assert s == s[..|p|] + s[|p|..];
      r
    else
      var r := RemoveAll(s[1..], p);
      assert s == [s[0]] + s[1..];
      [s[0]] + r
  }

  /** Where `p` occurs nowhere, str.replace(p, "") returns the string as
      it is. */
  lemma {:induction false} RemoveAllAbsent(s: string, p: string)
    requires |p| > 0
    requires forall i :: 0 <= i < |s| ==> !StartsWith(s[i..], p)
    ensures RemoveAll(s, p) == s
    decreases |s|
  {
    if |s| >= |p| {
      assert s[0..] == s;
      forall i | 0 <= i < |s[1..]| ensures !StartsWith(s[1..][i..], p) {
        assert s[1..][i..] == s[i + 1..];
      }
      RemoveAllAbsent(s[1..], p);
      assert s == [s[0]] + s[1..];
    }
  }

  /** sep.join(parts). */
  function Join(parts: seq<string>, sep: string): (r: string)
    ensures |parts| == 1 ==> r == parts[0]
  {
    if |parts| == 0 then ""
    else if |parts| == 1 then parts[0]
    else parts[0] + sep + Join(parts[1..], sep)
  }

  /** A join begins with its first part and ends with its last. */
  lemma {:induction false} JoinEnds(parts: seq<string>, sep: string)
    requires |parts| > 0
    ensures StartsWith(Join(parts, sep), parts[0])
    ensures |parts[|parts| - 1]| <= |Join(parts, sep)|
    ensures Join(parts, sep)[|Join(parts, sep)| - |parts[|parts| - 1]|..] == parts[|parts| - 1]
  {
    if |parts| > 1 {
      JoinEnds(parts[1..], sep);
      var j := Join(parts[1..], sep);
      var last := parts[|parts| - 1];
      assert parts[1..][|parts[1..]| - 1] == last;
      var whole := parts[0] + sep + j;
      assert whole[|whole| - |last|..] == j[|j| - |last|..];
      assert whole[..|parts[0]|] == parts[0];
    }
  }

  /** Joining trimmed, non-empty lines gives a trimmed, non-empty string:
      the strip applied by the parser to the joined question text changes
      nothing. */
  lemma {:induction false} JoinOfTrimmedLines(parts: seq<string>, sep: string)
    requires |parts| > 0
    requires forall k :: 0 <= k < |parts| ==> parts[k] != [] && IsTrimmed(parts[k])
    ensures Join(parts, sep) != [] && IsTrimmed(Join(parts, sep))
    ensures Strip(Join(parts, sep)) == Join(parts, sep)
  {
    JoinEnds(parts, sep);
    var j := Join(parts, sep);
    var last := parts[|parts| - 1];
    assert j[0] == parts[0][0];
    assert j[|j| - 1] == last[|last| - 1];
    TrimmedFixed(j);
  }
}
