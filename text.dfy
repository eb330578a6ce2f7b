/**
 * String helpers the bot relies on: `str.lower`, `str.strip`, the substring
 * test `w in s` and `str.replace`. Strings are sequences of code points.
 */
module Text {

  /** The characters for which Python's `str.isspace` holds. */
  predicate IsSpace(c: char) {
    var n := c as int;
    || 0x09 <= n <= 0x0D || 0x1C <= n <= 0x20 || n == 0x85 || n == 0xA0
    || n == 0x1680 || 0x2000 <= n <= 0x200A || n == 0x2028 || n == 0x2029
    || n == 0x202F || n == 0x205F || n == 0x3000
  }

  predicate AllSpace(s: string) {
    forall i :: 0 <= i < |s| ==> IsSpace(s[i])
  }

  /** Lower-casing of one character (ASCII letters only; see README). */
  function LowerChar(c: char): (d: char)
    ensures IsSpace(d) <==> IsSpace(c)
    ensures 'A' <= c <= 'Z' ==> 'a' <= d <= 'z'
    ensures 'A' <= c <= 'Z' ==> d as int == c as int + 32
    ensures !('A' <= c <= 'Z') ==> d == c
    ensures !('A' <= d <= 'Z')
  {
    if 'A' <= c <= 'Z' then (c as int - 'A' as int + 'a' as int) as char else c
  }

  /** No character of `s` is a capital ASCII letter. */
  predicate NoCapitals(s: string) {
    forall i :: 0 <= i < |s| ==> !('A' <= s[i] <= 'Z')
  }

  /** `s.lower()` */
  function Lower(s: string): (r: string)
    ensures |r| == |s|
    ensures forall i :: 0 <= i < |s| ==> r[i] == LowerChar(s[i])
    ensures NoCapitals(r)
  {
    if s == [] then [] else [LowerChar(s[0])] + Lower(s[1..])
  }

  function TrimStart(s: string): (r: string)
    decreases |s|
  {
    if s != [] && IsSpace(s[0]) then TrimStart(s[1..]) else s
  }

  function TrimEnd(s: string): (r: string)
    decreases |s|
  {
    if s != [] && IsSpace(s[|s| - 1]) then TrimEnd(s[..|s| - 1]) else s
  }

  /** `s.strip()`: never longer than `s`, and without whitespace at either end. */
  function Strip(s: string): (r: string)
    ensures |r| <= |s|
    ensures Trimmed(r)
  {
    TrimStartSpec(s);
    TrimEndSpec(TrimStart(s));
    var r := TrimEnd(TrimStart(s));
    assert r != [] ==> r[0] == TrimStart(s)[0];
    r
  }

  /** No leading and no trailing whitespace. */
  predicate Trimmed(s: string) {
    s == [] || (!IsSpace(s[0]) && !IsSpace(s[|s| - 1]))
  }

  /** `TrimStart` drops a leading run of whitespace and stops at the first other character. */
  lemma {:induction false} TrimStartSpec(s: string)
    ensures |TrimStart(s)| <= |s|
    ensures TrimStart(s) == s[|s| - |TrimStart(s)|..]
    ensures AllSpace(s[..|s| - |TrimStart(s)|])
    ensures TrimStart(s) == [] || !IsSpace(TrimStart(s)[0])
    decreases |s|
  {
    if s != [] && IsSpace(s[0]) {
      TrimStartSpec(s[1..]);
      var n := |s| - |TrimStart(s)|;
      assert s[1..][n - 1..] == s[n..];
      forall k | 0 <= k < n ensures IsSpace(s[k]) {
        if k > 0 { assert s[k] == s[1..][..n - 1][k - 1]; }
      }
    }
  }

  /** `TrimEnd` drops a trailing run of whitespace and stops at the last other character. */
  lemma {:induction false} TrimEndSpec(s: string)
    ensures |TrimEnd(s)| <= |s|
    ensures TrimEnd(s) == s[..|TrimEnd(s)|]
    ensures AllSpace(s[|TrimEnd(s)|..])
    ensures TrimEnd(s) == [] || !IsSpace(TrimEnd(s)[|TrimEnd(s)| - 1])
    decreases |s|
  {
    if s != [] && IsSpace(s[|s| - 1]) {
      var p := s[..|s| - 1];
      TrimEndSpec(p);
      var j := |TrimEnd(s)|;
      assert p[..j] == s[..j];
      forall k | j <= k < |s| ensures IsSpace(s[k]) {
        if k < |s| - 1 { assert s[k] == p[j..][k - j]; }
      }
    }
  }

  /**
   * `Strip(s)` is the middle slice of `s` left once all leading and all
   * trailing whitespace is removed.
   */
  lemma StripSpec(s: string)
    ensures exists i, j :: 0 <= i <= j <= |s| && Strip(s) == s[i..j] && AllSpace(s[..i]) && AllSpace(s[j..])
  {
    TrimStartSpec(s);
    var t := TrimStart(s);
    var i := |s| - |t|;
    TrimEndSpec(t);
    var j := |TrimEnd(t)|;
    assert Strip(s) == TrimEnd(t) == t[..j];
    assert Strip(s) == s[i..i + j];
    assert t[j..] == s[i + j..];
    assert AllSpace(s[i + j..]);
    if Strip(s) != [] {
      assert Strip(s)[0] == t[0];
    }
  }

  /** A trimmed text strips to itself. */
  lemma StripTrimmed(s: string)
    requires Trimmed(s)
    ensures Strip(s) == s
  {
    StripSurrounded([], s, []);
    assert [] + s + [] == s;
  }

  /** Whitespace around a trimmed text is exactly what `Strip` removes. */
  lemma {:induction false} StripSurrounded(pre: string, q: string, post: string)
    requires AllSpace(pre) && AllSpace(post) && Trimmed(q)
    ensures Strip(pre + q + post) == q
  {
    var s := pre + q + post;
    TrimStartDropsSpace(pre, q + post);
    assert s == pre + (q + post);
    if q == [] {
      TrimStartDropsSpace(pre, post);
      TrimStartAllSpace(post);
      assert s == pre + post;
      assert TrimEnd([]) == [];
    } else {
      assert TrimStart(q + post) == q + post;
      TrimEndDropsSpace(q, post);
    }
  }

  lemma {:induction false} TrimStartAllSpace(s: string)
    requires AllSpace(s)
    ensures TrimStart(s) == []
    decreases |s|
  {
    if s != [] { TrimStartAllSpace(s[1..]); }
  }

  lemma {:induction false} TrimStartDropsSpace(pre: string, rest: string)
    requires AllSpace(pre)
    requires rest == [] || !IsSpace(rest[0]) || AllSpace(rest)
    ensures TrimStart(pre + rest) == TrimStart(rest)
    decreases |pre|
  {
    if pre != [] {
      assert (pre + rest)[1..] == pre[1..] + rest;
      TrimStartDropsSpace(pre[1..], rest);
    } else {
      assert pre + rest == rest;
    }
  }

  lemma {:induction false} TrimEndDropsSpace(q: string, post: string)
    requires AllSpace(post) && q != [] && !IsSpace(q[|q| - 1])
    ensures TrimEnd(q + post) == q
    decreases |post|
  {
    if post == [] {
      assert q + post == q;
    } else {
      var p := post[..|post| - 1];
      assert (q + post)[..|q + post| - 1] == q + p;
      TrimEndDropsSpace(q, p);
    }
  }

  /** `w in s` for strings: `w` occurs as a contiguous piece of `s`. */
  predicate Contains(s: string, w: string)
    ensures Contains(s, w) ==> |w| <= |s|
    ensures w == [] ==> Contains(s, w)
    decreases |s|
  {
    |w| <= |s| && (s[..|w|] == w || Contains(s[1..], w))
  }

  predicate OccursAt(s: string, w: string, i: int) {
    0 <= i && i + |w| <= |s| && s[i..i + |w|] == w
  }

  lemma {:induction false} ContainsSpec(s: string, w: string)
    ensures Contains(s, w) <==> exists i :: OccursAt(s, w, i)
    decreases |s|
  {
    if w == [] {
      assert OccursAt(s, w, 0);
    } else if |w| <= |s| {
      ContainsSpec(s[1..], w);
      if Contains(s, w) {
        if s[..|w|] == w {
          assert OccursAt(s, w, 0);
        } else {
          var i :| OccursAt(s[1..], w, i);
          assert s[1..][i..i + |w|] == s[i + 1..i + 1 + |w|];
          assert OccursAt(s, w, i + 1);
        }
      } else {
        forall i | OccursAt(s, w, i) ensures false {
          if i != 0 {
            assert s[1..][i - 1..i - 1 + |w|] == s[i..i + |w|];
            assert OccursAt(s[1..], w, i - 1);
          }
        }
      }
    }
  }

  /** `s.replace(pat, rep)`: left-to-right, non-overlapping replacement. */
  function ReplaceAll(s: string, pat: string, rep: string): (r: string)
    requires pat != []
    ensures rep == pat ==> r == s
    ensures !Contains(s, pat) ==> r == s
    decreases |s|
  {
    if |s| < |pat| then s
    else if s[..|pat|] == pat then rep + ReplaceAll(s[|pat|..], pat, rep)
    else [s[0]] + ReplaceAll(s[1..], pat, rep)
  }

  /** No character of `a` appears in `b`. */
  predicate Disjoint(a: string, b: string) {
    forall i, j :: 0 <= i < |a| && 0 <= j < |b| ==> a[i] != b[j]
  }

  /**
   * While the output of `ReplaceAll` shows only characters that cannot come
   * from `rep`, it is a copy of the input and no match started there.
   */
  lemma {:induction false} ReplacePrefixCopied(s: string, pat: string, rep: string, k: nat)
    requires pat != [] && rep != []
    requires k <= |ReplaceAll(s, pat, rep)|
    requires forall m :: 0 <= m < k ==> ReplaceAll(s, pat, rep)[m] != rep[0]
    ensures k <= |s| && ReplaceAll(s, pat, rep)[..k] == s[..k]
    ensures forall j :: 0 <= j < k ==> !OccursAt(s, pat, j)
    decreases |s|
  {
    var r := ReplaceAll(s, pat, rep);
    if |s| < |pat| {
    } else if s[..|pat|] == pat {
      assert r == rep + ReplaceAll(s[|pat|..], pat, rep);
      assert r[0] == rep[0];
    } else if k > 0 {
      var t := ReplaceAll(s[1..], pat, rep);
      assert r == [s[0]] + t;
      forall m | 0 <= m < k - 1 ensures t[m] != rep[0] {
        assert t[m] == r[m + 1];
      }
      ReplacePrefixCopied(s[1..], pat, rep, k - 1);
      assert r[..k] == [s[0]] + t[..k - 1];
      assert s[..k] == [s[0]] + s[1..][..k - 1];
      NoOccurrenceShifted(s, pat, k);
    }
  }

  /** No match at 0 and none in the first `k - 1` places of `s[1..]` means none in the first `k` of `s`. */
  lemma NoOccurrenceShifted(s: string, pat: string, k: nat)
    requires pat != [] && |pat| <= |s| && s[..|pat|] != pat
    requires forall j :: 0 <= j < k - 1 ==> !OccursAt(s[1..], pat, j)
    ensures forall j :: 0 <= j < k ==> !OccursAt(s, pat, j)
  {
    forall j | 0 <= j < k ensures !OccursAt(s, pat, j) {
      if j == 0 {
        assert s[0..|pat|] == s[..|pat|];
      } else if j + |pat| <= |s| {
        assert s[1..][j - 1..j - 1 + |pat|] == s[j..j + |pat|];
        assert !OccursAt(s[1..], pat, j - 1);
      }
    }
  }

  /**
   * Every occurrence of the placeholder is replaced: when the replacement is
   * non-empty and shares no character with the placeholder (as a user
   * mention shares none with `{user}`), the placeholder is nowhere in the
   * result.
   */
  lemma ReplaceAllLeavesNoPlaceholder(s: string, pat: string, rep: string)
    requires pat != [] && rep != [] && Disjoint(pat, rep)
    ensures !Contains(ReplaceAll(s, pat, rep), pat)
  {
    NoOccurrenceAfterReplace(s, pat, rep);
    ContainsSpec(ReplaceAll(s, pat, rep), pat);
  }

  lemma {:induction false} NoOccurrenceAfterReplace(s: string, pat: string, rep: string)
    requires pat != [] && rep != [] && Disjoint(pat, rep)
    ensures forall i :: !OccursAt(ReplaceAll(s, pat, rep), pat, i)
    decreases |s|
  {
    if |s| < |pat| {
    } else if s[..|pat|] == pat {
      NoOccurrenceAfterReplace(s[|pat|..], pat, rep);
      NoOccurrenceBehindReplacement(ReplaceAll(s[|pat|..], pat, rep), pat, rep);
    } else {
      var r := ReplaceAll(s, pat, rep);
      var t := ReplaceAll(s[1..], pat, rep);
      NoOccurrenceAfterReplace(s[1..], pat, rep);
      forall i | 0 <= i ensures !OccursAt(r, pat, i) {
        if i == 0 {
          if OccursAt(r, pat, 0) {
            forall m | 0 <= m < |pat| ensures r[m] != rep[0] {
              assert r[m] == pat[m];
            }
            ReplacePrefixCopied(s, pat, rep, |pat|);
          }
        } else if i + |pat| <= |r| {
          assert r[i..i + |pat|] == t[i - 1..i - 1 + |pat|];
          assert !OccursAt(t, pat, i - 1);
        }
      }
    }
  }

  lemma NoOccurrenceBehindReplacement(t: string, pat: string, rep: string)
    requires pat != [] && Disjoint(pat, rep)
    requires forall i :: !OccursAt(t, pat, i)
    ensures forall i :: !OccursAt(rep + t, pat, i)
  {
    var r := rep + t;
    forall i | 0 <= i && i + |pat| <= |r| ensures !OccursAt(r, pat, i) {
      if i < |rep| {
        assert r[i..i + |pat|][0] == rep[i];
      } else {
        assert r[i..i + |pat|] == t[i - |rep|..i - |rep| + |pat|];
        assert !OccursAt(t, pat, i - |rep|);
      }
    }
  }
}
