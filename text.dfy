/**
 The few Python `str` operations the crawler relies on, over `seq<char>`:
 `s.startswith(p)`, `sub in s`, `s.replace(pat, rep)` and `s.strip()`.
 */
module Text {

  /** `s.startswith(p)` */
  predicate IsPrefix(p: string, s: string)
  {
    |p| <= |s| && s[..|p|] == p
  }

  /** `sub` occurs in `s` starting at index `i`. */
  predicate OccursAt(s: string, sub: string, i: int)
  {
    0 <= i && i + |sub| <= |s| && s[i..i + |sub|] == sub
  }

  /** `sub in s`, computed by trying every start position from the left. */
  predicate Contains(s: string, sub: string)
    decreases |s|
  {
    IsPrefix(sub, s) || (|s| > 0 && Contains(s[1..], sub))
  }

  /** `Contains` holds exactly when there is a position where `sub` occurs. */
  lemma {:induction false} ContainsIffOccurs(s: string, sub: string)
    ensures Contains(s, sub) <==> exists i :: OccursAt(s, sub, i)
    decreases |s|
  {
    if IsPrefix(sub, s) {
      assert OccursAt(s, sub, 0);
    } else if |s| > 0 {
      ContainsIffOccurs(s[1..], sub);
      if Contains(s[1..], sub) {
        var i :| OccursAt(s[1..], sub, i);
        assert s[1..][i..i + |sub|] == s[i + 1..i + 1 + |sub|];
        assert OccursAt(s, sub, i + 1);
      }
      forall i | OccursAt(s, sub, i) ensures OccursAt(s[1..], sub, i - 1) {
        assert s[1..][i - 1..i - 1 + |sub|] == s[i..i + |sub|];
      }
    }
  }

  lemma ContainsAt(s: string, sub: string, i: int)
    requires OccursAt(s, sub, i)
    ensures Contains(s, sub)
  {
    ContainsIffOccurs(s, sub);
  }

  /** Text without the first character of `sub` cannot contain `sub`. */
  lemma {:induction false} MissingFirstChar(s: string, sub: string)
    requires |sub| > 0 && sub[0] !in s
    ensures !Contains(s, sub)
    decreases |s|
  {
    if |s| > 0 {
      MissingFirstChar(s[1..], sub);
    }
  }

  /**
   `s.replace(pat, rep)` for a non-empty pattern: scanning from the left,
   every occurrence of `pat` that does not overlap an earlier replaced one
   becomes `rep`.
   */
  function ReplaceAll(s: string, pat: string, rep: string): (r: string)
    requires |pat| > 0
    ensures !Contains(s, pat) ==> r == s
    decreases |s|
  {
    if |s| == 0 then []
    else if IsPrefix(pat, s) then rep + ReplaceAll(s[|pat|..], pat, rep)
    else [s[0]] + ReplaceAll(s[1..], pat, rep)
  }

  /** A stretch that lacks the pattern's first character is copied through unchanged. */
  lemma {:induction false} ReplaceAllSkips(a: string, b: string, pat: string, rep: string)
    requires |pat| > 0 && pat[0] !in a
    ensures ReplaceAll(a + b, pat, rep) == a + ReplaceAll(b, pat, rep)
    decreases |a|
  {
    if a == [] {
      assert a + b == b;
    } else {
      assert (a + b)[0] == a[0] && (a + b)[1..] == a[1..] + b;
      assert !IsPrefix(pat, a + b);
      ReplaceAllSkips(a[1..], b, pat, rep);
    }
  }

  /** The pieces `ws` with `sep` between consecutive ones, as `sep.join(ws)`. */
  function Join(ws: seq<string>, sep: string): string
    decreases |ws|
  {
    if |ws| == 0 then []
    else if |ws| == 1 then ws[0]
    else ws[0] + sep + Join(ws[1..], sep)
  }

  /**
   `replace` rewrites every occurrence and keeps everything else: text cut
   at the occurrences of the pattern into pieces that lack its first
   character comes back with the replacement between the same pieces.
   */
  lemma {:induction false} ReplaceAllJoin(ws: seq<string>, pat: string, rep: string)
    requires |pat| > 0
    requires forall k :: 0 <= k < |ws| ==> pat[0] !in ws[k]
    ensures ReplaceAll(Join(ws, pat), pat, rep) == Join(ws, rep)
    decreases |ws|
  {
    if |ws| == 1 {
      MissingFirstChar(ws[0], pat);
    } else if |ws| > 1 {
      var tail := Join(ws[1..], pat);
      assert Join(ws, pat) == ws[0] + (pat + tail);
      ReplaceAllSkips(ws[0], pat + tail, pat, rep);
      assert IsPrefix(pat, pat + tail) && (pat + tail)[|pat|..] == tail;
      ReplaceAllJoin(ws[1..], pat, rep);
      assert Join(ws, rep) == ws[0] + (rep + Join(ws[1..], rep));
    }
  }

  /**
   When the replacement's first character does not occur in `w`, a prefix
   `w` of the replaced string was already a prefix of the original.
   */
  lemma {:induction false} PrefixSurvivesReplace(s: string, pat: string, rep: string, w: string)
    requires |pat| > 0 && |rep| > 0 && rep[0] !in w
    ensures IsPrefix(w, ReplaceAll(s, pat, rep)) ==> IsPrefix(w, s)
    decreases |s|
  {
    if |w| > 0 && |s| > 0 {
      var r := ReplaceAll(s, pat, rep);
      if IsPrefix(pat, s) {
        // r starts with rep[0], which w does not contain
        assert r[0] == rep[0];
      } else {
        var t := ReplaceAll(s[1..], pat, rep);
        PrefixSurvivesReplace(s[1..], pat, rep, w[1..]);
        assert r == [s[0]] + t;
        if IsPrefix(w, r) {
          assert w[1..] == t[..|w| - 1];
          assert s[..|w|] == [s[0]] + s[1..][..|w| - 1];
        }
      }
    }
  }

  /**
   After `replace`, the pattern no longer occurs anywhere, provided the
   replacement cannot start a new occurrence (it does not contain the
   pattern's first character) and cannot complete one that started just
   before it (its first character is not in the rest of the pattern).
   */
  lemma {:induction false} ReplaceAllRemoves(s: string, pat: string, rep: string)
    requires |pat| > 0 && |rep| > 0
    requires pat[0] !in rep && rep[0] !in pat[1..]
    ensures !Contains(ReplaceAll(s, pat, rep), pat)
    decreases |s|
  {
    var r := ReplaceAll(s, pat, rep);
    if |s| > 0 {
      if IsPrefix(pat, s) {
        var t := ReplaceAll(s[|pat|..], pat, rep);
        ReplaceAllRemoves(s[|pat|..], pat, rep);
        PrefixKeepsAbsent(rep, t, pat);
      } else {
        var t := ReplaceAll(s[1..], pat, rep);
        ReplaceAllRemoves(s[1..], pat, rep);
        assert r == [s[0]] + t;
        PrefixSurvivesReplace(s[1..], pat, rep, pat[1..]);
        if s[0] == pat[0] {
          assert !IsPrefix(pat[1..], s[1..]) by {
            assert |pat| <= |s| ==> s[..|pat|] == [s[0]] + s[1..][..|pat| - 1];
          }
        }
        ConsKeepsAbsent(s[0], t, pat);
      }
    }
  }

  /**
   One character in front of a string without the pattern creates an
   occurrence only by starting one that the string completes.
   */
  lemma ConsKeepsAbsent(c: char, t: string, pat: string)
    requires |pat| > 0 && !Contains(t, pat)
    requires c == pat[0] ==> !IsPrefix(pat[1..], t)
    ensures !Contains([c] + t, pat)
  {
    var ct := [c] + t;
    assert ct[1..] == t;
    if |pat| <= |ct| {
      assert ct[..|pat|] == [c] + t[..|pat| - 1];
    }
  }

  /** Prefixing a string that lacks the pattern with characters that do not include its first one keeps it absent. */
  lemma PrefixKeepsAbsent(p: string, u: string, pat: string)
    requires |pat| > 0 && pat[0] !in p && !Contains(u, pat)
    ensures !Contains(p + u, pat)
  {
    ContainsIffOccurs(u, pat);
    ContainsIffOccurs(p + u, pat);
    forall i | 0 <= i && i + |pat| <= |p + u| ensures !OccursAt(p + u, pat, i) {
      if i < |p| {
        assert (p + u)[i..i + |pat|][0] == p[i] != pat[0];
      } else {
        assert !OccursAt(u, pat, i - |p|);
        assert (p + u)[i..i + |pat|] == u[i - |p|..i - |p| + |pat|];
      }
    }
  }

  /**
   Python's `str.isspace()` characters, which `str.strip()` with no
   argument removes from both ends.
   */
  predicate IsSpace(c: char)
  {
    c == ' ' || ('\t' <= c <= '\r') || ('\U{1C}' <= c <= '\U{1F}') ||
    c == '\U{85}' || c == '\U{A0}' || c == '\U{1680}' ||
    ('\U{2000}' <= c <= '\U{200A}') || c == '\U{2028}' || c == '\U{2029}' ||
    c == '\U{202F}' || c == '\U{205F}' || c == '\U{3000}'
  }

  predicate AllSpace(s: string)
  {
    forall i :: 0 <= i < |s| ==> IsSpace(s[i])
  }

  /** `s.lstrip()`: the longest suffix of `s` that does not start with whitespace. */
  function TrimStart(s: string): (r: string)
    ensures |r| <= |s| && r == s[|s| - |r|..]
    ensures AllSpace(s[..|s| - |r|])
    ensures r != [] ==> !IsSpace(r[0])
    decreases |s|
  {
    if |s| > 0 && IsSpace(s[0]) then
      var r := TrimStart(s[1..]);
      assert s[1..][|s| - 1 - |r|..] == s[|s| - |r|..];
      assert s[..|s| - |r|] == [s[0]] + s[1..][..|s| - 1 - |r|];
      r
    else s
  }

  /** `s.rstrip()`: the longest prefix of `s` that does not end with whitespace. */
  function TrimEnd(s: string): (r: string)
    ensures |r| <= |s| && r == s[..|r|]
    ensures AllSpace(s[|r|..])
    ensures r != [] ==> !IsSpace(r[|r| - 1])
    decreases |s|
  {
    if |s| > 0 && IsSpace(s[|s| - 1]) then
      var r := TrimEnd(s[..|s| - 1]);
      assert s[..|s| - 1][..|r|] == s[..|r|];
      assert s[|r|..] == s[..|s| - 1][|r|..] + [s[|s| - 1]];
      r
    else s
  }

  /** `s.strip()`: the result neither starts nor ends with whitespace (see `StripInText`). */
  function Strip(s: string): (r: string)
    ensures |r| <= |s|
    ensures r != [] ==> !IsSpace(r[0]) && !IsSpace(r[|r| - 1])
  {
    var t := TrimStart(s);
    var r := TrimEnd(t);
    StripShape(s, t, r);
    r
  }

  /**
   What `strip()` removes is whitespace only: the stripped text occurs in
   `s` with nothing but whitespace before and after it.
   */
  lemma StripInText(s: string)
    ensures exists k :: OccursAt(s, Strip(s), k) && AllSpace(s[..k]) && AllSpace(s[k + |Strip(s)|..])
  {
    var t := TrimStart(s);
    StripShape(s, t, TrimEnd(t));
  }

  /** A right strip of a left strip of `s` sits in `s` between two runs of whitespace. */
  lemma StripShape(s: string, t: string, r: string)
    requires |t| <= |s| && t == s[|s| - |t|..] && AllSpace(s[..|s| - |t|])
    requires t != [] ==> !IsSpace(t[0])
    requires |r| <= |t| && r == t[..|r|] && AllSpace(t[|r|..])
    ensures OccursAt(s, r, |s| - |t|)
    ensures AllSpace(s[..|s| - |t|]) && AllSpace(s[|s| - |t| + |r|..])
    ensures r != [] ==> !IsSpace(r[0])
  {
    var k := |s| - |t|;
    assert s[k..k + |r|] == t[..|r|];
    assert s[k + |r|..] == t[|r|..];
  }

  /** Stripping twice is stripping once. */
  lemma StripIdempotent(s: string)
    ensures Strip(Strip(s)) == Strip(s)
  {
    var r := Strip(s);
    assert TrimStart(r) == r;
    assert TrimEnd(r) == r;
  }
}
