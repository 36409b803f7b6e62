/** Scanners for the regular expressions the detector uses, each written out by hand:
    the substitution `re.sub(r"http\S+", token, s)`, the leftmost non-overlapping
    match count of a literal alternation (`re.findall` and `str.count`), and the
    case-insensitive whole-word substitution `re.sub(r"\bword\b", repl, s, flags=re.I)`. */
module Matching {
  import opened Strings

  // ---------------------------------------------------------------------------
  // http\S+
  // ---------------------------------------------------------------------------

  /** The four characters `http` start at index `i` of `t`. */
  predicate HttpAt(t: string, i: int)
  {
    0 <= i && i + 4 <= |t| && t[i] == 'h' && t[i + 1] == 't' && t[i + 2] == 't' && t[i + 3] == 'p'
  }

  lemma HttpAtIsOccurrence(t: string, i: int)
    ensures HttpAt(t, i) <==> OccursAt(t, "http", i)
  {
    var p := "http";
    assert p[0] == 'h' && p[1] == 't' && p[2] == 't' && p[3] == 'p';
  }

  /** `http\S+` matches at the start of `s`: `http` and at least one more non-space character. */
  predicate HttpRunAt(s: string)
  {
    HttpAt(s, 0) && |s| >= 5 && !IsSpace(s[4])
  }

  /** Length of the longest prefix of `s` without whitespace: how far the greedy `\S+` reaches. */
  function RunLen(s: string): (n: nat)
    ensures n <= |s|
    ensures forall j :: 0 <= j < n ==> !IsSpace(s[j])
    ensures n == |s| || IsSpace(s[n])
  {
    if s == [] || IsSpace(s[0]) then 0 else 1 + RunLen(s[1..])
  }

  /** A match of `http\S+` spans at least five characters. */
  lemma RunLenOfMatch(s: string)
    requires HttpRunAt(s)
    ensures 5 <= RunLen(s)
  {
  }

  /** `re.sub(r"http\S+", token, s)`: scanning left to right, the text from each `http` that is
      followed by a non-space character to the end of its whitespace-free run becomes `token`. */
  function SubHttpRuns(s: string, token: string): string
    decreases |s|
  {
    if s == [] then []
    else if HttpRunAt(s) then
      RunLenOfMatch(s);
      token + SubHttpRuns(s[RunLen(s)..], token)
    else [s[0]] + SubHttpRuns(s[1..], token)
  }

  /** Each match is at least five characters long, so a token of at most five characters never
      makes the text longer. */
  lemma {:induction false} SubHttpRunsLength(s: string, token: string)
    requires |token| <= 5
    ensures |SubHttpRuns(s, token)| <= |s|
    decreases |s|
  {
    if s == [] {
    } else if HttpRunAt(s) {
      RunLenOfMatch(s);
      SubHttpRunsLength(s[RunLen(s)..], token);
    } else {
      SubHttpRunsLength(s[1..], token);
    }
  }

  /** Every output character comes from the text or the token, so neither adds an upper-case letter. */
  lemma {:induction false} SubHttpRunsNoUpper(s: string, token: string)
    requires NoUpper(s) && NoUpper(token)
    ensures NoUpper(SubHttpRuns(s, token))
    decreases |s|
  {
    if s == [] {
    } else if HttpRunAt(s) {
      RunLenOfMatch(s);
      SubHttpRunsNoUpper(s[RunLen(s)..], token);
    } else {
      SubHttpRunsNoUpper(s[1..], token);
    }
  }

  /** Where `http\S+` matches nowhere, the substitution leaves the text alone. */
  lemma {:induction false} SubHttpRunsIdentity(s: string, token: string)
    requires forall i :: 0 <= i <= |s| ==> !HttpRunAt(s[i..])
    ensures SubHttpRuns(s, token) == s
    decreases |s|
  {
    if s != [] {
      assert !HttpRunAt(s[0..]);
      assert s[0..] == s;
      forall i | 0 <= i <= |s[1..]|
        ensures !HttpRunAt(s[1..][i..])
      {
        assert s[1..][i..] == s[i + 1..];
      }
      SubHttpRunsIdentity(s[1..], token);
    }
  }

  /** A token none of whose characters is `h`, `t` or `p` cannot build part of an `http`. */
  predicate InertToken(token: string)
  {
    |token| > 0 && forall j :: 0 <= j < |token| ==> token[j] != 'h' && token[j] != 't' && token[j] != 'p'
  }

  /** An output that does not begin with the token's first character began with a copied character. */
  lemma SubHttpRunsCopiedHead(s: string, token: string)
    requires InertToken(token)
    requires |SubHttpRuns(s, token)| > 0 && SubHttpRuns(s, token)[0] != token[0]
    ensures |s| > 0 && !HttpRunAt(s)
    ensures SubHttpRuns(s, token) == [s[0]] + SubHttpRuns(s[1..], token)
  {
  }

  /** Every `http` in the text is followed by whitespace or by the end of the text. */
  predicate HttpOnlyBeforeSpace(t: string)
  {
    forall i :: 0 <= i <= |t| && HttpAt(t, i) ==> i + 4 == |t| || IsSpace(t[i + 4])
  }

  /** After the substitution with an inert token, every `http` left is followed by whitespace
      or the end: anything else would have been part of a match. */
  lemma {:induction false} SubHttpRunsLeavesNoRun(s: string, token: string)
    requires InertToken(token)
    ensures HttpOnlyBeforeSpace(SubHttpRuns(s, token))
    decreases |s|
  {
    var t := SubHttpRuns(s, token);
    if s == [] {
    } else if HttpRunAt(s) {
      RunLenOfMatch(s);
      var rest := s[RunLen(s)..];
      SubHttpRunsLeavesNoRun(rest, token);
      forall i | HttpAt(t, i)
        ensures i + 4 == |t| || IsSpace(t[i + 4])
      {
        if i < |token| {
          assert false;
        }
        assert HttpAt(SubHttpRuns(rest, token), i - |token|);
      }
    } else {
      var r := SubHttpRuns(s[1..], token);
      assert t == [s[0]] + r;
      SubHttpRunsLeavesNoRun(s[1..], token);
      forall i | HttpAt(t, i)
        ensures i + 4 == |t| || IsSpace(t[i + 4])
      {
        if i == 0 {
          // The `ttp` after the leading `h` was copied from s[1..4].
          SubHttpRunsCopiedHead(s[1..], token);
          assert s[1..][1..] == s[2..];
          SubHttpRunsCopiedHead(s[2..], token);
          assert s[2..][1..] == s[3..];
          SubHttpRunsCopiedHead(s[3..], token);
          assert s[3..][1..] == s[4..];
          assert t == s[..4] + SubHttpRuns(s[4..], token);
          // The leading `http` did not match, so it ends the text or meets whitespace.
          if |s| > 4 {
            assert IsSpace(s[4]);
            assert !HttpRunAt(s[4..]);
            assert t[4] == s[4];
          }
        } else {
          assert HttpAt(r, i - 1);
        }
      }
    }
  }

  // ---------------------------------------------------------------------------
  // Leftmost, non-overlapping matches of a literal alternation
  // ---------------------------------------------------------------------------

  predicate NonEmptyAll(alts: seq<string>)
  {
    forall k :: 0 <= k < |alts| ==> |alts[k]| > 0
  }

  /** `alts[k]` occurs at the start of `s` and no earlier alternative does: the one regex
      alternation picks there. */
  predicate FirstOccurring(s: string, alts: seq<string>, k: int)
  {
    0 <= k < |alts| && OccursAt(s, alts[k], 0) && forall k' :: 0 <= k' < k ==> !OccursAt(s, alts[k'], 0)
  }

  /** Length of the first alternative that `s` starts with, or 0 when none does: how regex
      alternation `a|b|...` chooses at one position. */
  function FirstMatch(s: string, alts: seq<string>): (n: nat)
    requires NonEmptyAll(alts)
    ensures n <= |s|
    ensures n > 0 ==> exists k :: 0 <= k < |alts| && |alts[k]| == n && FirstOccurring(s, alts, k)
    ensures n == 0 ==> forall k :: 0 <= k < |alts| ==> !OccursAt(s, alts[k], 0)
  {
    if alts == [] then 0
    else if OccursAt(s, alts[0], 0) then |alts[0]|
    else
      var n := FirstMatch(s, alts[1..]);
      assert n > 0 ==> exists k :: 0 <= k < |alts| && |alts[k]| == n && FirstOccurring(s, alts, k) by {
        if n > 0 {
          var k :| 0 <= k < |alts[1..]| && |alts[1..][k]| == n && FirstOccurring(s, alts[1..], k);
          assert forall k' :: 0 <= k' < k + 1 ==> !OccursAt(s, alts[k'], 0) by {
            forall k' | 0 <= k' < k + 1
              ensures !OccursAt(s, alts[k'], 0)
            {
              if k' > 0 {
                assert alts[k'] == alts[1..][k' - 1];
              }
            }
          }
          assert alts[k + 1] == alts[1..][k];
        }
      }
      n
  }

  /** Number of leftmost, non-overlapping matches of the alternation `alts` in `s`: the length of
      `re.findall` of the alternation, and `s.count(p)` when `alts == [p]`. */
  function CountMatches(s: string, alts: seq<string>): nat
    requires NonEmptyAll(alts)
    decreases |s|
  {
    if s == [] then 0
    else
      var n := FirstMatch(s, alts);
      if n > 0 then 1 + CountMatches(s[n..], alts) else CountMatches(s[1..], alts)
  }

  lemma OccursAtShift(s: string, p: string, i: nat)
    requires |s| > 0
    ensures OccursAt(s[1..], p, i) <==> OccursAt(s, p, i + 1)
  {
  }

  /** At least one match exactly when some alternative occurs somewhere. */
  lemma {:induction false} CountMatchesPositive(s: string, alts: seq<string>)
    requires NonEmptyAll(alts)
    ensures CountMatches(s, alts) > 0 <==> ContainsAny(s, alts)
    decreases |s|
  {
    if s == [] {
    } else if FirstMatch(s, alts) > 0 {
      var k :| 0 <= k < |alts| && |alts[k]| == FirstMatch(s, alts) && OccursAt(s, alts[k], 0);
      assert Contains(s, alts[k]);
    } else {
      CountMatchesPositive(s[1..], alts);
      if ContainsAny(s, alts) {
        var k, i :| 0 <= k < |alts| && 0 <= i <= |s| && OccursAt(s, alts[k], i);
        assert i > 0;
        OccursAtShift(s, alts[k], i - 1);
        assert Contains(s[1..], alts[k]);
      }
      if ContainsAny(s[1..], alts) {
        var k, i :| 0 <= k < |alts| && 0 <= i <= |s[1..]| && OccursAt(s[1..], alts[k], i);
        OccursAtShift(s, alts[k], i);
        assert Contains(s, alts[k]);
      }
    }
  }

  /** Matches do not overlap, so with every alternative at least `m` long,
      `m` times the count fits in the text. */
  lemma {:induction false} CountMatchesBound(s: string, alts: seq<string>, m: nat)
    requires NonEmptyAll(alts)
    requires forall k :: 0 <= k < |alts| ==> m <= |alts[k]|
    ensures m * CountMatches(s, alts) <= |s|
    decreases |s|
  {
    if s != [] {
      var n := FirstMatch(s, alts);
      if n > 0 {
        var k :| 0 <= k < |alts| && |alts[k]| == n && OccursAt(s, alts[k], 0);
        CountMatchesBound(s[n..], alts, m);
        assert m * (1 + CountMatches(s[n..], alts)) == m + m * CountMatches(s[n..], alts);
      } else {
        CountMatchesBound(s[1..], alts, m);
      }
    }
  }

  /** No alternative contains the character `c`. */
  predicate Avoids(alts: seq<string>, c: char)
  {
    forall k, j :: 0 <= k < |alts| && 0 <= j < |alts[k]| ==> alts[k][j] != c
  }

  lemma OccursAtStartOfConcat(a: string, b: string, w: string)
    requires |b| > 0 && forall j :: 0 <= j < |w| ==> w[j] != b[0]
    ensures OccursAt(a + b, w, 0) <==> OccursAt(a, w, 0)
  {
    if |w| > |a| {
      assert w[|a|] != b[0];
      assert (a + b)[|a|] == b[0];
    }
  }

  lemma {:induction false} FirstMatchOfConcat(a: string, b: string, alts: seq<string>)
    requires NonEmptyAll(alts) && |b| > 0 && Avoids(alts, b[0])
    ensures FirstMatch(a + b, alts) == FirstMatch(a, alts)
    decreases |alts|
  {
    if alts != [] {
      OccursAtStartOfConcat(a, b, alts[0]);
      assert Avoids(alts[1..], b[0]) by {
        forall k, j | 0 <= k < |alts[1..]| && 0 <= j < |alts[1..][k]|
          ensures alts[1..][k][j] != b[0]
        {
          assert alts[1..][k] == alts[k + 1];
        }
      }
      FirstMatchOfConcat(a, b, alts[1..]);
    }
  }

  /** When `b` starts with a character no alternative contains, no match straddles the seam,
      so the matches of `a + b` are those of `a` followed by those of `b`. */
  lemma {:induction false} CountMatchesOfConcat(a: string, b: string, alts: seq<string>)
    requires NonEmptyAll(alts) && |b| > 0 && Avoids(alts, b[0])
    ensures CountMatches(a + b, alts) == CountMatches(a, alts) + CountMatches(b, alts)
    decreases |a|
  {
    if a == [] {
      assert a + b == b;
    } else {
      FirstMatchOfConcat(a, b, alts);
      var n := FirstMatch(a, alts);
      if n > 0 {
        assert (a + b)[n..] == a[n..] + b;
        CountMatchesOfConcat(a[n..], b, alts);
      } else {
        assert (a + b)[1..] == a[1..] + b;
        CountMatchesOfConcat(a[1..], b, alts);
      }
    }
  }

  /** Writing a text twice with a separator no alternative contains doubles the count. */
  lemma CountMatchesOfRepeat(s: string, sep: char, alts: seq<string>)
    requires NonEmptyAll(alts) && Avoids(alts, sep)
    ensures CountMatches(s + [sep] + s, alts) == 2 * CountMatches(s, alts)
  {
    var b := [sep] + s;
    assert s + [sep] + s == s + b;
    CountMatchesOfConcat(s, b, alts);
    assert FirstMatch(b, alts) == 0 by {
      forall k | 0 <= k < |alts|
        ensures !OccursAt(b, alts[k], 0)
      {
        assert alts[k][0] != sep;
        assert b[0] == sep;
      }
    }
    assert b[1..] == s;
  }

  /** `https` at the start of `s`, character by character. */
  lemma HttpsAtStart(s: string)
    ensures OccursAt(s, "https", 0) <==> HttpAt(s, 0) && |s| >= 5 && s[4] == 's'
  {
    var p := "https";
    assert p[0] == 'h' && p[1] == 't' && p[2] == 't' && p[3] == 'p' && p[4] == 's';
  }

  /** A text that does not start with `h` starts no match of `[p]` whose first letter is `h`. */
  lemma CountSkipsNonH(s: string, p: string)
    requires |p| > 0 && p[0] == 'h'
    requires |s| > 0 && s[0] != 'h'
    ensures CountMatches(s, [p]) == CountMatches(s[1..], [p])
  {
    assert !OccursAt(s, p, 0);
  }

  /** Every non-overlapping `https` begins a non-overlapping `http`, so `s.count("https")`
      never exceeds `s.count("http")`. */
  lemma {:induction false} CountHttpsAtMostHttp(s: string)
    ensures CountMatches(s, ["https"]) <= CountMatches(s, ["http"])
    decreases |s|
  {
    HttpsAtStart(s);
    HttpAtIsOccurrence(s, 0);
    if s == [] {
    } else if OccursAt(s, "https", 0) {
      assert FirstMatch(s, ["https"]) == 5;
      assert FirstMatch(s, ["http"]) == 4;
      // s[4] is `s`, so the `http` scan moves from index 4 straight on to index 5.
      CountSkipsNonH(s[4..], "http");
      assert s[4..][1..] == s[5..];
      CountHttpsAtMostHttp(s[5..]);
    } else if OccursAt(s, "http", 0) {
      assert FirstMatch(s, ["https"]) == 0;
      assert FirstMatch(s, ["http"]) == 4;
      // s[1..4] is `ttp`: no `https` starts there.
      CountSkipsNonH(s[1..], "https");
      CountSkipsNonH(s[2..], "https");
      CountSkipsNonH(s[3..], "https");
      assert s[1..][1..] == s[2..] && s[2..][1..] == s[3..] && s[3..][1..] == s[4..];
      CountHttpsAtMostHttp(s[4..]);
    } else {
      assert FirstMatch(s, ["https"]) == 0;
      assert FirstMatch(s, ["http"]) == 0;
      CountHttpsAtMostHttp(s[1..]);
    }
  }

  // ---------------------------------------------------------------------------
  // \bword\b with re.I
  // ---------------------------------------------------------------------------

  /** A keyword as the highlighter writes it: non-empty and all lower-case letters. */
  predicate IsKeyword(w: string)
  {
    |w| > 0 && forall j :: 0 <= j < |w| ==> IsLower(w[j])
  }

  /** `s` starts with `w` up to ASCII case, followed by a non-word character or the end of `s`. */
  predicate WordMatch(s: string, w: string)
  {
    |w| <= |s| && (forall j :: 0 <= j < |w| ==> Lower(s[j]) == w[j]) &&
    (|w| == |s| || !IsWordChar(s[|w|]))
  }

  /** The character before index `k` of `t` is a word character. */
  predicate AfterWordChar(t: string, k: int)
  {
    0 < k <= |t| && IsWordChar(t[k - 1])
  }

  /** `\bw\b` with `re.I` matches `t` at index `i`: a word boundary, `w` up to case, a word boundary. */
  predicate WholeWordAt(t: string, w: string, i: int)
  {
    0 <= i <= |t| && !AfterWordChar(t, i) && WordMatch(t[i..], w)
  }

  /** `w` occurs nowhere in `t` as a whole word, in any casing. */
  predicate NoWholeWordOf(t: string, w: string)
  {
    forall i :: 0 <= i <= |t| ==> !WholeWordAt(t, w, i)
  }

  /** The scan behind `re.sub(r"\bw\b", repl, t, flags=re.I)` from some index on; `afterWord` says
      whether the character before the scanned suffix is a word character. */
  function SubWholeWordFrom(t: string, w: string, repl: string, afterWord: bool): string
    requires IsKeyword(w)
    decreases |t|
  {
    if t == [] then []
    else if !afterWord && WordMatch(t, w) then repl + SubWholeWordFrom(t[|w|..], w, repl, true)
    else [t[0]] + SubWholeWordFrom(t[1..], w, repl, IsWordChar(t[0]))
  }

  /** `re.sub(r"\bw\b", repl, t, flags=re.I)`. */
  function SubWholeWord(t: string, w: string, repl: string): string
    requires IsKeyword(w)
  {
    SubWholeWordFrom(t, w, repl, false)
  }

  lemma {:induction false} SubWholeWordFromUnchanged(t: string, w: string, repl: string, k: nat)
    requires IsKeyword(w)
    requires k <= |t|
    requires forall i :: k <= i <= |t| ==> !WholeWordAt(t, w, i)
    ensures SubWholeWordFrom(t[k..], w, repl, AfterWordChar(t, k)) == t[k..]
    decreases |t| - k
  {
    if k < |t| {
      assert !WholeWordAt(t, w, k);
      assert t[k..][1..] == t[k + 1..];
      assert AfterWordChar(t, k + 1) == IsWordChar(t[k..][0]);
      SubWholeWordFromUnchanged(t, w, repl, k + 1);
    }
  }

  /** A replacement at least as long as the keyword never shortens the text. */
  lemma {:induction false} SubWholeWordFromNeverShrinks(t: string, w: string, repl: string, afterWord: bool)
    requires IsKeyword(w) && |w| <= |repl|
    ensures |t| <= |SubWholeWordFrom(t, w, repl, afterWord)|
    decreases |t|
  {
    if t == [] {
    } else if !afterWord && WordMatch(t, w) {
      SubWholeWordFromNeverShrinks(t[|w|..], w, repl, true);
    } else {
      SubWholeWordFromNeverShrinks(t[1..], w, repl, IsWordChar(t[0]));
    }
  }

  /** The scan finds a whole-word match at any index it reaches; with a longer replacement
      the text then grows. */
  lemma {:induction false} SubWholeWordFromGrows(t: string, w: string, repl: string, k: nat, i: nat)
    requires IsKeyword(w) && |w| < |repl|
    requires k <= i && WholeWordAt(t, w, i)
    ensures |t[k..]| < |SubWholeWordFrom(t[k..], w, repl, AfterWordChar(t, k))|
    decreases i - k
  {
    var u := t[k..];
    if !AfterWordChar(t, k) && WordMatch(u, w) {
      SubWholeWordFromNeverShrinks(u[|w|..], w, repl, true);
    } else {
      assert k < i;
      assert u[1..] == t[k + 1..];
      assert AfterWordChar(t, k + 1) == IsWordChar(u[0]);
      SubWholeWordFromGrows(t, w, repl, k + 1, i);
    }
  }

  /** With a replacement longer than the keyword, the substitution leaves `t` unchanged exactly
      when `w` occurs nowhere in `t` as a whole word, ignoring case, and lengthens it otherwise. */
  lemma SubWholeWordUnchangedIff(t: string, w: string, repl: string)
    requires IsKeyword(w) && |w| < |repl|
    ensures NoWholeWordOf(t, w) ==> SubWholeWord(t, w, repl) == t
    ensures !NoWholeWordOf(t, w) ==> |t| < |SubWholeWord(t, w, repl)|
  {
    assert t[0..] == t;
    if NoWholeWordOf(t, w) {
      SubWholeWordFromUnchanged(t, w, repl, 0);
    } else {
      var i :| 0 <= i <= |t| && WholeWordAt(t, w, i);
      SubWholeWordFromGrows(t, w, repl, 0, i);
    }
  }

  /** A text that is the keyword in any casing becomes exactly the replacement. */
  lemma WholeTextIsKeyword(t: string, w: string, repl: string)
    requires IsKeyword(w)
    requires |t| == |w| && forall j :: 0 <= j < |w| ==> Lower(t[j]) == w[j]
    ensures SubWholeWord(t, w, repl) == repl
  {
    assert WordMatch(t, w);
    assert t[|w|..] == [];
    assert SubWholeWordFrom(t[|w|..], w, repl, true) == [];
    assert SubWholeWord(t, w, repl) == repl + [];
  }
}
