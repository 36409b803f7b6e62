/** The text logic of the single-file detector: the normaliser that feeds the spam classifier,
    the four phishing features, the keyword highlighter, and the rule that turns the two
    classifier outputs into one verdict. */
module App {
  import opened Strings
  import opened Matching

  // ---------------------------------------------------------------------------
  // clean_text
  // ---------------------------------------------------------------------------

  /** The token that stands for a URL; upper case, unlike the rest of the normalised text. */
  const UrlToken: string := " URL "

  /** `s.translate(str.maketrans("", "", string.punctuation))`. */
  function DeletePunctuation(s: string): string
  {
    if s == [] then []
    else (if IsPunctuation(s[0]) then [] else [s[0]]) + DeletePunctuation(s[1..])
  }

  /** Punctuation is deleted, not replaced: none is left, text without any is unchanged,
      and text with some gets shorter. */
  lemma {:induction false} DeletePunctuationSpec(s: string)
    ensures |DeletePunctuation(s)| <= |s|
    ensures forall j :: 0 <= j < |DeletePunctuation(s)| ==> !IsPunctuation(DeletePunctuation(s)[j])
    ensures (forall j :: 0 <= j < |s| ==> !IsPunctuation(s[j])) ==> DeletePunctuation(s) == s
    ensures (exists j :: 0 <= j < |s| && IsPunctuation(s[j])) ==> |DeletePunctuation(s)| < |s|
    decreases |s|
  {
    if s != [] {
      DeletePunctuationSpec(s[1..]);
      if exists j :: 0 <= j < |s| && IsPunctuation(s[j]) {
        var j :| 0 <= j < |s| && IsPunctuation(s[j]);
        if j > 0 {
          assert IsPunctuation(s[1..][j - 1]);
        }
      }
    }
  }

  /** Deletion works character by character: a one-character text is kept exactly when it is
      not punctuation, and text split anywhere is cleaned piece by piece, so every other
      character is kept in its order. */
  lemma {:induction false} DeletePunctuationConcat(a: string, b: string)
    ensures |a| == 1 ==> DeletePunctuation(a) == if IsPunctuation(a[0]) then [] else a
    ensures DeletePunctuation(a + b) == DeletePunctuation(a) + DeletePunctuation(b)
    decreases |a|
  {
    if a == [] {
      assert a + b == b;
    } else {
      var head := if IsPunctuation(a[0]) then [] else [a[0]];
      assert (a + b)[0] == a[0];
      assert (a + b)[1..] == a[1..] + b;
      DeletePunctuationConcat(a[1..], b);
      assert DeletePunctuation(a) == head + DeletePunctuation(a[1..]);
      assert DeletePunctuation(a + b) == head + (DeletePunctuation(a[1..]) + DeletePunctuation(b));
      if |a| == 1 {
        assert DeletePunctuation(a[1..]) == [];
      }
    }
  }

  /** `clean_text`: lower-case, every `http\S+` run becomes " URL ", punctuation is deleted. */
  function CleanText(s: string): string
  {
    DeletePunctuation(SubHttpRuns(LowerStr(s), UrlToken))
  }

  /** The normalised text has no punctuation, and no more characters than the input:
      each URL run is at least five characters and becomes five. */
  lemma CleanTextShape(s: string)
    ensures forall j :: 0 <= j < |CleanText(s)| ==> !IsPunctuation(CleanText(s)[j])
    ensures |CleanText(s)| <= |s|
  {
    SubHttpRunsLength(LowerStr(s), UrlToken);
    DeletePunctuationSpec(SubHttpRuns(LowerStr(s), UrlToken));
  }

  lemma TokenKept()
    ensures DeletePunctuation(UrlToken) == UrlToken
  {
    assert forall j :: 0 <= j < |UrlToken| ==> !IsPunctuation(UrlToken[j]);
    DeletePunctuationSpec(UrlToken);
  }

  /** A text that is one URL run normalises to the token alone. */
  lemma UrlRunNormalised(s: string)
    requires NoUpper(s) && HttpRunAt(s)
    requires forall j :: 0 <= j < |s| ==> !IsSpace(s[j])
    ensures CleanText(s) == UrlToken
  {
    LowerStrIdentity(s);
    assert RunLen(s) == |s|;
    assert s[|s|..] == [];
    assert SubHttpRuns(s, UrlToken) == UrlToken;
    TokenKept();
  }

  lemma FirstPassOnUrl()
    ensures CleanText("http://a") == " URL "
    ensures CleanText("httpx") == " URL "
  {
    var s, u := "http://a", "httpx";
    assert HttpRunAt(s) && HttpRunAt(u);
    assert forall j :: 0 <= j < |s| ==> !IsSpace(s[j]) && !IsUpper(s[j]);
    assert forall j :: 0 <= j < |u| ==> !IsSpace(u[j]) && !IsUpper(u[j]);
    UrlRunNormalised(s);
    UrlRunNormalised(u);
  }

  lemma SecondPassOnUrl()
    ensures CleanText(" URL ") == " url "
  {
    var u := " url ";
    assert LowerStr(UrlToken) == u;
    forall i | 0 <= i <= |u|
      ensures !HttpRunAt(u[i..])
    {
      if i < |u| {
        assert u[i..][0] == u[i];
      }
    }
    SubHttpRunsIdentity(u, UrlToken);
    assert forall j :: 0 <= j < |u| ==> !IsPunctuation(u[j]);
    DeletePunctuationSpec(u);
  }

  /** Normalising is not idempotent: the inserted " URL " is lowered by a second pass. */
  lemma CleanTextNotIdempotent()
    ensures CleanText(CleanText("http://a")) != CleanText("http://a")
  {
    FirstPassOnUrl();
    SecondPassOnUrl();
    assert " url "[1] != " URL "[1];
  }

  lemma DeletesDot()
    ensures DeletePunctuation("ht.tpx") == "httpx"
  {
    var s := "ht.tpx";
    assert s[1..] == "t.tpx" && s[2..] == ".tpx" && s[3..] == "tpx";
    assert DeletePunctuation("tpx") == "tpx";
    assert DeletePunctuation(".tpx") == "tpx";
    assert DeletePunctuation("t.tpx") == "ttpx";
  }

  lemma JoinedByDeletion()
    ensures CleanText("ht.tpx") == "httpx"
  {
    var s := "ht.tpx";
    LowerStrIdentity(s);
    forall i | 0 <= i <= |s|
      ensures !HttpRunAt(s[i..])
    {
      if i < |s| {
        assert s[i..][0] == s[i];
        assert i + 2 < |s| ==> s[i..][2] == s[i + 2];
      }
    }
    SubHttpRunsIdentity(s, UrlToken);
    DeletesDot();
  }

  /** Deleting punctuation can join the pieces of a new `http` run, which a second pass then
      replaces: a lower-case token alone would not make the normaliser idempotent. */
  lemma DeletionCreatesUrl()
    ensures CleanText(CleanText("ht.tpx")) == " URL " != CleanText("ht.tpx")
  {
    JoinedByDeletion();
    FirstPassOnUrl();
    assert " URL "[0] != "httpx"[0];
  }

  // ---------------------------------------------------------------------------
  // extract_phishing_features
  // ---------------------------------------------------------------------------

  const LoginKeywords: seq<string> := ["verify", "update", "login", "confirm", "password", "bank"]

  /** The four features, in the order the dictionary literal builds them. */
  datatype PhishingFeatureDict = PhishingFeatureDict(httpsCount: nat, httpCount: nat, loginWords: nat, suspiciousDomain: nat)
  {
    /** `[*features.values()]`: the vector handed to the phishing classifier. */
    function Values(): (v: seq<nat>)
      ensures |v| == 4
      ensures v[0] == httpsCount && v[1] == httpCount && v[2] == loginWords && v[3] == suspiciousDomain
    {
      [httpsCount, httpCount, loginWords, suspiciousDomain]
    }
  }

  /** `sum(word in t for word in ws)`: how many of `ws` occur in `t`, each counted once. */
  function CountPresent(t: string, ws: seq<string>): (n: nat)
    ensures n <= |ws|
    ensures n == 0 <==> forall k :: 0 <= k < |ws| ==> !Contains(t, ws[k])
    ensures n == |ws| <==> forall k :: 0 <= k < |ws| ==> Contains(t, ws[k])
  {
    if ws == [] then 0
    else (if Contains(t, ws[0]) then 1 else 0) + CountPresent(t, ws[1..])
  }

  /** The count adds over the word list, one word counting 1 exactly when it occurs: the sum
      of `word in t` over the words. */
  lemma {:induction false} CountPresentConcat(t: string, a: seq<string>, b: seq<string>)
    ensures |a| == 1 ==> CountPresent(t, a) == if Contains(t, a[0]) then 1 else 0
    ensures CountPresent(t, a + b) == CountPresent(t, a) + CountPresent(t, b)
    decreases |a|
  {
    if a == [] {
      assert a + b == b;
    } else {
      assert (a + b)[0] == a[0];
      assert (a + b)[1..] == a[1..] + b;
      CountPresentConcat(t, a[1..], b);
    }
  }

  const SuspiciousTlds: seq<string> := [".xyz", ".top", ".zip"]

  /** `extract_phishing_features`: every feature is read off the lower-cased text. */
  function ExtractPhishingFeatures(text: string): (f: PhishingFeatureDict)
    ensures f.httpsCount <= f.httpCount
    ensures f.httpCount > 0 <==> Contains(LowerStr(text), "http")
    ensures f.loginWords <= |LoginKeywords|
    ensures f.loginWords == 0 <==> forall k :: 0 <= k < |LoginKeywords| ==> !Contains(LowerStr(text), LoginKeywords[k])
    ensures f.suspiciousDomain <= 1
    ensures f.suspiciousDomain == 1 <==> ContainsAny(LowerStr(text), SuspiciousTlds)
  {
    var t := LowerStr(text);
    CountHttpsAtMostHttp(t);
    CountMatchesPositive(t, ["http"]);
    assert ContainsAny(t, ["http"]) <==> Contains(t, "http") by {
      assert ["http"][0] == "http";
    }
    assert ContainsAny(t, SuspiciousTlds) <==>
      Contains(t, ".xyz") || Contains(t, ".top") || Contains(t, ".zip") by {
      assert SuspiciousTlds[0] == ".xyz" && SuspiciousTlds[1] == ".top" && SuspiciousTlds[2] == ".zip";
    }
    PhishingFeatureDict(
      CountMatches(t, ["https"]),
      CountMatches(t, ["http"]),
      CountPresent(t, LoginKeywords),
      if Contains(t, ".xyz") || Contains(t, ".top") || Contains(t, ".zip") then 1 else 0)
  }

  /** Only the lower-cased text matters: changing letter case changes no feature. */
  lemma PhishingFeaturesIgnoreCase(s: string, u: string)
    requires LowerStr(s) == LowerStr(u)
    ensures ExtractPhishingFeatures(s) == ExtractPhishingFeatures(u)
    ensures ExtractPhishingFeatures(s) == ExtractPhishingFeatures(LowerStr(s))
  {
    LowerStrIdempotent(s);
  }

  // ---------------------------------------------------------------------------
  // color_words
  // ---------------------------------------------------------------------------

  const Suspicious: seq<string> :=
    ["verify", "update", "login", "confirm", "password", "urgent", "bank", "account", "click", "secure"]

  lemma SuspiciousAreKeywords()
    ensures forall k :: 0 <= k < |Suspicious| ==> IsKeyword(Suspicious[k])
  {
  }

  /** The highlight markup around a keyword, always in the keyword's own lower-case spelling. */
  function Span(w: string): (r: string)
    ensures |r| == |w| + 31
  {
    "<span class='highlight'>" + w + "</span>"
  }

  /** One pass of the loop: highlight every whole-word, case-insensitive match of `w`. */
  function Highlight(t: string, w: string): string
    requires IsKeyword(w)
  {
    SubWholeWord(t, w, Span(w))
  }

  predicate AllKeywords(ws: seq<string>)
  {
    forall k :: 0 <= k < |ws| ==> IsKeyword(ws[k])
  }

  /** The passes for `ws` in order, each one over the previous one's output. */
  function ColorFold(t: string, ws: seq<string>): string
    requires AllKeywords(ws)
  {
    if ws == [] then t else Highlight(ColorFold(t, ws[..|ws| - 1]), ws[|ws| - 1])
  }

  /** No keyword of `ws` occurs in `t` as a whole word, in any casing. */
  predicate NoWholeWord(t: string, ws: seq<string>)
  {
    forall k, i :: 0 <= k < |ws| && 0 <= i <= |t| ==> !WholeWordAt(t, ws[k], i)
  }

  lemma NoWholeWordSnoc(t: string, ws: seq<string>)
    requires |ws| > 0
    ensures NoWholeWord(t, ws) <==>
      NoWholeWord(t, ws[..|ws| - 1]) && NoWholeWordOf(t, ws[|ws| - 1])
  {
    var init := ws[..|ws| - 1];
    if NoWholeWord(t, init) && NoWholeWordOf(t, ws[|ws| - 1]) {
      forall k, i | 0 <= k < |ws| && 0 <= i <= |t|
        ensures !WholeWordAt(t, ws[k], i)
      {
        if k < |ws| - 1 {
          assert ws[k] == init[k];
        }
      }
    }
    if NoWholeWord(t, ws) {
      forall k, i | 0 <= k < |init| && 0 <= i <= |t|
        ensures !WholeWordAt(t, init[k], i)
      {
        assert ws[k] == init[k];
      }
    }
  }

  /** The passes leave the text unchanged when none of the keywords occurs in it as a whole
      word, and lengthen it otherwise. */
  lemma {:induction false} ColorFoldUnchangedIff(t: string, ws: seq<string>)
    requires AllKeywords(ws)
    ensures |t| <= |ColorFold(t, ws)|
    ensures NoWholeWord(t, ws) ==> ColorFold(t, ws) == t
    ensures !NoWholeWord(t, ws) ==> |t| < |ColorFold(t, ws)|
    decreases |ws|
  {
    if ws != [] {
      var init, w := ws[..|ws| - 1], ws[|ws| - 1];
      assert AllKeywords(init) by {
        forall k | 0 <= k < |init|
          ensures IsKeyword(init[k])
        {
          assert init[k] == ws[k];
        }
      }
      ColorFoldUnchangedIff(t, init);
      var u := ColorFold(t, init);
      assert ColorFold(t, ws) == Highlight(u, w);
      SubWholeWordUnchangedIff(u, w, Span(w));
      NoWholeWordSnoc(t, ws);
    }
  }

  /** Each pass extends the fold over a prefix of the keywords by one keyword. */
  lemma ColorFoldStep(t: string, ws: seq<string>, n: nat)
    requires AllKeywords(ws) && n < |ws|
    ensures AllKeywords(ws[..n]) && AllKeywords(ws[..n + 1])
    ensures ColorFold(t, ws[..n + 1]) == Highlight(ColorFold(t, ws[..n]), ws[n])
  {
    assert ws[..n + 1][..n] == ws[..n];
  }

  /** `color_words`: the loop over the ten keywords, each pass re-reading the previous result. */
  method ColorWords(text: string) returns (r: string)
    ensures AllKeywords(Suspicious)
    ensures r == ColorFold(text, Suspicious)
    ensures r == text <==> NoWholeWord(text, Suspicious)
    ensures |text| <= |r|
  {
    SuspiciousAreKeywords();
    r := text;
    for n := 0 to |Suspicious|
      invariant AllKeywords(Suspicious[..n]) && r == ColorFold(text, Suspicious[..n])
    {
      ColorFoldStep(text, Suspicious, n);
      r := Highlight(r, Suspicious[n]);
    }
    assert Suspicious[..|Suspicious|] == Suspicious;
    ColorFoldUnchangedIff(text, Suspicious);
  }

  /** A keyword is written back in its canonical lower-case spelling: `BANK` is highlighted as `bank`. */
  lemma HighlightCanonical()
    ensures Highlight("BANK", "bank") == Span("bank")
  {
    var p := "bank";
    var t := "BANK";
    assert Lower(t[0]) == p[0] && Lower(t[1]) == p[1] && Lower(t[2]) == p[2] && Lower(t[3]) == p[3];
    WholeTextIsKeyword(t, p, Span(p));
  }

  // ---------------------------------------------------------------------------
  // The verdict
  // ---------------------------------------------------------------------------

  datatype Verdict = Phishing | Spam | Safe

  /** Phishing needs a positive label and a probability strictly above this. */
  const PhishThreshold: real := 0.65

  /** The verdict chain: phishing first, then the spam classifier's own label, else safe.
      The spam label is compared with the string "spam". */
  function Fuse(phishPred: int, phishProb: real, spamPred: string): (v: Verdict)
    ensures v == Phishing <==> phishPred == 1 && phishProb > PhishThreshold
    ensures v == Spam <==> !(phishPred == 1 && phishProb > PhishThreshold) && spamPred == "spam"
    ensures v == Safe <==> !(phishPred == 1 && phishProb > PhishThreshold) && spamPred != "spam"
  {
    if phishPred == 1 && phishProb > PhishThreshold then Phishing
    else if spamPred == "spam" then Spam
    else Safe
  }

  /** The threshold itself is not phishing, whatever the spam classifier says. */
  lemma FuseBoundary(spamPred: string)
    ensures Fuse(1, PhishThreshold, spamPred) != Phishing
    ensures Fuse(1, PhishThreshold, spamPred) == (if spamPred == "spam" then Spam else Safe)
  {
  }

  /** Raising the phishing probability never takes a phishing verdict away. */
  lemma FuseMonotone(phishPred: int, p: real, q: real, spamPred: string)
    requires p <= q
    ensures Fuse(phishPred, p, spamPred) == Phishing ==> Fuse(phishPred, q, spamPred) == Phishing
    ensures Fuse(phishPred, q, spamPred) == Safe ==> Fuse(phishPred, p, spamPred) == Safe
  {
  }
}
