/** Where the two detectors' text logic differs: counting keywords present against counting
    keyword occurrences, and deleting punctuation against replacing it with a space. */
module Variants {
  import opened Strings
  import opened Matching
  import App
  import TextCleaner
  import PhishingFeatures

  lemma LowerStrOfRepeat(s: string)
    ensures LowerStr(s + " " + s) == LowerStr(s) + " " + LowerStr(s)
  {
  }

  /** `sum(word in t ...)` depends only on which words occur. */
  lemma {:induction false} CountPresentSameWords(t: string, u: string, ws: seq<string>)
    requires forall k :: 0 <= k < |ws| ==> (Contains(t, ws[k]) <==> Contains(u, ws[k]))
    ensures App.CountPresent(t, ws) == App.CountPresent(u, ws)
    decreases |ws|
  {
    if ws != [] {
      assert Contains(t, ws[0]) <==> Contains(u, ws[0]);
      forall k | 0 <= k < |ws[1..]|
        ensures Contains(t, ws[1..][k]) <==> Contains(u, ws[1..][k])
      {
        assert ws[1..][k] == ws[k + 1];
      }
      CountPresentSameWords(t, u, ws[1..]);
    }
  }

  /** A word without spaces occurs in `t + " " + t` exactly when it occurs in `t`. */
  lemma ContainsOfRepeat(t: string, w: string)
    requires |w| > 0 && forall j :: 0 <= j < |w| ==> w[j] != ' '
    ensures Contains(t + " " + t, w) <==> Contains(t, w)
  {
    assert Avoids([w], ' ');
    assert t + " " + t == t + [' '] + t;
    CountMatchesOfRepeat(t, ' ', [w]);
    CountMatchesPositive(t, [w]);
    CountMatchesPositive(t + " " + t, [w]);
    assert [w][0] == w;
  }

  lemma LoginWordsOfRepeat(t: string)
    ensures App.CountPresent(t + " " + t, App.LoginKeywords) == App.CountPresent(t, App.LoginKeywords)
  {
    forall k | 0 <= k < |App.LoginKeywords|
      ensures Contains(t + " " + t, App.LoginKeywords[k]) <==> Contains(t, App.LoginKeywords[k])
    {
      ContainsOfRepeat(t, App.LoginKeywords[k]);
    }
    CountPresentSameWords(t + " " + t, t, App.LoginKeywords);
  }

  lemma CountOfRepeat(t: string, alts: seq<string>)
    requires NonEmptyAll(alts) && Avoids(alts, ' ')
    ensures CountMatches(t + " " + t, alts) == 2 * CountMatches(t, alts)
  {
    assert t + " " + t == t + [' '] + t;
    CountMatchesOfRepeat(t, ' ', alts);
  }

  /** Writing the message twice leaves `login_words` as it was, because it counts the keywords
      present, while the `http` count doubles, because it counts occurrences. */
  lemma PhishingCountsOfRepeat(s: string)
    ensures App.ExtractPhishingFeatures(s + " " + s).loginWords == App.ExtractPhishingFeatures(s).loginWords
    ensures App.ExtractPhishingFeatures(s + " " + s).httpCount == 2 * App.ExtractPhishingFeatures(s).httpCount
  {
    var t := LowerStr(s);
    LowerStrOfRepeat(s);
    LoginWordsOfRepeat(t);
    CountOfRepeat(t, ["http"]);
  }

  /** Writing the message twice doubles `risky_count`: every occurrence counts. */
  lemma RiskyCountOfRepeat(s: string)
    ensures PhishingFeatures.RiskyCount(s + " " + s) == 2 * PhishingFeatures.RiskyCount(s)
  {
    LowerStrOfRepeat(s);
    CountOfRepeat(LowerStr(s), PhishingFeatures.RiskyKeywords);
  }

  /** On text without `http`, a punctuation mark makes the single-file normaliser's output
      shorter than the input, while the two-file normaliser's output keeps the input's length. */
  lemma CleanersDisagreeOnPunctuation(s: string, j: nat)
    requires !Contains(LowerStr(s), "http")
    requires j < |s| && IsPunctuation(s[j])
    ensures |App.CleanText(s)| < |s| == |TextCleaner.CleanText(s)|
  {
    TextCleaner.CleanTextWithoutUrl(s);
    var t := LowerStr(s);
    forall i | 0 <= i <= |t|
      ensures !HttpRunAt(t[i..])
    {
      if HttpRunAt(t[i..]) {
        assert HttpAt(t, i);
        HttpAtIsOccurrence(t, i);
        assert false;
      }
    }
    SubHttpRunsIdentity(t, App.UrlToken);
    assert IsPunctuation(t[j]);
    App.DeletePunctuationSpec(t);
  }
}
