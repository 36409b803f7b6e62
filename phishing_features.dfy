/** The five-value feature list of the two-file detector. */
module PhishingFeatures {
  import opened Strings
  import opened Matching

  /** `http[s]?://`: the optional `s` is tried first, and at one index at most one of the two fits. */
  const UrlSchemes: seq<string> := ["https://", "http://"]

  const RiskyDomains: seq<string> := [".ru", ".cn", ".tk", ".xyz"]

  /** The alternation `(verify|password|click|login|urgent|bank|update)`, in its order. */
  const RiskyKeywords: seq<string> := ["verify", "password", "click", "login", "urgent", "bank", "update"]

  /** `len(re.findall(r"http[s]?://", text))`, on the text as given: case matters. */
  function UrlCount(text: string): nat
  {
    CountMatches(text, UrlSchemes)
  }

  /** `1 if re.search(r"\.ru|\.cn|\.tk|\.xyz", text.lower()) else 0`. */
  function DomainFlag(text: string): nat
  {
    if ContainsAny(LowerStr(text), RiskyDomains) then 1 else 0
  }

  /** `len(re.findall(r"(verify|...|update)", text.lower()))`: every occurrence counts. */
  function RiskyCount(text: string): nat
  {
    CountMatches(LowerStr(text), RiskyKeywords)
  }

  /** `sum(c.isdigit() for c in text)`. */
  function DigitCount(text: string): (n: nat)
    ensures n <= |text|
    ensures n == 0 <==> forall j :: 0 <= j < |text| ==> !IsDigit(text[j])
    ensures n == |text| <==> forall j :: 0 <= j < |text| ==> IsDigit(text[j])
  {
    if text == [] then 0
    else (if IsDigit(text[0]) then 1 else 0) + DigitCount(text[1..])
  }

  /** The count adds over the text, one character counting 1 exactly when it is a digit. */
  lemma {:induction false} DigitCountConcat(a: string, b: string)
    ensures |a| == 1 ==> DigitCount(a) == if IsDigit(a[0]) then 1 else 0
    ensures DigitCount(a + b) == DigitCount(a) + DigitCount(b)
    decreases |a|
  {
    if a == [] {
      assert a + b == b;
    } else {
      assert (a + b)[0] == a[0];
      assert (a + b)[1..] == a[1..] + b;
      DigitCountConcat(a[1..], b);
    }
  }

  /** `extract_features`: `[url_count, domain_flag, risky_count, digit_count, length]`. */
  function ExtractFeatures(text: string): (v: seq<nat>)
    ensures |v| == 5
    ensures v[0] == UrlCount(text) && v[1] == DomainFlag(text) && v[2] == RiskyCount(text)
    ensures v[3] == DigitCount(text) && v[4] == |text|
    ensures 7 * v[0] <= v[4]
    ensures v[0] > 0 <==> ContainsAny(text, UrlSchemes)
    ensures v[1] <= 1
    ensures v[2] > 0 <==> ContainsAny(LowerStr(text), RiskyKeywords)
    ensures v[3] <= v[4]
  {
    UrlCountBound(text);
    CountMatchesPositive(text, UrlSchemes);
    CountMatchesPositive(LowerStr(text), RiskyKeywords);
    [UrlCount(text), DomainFlag(text), RiskyCount(text), DigitCount(text), |text|]
  }

  /** Each URL-prefix match is at least seven characters and matches do not overlap. */
  lemma UrlCountBound(text: string)
    ensures 7 * UrlCount(text) <= |text|
  {
    CountMatchesBound(text, UrlSchemes, 7);
  }

  /** The keyword count ignores letter case; the URL count does not. */
  lemma RiskyCountIgnoresCase(s: string, u: string)
    requires LowerStr(s) == LowerStr(u)
    ensures RiskyCount(s) == RiskyCount(u)
    ensures DomainFlag(s) == DomainFlag(u)
  {
  }

  /** `HTTP://` is not a URL prefix to the case-sensitive `http[s]?://`, while `http://` is. */
  lemma UrlCountCaseSensitive()
    ensures UrlCount("HTTP://x") == 0
    ensures UrlCount("http://x") == 1
  {
    UpperSchemeNotCounted();
    LowerSchemeCounted();
  }

  lemma UpperSchemeNotCounted()
    ensures UrlCount("HTTP://x") == 0
  {
    var up := "HTTP://x";
    assert forall i :: 0 <= i < |up| ==> up[i] != 'h';
    var p, q := "https://", "http://";
    MissingFirstChar(up, p);
    MissingFirstChar(up, q);
    assert !ContainsAny(up, UrlSchemes);
    CountMatchesPositive(up, UrlSchemes);
  }

  lemma LowerSchemeCounted()
    ensures UrlCount("http://x") == 1
  {
    var low := "http://x";
    var p, q := "https://", "http://";
    assert p[4] == 's' && q[0] == 'h' && q[1] == 't' && q[2] == 't' && q[3] == 'p' && q[4] == ':';
    assert q[5] == '/' && q[6] == '/';
    assert OccursAt(low, q, 0);
    assert !OccursAt(low, p, 0);
    assert FirstMatch(low, UrlSchemes) == 7;
    assert low[7..] == "x";
    assert p[0] == 'h';
    assert !OccursAt("x", p, 0) && !OccursAt("x", q, 0);
    assert FirstMatch("x", UrlSchemes) == 0;
  }
}
