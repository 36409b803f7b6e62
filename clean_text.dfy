/** The normaliser of the two-file detector: lower-case, every `http\S+` run becomes "url",
    and every character outside `[a-zA-Z ]` becomes one space. */
module TextCleaner {
  import opened Strings
  import opened Matching

  const UrlToken: string := "url"

  /** The characters the final substitution keeps: ASCII letters and the space. */
  predicate Kept(c: char) { IsLetter(c) || c == ' ' }

  /** `re.sub(r"[^a-zA-Z ]", " ", s)`: one space for each other character, so the length stays. */
  function SpaceOutOthers(s: string): string
  {
    seq(|s|, i requires 0 <= i < |s| => if Kept(s[i]) then s[i] else ' ')
  }

  /** `clean_text`. */
  function CleanText(s: string): string
  {
    SpaceOutOthers(SubHttpRuns(LowerStr(s), UrlToken))
  }

  /** Every character of the result is a lower-case letter or a space; the result is never
      longer than the input, since each URL run of five or more characters becomes three. */
  lemma CleanTextShape(s: string)
    ensures |CleanText(s)| <= |s|
    ensures forall j :: 0 <= j < |CleanText(s)| ==> IsLower(CleanText(s)[j]) || CleanText(s)[j] == ' '
  {
    LowerStrNoUpper(s);
    SubHttpRunsLength(LowerStr(s), UrlToken);
    SubHttpRunsNoUpper(LowerStr(s), UrlToken);
  }

  /** The last step replaces rather than deletes: it keeps the length and every letter and space. */
  lemma SpaceOutOthersKeepsLength(s: string)
    ensures |SpaceOutOthers(s)| == |s|
    ensures forall j :: 0 <= j < |s| ==> (SpaceOutOthers(s)[j] == s[j] <==> Kept(s[j]))
  {
  }

  /** Every `http` left in the output ends the text or is followed by a space: URL runs become
      "url" with no spaces around it, and a bare `http` is kept only before whitespace. */
  lemma CleanTextHttpBeforeSpace(s: string)
    ensures forall i :: OccursAt(CleanText(s), "http", i) ==>
      i + 4 == |CleanText(s)| || CleanText(s)[i + 4] == ' '
  {
    var m := SubHttpRuns(LowerStr(s), UrlToken);
    var r := CleanText(s);
    SubHttpRunsLeavesNoRun(LowerStr(s), UrlToken);
    forall i | OccursAt(r, "http", i)
      ensures i + 4 == |r| || r[i + 4] == ' '
    {
      HttpAtIsOccurrence(r, i);
      assert HttpAt(m, i);
    }
  }

  /** Normalising twice is normalising once. */
  lemma {:induction false} CleanTextIdempotent(s: string)
    ensures CleanText(CleanText(s)) == CleanText(s)
  {
    var t := CleanText(s);
    CleanTextShape(s);
    CleanTextHttpBeforeSpace(s);
    LowerStrIdentity(t);
    forall i | 0 <= i <= |t|
      ensures !HttpRunAt(t[i..])
    {
      if HttpRunAt(t[i..]) {
        assert HttpAt(t, i);
        HttpAtIsOccurrence(t, i);
        assert false;
      }
    }
    SubHttpRunsIdentity(t, UrlToken);
  }

  /** Without `http` in the lower-cased text, each character is lowered if it is a letter and
      becomes a space otherwise; the empty text stays empty. */
  lemma CleanTextWithoutUrl(s: string)
    requires !Contains(LowerStr(s), "http")
    ensures |CleanText(s)| == |s|
    ensures forall i :: 0 <= i < |s| ==> CleanText(s)[i] == if IsLetter(s[i]) then Lower(s[i]) else ' '
  {
    var t := LowerStr(s);
    forall i | 0 <= i <= |t|
      ensures !HttpRunAt(t[i..])
    {
      if HttpRunAt(t[i..]) {
        assert HttpAt(t, i);
        HttpAtIsOccurrence(t, i);
        assert false;
      }
    }
    SubHttpRunsIdentity(t, UrlToken);
  }

  lemma CleanTextEmpty()
    ensures CleanText("") == ""
  {
  }
}
