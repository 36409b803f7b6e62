# Spam and phishing detector: the text logic, in Dafny

The detector is a small Streamlit application. It takes one message and returns one of
three verdicts: phishing, spam or safe. Two trained classifiers make the decision. The
code around them is plain text processing, and that is what this project models:

- **`clean_text`** (in `app.py` and `clean_text.py`): the normaliser whose output goes to
  the spam classifier's TF-IDF vectoriser. It lower-cases the text, replaces every
  `http\S+` run with a URL token, and then deletes punctuation (`app.py`) or replaces
  every character outside `[a-zA-Z ]` with a space (`clean_text.py`).
- **`extract_phishing_features`** (in `app.py`): the four counts handed to the phishing
  classifier. These are `https` and `http` occurrences, login keywords present, and
  the suspicious-TLD flag.
- **`extract_features`** (in `phishing_features.py`): the five-value feature list. These are
  URL prefixes, the risky-domain flag, risky-keyword occurrences, digits and length.
- **`color_words`** (in `app.py`): the highlighter. For each of ten keywords it wraps
  every case-insensitive whole-word match in a `<span class='highlight'>` element, each
  pass working on the previous pass's output.
- **The verdict chain** (`app.py` lines 99-125) as the function `App.Fuse`. It returns
  phishing when the phishing label is 1 and its probability is above 0.65. Otherwise it
  returns spam when the spam label is the string `"spam"`, and safe otherwise.

Modules:

- `Strings` (`strings.dfy`): the Python string built-ins the code relies on, on ASCII.
- `Matching` (`matching.dfy`): hand-written scanners for the three regular-expression
  forms used:
  - the greedy `http\S+` substitution;
  - leftmost non-overlapping counting of a literal alternation, as `re.findall` and
    `str.count` do it;
  - the `\bword\b` substitution with `re.I`.
- `App` (`app.dfy`): `app.py`.
- `TextCleaner` (`clean_text.dfy`): `clean_text.py`.
- `PhishingFeatures` (`phishing_features.dfy`): `phishing_features.py`.
- `Variants` (`variants.dfy`): properties that compare the two normalisers and the two
  feature extractors.

Each source function and its Dafny counterpart:

- `clean_text` in `app.py` (lines 33-37) is `App.CleanText`. It is built from
  `Strings.LowerStr`, `Matching.SubHttpRuns` and `App.DeletePunctuation`.
- `clean_text` in `clean_text.py` (lines 3-7) is `TextCleaner.CleanText`. It is built from
  `Strings.LowerStr`, `Matching.SubHttpRuns` and `TextCleaner.SpaceOutOthers`.
- `extract_phishing_features` (`app.py` lines 39-46) is `App.ExtractPhishingFeatures`.
  - `str.count` is `Matching.CountMatches` with a one-element list.
  - The login-word sum is `App.CountPresent`.
  - `[*features.values()]` is `App.PhishingFeatureDict.Values`.
- `extract_features` (`phishing_features.py` lines 3-10) is `PhishingFeatures.ExtractFeatures`.
  Its five entries are these functions:
  - `PhishingFeatures.UrlCount`: `re.findall` via `Matching.CountMatches`;
  - `PhishingFeatures.DomainFlag`;
  - `PhishingFeatures.RiskyCount`: `re.findall` via `Matching.CountMatches`;
  - `PhishingFeatures.DigitCount`;
  - the length.
- `color_words` (`app.py` lines 49-57) is the method `App.ColorWords`.
  - Its specification is `App.ColorFold`.
  - Each pass is `App.Highlight`, that is `Matching.SubWholeWord` with `App.Span`.
- `re.sub` with `http\S+` is `Matching.SubHttpRuns`.
- `re.sub` with `\bword\b` and `re.I` is `Matching.SubWholeWord`.

What the code does, which the model follows:

- The spam label is compared with the string `"spam"`, not with the number 1.
- `app.py`'s normaliser is not idempotent. It inserts the upper-case token `" URL "`,
  which a second pass lowers. Deleting punctuation can also join the pieces of a new
  `http` run. `clean_text.py`'s normaliser is idempotent. Both facts are proved.
- `login_words` counts the keywords that are present, each once. `risky_count` counts
  every occurrence. `http_count` in `app.py` counts non-overlapping occurrences
  (`str.count`).

## Model

| member | source | states |
|---|---|---|
| Strings.LowerStrNoUpper | app.py:34 | `str.lower` keeps the length and leaves no upper-case letter |
| Strings.LowerStrIdentity | app.py:34 | lowering text with no upper-case letter changes nothing |
| Strings.LowerStrIdempotent | app.py:40 | lowering twice is lowering once |
| Strings.Lower | app.py:34 | one character lowered: never upper case, still a letter exactly when it was one, unchanged unless upper case |
| Strings.MissingFirstChar | phishing_features.py:4 | a text without the first character of `p` does not contain `p` (`p in s` is false) |
| Matching.HttpAtIsOccurrence | app.py:35 | the character-wise `http` test agrees with the occurrence of the string `http` |
| Matching.RunLen | app.py:35 | the greedy `\S+` reach: a prefix without whitespace that ends at whitespace or at the end of the text |
| Matching.RunLenOfMatch | app.py:35 | a match of `http\S+` spans at least five characters |
| Matching.SubHttpRunsLength | app.py:35 | replacing each URL run with a token of at most five characters never lengthens the text |
| Matching.SubHttpRunsNoUpper | clean_text.py:5 | the URL substitution introduces no upper-case letter when the text and token have none |
| Matching.SubHttpRunsIdentity | clean_text.py:5 | where `http\S+` matches nowhere, the substitution returns the text unchanged |
| Matching.SubHttpRunsCopiedHead | clean_text.py:5 | an output that does not begin with the token began with a copied character, and no run matched there |
| Matching.SubHttpRunsLeavesNoRun | clean_text.py:5 | after substitution with an inert token, every remaining `http` is followed by whitespace or ends the text |
| Matching.FirstMatch | phishing_features.py:4 | alternation at one position: the length of the first alternative that matches there, or 0 when none matches |
| Matching.OccursAtShift | phishing_features.py:4 | an occurrence in the tail is an occurrence one index later in the text |
| Matching.CountMatchesPositive | phishing_features.py:6 | the count of non-overlapping matches is positive exactly when some alternative occurs |
| Matching.CountMatchesBound | phishing_features.py:4 | matches do not overlap, so `m` times the count fits in the text when every alternative has length at least `m` |
| Matching.OccursAtStartOfConcat | phishing_features.py:6 | an alternative without `b`'s first character occurs at the start of `a + b` exactly when it occurs at the start of `a` |
| Matching.FirstMatchOfConcat | phishing_features.py:6 | when `b` starts with a character that no alternative contains, alternation at the start of `a + b` picks the same alternative as at the start of `a` |
| Matching.CountMatchesOfConcat | phishing_features.py:6 | joining two texts at a character no alternative contains adds their counts |
| Matching.CountMatchesOfRepeat | phishing_features.py:6 | writing a text twice around such a separator doubles the count |
| Matching.HttpsAtStart | app.py:42 | `https` starts the text exactly when `http` does and the fifth character is `s` |
| Matching.CountSkipsNonH | app.py:42-43 | a text that does not start with `h` starts no `http` or `https` match |
| Matching.CountHttpsAtMostHttp | app.py:42-43 | `s.count("https")` never exceeds `s.count("http")` |
| Matching.SubWholeWordFromUnchanged | app.py:54-56 | with no whole-word match from index `k` on, the scan copies the rest of the text |
| Matching.SubWholeWordFromNeverShrinks | app.py:54-56 | a replacement at least as long as the keyword never shortens the text |
| Matching.SubWholeWordFromGrows | app.py:54-56 | a whole-word match that the scan reaches makes the text grow when the replacement is longer |
| Matching.SubWholeWordUnchangedIff | app.py:54-56 | `re.sub(r"\bw\b", repl, t, flags=re.I)` leaves `t` unchanged exactly when `w` is nowhere a whole word of `t` in any casing, and lengthens it otherwise |
| Matching.WholeTextIsKeyword | app.py:54-56 | text that is the keyword in any casing becomes exactly the replacement |
| App.DeletePunctuationSpec | app.py:36 | `translate` removing `string.punctuation`: no punctuation is left, text without punctuation is unchanged, text with some gets shorter |
| App.DeletePunctuationConcat | app.py:36 | deletion works character by character: one character is kept exactly when it is not punctuation, and deleting from `a + b` is deleting from `a` and then from `b`, so every other character is kept, in order |
| App.CleanTextShape | app.py:33-37 | the normalised text has no punctuation and is never longer than the input |
| App.TokenKept | app.py:35-36 | the token `" URL "` survives punctuation deletion |
| App.UrlRunNormalised | app.py:33-37 | a lower-case text that is a single whitespace-free `http` run normalises to the token `" URL "` alone |
| App.FirstPassOnUrl | app.py:33-37 | `http://a` and `httpx` each normalise to `" URL "` |
| App.SecondPassOnUrl | app.py:33-37 | `" URL "` normalises to `" url "` |
| App.CleanTextNotIdempotent | app.py:34-35 | normalising twice differs from normalising once: the inserted token is lowered by the second pass |
| App.DeletesDot | app.py:36 | `ht.tpx` loses its dot and becomes `httpx` |
| App.JoinedByDeletion | app.py:33-37 | `ht.tpx` normalises to `httpx`: no URL run before deletion, a whole one after it |
| App.DeletionCreatesUrl | app.py:35-36 | a second pass replaces the `http` run that deleting punctuation created |
| App.PhishingFeatureDict.Values | app.py:88 | the vector handed to the classifier lists the four features in the dictionary's order |
| App.CountPresent | app.py:44 | `sum(word in t ...)` is at most the number of words, 0 exactly when none occurs, and all of them exactly when each one occurs |
| App.CountPresentConcat | app.py:44 | the count adds over the word list, and one word counts 1 exactly when it occurs: the sum of `word in t` |
| App.ExtractPhishingFeatures | app.py:39-46 | `https_count <= http_count`; `http_count > 0` exactly when `http` occurs; `login_words` is 0 exactly when no login keyword occurs; `suspicious_domain` is 1 exactly when a suspicious TLD occurs, and 0 otherwise; all read off the lower-cased text |
| App.PhishingFeaturesIgnoreCase | app.py:40 | texts equal up to case get equal features, the same as the lowered text gets |
| App.SuspiciousAreKeywords | app.py:50-51 | the ten highlighted words are non-empty and lower case |
| App.Span | app.py:55 | the markup is the keyword plus 31 characters |
| App.NoWholeWordSnoc | app.py:53 | no keyword of a list is a whole word exactly when none of its initial part is and the last one is not |
| App.ColorFoldUnchangedIff | app.py:53-56 | the passes never shorten the text; they leave it unchanged when no keyword is a whole word of it, and lengthen it otherwise |
| App.ColorFoldStep | app.py:53-56 | each pass extends the fold over the keywords seen so far by one more keyword |
| App.ColorWords | app.py:49-57 | the loop result is the fold over the ten keywords in order; it equals the input exactly when no keyword occurs as a whole word, and is never shorter |
| App.HighlightCanonical | app.py:54-56 | `BANK` is highlighted as `<span class='highlight'>bank</span>`: the keyword's own spelling is written back |
| App.Fuse | app.py:99-125 | phishing exactly when the label is 1 and the probability is above 0.65; spam exactly when not phishing and the spam label is `"spam"`; safe exactly in the remaining case |
| App.FuseBoundary | app.py:99 | a probability of exactly 0.65 is not phishing |
| App.FuseMonotone | app.py:99 | raising the phishing probability never removes a phishing verdict and never creates a safe one |
| TextCleaner.CleanTextShape | clean_text.py:3-7 | every output character is a lower-case letter or a space, and the output is never longer than the input |
| TextCleaner.SpaceOutOthersKeepsLength | clean_text.py:6 | the last substitution keeps the length, and a character stays exactly when it is a letter or a space |
| TextCleaner.CleanTextHttpBeforeSpace | clean_text.py:5-6 | every `http` left in the output is followed by a space or ends the text |
| TextCleaner.CleanTextIdempotent | clean_text.py:3-7 | normalising twice is normalising once |
| TextCleaner.CleanTextWithoutUrl | clean_text.py:4-6 | without `http`, each character is lowered if it is a letter and becomes a space otherwise |
| TextCleaner.CleanTextEmpty | clean_text.py:3-7 | the empty text stays empty |
| PhishingFeatures.DigitCount | phishing_features.py:7 | `sum(c.isdigit() ...)` is at most the length, 0 exactly when there is no digit, and the length exactly when all characters are digits |
| PhishingFeatures.DigitCountConcat | phishing_features.py:7 | the digit count adds over the text, and one character counts 1 exactly when it is a digit: the sum of `c.isdigit()` |
| PhishingFeatures.ExtractFeatures | phishing_features.py:3-10 | five values in order: URL prefixes, domain flag, risky keywords, digits, length. Seven times the URL count fits in the length. The URL count is positive exactly when `http://` or `https://` occurs. The flag is 0 or 1. The keyword count is positive exactly when a keyword occurs. The digit count is at most the length |
| PhishingFeatures.UrlCountBound | phishing_features.py:4 | each URL-prefix match takes at least seven characters of the text |
| PhishingFeatures.RiskyCountIgnoresCase | phishing_features.py:5-6 | texts equal up to case get the same keyword count and domain flag |
| PhishingFeatures.UrlCountCaseSensitive | phishing_features.py:4 | the URL count is case sensitive: `HTTP://x` has none, `http://x` has one |
| PhishingFeatures.UpperSchemeNotCounted | phishing_features.py:4 | `HTTP://x` has no URL prefix |
| PhishingFeatures.LowerSchemeCounted | phishing_features.py:4 | `http://x` has exactly one URL prefix |
| Variants.LowerStrOfRepeat | app.py:40 | lowering `s + " " + s` lowers each copy |
| Variants.CountPresentSameWords | app.py:44 | the login-word count depends only on which words occur |
| Variants.ContainsOfRepeat | app.py:44 | a word without spaces occurs in `t + " " + t` exactly when it occurs in `t` |
| Variants.LoginWordsOfRepeat | app.py:44 | writing the text twice leaves the login-word count unchanged |
| Variants.CountOfRepeat | phishing_features.py:6 | writing the text twice around a space doubles a space-free alternation's count |
| Variants.PhishingCountsOfRepeat | app.py:43-44 | on a message written twice, `login_words` stays the same and `http_count` doubles |
| Variants.RiskyCountOfRepeat | phishing_features.py:6 | on a message written twice, `risky_count` doubles |
| Variants.CleanersDisagreeOnPunctuation | app.py:36 | on text without `http` but with punctuation, `app.py`'s normaliser shortens the text, while `clean_text.py`'s keeps its length |

## Left out

- The `streamlit`, `joblib` and `numpy` calls are left out: loading the model files, all
  page output, the styling, and the JSON insights panel. They are I/O.
- The TF-IDF vectoriser and the two classifiers' `predict` and `predict_proba` are left
  out. They are trained models whose code is not available. `App.Fuse` takes their
  outputs as parameters.
- The probabilities are modelled as `real`, not as floating point. `spam_prob` is only
  displayed, so the verdict does not take it.
- The empty-input warning (`app.py:76-77`, `user_text.strip()`) is left out. It is a UI
  guard before any modelled function runs.
- Only ASCII behaviour is modelled. Characters are classified by ASCII rules: `str.lower`,
  `\s`, `\w` and `\b`, `str.isdigit`, and the case folding of `re.I`. Python applies
  Unicode rules to non-ASCII characters.
- Python rebinds an immutable string in `color_words`' loop. The model uses a local
  variable in a `for` loop, which is the same thing.
- `Matching.CountMatches`: alternatives must be non-empty. Every pattern in the source
  is non-empty.
- `spam phishing detector/app.py` is not part of this model. It is a separate copy of
  the application that checks spam before phishing.
- No code in the source builds, trains or reindexes the classifiers' feature schemas.
