/** `preprocess_text`: lower-case the description, strip URLs and e-mail
    addresses, turn punctuation into spaces, collapse whitespace, split into
    words, drop stopwords and short words, and lemmatize what is left. The
    regular expressions are modelled on ASCII text with Python's
    left-to-right, non-overlapping `re.sub` semantics. */
module Normalizer {
  import opened Text

  /** `DOMAIN_STOPWORDS`: business filler excluded whatever the English
      stopword source. */
  const DomainStopwords: set<string> := {
    "company", "business", "service", "services", "solution", "solutions",
    "provide", "provides", "provider", "industry", "industries", "product",
    "products", "client", "clients", "customer", "customers", "team",
    "year", "years", "experience", "professional", "professionals",
    "work", "working", "offer", "offers", "offering", "offerings",
    "help", "helping", "helps", "support", "supporting"
  }

  /** The fifteen English stopwords used when the NLTK corpus is missing. */
  const BasicStopwords: set<string> := {
    "the", "and", "a", "to", "of", "in", "is", "it", "that", "for", "on",
    "with", "as", "by", "at"
  }

  /** Where the English stopwords come from: the NLTK corpus (its contents
      are a parameter) or the built-in fallback. */
  datatype StopwordSource = EnglishCorpus(words: set<string>) | BasicFallback

  /** Whether WordNet lemmatization is available (its word mapping is a
      parameter) or failed, leaving the tokens as they are. */
  datatype Lemmatizer = WordNet(lemmatize: string -> string) | NoLemmatizer

  /** The library environment the enrichment runs in. */
  datatype NlpEnv = NlpEnv(stopwords: StopwordSource, lemmatizer: Lemmatizer)

  /** `stop_words` on either branch: English stopwords united with the
      domain ones. */
  function StopSet(src: StopwordSource): (r: set<string>)
    ensures DomainStopwords <= r
    ensures src.EnglishCorpus? ==> src.words <= r
    ensures src.BasicFallback? ==> BasicStopwords <= r
    ensures forall w :: w in r ==> w in DomainStopwords || (src.EnglishCorpus? && w in src.words)
                                   || (src.BasicFallback? && w in BasicStopwords)
  {
    match src
    case EnglishCorpus(words) => words + DomainStopwords
    case BasicFallback => BasicStopwords + DomainStopwords
  }

  // ---------------------------------------------------------------------
  // Runs of characters

  /** Length of the run of non-whitespace characters `s` starts with. */
  function RunLength(s: string): (n: nat)
    ensures n <= |s|
    ensures forall i :: 0 <= i < n ==> !IsSpace(s[i])
    ensures n < |s| ==> IsSpace(s[n])
  {
    if |s| == 0 || IsSpace(s[0]) then 0 else 1 + RunLength(s[1..])
  }

  /** Length of the run of whitespace characters `s` starts with. */
  function SpaceRun(s: string): (n: nat)
    ensures n <= |s|
    ensures forall i :: 0 <= i < n ==> IsSpace(s[i])
    ensures n < |s| ==> !IsSpace(s[n])
  {
    if |s| == 0 || !IsSpace(s[0]) then 0 else 1 + SpaceRun(s[1..])
  }

  // ---------------------------------------------------------------------
  // URLs: "http", "https" or "www" and the non-whitespace after it are removed

  /** One of the URL alternatives matches at the start of `s`: "http" or
      "www" followed by at least one non-whitespace character (the "https"
      alternative is covered by the "http" one). */
  predicate UrlStart(s: string) {
    || (|s| > 4 && s[0] == 'h' && s[1] == 't' && s[2] == 't' && s[3] == 'p' && !IsSpace(s[4]))
    || (|s| > 3 && s[0] == 'w' && s[1] == 'w' && s[2] == 'w' && !IsSpace(s[3]))
  }

  /** A match extends greedily to the end of the non-whitespace run, and
      scanning resumes after it. */
  function StripUrls(s: string): (r: string)
    ensures |r| <= |s|
    ensures forall i :: 0 <= i < |r| ==> r[i] in s
    decreases |s|
  {
    if |s| == 0 then ""
    else if UrlStart(s) then StripUrls(s[RunLength(s)..])
    else [s[0]] + StripUrls(s[1..])
  }

  /** Text starting with whitespace keeps that character in front. */
  lemma StripUrlsKeepsLeadingSpace(s: string)
    requires |s| > 0 && IsSpace(s[0])
    ensures |StripUrls(s)| > 0 && StripUrls(s)[0] == s[0]
  {
  }

  /** Right after a removed URL comes whitespace or the end of the text. */
  lemma AfterUrlComesSpace(s: string)
    requires |s| > 0 && UrlStart(s)
    ensures StripUrls(s) == [] || IsSpace(StripUrls(s)[0])
  {
    var t := s[RunLength(s)..];
    if |t| > 0 {
      StripUrlsKeepsLeadingSpace(t);
    }
  }

  /** A non-whitespace prefix of the result is the input's own prefix:
      nothing was removed in front of it. */
  lemma {:induction false} StripUrlsKeepsPrefix(s: string, k: nat)
    requires k <= |StripUrls(s)|
    requires forall i :: 0 <= i < k ==> !IsSpace(StripUrls(s)[i])
    ensures k <= |s|
    ensures forall i :: 0 <= i < k ==> StripUrls(s)[i] == s[i]
    decreases |s|
  {
    if k > 0 {
      if UrlStart(s) {
        AfterUrlComesSpace(s);
        assert false;
      }
      var rest := StripUrls(s[1..]);
      assert StripUrls(s) == [s[0]] + rest;
      forall i | 0 <= i < k - 1 ensures !IsSpace(rest[i]) {
        assert rest[i] == StripUrls(s)[i + 1];
      }
      StripUrlsKeepsPrefix(s[1..], k - 1);
    }
  }

  /** No URL survives: no position of the result starts a match. */
  lemma {:induction false} NoUrlRemains(s: string)
    ensures forall i :: 0 <= i < |StripUrls(s)| ==> !UrlStart(StripUrls(s)[i..])
    decreases |s|
  {
    if |s| > 0 {
      if UrlStart(s) {
        NoUrlRemains(s[RunLength(s)..]);
      } else {
        var rest := StripUrls(s[1..]);
        var r := StripUrls(s);
        NoUrlRemains(s[1..]);
        NoUrlAtFront(s);
        assert r == [s[0]] + rest;
        forall i | 0 <= i < |r| ensures !UrlStart(r[i..]) {
          if i == 0 {
            assert r[i..] == r;
          } else {
            assert r[i..] == rest[i - 1..];
          }
        }
      }
    }
  }

  /** A text not starting with a URL keeps its first character, and what
      follows it cannot complete a URL either. */
  lemma NoUrlAtFront(s: string)
    requires |s| > 0 && !UrlStart(s)
    ensures !UrlStart(StripUrls(s))
  {
    var rest := StripUrls(s[1..]);
    assert StripUrls(s) == [s[0]] + rest;
    var k := NonSpaceUpTo(rest, 4);
    StripUrlsKeepsPrefix(s[1..], k);
    NoUrlAfterCopiedRun(s, rest, k);
  }

  /** If the text after the first character is copied up to its first
      whitespace (looking at most four characters ahead), a URL cannot
      start at the front of the copy when none starts at the front of the
      text. */
  lemma NoUrlAfterCopiedRun(s: string, rest: string, k: nat)
    requires |s| > 0 && !UrlStart(s)
    requires k <= 4 && k <= |rest| && k < |s|
    requires forall i :: 0 <= i < k ==> rest[i] == s[i + 1] && !IsSpace(rest[i])
    requires k < 4 ==> k == |rest| || IsSpace(rest[k])
    ensures !UrlStart([s[0]] + rest)
  {
    var r := [s[0]] + rest;
    assert forall i :: 0 < i < |r| ==> r[i] == rest[i - 1];
  }

  /** How many of the first `m` characters of `s` are non-whitespace
      before the first whitespace. */
  function NonSpaceUpTo(s: string, m: nat): (k: nat)
    ensures k <= m && k <= |s|
    ensures forall i :: 0 <= i < k ==> !IsSpace(s[i])
    ensures k < m ==> k == |s| || IsSpace(s[k])
  {
    if m == 0 || |s| == 0 || IsSpace(s[0]) then 0 else 1 + NonSpaceUpTo(s[1..], m - 1)
  }

  /** Text with no URL in it passes through unchanged. */
  lemma {:induction false} StripUrlsWithoutUrl(s: string)
    requires forall i :: 0 <= i < |s| ==> !UrlStart(s[i..])
    ensures StripUrls(s) == s
    decreases |s|
  {
    if |s| > 0 {
      assert !UrlStart(s[0..]);
      assert s[0..] == s;
      forall i | 0 <= i < |s[1..]| ensures !UrlStart(s[1..][i..]) {
        assert s[1..][i..] == s[i + 1..];
      }
      StripUrlsWithoutUrl(s[1..]);
    }
  }

  /** Stripping URLs twice is stripping them once. */
  lemma StripUrlsIdempotent(s: string)
    ensures StripUrls(StripUrls(s)) == StripUrls(s)
  {
    NoUrlRemains(s);
    StripUrlsWithoutUrl(StripUrls(s));
  }

  /** Where the first URL match of a whitespace-free word starts, `|w|`
      when none does. */
  function FirstUrlStart(w: string): (p: nat)
    ensures p <= |w|
    decreases |w|
  {
    if |w| == 0 || UrlStart(w) then 0 else 1 + FirstUrlStart(w[1..])
  }

  /** No URL match starts before `FirstUrlStart(w)`, and one starts there
      unless it is the end of the word. */
  lemma {:induction false} FirstUrlStartIsFirst(w: string)
    ensures forall i :: 0 <= i < FirstUrlStart(w) ==> !UrlStart(w[i..])
    ensures FirstUrlStart(w) < |w| ==> UrlStart(w[FirstUrlStart(w)..])
    decreases |w|
  {
    if |w| > 0 && !UrlStart(w) {
      FirstUrlStartIsFirst(w[1..]);
      assert forall i :: 1 <= i <= |w| ==> w[i..] == w[1..][i - 1..];
    }
  }

  /** Whitespace in front of the text is kept. */
  lemma StripUrlsLeadingSpace(c: char, t: string)
    requires IsSpace(c)
    ensures StripUrls([c] + t) == [c] + StripUrls(t)
  {
    assert ([c] + t)[1..] == t;
  }

  /** A whitespace-free word followed by whitespace or the end of the text
      keeps exactly its part before the first URL match; the removal never
      reaches past the word. */
  lemma {:induction false} StripUrlsOfWord(w: string, t: string)
    requires forall i :: 0 <= i < |w| ==> !IsSpace(w[i])
    requires |t| == 0 || IsSpace(t[0])
    ensures StripUrls(w + t) == w[..FirstUrlStart(w)] + StripUrls(t)
    decreases |w|
  {
    if |w| == 0 {
      assert w + t == t;
    } else {
      UrlStartWithinWord(w, t);
      if UrlStart(w) {
        StripUrlsAtWordUrl(w, t);
      } else {
        StripUrlsOfWord(w[1..], t);
        StripUrlsWordStep(w, t);
      }
    }
  }

  /** Without a URL match at the front of the word, its first character is
      copied and the rest of the word is handled the same way. */
  lemma StripUrlsWordStep(w: string, t: string)
    requires |w| > 0 && !UrlStart(w) && !UrlStart(w + t)
    requires StripUrls(w[1..] + t) == w[1..][..FirstUrlStart(w[1..])] + StripUrls(t)
    ensures StripUrls(w + t) == w[..FirstUrlStart(w)] + StripUrls(t)
  {
    var v := w[1..];
    StripUrlsCopiesFront(w, t);
    assert FirstUrlStart(w) == 1 + FirstUrlStart(v);
    PrefixAfterFront(w, FirstUrlStart(v), FirstUrlStart(w), StripUrls(w + t), StripUrls(v + t), StripUrls(t));
  }

  /** A URL match at the front of a word removes the whole word. */
  lemma StripUrlsAtWordUrl(w: string, t: string)
    requires |w| > 0 && forall i :: 0 <= i < |w| ==> !IsSpace(w[i])
    requires |t| == 0 || IsSpace(t[0])
    requires UrlStart(w + t)
    ensures StripUrls(w + t) == StripUrls(t)
  {
    RunLengthOfWordThen(w, t);
    assert (w + t)[|w|..] == t;
  }

  /** Without a URL match at the front, the first character is copied. */
  lemma StripUrlsCopiesFront(w: string, t: string)
    requires |w| > 0 && !UrlStart(w + t)
    ensures StripUrls(w + t) == [w[0]] + StripUrls(w[1..] + t)
  {
    assert (w + t)[1..] == w[1..] + t;
  }

  lemma PrefixAfterFront(w: string, p: nat, q: nat, whole: string, rest: string, tail: string)
    requires p < |w| && q == p + 1
    requires whole == [w[0]] + rest && rest == w[1..][..p] + tail
    ensures whole == w[..q] + tail
  {
    assert w[..q] == [w[0]] + w[1..][..p];
  }

  /** A URL match at the front of a whitespace-free word does not depend on
      what follows the word, as long as whitespace or the end comes next. */
  lemma UrlStartWithinWord(w: string, t: string)
    requires |w| > 0 && forall i :: 0 <= i < |w| ==> !IsSpace(w[i])
    requires |t| == 0 || IsSpace(t[0])
    ensures UrlStart(w + t) <==> UrlStart(w)
  {
    var s := w + t;
    assert forall i :: 0 <= i < |w| ==> s[i] == w[i];
    assert |w| < |s| ==> s[|w|] == t[0];
  }

  // ---------------------------------------------------------------------
  // E-mail addresses: the non-whitespace run around an '@' and one following whitespace character are removed

  /** A match starts wherever the non-whitespace run ahead contains '@'; it
      takes that whole run and one following whitespace character. */
  function StripEmails(s: string): (r: string)
    ensures |r| <= |s|
    ensures forall i :: 0 <= i < |r| ==> r[i] in s
    ensures '@' !in r
    decreases |s|
  {
    if |s| == 0 then ""
    else
      var n := RunLength(s);
      if '@' in s[..n] then
        StripEmails(s[if n < |s| then n + 1 else n..])
      else
        assert !IsSpace(s[0]) ==> n > 0 && s[..n][0] == s[0];
        [s[0]] + StripEmails(s[1..])
  }

  /** Text without '@' has no e-mail match and passes through unchanged. */
  lemma {:induction false} StripEmailsWithoutAt(s: string)
    requires '@' !in s
    ensures StripEmails(s) == s
    decreases |s|
  {
    if |s| > 0 {
      assert '@' !in s[..RunLength(s)];
      assert '@' !in s[1..];
      StripEmailsWithoutAt(s[1..]);
    }
  }

  /** Stripping e-mail addresses twice is stripping them once. */
  lemma StripEmailsIdempotent(s: string)
    ensures StripEmails(StripEmails(s)) == StripEmails(s)
  {
    StripEmailsWithoutAt(StripEmails(s));
  }

  // ---------------------------------------------------------------------
  // Symbols: every character that is neither a word character nor whitespace becomes a space

  /** Every character that is neither a word character nor whitespace
      becomes a space; the others stay in place. */
  function ReplaceSymbols(s: string): (r: string)
    ensures |r| == |s|
    ensures forall i :: 0 <= i < |r| ==> IsWordChar(r[i]) || IsSpace(r[i])
    ensures forall i :: 0 <= i < |s| ==> r[i] == s[i] || r[i] == ' '
    ensures forall i :: 0 <= i < |s| && (IsWordChar(s[i]) || IsSpace(s[i])) ==> r[i] == s[i]
  {
    seq(|s|, i requires 0 <= i < |s| => if IsWordChar(s[i]) || IsSpace(s[i]) then s[i] else ' ')
  }

  /** Text of word characters and whitespace only is left unchanged, so the
      replacement is idempotent. */
  lemma ReplaceSymbolsIdempotent(s: string)
    ensures ReplaceSymbols(ReplaceSymbols(s)) == ReplaceSymbols(s)
  {
  }

  // ---------------------------------------------------------------------
  // Whitespace: every run of whitespace becomes one space

  /** Every maximal run of whitespace becomes a single space. */
  function CollapseSpaces(s: string): (r: string)
    ensures forall i :: 0 <= i < |r| ==> r[i] == ' ' || (!IsSpace(r[i]) && r[i] in s)
    ensures forall i :: 0 <= i < |r| - 1 ==> !(r[i] == ' ' && r[i + 1] == ' ')
    ensures |s| == 0 <==> |r| == 0
    ensures |s| > 0 && IsSpace(s[0]) ==> r[0] == ' '
    ensures |s| > 0 && !IsSpace(s[0]) ==> r[0] == s[0]
    decreases |s|
  {
    if |s| == 0 then ""
    else if IsSpace(s[0]) then
      var n := SpaceRun(s);
      " " + CollapseSpaces(s[n..])
    else
      [s[0]] + CollapseSpaces(s[1..])
  }

  /** Over a leading run of non-whitespace, collapsing copies the run. */
  lemma CollapseKeepsRun(s: string)
    ensures CollapseSpaces(s) == s[..RunLength(s)] + CollapseSpaces(s[RunLength(s)..])
  {
    var n := RunLength(s);
    assert s == s[..n] + s[n..];
    CollapseOfWordThen(s[..n], s[n..]);
  }

  /** Collapsing copies a leading word and goes on with what follows. */
  lemma {:induction false} CollapseOfWordThen(w: string, t: string)
    requires forall i :: 0 <= i < |w| ==> !IsSpace(w[i])
    ensures CollapseSpaces(w + t) == w + CollapseSpaces(t)
    decreases |w|
  {
    if |w| > 0 {
      var v := w[1..];
      assert (w + t)[1..] == v + t;
      CollapseOfNonSpace(w + t);
      CollapseOfWordThen(v, t);
      ConsThenAppend(w, CollapseSpaces(t));
    } else {
      assert w + t == t;
    }
  }

  /** Splitting off the head of a non-empty sequence before appending. */
  lemma ConsThenAppend(w: string, x: string)
    requires |w| > 0
    ensures [w[0]] + (w[1..] + x) == w + x
  {
    assert [w[0]] + w[1..] == w;
  }

  /** A non-whitespace first character is copied. */
  lemma CollapseOfNonSpace(u: string)
    requires |u| > 0 && !IsSpace(u[0])
    ensures CollapseSpaces(u) == [u[0]] + CollapseSpaces(u[1..])
  {
  }

  // ---------------------------------------------------------------------
  // Words: splitting at runs of whitespace, ignoring leading and trailing whitespace

  /** The maximal non-whitespace runs of `s`, in order. */
  function Words(s: string): (r: seq<string>)
    ensures forall i :: 0 <= i < |r| ==> |r[i]| > 0
    ensures forall i, j :: 0 <= i < |r| && 0 <= j < |r[i]| ==> !IsSpace(r[i][j]) && r[i][j] in s
    decreases |s|
  {
    if |s| == 0 then []
    else if IsSpace(s[0]) then Words(s[1..])
    else
      var n := RunLength(s);
      var rest := Words(s[n..]);
      assert forall i, j :: 0 <= i < |rest| && 0 <= j < |rest[i]| ==> rest[i][j] in s by {
        forall i, j | 0 <= i < |rest| && 0 <= j < |rest[i]| ensures rest[i][j] in s {
          var k :| 0 <= k < |s[n..]| && s[n..][k] == rest[i][j];
          assert s[n + k] == rest[i][j];
        }
      }
      [s[..n]] + rest
  }

  /** Leading whitespace does not change the words. */
  lemma {:induction false} WordsSkipSpaces(s: string, n: nat)
    requires n <= |s|
    requires forall i :: 0 <= i < n ==> IsSpace(s[i])
    ensures Words(s) == Words(s[n..])
    decreases n
  {
    if n > 0 {
      assert s[1..][n - 1..] == s[n..];
      WordsSkipSpaces(s[1..], n - 1);
    }
  }

  /** A word followed by whitespace (or nothing) is the first word. */
  lemma {:induction false} WordsOfWordThen(w: string, t: string)
    requires |w| > 0 && forall i :: 0 <= i < |w| ==> !IsSpace(w[i])
    requires |t| == 0 || IsSpace(t[0])
    ensures Words(w + t) == [w] + Words(t)
  {
    RunLengthOfWordThen(w, t);
    assert (w + t)[..|w|] == w;
    assert (w + t)[|w|..] == t;
  }

  lemma {:induction false} RunLengthOfWordThen(w: string, t: string)
    requires forall i :: 0 <= i < |w| ==> !IsSpace(w[i])
    requires |t| == 0 || IsSpace(t[0])
    ensures RunLength(w + t) == |w|
    decreases |w|
  {
    if |w| > 0 {
      assert (w + t)[1..] == w[1..] + t;
      RunLengthOfWordThen(w[1..], t);
    } else {
      assert w + t == t;
    }
  }

  /** Collapsing whitespace does not change the words. */
  lemma {:induction false} WordsOfCollapse(s: string)
    ensures Words(CollapseSpaces(s)) == Words(s)
    decreases |s|
  {
    if |s| > 0 {
      if IsSpace(s[0]) {
        var n := SpaceRun(s);
        WordsOfCollapse(s[n..]);
        WordsSkipSpaces(s, n);
        assert (" " + CollapseSpaces(s[n..]))[1..] == CollapseSpaces(s[n..]);
      } else {
        var n := RunLength(s);
        CollapseKeepsRun(s);
        WordsOfCollapse(s[n..]);
        WordsOfWordThen(s[..n], CollapseSpaces(s[n..]));
      }
    }
  }

  /** Joining words with single spaces and splitting again gives the words
      back. */
  lemma {:induction false} WordsOfJoin(ws: seq<string>)
    requires forall i :: 0 <= i < |ws| ==> |ws[i]| > 0
    requires forall i, j :: 0 <= i < |ws| && 0 <= j < |ws[i]| ==> !IsSpace(ws[i][j])
    ensures Words(Join(ws, " ")) == ws
    decreases |ws|
  {
    if |ws| == 1 {
      WordsOfWordThen(ws[0], "");
      assert ws[0] + "" == ws[0];
    } else if |ws| > 1 {
      var rest := Join(ws[1..], " ");
      assert Join(ws, " ") == ws[0] + (" " + rest);
      WordsOfJoin(ws[1..]);
      WordsOfWordSpaceThen(ws[0], rest);
      assert ws == [ws[0]] + ws[1..];
    }
  }

  /** A word, one space and more text: the word comes first, then the
      words of the text. */
  lemma WordsOfWordSpaceThen(w: string, rest: string)
    requires |w| > 0 && forall i :: 0 <= i < |w| ==> !IsSpace(w[i])
    ensures Words(w + (" " + rest)) == [w] + Words(rest)
  {
    var tail := " " + rest;
    WordsOfWordThen(w, tail);
    assert tail[1..] == rest;
    WordsSkipSpaces(tail, 1);
  }

  /** Text whose only whitespace is single ' ' separators between words. */
  predicate SingleSpaced(s: string) {
    && (|s| > 0 ==> !IsSpace(s[0]) && !IsSpace(s[|s| - 1]))
    && (forall i :: 0 <= i < |s| && IsSpace(s[i]) ==> s[i] == ' ')
    && (forall i :: 0 <= i < |s| - 1 ==> !(IsSpace(s[i]) && IsSpace(s[i + 1])))
  }

  /** The converse of `WordsOfJoin`: every non-whitespace run of
      single-spaced text is a word, so joining the words with single spaces
      gives the text back. */
  lemma {:induction false} JoinWords(s: string)
    requires SingleSpaced(s)
    ensures Join(Words(s), " ") == s
    decreases |s|
  {
    if |s| > 0 {
      var n := RunLength(s);
      if n == |s| {
        WordsOfWordThen(s, "");
        assert s + "" == s;
      } else {
        SpaceAfterFirstWord(s, n);
        var w, t := s[..n], s[n + 1..];
        SingleSpacedSuffix(s, n + 1);
        SplitAroundSpace(s, n);
        JoinWords(t);
        assert forall i :: 0 <= i < |w| ==> w[i] == s[i];
        WordsOfWordSpaceThen(w, t);
        assert t[0] == s[n + 1];
        WordsStartingWithWord(t);
        JoinFront(w, Words(t));
      }
    }
  }

  /** In single-spaced text the first word, when it is not all of the text,
      is followed by one space and then by a non-space character. */
  lemma SpaceAfterFirstWord(s: string, n: nat)
    requires SingleSpaced(s) && |s| > 0 && n == RunLength(s) && n < |s|
    ensures 0 < n && n + 1 < |s| && s[n] == ' ' && !IsSpace(s[n + 1])
  {
    assert IsSpace(s[n]);
    assert n != |s| - 1;
  }

  lemma SplitAroundSpace(s: string, n: nat)
    requires n < |s| && s[n] == ' '
    ensures s == s[..n] + (" " + s[n + 1..])
  {
    assert s[n..] == " " + s[n + 1..];
    assert s == s[..n] + s[n..];
  }

  /** Text that starts with a non-space character has a first word. */
  lemma WordsStartingWithWord(t: string)
    requires |t| > 0 && !IsSpace(t[0])
    ensures |Words(t)| > 0
  {
  }

  /** A suffix of single-spaced text that starts with a non-space is
      single-spaced. */
  lemma SingleSpacedSuffix(s: string, k: nat)
    requires SingleSpaced(s) && k < |s| && !IsSpace(s[k])
    ensures SingleSpaced(s[k..])
  {
    var t := s[k..];
    assert t[|t| - 1] == s[|s| - 1];
    forall i | 0 <= i < |t| && IsSpace(t[i]) ensures t[i] == ' ' {
      assert t[i] == s[k + i];
    }
    forall i | 0 <= i < |t| - 1 ensures !(IsSpace(t[i]) && IsSpace(t[i + 1])) {
      assert t[i] == s[k + i] && t[i + 1] == s[k + i + 1];
    }
  }

  /** Joining a word in front of a non-empty list puts one separator after
      it. */
  lemma JoinFront(w: string, ws: seq<string>)
    requires |ws| > 0
    ensures Join([w] + ws, " ") == w + (" " + Join(ws, " "))
  {
    var parts := [w] + ws;
    assert parts[1..] == ws;
    JoinUnfold(parts, " ");
    AppendAssoc(w, " ", Join(ws, " "));
  }

  // ---------------------------------------------------------------------
  // The whole cleanup and the token filter

  /** The cleanup of `preprocess_text`: lower-case, then the four
      substitutions in order. */
  function Clean(s: string): (r: string)
    ensures forall i :: 0 <= i < |r| ==> IsWordChar(r[i]) || r[i] == ' '
    ensures forall i :: 0 <= i < |r| - 1 ==> !(r[i] == ' ' && r[i + 1] == ' ')
    ensures IsLowerCase(r)
  {
    var lowered := Lower(s);
    var noUrls := StripUrls(lowered);
    var noEmails := StripEmails(noUrls);
    var replaced := ReplaceSymbols(noEmails);
    assert IsLowerCase(replaced);
    CollapseSpaces(replaced)
  }

  /** The token filter: neither a stopword nor two characters or fewer. */
  predicate Keep(stop: set<string>, w: string) {
    w !in stop && |w| > 2
  }

  /** The filter as a function value, for selecting from a word list. */
  function KeepFilter(stop: set<string>): (f: string -> bool)
    ensures forall w :: f(w) == Keep(stop, w)
  {
    w => Keep(stop, w)
  }

  /** `r` is what the token filter leaves of `words`: a subsequence of them
      in which each word that passes appears exactly as often as in `words`
      and no other word appears. */
  ghost predicate FilteredWords(r: seq<string>, words: seq<string>, stop: set<string>) {
    && IsSubsequence(r, words)
    && (forall i :: 0 <= i < |r| ==> Keep(stop, r[i]))
    && (forall i :: 0 <= i < |words| && Keep(stop, words[i]) ==> words[i] in r)
    && forall w :: CountOf(r, w) == if Keep(stop, w) then CountOf(words, w) else 0
  }

  /** Selecting with the filter keeps every occurrence of a word that passes
      and none of the others. */
  lemma SelectFilters(words: seq<string>, stop: set<string>)
    ensures FilteredWords(Select(words, KeepFilter(stop)), words, stop)
  {
    forall w ensures CountOf(Select(words, KeepFilter(stop)), w) == if Keep(stop, w) then CountOf(words, w) else 0 {
      SelectCount(words, KeepFilter(stop), w);
    }
  }

  /** `preprocess_text(text)`: no tokens for a non-string or empty value;
      otherwise the words of the cleaned text that pass the filter, in
      order, lemmatized when WordNet is available. */
  function Preprocess(text: Value, env: NlpEnv): (r: seq<string>)
    ensures !text.Str? || text.s == "" ==> r == []
    ensures text.Str? && env.lemmatizer.NoLemmatizer? ==> FilteredWords(r, Words(Clean(text.s)), StopSet(env.stopwords))
    ensures text.Str? && env.lemmatizer.WordNet? ==>
              var kept := Select(Words(Clean(text.s)), KeepFilter(StopSet(env.stopwords)));
              |r| == |kept| && forall i :: 0 <= i < |r| ==> r[i] == env.lemmatizer.lemmatize(kept[i])
  {
    if !text.Str? || text.s == "" then []
    else
      var stop := StopSet(env.stopwords);
      var kept := Select(Words(Clean(text.s)), KeepFilter(stop));
      SelectFilters(Words(Clean(text.s)), stop);
      match env.lemmatizer
      case NoLemmatizer => kept
      case WordNet(f) => seq(|kept|, i requires 0 <= i < |kept| => f(kept[i]))
  }

  /** Without lemmatization every token is a lower-case run of word
      characters longer than two, and neither a domain nor an English
      stopword. */
  lemma TokensAreCleanWords(text: string, env: NlpEnv, i: nat)
    requires env.lemmatizer.NoLemmatizer?
    requires i < |Preprocess(Str(text), env)|
    ensures var w := Preprocess(Str(text), env)[i];
            && |w| > 2
            && w !in DomainStopwords
            && (env.stopwords.BasicFallback? ==> w !in BasicStopwords)
            && (env.stopwords.EnglishCorpus? ==> w !in env.stopwords.words)
            && forall j :: 0 <= j < |w| ==> IsWordChar(w[j]) && !IsUpper(w[j])
  {
    var c := Clean(text);
    var ws := Words(c);
    var w := Preprocess(Str(text), env)[i];
    assert w in ws;
    var k :| 0 <= k < |ws| && ws[k] == w;
    forall j | 0 <= j < |w| ensures IsWordChar(w[j]) && !IsUpper(w[j]) {
      assert !IsSpace(ws[k][j]) && ws[k][j] in c;
    }
  }
}
