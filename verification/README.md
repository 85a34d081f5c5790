# LinkedIn company scraper: classification and enrichment core

This project is a Dafny model of the decision logic in a small LinkedIn
company-page scraper. The scraper searches the web for LinkedIn company
pages, scrapes each page, and enriches the free-text description of every
record. The model covers the parts of that flow that contain logic:

- **Domain classifier** (`classify_domain`, module `DomainClassifier`). It
  lower-cases the company slug and walks an if/elif chain of eight trigger
  lists. The first list with a trigger that is a substring of the slug
  decides the category: Technology, Finance, Healthcare, Education,
  Marketing, Retail, Manufacturing or Consulting. Otherwise the category is
  Other. The model proves that the chain agrees with a reference reading: an
  ordered rule table in which the first rule that fires wins. It also proves
  what that ordering implies. Three triggers can never decide, because an
  earlier list holds one of their substrings: "capital" contains "it",
  "media" contains "med", and "prod" contains "pr".
- **LinkedIn URLs** (module `LinkedInUrls`). The first part is the company
  slug, which is the fifth '/'-separated part of a page URL. The second is
  the filter over search results: keep company-page URLs, each once, stop
  at `max_results`, then apply the final `[:max_results]` slice. The search
  engine's answer is a parameter.
- **Text normalisation** (`preprocess_text`, module `Normalizer`). It
  lower-cases the text and applies the four regular-expression
  substitutions: URLs, e-mail addresses, punctuation, and runs of
  whitespace. These are modelled on ASCII with Python's left-to-right,
  non-overlapping `re.sub` semantics. It then splits the text into words
  and filters out stopwords and short words. When WordNet is available it
  lemmatizes the result.
- **Enrichment** (`extract_keywords`, `extract_entities`,
  `analyze_sentiment`, `process_descriptions`; modules `Keywords`,
  `Entities`, `Sentiment`, `Pipeline`).
  - Keywords: the `Counter.most_common` ranking. Tokens are ordered by
    count, highest first, with ties broken by first appearance.
  - Technologies: the fixed technology terms that occur in the text, in
    list order.
  - Sentiment: positive-word and negative-word presence counts, compared.
  - The frame-level enrichment that writes the four derived columns.

`Text` holds the shared vocabulary:
- Python's `in` on strings, `lower()`, `split` with a separator character, and `join`;
- first occurrences and duplicate-free selection;
- reading back a `", "`-joined list.

Splitting at whitespace (`str.split()` with no argument) belongs to the
normaliser and is `Normalizer.Words`.

The library environment of the normaliser is a parameter (`NlpEnv`). It
fixes two things:
- where the English stopwords come from: the NLTK corpus, whose contents
  are a parameter, or the built-in fifteen-word fallback;
- whether lemmatization is available: a WordNet word mapping, which is a
  parameter, or none.

## Model

| member | source | states |
|---|---|---|
| DomainClassifier.ClassifyDomain | leads.py:14-36 | `classify_domain`: the category is that of the first rule of the ordered trigger table (Technology, Finance, Healthcare, Education, Marketing, Retail, Manufacturing, Consulting) with a trigger in the lower-cased domain, a missing domain read as empty, and Other when no rule fires. |
| DomainClassifier.ChainFollowsRules | leads.py:19-36 | The if/elif chain on a lower-cased domain gives the same category as the ordered rule table read as "the first rule with a trigger in the domain decides, else Other", for every domain. |
| DomainClassifier.LabelIdentifiesIndustry | leads.py:20-36 | The nine strings `classify_domain` returns are pairwise different, so the returned string determines the category. |
| DomainClassifier.OtherIffNoTrigger | leads.py:18-36 | The result is Other if and only if no trigger of any of the eight lists occurs in the lower-cased domain. |
| DomainClassifier.MentionsIff | leads.py:19 | The `or` of `in` tests on one branch holds exactly when some trigger of that list is a substring of the domain. |
| DomainClassifier.BranchOrder | leads.py:19-34 | If the result is the category of branch i, then branch i's triggers fire and no earlier branch's triggers do. |
| DomainClassifier.EmptyDomainIsOther | leads.py:18 | A missing (None) or empty domain is classified Other. |
| DomainClassifier.CaseInsensitive | leads.py:18 | Classification ignores letter case: a domain and its lower-cased form get the same category. |
| DomainClassifier.TechnologyHasPriority | leads.py:19-20 | If some Technology trigger occurs in the lower-cased domain, the result is Technology, whatever later triggers are present too. |
| DomainClassifier.CapitalIsTechnology | leads.py:19-22 | A domain containing "capital" is always Technology, because "capital" contains "it"; Finance's "capital" trigger never decides. |
| DomainClassifier.MediaNeverMarketing | leads.py:23-28 | A domain containing "media" is Technology, Finance or Healthcare, because "media" contains "med"; it is never Marketing. |
| DomainClassifier.ProdNeverManufacturing | leads.py:27-32 | A domain containing "prod" is decided by the Marketing branch at the latest, because "prod" contains "pr"; it is never Manufacturing. |
| DomainClassifier.FirstMatchIdentifiesRule | leads.py:19-36 | Categories of the rule table are distinct, so a category identifies the rule that decided it: that rule fires and no earlier rule does. |
| LinkedInUrls.DomainSlug | leads.py:62 | The slug has no '/'. It is empty when the URL has fewer than four '/'. Otherwise it is the text between the fourth '/' and the next '/' (or the end). |
| LinkedInUrls.SlugOfJoinedUrl | leads.py:62 | For a URL made by joining five or more '/'-free parts with '/', the slug is the fifth part. |
| LinkedInUrls.ShortUrlHasNoSlug | leads.py:62 | A URL with fewer than four '/' has the empty slug. |
| LinkedInUrls.MicrosoftSlug | leads.py:148 | The sample company URL `https://uk.linkedin.com/company/microsoft` has the slug `microsoft`. |
| LinkedInUrls.CollectCompanyUrls | leads.py:118-122 | The result is the first min(max_results, n) distinct company-page URLs, in order of first appearance, or none when max_results is not positive (the loop here, followed by the `[:max_results]` slice of line 154, which `SliceTo` models). Each contains `linkedin.com/company/` and comes from the results. No URL repeats. When fewer than max_results are returned, every company URL of the results is among them. |
| LinkedInUrls.KeepCompanyUrls | leads.py:118-122 | The loop stops only at the end of the results or once the limit is reached. Until then it holds exactly the distinct company URLs of what it has read, in first-appearance order. |
| LinkedInUrls.SliceTo | leads.py:154 | Python's `s[:n]`: a prefix of `s` of length min(n, |s|) for non-negative n, and with -n elements dropped from the end for negative n. |
| Normalizer.StopSet | utils/nlp_processor.py:55-62 | The stopword set always contains the domain stopwords. It adds the corpus words when the NLTK corpus is available, or the fifteen basic words on the fallback branch, and nothing else. |
| Normalizer.StripUrls | utils/nlp_processor.py:42 | URL removal never lengthens the text and keeps only characters of the text. |
| Normalizer.FirstUrlStartIsFirst | utils/nlp_processor.py:42 | `FirstUrlStart(w)` is where the first URL match in a word starts: no match starts before it, and one starts there unless it is the end of the word. |
| Normalizer.StripUrlsOfWord | utils/nlp_processor.py:42 | A word without whitespace, followed by whitespace or the end of the text, keeps exactly its part before the first URL match, and the rest of the text is processed on its own: a removal never reaches past the word it starts in. |
| Normalizer.StripUrlsLeadingSpace | utils/nlp_processor.py:42 | A whitespace character at the front is kept, and the rest of the text is processed on its own. |
| Normalizer.NoUrlRemains | utils/nlp_processor.py:42 | After URL removal no position of the text starts "http" or "www" followed by a non-whitespace character. |
| Normalizer.StripUrlsWithoutUrl | utils/nlp_processor.py:42 | Text in which no URL match starts is left unchanged. |
| Normalizer.StripUrlsIdempotent | utils/nlp_processor.py:42 | Removing URLs twice is the same as removing them once. |
| Normalizer.StripEmails | utils/nlp_processor.py:43 | No '@' survives e-mail removal, and the result is no longer than the input and made of its characters. |
| Normalizer.StripEmailsWithoutAt | utils/nlp_processor.py:43 | Text without '@' is left unchanged by e-mail removal. |
| Normalizer.StripEmailsIdempotent | utils/nlp_processor.py:43 | Removing e-mail addresses twice is the same as removing them once. |
| Normalizer.ReplaceSymbols | utils/nlp_processor.py:44 | The length is kept. Every character is a word character or whitespace. Word and whitespace characters stay in place; the others become spaces. |
| Normalizer.ReplaceSymbolsIdempotent | utils/nlp_processor.py:44 | Replacing symbols twice is the same as replacing them once. |
| Normalizer.CollapseSpaces | utils/nlp_processor.py:45 | No two spaces are adjacent. Every character is either ' ' or a non-whitespace character of the input. The result is empty exactly when the input is. A leading whitespace run becomes a single ' '. |
| Normalizer.WordsOfCollapse | utils/nlp_processor.py:45-53 | Collapsing whitespace does not change the words `str.split()` returns. |
| Normalizer.Words | utils/nlp_processor.py:53 | `str.split()` returns non-empty words without whitespace, made of the text's characters. |
| Normalizer.WordsOfJoin | utils/nlp_processor.py:53 | Joining non-empty whitespace-free words with single spaces and splitting again gives back the same words. |
| Normalizer.JoinWords | utils/nlp_processor.py:53 | The converse: in text whose only whitespace is single spaces between words, every space-free run is a word, so joining the words with single spaces gives the text back. |
| Normalizer.Clean | utils/nlp_processor.py:39-45 | The cleaned text is lower-case and consists of word characters and single spaces only. |
| Normalizer.Preprocess | utils/nlp_processor.py:31-76 | A non-string or empty value gives no tokens. Without a lemmatizer, the tokens are a subsequence of the words of the cleaned text. Each word that is not a stopword and is longer than two characters appears among them exactly as often as in the text, and every other word never appears. With WordNet, the tokens are those same words, each lemmatized. |
| Normalizer.TokensAreCleanWords | utils/nlp_processor.py:35-65 | Without lemmatization every token is longer than two characters, is not a stopword of the active source, and consists of lower-case word characters. |
| Keywords.MostCommon | utils/nlp_processor.py:85-88 | `most_common(n)` returns no keys when n is not positive, otherwise min(n, distinct tokens) keys, taken from the front of the full ranking. |
| Keywords.MostCommonRanked | utils/nlp_processor.py:85-88 | The keys come from the tokens, do not repeat, and are in decreasing count with ties broken by first appearance. Each key outranks every token left out. |
| Keywords.RankingIsUnique | utils/nlp_processor.py:85-88 | Any two lists of the same distinct tokens that are both in ranking order are equal, so the `most_common` order is fully determined. |
| Keywords.MostCommonPrefix | utils/nlp_processor.py:88 | Asking for fewer keywords gives a prefix of the answer for more. |
| Keywords.MostCommonOrder | utils/nlp_processor.py:88 | Counts never increase along the answer, and equal counts appear in order of first appearance in the tokens. |
| Keywords.ExtractKeywords | utils/nlp_processor.py:82-94 | When there are no tokens, or top_n is not positive, the keyword string is empty. |
| Keywords.KeywordsReadBack | utils/nlp_processor.py:82-94 | Without lemmatization the keyword string is empty exactly when `most_common` is empty. Otherwise, split back at ", ", it is exactly the `most_common` keys, and every comma in it is followed by a space, so it is exactly their ", " join. |
| Entities.Detected | utils/nlp_processor.py:112-118 | The detected terms are a subsequence of the technology list. They are exactly the listed terms that occur in the lower-cased text (sound and complete). |
| Entities.ExtractEntities | utils/nlp_processor.py:96-120 | The technology string, split back at ", ", is exactly the detected terms in list order, and every comma in it is followed by a space, so it is exactly their ", " join. A non-string value gives "". |
| Entities.NothingDetectedInEmpty | utils/nlp_processor.py:113 | A non-string value, read as the empty text, yields no technology term. |
| Entities.ImpliedTerm | utils/nlp_processor.py:116-118 | A detected term reports every listed term it contains as a substring. |
| Entities.GoogleCloudImpliesCloud | utils/nlp_processor.py:103-118 | Whenever "google cloud" is reported, "cloud" is reported too. |
| Entities.JavascriptImpliesJava | utils/nlp_processor.py:103-118 | Whenever "javascript" is reported, "java" is reported too. |
| Entities.MachineLearningWithoutMl | utils/nlp_processor.py:103-118 | The text "machine learning" reports "machine learning" but not "ml". |
| Sentiment.Presence | utils/nlp_processor.py:146-147 | The count is at most the list length. On a list without repeats it is the number of distinct listed words present in the text, however often each occurs. |
| Sentiment.PositiveCount | utils/nlp_processor.py:131-146 | The positive count is at most 25 and, since the positive list has no repeats, equals the number of different positive words present in the lower-cased text. |
| Sentiment.NegativeCount | utils/nlp_processor.py:138-147 | The negative count is at most 17 and, since the negative list has no repeats, equals the number of different negative words present in the lower-cased text. |
| Sentiment.SentimentOfPresentWords | utils/nlp_processor.py:131-155 | Read over the sets of listed words present: positive exactly when more different positive than negative words occur, negative in the opposite case, neutral on a tie or an empty text. |
| Sentiment.AnalyzeSentiment | utils/nlp_processor.py:122-155 | Positive exactly when the positive count is larger, negative exactly when the negative count is larger, and neutral exactly when they tie or the value is not a non-empty string. |
| Sentiment.NoKeywordIsNeutral | utils/nlp_processor.py:145-155 | A text containing no positive and no negative word is neutral. |
| Sentiment.TwoPresent | utils/nlp_processor.py:146-147 | Two different listed words that both occur contribute at least two to the count. |
| Sentiment.SuccessfulCountsTwice | utils/nlp_processor.py:131-146 | A text containing "successful" has a positive count of at least two, since "success" is listed too. |
| Pipeline.EnrichRow | utils/nlp_processor.py:168-173 | The row gains exactly the four derived columns. Every other cell, the description included, is unchanged. The new cells hold the keywords (top 10), technologies, sentiment label and description length of that row's description. |
| Pipeline.AddColumn | utils/nlp_processor.py:168-173 | Assigning a column appends it once after the existing columns, or leaves the columns as they are when it already exists. The existing order is kept, and columns without repeats stay without repeats. |
| Pipeline.ProcessDescriptions | utils/nlp_processor.py:163-176 | A frame without a description column comes back unchanged. Otherwise the row count and order are kept and every row is enriched. The columns become the old ones followed by each derived column that was missing, once, in the order keywords, technologies, sentiment, description_length. Columns without repeats stay without repeats. |
| Pipeline.RectangularKept | utils/nlp_processor.py:163-176 | If every row had exactly the frame's columns before enrichment, the same holds after it. |
| Pipeline.ProcessIdempotent | utils/nlp_processor.py:157-176 | Enriching an already enriched frame changes nothing. |

## Left out

- HTTP fetching and HTML parsing (`scrape_linkedin_company_page` apart from its slug line, and the `requests`/BeautifulSoup calls): these are I/O. The slug is the only computation on their data.
- The web search itself, including its `num_results=max_results*2` request size: the search answer is the `results` parameter.
- The `ImportError` fallback of `google_search_linkedin_companies` (leads.py:123-151): this is an HTML-scraping alternative with its own redirect rewrite, and a canned list of three sample URLs when that fails too. Its duplicate check tests the raw link before the `/url?q=` rewrite, so it can return the same company URL twice. The model covers only the primary path.
- `run_scraper`, `main.py`, `models.py` and the static front end: orchestration, persistence and presentation.
- NLTK's `word_tokenize`: modelled by its fallback, `str.split()`. Punkt tokenization rules are outside the model.
- The contents of the NLTK English stopword corpus and of the WordNet lemmatizer: both are parameters.
- Non-ASCII text: `lower()`, `\s`, `\w` and `str.split()` are modelled on ASCII characters only.
- Logging and the NLTK resource downloads at import time.
- A weighted, bonus-scoring industry taxonomy: neither leads.py nor utils/nlp_processor.py contains one. Only the if/elif chain of `classify_domain` exists, and that is what is modelled.
- An `industry` column: `process_descriptions` writes only `keywords`, `technologies`, `sentiment` and `description_length`. The category is `domain_class`, computed per scraped record.
- Pipeline.EnrichRow: `extract_keywords` is applied with its default `top_n` of 10, as `apply` calls it. Other values of `top_n` are covered by Keywords.ExtractKeywords.
