/**
 * The hybrid decision policy of the fake-news detector (app.py): a linear
 * classifier labels a headline when its decision score is far enough from the
 * boundary; otherwise the NewsAPI search service is asked about the headline
 * and its first article is shown instead.
 *
 * The classifier and the HTTP request are not modelled: what they produced for
 * the headline is an input (`Inference`, `Response`).
 */
module HybridDetector {
  import opened Wrappers
  import FloatFormat

  /** The threshold `final_output` uses: `ml_predict`'s default. */
  const DefaultThreshold: real := 0.6

  const NotFoundMsg := "No news articles found."
  const LookupFailedMsg := "NewsAPI lookup failed."
  const NoTitle := "No title available"
  const NoDescription := "No description available"

  const RealBanner := "REAL NEWS \U{2713}"
  const FakeBanner := "FAKE NEWS \U{2717}"
  const ConfidenceSep := "\nConfidence: "
  const FallbackPrefix := "UNCERTAIN \U{2192} Using NewsAPI:\n\n"
  const NoInformationMsg := "UNCERTAIN \U{2192} No reliable information found."

  // ---------------------------------------------------------------------
  // Local predictor (ml_predict)
  // ---------------------------------------------------------------------

  datatype Label = Real | Fake | Uncertain

  datatype Classification = Classification(result: Label, confidence: real)

  /**
   * What `vectorizer.transform`, `model.decision_function` and `model.predict`
   * gave for one headline: one of them raised, or the decision score and the
   * predicted class id (1 is "real"). Nothing ties the sign of the score to
   * the class id.
   */
  datatype Inference = Raised | Scored(score: real, prediction: int)

  function Abs(x: real): (r: real)
    ensures 0.0 <= r && (r == x || r == -x)
  {
    if x < 0.0 then -x else x
  }

  /** ml_predict(text, threshold) */
  function MlPredict(inference: Inference, threshold: real): (c: Classification)
    ensures 0.0 <= c.confidence
    ensures inference.Raised? ==> c == Classification(Uncertain, 0.0)
    ensures inference.Scored? ==> c.confidence == Abs(inference.score)
    ensures inference.Scored? ==> (c.result == Uncertain <==> Abs(inference.score) < threshold)
    ensures inference.Scored? && c.result != Uncertain ==> (c.result == Real <==> inference.prediction == 1)
  {
    match inference
    case Raised => Classification(Uncertain, 0.0)
    case Scored(score, prediction) =>
      var confidence := Abs(score);
      if confidence < threshold then Classification(Uncertain, confidence)
      else Classification(if prediction == 1 then Real else Fake, confidence)
  }

  /** Lowering the threshold never takes away a label the classifier was trusted with. */
  lemma ThresholdMonotone(inference: Inference, lower: real, higher: real)
    requires lower <= higher
    requires MlPredict(inference, higher).result != Uncertain
    ensures MlPredict(inference, lower) == MlPredict(inference, higher)
  {
  }

  /** A failing classifier and a zero decision score give the caller the same answer. */
  lemma FailureLooksLikeZeroScore(threshold: real, prediction: int)
    requires 0.0 < threshold
    ensures MlPredict(Raised, threshold) == MlPredict(Scored(0.0, prediction), threshold)
  {
  }

  // ---------------------------------------------------------------------
  // Fallback lookup (newsapi_check)
  // ---------------------------------------------------------------------

  /** A title or description that is present in the article object: JSON null or a string. */
  datatype FieldValue = Null | Str(text: string)

  /** One article object; a field is `None` when its key is absent. */
  datatype Article = Article(title: Option<FieldValue>, description: Option<FieldValue>)

  /**
   * The outcome of the GET request and `res.json()`. `Unusable` stands for
   * everything that raises before a result is built: the request itself, a
   * body that is not JSON, a body that is not an object and, when
   * `totalResults` is non-zero, `articles` that is not a list or a first
   * article that is not an object. A `Body` gives the
   * `totalResults` and `articles` keys, each `None` when absent. The HTTP
   * status is never looked at.
   */
  datatype Response =
    | Unusable
    | Body(totalResults: Option<int>, articles: Option<seq<Article>>)

  /** `data.get("totalResults", 0) == 0` */
  predicate NoResults(response: Response)
    requires response.Body?
    ensures NoResults(response) <==> response.totalResults == None || response.totalResults == Some(0)
  {
    response.totalResults.GetOr(0) == 0
  }

  /** The first article exists: `data["articles"][0]` does not raise. */
  predicate HasFirstArticle(response: Response)
    requires response.Body?
  {
    response.articles.Some? && 0 < |response.articles.value|
  }

  /** How an f-string shows `article.get(key, default)`. */
  function FieldText(field: Option<FieldValue>, default: string): (s: string)
    ensures field.None? ==> s == default
    ensures field == Some(Null) ==> s == "None"
    ensures field.Some? && field.value.Str? ==> s == field.value.text
  {
    match field
    case None => default
    case Some(Null) => "None"
    case Some(Str(t)) => t
  }

  /** `f"Title: {title}\n\nDescription: {description}"` */
  function Summary(article: Article): (s: string)
    ensures var title := FieldText(article.title, NoTitle);
      var description := FieldText(article.description, NoDescription);
      && |s| == |"Title: "| + |title| + |"\n\nDescription: "| + |description|
      && s[..7] == "Title: "
      && s[7..7 + |title|] == title
      && s[7 + |title|..|s| - |description|] == "\n\nDescription: "
      && s[|s| - |description|..] == description
  {
    "Title: " + FieldText(article.title, NoTitle) + "\n\nDescription: " + FieldText(article.description, NoDescription)
  }

  /** newsapi_check(query), given what the request for the query returned. */
  function NewsApiCheck(response: Response): (s: string)
    ensures response.Unusable? ==> s == LookupFailedMsg
    ensures response.Body? && NoResults(response) ==> s == NotFoundMsg
    ensures response.Body? && !NoResults(response) && !HasFirstArticle(response) ==> s == LookupFailedMsg
    ensures response.Body? && !NoResults(response) && HasFirstArticle(response) ==>
      s == Summary(response.articles.value[0])
  {
    match response
    case Unusable => LookupFailedMsg
    case Body(totalResults, articles) =>
      if totalResults.GetOr(0) == 0 then NotFoundMsg
      else if articles.None? || |articles.value| == 0 then LookupFailedMsg
      else Summary(articles.value[0])
  }

  /** An article summary is never mistaken for either sentinel. */
  lemma SummaryIsNoSentinel(article: Article)
    ensures Summary(article) != NotFoundMsg && Summary(article) != LookupFailedMsg
  {
    assert Summary(article)[0] == 'T';
  }

  /** The lookup answers "not found" exactly when the service reports no results. */
  lemma NotFoundExactly(response: Response)
    ensures NewsApiCheck(response) == NotFoundMsg <==> response.Body? && NoResults(response)
  {
    if response.Body? && !NoResults(response) && HasFirstArticle(response) {
      SummaryIsNoSentinel(response.articles.value[0]);
    }
  }

  /** The lookup answers "failed" exactly when it raised: transport, shape or a missing first article. */
  lemma LookupFailedExactly(response: Response)
    ensures NewsApiCheck(response) == LookupFailedMsg <==>
      response.Unusable? || (!NoResults(response) && !HasFirstArticle(response))
  {
    if response.Body? && !NoResults(response) && HasFirstArticle(response) {
      SummaryIsNoSentinel(response.articles.value[0]);
    }
  }

  /** An error body from the service (no `totalResults` key) reads as "not found", not as a failure. */
  lemma ErrorBodyReadsAsNotFound(articles: Option<seq<Article>>)
    ensures NewsApiCheck(Body(None, articles)) == NotFoundMsg
  {
  }

  // ---------------------------------------------------------------------
  // Decision policy (final_output)
  // ---------------------------------------------------------------------

  /** final_output(text), given what the classifier and the service produced for the text. */
  function FinalOutput(inference: Inference, response: Response): (s: string)
    ensures var c := MlPredict(inference, DefaultThreshold);
      && (c.result == Real ==> s == RealBanner + ConfidenceSep + FloatFormat.Fixed2(c.confidence))
      && (c.result == Fake ==> s == FakeBanner + ConfidenceSep + FloatFormat.Fixed2(c.confidence))
      && (c.result == Uncertain && NewsApiCheck(response) == NotFoundMsg ==> s == NoInformationMsg)
      && (c.result == Uncertain && NewsApiCheck(response) != NotFoundMsg ==>
            s == FallbackPrefix + NewsApiCheck(response))
  {
    var c := MlPredict(inference, DefaultThreshold);
    if c.result != Uncertain then
      (if c.result == Real then RealBanner else FakeBanner) + ConfidenceSep + FloatFormat.Fixed2(c.confidence)
    else
      var news := NewsApiCheck(response);
      if news != NotFoundMsg then FallbackPrefix + news else NoInformationMsg
  }

  /** The service is consulted only when the classifier is not trusted. */
  lemma LookupOnlyWhenUncertain(inference: Inference, response1: Response, response2: Response)
    requires MlPredict(inference, DefaultThreshold).result != Uncertain
    ensures FinalOutput(inference, response1) == FinalOutput(inference, response2)
  {
  }

  /** A failed lookup is shown as if it were the service's answer. */
  lemma LookupFailureShownAsNewsApiResult(inference: Inference, response: Response)
    requires MlPredict(inference, DefaultThreshold).result == Uncertain
    requires response.Unusable? || (!NoResults(response) && !HasFirstArticle(response))
    ensures FinalOutput(inference, response) == "UNCERTAIN \U{2192} Using NewsAPI:\n\nNewsAPI lookup failed."
  {
    assert FinalOutput(inference, response) == FallbackPrefix + LookupFailedMsg;
    FailedLookupText();
  }

  /** Splits the literal text equality of `LookupFailureShownAsNewsApiResult` into a smaller step. */
  lemma FailedLookupText()
    ensures FallbackPrefix + LookupFailedMsg == "UNCERTAIN \U{2192} Using NewsAPI:\n\nNewsAPI lookup failed."
  {
  }

  /** A failing classifier is indistinguishable, end to end, from a score too close to the boundary. */
  lemma FailureLooksLikeLowConfidence(score: real, prediction: int, response: Response)
    requires Abs(score) < DefaultThreshold
    ensures FinalOutput(Raised, response) == FinalOutput(Scored(score, prediction), response)
  {
  }

  /** "No reliable information" is shown exactly when the classifier is unsure and the service reports no results. */
  lemma NoInformationExactly(inference: Inference, response: Response)
    ensures FinalOutput(inference, response) == NoInformationMsg <==>
      MlPredict(inference, DefaultThreshold).result == Uncertain && response.Body? && NoResults(response)
  {
    var c := MlPredict(inference, DefaultThreshold);
    var s := FinalOutput(inference, response);
    NotFoundExactly(response);
    if c.result == Real {
      assert s[0] == 'R';
    } else if c.result == Fake {
      assert s[0] == 'F';
    } else if NewsApiCheck(response) != NotFoundMsg {
      assert s[12] == 'U' && NoInformationMsg[12] == 'N';
    }
  }

  // ---------------------------------------------------------------------
  // Reading the displayed answer back
  // ---------------------------------------------------------------------

  /** What a reader of the displayed text can tell: which source was trusted and what it said. */
  datatype Answer =
    | Verdict(result: Label, hundredths: int)
    | FromNewsApi(summary: string)
    | NoInformation
    | Unreadable

  predicate StartsWith(s: string, prefix: string) {
    |prefix| <= |s| && s[..|prefix|] == prefix
  }

  function ReadVerdict(verdict: Label, s: string, banner: string): Answer
    requires StartsWith(s, banner + ConfidenceSep)
  {
    match FloatFormat.ParseFixed2(s[|banner + ConfidenceSep|..])
    case Some(h) => Verdict(verdict, h)
    case None => Unreadable
  }

  /** Parses a string of the shape `FinalOutput` produces. */
  function ReadAnswer(s: string): Answer {
    if StartsWith(s, RealBanner + ConfidenceSep) then ReadVerdict(Real, s, RealBanner)
    else if StartsWith(s, FakeBanner + ConfidenceSep) then ReadVerdict(Fake, s, FakeBanner)
    else if StartsWith(s, FallbackPrefix) then FromNewsApi(s[|FallbackPrefix|..])
    else if s == NoInformationMsg then NoInformation
    else Unreadable
  }

  /**
   * The displayed text tells which branch was taken and carries its payload:
   * the trusted label with the confidence rounded to hundredths, or the
   * lookup's text, or the "no information" verdict.
   */
  lemma AnswerRoundTrip(inference: Inference, response: Response)
    ensures var c := MlPredict(inference, DefaultThreshold);
      var a := ReadAnswer(FinalOutput(inference, response));
      && (c.result != Uncertain ==>
            a.Verdict? && a.result == c.result && a.hundredths == FloatFormat.Hundredths(c.confidence))
      && (c.result == Uncertain && response.Body? && NoResults(response) ==> a == NoInformation)
      && (c.result == Uncertain && !(response.Body? && NoResults(response)) ==>
            a == FromNewsApi(NewsApiCheck(response)))
  {
    var c := MlPredict(inference, DefaultThreshold);
    var s := FinalOutput(inference, response);
    NotFoundExactly(response);
    if c.result == Real {
      var p := RealBanner + ConfidenceSep;
      assert s == p + FloatFormat.Fixed2(c.confidence);
      assert s[..|p|] == p && s[|p|..] == FloatFormat.Fixed2(c.confidence);
      FloatFormat.Fixed2RoundTrip(c.confidence);
    } else if c.result == Fake {
      var p := FakeBanner + ConfidenceSep;
      assert s == p + FloatFormat.Fixed2(c.confidence);
      assert s[..|p|] == p && s[|p|..] == FloatFormat.Fixed2(c.confidence);
      assert s[0] != (RealBanner + ConfidenceSep)[0];
      FloatFormat.Fixed2RoundTrip(c.confidence);
    } else if NewsApiCheck(response) == NotFoundMsg {
      assert s == NoInformationMsg;
      assert s[0] != (RealBanner + ConfidenceSep)[0] && s[0] != (FakeBanner + ConfidenceSep)[0];
      assert s[12] != FallbackPrefix[12];
    } else {
      var news := NewsApiCheck(response);
      assert s == FallbackPrefix + news;
      assert s[..|FallbackPrefix|] == FallbackPrefix && s[|FallbackPrefix|..] == news;
      assert s[0] != (RealBanner + ConfidenceSep)[0] && s[0] != (FakeBanner + ConfidenceSep)[0];
    }
  }

  // ---------------------------------------------------------------------
  // End-to-end scenarios
  // ---------------------------------------------------------------------

  /** A score of magnitude 0.9 with class 1 is shown as real news. */
  lemma ConfidentRealScenario(score: real, response: Response)
    requires Abs(score) == 0.9
    ensures FinalOutput(Scored(score, 1), response) == "REAL NEWS \U{2713}\nConfidence: 0.90"
  {
    assert FinalOutput(Scored(score, 1), response) == RealBanner + ConfidenceSep + FloatFormat.Fixed2(0.9);
    FloatFormat.Fixed2OfNineTenths();
    RealVerdictText();
  }

  /** Splits the literal text equality of `ConfidentRealScenario` into a smaller step. */
  lemma RealVerdictText()
    ensures RealBanner + ConfidenceSep + "0.90" == "REAL NEWS \U{2713}\nConfidence: 0.90"
  {
  }

  /** A score of magnitude 0.9 with class 0 is shown as fake news. */
  lemma ConfidentFakeScenario(score: real, response: Response)
    requires Abs(score) == 0.9
    ensures FinalOutput(Scored(score, 0), response) == "FAKE NEWS \U{2717}\nConfidence: 0.90"
  {
    assert FinalOutput(Scored(score, 0), response) == FakeBanner + ConfidenceSep + FloatFormat.Fixed2(0.9);
    FloatFormat.Fixed2OfNineTenths();
    FakeVerdictText();
  }

  /** Splits the literal text equality of `ConfidentFakeScenario` into a smaller step. */
  lemma FakeVerdictText()
    ensures FakeBanner + ConfidenceSep + "0.90" == "FAKE NEWS \U{2717}\nConfidence: 0.90"
  {
  }

  /** A score of magnitude 0.2 falls back to the service's first article. */
  lemma FallbackArticleScenario(score: real, prediction: int)
    requires Abs(score) == 0.2
    ensures FinalOutput(Scored(score, prediction), Body(Some(1), Some([Article(Some(Str("X")), Some(Str("Y")))])))
      == "UNCERTAIN \U{2192} Using NewsAPI:\n\nTitle: X\n\nDescription: Y"
  {
    var article := Article(Some(Str("X")), Some(Str("Y")));
    var response := Body(Some(1), Some([article]));
    assert NewsApiCheck(response) == Summary(article);
    SummaryIsNoSentinel(article);
    assert FinalOutput(Scored(score, prediction), response) == FallbackPrefix + Summary(article);
    ArticleScenarioText();
  }

  /** Splits the literal text equality of `FallbackArticleScenario` into a smaller step. */
  lemma ArticleScenarioText()
    ensures FallbackPrefix + Summary(Article(Some(Str("X")), Some(Str("Y"))))
      == "UNCERTAIN \U{2192} Using NewsAPI:\n\nTitle: X\n\nDescription: Y"
  {
    ArticleSummaryText();
  }

  /** Splits the literal text equality of `ArticleScenarioText` into a smaller step. */
  lemma ArticleSummaryText()
    ensures Summary(Article(Some(Str("X")), Some(Str("Y")))) == "Title: X\n\nDescription: Y"
  {
  }

  /** A score of magnitude 0.2 with no articles found reports no reliable information. */
  lemma FallbackNothingFoundScenario(score: real, prediction: int, articles: Option<seq<Article>>)
    requires Abs(score) == 0.2
    ensures FinalOutput(Scored(score, prediction), Body(Some(0), articles))
      == "UNCERTAIN \U{2192} No reliable information found."
  {
  }
}
