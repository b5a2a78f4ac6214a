# Hybrid fake-news detector: the decision policy

A Dafny model of the request path of the hybrid fake-news detector (`app.py`).
A headline goes first to a linear text classifier. When the magnitude of the
classifier's decision score reaches the threshold (0.6), its class is shown as
"REAL NEWS ✓" or "FAKE NEWS ✗" with the confidence to two decimals. Otherwise
the NewsAPI search service is asked about the headline, and the title and
description of its first article are shown. If the service reports no results,
the answer is "No reliable information found".

The three Python functions are modelled as pure Dafny functions:

- `ml_predict` is `HybridDetector.MlPredict`. What `vectorizer.transform`,
  `model.decision_function` and `model.predict` produced is an input:
  `Inference = Raised | Scored(score, prediction)`. The score and the class id
  are independent, as they are in the code.
- `newsapi_check` is `HybridDetector.NewsApiCheck`. What the GET request and
  `res.json()` produced is an input: `Response = Unusable | Body(totalResults,
  articles)`. `Unusable` covers a failed request or a body that is not a JSON
  object and, when `totalResults` is non-zero, an `articles` that is not a list
  or a first article that is not an object. Absent keys are `None`. Article fields distinguish an absent key,
  which gets the default text, from a JSON `null`, which an f-string prints as
  "None".
- `final_output` is `HybridDetector.FinalOutput`. Its `{conf:.2f}` rendering is
  `FloatFormat.Fixed2`: Python's fixed-point format over exact reals, meaning
  round to the nearest hundredth with ties to even, and a leading "-" for a
  negative value.

`HybridDetector.ReadAnswer` parses the displayed text back into
`Answer = Verdict(label, hundredths) | FromNewsApi(text) | NoInformation | Unreadable`.
`AnswerRoundTrip` proves that the displayed text always identifies the branch
taken and carries that branch's payload.

Two behaviours of the code are easy to miss:

- `requests.get` does not raise on a non-2xx status, and the status is never
  checked. An error body from the service has no `totalResults` key, so it
  reads as "No news articles found.", not as "NewsAPI lookup failed."
  (`ErrorBodyReadsAsNotFound`).
- `final_output` tests only for the "not found" sentinel. A failed lookup is
  therefore shown as "UNCERTAIN → Using NewsAPI:" followed by
  "NewsAPI lookup failed." (`LookupFailureShownAsNewsApiResult`).

## Model

| member | source | states |
|---|---|---|
| HybridDetector.Abs | app.py:22 | the confidence `abs(score)` is non-negative and is the score or its negation |
| HybridDetector.MlPredict | app.py:18-34 | confidence is never negative; any failure gives exactly (uncertain, 0.0); otherwise the confidence is `abs(score)`, the label is uncertain exactly when the confidence is below the threshold, and a trusted label is real exactly when the class id is 1 |
| HybridDetector.ThresholdMonotone | app.py:27-31 | a label that is trusted at some threshold is trusted, with the same label and confidence, at every lower threshold |
| HybridDetector.FailureLooksLikeZeroScore | app.py:27-34 | for any positive threshold, a failing classifier and a zero decision score give the same classification |
| HybridDetector.FieldText | app.py:49-52 | an absent key shows the default text, a JSON null shows "None", a string shows itself |
| HybridDetector.NoResults | app.py:45 | true exactly when `totalResults` is absent or 0, the test `data.get("totalResults", 0) == 0` |
| HybridDetector.HasFirstArticle | app.py:48 | defines the guard of app.py:48: `articles` present and non-empty; `LookupFailedExactly` states the promise |
| HybridDetector.Summary | app.py:52 | the article shows as "Title: ", the title text, "\n\nDescription: " and the description text, in that order and nothing else |
| HybridDetector.NewsApiCheck | app.py:39-55 | a failed request or parse gives "NewsAPI lookup failed."; an absent or zero `totalResults` gives "No news articles found."; results without a first article give the failure text; otherwise the summary of the first article |
| HybridDetector.SummaryIsNoSentinel | app.py:46-52 | an article summary never equals either sentinel text |
| HybridDetector.NotFoundExactly | app.py:45-55 | the lookup answers "No news articles found." if and only if the body has an absent or zero `totalResults` |
| HybridDetector.LookupFailedExactly | app.py:45-55 | the lookup answers "NewsAPI lookup failed." if and only if it was unusable, or it reported results but had no first article |
| HybridDetector.ErrorBodyReadsAsNotFound | app.py:42-46 | a body without `totalResults`, such as an error reply, gives "No news articles found." |
| HybridDetector.FinalOutput | app.py:60-74 | a trusted label gives its banner, the confidence separator and the confidence to two decimals; an uncertain label gives "No reliable information found." when the lookup says not found, and otherwise the NewsAPI prefix followed by the lookup text |
| HybridDetector.LookupOnlyWhenUncertain | app.py:63-69 | when the classifier is trusted, the answer does not depend on the service's response |
| HybridDetector.LookupFailureShownAsNewsApiResult | app.py:69-72 | an uncertain classification with a failed lookup displays exactly "UNCERTAIN → Using NewsAPI:\n\nNewsAPI lookup failed." |
| HybridDetector.FailureLooksLikeLowConfidence | app.py:61-74 | a failing classifier and a score below the default threshold produce the same displayed answer |
| HybridDetector.NoInformationExactly | app.py:64-74 | "No reliable information found." is displayed if and only if the classifier is uncertain and the service reports no results |
| HybridDetector.AnswerRoundTrip | app.py:60-74 | reading the displayed text back recovers the branch: the trusted label with its confidence rounded to hundredths, ties to even, or "no information" exactly when the service reports no results, or otherwise the lookup's own text |
| HybridDetector.ConfidentRealScenario | app.py:60-66 | a score of magnitude 0.9 with class 1 displays "REAL NEWS ✓\nConfidence: 0.90" |
| HybridDetector.ConfidentFakeScenario | app.py:60-66 | a score of magnitude 0.9 with class 0 displays "FAKE NEWS ✗\nConfidence: 0.90" |
| HybridDetector.FallbackArticleScenario | app.py:60-72 | a score of magnitude 0.2 and one article titled X, described Y, displays "UNCERTAIN → Using NewsAPI:\n\nTitle: X\n\nDescription: Y" |
| HybridDetector.FallbackNothingFoundScenario | app.py:60-74 | a score of magnitude 0.2 with `totalResults` 0 displays "UNCERTAIN → No reliable information found." |
| FloatFormat.RoundHalfEven | app.py:66 | the result is an integer within one half of the input, and the even one on a tie |
| FloatFormat.Hundredths | app.py:66 | the number of hundredths shown is within one half of 100 times the value, and even on a tie |
| FloatFormat.Fixed2 | app.py:66 | the text has a leading "-" exactly for a negative value, then at least one digit without a leading zero, a point and two digits; with `Fixed2RoundTrip` this fixes the text |
| FloatFormat.Fixed2RoundTrip | app.py:66 | reading the rendered text back gives the value's hundredths rounded half to even |
| FloatFormat.Fixed2OfNineTenths | app.py:66 | 0.9 renders as "0.90" |

## Left out

- Model loading with `joblib.load` and the hard-coded API key (app.py:9-13). These are startup I/O and configuration.
- The HTTP request and the URL built from the unencoded query (app.py:41-43). The model takes their outcome as the `Response` input.
- The missing timeout on `requests.get` (app.py:42). A request that never completes leaves `final_output` hanging; the model is a total function over an already obtained `Response` and cannot show that.
- The numerics of `vectorizer.transform` and `model.decision_function`. The model takes the decision score as an exact real. Floating point is not modelled: no NaN (where `abs(nan) < threshold` is false), no comparison of the score against the double nearest 0.6 (slightly below 0.6) rather than 0.6 itself, no binary rounding of the score before `.2f` formatting.
- HybridDetector.NewsApiCheck: a `totalResults` that is not an integer cannot be represented. For example, JSON `false` compares equal to 0 in Python.
- HybridDetector.FieldText: a title or description that is a number, boolean, array or object cannot be represented. Python would print its `str()`.
- The Gradio interface and `demo.launch()` (app.py:79-88). They are UI.
- train_model.py. It is an offline training job made of pandas and scikit-learn calls and file I/O.
