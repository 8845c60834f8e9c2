/**
 * The `/predict` handler's logic (app.py:30-40) without the HTTP plumbing:
 * optional translation to English, cleaning, classification, and the
 * mapping from the predicted label to the reply text.
 *
 * The fitted vectorizer and model, and the translation service, are outside
 * the model; they enter as function parameters.
 */
module Respond {
  import opened Clean

  /** The reply table of app.py:39. */
  const Replies: map<int, string> := map[
    0 := "Sorry for that",
    1 := "Thanks for such sweet review",
    2 := "Thank you"
  ]

  /** The default of `response.get(pred, "Thank you")` (app.py:40). */
  const DefaultReply: string := "Thank you"

  /** `response.get(prediction, "Thank you")`: total over all labels. */
  function Message(prediction: int): (r: string)
    ensures r in {"Sorry for that", "Thanks for such sweet review", "Thank you"}
    ensures r == "Sorry for that" <==> prediction == 0
    ensures r == "Thanks for such sweet review" <==> prediction == 1
    ensures r == "Thank you" <==> prediction != 0 && prediction != 1
  {
    if prediction in Replies then Replies[prediction] else DefaultReply
  }

  /**
   * The reply to a review. `detect` gives the language code the translation
   * service detects, `translate` its English translation, and `classify`
   * stands for `vectorizer.transform` followed by `model.predict` on the
   * one-element batch.
   */
  function Predict(
    review: string,
    stop: set<string>,
    detect: string -> string,
    translate: string -> string,
    classify: string -> int
  ): (r: string)
    ensures r in {"Sorry for that", "Thanks for such sweet review", "Thank you"}
    ensures detect(review) == "en" ==> r == Message(classify(CleanText(review, stop)))
    ensures detect(review) != "en" ==> r == Message(classify(CleanText(translate(review), stop)))
  {
    var english := if detect(review) != "en" then translate(review) else review;
    Message(classify(CleanText(english, stop)))
  }
}
