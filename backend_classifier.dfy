/**
 * The back end's rule classifier `classify_email`: a text is Produtivo when
 * its preprocessed form contains one of five keywords as a substring, and
 * each category comes with one fixed response.
 */
module BackendClassifier {
  import opened Strings
  import opened Categories
  import opened NlpUtils

  const KEYWORDS: seq<string> := ["status", "atualização", "suporte", "problema", "ajuda"]

  const RESPONSE_PRODUCTIVE: string :=
    "Obrigado pelo contato. Estamos verificando sua solicitação e retornaremos em breve."
  const RESPONSE_UNPRODUCTIVE: string := "Agradecemos sua mensagem!"

  /** The response the classifier pairs with a category name. */
  function ResponseFor(category: string): string {
    if category == PRODUTIVO then RESPONSE_PRODUCTIVE else RESPONSE_UNPRODUCTIVE
  }

  /** `classify_email(text)`: the pair `(category, response)`. */
  function ClassifyEmail(text: string, stop: set<string>): (r: (string, string))
    ensures r.0 == PRODUTIVO <==>
      exists k :: 0 <= k < |KEYWORDS| && Contains(Preprocess(text, stop), KEYWORDS[k])
    ensures r == (PRODUTIVO, RESPONSE_PRODUCTIVE) || r == (IMPRODUTIVO, RESPONSE_UNPRODUCTIVE)
    ensures r.1 == ResponseFor(r.0)
  {
    var clean := Preprocess(text, stop);
    ContainsAnyIff(clean, KEYWORDS);
    if ContainsAny(clean, KEYWORDS) then (PRODUTIVO, RESPONSE_PRODUCTIVE)
    else (IMPRODUTIVO, RESPONSE_UNPRODUCTIVE)
  }

  /** A text with no token left once stop words are removed (the empty text,
      a blank one, or one made of stop words only) is Improdutivo. */
  lemma NothingLeftIsUnproductive(text: string, stop: set<string>)
    requires forall t :: t in Tokens(StripPunctuation(Lower(text))) ==> t in stop
    ensures ClassifyEmail(text, stop) == (IMPRODUTIVO, RESPONSE_UNPRODUCTIVE)
  {
    PreprocessSpacing(text, stop);
  }

  lemma EmptyEmail(stop: set<string>)
    ensures ClassifyEmail("", stop) == (IMPRODUTIVO, RESPONSE_UNPRODUCTIVE)
  {
    NothingLeftIsUnproductive("", stop);
  }

  /** Case never changes the verdict. */
  lemma ClassifyIgnoresCase(a: string, b: string, stop: set<string>)
    requires CaseVariant(a, b)
    ensures ClassifyEmail(a, stop) == ClassifyEmail(b, stop)
  {
    PreprocessIgnoresCase(a, b, stop);
  }

  lemma LowerProBlema(text: string)
    requires text == "pro-blema"
    ensures Lower(text) == text
  {
  }

  lemma StripProBlema(s: string)
    requires s == "pro-blema"
    ensures StripPunctuation(s) == "problema"
  {
    assert s == "pro" + ['-'] + "blema";
    StripDropsOne("pro", '-', "blema");
  }

  /** Punctuation is deleted before the keyword test, so a hyphen inside a
      keyword does not hide it: "pro-blema" is Produtivo. */
  lemma HyphenatedKeyword(text: string, stop: set<string>)
    requires text == "pro-blema" && "problema" !in stop
    ensures ClassifyEmail(text, stop) == (PRODUTIVO, RESPONSE_PRODUCTIVE)
  {
    LowerProBlema(text);
    StripProBlema(Lower(text));
    TokensOfJoin(["problema"]);
    assert Join(["problema"], " ") == "problema";
    assert Preprocess(text, stop) == "problema";
    assert StartsWith("problema", KEYWORDS[3]) by {
      StartsWithIff("problema", KEYWORDS[3]);
    }
  }
}
