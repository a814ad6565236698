/**
 * The canned-reply chooser of the front end (frontend/src/utils/suggestReplies.js).
 * Each rule is a case-insensitive regular expression made of an alternation of
 * plain words; it is modelled as "the lower-cased text contains one of these
 * lower-case words". Rules are tried in order and the first that fires wins.
 */
module SuggestReplies {
  import opened Strings

  const ACCESS_PATTERNS: seq<string> := ["acesso", "login", "senha", "reset"]
  const STATUS_PATTERNS: seq<string> := ["status", "andamento"]
  const FILE_PATTERNS: seq<string> := ["anexo", "arquivo", "attachment", "pdf"]
  const FESTIVE_PATTERNS: seq<string> := ["feliz natal", "parabéns", "boas festas"]

  const REPLY_ACCESS: string := "Olá! Recebemos sua solicitação de acesso. Confirme usuário e sistema para agilizar."
  const REPLY_IN_REVIEW: string := "Olá! Seu pedido está em análise. Retornaremos com atualização até o fim do dia útil."
  const REPLY_FILE_RECEIVED: string := "Olá! Recebemos o arquivo. Vamos validar e retornamos com os próximos passos."
  const REPLY_FORWARDED: string := "Olá! Registramos sua solicitação e encaminhamos à equipe responsável."
  const REPLY_GREETINGS: string := "Muito obrigado pelos votos! Desejamos o mesmo para você. 😉"
  const REPLY_THANKS: string := "Obrigado pela mensagem! Estamos à disposição."

  /** `/p1|p2|.../i.test(text)`. */
  predicate Matches(text: string, patterns: seq<string>) {
    ContainsAny(Lower(text), patterns)
  }

  /** Reply for a productive message: access, then status, then attachment,
      then the generic forwarding reply. */
  function SuggestReplyProductive(text: string): (r: string)
    ensures r in [REPLY_ACCESS, REPLY_IN_REVIEW, REPLY_FILE_RECEIVED, REPLY_FORWARDED]
    ensures r == REPLY_ACCESS <==> Matches(text, ACCESS_PATTERNS)
    ensures r == REPLY_IN_REVIEW <==>
      !Matches(text, ACCESS_PATTERNS) && Matches(text, STATUS_PATTERNS)
    ensures r == REPLY_FILE_RECEIVED <==>
      !Matches(text, ACCESS_PATTERNS) && !Matches(text, STATUS_PATTERNS) && Matches(text, FILE_PATTERNS)
    ensures r == REPLY_FORWARDED <==>
      !Matches(text, ACCESS_PATTERNS) && !Matches(text, STATUS_PATTERNS) && !Matches(text, FILE_PATTERNS)
  {
    if Matches(text, ACCESS_PATTERNS) then REPLY_ACCESS
    else if Matches(text, STATUS_PATTERNS) then REPLY_IN_REVIEW
    else if Matches(text, FILE_PATTERNS) then REPLY_FILE_RECEIVED
    else REPLY_FORWARDED
  }

  /** Reply for an unproductive message: seasonal greetings, else thanks. */
  function SuggestReplyUnproductive(text: string): (r: string)
    ensures r in [REPLY_GREETINGS, REPLY_THANKS]
    ensures r == REPLY_GREETINGS <==> Matches(text, FESTIVE_PATTERNS)
    ensures r == REPLY_THANKS <==> !Matches(text, FESTIVE_PATTERNS)
  {
    if Matches(text, FESTIVE_PATTERNS) then REPLY_GREETINGS else REPLY_THANKS
  }

  /** Any access word, in any case and anywhere in the text, selects the access
      reply, whatever else the text says. */
  lemma AccessWordWins(text: string, k: int)
    requires 0 <= k < |ACCESS_PATTERNS|
    requires Contains(Lower(text), ACCESS_PATTERNS[k])
    ensures SuggestReplyProductive(text) == REPLY_ACCESS
  {
    ContainsAnyIff(Lower(text), ACCESS_PATTERNS);
  }

  /** Texts that differ only in letter case get the same replies. */
  lemma RepliesIgnoreCase(a: string, b: string)
    requires CaseVariant(a, b)
    ensures SuggestReplyProductive(a) == SuggestReplyProductive(b)
    ensures SuggestReplyUnproductive(a) == SuggestReplyUnproductive(b)
  {
    LowerIgnoresCase(a, b);
  }

  /** Matching is on substrings, not whole words: "RESETAR" fires the reset rule. */
  lemma SubstringNotWord()
    ensures SuggestReplyProductive("RESETAR") == REPLY_ACCESS
  {
    assert Lower("RESETAR") == "resetar";
    assert Contains("resetar", "reset");
  }
}
