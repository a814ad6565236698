/**
 * Hand-worked runs of the fallback classifier on fixed texts. Each text is
 * written as its words joined by single spaces, so that the absence of a hint
 * reduces to its absence from every word (no hint contains a space except the
 * two-word ones, which are absent as soon as their first word is).
 */
module WorkedExamples {
  import opened Wrappers
  import opened Strings
  import opened Categories
  import opened SuggestReplies
  import opened ClassifierFallback
  import opened PageModel

  /** Hints that share no space and are non-empty can be looked up word by word. */
  lemma NoneInWords(ws: seq<string>, hs: seq<string>)
    requires forall h :: h in hs ==> ' ' !in h && h != ""
    requires forall h, w :: h in hs && w in ws ==> !Contains(w, h)
    ensures forall h :: h in hs ==> !Contains(Join(ws, " "), h)
  {
    forall h | h in hs ensures !Contains(Join(ws, " "), h) {
      ContainsJoinedWords(ws, h);
    }
  }

  /** A two-word pattern is absent whenever its first word is. */
  lemma MultiWordHints(t: string)
    ensures Contains(t, "feliz natal") ==> Contains(t, "feliz")
    ensures Contains(t, "bom dia") ==> Contains(t, "bom")
    ensures Contains(t, "boa tarde") ==> Contains(t, "boa")
    ensures Contains(t, "boas festas") ==> Contains(t, "boa")
  {
    assert "feliz natal" == "feliz" + " natal";
    assert "bom dia" == "bom" + " dia";
    assert "boa tarde" == "boa" + " tarde";
    assert "boas festas" == "boa" + "s festas";
    ContainsPrefix(t, "feliz", " natal");
    ContainsPrefix(t, "bom", " dia");
    ContainsPrefix(t, "boa", " tarde");
    ContainsPrefix(t, "boa", "s festas");
  }

  /** A score is the size of the set of hints present. */
  lemma ScoreFromPresence(text: string, hints: seq<string>, hits: set<string>)
    requires NoDuplicates(hints)
    requires forall h :: h in hints ==> (Contains(Lower(text), h) <==> h in hits)
    requires forall h :: h in hits ==> h in hints
    ensures CountHits(Lower(text), hints) == |hits|
  {
    CountHitsIsDistinctHintsPresent(Lower(text), hints);
    assert Present(Lower(text), hints) == hits;
  }

  // Hint groups, each small enough to be checked against a word list at once.
  const PROD_GROUP_A: seq<string> := ["atualiza", "andamento", "suporte", "erro", "problema"]
  const PROD_GROUP_B: seq<string> := ["status", "ticket", "urgente"]
  const FIRST_WORDS: seq<string> := ["feliz", "bom", "boa", "parabéns", "obrigado"]

  /* ---------- "status do meu ticket, por favor, é urgente" ---------- */

  const TICKET_TEXT: string := "status do meu ticket, por favor, é urgente"
  const TICKET_HEAD_TEXT: string := "status do meu ticket,"
  const TICKET_TAIL_TEXT: string := "por favor, é urgente"
  const TICKET_HEAD: seq<string> := ["status", "do", "meu", "ticket,"]
  const TICKET_TAIL: seq<string> := ["por", "favor,", "é", "urgente"]

  lemma TicketSplit() ensures TICKET_TEXT == TICKET_HEAD_TEXT + " " + TICKET_TAIL_TEXT {}
  lemma TicketHeadJoin() ensures Join(TICKET_HEAD, " ") == TICKET_HEAD_TEXT {}
  lemma TicketTailJoin() ensures Join(TICKET_TAIL, " ") == TICKET_TAIL_TEXT {}
  lemma TicketHeadIsLower() ensures Lower(TICKET_HEAD_TEXT) == TICKET_HEAD_TEXT {}
  lemma TicketTailIsLower() ensures Lower(TICKET_TAIL_TEXT) == TICKET_TAIL_TEXT {}
  lemma TicketLowerCase() ensures Lower(TICKET_TEXT) == TICKET_TEXT {
    TicketSplit();
    TicketHeadIsLower();
    TicketTailIsLower();
    LowerAppend(TICKET_HEAD_TEXT, " ");
    LowerAppend(TICKET_HEAD_TEXT + " ", TICKET_TAIL_TEXT);
    assert Lower(" ") == " ";
  }

  lemma TicketHeadA() ensures forall h, w :: h in PROD_GROUP_A && w in TICKET_HEAD ==> !Contains(w, h) {}
  lemma TicketHeadB() ensures forall h, w :: h in FIRST_WORDS && w in TICKET_HEAD ==> !Contains(w, h) {}
  lemma TicketHeadC() ensures forall h, w :: h in ACCESS_PATTERNS && w in TICKET_HEAD ==> !Contains(w, h) {}
  lemma TicketTailA() ensures forall h, w :: h in PROD_GROUP_A && w in TICKET_TAIL ==> !Contains(w, h) {}
  lemma TicketTailB() ensures forall h, w :: h in FIRST_WORDS && w in TICKET_TAIL ==> !Contains(w, h) {}
  lemma TicketTailC() ensures forall h, w :: h in ACCESS_PATTERNS && w in TICKET_TAIL ==> !Contains(w, h) {}

  /** The lower-cased ticket text is its two halves joined by a space. */
  lemma TicketLower(text: string)
    requires text == TICKET_TEXT
    ensures Lower(text) == Join(TICKET_HEAD, " ") + " " + Join(TICKET_TAIL, " ")
  {
    TicketLowerCase();
    TicketSplit();
    TicketHeadJoin();
    TicketTailJoin();
  }

  lemma TicketAbsentInGroup(hs: seq<string>)
    requires hs == PROD_GROUP_A || hs == FIRST_WORDS || hs == ACCESS_PATTERNS
    ensures forall h :: h in hs ==> !Contains(Join(TICKET_HEAD, " ") + " " + Join(TICKET_TAIL, " "), h)
  {
    TicketHeadA();
    TicketHeadB();
    TicketHeadC();
    TicketTailA();
    TicketTailB();
    TicketTailC();
    NoneInWords(TICKET_HEAD, hs);
    NoneInWords(TICKET_TAIL, hs);
    NoneInHalves(Join(TICKET_HEAD, " "), Join(TICKET_TAIL, " "), hs);
  }

  lemma TicketPresent(text: string)
    requires text == TICKET_TEXT
    ensures Contains(Lower(text), "status") && Contains(Lower(text), "ticket") && Contains(Lower(text), "urgente")
  {
    TicketLower(text);
    var a, b := Join(TICKET_HEAD, " ") + " ", Join(TICKET_TAIL, " ");
    assert Lower(text) == a + b;
    ContainsInJoin(TICKET_HEAD, " ", 0, "status");
    ContainsInJoin(TICKET_HEAD, " ", 3, "ticket");
    ContainsInJoin(TICKET_TAIL, " ", 3, "urgente");
    ContainsAppend(Join(TICKET_HEAD, " "), " ", "status");
    ContainsAppend(Join(TICKET_HEAD, " "), " ", "ticket");
    ContainsAppend(a, b, "status");
    ContainsAppend(a, b, "ticket");
    ContainsAppend(a, b, "urgente");
  }

  lemma TicketHitCount() ensures |{"status", "ticket", "urgente"}| == 3 {
    assert "status"[0] != "ticket"[0];
  }

  lemma TicketProdScore(text: string)
    requires text == TICKET_TEXT
    ensures ProdScore(text) == 3
  {
    TicketLower(text);
    TicketAbsentInGroup(PROD_GROUP_A);
    TicketPresent(text);
    HintListsHaveNoDuplicates();
    ScoreFromPresence(text, PRODUCTIVE_HINTS, {"status", "ticket", "urgente"});
    TicketHitCount();
  }

  lemma TicketUnprodScore(text: string)
    requires text == TICKET_TEXT
    ensures UnprodScore(text) == 0
  {
    TicketLower(text);
    TicketAbsentInGroup(FIRST_WORDS);
    HintListsHaveNoDuplicates();
    MultiWordHints(Lower(text));
    ScoreFromPresence(text, UNPRODUCTIVE_HINTS, {});
  }

  lemma TicketScores(text: string)
    requires text == TICKET_TEXT
    ensures ProdScore(text) == 3 && UnprodScore(text) == 0
  {
    TicketProdScore(text);
    TicketUnprodScore(text);
  }

  lemma TicketReply(text: string)
    requires text == TICKET_TEXT
    ensures SuggestReplyProductive(text) == REPLY_IN_REVIEW
  {
    TicketLower(text);
    TicketAbsentInGroup(ACCESS_PATTERNS);
    TicketPresent(text);
    ContainsAnyIff(Lower(text), ACCESS_PATTERNS);
    ContainsAnyIff(Lower(text), STATUS_PATTERNS);
  }

  /** The ticket text scores three productive hints against none: Produtivo,
      with confidence 0.55 + 0.1 * 3 = 0.85 (below the 0.95 cap), and the
      "em analise" reply because it mentions status and no access word. */
  lemma TicketExample(text: string)
    requires text == TICKET_TEXT
    ensures ProdScore(text) == 3 && UnprodScore(text) == 0
    ensures LocalHeuristicClassifier(text) == Classification(Produtivo, REPLY_IN_REVIEW, 0.85)
  {
    TicketScores(text);
    TicketReply(text);
  }

  /* ---------- "bom dia, obrigado" ---------- */

  const GREETING_TEXT: string := "bom dia, obrigado"
  const GREETING_WORDS: seq<string> := ["bom", "dia,", "obrigado"]
  const GREETING_ABSENT: seq<string> := ["feliz", "boa", "parabéns"]

  lemma GreetingLower(text: string)
    requires text == GREETING_TEXT
    ensures Lower(text) == Join(GREETING_WORDS, " ")
  {
    assert GREETING_TEXT == Join(GREETING_WORDS, " ");
    assert Lower(GREETING_TEXT) == GREETING_TEXT;
  }

  lemma GreetingWordsA() ensures forall h, w :: h in PROD_GROUP_A && w in GREETING_WORDS ==> !Contains(w, h) {}
  lemma GreetingWordsB() ensures forall h, w :: h in PROD_GROUP_B && w in GREETING_WORDS ==> !Contains(w, h) {}
  lemma GreetingWordsC() ensures forall h, w :: h in GREETING_ABSENT && w in GREETING_WORDS ==> !Contains(w, h) {}

  lemma GreetingAbsentProductive()
    ensures forall h :: h in PROD_GROUP_A ==> !Contains(Join(GREETING_WORDS, " "), h)
    ensures forall h :: h in PROD_GROUP_B ==> !Contains(Join(GREETING_WORDS, " "), h)
  {
    GreetingWordsA();
    GreetingWordsB();
    NoneInWords(GREETING_WORDS, PROD_GROUP_A);
    NoneInWords(GREETING_WORDS, PROD_GROUP_B);
  }

  lemma GreetingAbsent()
    ensures forall h :: h in GREETING_ABSENT ==> !Contains(Join(GREETING_WORDS, " "), h)
  {
    GreetingWordsC();
    NoneInWords(GREETING_WORDS, GREETING_ABSENT);
  }

  lemma GreetingPresent()
    ensures Contains(Join(GREETING_WORDS, " "), "bom dia")
    ensures Contains(Join(GREETING_WORDS, " "), "obrigado")
  {
    var t := Join(GREETING_WORDS, " ");
    assert t == GREETING_TEXT;
    assert OccursAt(t, "bom dia", 0);
    ContainsAt(t, "bom dia", 0);
    ContainsInJoin(GREETING_WORDS, " ", 2, "obrigado");
  }

  lemma GreetingHitCount() ensures |{"bom dia", "obrigado"}| == 2 {
    assert |"bom dia"| != |"obrigado"|;
  }

  lemma GreetingProdScore(text: string)
    requires text == GREETING_TEXT
    ensures ProdScore(text) == 0
  {
    GreetingLower(text);
    assert Lower(text) == Join(GREETING_WORDS, " ");
    GreetingAbsentProductive();
    HintListsHaveNoDuplicates();
    ScoreFromPresence(text, PRODUCTIVE_HINTS, {});
  }

  lemma GreetingUnprodScore(text: string)
    requires text == GREETING_TEXT
    ensures UnprodScore(text) == 2
  {
    GreetingLower(text);
    var t := Lower(text);
    assert t == Join(GREETING_WORDS, " ");
    GreetingAbsent();
    GreetingPresent();
    HintListsHaveNoDuplicates();
    MultiWordHints(t);
    ScoreFromPresence(text, UNPRODUCTIVE_HINTS, {"bom dia", "obrigado"});
    GreetingHitCount();
  }

  lemma GreetingScores(text: string)
    requires text == GREETING_TEXT
    ensures ProdScore(text) == 0 && UnprodScore(text) == 2
  {
    GreetingProdScore(text);
    GreetingUnprodScore(text);
  }

  lemma GreetingReply(text: string)
    requires text == GREETING_TEXT
    ensures SuggestReplyUnproductive(text) == REPLY_THANKS
  {
    GreetingLower(text);
    GreetingNotFestive(Lower(text));
  }

  lemma GreetingNotFestive(t: string)
    requires t == Join(GREETING_WORDS, " ")
    ensures !ContainsAny(t, FESTIVE_PATTERNS)
  {
    GreetingAbsent();
    MultiWordHints(t);
    assert !Contains(t, "feliz natal") && !Contains(t, "parabéns") && !Contains(t, "boas festas");
    ContainsAnyIff(t, FESTIVE_PATTERNS);
  }

  /** A greeting and a thank-you hit two unproductive hints and no productive
      one: Improdutivo with confidence 0.55 + 0.1 * (0 - 2) = 0.35 and the
      generic thanks reply (no seasonal greeting in the text). */
  lemma GreetingExample(text: string)
    requires text == GREETING_TEXT
    ensures ProdScore(text) == 0 && UnprodScore(text) == 2
    ensures LocalHeuristicClassifier(text) == Classification(Improdutivo, REPLY_THANKS, 0.35)
  {
    GreetingScores(text);
    GreetingReply(text);
  }

  /* ---------- the PDF placeholder ---------- */

  // The lower-cased placeholder is these two word lists joined by a space.
  const PDF_HEAD: seq<string> := ["[pdf", "enviado", "–", "o", "backend"]
  const PDF_TAIL: seq<string> := ["fará", "a", "extração", "de", "texto]"]

  lemma PdfSplit() ensures PDF_PLACEHOLDER == "[PDF enviado – o backend" + " " + "fará a extração de texto]" {}
  lemma PdfHeadLowered() ensures Lower("[PDF enviado – o backend") == "[pdf enviado – o backend" {}
  lemma PdfHeadJoin() ensures Join(PDF_HEAD, " ") == "[pdf enviado – o backend" {}
  lemma PdfHeadLower() ensures Lower("[PDF enviado – o backend") == Join(PDF_HEAD, " ") {
    PdfHeadLowered();
    PdfHeadJoin();
  }
  lemma PdfTailIsLower() ensures Lower("fará a extração de texto]") == "fará a extração de texto]" {}
  lemma PdfTailJoin() ensures Join(PDF_TAIL, " ") == "fará a extração de texto]" {}
  lemma PdfTailLower() ensures Lower("fará a extração de texto]") == Join(PDF_TAIL, " ") {
    PdfTailIsLower();
    PdfTailJoin();
  }

  lemma PdfLower(text: string)
    requires text == PDF_PLACEHOLDER
    ensures Lower(text) == Join(PDF_HEAD, " ") + " " + Join(PDF_TAIL, " ")
  {
    PdfSplit();
    PdfHeadLower();
    PdfTailLower();
    LowerAppend("[PDF enviado – o backend" + " ", "fará a extração de texto]");
    LowerAppend("[PDF enviado – o backend", " ");
    assert Lower(" ") == " ";
  }

  /** A search term without spaces is absent from `a + " " + b` when it is
      absent from both halves. */
  lemma NoneInHalves(a: string, b: string, hs: seq<string>)
    requires forall h :: h in hs ==> ' ' !in h && !Contains(a, h) && !Contains(b, h)
    ensures forall h :: h in hs ==> !Contains(a + " " + b, h)
  {
    forall h | h in hs ensures !Contains(a + " " + b, h) {
      ContainsAroundSeparator(a, ' ', b, h);
    }
  }

  lemma PdfHeadA() ensures forall h, w :: h in PROD_GROUP_A && w in PDF_HEAD ==> !Contains(w, h) {}
  lemma PdfHeadB() ensures forall h, w :: h in PROD_GROUP_B && w in PDF_HEAD ==> !Contains(w, h) {}
  lemma PdfHeadC1() ensures forall h, w :: h in FIRST_WORDS[..1] && w in PDF_HEAD ==> !Contains(w, h) {}
  lemma PdfHeadC2() ensures forall h, w :: h in FIRST_WORDS[1..2] && w in PDF_HEAD ==> !Contains(w, h) {}
  lemma PdfHeadC3() ensures forall h, w :: h in FIRST_WORDS[2..3] && w in PDF_HEAD ==> !Contains(w, h) {}
  lemma PdfHeadC4() ensures forall h, w :: h in FIRST_WORDS[3..] && w in PDF_HEAD ==> !Contains(w, h) {}
  lemma PdfHeadC() ensures forall h, w :: h in FIRST_WORDS && w in PDF_HEAD ==> !Contains(w, h) {
    PdfHeadC1();
    PdfHeadC2();
    PdfHeadC3();
    PdfHeadC4();
    assert FIRST_WORDS == FIRST_WORDS[..1] + FIRST_WORDS[1..2] + FIRST_WORDS[2..3] + FIRST_WORDS[3..];
  }
  lemma PdfTailA() ensures forall h, w :: h in PROD_GROUP_A && w in PDF_TAIL ==> !Contains(w, h) {}
  lemma PdfTailB() ensures forall h, w :: h in PROD_GROUP_B && w in PDF_TAIL ==> !Contains(w, h) {}
  lemma PdfTailC1() ensures forall h, w :: h in FIRST_WORDS[..1] && w in PDF_TAIL ==> !Contains(w, h) {}
  lemma PdfTailC2() ensures forall h, w :: h in FIRST_WORDS[1..2] && w in PDF_TAIL ==> !Contains(w, h) {}
  lemma PdfTailC3() ensures forall h, w :: h in FIRST_WORDS[2..3] && w in PDF_TAIL ==> !Contains(w, h) {}
  lemma PdfTailC4() ensures forall h, w :: h in FIRST_WORDS[3..] && w in PDF_TAIL ==> !Contains(w, h) {}
  lemma PdfTailC() ensures forall h, w :: h in FIRST_WORDS && w in PDF_TAIL ==> !Contains(w, h) {
    PdfTailC1();
    PdfTailC2();
    PdfTailC3();
    PdfTailC4();
    assert FIRST_WORDS == FIRST_WORDS[..1] + FIRST_WORDS[1..2] + FIRST_WORDS[2..3] + FIRST_WORDS[3..];
  }

  lemma PdfAbsentInGroup(hs: seq<string>)
    requires hs == PROD_GROUP_A || hs == PROD_GROUP_B || hs == FIRST_WORDS
    ensures forall h :: h in hs ==> !Contains(Join(PDF_HEAD, " ") + " " + Join(PDF_TAIL, " "), h)
  {
    PdfHeadA();
    PdfHeadB();
    PdfHeadC();
    PdfTailA();
    PdfTailB();
    PdfTailC();
    NoneInWords(PDF_HEAD, hs);
    NoneInWords(PDF_TAIL, hs);
    NoneInHalves(Join(PDF_HEAD, " "), Join(PDF_TAIL, " "), hs);
  }

  lemma PdfAbsent(text: string)
    requires text == PDF_PLACEHOLDER
    ensures forall h :: h in PROD_GROUP_A ==> !Contains(Lower(text), h)
    ensures forall h :: h in PROD_GROUP_B ==> !Contains(Lower(text), h)
    ensures forall h :: h in FIRST_WORDS ==> !Contains(Lower(text), h)
  {
    PdfLower(text);
    PdfAbsentInGroup(PROD_GROUP_A);
    PdfAbsentInGroup(PROD_GROUP_B);
    PdfAbsentInGroup(FIRST_WORDS);
  }

  lemma PdfScores(text: string)
    requires text == PDF_PLACEHOLDER
    ensures ProdScore(text) == 0 && UnprodScore(text) == 0
  {
    PdfAbsent(text);
    HintListsHaveNoDuplicates();
    ScoreFromPresence(text, PRODUCTIVE_HINTS, {});
    MultiWordHints(Lower(text));
    ScoreFromPresence(text, UNPRODUCTIVE_HINTS, {});
  }

  lemma PdfReply(text: string)
    requires text == PDF_PLACEHOLDER
    ensures SuggestReplyUnproductive(text) == REPLY_THANKS
  {
    PdfAbsent(text);
    var t := Lower(text);
    assert !Contains(t, "feliz") && !Contains(t, "parabéns") && !Contains(t, "boa");
    MultiWordHints(t);
    ContainsAnyIff(t, FESTIVE_PATTERNS);
  }

  /** The placeholder given to every PDF contains no hint at all, so the
      fallback calls it Improdutivo with the neutral 0.55 and the thanks reply. */
  lemma PdfPlaceholderClassification(text: string)
    requires text == PDF_PLACEHOLDER
    ensures ProdScore(text) == 0 && UnprodScore(text) == 0
    ensures LocalHeuristicClassifier(text) == Classification(Improdutivo, REPLY_THANKS, 0.55)
  {
    PdfScores(text);
    PdfReply(text);
  }

  /** End to end: under the local fallback every PDF item of a selection
      becomes an Improdutivo entry with confidence 0.55 and the thanks reply. */
  lemma PdfSelectionUnderFallback(fs: seq<FileInfo>, supply: nat -> string, start: nat)
    ensures var items := PdfItems(fs, supply, start);
      forall k :: 0 <= k < |items| ==>
        BatchResults(items, Failure)[k] ==
          ResultEntry(Some(items[k].id), Some(IMPRODUTIVO), Some(REPLY_THANKS), 0.55)
  {
    var items := PdfItems(fs, supply, start);
    PdfItemsShape(fs, supply, start);
    forall k | 0 <= k < |items|
      ensures BatchResults(items, Failure)[k] ==
        ResultEntry(Some(items[k].id), Some(IMPRODUTIVO), Some(REPLY_THANKS), 0.55)
    {
      PdfPlaceholderClassification(items[k].text);
    }
  }
}
