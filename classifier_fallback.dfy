/**
 * The local heuristic classifier of the front end
 * (frontend/src/utils/classifierFallback.js): it counts which productive and
 * unproductive hint words occur in the lower-cased text, picks a category from
 * the two counts and derives a confidence, then asks the reply chooser for a
 * reply. Confidence is kept as an exact real number.
 */
module ClassifierFallback {
  import opened Strings
  import opened Categories
  import opened SuggestReplies

  const PRODUCTIVE_HINTS: seq<string> :=
    ["status", "atualiza", "andamento", "suporte", "erro", "problema", "ticket", "urgente"]
  const UNPRODUCTIVE_HINTS: seq<string> :=
    ["feliz natal", "bom dia", "boa tarde", "parabéns", "obrigado"]

  datatype Classification = Classification(category: Category, reply: string, confidence: real)

  /** The `reduce` over a hint list: one for every hint that occurs in `t`. */
  function CountHits(t: string, hints: seq<string>): (n: nat)
    ensures n <= |hints|
  {
    if hints == [] then 0
    else (if Contains(t, hints[0]) then 1 else 0) + CountHits(t, hints[1..])
  }

  function ProdScore(text: string): nat {
    CountHits(Lower(text), PRODUCTIVE_HINTS)
  }

  function UnprodScore(text: string): nat {
    CountHits(Lower(text), UNPRODUCTIVE_HINTS)
  }

  function Max(a: int, b: int): int { if a >= b then a else b }

  function Min(a: real, b: real): real { if a <= b then a else b }

  /** `prodScore >= Math.max(1, unprodScore) ? "Produtivo" : "Improdutivo"`. */
  function CategoryFor(prod: nat, unprod: nat): (c: Category)
    ensures c == Produtivo <==> prod >= 1 && prod >= unprod
  {
    if prod >= Max(1, unprod) then Produtivo else Improdutivo
  }

  /** `Math.min(0.95, 0.55 + 0.1 * (prodScore - unprodScore))`, with no lower clamp. */
  function ConfidenceFor(prod: nat, unprod: nat): (c: real)
    ensures c <= 0.95
    ensures c == 0.95 <==> prod - unprod >= 4
    ensures prod - unprod < 4 ==> c == 0.55 + 0.1 * (prod - unprod) as real
  {
    Min(0.95, 0.55 + 0.1 * (prod - unprod) as real)
  }

  /** `localHeuristicClassifier(text)`. */
  function LocalHeuristicClassifier(text: string): (r: Classification)
    ensures r.category == Produtivo <==> ProdScore(text) >= 1 && ProdScore(text) >= UnprodScore(text)
    ensures r.reply == if r.category == Produtivo then SuggestReplyProductive(text)
                       else SuggestReplyUnproductive(text)
    ensures 0.05 <= r.confidence <= 0.95
    ensures r.confidence == 0.95 <==> ProdScore(text) - UnprodScore(text) >= 4
    ensures r.category == Produtivo ==> r.confidence >= 0.55
    ensures r.category == Improdutivo ==> r.confidence <= 0.55
  {
    var prod := ProdScore(text);
    var unprod := UnprodScore(text);
    var category := CategoryFor(prod, unprod);
    var reply := if category == Produtivo then SuggestReplyProductive(text)
                 else SuggestReplyUnproductive(text);
    Classification(category, reply, ConfidenceFor(prod, unprod))
  }

  /** The scores stay within the sizes of the hint lists. */
  lemma ScoreBounds(text: string)
    ensures ProdScore(text) <= 8 && UnprodScore(text) <= 5
  {
  }

  predicate NoDuplicates(xs: seq<string>) {
    forall i, j :: 0 <= i < j < |xs| ==> xs[i] != xs[j]
  }

  lemma HintListsHaveNoDuplicates()
    ensures NoDuplicates(PRODUCTIVE_HINTS) && NoDuplicates(UNPRODUCTIVE_HINTS)
  {
  }

  /** The hints of `hints` that occur in `t`. */
  function Present(t: string, hints: seq<string>): set<string> {
    set h | h in hints && Contains(t, h)
  }

  lemma PresentOfCons(t: string, hints: seq<string>)
    requires hints != []
    ensures Present(t, hints) ==
      (if Contains(t, hints[0]) then {hints[0]} else {}) + Present(t, hints[1..])
  {
    assert hints == [hints[0]] + hints[1..];
  }

  lemma TailHasNoDuplicates(hints: seq<string>)
    requires hints != [] && NoDuplicates(hints)
    ensures NoDuplicates(hints[1..]) && hints[0] !in hints[1..]
  {
    var rest := hints[1..];
    forall i, j | 0 <= i < j < |rest| ensures rest[i] != rest[j] {
      assert rest[i] == hints[i + 1] && rest[j] == hints[j + 1];
    }
    forall j | 0 <= j < |rest| ensures rest[j] != hints[0] {
      assert rest[j] == hints[j + 1];
    }
  }

  /** A score is the number of distinct hints present: repeating a hint in the
      text adds nothing. */
  lemma {:induction false} CountHitsIsDistinctHintsPresent(t: string, hints: seq<string>)
    requires NoDuplicates(hints)
    ensures CountHits(t, hints) == |Present(t, hints)|
  {
    if hints != [] {
      TailHasNoDuplicates(hints);
      CountHitsIsDistinctHintsPresent(t, hints[1..]);
      PresentOfCons(t, hints);
      assert hints[0] !in Present(t, hints[1..]);
    }
  }

  /** A score depends only on which hints are present, not on how often or where. */
  lemma {:induction false} CountHitsDependsOnPresence(a: string, b: string, hints: seq<string>)
    requires forall k :: 0 <= k < |hints| ==> (Contains(a, hints[k]) <==> Contains(b, hints[k]))
    ensures CountHits(a, hints) == CountHits(b, hints)
  {
    if hints != [] {
      CountHitsDependsOnPresence(a, b, hints[1..]);
    }
  }

  /** Changing the case of letters never changes the classification. */
  lemma ClassificationIgnoresCase(a: string, b: string)
    requires CaseVariant(a, b)
    ensures ProdScore(a) == ProdScore(b) && UnprodScore(a) == UnprodScore(b)
    ensures LocalHeuristicClassifier(a) == LocalHeuristicClassifier(b)
  {
    LowerIgnoresCase(a, b);
    RepliesIgnoreCase(a, b);
  }

  /** A text without any hint, the empty text among them, is unproductive with
      confidence 0.55 and one of the two unproductive replies. */
  lemma HintFreeIsUnproductive(text: string)
    requires ProdScore(text) == 0 && UnprodScore(text) == 0
    ensures LocalHeuristicClassifier(text).category == Improdutivo
    ensures LocalHeuristicClassifier(text).confidence == 0.55
    ensures LocalHeuristicClassifier(text).reply == SuggestReplyUnproductive(text)
  {
  }

  lemma {:induction false} NothingOccursInEmpty(hints: seq<string>)
    requires forall k :: 0 <= k < |hints| ==> hints[k] != ""
    ensures CountHits("", hints) == 0
  {
    if hints != [] {
      NothingOccursInEmpty(hints[1..]);
    }
  }

  /** The empty text: unproductive, 0.55, the generic thanks reply. */
  lemma EmptyText()
    ensures LocalHeuristicClassifier("") == Classification(Improdutivo, REPLY_THANKS, 0.55)
  {
    assert Lower("") == "";
    NothingOccursInEmpty(PRODUCTIVE_HINTS);
    NothingOccursInEmpty(UNPRODUCTIVE_HINTS);
    HintFreeIsUnproductive("");
    ContainsAnyIff("", FESTIVE_PATTERNS);
  }
}
