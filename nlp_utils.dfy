/**
 * The back end's text clean-up `preprocess_text`: lower-case the text,
 * delete every punctuation character, split it on runs of white space, drop
 * the stop words and join what is left with single spaces. The stop-word
 * list (NLTK's Portuguese corpus in the back end) is a parameter.
 */
module NlpUtils {
  import opened Strings

  /** Python's `string.punctuation`: the 32 printable ASCII symbols. */
  const PUNCTUATION: string := "!\"#$%&'()*+,-./:;<=>?@[\\]^_`{|}~"

  /** Membership in `PUNCTUATION`, by its four code-point ranges. */
  predicate IsPunct(c: char) {
    ('!' <= c <= '/') || (':' <= c <= '@') || ('[' <= c <= '`') || ('{' <= c <= '~')
  }

  lemma PunctuationRanges(c: char)
    ensures IsPunct(c) <==> c in PUNCTUATION
  {
  }

  /** The characters `str.split()` with no argument treats as white space. */
  predicate IsPySpace(c: char) {
    ('\t' <= c <= '\r') || ('\U{001C}' <= c <= ' ') || c == '\U{0085}' || c == '\U{00A0}' ||
    c == '\U{1680}' || ('\U{2000}' <= c <= '\U{200A}') || c == '\U{2028}' || c == '\U{2029}' ||
    c == '\U{202F}' || c == '\U{205F}' || c == '\U{3000}'
  }

  /** `xs` is `ys` with some elements left out, the rest kept in order. */
  predicate Subsequence<T(==)>(xs: seq<T>, ys: seq<T>)
    decreases |ys|
  {
    if xs == [] then true
    else if ys == [] then false
    else (xs[0] == ys[0] && Subsequence(xs[1..], ys[1..])) || Subsequence(xs, ys[1..])
  }

  /** `text.translate(str.maketrans("", "", string.punctuation))`: deletes
      punctuation and keeps every other character, in order. */
  function StripPunctuation(s: string): (r: string)
    ensures forall i :: 0 <= i < |r| ==> !IsPunct(r[i])
  {
    if s == [] then []
    else if IsPunct(s[0]) then StripPunctuation(s[1..])
    else [s[0]] + StripPunctuation(s[1..])
  }

  /** Every character of the result comes from the input. */
  lemma {:induction false} StripDrawsFrom(s: string)
    ensures forall i :: 0 <= i < |StripPunctuation(s)| ==> StripPunctuation(s)[i] in s
  {
    if s != [] {
      var r, t := StripPunctuation(s), StripPunctuation(s[1..]);
      StripDrawsFrom(s[1..]);
      assert forall c :: c in s[1..] ==> c in s;
      if !IsPunct(s[0]) {
        assert r == [s[0]] + t;
        forall i | 0 < i < |r| ensures r[i] in s {
          assert r[i] == t[i - 1];
        }
      }
    }
  }

  /** Every other character is kept, as often as it occurs, in order. */
  lemma {:induction false} StripKeepsOthers(s: string)
    ensures forall c :: multiset(StripPunctuation(s))[c] == if IsPunct(c) then 0 else multiset(s)[c]
    ensures Subsequence(StripPunctuation(s), s)
  {
    if s != [] {
      StripKeepsOthers(s[1..]);
      assert s == [s[0]] + s[1..];
      var rest := StripPunctuation(s[1..]);
      if !IsPunct(s[0]) {
        assert ([s[0]] + rest)[1..] == rest;
      }
    }
  }

  /** Length of the leading run of characters that are not white space. */
  function WordLength(s: string): (n: nat)
    ensures n <= |s|
    ensures forall i :: 0 <= i < n ==> !IsPySpace(s[i])
    ensures n < |s| ==> IsPySpace(s[n])
  {
    if s == [] || IsPySpace(s[0]) then 0 else 1 + WordLength(s[1..])
  }

  /** A word as `str.split()` produces it: non-empty, no white space. */
  predicate IsWord(w: string) {
    w != [] && forall i :: 0 <= i < |w| ==> !IsPySpace(w[i])
  }

  /** `s.split()`: the maximal runs of non-white-space characters. */
  function Tokens(s: string): (ts: seq<string>)
    ensures forall k :: 0 <= k < |ts| ==> IsWord(ts[k])
    ensures forall k, i :: 0 <= k < |ts| && 0 <= i < |ts[k]| ==> ts[k][i] in s
    ensures ts == [] <==> forall i :: 0 <= i < |s| ==> IsPySpace(s[i])
    decreases |s|
  {
    if s == [] then []
    else if IsPySpace(s[0]) then
      var ts := Tokens(s[1..]);
      assert forall i :: 0 <= i < |s[1..]| ==> s[1..][i] == s[i + 1];
      ts
    else
      var n := WordLength(s);
      var ts := [s[..n]] + Tokens(s[n..]);
      assert forall i :: 0 <= i < |s[n..]| ==> s[n..][i] == s[i + n];
      ts
  }

  /** The leading run is determined by where the first white space sits. */
  lemma WordLengthIs(s: string, m: nat)
    requires m <= |s|
    requires forall i :: 0 <= i < m ==> !IsPySpace(s[i])
    requires m < |s| ==> IsPySpace(s[m])
    ensures WordLength(s) == m
  {
  }

  /** A single word splits into itself. */
  lemma TokensOfWord(w: string)
    requires IsWord(w)
    ensures Tokens(w) == [w]
  {
    WordLengthIs(w, |w|);
    assert w[..|w|] == w;
    assert w[|w|..] == [];
  }

  /** Any white-space character separates: what lies before it and what lies
      after it split independently, and the tokens are the two lists in order.
      With `TokensOfWord` and the all-white-space case of `Tokens`, this fixes
      the tokens of every text. */
  lemma {:induction false} TokensSplitAt(a: string, c: char, b: string)
    requires IsPySpace(c)
    ensures Tokens(a + [c] + b) == Tokens(a) + Tokens(b)
    decreases |a|
  {
    if a == [] {
      var s := a + [c] + b;
      assert s == [c] + b;
      TokensSkipSpace(s);
      assert s[1..] == b;
    } else if IsPySpace(a[0]) {
      TokensSplitAt(a[1..], c, b);
      TokensSplitAfterSpace(a, c, b);
    } else {
      TokensSplitAt(a[WordLength(a)..], c, b);
      TokensSplitAfterWord(a, c, b);
    }
  }

  /** The step of `TokensSplitAt` when `a` starts with white space. */
  lemma TokensSplitAfterSpace(a: string, c: char, b: string)
    requires a != [] && IsPySpace(a[0])
    requires Tokens(a[1..] + [c] + b) == Tokens(a[1..]) + Tokens(b)
    ensures Tokens(a + [c] + b) == Tokens(a) + Tokens(b)
  {
    SplitPieces(a, c, b, 1);
    TokensSkipSpace(a + [c] + b);
    TokensSkipSpace(a);
  }

  /** The step of `TokensSplitAt` when `a` starts with a word. */
  lemma TokensSplitAfterWord(a: string, c: char, b: string)
    requires IsPySpace(c) && a != [] && !IsPySpace(a[0])
    requires Tokens(a[WordLength(a)..] + [c] + b) == Tokens(a[WordLength(a)..]) + Tokens(b)
    ensures Tokens(a + [c] + b) == Tokens(a) + Tokens(b)
  {
    var m := WordLength(a);
    SplitPieces(a, c, b, m);
    WordLengthExtend(a, c, b);
    TokensTakeWord(a + [c] + b);
    TokensTakeWord(a);
    ConsAppendAssoc(a[..m], Tokens(a[m..]), Tokens(b));
  }

  lemma SplitPieces(a: string, c: char, b: string, m: nat)
    requires m <= |a|
    ensures (a + [c] + b)[..m] == a[..m]
    ensures (a + [c] + b)[m..] == a[m..] + [c] + b
  {
  }

  /** A white-space character after `a` does not lengthen its leading word. */
  lemma WordLengthExtend(a: string, c: char, b: string)
    requires IsPySpace(c)
    ensures WordLength(a + [c] + b) == WordLength(a)
  {
    var s, m := a + [c] + b, WordLength(a);
    assert forall i :: 0 <= i < m ==> s[i] == a[i];
    assert s[m] == if m < |a| then a[m] else c;
    WordLengthIs(s, m);
  }

  lemma TokensSkipSpace(s: string)
    requires s != [] && IsPySpace(s[0])
    ensures Tokens(s) == Tokens(s[1..])
  {
  }

  lemma TokensTakeWord(s: string)
    requires s != [] && !IsPySpace(s[0])
    ensures Tokens(s) == [s[..WordLength(s)]] + Tokens(s[WordLength(s)..])
  {
  }

  lemma ConsAppendAssoc<T>(x: T, p: seq<T>, q: seq<T>)
    ensures [x] + (p + q) == ([x] + p) + q
  {
  }

  /** `[word for word in tokens if word not in stop_words]`. */
  function Filter(ts: seq<string>, stop: set<string>): (r: seq<string>)
    ensures forall k :: 0 <= k < |r| ==> r[k] !in stop
    ensures forall t :: multiset(r)[t] == if t in stop then 0 else multiset(ts)[t]
    ensures Subsequence(r, ts)
  {
    if ts == [] then []
    else
      var rest := Filter(ts[1..], stop);
      assert ts == [ts[0]] + ts[1..];
      if ts[0] in stop then rest else [ts[0]] + rest
  }

  /** The pieces of a `" ".join` of words, with no leading, trailing or
      doubled space. */
  predicate SingleSpaced(r: string) {
    (r != [] ==> r[0] != ' ' && r[|r| - 1] != ' ') &&
    forall i :: 0 <= i < |r| - 1 ==> r[i] != ' ' || r[i + 1] != ' '
  }

  /** `preprocess_text(text)`. */
  function Preprocess(text: string, stop: set<string>): (r: string)
    ensures forall i :: 0 <= i < |r| ==> !IsUpper(r[i]) && !IsPunct(r[i])
    ensures forall i :: 0 <= i < |r| ==> r[i] == ' ' || !IsPySpace(r[i])
  {
    var cleaned := StripPunctuation(Lower(text));
    var words := Filter(Tokens(cleaned), stop);
    StripDrawsFrom(Lower(text));
    CleanWordsJoin(cleaned, words);
    Join(words, " ")
  }

  lemma CleanWordsJoin(cleaned: string, words: seq<string>)
    requires forall i :: 0 <= i < |cleaned| ==> !IsUpper(cleaned[i]) && !IsPunct(cleaned[i])
    requires forall k :: 0 <= k < |words| ==> words[k] in Tokens(cleaned)
    ensures forall i :: 0 <= i < |Join(words, " ")| ==>
      var c := Join(words, " ")[i]; !IsUpper(c) && !IsPunct(c) && (c == ' ' || !IsPySpace(c))
  {
    var P := (c: char) => !IsUpper(c) && !IsPunct(c) && (c == ' ' || !IsPySpace(c));
    forall k, i | 0 <= k < |words| && 0 <= i < |words[k]| ensures P(words[k][i]) {
      var ts := Tokens(cleaned);
      var m :| 0 <= m < |ts| && ts[m] == words[k];
      assert words[k][i] in cleaned;
    }
    JoinKeeps(words, " ", P);
  }

  /* ----- joining and splitting words ----- */

  lemma {:induction false} WordLengthOfWord(w: string, rest: string)
    requires IsWord(w)
    requires rest == [] || IsPySpace(rest[0])
    ensures WordLength(w + rest) == |w|
  {
    var s := w + rest;
    assert s[0] == w[0];
    if |w| > 1 {
      assert s[1..] == w[1..] + rest;
      assert IsWord(w[1..]) by {
        assert forall i :: 0 <= i < |w[1..]| ==> w[1..][i] == w[i + 1];
      }
      WordLengthOfWord(w[1..], rest);
    } else {
      assert s[1..] == rest;
    }
  }

  /** `" ".join(words).split()` gives the words back. */
  lemma {:induction false} TokensOfJoin(ws: seq<string>)
    requires forall k :: 0 <= k < |ws| ==> IsWord(ws[k])
    ensures Tokens(Join(ws, " ")) == ws
  {
    if |ws| == 1 {
      WordLengthOfWord(ws[0], []);
      assert ws[0] + [] == ws[0];
      assert ws[0][|ws[0]|..] == [];
    } else if |ws| > 1 {
      var w, rest := ws[0], Join(ws[1..], " ");
      TokensOfJoin(ws[1..]);
      WordLengthOfWord(w, " " + rest);
      assert Join(ws, " ") == w + (" " + rest);
      assert (w + (" " + rest))[..|w|] == w;
      assert (w + (" " + rest))[|w|..] == " " + rest;
      assert (" " + rest)[1..] == rest;
      assert [w] + ws[1..] == ws;
    }
  }

  /** Joining words with one space leaves no space at either end and none
      doubled. */
  lemma {:induction false} JoinSingleSpaced(ws: seq<string>)
    requires forall k :: 0 <= k < |ws| ==> IsWord(ws[k])
    ensures SingleSpaced(Join(ws, " "))
    ensures Join(ws, " ") == [] <==> ws == []
  {
    if |ws| > 1 {
      JoinSingleSpaced(ws[1..]);
      var w, rest := ws[0], Join(ws[1..], " ");
      var r := w + " " + rest;
      assert Join(ws, " ") == r;
      assert rest != [] && rest[0] != ' ';
      forall i | 0 <= i < |r| - 1 ensures r[i] != ' ' || r[i + 1] != ' ' {
        if i < |w| - 1 {
          assert r[i] == w[i];
        } else if i == |w| - 1 {
          assert r[i] == w[|w| - 1];
        } else if i == |w| {
          assert r[i + 1] == rest[0];
        } else {
          assert r[i + 1] == rest[i - |w|];
        }
      }
    } else if |ws| == 1 {
      assert ws[0][0] != ' ' && ws[0][|ws[0]| - 1] != ' ';
    }
  }

  /* ----- what preprocessing promises ----- */

  /** The words of the output are exactly the whitespace-split tokens of the
      lower-cased, punctuation-free text with the stop words taken out: none
      of them is a stop word, and they keep their order. */
  lemma PreprocessWords(text: string, stop: set<string>)
    ensures Tokens(Preprocess(text, stop)) == Filter(Tokens(StripPunctuation(Lower(text))), stop)
    ensures forall k :: 0 <= k < |Tokens(Preprocess(text, stop))| ==> Tokens(Preprocess(text, stop))[k] !in stop
    ensures Subsequence(Tokens(Preprocess(text, stop)), Tokens(StripPunctuation(Lower(text))))
  {
    var words := Filter(Tokens(StripPunctuation(Lower(text))), stop);
    assert forall k :: 0 <= k < |words| ==> words[k] in Tokens(StripPunctuation(Lower(text)));
    TokensOfJoin(words);
  }

  /** The output is single-spaced, and empty exactly when every token is a
      stop word (in particular for empty or blank input). */
  lemma PreprocessSpacing(text: string, stop: set<string>)
    ensures SingleSpaced(Preprocess(text, stop))
    ensures Preprocess(text, stop) == [] <==>
      forall t :: t in Tokens(StripPunctuation(Lower(text))) ==> t in stop
  {
    var ts := Tokens(StripPunctuation(Lower(text)));
    var words := Filter(ts, stop);
    assert forall k :: 0 <= k < |words| ==> words[k] in ts;
    JoinSingleSpaced(words);
    if words == [] {
      forall t | t in ts ensures t in stop {
        assert multiset(ts)[t] > 0;
      }
    } else {
      assert multiset(words)[words[0]] > 0;
    }
  }

  lemma LowerOfLower(s: string)
    requires forall i :: 0 <= i < |s| ==> !IsUpper(s[i])
    ensures Lower(s) == s
  {
  }

  lemma StripOfClean(s: string)
    requires forall i :: 0 <= i < |s| ==> !IsPunct(s[i])
    ensures StripPunctuation(s) == s
  {
    if s != [] {
      StripOfClean(s[1..]);
      assert s == [s[0]] + s[1..];
    }
  }

  lemma FilterOfClean(ts: seq<string>, stop: set<string>)
    requires forall k :: 0 <= k < |ts| ==> ts[k] !in stop
    ensures Filter(ts, stop) == ts
  {
    if ts != [] {
      FilterOfClean(ts[1..], stop);
      assert ts == [ts[0]] + ts[1..];
    }
  }

  /** Preprocessing an already preprocessed text changes nothing. */
  lemma PreprocessIdempotent(text: string, stop: set<string>)
    ensures Preprocess(Preprocess(text, stop), stop) == Preprocess(text, stop)
  {
    var r := Preprocess(text, stop);
    var words := Filter(Tokens(StripPunctuation(Lower(text))), stop);
    LowerOfLower(r);
    StripOfClean(r);
    PreprocessWords(text, stop);
    FilterOfClean(words, stop);
  }

  /** Case never matters: texts that differ only in the case of letters
      preprocess alike. */
  lemma PreprocessIgnoresCase(a: string, b: string, stop: set<string>)
    requires CaseVariant(a, b)
    ensures Preprocess(a, stop) == Preprocess(b, stop)
  {
    LowerIgnoresCase(a, b);
  }

  lemma LowerStaTus(text: string)
    requires text == "Sta.tus"
    ensures Lower(text) == "sta.tus"
  {
  }

  /** Lower-cased and stripped, "Sta.tus" is "status". */
  lemma CleanStaTus(text: string)
    requires text == "Sta.tus"
    ensures StripPunctuation(Lower(text)) == "status"
  {
    LowerStaTus(text);
    var s := Lower(text);
    assert s == "sta" + ['.'] + "tus";
    StripDropsOne("sta", '.', "tus");
  }

  /** Deleting punctuation, one character at a time. */
  lemma StripCons(c: char, t: string)
    ensures StripPunctuation([c] + t) == (if IsPunct(c) then [] else [c]) + StripPunctuation(t)
  {
    assert ([c] + t)[1..] == t;
  }

  lemma {:induction false} StripAppend(a: string, b: string)
    ensures StripPunctuation(a + b) == StripPunctuation(a) + StripPunctuation(b)
  {
    if a != [] {
      var x, y := StripPunctuation(a[1..]), StripPunctuation(b);
      var p := if IsPunct(a[0]) then [] else [a[0]];
      StripAppend(a[1..], b);
      assert a + b == [a[0]] + (a[1..] + b);
      StripCons(a[0], a[1..] + b);
      StripCons(a[0], a[1..]);
      assert [a[0]] + a[1..] == a;
      assert p + (x + y) == (p + x) + y;
    } else {
      assert a + b == b;
    }
  }

  /** Deleting one punctuation character between two clean pieces. */
  lemma {:induction false} StripDropsOne(a: string, p: char, b: string)
    requires IsPunct(p)
    requires forall i :: 0 <= i < |a| ==> !IsPunct(a[i])
    requires forall i :: 0 <= i < |b| ==> !IsPunct(b[i])
    ensures StripPunctuation(a + [p] + b) == a + b
  {
    if a == [] {
      assert a + [p] + b == [p] + b;
      assert ([p] + b)[1..] == b;
      StripOfClean(b);
    } else {
      StripDropsOne(a[1..], p, b);
      assert (a + [p] + b)[1..] == a[1..] + [p] + b;
      assert [a[0]] + (a[1..] + b) == a + b;
    }
  }

  /** Punctuation is deleted, not turned into a space: "Sta.tus" becomes one
      word. */
  lemma PunctuationJoinsWords(text: string, stop: set<string>)
    requires text == "Sta.tus" && "status" !in stop
    ensures Preprocess(text, stop) == "status"
  {
    CleanStaTus(text);
    TokensOfJoin(["status"]);
    assert Join(["status"], " ") == "status";
  }
}
