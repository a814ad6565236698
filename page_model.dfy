/**
 * The non-rendering logic of the page component
 * (frontend/src/pages/EmailClassifierUI.jsx): the records it keeps, the file
 * filter, the paste trimming, the batch of results built from the remote
 * response or from the local fallback, reply editing and the statistics.
 * The state-changing handlers that use these functions are in PageController.
 */
module PageModel {
  import opened Wrappers
  import opened Strings
  import opened Categories
  import opened ClassifierFallback

  /** Where a queued email came from. */
  datatype Source = File | Paste

  function SourceTag(s: Source): string {
    match s
    case File => "file"
    case Paste => "paste"
  }

  /** A selected file; only its name matters to the logic. */
  datatype FileInfo = FileInfo(name: string)

  /** A queued email `{ id, source, name, text }`. */
  datatype EmailItem = EmailItem(id: string, source: Source, name: string, text: string)

  /** An entry of `results` / `history` `{ id, category, reply, confidence }`.
      Entries copied from a remote response may lack an id, a category or a
      reply; the confidence is always filled in. */
  datatype ResultEntry = ResultEntry(id: Option<string>, category: Option<string>,
                                     reply: Option<string>, confidence: real)

  /** A record of the remote response, every field optional. */
  datatype RemoteRecord = RemoteRecord(id: Option<string>, category: Option<string>,
                                       reply: Option<string>, confidence: Option<real>)

  /** An element of the request payload `{ id, text, name }`. */
  datatype Outbound = Outbound(id: string, text: string, name: string)

  /** What the request produced: a parsed body whose `results` may be missing,
      or any failure (network error, non-ok status, unparsable body). */
  datatype RemoteOutcome = Success(results: Option<seq<RemoteRecord>>) | Failure

  datatype Stats = Stats(total: nat, prod: nat, unp: nat, confAvg: real)

  const PDF_PLACEHOLDER: string := "[PDF enviado – o backend fará a extração de texto]"
  const DEFAULT_REMOTE_CONFIDENCE: real := 0.75

  /* ---------- ids ---------- */

  /** `${source}-${stamp}`, where the stamp stands for the time-and-random
      suffix drawn when the item is added. */
  function IdFor(source: Source, stamp: string): (id: string)
    ensures |id| == |SourceTag(source)| + 1 + |stamp|
    ensures id[..|SourceTag(source)|] == SourceTag(source)
    ensures id[|SourceTag(source)|] == '-'
    ensures id[|SourceTag(source)| + 1..] == stamp
  {
    SourceTag(source) + "-" + stamp
  }

  /** Different sources or different stamps give different ids. */
  lemma IdForInjective(s1: Source, a: string, s2: Source, b: string)
    requires IdFor(s1, a) == IdFor(s2, b)
    ensures s1 == s2 && a == b
  {
    assert IdFor(s1, a)[0] == SourceTag(s1)[0];
    assert IdFor(s2, b)[0] == SourceTag(s2)[0];
    var n := |SourceTag(s1)| + 1;
    assert a == IdFor(s1, a)[n..];
    assert b == IdFor(s2, b)[n..];
  }

  /* ---------- file selection ---------- */

  /** `/\.(txt|pdf)$/i.test(name)`. */
  predicate IsAcceptedName(name: string) {
    EndsWith(Lower(name), ".txt") || EndsWith(Lower(name), ".pdf")
  }

  /** `/\.txt$/i.test(name)`: the files read as text. */
  predicate IsTextName(name: string) {
    EndsWith(Lower(name), ".txt")
  }

  /** `arr.filter((f) => /\.(txt|pdf)$/i.test(f.name))`. */
  function AcceptedFiles(fs: seq<FileInfo>): (r: seq<FileInfo>)
    ensures |r| <= |fs|
    ensures forall f :: f in r <==> f in fs && IsAcceptedName(f.name)
    ensures |r| == |fs| <==> forall f :: f in fs ==> IsAcceptedName(f.name)
  {
    if fs == [] then []
    else if IsAcceptedName(fs[0].name) then [fs[0]] + AcceptedFiles(fs[1..])
    else AcceptedFiles(fs[1..])
  }

  /** One file is kept exactly when its name is accepted. */
  lemma AcceptedFilesOne(f: FileInfo)
    ensures AcceptedFiles([f]) == if IsAcceptedName(f.name) then [f] else []
  {
    assert [f][1..] == [];
  }

  /** Filtering works piece by piece, so the kept files stay in selection
      order and each is kept as often as it was selected; with
      `AcceptedFilesOne` this fixes the result on every list. */
  lemma {:induction false} AcceptedFilesAppend(a: seq<FileInfo>, b: seq<FileInfo>)
    ensures AcceptedFiles(a + b) == AcceptedFiles(a) + AcceptedFiles(b)
  {
    if a == [] {
      assert a + b == b;
    } else {
      AcceptedFilesAppend(a[1..], b);
      FilesAfterFirst(a, b);
    }
  }

  lemma FilesAfterFirst(a: seq<FileInfo>, b: seq<FileInfo>)
    requires a != []
    ensures (a + b)[0] == a[0] && (a + b)[1..] == a[1..] + b
  {
  }

  /** The extension test ignores letter case: "A.PDF" is accepted like "a.pdf". */
  lemma AcceptanceIgnoresCase(a: string, b: string)
    requires CaseVariant(a, b)
    ensures IsAcceptedName(a) <==> IsAcceptedName(b)
    ensures IsTextName(a) <==> IsTextName(b)
  {
    LowerIgnoresCase(a, b);
  }

  /** The items that adding the non-text files of `fs` one after another
      prepends to the queue, newest first; the i-th one added draws stamp
      `supply(start + i)`. */
  function PdfItems(fs: seq<FileInfo>, supply: nat -> string, start: nat): (r: seq<EmailItem>)
    ensures |r| <= |fs|
  {
    if fs == [] then []
    else
      var init := PdfItems(fs[..|fs| - 1], supply, start);
      var f := fs[|fs| - 1];
      if IsTextName(f.name) then init
      else [EmailItem(IdFor(File, supply(start + |init|)), File, f.name, PDF_PLACEHOLDER)] + init
  }

  /** Every placeholder item is a file item carrying the placeholder text, named
      after an accepted non-text file, and the k-th from the front drew the
      k-th stamp from the end. */
  predicate PlaceholderItems(r: seq<EmailItem>, fs: seq<FileInfo>, supply: nat -> string, start: nat) {
    forall k :: 0 <= k < |r| ==>
      r[k].source == File && r[k].text == PDF_PLACEHOLDER &&
      FileInfo(r[k].name) in fs && !IsTextName(r[k].name) &&
      r[k].id == IdFor(File, supply(start + |r| - 1 - k))
  }

  /** The shape survives a longer list of files. */
  lemma PlaceholderItemsWiden(r: seq<EmailItem>, fs: seq<FileInfo>, gs: seq<FileInfo>, supply: nat -> string, start: nat)
    requires PlaceholderItems(r, fs, supply, start)
    requires forall g :: g in fs ==> g in gs
    ensures PlaceholderItems(r, gs, supply, start)
  {
  }

  /** The shape survives one more placeholder in front, with the next stamp. */
  lemma PlaceholderItemsPrepend(r: seq<EmailItem>, fs: seq<FileInfo>, name: string, supply: nat -> string, start: nat)
    requires PlaceholderItems(r, fs, supply, start)
    requires FileInfo(name) in fs && !IsTextName(name)
    ensures PlaceholderItems([EmailItem(IdFor(File, supply(start + |r|)), File, name, PDF_PLACEHOLDER)] + r, fs, supply, start)
  {
    var r' := [EmailItem(IdFor(File, supply(start + |r|)), File, name, PDF_PLACEHOLDER)] + r;
    forall k | 0 < k < |r'|
      ensures r'[k] == r[k - 1]
      ensures start + |r'| - 1 - k == start + |r| - 1 - (k - 1)
    {
    }
  }

  lemma {:induction false} PdfItemsShape(fs: seq<FileInfo>, supply: nat -> string, start: nat)
    ensures PlaceholderItems(PdfItems(fs, supply, start), fs, supply, start)
  {
    if fs != [] {
      var init := fs[..|fs| - 1];
      var f := fs[|fs| - 1];
      var ri := PdfItems(init, supply, start);
      PdfItemsShape(init, supply, start);
      assert forall g :: g in init ==> g in fs;
      PlaceholderItemsWiden(ri, init, fs, supply, start);
      if !IsTextName(f.name) {
        assert FileInfo(f.name) == f;
        PlaceholderItemsPrepend(ri, fs, f.name, supply, start);
      }
    }
  }

  /** The names of the non-text files of `fs`, in selection order. */
  function NonTextNames(fs: seq<FileInfo>): seq<string> {
    if fs == [] then []
    else
      NonTextNames(fs[..|fs| - 1]) +
      (if IsTextName(fs[|fs| - 1].name) then [] else [fs[|fs| - 1].name])
  }

  /** Items named in reverse order of a list of names. */
  predicate NamedInReverse(r: seq<EmailItem>, names: seq<string>) {
    |r| == |names| && forall k :: 0 <= k < |r| ==> r[k].name == names[|names| - 1 - k]
  }

  lemma NamedInReversePrepend(r: seq<EmailItem>, names: seq<string>, e: EmailItem)
    requires NamedInReverse(r, names)
    ensures NamedInReverse([e] + r, names + [e.name])
  {
    var r', n' := [e] + r, names + [e.name];
    forall k | 0 < k < |r'|
      ensures r'[k] == r[k - 1] && n'[|n'| - 1 - k] == names[|names| - 1 - (k - 1)]
    {
    }
  }

  /** Each placeholder item is named after its own file: read from the back,
      the items follow the non-text files in selection order. */
  lemma {:induction false} PdfItemsNames(fs: seq<FileInfo>, supply: nat -> string, start: nat)
    ensures NamedInReverse(PdfItems(fs, supply, start), NonTextNames(fs))
  {
    if fs != [] {
      var init := fs[..|fs| - 1];
      var f := fs[|fs| - 1];
      var ri := PdfItems(init, supply, start);
      PdfItemsNames(init, supply, start);
      if IsTextName(f.name) {
        assert NonTextNames(fs) == NonTextNames(init) + [];
      } else {
        var e := EmailItem(IdFor(File, supply(start + |ri|)), File, f.name, PDF_PLACEHOLDER);
        assert PdfItems(fs, supply, start) == [e] + ri;
        assert NonTextNames(fs) == NonTextNames(init) + [e.name];
        NamedInReversePrepend(ri, NonTextNames(init), e);
      }
    }
  }

  /** Adding one more file either leaves the placeholder items alone (a text
      file) or puts one more in front (any other accepted file). */
  lemma PdfItemsSnoc(fs: seq<FileInfo>, f: FileInfo, supply: nat -> string, start: nat)
    ensures IsTextName(f.name) ==> PdfItems(fs + [f], supply, start) == PdfItems(fs, supply, start)
    ensures !IsTextName(f.name) ==>
      (PdfItems(fs + [f], supply, start) ==
       [EmailItem(IdFor(File, supply(start + |PdfItems(fs, supply, start)|)), File, f.name, PDF_PLACEHOLDER)]
       + PdfItems(fs, supply, start))
  {
    var g := fs + [f];
    SnocParts(fs, f);
    var init := PdfItems(fs, supply, start);
    if !IsTextName(f.name) {
      assert PdfItems(g, supply, start) ==
        [EmailItem(IdFor(File, supply(start + |init|)), File, f.name, PDF_PLACEHOLDER)] + init;
    } else {
      assert PdfItems(g, supply, start) == init;
    }
  }

  /** The same step, for the loop over a list of files: taking one more file
      of `fs` into account. */
  lemma PdfItemsStep(fs: seq<FileInfo>, i: int, supply: nat -> string, start: nat)
    requires 0 <= i < |fs|
    ensures PdfItems(fs[..i + 1], supply, start) ==
      if IsTextName(fs[i].name) then PdfItems(fs[..i], supply, start)
      else [EmailItem(IdFor(File, supply(start + |PdfItems(fs[..i], supply, start)|)), File, fs[i].name, PDF_PLACEHOLDER)]
           + PdfItems(fs[..i], supply, start)
  {
    assert fs[..i + 1] == fs[..i] + [fs[i]];
    PdfItemsSnoc(fs[..i], fs[i], supply, start);
  }

  /** The positions of the non-text files among the first `n` of `fs`. */
  function NonTextPositions(fs: seq<FileInfo>, n: nat): set<nat>
    requires n <= |fs|
  {
    set k: nat | k < n && !IsTextName(fs[k].name)
  }

  lemma NonTextPositionsSnoc(fs: seq<FileInfo>, n: nat)
    requires 0 < n <= |fs|
    ensures NonTextPositions(fs, n) ==
      NonTextPositions(fs, n - 1) + (if IsTextName(fs[n - 1].name) then {} else {n - 1})
    ensures n - 1 !in NonTextPositions(fs, n - 1)
  {
  }

  lemma NonTextPositionsPrefix(fs: seq<FileInfo>, m: nat)
    requires m <= |fs|
    ensures NonTextPositions(fs[..m], m) == NonTextPositions(fs, m)
  {
  }

  /** Exactly the accepted files that are not text files become placeholder items. */
  lemma {:induction false} PdfItemsCount(fs: seq<FileInfo>, supply: nat -> string, start: nat)
    ensures |PdfItems(fs, supply, start)| == |NonTextPositions(fs, |fs|)|
  {
    var n := |fs|;
    if n > 0 {
      var init := fs[..n - 1];
      PdfItemsCount(init, supply, start);
      NonTextPositionsPrefix(fs, n - 1);
      NonTextPositionsSnoc(fs, n);
    }
  }

  /* ---------- pasting ---------- */

  /** The characters `String.prototype.trim` removes: WhiteSpace and
      LineTerminator of ECMAScript (section 12.2 and 12.3 of ECMA-262). */
  predicate IsJsSpace(c: char) {
    c == '\t' || c == '\n' || c == '\U{000B}' || c == '\U{000C}' || c == '\r' || c == ' ' ||
    c == '\U{00A0}' || c == '\U{1680}' || ('\U{2000}' <= c <= '\U{200A}') ||
    c == '\U{2028}' || c == '\U{2029}' || c == '\U{202F}' || c == '\U{205F}' ||
    c == '\U{3000}' || c == '\U{FEFF}'
  }

  predicate AllJsSpace(s: string) {
    forall i :: 0 <= i < |s| ==> IsJsSpace(s[i])
  }

  /** Neither begins nor ends with whitespace. */
  predicate IsTrimmed(s: string) {
    s == [] || (!IsJsSpace(s[0]) && !IsJsSpace(s[|s| - 1]))
  }

  function LeadingSpaces(s: string): (n: nat)
    ensures n <= |s|
    ensures AllJsSpace(s[..n])
    ensures n < |s| ==> !IsJsSpace(s[n])
  {
    if s == [] || !IsJsSpace(s[0]) then 0
    else
      var m := LeadingSpaces(s[1..]);
      assert s[..m + 1] == [s[0]] + s[1..][..m];
      m + 1
  }

  lemma SpacesSnoc(a: string, c: char)
    requires AllJsSpace(a) && IsJsSpace(c)
    ensures AllJsSpace(a + [c])
  {
    assert forall i :: 0 <= i < |a| ==> (a + [c])[i] == a[i];
  }

  function TrailingSpaces(s: string): (n: nat)
    ensures n <= |s|
    ensures AllJsSpace(s[|s| - n..])
    ensures n < |s| ==> !IsJsSpace(s[|s| - n - 1])
  {
    if s == [] || !IsJsSpace(s[|s| - 1]) then 0
    else
      var t := s[..|s| - 1];
      var m := TrailingSpaces(t);
      SpacesSnoc(t[|t| - m..], s[|s| - 1]);
      assert s[|s| - (m + 1)..] == t[|t| - m..] + [s[|s| - 1]];
      m + 1
  }

  lemma SuffixSpaces(s: string, k: int)
    requires 0 <= k <= |s| && AllJsSpace(s[k..])
    ensures forall j :: k <= j < |s| ==> IsJsSpace(s[j])
  {
    forall j | k <= j < |s| ensures IsJsSpace(s[j]) {
      assert s[k..][j - k] == s[j];
    }
  }

  /** `s.trim()`: `s` is leading whitespace, then the result, then trailing
      whitespace, and the result neither begins nor ends with whitespace. */
  function Trim(s: string): (r: string)
    ensures IsTrimmed(r)
    ensures r == [] <==> AllJsSpace(s)
    ensures exists i :: (0 <= i <= |s| - |r| && s[i..i + |r|] == r &&
                         AllJsSpace(s[..i]) && AllJsSpace(s[i + |r|..]))
  {
    var a := LeadingSpaces(s);
    if a == |s| then
      assert s[0..0] == [] && s[..0] == [] && s[0..] == s;
      ""
    else
      var b := TrailingSpaces(s);
      SuffixSpaces(s, |s| - b);
      assert !AllJsSpace(s) by { assert !IsJsSpace(s[a]); }
      var r := s[a..|s| - b];
      assert s[a + |r|..] == s[|s| - b..];
      r
  }

  /** Whitespace in front of a text that does not start with whitespace is
      exactly what `LeadingSpaces` counts. */
  lemma {:induction false} LeadingOfPadded(a: string, t: string)
    requires AllJsSpace(a) && (t == [] || !IsJsSpace(t[0]))
    ensures LeadingSpaces(a + t) == |a|
  {
    if a != [] {
      assert (a + t)[1..] == a[1..] + t;
      LeadingOfPadded(a[1..], t);
    } else {
      assert a + t == t;
    }
  }

  lemma {:induction false} TrailingOfPadded(t: string, b: string)
    requires AllJsSpace(b) && (t == [] || !IsJsSpace(t[|t| - 1]))
    ensures TrailingSpaces(t + b) == |b|
  {
    if b != [] {
      assert (t + b)[..|t + b| - 1] == t + b[..|b| - 1];
      TrailingOfPadded(t, b[..|b| - 1]);
    } else {
      assert t + b == t;
    }
  }

  /** Trimming twice is trimming once. */
  lemma TrimIdempotent(s: string)
    ensures Trim(Trim(s)) == Trim(s)
  {
    var t := Trim(s);
    if t != [] {
      assert LeadingSpaces(t) == 0;
      assert TrailingSpaces(t) == 0;
      assert t[0..|t|] == t;
    }
  }

  /** Trimming recovers a trimmed text from any whitespace padding around it. */
  lemma TrimPadded(a: string, m: string, b: string)
    requires AllJsSpace(a) && AllJsSpace(b) && IsTrimmed(m)
    ensures Trim(a + m + b) == m
  {
    var s := a + m + b;
    if m == [] {
      assert s == (a + b) + [];
      assert AllJsSpace(a + b) by {
        forall k | 0 <= k < |a + b| ensures IsJsSpace((a + b)[k]) {
          if k < |a| { assert (a + b)[k] == a[k]; } else { assert (a + b)[k] == b[k - |a|]; }
        }
      }
      LeadingOfPadded(a + b, []);
    } else {
      assert s == a + (m + b);
      LeadingOfPadded(a, m + b);
      assert s == (a + m) + b;
      TrailingOfPadded(a + m, b);
      assert s[|a|..|s| - |b|] == m;
    }
  }

  /** The name given to a pasted email, `Texto colado (${prettyDate()})`. */
  function PastedName(now: string): string {
    "Texto colado (" + now + ")"
  }

  /* ---------- processing ---------- */

  /** `items.map((it) => ({ id: it.id, text: it.text, name: it.name }))`. */
  function Payload(items: seq<EmailItem>): (p: seq<Outbound>)
    ensures |p| == |items|
    ensures forall i :: 0 <= i < |p| ==>
      p[i].id == items[i].id && p[i].text == items[i].text && p[i].name == items[i].name
  {
    seq(|items|, i requires 0 <= i < |items| => Outbound(items[i].id, items[i].text, items[i].name))
  }

  /** One remote record copied into `results`: `confidence ?? 0.75`, so only a
      missing confidence is replaced and a present 0 is kept. */
  function FromRemote(rec: RemoteRecord): (e: ResultEntry)
    ensures e.id == rec.id && e.category == rec.category && e.reply == rec.reply
    ensures rec.confidence.Some? ==> e.confidence == rec.confidence.value
    ensures rec.confidence.None? ==> e.confidence == DEFAULT_REMOTE_CONFIDENCE
  {
    ResultEntry(rec.id, rec.category, rec.reply, rec.confidence.GetOr(DEFAULT_REMOTE_CONFIDENCE))
  }

  /** `(data.results || []).map(...)`: the response records in response order. */
  function RemoteResults(recs: Option<seq<RemoteRecord>>): (r: seq<ResultEntry>)
    ensures recs.None? ==> r == []
    ensures recs.Some? ==> (|r| == |recs.value| &&
                            forall i :: 0 <= i < |r| ==> r[i] == FromRemote(recs.value[i]))
  {
    match recs
    case None => []
    case Some(rs) => seq(|rs|, i requires 0 <= i < |rs| => FromRemote(rs[i]))
  }

  /** `{ id: it.id, ...localHeuristicClassifier(it.text) }`. */
  function LocalEntry(it: EmailItem): (e: ResultEntry)
    ensures e.id == Some(it.id)
    ensures e.category == Some(Name(LocalHeuristicClassifier(it.text).category))
    ensures e.reply == Some(LocalHeuristicClassifier(it.text).reply)
    ensures e.confidence == LocalHeuristicClassifier(it.text).confidence
  {
    var c := LocalHeuristicClassifier(it.text);
    ResultEntry(Some(it.id), Some(Name(c.category)), Some(c.reply), c.confidence)
  }

  /** The fallback batch: one entry per queued item, in queue order. */
  function LocalResults(items: seq<EmailItem>): (r: seq<ResultEntry>)
    ensures |r| == |items|
    ensures forall i :: 0 <= i < |r| ==> r[i] == LocalEntry(items[i])
  {
    seq(|items|, i requires 0 <= i < |items| => LocalEntry(items[i]))
  }

  /** The `mapped` list of `processAll`: the remote records when the request
      succeeds, the local classification of every item on any failure. */
  function BatchResults(items: seq<EmailItem>, outcome: RemoteOutcome): (r: seq<ResultEntry>)
    ensures outcome.Success? ==> r == RemoteResults(outcome.results)
    ensures outcome.Failure? ==> r == LocalResults(items)
  {
    match outcome
    case Success(recs) => RemoteResults(recs)
    case Failure => LocalResults(items)
  }

  /** Every fallback entry carries its item's id, one of the two category
      names, a confidence in [0.05, 0.95], and a confidence on the side of 0.55
      that its category implies. */
  lemma FallbackEntries(items: seq<EmailItem>)
    ensures forall i :: 0 <= i < |items| ==>
      var e := BatchResults(items, Failure)[i];
      e.id == Some(items[i].id) &&
      (e.category == Some(PRODUTIVO) || e.category == Some(IMPRODUTIVO)) &&
      0.05 <= e.confidence <= 0.95 &&
      (e.category == Some(PRODUTIVO) ==> e.confidence >= 0.55) &&
      (e.category == Some(IMPRODUTIVO) ==> e.confidence <= 0.55)
  {
    forall i | 0 <= i < |items|
      ensures var e := BatchResults(items, Failure)[i];
        e.id == Some(items[i].id) &&
        (e.category == Some(PRODUTIVO) || e.category == Some(IMPRODUTIVO)) &&
        0.05 <= e.confidence <= 0.95 &&
        (e.category == Some(PRODUTIVO) ==> e.confidence >= 0.55) &&
        (e.category == Some(IMPRODUTIVO) ==> e.confidence <= 0.55)
    {
      var c := LocalHeuristicClassifier(items[i].text);
      assert Name(c.category) == PRODUTIVO <==> c.category == Produtivo;
    }
  }

  /* ---------- editing ---------- */

  /** `prev.map((r) => (r.id === id ? { ...r, reply: newText } : r))`. The id
      passed in is the `id` of a displayed entry, so it may be missing too, and
      a missing id matches every entry whose id is missing. */
  function EditReply(rs: seq<ResultEntry>, id: Option<string>, newText: string): (r: seq<ResultEntry>)
    ensures |r| == |rs|
    ensures forall i :: 0 <= i < |r| ==>
      r[i].id == rs[i].id && r[i].category == rs[i].category && r[i].confidence == rs[i].confidence
    ensures forall i :: 0 <= i < |r| ==>
      r[i].reply == if rs[i].id == id then Some(newText) else rs[i].reply
  {
    seq(|rs|, i requires 0 <= i < |rs| =>
      if rs[i].id == id then rs[i].(reply := Some(newText)) else rs[i])
  }

  /** A second edit of the same entry replaces the first. */
  lemma EditReplyLastWins(rs: seq<ResultEntry>, id: Option<string>, a: string, b: string)
    ensures EditReply(EditReply(rs, id, a), id, b) == EditReply(rs, id, b)
  {
  }

  /** Edits of entries with different ids do not interfere. */
  lemma EditReplyCommutes(rs: seq<ResultEntry>, x: Option<string>, a: string, y: Option<string>, b: string)
    requires x != y
    ensures EditReply(EditReply(rs, x, a), y, b) == EditReply(EditReply(rs, y, b), x, a)
  {
  }

  /** An edit with an id no entry has changes nothing. */
  lemma EditReplyUnknownId(rs: seq<ResultEntry>, id: Option<string>, s: string)
    requires forall i :: 0 <= i < |rs| ==> rs[i].id != id
    ensures EditReply(rs, id, s) == rs
  {
  }

  /** Editing the reply of an entry that has no id rewrites the reply of every
      entry without an id: remote entries carry no id unless the response
      supplies one. */
  lemma EditWithoutIdEditsAllIdless(rs: seq<ResultEntry>, s: string)
    ensures forall i :: 0 <= i < |rs| && rs[i].id.None? ==> EditReply(rs, None, s)[i].reply == Some(s)
  {
  }

  /* ---------- statistics ---------- */

  /** `results.filter((r) => r.category === name).length`. */
  function CountCategory(rs: seq<ResultEntry>, name: string): (n: nat)
    ensures n <= |rs|
  {
    if rs == [] then 0 else (if rs[0].category == Some(name) then 1 else 0) + CountCategory(rs[1..], name)
  }

  /** The positions among the first `n` entries whose category is `name`. */
  function CategoryPositions(rs: seq<ResultEntry>, name: string, n: nat): set<nat>
    requires n <= |rs|
  {
    set k: nat | k < n && rs[k].category == Some(name)
  }

  lemma CategoryPositionsSnoc(rs: seq<ResultEntry>, name: string, n: nat)
    requires 0 < n <= |rs|
    ensures CategoryPositions(rs, name, n) ==
      CategoryPositions(rs, name, n - 1) + (if rs[n - 1].category == Some(name) then {n - 1} else {})
    ensures n - 1 !in CategoryPositions(rs, name, n - 1)
  {
  }

  lemma CategoryPositionsPrefix(rs: seq<ResultEntry>, name: string, m: nat)
    requires m <= |rs|
    ensures CategoryPositions(rs[..m], name, m) == CategoryPositions(rs, name, m)
  {
  }

  lemma SnocParts<T>(s: seq<T>, x: T)
    ensures |s + [x]| == |s| + 1
    ensures (s + [x])[|s|] == x && (s + [x])[..|s|] == s
  {
  }

  lemma LastSplit<T>(s: seq<T>)
    requires s != []
    ensures s == s[..|s| - 1] + [s[|s| - 1]]
  {
  }

  lemma EntriesAfterFirst(a: seq<ResultEntry>, b: seq<ResultEntry>)
    requires a != []
    ensures (a + b)[0] == a[0] && (a + b)[1..] == a[1..] + b
  {
  }

  /** Counting works piece by piece. */
  lemma {:induction false} CountCategoryAppend(a: seq<ResultEntry>, b: seq<ResultEntry>, name: string)
    ensures CountCategory(a + b, name) == CountCategory(a, name) + CountCategory(b, name)
  {
    if a == [] {
      assert a + b == b;
    } else {
      CountCategoryAppend(a[1..], b, name);
      EntriesAfterFirst(a, b);
    }
  }

  /** One entry counts once exactly when its category is `name`. */
  lemma CountCategoryOne(r: ResultEntry, name: string)
    ensures CountCategory([r], name) == if r.category == Some(name) then 1 else 0
  {
    assert [r][1..] == [];
  }

  /** A category count is the number of entries carrying that category. */
  lemma {:induction false} CountCategoryIsSize(rs: seq<ResultEntry>, name: string)
    ensures CountCategory(rs, name) == |CategoryPositions(rs, name, |rs|)|
  {
    var n := |rs|;
    if n > 0 {
      var init := rs[..n - 1];
      CountCategoryIsSize(init, name);
      CategoryPositionsPrefix(rs, name, n - 1);
      LastSplit(rs);
      CountCategoryAppend(init, [rs[n - 1]], name);
      CountCategoryOne(rs[n - 1], name);
      CategoryPositionsSnoc(rs, name, n);
    }
  }

  /** `results.reduce((a, b) => a + (b.confidence || 0), 0)`. */
  function SumConfidence(rs: seq<ResultEntry>): real {
    if rs == [] then 0.0 else rs[0].confidence + SumConfidence(rs[1..])
  }

  /** The two category counts never exceed the total, since no entry is both. */
  lemma {:induction false} CountsWithinTotal(rs: seq<ResultEntry>)
    ensures CountCategory(rs, PRODUTIVO) + CountCategory(rs, IMPRODUTIVO) <= |rs|
  {
    if rs != [] {
      CountsWithinTotal(rs[1..]);
    }
  }

  /** The `stats` memo. */
  function StatsOf(rs: seq<ResultEntry>): (st: Stats)
    ensures st.total == |rs|
    ensures st.prod + st.unp <= st.total
    ensures st.total == 0 ==> st.prod == 0 && st.unp == 0 && st.confAvg == 0.0
    ensures st.prod == CountCategory(rs, PRODUTIVO) && st.unp == CountCategory(rs, IMPRODUTIVO)
    ensures st.total > 0 ==> st.confAvg * (st.total as real) == SumConfidence(rs)
  {
    CountsWithinTotal(rs);
    Stats(|rs|, CountCategory(rs, PRODUTIVO), CountCategory(rs, IMPRODUTIVO),
          if |rs| == 0 then 0.0 else SumConfidence(rs) / (|rs| as real))
  }

  lemma {:induction false} SumBounds(rs: seq<ResultEntry>, lo: real, hi: real)
    requires forall i :: 0 <= i < |rs| ==> lo <= rs[i].confidence <= hi
    ensures lo * (|rs| as real) <= SumConfidence(rs) <= hi * (|rs| as real)
  {
    if rs != [] {
      SumBounds(rs[1..], lo, hi);
    }
  }

  /** The average lies between the smallest and largest possible confidence. */
  lemma AverageBounds(rs: seq<ResultEntry>, lo: real, hi: real)
    requires rs != []
    requires forall i :: 0 <= i < |rs| ==> lo <= rs[i].confidence <= hi
    ensures lo <= StatsOf(rs).confAvg <= hi
  {
    SumBounds(rs, lo, hi);
    DivisionBounds(SumConfidence(rs), |rs| as real, lo, hi);
  }

  lemma DivisionBounds(s: real, n: real, lo: real, hi: real)
    requires n > 0.0 && lo * n <= s <= hi * n
    ensures lo <= s / n <= hi
  {
    var q := s / n;
    assert q * n == s;
    assert (q - lo) * n == s - lo * n;
    assert (hi - q) * n == hi * n - s;
  }

  lemma {:induction false} LocalCountsCoverAll(items: seq<EmailItem>)
    ensures CountCategory(LocalResults(items), PRODUTIVO) + CountCategory(LocalResults(items), IMPRODUTIVO) == |items|
  {
    if items != [] {
      LocalCountsCoverAll(items[1..]);
      assert LocalResults(items)[1..] == LocalResults(items[1..]);
      var c := LocalHeuristicClassifier(items[0].text);
      assert LocalResults(items)[0].category == Some(Name(c.category));
    }
  }

  /** After a fallback batch every entry is counted as Produtivo or
      Improdutivo, and the average confidence lies in [0.05, 0.95]. */
  lemma FallbackStats(items: seq<EmailItem>)
    ensures StatsOf(BatchResults(items, Failure)).prod + StatsOf(BatchResults(items, Failure)).unp == |items|
    ensures items != [] ==> 0.05 <= StatsOf(BatchResults(items, Failure)).confAvg <= 0.95
  {
    LocalCountsCoverAll(items);
    if items != [] {
      AverageBounds(LocalResults(items), 0.05, 0.95);
    }
  }

  /** Editing replies never changes the statistics. */
  lemma {:induction false} StatsIgnoreReplies(rs: seq<ResultEntry>, id: Option<string>, s: string)
    ensures StatsOf(EditReply(rs, id, s)) == StatsOf(rs)
  {
    var e := EditReply(rs, id, s);
    SameStatsFields(rs, e);
  }

  lemma {:induction false} SameStatsFields(a: seq<ResultEntry>, b: seq<ResultEntry>)
    requires |a| == |b|
    requires forall i :: 0 <= i < |a| ==> a[i].category == b[i].category && a[i].confidence == b[i].confidence
    ensures CountCategory(a, PRODUTIVO) == CountCategory(b, PRODUTIVO)
    ensures CountCategory(a, IMPRODUTIVO) == CountCategory(b, IMPRODUTIVO)
    ensures SumConfidence(a) == SumConfidence(b)
  {
    if a != [] {
      SameStatsFields(a[1..], b[1..]);
    }
  }
}
