/**
 * The download logic of the page (frontend/src/pages/EmailClassifierUI.jsx):
 * the rows of the JSON export and the text of the CSV export. Both look each
 * queued item's result up by id. Turning a confidence into text (`String` of
 * a number) is the parameter `fmt`.
 */
module PageExport {
  import opened Wrappers
  import opened Strings
  import opened PageModel

  /** `results.find((r) => r.id === id)`: the first entry with that id. */
  function FindById(rs: seq<ResultEntry>, id: string): (r: Option<ResultEntry>)
    ensures r.None? <==> forall i :: 0 <= i < |rs| ==> rs[i].id != Some(id)
    ensures r.Some? ==> r.value in rs && r.value.id == Some(id)
  {
    if rs == [] then None
    else if rs[0].id == Some(id) then Some(rs[0])
    else
      var r := FindById(rs[1..], id);
      assert forall i :: 1 <= i < |rs| ==> rs[i] == rs[1..][i - 1];
      r
  }

  /** The entry found is the first one carrying the id. */
  lemma {:induction false} FindByIdFirst(rs: seq<ResultEntry>, id: string, i: int)
    requires 0 <= i < |rs| && rs[i].id == Some(id)
    requires forall j :: 0 <= j < i ==> rs[j].id != Some(id)
    ensures FindById(rs, id) == Some(rs[i])
  {
    if i > 0 {
      FindByIdFirst(rs[1..], id, i - 1);
    }
  }

  /** With distinct ids, looking up a fallback batch finds each item's own entry. */
  lemma FindLocalEntry(items: seq<EmailItem>, k: int)
    requires 0 <= k < |items|
    requires forall i, j :: 0 <= i < j < |items| ==> items[i].id != items[j].id
    ensures FindById(LocalResults(items), items[k].id) == Some(LocalEntry(items[k]))
  {
    var rs := LocalResults(items);
    forall j | 0 <= j < k ensures rs[j].id != Some(items[k].id) {
      assert rs[j].id == Some(items[j].id);
    }
    FindByIdFirst(rs, items[k].id, k);
  }

  /* ---------- JSON ---------- */

  /** An element of the JSON export's `data`: the fields of a missing result
      are absent. */
  datatype JsonRow = JsonRow(name: string, text: string, category: Option<string>,
                             reply: Option<string>, confidence: Option<real>)

  function JsonRowFor(it: EmailItem, rs: seq<ResultEntry>): (row: JsonRow)
    ensures row.name == it.name && row.text == it.text
    ensures FindById(rs, it.id).None? ==> row.category.None? && row.reply.None? && row.confidence.None?
    ensures FindById(rs, it.id).Some? ==>
      row.category == FindById(rs, it.id).value.category &&
      row.reply == FindById(rs, it.id).value.reply &&
      row.confidence == Some(FindById(rs, it.id).value.confidence)
  {
    match FindById(rs, it.id)
    case None => JsonRow(it.name, it.text, None, None, None)
    case Some(r) => JsonRow(it.name, it.text, r.category, r.reply, Some(r.confidence))
  }

  /** `items.map(...)` of `downloadJSON`: one row per queued item, in queue order. */
  function JsonRows(items: seq<EmailItem>, rs: seq<ResultEntry>): (rows: seq<JsonRow>)
    ensures |rows| == |items|
    ensures forall i :: 0 <= i < |rows| ==> rows[i] == JsonRowFor(items[i], rs)
  {
    seq(|items|, i requires 0 <= i < |items| => JsonRowFor(items[i], rs))
  }

  /** After a fallback batch over items with distinct ids, every exported row
      carries its own item's local classification. */
  lemma JsonAfterFallback(items: seq<EmailItem>, k: int)
    requires 0 <= k < |items|
    requires forall i, j :: 0 <= i < j < |items| ==> items[i].id != items[j].id
    ensures JsonRows(items, BatchResults(items, Failure))[k] ==
      JsonRow(items[k].name, items[k].text, LocalEntry(items[k]).category,
              LocalEntry(items[k]).reply, Some(LocalEntry(items[k]).confidence))
  {
    FindLocalEntry(items, k);
  }

  /* ---------- CSV ---------- */

  const CSV_HEADER: string := "name;category;confidence;reply"

  /** `.replace(/"/g, '""')`. */
  function DoubleQuotes(s: string): (r: string)
    ensures |r| >= |s|
    ensures forall c :: c in r <==> c in s
  {
    if s == [] then []
    else (if s[0] == '"' then "\"\"" else [s[0]]) + DoubleQuotes(s[1..])
  }

  /** `"${String(field).replace(/"/g, '""')}"`. */
  function CsvField(s: string): (r: string)
    ensures |r| >= 2 && r[0] == '"' && r[|r| - 1] == '"'
    ensures forall c :: c in r && c != '"' ==> c in s
  {
    "\"" + DoubleQuotes(s) + "\""
  }

  /** `.replace(/\n/g, " ")`. */
  function FlattenNewlines(s: string): (r: string)
    ensures |r| == |s|
    ensures '\n' !in r
    ensures forall i :: 0 <= i < |s| && s[i] != '\n' ==> r[i] == s[i]
    ensures forall i :: 0 <= i < |s| && s[i] == '\n' ==> r[i] == ' '
  {
    seq(|s|, i requires 0 <= i < |s| => if s[i] == '\n' then ' ' else s[i])
  }

  /** The four fields of a data row: name, `r.category || ""`,
      `r.confidence ?? ""` and `(r.reply || "")` with newlines flattened; an
      item without a result gets `{}` and so three empty fields. */
  function CsvCells(it: EmailItem, rs: seq<ResultEntry>, fmt: real -> string): (cells: seq<string>)
    ensures |cells| == 4 && cells[0] == it.name
    ensures '\n' !in cells[3]
    ensures FindById(rs, it.id).None? ==> cells[1] == "" && cells[2] == "" && cells[3] == ""
    ensures FindById(rs, it.id).Some? ==>
      cells[1] == FindById(rs, it.id).value.category.GetOr("") &&
      cells[2] == fmt(FindById(rs, it.id).value.confidence) &&
      cells[3] == FlattenNewlines(FindById(rs, it.id).value.reply.GetOr(""))
  {
    match FindById(rs, it.id)
    case None => [it.name, "", "", FlattenNewlines("")]
    case Some(r) => [it.name, r.category.GetOr(""), fmt(r.confidence), FlattenNewlines(r.reply.GetOr(""))]
  }

  function QuoteAll(cells: seq<string>): (r: seq<string>)
    ensures |r| == |cells|
    ensures forall i :: 0 <= i < |r| ==> r[i] == CsvField(cells[i])
  {
    seq(|cells|, i requires 0 <= i < |cells| => CsvField(cells[i]))
  }

  function CsvRow(it: EmailItem, rs: seq<ResultEntry>, fmt: real -> string): string {
    Join(QuoteAll(CsvCells(it, rs, fmt)), ";")
  }

  /** The lines of the CSV: the unquoted header, then one row per queued item. */
  function CsvLines(items: seq<EmailItem>, rs: seq<ResultEntry>, fmt: real -> string): (lines: seq<string>)
    ensures |lines| == |items| + 1
    ensures lines[0] == CSV_HEADER
    ensures forall i :: 0 <= i < |items| ==> lines[i + 1] == CsvRow(items[i], rs, fmt)
  {
    [CSV_HEADER] + seq(|items|, i requires 0 <= i < |items| => CsvRow(items[i], rs, fmt))
  }

  function CsvText(items: seq<EmailItem>, rs: seq<ResultEntry>, fmt: real -> string): string {
    Join(CsvLines(items, rs, fmt), "\n")
  }

  /* ----- reading a quoted field back ----- */

  /** Reads the body of a quoted field up to its closing quote, undoubling
      quotes; returns the field and what follows the closing quote. */
  function ParseQuotedBody(s: string): (r: Option<(string, string)>)
    ensures r.Some? ==> |r.value.1| < |s|
  {
    if s == [] then None
    else if s[0] == '"' then
      if |s| >= 2 && s[1] == '"' then
        match ParseQuotedBody(s[2..])
        case None => None
        case Some((f, rest)) => Some(("\"" + f, rest))
      else Some(("", s[1..]))
    else
      match ParseQuotedBody(s[1..])
      case None => None
      case Some((f, rest)) => Some(([s[0]] + f, rest))
  }

  /** Reads one quoted field from the start of `s`. */
  function ParseField(s: string): (r: Option<(string, string)>)
    ensures r.Some? ==> |r.value.1| < |s|
  {
    if s != [] && s[0] == '"' then ParseQuotedBody(s[1..]) else None
  }

  /** A doubled quote reads as one quote and reading goes on. */
  lemma QuotedBodyDoubledStep(t: string, f: string, rest: string)
    requires ParseQuotedBody(t) == Some((f, rest))
    ensures ParseQuotedBody("\"\"" + t) == Some(("\"" + f, rest))
  {
    assert ("\"\"" + t)[2..] == t;
  }

  /** Any other character is kept and reading goes on. */
  lemma QuotedBodyPlainStep(c: char, t: string, f: string, rest: string)
    requires c != '"' && ParseQuotedBody(t) == Some((f, rest))
    ensures ParseQuotedBody([c] + t) == Some(([c] + f, rest))
  {
    assert ([c] + t)[1..] == t;
  }

  /** The written body of a field, unfolded by its first character. */
  lemma DoubleQuotesCons(x: string, rest: string)
    requires x != []
    ensures DoubleQuotes(x) + "\"" + rest ==
      (if x[0] == '"' then "\"\"" else [x[0]]) + (DoubleQuotes(x[1..]) + "\"" + rest)
  {
  }

  /** The closing quote ends the field. */
  lemma QuotedBodyEnd(rest: string)
    requires rest == [] || rest[0] != '"'
    ensures ParseQuotedBody(DoubleQuotes([]) + "\"" + rest) == Some(([], rest))
  {
    assert DoubleQuotes([]) + "\"" + rest == "\"" + rest;
    assert ("\"" + rest)[1..] == rest;
  }

  lemma {:induction false} ParseQuotedBodyOfDoubled(x: string, rest: string)
    requires rest == [] || rest[0] != '"'
    ensures ParseQuotedBody(DoubleQuotes(x) + "\"" + rest) == Some((x, rest))
  {
    if x == [] {
      QuotedBodyEnd(rest);
    } else {
      var tail := DoubleQuotes(x[1..]) + "\"" + rest;
      ParseQuotedBodyOfDoubled(x[1..], rest);
      DoubleQuotesCons(x, rest);
      if x[0] == '"' {
        QuotedBodyDoubledStep(tail, x[1..], rest);
        assert "\"" + x[1..] == x;
      } else {
        QuotedBodyPlainStep(x[0], tail, x[1..], rest);
        assert [x[0]] + x[1..] == x;
      }
    }
  }

  /** Quoting then reading gives the field back, with whatever followed it,
      provided the field is followed by the end of the line or a `;`. */
  lemma FieldRoundTrip(x: string, rest: string)
    requires rest == [] || rest[0] == ';'
    ensures ParseField(CsvField(x) + rest) == Some((x, rest))
  {
    assert CsvField(x) + rest == "\"" + (DoubleQuotes(x) + "\"" + rest);
    ParseQuotedBodyOfDoubled(x, rest);
  }

  /** Reads a row of quoted fields separated by `;`. */
  function ParseRow(s: string): Option<seq<string>>
    decreases |s|
  {
    match ParseField(s)
    case None => None
    case Some((f, rest)) =>
      if rest == [] then Some([f])
      else if rest[0] == ';' then
        match ParseRow(rest[1..])
        case None => None
        case Some(fs) => Some([f] + fs)
      else None
  }

  /** A written row reads back as its fields, whatever they contain: quotes,
      semicolons and newlines included. */
  lemma {:induction false} RowRoundTrip(cells: seq<string>)
    requires cells != []
    ensures ParseRow(Join(QuoteAll(cells), ";")) == Some(cells)
  {
    var q := QuoteAll(cells);
    if |cells| == 1 {
      assert Join(q, ";") == CsvField(cells[0]) + [];
      FieldRoundTrip(cells[0], []);
      assert ParseField(Join(q, ";")) == Some((cells[0], ""));
      assert [cells[0]] == cells;
    } else {
      var tail := Join(q[1..], ";");
      assert q[1..] == QuoteAll(cells[1..]);
      RowRoundTrip(cells[1..]);
      assert Join(q, ";") == CsvField(cells[0]) + (";" + tail);
      FieldRoundTrip(cells[0], ";" + tail);
      assert (";" + tail)[1..] == tail;
      assert [cells[0]] + cells[1..] == cells;
    }
  }

  lemma DoubleQuotesAvoids(s: string, c: char)
    requires c != '"' && c !in s
    ensures c !in CsvField(s)
  {
  }

  /** A data row holds no line break when the name, the category and the
      formatted confidence hold none. */
  lemma RowAvoidsNewline(it: EmailItem, rs: seq<ResultEntry>, fmt: real -> string)
    requires '\n' !in it.name
    requires forall e :: e in rs ==> '\n' !in e.category.GetOr("")
    requires forall x :: '\n' !in fmt(x)
    ensures '\n' !in CsvRow(it, rs, fmt)
  {
    var cells := CsvCells(it, rs, fmt);
    var q := QuoteAll(cells);
    forall m | 0 <= m < |q| ensures '\n' !in q[m] {
      DoubleQuotesAvoids(cells[m], '\n');
    }
    JoinKeeps(q, ";", c => c != '\n');
  }

  /** The CSV has exactly one line per queued item after the header as long as
      no name, category or formatted confidence contains a newline (replies
      are flattened, but the other fields are quoted without touching line
      breaks). */
  lemma CsvLinePerItem(items: seq<EmailItem>, rs: seq<ResultEntry>, fmt: real -> string)
    requires forall i :: 0 <= i < |items| ==> '\n' !in items[i].name
    requires forall e :: e in rs ==> '\n' !in e.category.GetOr("")
    requires forall x :: '\n' !in fmt(x)
    ensures Split(CsvText(items, rs, fmt), '\n') == CsvLines(items, rs, fmt)
    ensures |Split(CsvText(items, rs, fmt), '\n')| == |items| + 1
  {
    var lines := CsvLines(items, rs, fmt);
    forall k | 0 <= k < |lines| ensures '\n' !in lines[k] {
      if k > 0 {
        RowAvoidsNewline(items[k - 1], rs, fmt);
      }
    }
    SplitJoin(lines, '\n');
    assert "\n" == ['\n'];
  }
}
