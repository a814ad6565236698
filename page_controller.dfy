/**
 * The state of the page component and its event handlers
 * (frontend/src/pages/EmailClassifierUI.jsx). Every `useState` pair becomes a
 * field and every setter call an assignment. The request of `processAll` is
 * an injected function from payload to outcome, and the time-and-random id
 * suffix is an injected supply of stamps indexed by a counter of items added.
 */
module PageController {
  import opened Wrappers
  import opened PageModel

  lemma PrependAssoc<T>(e: T, a: seq<T>, b: seq<T>)
    ensures [e] + (a + b) == ([e] + a) + b
  {
  }

  class EmailClassifierUI {
    var files: seq<FileInfo>
    var pasted: string
    var items: seq<EmailItem>
    var results: seq<ResultEntry>
    var loading: bool
    var history: seq<ResultEntry>
    /** Number of items added so far; the next item draws `supply(clock)`. */
    var clock: nat
    const supply: nat -> string
    /** The draw behind each queued item's id, parallel to `items`. */
    ghost var stamps: seq<nat>

    /** Each queued id is built from its own earlier draw, and the newest item,
        which is first, drew last. */
    ghost predicate Valid()
      reads this`items, this`stamps, this`clock
    {
      |stamps| == |items| &&
      (forall k :: 0 <= k < |items| ==>
         stamps[k] < clock && items[k].id == IdFor(items[k].source, supply(stamps[k]))) &&
      (forall j, k :: 0 <= j < k < |items| ==> stamps[j] > stamps[k])
    }

    ghost predicate FreshSupply()
      reads this
    {
      forall x: nat, y: nat :: supply(x) == supply(y) ==> x == y
    }

    /** With a supply that never repeats a stamp, no two queued items share an id. */
    lemma ItemIdsDistinct()
      requires Valid() && FreshSupply()
      ensures forall j, k :: 0 <= j < k < |items| ==> items[j].id != items[k].id
    {
      forall j, k | 0 <= j < k < |items| ensures items[j].id != items[k].id {
        if items[j].id == items[k].id {
          IdForInjective(items[j].source, supply(stamps[j]), items[k].source, supply(stamps[k]));
        }
      }
    }

    constructor (supply: nat -> string)
      ensures Valid()
      ensures files == [] && pasted == "" && items == [] && results == [] && !loading && history == []
      ensures clock == 0 && this.supply == supply
    {
      files := [];
      pasted := "";
      items := [];
      results := [];
      loading := false;
      history := [];
      clock := 0;
      this.supply := supply;
      stamps := [];
    }

    /** `addItem`: the new item goes in front, the queue behind it is kept. */
    method AddItem(source: Source, name: string, text: string)
      requires Valid()
      modifies this
      ensures Valid()
      ensures items == [EmailItem(IdFor(source, supply(old(clock))), source, name, text)] + old(items)
      ensures clock == old(clock) + 1
      ensures files == old(files) && pasted == old(pasted) && results == old(results)
      ensures loading == old(loading) && history == old(history)
    {
      items := [EmailItem(IdFor(source, supply(clock)), source, name, text)] + items;
      stamps := [clock] + stamps;
      clock := clock + 1;
    }

    /** The text area's `onChange`. */
    method SetPasted(value: string)
      modifies this
      ensures pasted == value
      ensures files == old(files) && items == old(items) && results == old(results)
      ensures loading == old(loading) && history == old(history) && clock == old(clock)
      ensures stamps == old(stamps)
    {
      pasted := value;
    }

    /** `handleAddFromPaste`, with `now` standing for `prettyDate()`: blank
        input is ignored; otherwise the trimmed text is queued and the text
        area cleared. */
    method HandleAddFromPaste(now: string)
      requires Valid()
      modifies this
      ensures Valid()
      ensures AllJsSpace(old(pasted)) ==> items == old(items) && pasted == old(pasted) && clock == old(clock)
      ensures !AllJsSpace(old(pasted)) ==>
        items == [EmailItem(IdFor(Paste, supply(old(clock))), Paste, PastedName(now), Trim(old(pasted)))] + old(items) &&
        pasted == "" && clock == old(clock) + 1
      ensures files == old(files) && results == old(results)
      ensures loading == old(loading) && history == old(history)
    {
      var t := Trim(pasted);
      if t == "" {
        return;
      }
      AddItem(Paste, PastedName(now), t);
      pasted := "";
    }

    /** `handleFilesSelected`: keeps the `.txt` and `.pdf` files, queues a
        placeholder item for every accepted PDF, in selection order (so the
        last one ends up first), and appends the accepted files. Text files are
        queued later, when their read completes (`OnTextFileLoaded`).
        `someIgnored` is the condition of the alert. */
    method HandleFilesSelected(fileList: Option<seq<FileInfo>>) returns (someIgnored: bool)
      requires Valid()
      modifies this
      ensures Valid()
      ensures someIgnored <==> exists f :: f in fileList.GetOr([]) && !IsAcceptedName(f.name)
      ensures files == old(files) + AcceptedFiles(fileList.GetOr([]))
      ensures items == PdfItems(AcceptedFiles(fileList.GetOr([])), supply, old(clock)) + old(items)
      ensures clock == old(clock) + |PdfItems(AcceptedFiles(fileList.GetOr([])), supply, old(clock))|
      ensures pasted == old(pasted) && results == old(results)
      ensures loading == old(loading) && history == old(history)
    {
      var arr := fileList.GetOr([]);
      var accepted := AcceptedFiles(arr);
      someIgnored := |accepted| != |arr|;
      QueueAllSelected(accepted);
      files := files + accepted;
    }

    /** The `forEach` of `handleFilesSelected` over the accepted files. */
    method QueueAllSelected(accepted: seq<FileInfo>)
      requires Valid()
      modifies this
      ensures Valid()
      ensures items == PdfItems(accepted, supply, old(clock)) + old(items)
      ensures clock == old(clock) + |PdfItems(accepted, supply, old(clock))|
      ensures files == old(files) && pasted == old(pasted) && results == old(results)
      ensures loading == old(loading) && history == old(history)
    {
      var start := clock;
      ghost var before := items;
      var i := 0;
      while i < |accepted|
        invariant 0 <= i <= |accepted|
        invariant Valid()
        invariant items == PdfItems(accepted[..i], supply, start) + before
        invariant clock == start + |PdfItems(accepted[..i], supply, start)|
        invariant files == old(files) && pasted == old(pasted) && results == old(results)
        invariant loading == old(loading) && history == old(history)
      {
        QueueSelected(accepted, i, start, before);
        i := i + 1;
      }
      assert accepted[..i] == accepted;
    }

    /** One step of the `forEach` of `handleFilesSelected`: the i-th accepted
        file is queued with the placeholder text unless it is a text file. */
    method QueueSelected(fs: seq<FileInfo>, i: int, start: nat, ghost before: seq<EmailItem>)
      requires Valid() && 0 <= i < |fs|
      requires items == PdfItems(fs[..i], supply, start) + before
      requires clock == start + |PdfItems(fs[..i], supply, start)|
      modifies this
      ensures Valid()
      ensures items == PdfItems(fs[..i + 1], supply, start) + before
      ensures clock == start + |PdfItems(fs[..i + 1], supply, start)|
      ensures files == old(files) && pasted == old(pasted) && results == old(results)
      ensures loading == old(loading) && history == old(history)
    {
      var f := fs[i];
      PdfItemsStep(fs, i, supply, start);
      ghost var queued := PdfItems(fs[..i], supply, start);
      ghost var next := PdfItems(fs[..i + 1], supply, start);
      if !IsTextName(f.name) {
        ghost var e := EmailItem(IdFor(File, supply(clock)), File, f.name, PDF_PLACEHOLDER);
        assert next == [e] + queued;
        AddItem(File, f.name, PDF_PLACEHOLDER);
        PrependAssoc(e, queued, before);
      } else {
        assert next == queued;
      }
    }

    /** The `FileReader` `onload` of an accepted text file: its content, or ""
        when the read produced nothing, is queued under the file's name. */
    method OnTextFileLoaded(f: FileInfo, content: Option<string>)
      requires Valid()
      modifies this
      ensures Valid()
      ensures items == [EmailItem(IdFor(File, supply(old(clock))), File, f.name, content.GetOr(""))] + old(items)
      ensures clock == old(clock) + 1
      ensures files == old(files) && pasted == old(pasted) && results == old(results)
      ensures loading == old(loading) && history == old(history)
    {
      AddItem(File, f.name, content.GetOr(""));
    }

    /** `processAll`, with the request and its response as `remote`: nothing
        happens on an empty queue; otherwise the batch replaces `results`, is
        prepended to `history`, and `loading` ends false. */
    method ProcessAll(remote: seq<Outbound> -> RemoteOutcome)
      requires Valid()
      modifies this
      ensures Valid()
      ensures old(items) == [] ==> results == old(results) && history == old(history) && loading == old(loading)
      ensures old(items) != [] ==>
        results == BatchResults(items, remote(Payload(items))) &&
        history == results + old(history) && !loading
      ensures files == old(files) && pasted == old(pasted) && items == old(items) && clock == old(clock)
    {
      if |items| == 0 {
        return;
      }
      loading := true;
      var outcome := remote(Payload(items));
      var mapped := BatchResults(items, outcome);
      results := mapped;
      history := mapped + history;
      loading := false;
    }

    /** `clearAll`: the batch is forgotten but the history is kept. */
    method ClearAll()
      modifies this
      ensures Valid()
      ensures files == [] && items == [] && results == [] && pasted == ""
      ensures history == old(history) && loading == old(loading) && clock == old(clock)
    {
      files := [];
      items := [];
      results := [];
      pasted := "";
      stamps := [];
    }

    /** `onEditReply`, called with the `id` of the edited entry. */
    method OnEditReply(id: Option<string>, newText: string)
      requires Valid()
      modifies this
      ensures Valid()
      ensures results == EditReply(old(results), id, newText)
      ensures files == old(files) && pasted == old(pasted) && items == old(items)
      ensures history == old(history) && loading == old(loading) && clock == old(clock)
    {
      results := EditReply(results, id, newText);
    }
  }
}
