// The unbatched translator (translate_epub.py).
//
// Every eligible string node of every document item is sent to the
// translator on its own, in document order, and replaced by the first
// choice of the answer; any exception, a rate limit included, leaves the
// node as it was. With a batch size of 1 and a service that never
// rate-limits and answers both scripts' requests for a text alike, the
// batched translator does the same thing, which the last section proves;
// on a rate limit the two differ. The two scripts' requests differ in
// prompt, default model, temperature and timeout, which the shared service
// abstracts away.

module TranslateEpub {
  import opened Basics
  import opened Soup
  import opened Epub
  import opened Batching
  import Pro = EpubTranslatorPro

  // ------------------------------------------------------------------
  // The translator

  /** What one request yields: the contents of the returned choices, a
      rate-limit error (with what the service would answer if the request
      were sent again, which this client never does), or any other
      exception. */
  datatype Response = Choices(contents: seq<string>) | RateLimited(retry: Response) | Raised(message: string)

  /** The translator: the response to request number `call` (counted from 0
      over the whole book) carrying the given text. */
  type TextOracle = (nat, string) -> Response

  /** `translate_text`: the content of the first choice; an exception,
      including a rate limit and the IndexError of an answer without
      choices, gives back the input. */
  function TranslateText(text: string, response: Response): string
  {
    match response
    case Choices(contents) => if contents == [] then text else contents[0]
    case RateLimited(_) => text
    case Raised(_) => text
  }

  // ------------------------------------------------------------------
  // One document

  /** Node j after the loop over `soup.find_all(text=True)`: an eligible
      node is replaced by the translation of its text, sent as request
      `base` + the number of eligible nodes before it; any other node is
      kept. */
  function TranslatedNode(nodes: seq<TextNode>, oracle: TextOracle, base: nat, j: nat): TextNode
    requires j < |nodes|
  {
    if Eligible(nodes[j])
    then TextNode(nodes[j].parent, TranslateText(nodes[j].text, oracle(base + |Selected(nodes[..j])|, nodes[j].text)))
    else nodes[j]
  }

  /** The string nodes of a document after the translation loop. */
  function TranslatedNodes(nodes: seq<TextNode>, oracle: TextOracle, base: nat): (r: seq<TextNode>)
    ensures |r| == |nodes|
  {
    seq(|nodes|, j requires 0 <= j < |nodes| => TranslatedNode(nodes, oracle, base, j))
  }

  /** The translation keeps a document's node count, order and parents, and
      a blank node or a node under `script` or `style` comes out unchanged. */
  lemma NodesFrame(nodes: seq<TextNode>, oracle: TextOracle, base: nat)
    ensures forall j :: 0 <= j < |nodes| ==> TranslatedNodes(nodes, oracle, base)[j].parent == nodes[j].parent
    ensures forall j :: 0 <= j < |nodes| && !Eligible(nodes[j]) ==> TranslatedNodes(nodes, oracle, base)[j] == nodes[j]
  {
  }

  /** The requests go out in document order: the p-th eligible node is
      translated by request `base + p`, with its own original text. */
  lemma RequestOrder(nodes: seq<TextNode>, oracle: TextOracle, base: nat, p: nat)
    requires p < |Selected(nodes)|
    ensures TranslatedNodes(nodes, oracle, base)[Selected(nodes)[p]]
         == TextNode(nodes[Selected(nodes)[p]].parent,
                     TranslateText(nodes[Selected(nodes)[p]].text, oracle(base + p, nodes[Selected(nodes)[p]].text)))
  {
    RankOfSelected(nodes, p);
  }

  /** When every request raises (a rate limit included), the document comes
      out as it went in. */
  lemma FailingTranslatorKeepsNodes(nodes: seq<TextNode>, oracle: TextOracle, base: nat)
    requires forall call: nat, text: string :: !oracle(call, text).Choices?
    ensures TranslatedNodes(nodes, oracle, base) == nodes
  {
  }

  /** The loop over `soup.find_all(text=True)` on the parsed document,
      replacing nodes in place. `find_all` returns its list before the loop
      starts, so each node is tested and sent with its original text.
      Returns the number of translator requests it made. */
  method TranslateSoup(soup: array<TextNode>, oracle: TextOracle, base: nat) returns (calls: nat)
    modifies soup
    ensures soup[..] == TranslatedNodes(old(soup[..]), oracle, base)
    ensures calls == |Selected(old(soup[..]))|
  {
    ghost var orig := soup[..];
    ghost var goal := TranslatedNodes(orig, oracle, base);
    calls := 0;
    for j := 0 to soup.Length
      invariant soup[..] == goal[..j] + orig[j..]
      invariant calls == |Selected(orig[..j])|
    {
      SelectedStep(orig, j);
      ReplaceAfter(goal[..j], orig[j..], goal[j]);
      assert goal[..j] + [goal[j]] == goal[..j + 1];
      var element := soup[j];
      if Eligible(element) {
        var translated := TranslateText(element.text, oracle(base + calls, element.text));
        soup[j] := TextNode(element.parent, translated);
        calls := calls + 1;
      }
    }
    assert goal[..soup.Length] + orig[soup.Length..] == goal;
    assert orig[..soup.Length] == orig;
  }

  // ------------------------------------------------------------------
  // The book

  /** The items of the book after `process_epub`: the documents in order,
      request numbers running on from one document to the next, so that a
      document's first request is numbered by the text blocks before it. */
  function TranslatedItems(items: seq<Item>, oracle: TextOracle): (r: seq<Item>)
    ensures |r| == |items|
  {
    if items == [] then []
    else
      var init := items[..|items| - 1];
      var last := match items[|items| - 1]
        case Document(nodes) => Document(TranslatedNodes(nodes, oracle, TextBlocks(Documents(init))))
        case Resource(_) => items[|items| - 1];
      TranslatedItems(init, oracle) + [last]
  }

  /** Item d is translated on its own, its first request numbered by the
      text blocks of the items before it; other items are kept. */
  lemma {:induction false} TranslatedItemsAt(items: seq<Item>, oracle: TextOracle, d: nat)
    requires d < |items|
    ensures items[d].Resource? ==> TranslatedItems(items, oracle)[d] == items[d]
    ensures items[d].Document? ==>
      TranslatedItems(items, oracle)[d] == Document(TranslatedNodes(items[d].nodes, oracle, TextBlocks(Documents(items[..d]))))
    decreases |items|
  {
    var init := items[..|items| - 1];
    if d < |init| {
      assert init[..d] == items[..d] && init[d] == items[d];
      TranslatedItemsAt(init, oracle, d);
    } else {
      assert init == items[..d];
    }
  }

  /** The loop body of `process_epub` for one document: parse it, translate
      its nodes, and serialise the result. Returns the new nodes and the
      number of requests made. */
  method TranslateContent(nodes: seq<TextNode>, oracle: TextOracle, base: nat)
    returns (translated: seq<TextNode>, calls: nat)
    ensures translated == TranslatedNodes(nodes, oracle, base)
    ensures calls == |Selected(nodes)|
  {
    var soup := new TextNode[|nodes|](i requires 0 <= i < |nodes| => nodes[i]);
    assert soup[..] == nodes;
    calls := TranslateSoup(soup, oracle, base);
    translated := soup[..];
  }

  /** `process_epub` on an opened book: each document item in turn is
      parsed, translated node by node and stored back. `translate_text`
      catches every exception of the service, so within this model the
      book is always written; the strict UTF-8 decoding of a document and a
      negative pause, which would end the run through `sys.exit`, are not
      modelled. Returns the number of requests. */
  method ProcessEpub(book: Book, oracle: TextOracle) returns (calls: nat)
    modifies book
    ensures book.items == TranslatedItems(old(book.items), oracle)
    ensures calls == TextBlocks(Documents(old(book.items)))
  {
    ghost var orig := book.items;
    calls := 0;
    var d := 0;
    while d < |book.items|
      invariant d <= |orig| == |book.items|
      invariant book.items == TranslatedItems(orig[..d], oracle) + orig[d..]
      invariant calls == TextBlocks(Documents(orig[..d]))
      decreases |orig| - d
    {
      assert orig[..d + 1][..d] == orig[..d];
      ghost var before := TranslatedItems(orig[..d], oracle);
      assert orig[d..][1..] == orig[d + 1..];
      match book.items[d] {
        case Document(nodes) =>
          var translated, n := TranslateContent(nodes, oracle, calls);
          book.SetContent(d, translated);
          ReplaceAfter(before, orig[d..], Document(translated));
          var docs := Documents(orig[..d]) + [nodes];
          assert docs[..|docs| - 1] == Documents(orig[..d]);
          calls := calls + n;
        case Resource(_) =>
          ReplaceAfter(before, orig[d..], orig[d]);
      }
      d := d + 1;
    }
    assert orig[..d] == orig;
  }

  // ------------------------------------------------------------------
  // Agreement with the batched translator

  /** A single-text response as the batched translator receives it: there
      a rate limit is caught on its own, waited out and retried. */
  function AsReply(response: Response): Pro.Reply
  {
    match response
    case Choices(contents) => Pro.Choices(contents)
    case RateLimited(retry) => Pro.RateLimited(AsReply(retry))
    case Raised(message) => Pro.Failed(message)
  }

  /** A service that never answers with a rate-limit error. */
  ghost predicate NeverRateLimits(oracle: TextOracle)
  {
    forall call: nat, text: string :: !oracle(call, text).RateLimited?
  }

  /** The batched translator's view of a single-text translator: a batch of
      one text gets that text's response. Both translators then share one
      service, although their requests differ in prompt, model, temperature
      and timeout. */
  function BatchOracle(oracle: TextOracle): Pro.Oracle
  {
    (call: nat, texts: seq<string>) =>
      if |texts| == 1 then AsReply(oracle(call, texts[0])) else Pro.Failed("")
  }

  /** With a batch size of 1, batch p holds exactly the p-th eligible node. */
  lemma SizeOneBatch(nodes: seq<TextNode>, p: nat)
    requires p < |Selected(nodes)|
    ensures p < |Pro.DocumentBatches(nodes, 1)|
    ensures Pro.DocumentBatches(nodes, 1)[p] == [Selected(nodes)[p]]
  {
    var sel := Selected(nodes);
    BatchExists(sel, 1, p);
    BatchesSlices(sel, 1, p);
    assert sel[p..p + 1] == [sel[p]];
  }

  /** A batch of one node gets the same text back as the single request,
      unless that request is rate-limited. */
  lemma SizeOneOutput(nodes: seq<TextNode>, oracle: TextOracle, call: nat, j: nat)
    requires j < |nodes| && !oracle(call, nodes[j].text).RateLimited?
    ensures (if 0 < |Pro.BatchOutput(nodes, [j], BatchOracle(oracle), call)|
             then Pro.BatchOutput(nodes, [j], BatchOracle(oracle), call)[0]
             else nodes[j].text)
         == TranslateText(nodes[j].text, oracle(call, nodes[j].text))
  {
    assert Pro.BatchTexts(nodes, [j]) == [nodes[j].text];
  }

  /** Node j of a document agrees between the two translators. */
  lemma SizeOneAgreesAt(nodes: seq<TextNode>, oracle: TextOracle, base: nat, j: nat)
    requires j < |nodes| && NeverRateLimits(oracle)
    ensures Pro.TranslatedDocument(nodes, 1, BatchOracle(oracle), base)[j]
         == TranslatedNodes(nodes, oracle, base)[j]
  {
    if Eligible(nodes[j]) {
      var p := |Selected(nodes[..j])|;
      SelectedRank(nodes, j);
      SizeOneBatch(nodes, p);
      Pro.DocumentBatchResult(nodes, 1, BatchOracle(oracle), base, p, 0);
      SizeOneOutput(nodes, oracle, base + p, j);
    } else {
      Pro.DocumentFrame(nodes, 1, BatchOracle(oracle), base);
    }
  }

  /** With a batch size of 1 the batched translator sends the same texts
      in the same order and leaves the same document, as long as the
      service never rate-limits (see `RateLimitDiverges`). */
  lemma SizeOneAgrees(nodes: seq<TextNode>, oracle: TextOracle, base: nat)
    requires NeverRateLimits(oracle)
    ensures Pro.TranslatedDocument(nodes, 1, BatchOracle(oracle), base) == TranslatedNodes(nodes, oracle, base)
    ensures Pro.DocumentCalls(nodes, 1) == |Selected(nodes)|
  {
    forall j | 0 <= j < |nodes|
      ensures Pro.TranslatedDocument(nodes, 1, BatchOracle(oracle), base)[j] == TranslatedNodes(nodes, oracle, base)[j]
    {
      SizeOneAgreesAt(nodes, oracle, base, j);
    }
    Pro.DocumentCallsCount(nodes, 1);
  }

  /** The same for a whole book. */
  lemma {:induction false} SizeOneAgreesOnBook(items: seq<Item>, oracle: TextOracle)
    requires NeverRateLimits(oracle)
    ensures Pro.TranslatedItems(items, 1, BatchOracle(oracle)) == TranslatedItems(items, oracle)
    decreases |items|
  {
    if items != [] {
      var init := items[..|items| - 1];
      SizeOneAgreesOnBook(init, oracle);
      Pro.RequestsWithBatchSizeOne(init);
      var last := items[|items| - 1];
      if last.Document? {
        SizeOneAgrees(last.nodes, oracle, TextBlocks(Documents(init)));
      }
    }
  }

  /** Where the two translators part: a request that is rate-limited once
      and then answered. The batched translator waits, asks again and writes
      the answer; the unbatched one catches the rate limit like any other
      exception and keeps the node's text. */
  lemma RateLimitDiverges(nodes: seq<TextNode>, oracle: TextOracle, base: nat, j: nat, answer: string)
    requires j < |nodes| && Eligible(nodes[j])
    requires oracle(base + |Selected(nodes[..j])|, nodes[j].text) == RateLimited(Choices([answer]))
    ensures Pro.TranslatedDocument(nodes, 1, BatchOracle(oracle), base)[j] == TextNode(nodes[j].parent, answer)
    ensures TranslatedNodes(nodes, oracle, base)[j] == nodes[j]
  {
    var p := |Selected(nodes[..j])|;
    SelectedRank(nodes, j);
    SizeOneBatch(nodes, p);
    Pro.DocumentBatchResult(nodes, 1, BatchOracle(oracle), base, p, 0);
    assert Pro.DocumentBatches(nodes, 1)[p] == [j];
    assert Pro.BatchTexts(nodes, [j]) == [nodes[j].text];
    assert AsReply(oracle(base + p, nodes[j].text)) == Pro.RateLimited(Pro.Choices([answer]));
    assert BatchOracle(oracle)(base + p, [nodes[j].text]) == AsReply(oracle(base + p, nodes[j].text));
    assert Pro.TranslateBatch([nodes[j].text], Pro.Choices([answer])) == [answer];
    assert Pro.BatchOutput(nodes, [j], BatchOracle(oracle), base + p) == [answer];
  }
}
