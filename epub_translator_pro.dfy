// The batched translator with its dry-run analyser (epub_translator_pro.py).
//
// For each document item, the eligible string nodes are cut into contiguous
// batches of `batch_size`; each batch goes to the translator in one request,
// and the returned strings are written back over the batch's nodes by
// position (`zip`, so the shorter of the two lists decides how many nodes are
// replaced). A failing request writes its batch's own texts back. In dry-run mode
// the book is only counted and sampled, never changed or written.

module EpubTranslatorPro {
  import opened Basics
  import opened Text
  import opened Soup
  import opened Epub
  import opened Batching

  // ------------------------------------------------------------------
  // The translator

  /** What one translator request yields as seen by the client: the contents
      of the returned choices, a rate-limit error followed by what the retried
      request yields, or any other exception. A reply is a finite value, so
      it ends after finitely many rate-limit errors. */
  datatype Reply = Choices(contents: seq<string>) | RateLimited(retry: Reply) | Failed(message: string)

  /** The translator: the reply to request number `call` (counted from 0
      over the whole book) carrying the given texts. */
  type Oracle = (nat, seq<string>) -> Reply

  /** The reply that ends the rate-limit retries. */
  function Settled(reply: Reply): (r: Reply)
    ensures !r.RateLimited?
  {
    match reply
    case RateLimited(retry) => Settled(retry)
    case _ => reply
  }

  /** `translate_batch`: on a rate-limit error it waits and asks again; on
      success it returns the choices' contents; on any other exception it
      returns its input. */
  function TranslateBatch(texts: seq<string>, reply: Reply): seq<string>
  {
    match reply
    case Choices(contents) => contents
    case RateLimited(retry) => TranslateBatch(texts, retry)
    case Failed(_) => texts
  }

  /** Whatever the number of rate-limit retries, the batch comes back as the
      settled reply's contents, or unchanged when the settled reply is an
      exception. */
  lemma {:induction false} TranslateBatchSettles(texts: seq<string>, reply: Reply)
    ensures Settled(reply).Failed? ==> TranslateBatch(texts, reply) == texts
    ensures Settled(reply).Choices? ==> TranslateBatch(texts, reply) == Settled(reply).contents
  {
    if reply.RateLimited? {
      TranslateBatchSettles(texts, reply.retry);
    }
  }

  // ------------------------------------------------------------------
  // One document

  /** The positions of a batch name nodes of the document. */
  predicate Within(batch: seq<nat>, count: nat)
  {
    forall k :: 0 <= k < |batch| ==> batch[k] < count
  }

  /** `[str(t) for t in batch]`. */
  function BatchTexts(nodes: seq<TextNode>, batch: seq<nat>): (texts: seq<string>)
    requires Within(batch, |nodes|)
    ensures |texts| == |batch|
    ensures forall k :: 0 <= k < |batch| ==> texts[k] == nodes[batch[k]].text
  {
    seq(|batch|, k requires 0 <= k < |batch| => nodes[batch[k]].text)
  }

  /** `for orig, new in zip(batch, translated): orig.replace_with(new)`:
      walks the batch and the translated list together and stops at the end
      of the shorter one. */
  function WriteBack(nodes: seq<TextNode>, batch: seq<nat>, translated: seq<string>): (r: seq<TextNode>)
    requires Within(batch, |nodes|)
    ensures |r| == |nodes|
    decreases |batch|
  {
    if batch == [] || translated == [] then nodes
    else
      var j := batch[0];
      WriteBack(nodes[j := TextNode(nodes[j].parent, translated[0])], batch[1..], translated[1..])
  }

  /** One step of the `zip` loop at position k. */
  lemma WriteBackStep(nodes: seq<TextNode>, batch: seq<nat>, translated: seq<string>, k: nat)
    requires Within(batch, |nodes|) && k < |batch| && k < |translated|
    ensures WriteBack(nodes, batch[k..], translated[k..])
         == WriteBack(nodes[batch[k] := TextNode(nodes[batch[k]].parent, translated[k])], batch[k + 1..], translated[k + 1..])
  {
    assert batch[k..][1..] == batch[k + 1..] && translated[k..][1..] == translated[k + 1..];
  }

  /** A node outside the batch is not touched by the write-back. */
  lemma {:induction false} WriteBackFrame(nodes: seq<TextNode>, batch: seq<nat>, translated: seq<string>, j: nat)
    requires Within(batch, |nodes|) && j < |nodes| && j !in batch
    ensures WriteBack(nodes, batch, translated)[j] == nodes[j]
    decreases |batch|
  {
    if batch != [] && translated != [] {
      var next := nodes[batch[0] := TextNode(nodes[batch[0]].parent, translated[0])];
      assert j !in batch[1..];
      WriteBackFrame(next, batch[1..], translated[1..], j);
    }
  }

  /** The write-back replaces strings, never where they sit. */
  lemma {:induction false} WriteBackParents(nodes: seq<TextNode>, batch: seq<nat>, translated: seq<string>)
    requires Within(batch, |nodes|)
    ensures forall j :: 0 <= j < |nodes| ==> WriteBack(nodes, batch, translated)[j].parent == nodes[j].parent
    decreases |batch|
  {
    if batch != [] && translated != [] {
      var next := nodes[batch[0] := TextNode(nodes[batch[0]].parent, translated[0])];
      WriteBackParents(next, batch[1..], translated[1..]);
    }
  }

  /** Node k of the batch takes entry k of the translated list when there
      is one, and keeps its text when the translated list is shorter. */
  lemma {:induction false} WriteBackAt(nodes: seq<TextNode>, batch: seq<nat>, translated: seq<string>, k: nat)
    requires Within(batch, |nodes|) && Increasing(batch) && k < |batch|
    ensures WriteBack(nodes, batch, translated)[batch[k]]
         == TextNode(nodes[batch[k]].parent, if k < |translated| then translated[k] else nodes[batch[k]].text)
    decreases |batch|
  {
    if batch != [] && translated != [] {
      var j := batch[0];
      var next := nodes[j := TextNode(nodes[j].parent, translated[0])];
      if k == 0 {
        assert j !in batch[1..];
        WriteBackFrame(next, batch[1..], translated[1..], j);
      } else {
        assert batch[k] == batch[1..][k - 1] && batch[k] != j;
        WriteBackAt(next, batch[1..], translated[1..], k - 1);
      }
    }
  }

  /** Writing back the batch's own texts keeps every node's parent and text. */
  lemma {:induction false} WriteBackSame(nodes: seq<TextNode>, batch: seq<nat>)
    requires Within(batch, |nodes|)
    ensures WriteBack(nodes, batch, BatchTexts(nodes, batch)) == nodes
    decreases |batch|
  {
    if batch != [] {
      var j := batch[0];
      assert nodes[j := TextNode(nodes[j].parent, nodes[j].text)] == nodes;
      assert BatchTexts(nodes, batch)[1..] == BatchTexts(nodes, batch[1..]);
      WriteBackSame(nodes, batch[1..]);
    }
  }

  /** What the translator gives back for a batch sent as request `call`. */
  function BatchOutput(nodes: seq<TextNode>, batch: seq<nat>, oracle: Oracle, call: nat): seq<string>
    requires Within(batch, |nodes|)
  {
    var texts := BatchTexts(nodes, batch);
    TranslateBatch(texts, oracle(call, texts))
  }

  /** One pass of the batch loop body: translate the batch, write it back. */
  function WriteBatch(nodes: seq<TextNode>, batch: seq<nat>, oracle: Oracle, call: nat): (r: seq<TextNode>)
    requires Within(batch, |nodes|)
    ensures |r| == |nodes|
  {
    WriteBack(nodes, batch, BatchOutput(nodes, batch, oracle, call))
  }

  predicate AllWithin(bs: seq<seq<nat>>, count: nat)
  {
    forall b :: 0 <= b < |bs| ==> Within(bs[b], count)
  }

  /** The batches after the first stay within the document. */
  lemma AllWithinRest(bs: seq<seq<nat>>, count: nat)
    requires AllWithin(bs, count) && bs != []
    ensures Within(bs[0], count) && AllWithin(bs[1..], count)
  {
    forall b | 0 <= b < |bs| - 1
      ensures Within(bs[1..][b], count)
    {
      assert bs[1..][b] == bs[b + 1];
    }
  }

  /** The batch loop over a list of batches, the first one sent as request
      `call` and each next one as the next request. */
  function ApplyBatches(nodes: seq<TextNode>, bs: seq<seq<nat>>, oracle: Oracle, call: nat): (r: seq<TextNode>)
    requires AllWithin(bs, |nodes|)
    ensures |r| == |nodes|
    decreases |bs|
  {
    if bs == [] then nodes
    else ApplyBatches(WriteBatch(nodes, bs[0], oracle, call), bs[1..], oracle, call + 1)
  }

  /** The loop sends the first batch, then carries on with the others. */
  lemma ApplyBatchesStep(nodes: seq<TextNode>, bs: seq<seq<nat>>, oracle: Oracle, call: nat, batch: seq<nat>, rest: seq<seq<nat>>)
    requires AllWithin(bs, |nodes|) && bs == [batch] + rest
    ensures Within(batch, |nodes|) && AllWithin(rest, |nodes|)
    ensures ApplyBatches(nodes, bs, oracle, call)
         == ApplyBatches(WriteBatch(nodes, batch, oracle, call), rest, oracle, call + 1)
  {
    assert bs[0] == batch && bs[1..] == rest;
    AllWithinRest(bs, |nodes|);
  }

  /** A node in none of the batches is not touched by the loop. */
  lemma {:induction false} ApplyBatchesFrame(nodes: seq<TextNode>, bs: seq<seq<nat>>, oracle: Oracle, call: nat, j: nat)
    requires AllWithin(bs, |nodes|) && j < |nodes|
    requires forall b :: 0 <= b < |bs| ==> j !in bs[b]
    ensures ApplyBatches(nodes, bs, oracle, call)[j] == nodes[j]
    decreases |bs|
  {
    if bs != [] {
      var next := WriteBatch(nodes, bs[0], oracle, call);
      WriteBackFrame(nodes, bs[0], BatchOutput(nodes, bs[0], oracle, call), j);
      ApplyBatchesFrame(next, bs[1..], oracle, call + 1, j);
    }
  }

  /** The loop keeps every node's parent. */
  lemma {:induction false} ApplyBatchesParents(nodes: seq<TextNode>, bs: seq<seq<nat>>, oracle: Oracle, call: nat)
    requires AllWithin(bs, |nodes|)
    ensures forall j :: 0 <= j < |nodes| ==> ApplyBatches(nodes, bs, oracle, call)[j].parent == nodes[j].parent
    decreases |bs|
  {
    if bs != [] {
      var next := WriteBatch(nodes, bs[0], oracle, call);
      WriteBackParents(nodes, bs[0], BatchOutput(nodes, bs[0], oracle, call));
      ApplyBatchesParents(next, bs[1..], oracle, call + 1);
    }
  }

  /** The batches after the first are still in document order, and none
      of them holds a position of the first. */
  lemma OrderedRest(bs: seq<seq<nat>>)
    requires Ordered(bs) && bs != []
    ensures Ordered(bs[1..])
    ensures forall b, k :: 1 <= b < |bs| && 0 <= k < |bs[b]| ==> bs[b][k] !in bs[0]
    ensures forall b, k :: 1 <= b < |bs| && 0 <= k < |bs[0]| ==> bs[0][k] !in bs[b]
  {
    forall b, k | 1 <= b < |bs| && 0 <= k < |bs[0]|
      ensures bs[0][k] !in bs[b]
    {
      forall k' | 0 <= k' < |bs[b]|
        ensures bs[0][k] < bs[b][k']
      {
      }
    }
    forall b, k | 1 <= b < |bs| && 0 <= k < |bs[b]|
      ensures bs[b][k] !in bs[0]
    {
      forall k0 | 0 <= k0 < |bs[0]|
        ensures bs[0][k0] < bs[b][k]
      {
      }
    }
  }

  /** ApplyBatchesAt for the first batch: its writes are final, since no
      later batch holds its positions. */
  lemma ApplyBatchesAtFirst(nodes: seq<TextNode>, bs: seq<seq<nat>>, oracle: Oracle, call: nat, k: nat)
    requires AllWithin(bs, |nodes|) && Ordered(bs)
    requires bs != [] && k < |bs[0]|
    ensures ApplyBatches(nodes, bs, oracle, call)[bs[0][k]]
         == TextNode(nodes[bs[0][k]].parent,
                     if k < |BatchOutput(nodes, bs[0], oracle, call)|
                     then BatchOutput(nodes, bs[0], oracle, call)[k]
                     else nodes[bs[0][k]].text)
  {
    var j := bs[0][k];
    var rest := bs[1..];
    OrderedRest(bs);
    WriteBackAt(nodes, bs[0], BatchOutput(nodes, bs[0], oracle, call), k);
    forall b' | 0 <= b' < |rest|
      ensures j !in rest[b']
    {
      assert rest[b'] == bs[b' + 1];
    }
    ApplyBatchesFrame(WriteBatch(nodes, bs[0], oracle, call), rest, oracle, call + 1, j);
  }

  /** Batches in document order do not see each other's writes: node k of
      batch b ends up with entry k of what the translator returns for that
      batch's original texts, sent as request `call + b`, or keeps its text
      when that list is shorter. */
  lemma {:induction false} ApplyBatchesAt(nodes: seq<TextNode>, bs: seq<seq<nat>>, oracle: Oracle, call: nat, b: nat, k: nat)
    requires AllWithin(bs, |nodes|) && Ordered(bs)
    requires b < |bs| && k < |bs[b]|
    ensures ApplyBatches(nodes, bs, oracle, call)[bs[b][k]]
         == TextNode(nodes[bs[b][k]].parent,
                     if k < |BatchOutput(nodes, bs[b], oracle, call + b)|
                     then BatchOutput(nodes, bs[b], oracle, call + b)[k]
                     else nodes[bs[b][k]].text)
    decreases |bs|
  {
    if b == 0 {
      ApplyBatchesAtFirst(nodes, bs, oracle, call, k);
    } else {
      var out := BatchOutput(nodes, bs[0], oracle, call);
      var next := WriteBatch(nodes, bs[0], oracle, call);
      var rest := bs[1..];
      OrderedRest(bs);
      assert rest[b - 1] == bs[b];
      ApplyBatchesAt(next, rest, oracle, call + 1, b - 1, k);
      forall k' | 0 <= k' < |bs[b]|
        ensures next[bs[b][k']] == nodes[bs[b][k']]
      {
        WriteBackFrame(nodes, bs[0], out, bs[b][k']);
      }
      assert BatchTexts(next, bs[b]) == BatchTexts(nodes, bs[b]);
    }
  }

  /** When every request fails, the loop keeps every node's parent and text. */
  lemma {:induction false} ApplyBatchesFailing(nodes: seq<TextNode>, bs: seq<seq<nat>>, oracle: Oracle, call: nat)
    requires AllWithin(bs, |nodes|)
    requires forall c: nat, texts: seq<string> :: Settled(oracle(c, texts)).Failed?
    ensures ApplyBatches(nodes, bs, oracle, call) == nodes
    decreases |bs|
  {
    if bs != [] {
      var texts := BatchTexts(nodes, bs[0]);
      TranslateBatchSettles(texts, oracle(call, texts));
      WriteBackSame(nodes, bs[0]);
      ApplyBatchesFailing(nodes, bs[1..], oracle, call + 1);
    }
  }

  /** The batches of a document: `text_elements` cut by `range(0,
      len(text_elements), batch_size)`. */
  function DocumentBatches(nodes: seq<TextNode>, size: int): (bs: seq<seq<nat>>)
    requires size != 0
    ensures AllWithin(bs, |nodes|)
  {
    BatchesBounded(Selected(nodes), size, |nodes|);
    Batches<nat>(Selected(nodes), size)
  }

  /** The string nodes of a document after the batch loop of `process_epub`,
      its first request numbered `base`. */
  function TranslatedDocument(nodes: seq<TextNode>, size: int, oracle: Oracle, base: nat): (r: seq<TextNode>)
    requires size != 0
    ensures |r| == |nodes|
  {
    ApplyBatches(nodes, DocumentBatches(nodes, size), oracle, base)
  }

  /** The batch loop keeps the node count, order and parents of a document
      and never touches a blank node or a node under `script` or `style`. */
  lemma DocumentFrame(nodes: seq<TextNode>, size: int, oracle: Oracle, base: nat)
    requires size != 0
    ensures forall j :: 0 <= j < |nodes| ==>
      TranslatedDocument(nodes, size, oracle, base)[j].parent == nodes[j].parent
    ensures forall j :: 0 <= j < |nodes| && !Eligible(nodes[j]) ==>
      TranslatedDocument(nodes, size, oracle, base)[j] == nodes[j]
  {
    var bs := DocumentBatches(nodes, size);
    ApplyBatchesParents(nodes, bs, oracle, base);
    BatchesMembers(Selected(nodes), size);
    forall j | 0 <= j < |nodes| && !Eligible(nodes[j])
      ensures TranslatedDocument(nodes, size, oracle, base)[j] == nodes[j]
    {
      forall b | 0 <= b < |bs|
        ensures j !in bs[b]
      {
        forall k | 0 <= k < |bs[b]|
          ensures bs[b][k] != j
        {
          assert bs[b][k] in Selected(nodes);
        }
      }
      ApplyBatchesFrame(nodes, bs, oracle, base, j);
    }
  }

  /** Batch b of a document is `text_elements[b * batch_size : (b + 1) *
      batch_size]`, sent as request `base + b`; node k of it takes entry k
      of the translator's answer when there is one and keeps its text
      otherwise. */
  lemma DocumentBatchResult(nodes: seq<TextNode>, size: int, oracle: Oracle, base: nat, b: nat, k: nat)
    requires size > 0 && b < |DocumentBatches(nodes, size)| && k < |DocumentBatches(nodes, size)[b]|
    ensures b * size < |Selected(nodes)|
    ensures DocumentBatches(nodes, size)[b] == Selected(nodes)[b * size .. Min(b * size + size, |Selected(nodes)|)]
    ensures TranslatedDocument(nodes, size, oracle, base)[DocumentBatches(nodes, size)[b][k]]
         == TextNode(nodes[DocumentBatches(nodes, size)[b][k]].parent,
                     if k < |BatchOutput(nodes, DocumentBatches(nodes, size)[b], oracle, base + b)|
                     then BatchOutput(nodes, DocumentBatches(nodes, size)[b], oracle, base + b)[k]
                     else nodes[DocumentBatches(nodes, size)[b][k]].text)
  {
    BatchesSlices(Selected(nodes), size, b);
    BatchesOrdered(Selected(nodes), size, 0, |nodes|);
    ApplyBatchesAt(nodes, DocumentBatches(nodes, size), oracle, base, b, k);
  }

  /** When every request fails, every node keeps its parent and text. */
  lemma FailingTranslatorKeepsDocument(nodes: seq<TextNode>, size: int, oracle: Oracle, base: nat)
    requires size != 0
    requires forall call: nat, texts: seq<string> :: Settled(oracle(call, texts)).Failed?
    ensures TranslatedDocument(nodes, size, oracle, base) == nodes
  {
    ApplyBatchesFailing(nodes, DocumentBatches(nodes, size), oracle, base);
  }

  /** A translator that answers every request with a single choice (one
      completion per request, whatever the number of user messages) has only
      the first node of each batch replaced: `zip` stops after one pair, and
      the other nodes of the batch keep their text. */
  lemma SingleChoiceKeepsRestOfBatch(nodes: seq<TextNode>, size: int, oracle: Oracle, base: nat, b: nat, k: nat)
    requires size > 0 && b < |DocumentBatches(nodes, size)| && 1 <= k < |DocumentBatches(nodes, size)[b]|
    requires forall call: nat, texts: seq<string> ::
      Settled(oracle(call, texts)).Choices? && |Settled(oracle(call, texts)).contents| == 1
    ensures TranslatedDocument(nodes, size, oracle, base)[DocumentBatches(nodes, size)[b][k]]
         == nodes[DocumentBatches(nodes, size)[b][k]]
  {
    var batch := DocumentBatches(nodes, size)[b];
    var texts := BatchTexts(nodes, batch);
    DocumentBatchResult(nodes, size, oracle, base, b, k);
    TranslateBatchSettles(texts, oracle(base + b, texts));
  }

  /** `for orig, new in zip(batch, translated): orig.replace_with(new)` on
      the parsed document. */
  method ReplaceBatch(soup: array<TextNode>, batch: seq<nat>, translated: seq<string>)
    requires Within(batch, soup.Length)
    modifies soup
    ensures soup[..] == WriteBack(old(soup[..]), batch, translated)
  {
    ghost var before := soup[..];
    var k := 0;
    while k < |batch| && k < |translated|
      invariant 0 <= k <= |batch| && k <= |translated|
      invariant soup.Length == |before|
      invariant WriteBack(soup[..], batch[k..], translated[k..]) == WriteBack(before, batch, translated)
    {
      ghost var current := soup[..];
      WriteBackStep(current, batch, translated, k);
      soup[batch[k]] := TextNode(soup[batch[k]].parent, translated[k]);
      assert soup[..] == current[batch[k] := TextNode(current[batch[k]].parent, translated[k])];
      k := k + 1;
    }
    assert batch[k..] == [] || translated[k..] == [];
  }

  /** The batch loop of `process_epub` over one parsed document, replacing
      nodes in place. `range(0, len(text_elements), batch_size)` with the
      slice taken at each offset is the list `Batches` computes (see
      `BatchesSlices` and `BatchExists`), so the loop walks that list.
      Returns the number of translator requests it made. */
  method TranslateDocument(soup: array<TextNode>, size: int, oracle: Oracle, base: nat) returns (calls: nat)
    requires size != 0
    modifies soup
    ensures soup[..] == TranslatedDocument(old(soup[..]), size, oracle, base)
    ensures calls == |DocumentBatches(old(soup[..]), size)|
  {
    ghost var goal := TranslatedDocument(soup[..], size, oracle, base);
    var textElements := Selected(soup[..]);
    var batches := Batches(textElements, size);
    assert batches == DocumentBatches(soup[..], size);
    // The document as the batches sent so far have left it, and the number
    // of the next request.
    ghost var state := soup[..];
    ghost var call := base;
    calls := 0;
    while calls < |batches|
      invariant calls <= |batches|
      invariant soup[..] == state && |state| == |goal|
      invariant call == base + calls
      invariant AllWithin(batches[calls..], |state|)
      invariant ApplyBatches(state, batches[calls..], oracle, call) == goal
    {
      var batch := batches[calls];
      assert batches[calls..] == [batch] + batches[calls + 1..];
      ApplyBatchesStep(state, batches[calls..], oracle, call, batch, batches[calls + 1..]);
      var texts := BatchTexts(soup[..], batch);
      var translated := TranslateBatch(texts, oracle(base + calls, texts));
      ReplaceBatch(soup, batch, translated);
      state := WriteBatch(state, batch, oracle, call);
      calls := calls + 1;
      call := call + 1;
    }
  }

  // ------------------------------------------------------------------
  // The book

  /** The number of translator requests the batch loop makes for a document. */
  function DocumentCalls(nodes: seq<TextNode>, size: int): nat
    requires size != 0
  {
    |DocumentBatches(nodes, size)|
  }

  /** A document makes ceil(n / batch_size) requests for its n text elements
      when the batch size is positive, and none when it is negative. */
  lemma DocumentCallsCount(nodes: seq<TextNode>, size: int)
    requires size != 0
    ensures size > 0 ==> DocumentCalls(nodes, size) == (|Selected(nodes)| + size - 1) / size
    ensures size < 0 ==> DocumentCalls(nodes, size) == 0
  {
    if size > 0 {
      BatchesCount(Selected(nodes), size);
    }
  }

  function ItemCalls(item: Item, size: int): nat
    requires size != 0
  {
    match item
    case Document(nodes) => DocumentCalls(nodes, size)
    case Resource(_) => 0
  }

  /** The number of requests made for a list of items, documents in order. */
  function TotalCalls(items: seq<Item>, size: int): nat
    requires size != 0
  {
    if items == [] then 0
    else TotalCalls(items[..|items| - 1], size) + ItemCalls(items[|items| - 1], size)
  }

  /** One item after the loop body of `process_epub`: a document is
      translated with its first request numbered `base`; any other item is
      left alone. */
  function TranslatedItem(item: Item, size: int, oracle: Oracle, base: nat): Item
    requires size != 0
  {
    match item
    case Document(nodes) => Document(TranslatedDocument(nodes, size, oracle, base))
    case Resource(_) => item
  }

  /** The items of the book after the translation loop of `process_epub`:
      the documents in order, request numbers running on from one document
      to the next. */
  function TranslatedItems(items: seq<Item>, size: int, oracle: Oracle): (r: seq<Item>)
    requires size != 0
    ensures |r| == |items|
  {
    if items == [] then []
    else
      var init := items[..|items| - 1];
      TranslatedItems(init, size, oracle) + [TranslatedItem(items[|items| - 1], size, oracle, TotalCalls(init, size))]
  }

  /** Item d is translated on its own, its first request numbered after all
      the requests of the items before it. */
  lemma {:induction false} TranslatedItemsAt(items: seq<Item>, size: int, oracle: Oracle, d: nat)
    requires size != 0 && d < |items|
    ensures TranslatedItems(items, size, oracle)[d]
         == TranslatedItem(items[d], size, oracle, TotalCalls(items[..d], size))
    decreases |items|
  {
    var init := items[..|items| - 1];
    if d < |init| {
      assert init[..d] == items[..d] && init[d] == items[d];
      TranslatedItemsAt(init, size, oracle, d);
    } else {
      assert init == items[..d];
    }
  }

  /** The translation keeps the book's items, their kinds and order; other
      items come out unchanged; every document keeps its node count and the
      parent of every node, and its blank nodes and nodes under `script` or
      `style` come out unchanged. */
  lemma BookFrame(items: seq<Item>, size: int, oracle: Oracle)
    requires size != 0
    ensures forall d :: 0 <= d < |items| && items[d].Resource? ==>
      TranslatedItems(items, size, oracle)[d] == items[d]
    ensures forall d :: 0 <= d < |items| && items[d].Document? ==>
      TranslatedItems(items, size, oracle)[d].Document?
      && |TranslatedItems(items, size, oracle)[d].nodes| == |items[d].nodes|
    ensures forall d, j :: 0 <= d < |items| && items[d].Document? && 0 <= j < |items[d].nodes| ==>
      TranslatedItems(items, size, oracle)[d].nodes[j].parent == items[d].nodes[j].parent
      && (!Eligible(items[d].nodes[j]) ==> TranslatedItems(items, size, oracle)[d].nodes[j] == items[d].nodes[j])
  {
    var r := TranslatedItems(items, size, oracle);
    forall d | 0 <= d < |items|
      ensures items[d].Resource? ==> r[d] == items[d]
      ensures items[d].Document? ==> r[d].Document? && |r[d].nodes| == |items[d].nodes|
      ensures forall j :: items[d].Document? && 0 <= j < |items[d].nodes| ==>
        r[d].nodes[j].parent == items[d].nodes[j].parent
        && (!Eligible(items[d].nodes[j]) ==> r[d].nodes[j] == items[d].nodes[j])
    {
      TranslatedItemsAt(items, size, oracle, d);
      if items[d].Document? {
        DocumentFrame(items[d].nodes, size, oracle, TotalCalls(items[..d], size));
      }
    }
  }

  /** When every request fails, every item keeps its kind and every node its
      parent and text. */
  lemma {:induction false} FailingTranslatorKeepsBook(items: seq<Item>, size: int, oracle: Oracle)
    requires size != 0
    requires forall call: nat, texts: seq<string> :: Settled(oracle(call, texts)).Failed?
    ensures TranslatedItems(items, size, oracle) == items
    decreases |items|
  {
    if items != [] {
      var init := items[..|items| - 1];
      FailingTranslatorKeepsBook(init, size, oracle);
      var last := items[|items| - 1];
      if last.Document? {
        FailingTranslatorKeepsDocument(last.nodes, size, oracle, TotalCalls(init, size));
      }
      assert init + [last] == items;
    }
  }

  /** A negative batch size makes every `range` empty: no request is made
      and every string node of the book comes out as it went in. */
  lemma {:induction false} NegativeBatchSizeKeepsBook(items: seq<Item>, size: int, oracle: Oracle)
    requires size < 0
    ensures TotalCalls(items, size) == 0
    ensures TranslatedItems(items, size, oracle) == items
    decreases |items|
  {
    if items != [] {
      var init := items[..|items| - 1];
      NegativeBatchSizeKeepsBook(init, size, oracle);
      assert init + [items[|items| - 1]] == items;
    }
  }

  /** With one text block per request, the translation makes exactly as many
      requests as the dry run counts text blocks. */
  lemma {:induction false} RequestsWithBatchSizeOne(items: seq<Item>)
    ensures TotalCalls(items, 1) == TextBlocks(Documents(items))
    decreases |items|
  {
    if items != [] {
      var init := items[..|items| - 1];
      RequestsWithBatchSizeOne(init);
      var last := items[|items| - 1];
      if last.Document? {
        DocumentCallsCount(last.nodes, 1);
        var docs := Documents(init) + [last.nodes];
        assert docs[..|docs| - 1] == Documents(init);
      }
    }
  }

  /** The dry run estimates `text_blocks / batch_size` requests (one pause
      each); the translation makes at least that many, since every document
      rounds its own count up. */
  lemma {:induction false} EstimateIsLowerBound(items: seq<Item>, size: int)
    requires size > 0
    ensures TextBlocks(Documents(items)) <= TotalCalls(items, size) * size
    decreases |items|
  {
    if items != [] {
      var init := items[..|items| - 1];
      EstimateIsLowerBound(init, size);
      var last := items[|items| - 1];
      var before := TotalCalls(init, size);
      var blocks := TextBlocks(Documents(init));
      if last.Document? {
        var n := |Selected(last.nodes)|;
        var c := DocumentCalls(last.nodes, size);
        assert n <= c * size by {
          DocumentCallsCount(last.nodes, size);
          CeilCovers(n, size);
        }
        assert TextBlocks(Documents(items)) == blocks + n by {
          var docs := Documents(init) + [last.nodes];
          assert docs[..|docs| - 1] == Documents(init);
        }
        assert TotalCalls(items, size) * size == before * size + c * size by {
          MulAdd(before, c, size);
        }
      } else {
        assert TextBlocks(Documents(items)) == blocks;
      }
    }
  }

  /** ceil(n / size) batches of `size` cover n elements. */
  lemma CeilCovers(n: nat, size: int)
    requires size > 0
    ensures n <= ((n + size - 1) / size) * size
  {
    DivMod(n + size - 1, size);
  }

  lemma MulAdd(a: int, b: int, size: int)
    ensures (a + b) * size == a * size + b * size
  {
  }

  // ------------------------------------------------------------------
  // The dry run

  /** What `analyze_epub` reports, without the floating-point estimates of
      time and cost. */
  datatype Stats = Stats(totalChapters: nat, textBlocks: nat, sampleTexts: seq<string>)

  /** The sample taken from a document's first text element: a text longer
      than 200 characters is stripped, cut to 200 characters and marked with
      "..."; a shorter one is taken as it is, unstripped. */
  function Sample(text: string): (r: string)
    ensures |text| <= 200 ==> r == text
    ensures |text| > 200 ==>
      |r| == Min(200, |Strip(text)|) + 3 && r[..|r| - 3] <= Strip(text) && r[|r| - 3..] == "..."
    ensures |r| <= 203
  {
    if |text| > 200 then Take(Strip(text), 200) + "..." else text
  }

  /** The sample of a document, when it has a text element. */
  function DocumentSample(nodes: seq<TextNode>): Option<string>
  {
    var sel := Selected(nodes);
    if sel == [] then None else Some(Sample(nodes[sel[0]].text))
  }

  /** The sample loop of `analyze_epub`: a document adds its sample while
      fewer than three have been taken. */
  function Samples(docs: seq<seq<TextNode>>): (r: seq<string>)
    ensures |r| <= 3
  {
    if docs == [] then []
    else
      var init := Samples(docs[..|docs| - 1]);
      match DocumentSample(docs[|docs| - 1])
      case Some(sample) => if |init| < 3 then init + [sample] else init
      case None => init
  }

  /** The samples of every document that has a text element, in order. */
  function AllSamples(docs: seq<seq<TextNode>>): seq<string>
  {
    if docs == [] then []
    else
      var init := AllSamples(docs[..|docs| - 1]);
      match DocumentSample(docs[|docs| - 1])
      case Some(sample) => init + [sample]
      case None => init
  }

  /** The dry run reports the samples of the first three documents that have
      a text element, or of all of them when there are fewer. */
  lemma {:induction false} SamplesAreFirstThree(docs: seq<seq<TextNode>>)
    ensures Samples(docs) == Take(AllSamples(docs), 3)
    decreases |docs|
  {
    if docs != [] {
      var init := docs[..|docs| - 1];
      SamplesAreFirstThree(init);
      var all := AllSamples(init);
      match DocumentSample(docs[|docs| - 1])
      case Some(sample) =>
        if |Samples(init)| < 3 {
          assert Samples(init) == all;
        } else {
          assert |all| >= 3 && (all + [sample])[..3] == all[..3];
        }
      case None =>
    }
  }

  /** The statistics `analyze_epub` computes for a book. */
  function Analysis(items: seq<Item>): Stats
  {
    var docs := Documents(items);
    Stats(|docs|, TextBlocks(docs), Samples(docs))
  }

  /** `analyze_epub`: one pass over the documents, counting text elements
      and sampling. The time estimate divides by the batch size, so a batch
      size of 0 raises ZeroDivisionError and no statistics come back. */
  method AnalyzeEpub(items: seq<Item>, batchSize: int) returns (stats: Option<Stats>)
    ensures stats.None? <==> batchSize == 0
    ensures stats.Some? ==> stats.value == Analysis(items)
  {
    var docs := Documents(items);
    var blocks := 0;
    var samples := [];
    for k := 0 to |docs|
      invariant blocks == TextBlocks(docs[..k])
      invariant samples == Samples(docs[..k])
    {
      assert docs[..k + 1][..k] == docs[..k];
      var textElements := Selected(docs[k]);
      blocks := blocks + |textElements|;
      if |samples| < 3 && textElements != [] {
        samples := samples + [Sample(docs[k][textElements[0]].text)];
      }
    }
    assert docs[..|docs|] == docs;
    if batchSize == 0 {
      return None;
    }
    return Some(Stats(|docs|, blocks, samples));
  }

  // ------------------------------------------------------------------
  // The whole run

  /** The command-line settings the core depends on. */
  datatype Settings = Settings(batchSize: int, dryRun: bool)

  /** How `process_epub` ends: the dry-run report, the translated items
      written to the output file, or `sys.exit` on an exception. */
  datatype Outcome = Report(stats: Stats) | Written(items: seq<Item>) | Aborted

  /** The outcome of `process_epub` on a book. A batch size of 0 aborts the
      dry run (the estimate divides by it) and the translation as soon as the
      first document is reached (`range` with step 0 raises ValueError); a
      book without documents is written back unchanged. The other ways a run
      can end in `sys.exit` (a negative pause, a library exception) are not
      modelled. */
  function Processed(items: seq<Item>, settings: Settings, oracle: Oracle): Outcome
  {
    if settings.dryRun then
      (if settings.batchSize == 0 then Aborted else Report(Analysis(items)))
    else if settings.batchSize == 0 then
      (if Documents(items) != [] then Aborted else Written(items))
    else Written(TranslatedItems(items, settings.batchSize, oracle))
  }

  /** Within this model, a run aborts exactly when the batch size is 0 and
      the run is a dry run or the book has a document item; a dry run never
      writes. (A negative pause and library exceptions, which also abort a
      run, are not modelled.) */
  lemma ProcessedOutcomes(items: seq<Item>, settings: Settings, oracle: Oracle)
    ensures Processed(items, settings, oracle).Aborted?
        <==> settings.batchSize == 0 && (settings.dryRun || HasDocument(items))
    ensures Processed(items, settings, oracle).Written? <==> !Processed(items, settings, oracle).Aborted? && !settings.dryRun
  {
    DocumentsEmptyIff(items);
  }

  /** The loop body of `process_epub` for one document: parse it, run the
      batch loop on the parsed nodes, and serialise the result. Returns the
      new nodes and the number of requests made. */
  method TranslateContent(nodes: seq<TextNode>, size: int, oracle: Oracle, base: nat)
    returns (translated: seq<TextNode>, calls: nat)
    requires size != 0
    ensures translated == TranslatedDocument(nodes, size, oracle, base)
    ensures calls == DocumentCalls(nodes, size)
  {
    var soup := new TextNode[|nodes|](i requires 0 <= i < |nodes| => nodes[i]);
    assert soup[..] == nodes;
    calls := TranslateDocument(soup, size, oracle, base);
    translated := soup[..];
  }

  /** The translation loop of `process_epub` over the document items, each
      one's content replaced in turn, request numbers running on. */
  method TranslateBook(book: Book, size: int, oracle: Oracle)
    requires size != 0
    modifies book
    ensures book.items == TranslatedItems(old(book.items), size, oracle)
  {
    ghost var orig := book.items;
    var d := 0;
    var call: nat := 0;
    while d < |book.items|
      invariant d <= |orig| == |book.items|
      invariant book.items == TranslatedItems(orig[..d], size, oracle) + orig[d..]
      invariant call == TotalCalls(orig[..d], size)
      decreases |orig| - d
    {
      assert orig[..d + 1][..d] == orig[..d];
      ghost var before := TranslatedItems(orig[..d], size, oracle);
      assert TranslatedItems(orig[..d + 1], size, oracle) == before + [TranslatedItem(orig[d], size, oracle, call)];
      assert orig[d..][1..] == orig[d + 1..];
      match book.items[d] {
        case Document(nodes) =>
          var translated, n := TranslateContent(nodes, size, oracle, call);
          book.SetContent(d, translated);
          ReplaceAfter(before, orig[d..], Document(translated));
          call := call + n;
        case Resource(_) =>
          ReplaceAfter(before, orig[d..], orig[d]);
      }
      d := d + 1;
    }
    assert orig[..d] == orig;
  }

  /** `process_epub` on an opened book. The dry run leaves the book alone;
      the translation replaces the content of each document item in turn. */
  method ProcessEpub(book: Book, settings: Settings, oracle: Oracle) returns (outcome: Outcome)
    modifies book
    ensures outcome == Processed(old(book.items), settings, oracle)
    ensures book.items == if outcome.Written? then outcome.items else old(book.items)
  {
    if settings.dryRun {
      var stats := AnalyzeEpub(book.items, settings.batchSize);
      match stats
      case None => return Aborted;
      case Some(s) => return Report(s);
    }
    if settings.batchSize == 0 {
      // The first document's `range(0, len(text_elements), 0)` raises
      // before anything is replaced.
      if Documents(book.items) != [] {
        return Aborted;
      }
      return Written(book.items);
    }
    TranslateBook(book, settings.batchSize, oracle);
    return Written(book.items);
  }
}
