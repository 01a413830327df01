// The book as both translators use it: the ordered list of its items, of
// which only the items of type document (`epub.ET_DOCUMENT`) are parsed and
// translated. A document item's content is represented by its parsed string
// nodes; reading and writing the archive, decoding and HTML serialisation
// are not part of this model.

module Epub {
  import opened Soup

  datatype Item = Document(nodes: seq<TextNode>) | Resource(data: seq<bv8>)

  /** `[item for item in book.get_items() if item.get_type() == epub.ET_DOCUMENT]`,
      each document given by its string nodes. */
  function Documents(items: seq<Item>): (docs: seq<seq<TextNode>>)
    ensures |docs| <= |items|
  {
    if items == [] then []
    else
      var init := Documents(items[..|items| - 1]);
      match items[|items| - 1]
      case Document(nodes) => init + [nodes]
      case Resource(_) => init
  }

  predicate HasDocument(items: seq<Item>)
  {
    exists d :: 0 <= d < |items| && items[d].Document?
  }

  /** A book without a document item has no document to list, and one with a
      document item lists at least one. */
  lemma {:induction false} DocumentsEmptyIff(items: seq<Item>)
    ensures Documents(items) == [] <==> !HasDocument(items)
  {
    if items != [] {
      var init := items[..|items| - 1];
      DocumentsEmptyIff(init);
      if HasDocument(init) {
        var d :| 0 <= d < |init| && init[d].Document?;
        assert items[d] == init[d];
      }
      if HasDocument(items) && !items[|items| - 1].Document? {
        var d :| 0 <= d < |items| && items[d].Document?;
        assert init[d] == items[d];
      }
    }
  }

  /** The filter keeps the order of the book: the documents of two runs of
      items laid end to end are those of the first run followed by those of
      the second. */
  lemma {:induction false} DocumentsAppend(a: seq<Item>, b: seq<Item>)
    ensures Documents(a + b) == Documents(a) + Documents(b)
    decreases |b|
  {
    if b != [] {
      var last := b[|b| - 1];
      assert (a + b)[..|a + b| - 1] == a + b[..|b| - 1];
      assert (a + b)[|a + b| - 1] == last;
      DocumentsAppend(a, b[..|b| - 1]);
      match last
      case Document(nodes) =>
        assert Documents(a + b) == Documents(a) + Documents(b[..|b| - 1]) + [nodes];
      case Resource(_) =>
    } else {
      assert a + b == a;
    }
  }

  /** A content is listed exactly when the book has a document item with
      that content: nothing is dropped and nothing else is let in. */
  lemma {:induction false} DocumentsMembership(items: seq<Item>, nodes: seq<TextNode>)
    ensures nodes in Documents(items) <==> Document(nodes) in items
  {
    if items != [] {
      var init := items[..|items| - 1];
      DocumentsMembership(init, nodes);
      assert items == init + [items[|items| - 1]];
    }
  }

  /** The number of eligible string nodes over a list of documents: what the
      dry-run reports as `text_blocks`. */
  function TextBlocks(docs: seq<seq<TextNode>>): nat
  {
    if docs == [] then 0 else TextBlocks(docs[..|docs| - 1]) + |Selected(docs[|docs| - 1])|
  }

  /** The book object: `set_content` replaces one document item's content. */
  class Book {
    var items: seq<Item>

    constructor (items: seq<Item>)
      ensures this.items == items
    {
      this.items := items;
    }

    method SetContent(d: nat, nodes: seq<TextNode>)
      requires d < |items| && items[d].Document?
      modifies this
      ensures items == old(items)[d := Document(nodes)]
    {
      items := items[d := Document(nodes)];
    }
  }
}
