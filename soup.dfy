// A parsed document, seen the way both translators see it: the ordered list
// of its string nodes as `soup.find_all(text=True)` returns them (document
// order), each with the tag name of its direct parent. Replacing a node with
// `replace_with` swaps one string for another at the same place, so a
// document keeps its node count, order and parents through a translation.

module Soup {
  import opened Basics
  import opened Text

  datatype TextNode = TextNode(parent: string, text: string)

  /** The filter both translators apply to `find_all(text=True)`: a node is
      kept when it is not blank and its direct parent is neither `script`
      nor `style`. */
  predicate Eligible(n: TextNode)
  {
    !IsBlank(n.text) && n.parent != "script" && n.parent != "style"
  }

  /** The filter as the source writes it, `t.strip() and t.parent.name not in
      ['script', 'style']`, keeps exactly the eligible nodes. */
  lemma EligibleIff(n: TextNode)
    ensures Eligible(n) <==> Strip(n.text) != [] && n.parent !in ["script", "style"]
  {
    StripEmptyIffBlank(n.text);
  }

  /** The positions of the eligible nodes, in document order: the list
      comprehension that builds `text_elements`. */
  function Selected(nodes: seq<TextNode>): (sel: seq<nat>)
    ensures forall p :: 0 <= p < |sel| ==> sel[p] < |nodes| && Eligible(nodes[sel[p]])
    ensures Increasing(sel)
    decreases |nodes|
  {
    if nodes == [] then []
    else
      var pre := nodes[..|nodes| - 1];
      var init := Selected(pre);
      assert forall j :: 0 <= j < |pre| ==> pre[j] == nodes[j];
      if Eligible(nodes[|nodes| - 1]) then init + [|nodes| - 1] else init
  }

  /** Every eligible node is selected. */
  lemma {:induction false} SelectedComplete(nodes: seq<TextNode>)
    ensures forall j :: 0 <= j < |nodes| && Eligible(nodes[j]) ==> j in Selected(nodes)
    decreases |nodes|
  {
    if nodes != [] {
      var pre := nodes[..|nodes| - 1];
      SelectedComplete(pre);
      assert forall j :: 0 <= j < |pre| ==> pre[j] == nodes[j];
    }
  }

  /** The selection of a prefix of the document is a prefix of the selection. */
  lemma {:induction false} SelectedOfPrefix(nodes: seq<TextNode>, j: nat)
    requires j <= |nodes|
    ensures Selected(nodes[..j]) <= Selected(nodes)
    decreases |nodes|
  {
    if j < |nodes| {
      var init := nodes[..|nodes| - 1];
      assert init[..j] == nodes[..j];
      SelectedOfPrefix(init, j);
    } else {
      assert nodes[..j] == nodes;
    }
  }

  /** The rank of an eligible node (how many eligible nodes precede it) is its
      position in the selection, and every position of the selection is the
      rank of the node it names. */
  lemma SelectedRank(nodes: seq<TextNode>, j: nat)
    requires j < |nodes| && Eligible(nodes[j])
    ensures |Selected(nodes[..j])| < |Selected(nodes)|
    ensures Selected(nodes)[|Selected(nodes[..j])|] == j
  {
    SelectedOfPrefix(nodes, j + 1);
    assert nodes[..j + 1][..j] == nodes[..j];
  }

  lemma RankOfSelected(nodes: seq<TextNode>, p: nat)
    requires p < |Selected(nodes)|
    ensures |Selected(nodes[..Selected(nodes)[p]])| == p
  {
    var sel := Selected(nodes);
    SelectedRank(nodes, sel[p]);
  }

  /** Extending a document prefix by one node adds that node to the selection
      exactly when it is eligible. */
  lemma SelectedStep(nodes: seq<TextNode>, j: nat)
    requires j < |nodes|
    ensures Selected(nodes[..j + 1])
         == Selected(nodes[..j]) + (if Eligible(nodes[j]) then [j] else [])
  {
    assert nodes[..j + 1][..j] == nodes[..j];
  }
}
