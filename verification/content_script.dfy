/**
 * The UnAmericaniser object and the parts of the document it changes: the
 * text of text nodes (textContent) and the data-unamericanised markers. The
 * document's structure is given and is not changed by the content script.
 */
module ContentScript {
  import opened Opt
  import opened Engine
  import opened Dom

  class UnAmericaniser {
    /** The six flags after loading; nothing in the content script changes them afterwards. */
    const settings: Settings
    /** The document's node structure. */
    const tree: Tree
    /** textContent of every node. */
    var content: seq<string>
    /** The elements whose dataset.unamericanised is set. */
    var marked: set<NodeId>

    ghost predicate Valid()
      reads this
    {
      WellFormed(tree) && |content| == |tree.kind|
    }

    function State(): Page
      reads this
    {
      Page(content, marked)
    }

    constructor(settings: Settings, tree: Tree, content: seq<string>, marked: set<NodeId>)
      requires WellFormed(tree) && |content| == |tree.kind|
      ensures Valid()
      ensures this.settings == settings && this.tree == tree
      ensures State() == Page(content, marked)
    {
      this.settings := settings;
      this.tree := tree;
      this.content := content;
      this.marked := marked;
    }

    /** processTextNode: rewrite the node's text and mark its parent, unless the parent is already marked. */
    method ProcessTextNode(node: NodeId)
      requires Valid() && node < |tree.kind|
      modifies this
      ensures Valid()
      ensures State() == TextStep(tree, settings, old(State()), node)
    {
      var parent := tree.parent[node];
      if parent.Some? && parent.value in marked {
        return;
      }
      var originalText := content[node];
      var processedText := ProcessText(settings, originalText);
      if originalText != processedText {
        content := content[node := processedText];
        if parent.Some? {
          marked := marked + {parent.value};
        }
      }
    }

    /** The tree walker's loop: every accepted text node inside the element's subtree, in document order. */
    method CollectTextNodes(element: NodeId) returns (textNodes: seq<NodeId>)
      requires Valid() && element < |tree.kind|
      ensures textNodes == TextNodesOf(tree, marked, element)
      ensures forall k | 0 <= k < |textNodes| ::
        element < textNodes[k] < tree.extent[element] && Accepted(tree, marked, textNodes[k])
    {
      textNodes := [];
      var node := element + 1;
      while node < tree.extent[element]
        invariant element + 1 <= node <= tree.extent[element]
        invariant textNodes == Collect(tree, marked, element + 1, node)
      {
        var parent := tree.parent[node];
        if tree.kind[node].Text? && parent.Some? && parent.value !in marked
          && ShouldProcessElement(tree.kind[parent.value])
        {
          textNodes := textNodes + [node];
        }
        node := node + 1;
      }
    }

    /** processElement: collect the accepted text nodes first, then process each of them in order. */
    method ProcessElement(element: NodeId)
      requires Valid() && element < |tree.kind| && tree.kind[element].Element?
      modifies this
      ensures Valid()
      ensures State() == ElementStep(tree, settings, old(State()), element)
    {
      if !ShouldProcessElement(tree.kind[element]) {
        return;
      }
      var textNodes := CollectTextNodes(element);
      ghost var start := State();
      for k := 0 to |textNodes|
        invariant Valid()
        invariant State() == TextSteps(tree, settings, start, textNodes[..k])
      {
        assert textNodes[..k + 1][..k] == textNodes[..k];
        ProcessTextNode(textNodes[k]);
      }
      assert textNodes[..|textNodes|] == textNodes;
    }

    /** processPage: stop if body is marked, otherwise mark it and process it. */
    method ProcessPage()
      requires Valid()
      modifies this
      ensures Valid()
      ensures State() == PageStep(tree, settings, old(State()))
    {
      if tree.body in marked {
        return;
      }
      marked := marked + {tree.body};
      ProcessElement(tree.body);
    }

    /** The body of mutation.addedNodes.forEach: each added node in order. */
    method OnAddedNodes(addedNodes: seq<NodeId>)
      requires Valid() && forall k | 0 <= k < |addedNodes| :: addedNodes[k] < |tree.kind|
      modifies this
      ensures Valid()
      ensures State() == AddedSteps(tree, settings, old(State()), addedNodes)
    {
      ghost var start := State();
      for k := 0 to |addedNodes|
        invariant Valid()
        invariant State() == AddedSteps(tree, settings, start, addedNodes[..k])
      {
        assert addedNodes[..k + 1][..k] == addedNodes[..k];
        var node := addedNodes[k];
        var parent := tree.parent[node];
        if tree.kind[node].Element? && node !in marked {
          ProcessElement(node);
        } else if tree.kind[node].Text? && parent.Some? && parent.value !in marked {
          ProcessTextNode(node);
        }
      }
      assert addedNodes[..|addedNodes|] == addedNodes;
    }

    /** The mutation observer's callback: the addedNodes of each record, record by record. */
    method OnMutations(mutations: seq<seq<NodeId>>)
      requires Valid()
      requires forall m, a | 0 <= m < |mutations| && a in mutations[m] :: a < |tree.kind|
      modifies this
      ensures Valid()
      ensures State() == AddedSteps(tree, settings, old(State()), AddedNodes(mutations))
    {
      ghost var start := State();
      for m := 0 to |mutations|
        invariant Valid()
        invariant forall k | 0 <= k < |AddedNodes(mutations[..m])| :: AddedNodes(mutations[..m])[k] < |tree.kind|
        invariant State() == AddedSteps(tree, settings, start, AddedNodes(mutations[..m]))
      {
        ghost var done := AddedNodes(mutations[..m]);
        assert mutations[..m + 1][..m] == mutations[..m];
        assert AddedNodes(mutations[..m + 1]) == done + mutations[m];
        assert forall k | 0 <= k < |mutations[m]| :: mutations[m][k] < |tree.kind| by {
          forall k | 0 <= k < |mutations[m]| ensures mutations[m][k] < |tree.kind| {
            assert mutations[m][k] in mutations[m];
          }
        }
        AddedStepsAppend(tree, settings, start, done, mutations[m]);
        OnAddedNodes(mutations[m]);
      }
      assert mutations[..|mutations|] == mutations;
    }
  }
}
