/**
 * The document as the content script sees it, and what its traversal does to
 * it, as pure step functions on the page state.
 *
 * Nodes are numbered in document order. A node's subtree is a contiguous range
 * of ids: the node itself and every id below its `extent`. A text node's
 * `parent` is its parentElement. The page state is the text of every node and
 * the set of elements carrying `data-unamericanised`.
 */
module Dom {
  import opened Opt
  import opened Engine

  type NodeId = nat

  /** An element with its tagName, its type attribute and isContentEditable; a text node; anything else. */
  datatype NodeKind = Element(tag: string, inputType: string, editable: bool) | Text | Other

  datatype Tree = Tree(kind: seq<NodeKind>, parent: seq<Option<NodeId>>, extent: seq<nat>, body: NodeId)

  predicate WellFormed(t: Tree) {
    && |t.parent| == |t.kind| && |t.extent| == |t.kind|
    && t.body < |t.kind| && t.kind[t.body].Element?
    && (forall i | 0 <= i < |t.kind| :: i < t.extent[i] <= |t.kind|)
    && (forall i | 0 <= i < |t.kind| && t.parent[i].Some? ::
          t.parent[i].value < i && t.kind[t.parent[i].value].Element?)
    // every node inside a subtree has a parent element inside it or at its root
    && (forall i, j | 0 <= i < |t.kind| && i < j < t.extent[i] ::
          t.parent[j].Some? && i <= t.parent[j].value)
  }

  /** The text of every node, and the elements marked as processed. */
  datatype Page = Page(content: seq<string>, marked: set<NodeId>)

  predicate PageOf(t: Tree, p: Page) {
    |p.content| == |t.kind|
  }

  const ExcludedTags: seq<string> := ["SCRIPT", "STYLE", "TEXTAREA", "INPUT", "SELECT", "OPTION"]
  const ExcludedTypes: seq<string> := ["email", "password", "number", "tel", "url"]

  /**
   * shouldProcessElement. The input-type test comes after INPUT has already
   * been excluded by tag, so it never decides anything.
   */
  function ShouldProcessElement(e: NodeKind): (b: bool)
    requires e.Element?
    ensures b <==> e.tag !in ExcludedTags && !e.editable
  {
    var Element(tag, inputType, editable) := e;
    if tag in ExcludedTags then false
    else if tag == "INPUT" && inputType in ExcludedTypes then false
    else if editable then false
    else true
  }

  /** The tree walker's filter: a text node whose parent element is unmarked and may be processed. */
  predicate Accepted(t: Tree, marked: set<NodeId>, i: NodeId)
    requires WellFormed(t) && i < |t.kind|
  {
    && t.kind[i].Text?
    && t.parent[i].Some?
    && t.parent[i].value !in marked
    && ShouldProcessElement(t.kind[t.parent[i].value])
  }

  /** The accepted text nodes among lo..hi-1, in document order. */
  function Collect(t: Tree, marked: set<NodeId>, lo: NodeId, hi: NodeId): (ns: seq<NodeId>)
    requires WellFormed(t) && lo <= hi <= |t.kind|
    ensures forall k | 0 <= k < |ns| :: lo <= ns[k] < hi && Accepted(t, marked, ns[k])
    ensures forall j | lo <= j < hi && Accepted(t, marked, j) :: j in ns
    ensures forall a, b | 0 <= a < b < |ns| :: ns[a] < ns[b]
    decreases hi - lo
  {
    if hi == lo then []
    else Collect(t, marked, lo, hi - 1) + (if Accepted(t, marked, hi - 1) then [hi - 1] else [])
  }

  /** What the walker rooted at e yields: the accepted text nodes strictly inside e's subtree. */
  function TextNodesOf(t: Tree, marked: set<NodeId>, e: NodeId): seq<NodeId>
    requires WellFormed(t) && e < |t.kind|
  {
    Collect(t, marked, e + 1, t.extent[e])
  }

  /**
   * The effect of a run of steps from p to r: only text nodes change, each to
   * processText of its old text, each with its parent newly marked, no two
   * under the same parent; and every new mark sits on the parent of a changed
   * node.
   */
  predicate Progress(t: Tree, st: Settings, p: Page, r: Page)
    requires WellFormed(t)
  {
    && PageOf(t, p) && PageOf(t, r) && p.marked <= r.marked
    && (forall j | 0 <= j < |t.kind| && r.content[j] != p.content[j] ::
          && t.kind[j].Text? && t.parent[j].Some?
          && t.parent[j].value in r.marked && t.parent[j].value !in p.marked
          && r.content[j] == ProcessText(st, p.content[j]))
    && (forall j, k | 0 <= j < k < |t.kind| && r.content[j] != p.content[j] && r.content[k] != p.content[k] ::
          t.parent[j] != t.parent[k])
    && (forall m | m in r.marked && m !in p.marked ::
          exists j | 0 <= j < |t.kind| :: t.parent[j] == Some(m) && r.content[j] != p.content[j])
  }

  lemma ProgressRefl(t: Tree, st: Settings, p: Page)
    requires WellFormed(t) && PageOf(t, p)
    ensures Progress(t, st, p, p)
  {
  }

  /** Two runs of steps make one: a node changed by the first has a marked parent, so the second leaves it. */
  lemma ProgressTrans(t: Tree, st: Settings, p: Page, q: Page, r: Page)
    requires WellFormed(t)
    requires Progress(t, st, p, q) && Progress(t, st, q, r)
    ensures Progress(t, st, p, r)
  {
    forall m | m in r.marked && m !in p.marked
      ensures exists j | 0 <= j < |t.kind| :: t.parent[j] == Some(m) && r.content[j] != p.content[j]
    {
      if m in q.marked {
        var j :| 0 <= j < |t.kind| && t.parent[j] == Some(m) && q.content[j] != p.content[j];
        assert r.content[j] == q.content[j];
      } else {
        var j :| 0 <= j < |t.kind| && t.parent[j] == Some(m) && r.content[j] != q.content[j];
        assert q.content[j] == p.content[j];
      }
    }
  }

  /** processTextNode on node i. */
  function TextStep(t: Tree, st: Settings, p: Page, i: NodeId): (r: Page)
    requires WellFormed(t) && PageOf(t, p) && i < |t.kind|
    ensures PageOf(t, r)
  {
    if t.parent[i].Some? && t.parent[i].value in p.marked then p
    else
      var original := p.content[i];
      var processed := ProcessText(st, original);
      if original != processed then
        var marked := if t.parent[i].Some? then p.marked + {t.parent[i].value} else p.marked;
        Page(p.content[i := processed], marked)
      else p
  }

  /**
   * processTextNode leaves everything alone under a marked parent; otherwise
   * it rewrites node i exactly when processText changes its text, and then
   * marks the parent. No other node changes.
   */
  lemma TextStepEffect(t: Tree, st: Settings, p: Page, i: NodeId)
    requires WellFormed(t) && PageOf(t, p) && i < |t.kind|
    ensures var r := TextStep(t, st, p, i);
      && p.marked <= r.marked
      && (forall j | 0 <= j < |t.kind| && j != i :: r.content[j] == p.content[j])
      && (t.parent[i].Some? && t.parent[i].value in p.marked ==> r == p)
      && (r.content[i] != p.content[i] <==>
           (t.parent[i].None? || t.parent[i].value !in p.marked) && ProcessText(st, p.content[i]) != p.content[i])
      && (r.content[i] != p.content[i] ==> r.content[i] == ProcessText(st, p.content[i]))
      && r.marked == if r.content[i] != p.content[i] && t.parent[i].Some? then p.marked + {t.parent[i].value} else p.marked
  {
  }

  lemma TextStepProgress(t: Tree, st: Settings, p: Page, i: NodeId)
    requires WellFormed(t) && PageOf(t, p) && i < |t.kind|
    requires t.kind[i].Text? && t.parent[i].Some?
    ensures Progress(t, st, p, TextStep(t, st, p, i))
  {
    var r := TextStep(t, st, p, i);
    TextStepEffect(t, st, p, i);
    if r.content[i] != p.content[i] {
      assert t.parent[i] == Some(t.parent[i].value);
    }
  }

  /** The forEach over the collected nodes: processTextNode on each, in order. */
  function TextSteps(t: Tree, st: Settings, p: Page, ns: seq<NodeId>): (r: Page)
    requires WellFormed(t) && PageOf(t, p)
    requires forall k | 0 <= k < |ns| :: ns[k] < |t.kind| && t.kind[ns[k]].Text? && t.parent[ns[k]].Some?
    ensures PageOf(t, r)
    decreases |ns|
  {
    if ns == [] then p
    else TextStep(t, st, TextSteps(t, st, p, ns[..|ns| - 1]), ns[|ns| - 1])
  }

  /**
   * What the forEach does: a run of steps in the sense of Progress that
   * changes only listed nodes, and after which every listed node has a marked
   * parent or a text processText leaves as it is.
   */
  lemma {:induction false} TextStepsProgress(t: Tree, st: Settings, p: Page, ns: seq<NodeId>)
    requires WellFormed(t) && PageOf(t, p)
    requires forall k | 0 <= k < |ns| :: ns[k] < |t.kind| && t.kind[ns[k]].Text? && t.parent[ns[k]].Some?
    ensures var r := TextSteps(t, st, p, ns);
      && Progress(t, st, p, r)
      && (forall j | 0 <= j < |t.kind| && r.content[j] != p.content[j] :: j in ns)
      && (forall k | 0 <= k < |ns| ::
            t.parent[ns[k]].value in r.marked || ProcessText(st, r.content[ns[k]]) == r.content[ns[k]])
    decreases |ns|
  {
    if ns == [] {
      ProgressRefl(t, st, p);
    } else {
      var q := TextSteps(t, st, p, ns[..|ns| - 1]);
      TextStepsProgress(t, st, p, ns[..|ns| - 1]);
      StepExtends(t, st, p, q, ns[..|ns| - 1], ns);
    }
  }

  /** One more processTextNode after a run keeps the three facts TextSteps promises. */
  lemma StepExtends(t: Tree, st: Settings, p: Page, q: Page, front: seq<NodeId>, ns: seq<NodeId>)
    requires WellFormed(t) && PageOf(t, p) && ns != [] && front == ns[..|ns| - 1]
    requires forall k | 0 <= k < |ns| :: ns[k] < |t.kind| && t.kind[ns[k]].Text? && t.parent[ns[k]].Some?
    requires Progress(t, st, p, q)
    requires forall j | 0 <= j < |t.kind| && q.content[j] != p.content[j] :: j in front
    requires forall k | 0 <= k < |front| ::
      t.parent[front[k]].value in q.marked || ProcessText(st, q.content[front[k]]) == q.content[front[k]]
    ensures var r := TextStep(t, st, q, ns[|ns| - 1]);
      && Progress(t, st, p, r)
      && (forall j | 0 <= j < |t.kind| && r.content[j] != p.content[j] :: j in ns)
      && (forall k | 0 <= k < |ns| ::
            t.parent[ns[k]].value in r.marked || ProcessText(st, r.content[ns[k]]) == r.content[ns[k]])
  {
    var i := ns[|ns| - 1];
    TextStepProgress(t, st, q, i);
    ProgressTrans(t, st, p, q, TextStep(t, st, q, i));
    StepChangesListed(t, st, p, q, front, ns);
    StepSettles(t, st, q, front, ns);
  }

  lemma StepChangesListed(t: Tree, st: Settings, p: Page, q: Page, front: seq<NodeId>, ns: seq<NodeId>)
    requires WellFormed(t) && PageOf(t, p) && PageOf(t, q) && ns != [] && front == ns[..|ns| - 1]
    requires ns[|ns| - 1] < |t.kind|
    requires forall j | 0 <= j < |t.kind| && q.content[j] != p.content[j] :: j in front
    ensures var r := TextStep(t, st, q, ns[|ns| - 1]);
      forall j | 0 <= j < |t.kind| && r.content[j] != p.content[j] :: j in ns
  {
    var i := ns[|ns| - 1];
    var r := TextStep(t, st, q, i);
    TextStepEffect(t, st, q, i);
    forall j | 0 <= j < |t.kind| && r.content[j] != p.content[j]
      ensures j in ns
    {
      if j != i {
        assert j in front;
      }
    }
  }

  lemma StepSettles(t: Tree, st: Settings, q: Page, front: seq<NodeId>, ns: seq<NodeId>)
    requires WellFormed(t) && PageOf(t, q) && ns != [] && front == ns[..|ns| - 1]
    requires forall k | 0 <= k < |ns| :: ns[k] < |t.kind| && t.parent[ns[k]].Some?
    requires forall k | 0 <= k < |front| ::
      t.parent[front[k]].value in q.marked || ProcessText(st, q.content[front[k]]) == q.content[front[k]]
    ensures var r := TextStep(t, st, q, ns[|ns| - 1]);
      forall k | 0 <= k < |ns| ::
        t.parent[ns[k]].value in r.marked || ProcessText(st, r.content[ns[k]]) == r.content[ns[k]]
  {
    var i := ns[|ns| - 1];
    var r := TextStep(t, st, q, i);
    TextStepEffect(t, st, q, i);
    forall k | 0 <= k < |ns|
      ensures t.parent[ns[k]].value in r.marked || ProcessText(st, r.content[ns[k]]) == r.content[ns[k]]
    {
      if ns[k] != i {
        assert ns[k] == front[k];
      }
    }
  }

  /** processElement on element e. */
  function ElementStep(t: Tree, st: Settings, p: Page, e: NodeId): (r: Page)
    requires WellFormed(t) && PageOf(t, p) && e < |t.kind| && t.kind[e].Element?
    ensures PageOf(t, r)
  {
    if !ShouldProcessElement(t.kind[e]) then p
    else TextSteps(t, st, p, TextNodesOf(t, p.marked, e))
  }

  /**
   * processElement is a run of steps that changes only text nodes strictly
   * inside e's subtree that the walker accepts at the start, and nothing at
   * all for an element that may not be processed.
   */
  lemma ElementStepProgress(t: Tree, st: Settings, p: Page, e: NodeId)
    requires WellFormed(t) && PageOf(t, p) && e < |t.kind| && t.kind[e].Element?
    ensures var r := ElementStep(t, st, p, e);
      && Progress(t, st, p, r)
      && (!ShouldProcessElement(t.kind[e]) ==> r == p)
      && (forall j | 0 <= j < |t.kind| && r.content[j] != p.content[j] ::
            e < j < t.extent[e] && Accepted(t, p.marked, j))
  {
    if ShouldProcessElement(t.kind[e]) {
      TextStepsProgress(t, st, p, TextNodesOf(t, p.marked, e));
    } else {
      ProgressRefl(t, st, p);
    }
  }

  /** A run over nodes whose parents are unmarked and whose texts processText leaves as they are changes nothing. */
  lemma {:induction false} SettledRunKeeps(t: Tree, st: Settings, p: Page, ns: seq<NodeId>)
    requires WellFormed(t) && PageOf(t, p)
    requires forall k | 0 <= k < |ns| :: ns[k] < |t.kind| && t.kind[ns[k]].Text? && t.parent[ns[k]].Some?
    requires forall k | 0 <= k < |ns| ::
      t.parent[ns[k]].value !in p.marked && ProcessText(st, p.content[ns[k]]) == p.content[ns[k]]
    ensures TextSteps(t, st, p, ns) == p
    decreases |ns|
  {
    if ns != [] {
      SettledRunKeeps(t, st, p, ns[..|ns| - 1]);
      TextStepEffect(t, st, p, ns[|ns| - 1]);
    }
  }

  /**
   * processElement twice on the same element is processElement once: every
   * node the second walk accepts was accepted by the first and either marked
   * its parent or came out as processText leaves it.
   */
  lemma ElementStepIdempotent(t: Tree, st: Settings, p: Page, e: NodeId)
    requires WellFormed(t) && PageOf(t, p) && e < |t.kind| && t.kind[e].Element?
    ensures ElementStep(t, st, ElementStep(t, st, p, e), e) == ElementStep(t, st, p, e)
  {
    if ShouldProcessElement(t.kind[e]) {
      var first := TextNodesOf(t, p.marked, e);
      var r := ElementStep(t, st, p, e);
      assert r == TextSteps(t, st, p, first);
      TextStepsProgress(t, st, p, first);
      var second := TextNodesOf(t, r.marked, e);
      forall k | 0 <= k < |second|
        ensures t.parent[second[k]].value !in r.marked && ProcessText(st, r.content[second[k]]) == r.content[second[k]]
      {
        var j := second[k];
        assert Accepted(t, p.marked, j);
        assert j in first;
      }
      SettledRunKeeps(t, st, r, second);
    }
  }

  /** processPage: nothing once body is marked; otherwise mark body, then processElement(body). */
  function PageStep(t: Tree, st: Settings, p: Page): (r: Page)
    requires WellFormed(t) && PageOf(t, p)
    ensures PageOf(t, r)
  {
    if t.body in p.marked then p
    else ElementStep(t, st, Page(p.content, p.marked + {t.body}), t.body)
  }

  /**
   * processPage leaves body marked; once it is, a call changes nothing.
   * Otherwise it is a run of steps from the page with body marked, so body's
   * own text children are never rewritten.
   */
  lemma PageStepEffect(t: Tree, st: Settings, p: Page)
    requires WellFormed(t) && PageOf(t, p)
    ensures var r := PageStep(t, st, p);
      && t.body in r.marked
      && (t.body in p.marked ==> r == p)
      && (t.body !in p.marked ==> Progress(t, st, Page(p.content, p.marked + {t.body}), r))
      && (forall j | 0 <= j < |t.kind| && t.parent[j] == Some(t.body) :: r.content[j] == p.content[j])
  {
    if t.body !in p.marked {
      ElementStepProgress(t, st, Page(p.content, p.marked + {t.body}), t.body);
    }
  }

  /** A second processPage does nothing. */
  lemma PageStepIdempotent(t: Tree, st: Settings, p: Page)
    requires WellFormed(t) && PageOf(t, p)
    ensures PageStep(t, st, PageStep(t, st, p)) == PageStep(t, st, p)
  {
    PageStepEffect(t, st, p);
  }

  /** The callback on one added node: an unmarked element is walked, a text node with an unmarked parent is processed. */
  function AddedStep(t: Tree, st: Settings, p: Page, a: NodeId): (r: Page)
    requires WellFormed(t) && PageOf(t, p) && a < |t.kind|
    ensures PageOf(t, r)
  {
    if t.kind[a].Element? && a !in p.marked then ElementStep(t, st, p, a)
    else if t.kind[a].Text? && t.parent[a].Some? && t.parent[a].value !in p.marked then TextStep(t, st, p, a)
    else p
  }

  /** The callback's step is a run of steps, and ignores other nodes, marked elements and text under a marked or missing parent. */
  lemma AddedStepProgress(t: Tree, st: Settings, p: Page, a: NodeId)
    requires WellFormed(t) && PageOf(t, p) && a < |t.kind|
    ensures var r := AddedStep(t, st, p, a);
      && Progress(t, st, p, r)
      && (t.kind[a].Other? ==> r == p)
      && (t.kind[a].Element? && a in p.marked ==> r == p)
      && (t.kind[a].Text? && (t.parent[a].None? || t.parent[a].value in p.marked) ==> r == p)
  {
    if t.kind[a].Element? && a !in p.marked {
      ElementStepProgress(t, st, p, a);
    } else if t.kind[a].Text? && t.parent[a].Some? && t.parent[a].value !in p.marked {
      TextStepProgress(t, st, p, a);
    } else {
      ProgressRefl(t, st, p);
    }
  }

  /**
   * The callback tests only the parent's mark, not shouldProcessElement: an
   * added text node under an excluded or editable parent, which the walker's
   * filter refuses, is still rewritten, and its parent is marked.
   */
  lemma AddedTextUnderExcludedParent(t: Tree, st: Settings, p: Page, a: NodeId)
    requires WellFormed(t) && PageOf(t, p) && a < |t.kind|
    requires t.kind[a].Text? && t.parent[a].Some? && t.parent[a].value !in p.marked
    requires !ShouldProcessElement(t.kind[t.parent[a].value])
    requires ProcessText(st, p.content[a]) != p.content[a]
    ensures !Accepted(t, p.marked, a)
    ensures AddedStep(t, st, p, a).content[a] == ProcessText(st, p.content[a])
    ensures t.parent[a].value in AddedStep(t, st, p, a).marked
  {
    TextStepEffect(t, st, p, a);
  }

  /** The callback on a list of added nodes, in order. */
  function AddedSteps(t: Tree, st: Settings, p: Page, added: seq<NodeId>): (r: Page)
    requires WellFormed(t) && PageOf(t, p)
    requires forall k | 0 <= k < |added| :: added[k] < |t.kind|
    ensures PageOf(t, r)
    decreases |added|
  {
    if added == [] then p
    else AddedStep(t, st, AddedSteps(t, st, p, added[..|added| - 1]), added[|added| - 1])
  }

  /** A whole batch is a run of steps: each text node changes at most once, to processText of its text. */
  lemma {:induction false} AddedStepsProgress(t: Tree, st: Settings, p: Page, added: seq<NodeId>)
    requires WellFormed(t) && PageOf(t, p)
    requires forall k | 0 <= k < |added| :: added[k] < |t.kind|
    ensures Progress(t, st, p, AddedSteps(t, st, p, added))
    decreases |added|
  {
    if added == [] {
      ProgressRefl(t, st, p);
    } else {
      var q := AddedSteps(t, st, p, added[..|added| - 1]);
      AddedStepsProgress(t, st, p, added[..|added| - 1]);
      AddedStepProgress(t, st, q, added[|added| - 1]);
      ProgressTrans(t, st, p, q, AddedSteps(t, st, p, added));
    }
  }

  /** The added nodes of a batch of mutation records, record by record. */
  function AddedNodes(mutations: seq<seq<NodeId>>): (added: seq<NodeId>)
    ensures forall k | 0 <= k < |added| :: exists m | 0 <= m < |mutations| :: added[k] in mutations[m]
    ensures forall m, a | 0 <= m < |mutations| && a in mutations[m] :: a in added
    decreases |mutations|
  {
    if mutations == [] then []
    else AddedNodes(mutations[..|mutations| - 1]) + mutations[|mutations| - 1]
  }

  /** The added nodes of two runs of records are those of the first run followed by those of the second. */
  lemma {:induction false} AddedNodesAppend(a: seq<seq<NodeId>>, b: seq<seq<NodeId>>)
    ensures AddedNodes(a + b) == AddedNodes(a) + AddedNodes(b)
    decreases |b|
  {
    if b == [] {
      assert a + b == a;
    } else {
      assert (a + b)[..|a + b| - 1] == a + b[..|b| - 1];
      AddedNodesAppend(a, b[..|b| - 1]);
    }
  }

  /**
   * Record by record: the nodes of record m come, in their own order, right
   * after those of the records before it and right before those after it.
   */
  lemma AddedNodesInOrder(mutations: seq<seq<NodeId>>, m: nat)
    requires m < |mutations|
    ensures AddedNodes(mutations) ==
      AddedNodes(mutations[..m]) + mutations[m] + AddedNodes(mutations[m + 1..])
  {
    var before, one, after := mutations[..m], [mutations[m]], mutations[m + 1..];
    SplitAround(mutations, m);
    AddedNodesAppend(before + one, after);
    AddedNodesAppend(before, one);
    AddedNodeOfOne(mutations[m]);
  }

  lemma SplitAround(xs: seq<seq<NodeId>>, m: nat)
    requires m < |xs|
    ensures xs == (xs[..m] + [xs[m]]) + xs[m + 1..]
  {
  }

  lemma AddedNodeOfOne(record: seq<NodeId>)
    ensures AddedNodes([record]) == record
  {
    assert [record][..0] == [];
  }

  /** Handling two lists of added nodes one after the other is handling their concatenation. */
  lemma {:induction false} AddedStepsAppend(t: Tree, st: Settings, p: Page, a: seq<NodeId>, b: seq<NodeId>)
    requires WellFormed(t) && PageOf(t, p)
    requires forall k | 0 <= k < |a| :: a[k] < |t.kind|
    requires forall k | 0 <= k < |b| :: b[k] < |t.kind|
    ensures forall k | 0 <= k < |a + b| :: (a + b)[k] < |t.kind|
    ensures AddedSteps(t, st, p, a + b) == AddedSteps(t, st, AddedSteps(t, st, p, a), b)
    decreases |b|
  {
    if b == [] {
      assert a + b == a;
    } else {
      assert (a + b)[..|a + b| - 1] == a + b[..|b| - 1];
      AddedStepsAppend(t, st, p, a, b[..|b| - 1]);
    }
  }
}
