/** The tree builder over SAX events (XMLNode and XMLParser in docs/python/doxygenlib/cdParser.py). */
module XmlParser {

  import opened Options
  import opened XmlEvents

  class XMLNode {
    const parent: XMLNode?
    const name: string
    const attrs: Option<Attrs>
    const text: Option<string>
    var childNodes: seq<XMLNode>

    constructor (parent: XMLNode?, name: string, attrs: Option<Attrs>, text: Option<string>)
      ensures this.parent == parent && this.name == name && this.attrs == attrs && this.text == text
      ensures childNodes == []
    {
      this.parent, this.name, this.attrs, this.text := parent, name, attrs, text;
      childNodes := [];
    }

    method AddChildNode(node: XMLNode)
      modifies this
      ensures childNodes == old(childNodes) + [node]
    {
      childNodes := childNodes + [node];
    }
  }

  // ---------------------------------------------------------------- nodes as trees

  /** The node is the root of this tree, all of it among these nodes, and children know their parents. */
  ghost predicate Shows(n: XMLNode, t: Tree, nodes: set<XMLNode>)
    reads nodes
    decreases t
  {
    n in nodes &&
    match t
    case Text(text) => n.name == "#text" && n.attrs == None && n.text == Some(text) && n.childNodes == []
    case Element(name, attrs, children) =>
      n.name == name && n.attrs == Some(attrs) && n.text == None && |n.childNodes| == |children|
      && forall i | 0 <= i < |children| :: n.childNodes[i].parent == n && Shows(n.childNodes[i], children[i], nodes)
  }

  /** The children of an open node, which are closed. */
  ghost predicate ShowsAll(parent: XMLNode?, ns: seq<XMLNode>, ts: seq<Tree>, nodes: set<XMLNode>)
    reads nodes
  {
    |ns| == |ts| && forall i | 0 <= i < |ts| :: ns[i].parent == parent && Shows(ns[i], ts[i], nodes)
  }

  lemma {:induction false} ShowsMore(n: XMLNode, t: Tree, nodes: set<XMLNode>, more: set<XMLNode>)
    requires Shows(n, t, nodes) && nodes <= more
    ensures Shows(n, t, more)
    decreases t
  {
    if t.Element? {
      forall i | 0 <= i < |t.children| ensures Shows(n.childNodes[i], t.children[i], more) {
        ShowsMore(n.childNodes[i], t.children[i], nodes, more);
      }
    }
  }

  lemma ShowsAllMore(parent: XMLNode?, ns: seq<XMLNode>, ts: seq<Tree>, nodes: set<XMLNode>, more: set<XMLNode>)
    requires ShowsAll(parent, ns, ts, nodes) && nodes <= more
    ensures ShowsAll(parent, ns, ts, more)
  {
    forall i | 0 <= i < |ts| ensures Shows(ns[i], ts[i], more) {
      ShowsMore(ns[i], ts[i], nodes, more);
    }
  }

  /** An open node and what the stack says of it. */
  ghost predicate Opens(n: XMLNode, s: Stack, nodes: set<XMLNode>)
    requires s.Push?
    reads n, nodes
  {
    n.name == s.name && n.attrs == Some(s.attrs) && n.text == None && ShowsAll(n, n.childNodes, s.children, nodes)
  }

  lemma OpensMore(n: XMLNode, s: Stack, nodes: set<XMLNode>, more: set<XMLNode>)
    requires s.Push? && Opens(n, s, nodes) && nodes <= more
    ensures Opens(n, s, more)
  {
    ShowsAllMore(n, n.childNodes, s.children, nodes, more);
  }

  /** The open nodes, from the innermost out along the parents; the outermost is this root. */
  ghost predicate Chain(n: XMLNode?, s: Stack, open: set<XMLNode>, closed: set<XMLNode>, root: XMLNode?)
    reads open, closed
    decreases s
  {
    match s
    case Empty => n == null
    case Push(_, _, _, below) =>
      n != null && n in open && n !in closed && Opens(n, s, closed) && (below.Empty? ==> n == root)
      && Chain(n.parent, below, open - {n}, closed, root)
  }

  lemma {:induction false} ChainMore(n: XMLNode?, s: Stack, open: set<XMLNode>, closed: set<XMLNode>,
                                     more: set<XMLNode>, root: XMLNode?)
    requires Chain(n, s, open, closed, root) && closed <= more && open !! more
    ensures Chain(n, s, open, more, root)
    decreases s
  {
    if s.Push? {
      OpensMore(n, s, closed, more);
      ChainMore(n.parent, s.below, open - {n}, closed, more, root);
    }
  }

  lemma ChainParent(n: XMLNode, s: Stack, open: set<XMLNode>, closed: set<XMLNode>, root: XMLNode?)
    requires s.Push? && Chain(n, s, open, closed, root)
    ensures s.below.Push? ==> n.parent != null && n.parent in open - {n} && n.parent !in closed
                              && Opens(n.parent, s.below, closed) && (s.below.below.Empty? ==> n.parent == root)
                              && Chain(n.parent.parent, s.below.below, open - {n} - {n.parent}, closed, root)
    ensures s.below.Empty? ==> n.parent == null && n == root
  {
    assert Chain(n.parent, s.below, open - {n}, closed, root);
  }

  // ---------------------------------------------------------------- the parser

  class XMLParser {
    var curNode: XMLNode?
    var rootNodes: seq<XMLNode>
    var curDepth: int
    var textNode: seq<string>

    /** What was built, the closed nodes and the open ones, the closed roots and the open one. */
    ghost var model: State
    ghost var closed: set<XMLNode>
    ghost var open: set<XMLNode>
    ghost var roots: seq<XMLNode>
    ghost var outer: XMLNode?

    /** The text stack is as long as there are open elements, and all but its last text is empty. */
    ghost predicate TextsFit()
      reads `curDepth, `textNode, `model
    {
      |textNode| == curDepth + 1 == Depth(model.stack)
      && (forall i | 0 <= i < curDepth :: textNode[i] == [])
      && model.text == if curDepth >= 0 then textNode[curDepth] else []
    }

    ghost predicate RootsFit()
      reads `rootNodes, `model, `closed, `roots, `outer, closed
    {
      ShowsAll(null, roots, model.roots, closed)
      && if model.stack.Empty? then rootNodes == roots else outer != null && rootNodes == roots + [outer]
    }

    ghost predicate NodesFit()
      reads `curNode, `model, `closed, `open, `outer, open, closed
    {
      open !! closed && Chain(curNode, model.stack, open, closed, outer)
    }

    ghost predicate Valid()
      reads this, open, closed
    {
      TextsFit() && RootsFit() && NodesFit()
    }

    constructor ()
      ensures Valid() && model == START && open == {} && closed == {}
    {
      curNode, rootNodes, curDepth, textNode := null, [], -1, [];
      model, closed, open, roots, outer := START, {}, {}, [], null;
    }

    method StartNode(name: string, attrs: Option<Attrs>, text: Option<string>)
      modifies `curNode, `rootNodes
      ensures curNode != null && fresh(curNode) && curNode.parent == old(curNode)
      ensures curNode.name == name && curNode.attrs == attrs && curNode.text == text && curNode.childNodes == []
      ensures rootNodes == if old(curNode) == null then old(rootNodes) + [curNode] else old(rootNodes)
    {
      var node := new XMLNode(curNode, name, attrs, text);
      curNode := node;
      if node.parent == null {
        rootNodes := rootNodes + [node];
      }
    }

    method EndNode()
      requires curNode != null
      modifies `curNode, if curNode == null || curNode.parent == null then {} else {curNode.parent}
      ensures curNode == old(curNode.parent)
      ensures curNode != null ==> curNode.childNodes == old(curNode.parent.childNodes) + [old(curNode)]
    {
      var node := curNode;
      if node.parent != null {
        node.parent.AddChildNode(node);
      }
      curNode := node.parent;
    }

    /** A closed child for the innermost open node. */
    ghost method Adopt(before: seq<XMLNode>, child: XMLNode, t: Tree)
      requires model.stack.Push? && RootsFit()
      requires open !! closed && child !in open && Shows(child, t, closed + {child})
      requires curNode != null && curNode in open && (model.stack.below.Empty? ==> curNode == outer)
      requires curNode.name == model.stack.name && curNode.attrs == Some(model.stack.attrs) && curNode.text == None
      requires curNode.childNodes == before + [child] && child.parent == curNode
      requires ShowsAll(curNode, before, model.stack.children, closed)
      requires Chain(curNode.parent, model.stack.below, open - {curNode}, closed, outer)
      modifies `closed, `model
      ensures NodesFit() && RootsFit() && closed == old(closed) + {child} && model == Add(old(model), t)
    {
      var more := closed + {child};
      ShowsAllMore(curNode, before, model.stack.children, closed, more);
      ChainMore(curNode.parent, model.stack.below, open - {curNode}, closed, more, outer);
      ShowsAllMore(null, roots, model.roots, closed, more);
      closed, model := more, Add(model, t);
    }

    /** The text at hand becomes a node, between other nodes; the handlers then take it off the stack. */
    method FlushText(text: string)
      requires NodesFit() && RootsFit() && model.stack.Push? && text == model.text != []
      modifies `curNode, `rootNodes, `model, `closed, open
      ensures NodesFit() && RootsFit() && model == Flush(old(model))
      ensures rootNodes == old(rootNodes) && old(closed) <= closed && fresh(closed - old(closed))
    {
      ghost var before := curNode.childNodes;
      StartNode("#text", None, Some(text));
      ghost var t := curNode;
      EndNode();
      Adopt(before, t, Text(model.text));
      model := model.(text := []);
    }

    /** A new open node, which is in no other place. */
    method OpenNode(name: string, attrs: Attrs)
      requires NodesFit() && RootsFit()
      modifies `curNode, `rootNodes, `model, `open, `outer
      ensures NodesFit() && RootsFit() && model == old(model).(stack := Push(name, attrs, [], old(model).stack))
      ensures old(rootNodes) <= rootNodes
      ensures old(open) <= open && fresh(open - old(open))
    {
      StartNode(name, Some(attrs), None);
      assert (open + {curNode}) - {curNode} == open;
      if model.stack.Empty? {
        outer := curNode;
      }
      open := open + {curNode};
      model := model.(stack := Push(name, attrs, [], model.stack));
    }

    method StartElement(name: string, attrs: Attrs)
      requires Valid()
      modifies this, open
      ensures Valid() && model == Step(old(model), Start(name, attrs))
      ensures old(rootNodes) <= rootNodes && fresh(open - old(open))
    {
      hide NodesFit, RootsFit;
      StepRoots(model, Start(name, attrs));
      if curDepth >= 0 && textNode[curDepth] != [] {
        FlushText(textNode[curDepth]);
        textNode := textNode[curDepth := []];
      }
      curDepth := curDepth + 1;
      textNode := textNode + [[]];
      OpenNode(name, attrs);
    }

    /** The outermost node has closed. */
    ghost method AdoptRoot(root: XMLNode, t: Tree)
      requires model.stack.Empty? && rootNodes == roots + [root] && ShowsAll(null, roots, model.roots, closed)
      requires root.parent == null && curNode == null && Shows(root, t, closed + {root}) && open !! closed + {root}
      modifies `closed, `model, `roots
      ensures NodesFit() && RootsFit() && closed == old(closed) + {root} && model == Add(old(model), t)
    {
      ShowsAllMore(null, roots, model.roots, closed, closed + {root});
      roots := rootNodes;
      closed, model := closed + {root}, Add(model, t);
    }

    /** The innermost open node has closed. */
    ghost method Settle(node: XMLNode, before: seq<XMLNode>)
      requires model.stack.Push? && RootsFit() && node in open && open !! closed
      requires node.parent == curNode && Opens(node, model.stack, closed)
      requires model.stack.below.Empty? ==> curNode == null && node == outer
      requires model.stack.below.Push? ==>
                 var below := model.stack.below;
                 curNode != null && curNode in open - {node} && (below.below.Empty? ==> curNode == outer)
                 && curNode.name == below.name && curNode.attrs == Some(below.attrs) && curNode.text == None
                 && curNode.childNodes == before + [node] && ShowsAll(curNode, before, below.children, closed)
                 && Chain(curNode.parent, below.below, open - {node} - {curNode}, closed, outer)
      modifies `model, `closed, `open, `roots
      ensures NodesFit() && RootsFit() && model == Close(old(model))
      ensures open <= old(open)
    {
      var stack := model.stack;
      var t := Element(stack.name, stack.attrs, stack.children);
      OpensMore(node, stack, closed, closed + {node});
      open, model := open - {node}, model.(stack := stack.below);
      if stack.below.Empty? {
        AdoptRoot(node, t);
      } else {
        Adopt(before, node, t);
      }
    }

    /** The innermost open node closes. */
    method CloseNode()
      requires NodesFit() && RootsFit() && model.stack.Push?
      modifies `curNode, `model, `closed, `open, `roots, open
      ensures NodesFit() && RootsFit() && model == Close(old(model))
      ensures open <= old(open)
    {
      ghost var node, stack := curNode, model.stack;
      ChainParent(node, stack, open, closed, outer);
      ghost var before := if stack.below.Push? then node.parent.childNodes else [];
      EndNode();
      Settle(node, before);
    }

    method EndElement(name: string)
      requires Valid() && curDepth >= 0
      modifies this, open
      ensures Valid() && model == Step(old(model), End(name))
      ensures rootNodes == old(rootNodes) && fresh(open - old(open))
    {
      hide NodesFit, RootsFit;
      StepRoots(model, End(name));
      if textNode[curDepth] != [] {
        FlushText(textNode[curDepth]);
      }
      curDepth := curDepth - 1;
      textNode := textNode[..|textNode| - 1];
      CloseNode();
    }

    method Characters(ch: string)
      requires Valid() && (curDepth >= 0 || Strip(ch) == [])
      modifies this
      ensures Valid() && model == Step(old(model), Chars(ch))
      ensures rootNodes == old(rootNodes) && open == old(open) && closed == old(closed)
    {
      var stripped := Strip(ch);
      if stripped != [] {
        textNode := textNode[curDepth := textNode[curDepth] + stripped];
      }
      model := Step(model, Chars(ch));
    }
  }

  // ---------------------------------------------------------------- whole documents

  /** One event, as the reader reports it. */
  method Report(p: XMLParser, e: Event)
    requires p.Valid() && Possible(p.model, e)
    modifies p, p.open
    ensures p.Valid() && p.model == Step(old(p.model), e)
    ensures old(p.rootNodes) <= p.rootNodes && fresh(p.open - old(p.open))
  {
    match e {
      case Start(name, attrs) => p.StartElement(name, attrs);
      case End(name) => p.EndElement(name);
      case Chars(text) => p.Characters(text);
    }
  }

  /** Events that leave nothing open build what the specification runs to. */
  method ReportAll(p: XMLParser, events: seq<Event>)
    requires p.Valid() && WellNested(events, NamesOf(p.model.stack))
    modifies p, p.open
    ensures p.Valid() && p.model == Run(old(p.model), events)
    ensures old(p.rootNodes) <= p.rootNodes
  {
    for i := 0 to |events|
      invariant p.Valid() && WellNested(events[i..], NamesOf(p.model.stack))
      invariant Run(p.model, events[i..]) == Run(old(p.model), events)
      invariant old(p.rootNodes) <= p.rootNodes && fresh(p.open - old(p.open))
    {
      assert events[i..][0] == events[i] && events[i..][1..] == events[i + 1..];
      FirstIsPossible(p.model, events[i..]);
      StepKeepsNesting(p.model, events[i..]);
      Report(p, events[i]);
    }
  }

  /**
   A well-nested document, read with nothing open: afterwards nothing is open again, and the
   new roots show the trees whose trace is the events, with text merged.
   */
  method Parse(p: XMLParser, events: seq<Event>) returns (ghost trees: seq<Tree>)
    requires p.Valid() && p.curNode == null && WellNested(events, [])
    modifies p, p.open
    ensures p.Valid() && p.curNode == null && p.curDepth == -1 && p.textNode == []
    ensures old(p.rootNodes) <= p.rootNodes && |p.rootNodes| == |old(p.rootNodes)| + Documents(events, 0)
    ensures ShowsAll(null, p.rootNodes[|old(p.rootNodes)|..], trees, p.closed)
    ensures Traces(trees) == Clean(events, [])
  {
    hide Run, Clean, Documents, Shows;
    ghost var before := p.model;
    assert before.stack == Empty;
    ReportAll(p, events);
    TraceIsClean(before, events);
    RootsAreDocuments(before, events);
    ghost var roots := p.model.roots;
    trees := roots[|before.roots|..];
    assert roots == before.roots + trees;
    TracesConcat(before.roots, trees);
    assert StateTrace(before) == Traces(before.roots);
    Cancel(Traces(before.roots), Traces(trees), Clean(events, []));
  }

  lemma Cancel<T>(a: seq<T>, b: seq<T>, c: seq<T>)
    requires a + b == a + c
    ensures b == c
  {
    assert b == (a + b)[|a|..] && c == (a + c)[|a|..];
  }
}
