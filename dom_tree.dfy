/** The parsed document that update_html.py edits: a forest of element, text
    and comment nodes, with the searches, the single-node edits, the removal
    of nodes and the anchor rewrite the script performs on it. Nodes are
    values; a document is the sequence of the root's children. */
module DomTree {
  import opened TextOps

  datatype Option<T> = None | Some(value: T)

  datatype Node =
    | Element(name: string, attrs: map<string, string>, children: seq<Node>)
    | Text(text: string)
    | Comment(text: string)

  /** A node without its children: what a search tests and what an attribute
      write changes. */
  datatype Label =
    | ElementLabel(name: string, attrs: map<string, string>)
    | TextLabel(text: string)
    | CommentLabel(text: string)

  function LabelOf(n: Node): Label {
    match n
    case Element(name, attrs, _) => ElementLabel(name, attrs)
    case Text(t) => TextLabel(t)
    case Comment(t) => CommentLabel(t)
  }

  function FoundLabel(o: Option<Node>): Option<Label> {
    if o.Some? then Some(LabelOf(o.value)) else None
  }

  /** The searches the script runs over the document. */
  datatype Query =
    | PreviewScripts  // a `script` element whose `src` is `/preview.js`, ignoring case
    | Bodies          // a `body` element
    | OpenAnchors     // an `a` element without a `target` attribute
    | CspMetas        // a `meta` element whose `http-equiv` names a CSP header, ignoring case
    | Comments        // a comment node

  const PreviewSrc: string := "/preview.js"

  /** The whole-value, case-insensitive `http-equiv` pattern of update_html.py:139-141. */
  predicate IsCspHeader(v: string) {
    MatchesIgnoreCase(v, "content-security-policy") || MatchesIgnoreCase(v, "x-content-security-policy")
  }

  predicate Matches(q: Query, l: Label) {
    match q
    case PreviewScripts =>
      l.ElementLabel? && l.name == "script" && "src" in l.attrs && MatchesIgnoreCase(l.attrs["src"], PreviewSrc)
    case Bodies => l.ElementLabel? && l.name == "body"
    case OpenAnchors => l.ElementLabel? && l.name == "a" && "target" !in l.attrs
    case CspMetas =>
      l.ElementLabel? && l.name == "meta" && "http-equiv" in l.attrs && IsCspHeader(l.attrs["http-equiv"])
    case Comments => l.CommentLabel?
  }

  // ---------------------------------------------------------------------
  // Searching

  /** The number of matching nodes, at any depth. */
  function CountIn(ns: seq<Node>, q: Query): nat
    decreases ns
  {
    if ns == [] then 0 else CountAt(ns[0], q) + CountIn(ns[1..], q)
  }

  function CountAt(n: Node, q: Query): nat
    decreases n
  {
    (if Matches(q, LabelOf(n)) then 1 else 0) + (if n.Element? then CountIn(n.children, q) else 0)
  }

  /** `find`: the first matching node in document order (a node before its
      children, children before the following siblings). */
  function FirstIn(ns: seq<Node>, q: Query): Option<Node>
    decreases ns
  {
    if ns == [] then None
    else
      var f := FirstAt(ns[0], q);
      if f.Some? then f else FirstIn(ns[1..], q)
  }

  function FirstAt(n: Node, q: Query): Option<Node>
    decreases n
  {
    if Matches(q, LabelOf(n)) then Some(n)
    else if n.Element? then FirstIn(n.children, q)
    else None
  }

  // ---------------------------------------------------------------------
  // Editing the first match

  /** The two in-place edits the script makes on a found element. */
  datatype Edit = AppendChild(child: Node) | SetAttr(key: string, value: string)

  function ApplyEdit(e: Edit, n: Node): Node {
    if !n.Element? then n
    else match e
      case AppendChild(c) => n.(children := n.children + [c])
      case SetAttr(k, v) => n.(attrs := n.attrs[k := v])
  }

  /** An edit that no search can notice on the edited node itself. */
  predicate Inert(e: Edit) {
    e.AppendChild? || (e.key != "src" && e.key != "target" && e.key != "http-equiv")
  }

  /** The matches an edit adds below the edited node. */
  function Added(e: Edit, q: Query): nat {
    if e.AppendChild? then CountAt(e.child, q) else 0
  }

  /** The document with `e` applied to the first node matching `q`. */
  function UpdateFirstIn(ns: seq<Node>, q: Query, e: Edit): seq<Node>
    decreases ns
  {
    if ns == [] then []
    else if FirstAt(ns[0], q).Some? then [UpdateFirstAt(ns[0], q, e)] + ns[1..]
    else [ns[0]] + UpdateFirstIn(ns[1..], q, e)
  }

  function UpdateFirstAt(n: Node, q: Query, e: Edit): Node
    decreases n
  {
    if Matches(q, LabelOf(n)) then ApplyEdit(e, n)
    else if n.Element? then n.(children := UpdateFirstIn(n.children, q, e))
    else n
  }

  // ---------------------------------------------------------------------
  // Removing matches

  /** The document with every matching node (and what it holds) extracted. */
  function PruneIn(ns: seq<Node>, q: Query): seq<Node>
    decreases ns
  {
    if ns == [] then []
    else (if Matches(q, LabelOf(ns[0])) then [] else [PruneAt(ns[0], q)]) + PruneIn(ns[1..], q)
  }

  function PruneAt(n: Node, q: Query): Node
    decreases n
  {
    if n.Element? then n.(children := PruneIn(n.children, q)) else n
  }

  // ---------------------------------------------------------------------
  // Anchors

  const BlankTarget: string := "_blank"
  const SafeRel: string := "noopener noreferrer"

  /** What update_html.py:121-122 write on an anchor without `target`. */
  function HardenAttrs(attrs: map<string, string>): map<string, string> {
    attrs["target" := BlankTarget]["rel" := SafeRel]
  }

  function HardenLabel(l: Label): Label {
    if Matches(OpenAnchors, l) then l.(attrs := HardenAttrs(l.attrs)) else l
  }

  /** Every anchor without `target`, at any depth, given the two attributes. */
  function HardenIn(ns: seq<Node>): seq<Node>
    decreases ns
  {
    if ns == [] then [] else [HardenAt(ns[0])] + HardenIn(ns[1..])
  }

  function HardenAt(n: Node): Node
    decreases n
  {
    if n.Element? then
      Element(n.name, if Matches(OpenAnchors, LabelOf(n)) then HardenAttrs(n.attrs) else n.attrs, HardenIn(n.children))
    else n
  }

  // ---------------------------------------------------------------------
  // Document order

  /** One node of the document in document order, with its depth. */
  datatype Entry = Entry(depth: nat, item: Label)

  /** The nodes in document order: the order of `find_all`. */
  function FlattenIn(ns: seq<Node>, d: nat): seq<Entry>
    decreases ns
  {
    if ns == [] then [] else FlattenAt(ns[0], d) + FlattenIn(ns[1..], d)
  }

  function FlattenAt(n: Node, d: nat): seq<Entry>
    decreases n
  {
    [Entry(d, LabelOf(n))] + (if n.Element? then FlattenIn(n.children, d + 1) else [])
  }

  function CountEntries(es: seq<Entry>, q: Query): nat {
    if es == [] then 0 else (if Matches(q, es[0].item) then 1 else 0) + CountEntries(es[1..], q)
  }

  function HardenEntries(es: seq<Entry>): seq<Entry> {
    seq(|es|, i requires 0 <= i < |es| => Entry(es[i].depth, HardenLabel(es[i].item)))
  }

  function Uncommented(es: seq<Entry>): seq<Entry> {
    if es == [] then [] else (if es[0].item.CommentLabel? then [] else [es[0]]) + Uncommented(es[1..])
  }

  // ---------------------------------------------------------------------
  // Concatenation

  lemma {:induction false} CountInAppend(a: seq<Node>, b: seq<Node>, q: Query)
    ensures CountIn(a + b, q) == CountIn(a, q) + CountIn(b, q)
    decreases |a|
  {
    if a == [] {
      assert a + b == b;
    } else {
      assert (a + b)[1..] == a[1..] + b;
      CountInAppend(a[1..], b, q);
    }
  }

  lemma {:induction false} FirstInAppend(a: seq<Node>, b: seq<Node>, q: Query)
    ensures FirstIn(a + b, q) == if FirstIn(a, q).Some? then FirstIn(a, q) else FirstIn(b, q)
    decreases |a|
  {
    if a == [] {
      assert a + b == b;
    } else {
      assert (a + b)[0] == a[0];
      assert (a + b)[1..] == a[1..] + b;
      FirstInAppend(a[1..], b, q);
    }
  }

  lemma {:induction false} PruneInAppend(a: seq<Node>, b: seq<Node>, q: Query)
    ensures PruneIn(a + b, q) == PruneIn(a, q) + PruneIn(b, q)
    decreases |a|
  {
    if a == [] {
      assert a + b == b;
    } else {
      assert (a + b)[0] == a[0];
      assert (a + b)[1..] == a[1..] + b;
      PruneInAppend(a[1..], b, q);
    }
  }

  lemma Single(n: Node)
    ensures [n][1..] == []
  {
  }

  // ---------------------------------------------------------------------
  // Searching

  /** `find` succeeds exactly when some node matches, and what it returns matches. */
  lemma {:induction false} FirstCountIn(ns: seq<Node>, q: Query)
    ensures FirstIn(ns, q).Some? <==> CountIn(ns, q) > 0
    ensures FirstIn(ns, q).Some? ==> Matches(q, LabelOf(FirstIn(ns, q).value))
    decreases ns
  {
    if ns != [] {
      FirstCountAt(ns[0], q);
      FirstCountIn(ns[1..], q);
    }
  }

  lemma {:induction false} FirstCountAt(n: Node, q: Query)
    ensures FirstAt(n, q).Some? <==> CountAt(n, q) > 0
    ensures FirstAt(n, q).Some? ==> Matches(q, LabelOf(FirstAt(n, q).value))
    decreases n
  {
    if n.Element? {
      FirstCountIn(n.children, q);
    }
  }

  /** Counting the nodes in document order gives the same number. */
  lemma {:induction false} CountFlattenIn(ns: seq<Node>, q: Query, d: nat)
    ensures CountEntries(FlattenIn(ns, d), q) == CountIn(ns, q)
    decreases ns
  {
    if ns != [] {
      CountFlattenAt(ns[0], q, d);
      CountFlattenIn(ns[1..], q, d);
      CountEntriesAppend(FlattenAt(ns[0], d), FlattenIn(ns[1..], d), q);
    }
  }

  lemma {:induction false} CountFlattenAt(n: Node, q: Query, d: nat)
    ensures CountEntries(FlattenAt(n, d), q) == CountAt(n, q)
    decreases n
  {
    var head := [Entry(d, LabelOf(n))];
    var rest := if n.Element? then FlattenIn(n.children, d + 1) else [];
    CountEntriesAppend(head, rest, q);
    assert head[1..] == [];
    if n.Element? {
      CountFlattenIn(n.children, q, d + 1);
    }
  }

  lemma {:induction false} CountEntriesAppend(a: seq<Entry>, b: seq<Entry>, q: Query)
    ensures CountEntries(a + b, q) == CountEntries(a, q) + CountEntries(b, q)
    decreases |a|
  {
    if a == [] {
      assert a + b == b;
    } else {
      assert (a + b)[1..] == a[1..] + b;
      CountEntriesAppend(a[1..], b, q);
    }
  }

  // ---------------------------------------------------------------------
  // Editing the first match

  /** An inert edit leaves every search's verdict on the edited node alone. */
  lemma InertKeepsMatches(e: Edit, n: Node, q: Query)
    requires Inert(e)
    ensures Matches(q, LabelOf(ApplyEdit(e, n))) == Matches(q, LabelOf(n))
  {
    if n.Element? && e.SetAttr? {
      var a := n.attrs[e.key := e.value];
      assert ("src" in a) == ("src" in n.attrs) && ("src" in a ==> a["src"] == n.attrs["src"]);
      assert ("target" in a) == ("target" in n.attrs);
      assert ("http-equiv" in a) == ("http-equiv" in n.attrs);
      assert "http-equiv" in a ==> a["http-equiv"] == n.attrs["http-equiv"];
    }
  }

  /** Without a match the document is left as it is. */
  lemma {:induction false} UpdateFirstMissingIn(ns: seq<Node>, q: Query, e: Edit)
    requires FirstIn(ns, q).None?
    ensures UpdateFirstIn(ns, q, e) == ns
    decreases ns
  {
    if ns != [] {
      UpdateFirstMissingIn(ns[1..], q, e);
    }
  }

  /** The number of matches of any search changes only by what an inert edit
      adds below the edited node, and only when there was a node to edit. */
  lemma {:induction false} CountUpdateFirstIn(ns: seq<Node>, p: Query, e: Edit, q: Query)
    requires Inert(e) && p != Comments
    ensures CountIn(UpdateFirstIn(ns, p, e), q)
            == CountIn(ns, q) + (if FirstIn(ns, p).Some? then Added(e, q) else 0)
    decreases ns
  {
    if ns != [] {
      var r := UpdateFirstIn(ns, p, e);
      if FirstAt(ns[0], p).Some? {
        CountUpdateFirstAt(ns[0], p, e, q);
        assert r[1..] == ns[1..];
      } else {
        CountUpdateFirstIn(ns[1..], p, e, q);
        assert r[1..] == UpdateFirstIn(ns[1..], p, e);
      }
    }
  }

  lemma {:induction false} CountUpdateFirstAt(n: Node, p: Query, e: Edit, q: Query)
    requires Inert(e) && p != Comments
    ensures CountAt(UpdateFirstAt(n, p, e), q)
            == CountAt(n, q) + (if FirstAt(n, p).Some? then Added(e, q) else 0)
    decreases n
  {
    if Matches(p, LabelOf(n)) {
      InertKeepsMatches(e, n, q);
      if e.AppendChild? {
        CountInAppend(n.children, [e.child], q);
        Single(e.child);
      }
    } else if n.Element? {
      CountUpdateFirstIn(n.children, p, e, q);
    }
  }

  /** After an inert edit the search finds the node it found before, edited. */
  lemma {:induction false} FirstUpdateFirstIn(ns: seq<Node>, q: Query, e: Edit)
    requires Inert(e) && FirstIn(ns, q).Some?
    ensures FirstIn(UpdateFirstIn(ns, q, e), q) == Some(ApplyEdit(e, FirstIn(ns, q).value))
    decreases ns
  {
    var r := UpdateFirstIn(ns, q, e);
    if FirstAt(ns[0], q).Some? {
      FirstUpdateFirstAt(ns[0], q, e);
    } else {
      FirstUpdateFirstIn(ns[1..], q, e);
      assert r[1..] == UpdateFirstIn(ns[1..], q, e);
    }
  }

  lemma {:induction false} FirstUpdateFirstAt(n: Node, q: Query, e: Edit)
    requires Inert(e) && FirstAt(n, q).Some?
    ensures FirstAt(UpdateFirstAt(n, q, e), q) == Some(ApplyEdit(e, FirstAt(n, q).value))
    decreases n
  {
    if Matches(q, LabelOf(n)) {
      InertKeepsMatches(e, n, q);
    } else {
      FirstUpdateFirstIn(n.children, q, e);
    }
  }

  /** Appending a node that `q` does not match anywhere leaves what `q` finds
      unchanged, up to that node's children. */
  lemma {:induction false} FoundAfterAppendIn(ns: seq<Node>, p: Query, c: Node, q: Query)
    requires CountAt(c, q) == 0
    ensures FoundLabel(FirstIn(UpdateFirstIn(ns, p, AppendChild(c)), q)) == FoundLabel(FirstIn(ns, q))
    decreases ns
  {
    if ns != [] {
      var r := UpdateFirstIn(ns, p, AppendChild(c));
      FoundAfterAppendAt(ns[0], p, c, q);
      if FirstAt(ns[0], p).Some? {
        assert r[1..] == ns[1..];
      } else {
        FoundAfterAppendIn(ns[1..], p, c, q);
        assert r[1..] == UpdateFirstIn(ns[1..], p, AppendChild(c));
      }
    }
  }

  lemma {:induction false} FoundAfterAppendAt(n: Node, p: Query, c: Node, q: Query)
    requires CountAt(c, q) == 0
    ensures FoundLabel(FirstAt(UpdateFirstAt(n, p, AppendChild(c)), q)) == FoundLabel(FirstAt(n, q))
    decreases n
  {
    if n.Element? && !Matches(q, LabelOf(n)) {
      if Matches(p, LabelOf(n)) {
        FirstInAppend(n.children, [c], q);
        FirstCountAt(c, q);
        Single(c);
      } else {
        FoundAfterAppendIn(n.children, p, c, q);
      }
    }
  }

  // ---------------------------------------------------------------------
  // Anchors

  /** Only anchors without `target` are rewritten, and a rewritten anchor has a
      `target`; no other search notices the rewrite. */
  lemma HardenLabelFacts(l: Label, q: Query)
    ensures !Matches(OpenAnchors, HardenLabel(l))
    ensures !Matches(OpenAnchors, l) ==> HardenLabel(l) == l
    ensures q != OpenAnchors ==> Matches(q, HardenLabel(l)) == Matches(q, l)
  {
  }

  lemma HardenLabelOf(n: Node)
    ensures LabelOf(HardenAt(n)) == HardenLabel(LabelOf(n))
  {
  }

  /** After the rewrite no anchor lacks a `target`. */
  lemma {:induction false} HardenClearsIn(ns: seq<Node>)
    ensures CountIn(HardenIn(ns), OpenAnchors) == 0
    decreases ns
  {
    if ns != [] {
      HardenClearsAt(ns[0]);
      HardenClearsIn(ns[1..]);
    }
  }

  lemma {:induction false} HardenClearsAt(n: Node)
    ensures CountAt(HardenAt(n), OpenAnchors) == 0
    decreases n
  {
    HardenLabelOf(n);
    HardenLabelFacts(LabelOf(n), OpenAnchors);
    if n.Element? {
      HardenClearsIn(n.children);
    }
  }

  /** A document without an anchor lacking `target` is not changed. */
  lemma {:induction false} HardenNoneIn(ns: seq<Node>)
    requires CountIn(ns, OpenAnchors) == 0
    ensures HardenIn(ns) == ns
    decreases ns
  {
    if ns != [] {
      HardenNoneAt(ns[0]);
      HardenNoneIn(ns[1..]);
    }
  }

  lemma {:induction false} HardenNoneAt(n: Node)
    requires CountAt(n, OpenAnchors) == 0
    ensures HardenAt(n) == n
    decreases n
  {
    if n.Element? {
      HardenNoneIn(n.children);
    }
  }

  /** Searches other than for anchors without `target` count the same. */
  lemma {:induction false} HardenCountIn(ns: seq<Node>, q: Query)
    requires q != OpenAnchors
    ensures CountIn(HardenIn(ns), q) == CountIn(ns, q)
    decreases ns
  {
    if ns != [] {
      HardenCountAt(ns[0], q);
      HardenCountIn(ns[1..], q);
    }
  }

  lemma {:induction false} HardenCountAt(n: Node, q: Query)
    requires q != OpenAnchors
    ensures CountAt(HardenAt(n), q) == CountAt(n, q)
    decreases n
  {
    HardenLabelOf(n);
    HardenLabelFacts(LabelOf(n), q);
    if n.Element? {
      HardenCountIn(n.children, q);
    }
  }

  /** Searches other than for anchors without `target` find the same node,
      whose own attributes the rewrite has not touched. */
  lemma {:induction false} HardenFirstIn(ns: seq<Node>, q: Query)
    requires q != OpenAnchors
    ensures FirstIn(HardenIn(ns), q) == if FirstIn(ns, q).Some? then Some(HardenAt(FirstIn(ns, q).value)) else None
    ensures FoundLabel(FirstIn(HardenIn(ns), q)) == FoundLabel(FirstIn(ns, q))
    decreases ns
  {
    if ns != [] {
      HardenFirstAt(ns[0], q);
      HardenFirstIn(ns[1..], q);
    }
  }

  lemma {:induction false} HardenFirstAt(n: Node, q: Query)
    requires q != OpenAnchors
    ensures FirstAt(HardenAt(n), q) == if FirstAt(n, q).Some? then Some(HardenAt(FirstAt(n, q).value)) else None
    ensures FoundLabel(FirstAt(HardenAt(n), q)) == FoundLabel(FirstAt(n, q))
    decreases n
  {
    HardenLabelOf(n);
    HardenLabelFacts(LabelOf(n), q);
    if n.Element? {
      HardenFirstIn(n.children, q);
    }
    FirstCountAt(n, q);
    if FirstAt(n, q).Some? {
      var f := FirstAt(n, q).value;
      HardenLabelOf(f);
      HardenLabelFacts(LabelOf(f), q);
      HardenLabelFacts(LabelOf(f), OpenAnchors);
    }
  }

  /** In document order, the rewritten document has the same nodes at the
      same depths, each anchor without `target` rewritten and every other node
      as it was. */
  lemma {:induction false} HardenFlattenIn(ns: seq<Node>, d: nat)
    ensures FlattenIn(HardenIn(ns), d) == HardenEntries(FlattenIn(ns, d))
    decreases ns
  {
    if ns != [] {
      HardenFlattenAt(ns[0], d);
      HardenFlattenIn(ns[1..], d);
      HardenEntriesAppend(FlattenAt(ns[0], d), FlattenIn(ns[1..], d));
    }
  }

  lemma {:induction false} HardenFlattenAt(n: Node, d: nat)
    ensures FlattenAt(HardenAt(n), d) == HardenEntries(FlattenAt(n, d))
    decreases n
  {
    HardenLabelOf(n);
    var rest := if n.Element? then FlattenIn(n.children, d + 1) else [];
    HardenEntriesAppend([Entry(d, LabelOf(n))], rest);
    if n.Element? {
      HardenFlattenIn(n.children, d + 1);
    }
  }

  lemma HardenEntriesAppend(a: seq<Entry>, b: seq<Entry>)
    ensures HardenEntries(a + b) == HardenEntries(a) + HardenEntries(b)
  {
    var l := HardenEntries(a + b);
    var r := HardenEntries(a) + HardenEntries(b);
    forall i | 0 <= i < |l| ensures l[i] == r[i] {
      if i < |a| {
        assert (a + b)[i] == a[i];
      } else {
        assert (a + b)[i] == b[i - |a|];
      }
    }
  }

  // ---------------------------------------------------------------------
  // Removing matches

  /** A document without matches is not changed. */
  lemma {:induction false} PruneNoneIn(ns: seq<Node>, q: Query)
    requires CountIn(ns, q) == 0
    ensures PruneIn(ns, q) == ns
    decreases ns
  {
    if ns != [] {
      PruneNoneAt(ns[0], q);
      PruneNoneIn(ns[1..], q);
    }
  }

  lemma {:induction false} PruneNoneAt(n: Node, q: Query)
    requires CountAt(n, q) == 0
    ensures PruneAt(n, q) == n
    decreases n
  {
    if n.Element? {
      PruneNoneIn(n.children, q);
    }
  }

  /** After the removal nothing matches. */
  lemma {:induction false} PruneClearsIn(ns: seq<Node>, q: Query)
    ensures CountIn(PruneIn(ns, q), q) == 0
    decreases ns
  {
    if ns != [] {
      var head := if Matches(q, LabelOf(ns[0])) then [] else [PruneAt(ns[0], q)];
      PruneClearsAt(ns[0], q);
      PruneClearsIn(ns[1..], q);
      CountInAppend(head, PruneIn(ns[1..], q), q);
      if head != [] {
        Single(PruneAt(ns[0], q));
      }
    }
  }

  lemma {:induction false} PruneClearsAt(n: Node, q: Query)
    ensures !Matches(q, LabelOf(n)) ==> CountAt(PruneAt(n, q), q) == 0
    decreases n
  {
    if n.Element? {
      PruneClearsIn(n.children, q);
    }
  }

  /** Removing comments, which hold no other nodes, leaves the count of every
      other search alone. */
  lemma {:induction false} PruneCommentsCountIn(ns: seq<Node>, q: Query)
    requires q != Comments
    ensures CountIn(PruneIn(ns, Comments), q) == CountIn(ns, q)
    decreases ns
  {
    if ns != [] {
      var head := if Matches(Comments, LabelOf(ns[0])) then [] else [PruneAt(ns[0], Comments)];
      PruneCommentsCountAt(ns[0], q);
      PruneCommentsCountIn(ns[1..], q);
      CountInAppend(head, PruneIn(ns[1..], Comments), q);
      if head != [] {
        Single(PruneAt(ns[0], Comments));
      }
    }
  }

  lemma {:induction false} PruneCommentsCountAt(n: Node, q: Query)
    requires q != Comments
    ensures CountAt(PruneAt(n, Comments), q) == CountAt(n, q)
    ensures n.Comment? ==> CountAt(n, q) == 0
    decreases n
  {
    if n.Element? {
      PruneCommentsCountIn(n.children, q);
    }
  }

  /** Removing comments leaves what every other search finds alone, up to the
      found node's children. */
  lemma {:induction false} PruneCommentsFoundIn(ns: seq<Node>, q: Query)
    requires q != Comments
    ensures FoundLabel(FirstIn(PruneIn(ns, Comments), q)) == FoundLabel(FirstIn(ns, q))
    decreases ns
  {
    if ns != [] {
      var head := if Matches(Comments, LabelOf(ns[0])) then [] else [PruneAt(ns[0], Comments)];
      PruneCommentsFoundAt(ns[0], q);
      PruneCommentsFoundIn(ns[1..], q);
      FirstInAppend(head, PruneIn(ns[1..], Comments), q);
      if head != [] {
        Single(PruneAt(ns[0], Comments));
      }
    }
  }

  lemma {:induction false} PruneCommentsFoundAt(n: Node, q: Query)
    requires q != Comments
    ensures FoundLabel(FirstAt(PruneAt(n, Comments), q)) == FoundLabel(FirstAt(n, q))
    ensures n.Comment? ==> FirstAt(n, q).None?
    decreases n
  {
    if n.Element? {
      PruneCommentsFoundIn(n.children, q);
    }
  }

  /** In document order, removing comments removes exactly the comment entries. */
  lemma {:induction false} PruneCommentsFlattenIn(ns: seq<Node>, d: nat)
    ensures FlattenIn(PruneIn(ns, Comments), d) == Uncommented(FlattenIn(ns, d))
    decreases ns
  {
    if ns != [] {
      var head := if Matches(Comments, LabelOf(ns[0])) then [] else [PruneAt(ns[0], Comments)];
      PruneCommentsFlattenAt(ns[0], d);
      PruneCommentsFlattenIn(ns[1..], d);
      FlattenInAppend(head, PruneIn(ns[1..], Comments), d);
      UncommentedAppend(FlattenAt(ns[0], d), FlattenIn(ns[1..], d));
      if head != [] {
        Single(PruneAt(ns[0], Comments));
      }
    }
  }

  lemma {:induction false} PruneCommentsFlattenAt(n: Node, d: nat)
    ensures Uncommented(FlattenAt(n, d))
            == if n.Comment? then [] else FlattenAt(PruneAt(n, Comments), d)
    decreases n
  {
    var head := [Entry(d, LabelOf(n))];
    var rest := if n.Element? then FlattenIn(n.children, d + 1) else [];
    UncommentedAppend(head, rest);
    assert head[1..] == [];
    if n.Element? {
      PruneCommentsFlattenIn(n.children, d + 1);
    }
  }

  lemma {:induction false} FlattenInAppend(a: seq<Node>, b: seq<Node>, d: nat)
    ensures FlattenIn(a + b, d) == FlattenIn(a, d) + FlattenIn(b, d)
    decreases |a|
  {
    if a == [] {
      assert a + b == b;
    } else {
      assert (a + b)[0] == a[0];
      assert (a + b)[1..] == a[1..] + b;
      FlattenInAppend(a[1..], b, d);
    }
  }

  lemma {:induction false} UncommentedAppend(a: seq<Entry>, b: seq<Entry>)
    ensures Uncommented(a + b) == Uncommented(a) + Uncommented(b)
    decreases |a|
  {
    if a == [] {
      assert a + b == b;
    } else {
      assert (a + b)[0] == a[0];
      assert (a + b)[1..] == a[1..] + b;
      UncommentedAppend(a[1..], b);
    }
  }

  /** Appending a child changes no node's own label. */
  lemma AppendKeepsLabel(n: Node, p: Query, c: Node)
    ensures LabelOf(UpdateFirstAt(n, p, AppendChild(c))) == LabelOf(n)
  {
  }

  /** Removing the matches of `q` after appending a node that `q` matches to a
      document without matches gives the document back: the append added
      exactly that node. */
  lemma {:induction false} PruneAppendIn(ns: seq<Node>, p: Query, c: Node, q: Query)
    requires CountIn(ns, q) == 0 && Matches(q, LabelOf(c))
    ensures PruneIn(UpdateFirstIn(ns, p, AppendChild(c)), q) == ns
    decreases ns
  {
    if ns != [] {
      var head, tail := ns[0], ns[1..];
      assert ns == [head] + tail;
      assert CountAt(head, q) == 0 && CountIn(tail, q) == 0;
      AppendKeepsLabel(head, p, c);
      if FirstAt(head, p).Some? {
        var x := UpdateFirstAt(head, p, AppendChild(c));
        assert UpdateFirstIn(ns, p, AppendChild(c)) == [x] + tail;
        PruneAppendAt(head, p, c, q);
        PruneNoneIn(tail, q);
        PruneCons(x, tail, q);
      } else {
        var rest := UpdateFirstIn(tail, p, AppendChild(c));
        assert UpdateFirstIn(ns, p, AppendChild(c)) == [head] + rest;
        PruneNoneAt(head, q);
        PruneAppendIn(tail, p, c, q);
        PruneCons(head, rest, q);
      }
    }
  }

  lemma PruneCons(x: Node, rest: seq<Node>, q: Query)
    requires !Matches(q, LabelOf(x))
    ensures PruneIn([x] + rest, q) == [PruneAt(x, q)] + PruneIn(rest, q)
  {
    assert ([x] + rest)[0] == x;
    assert ([x] + rest)[1..] == rest;
  }

  lemma {:induction false} PruneAppendAt(n: Node, p: Query, c: Node, q: Query)
    requires CountAt(n, q) == 0 && Matches(q, LabelOf(c))
    ensures PruneAt(UpdateFirstAt(n, p, AppendChild(c)), q) == n
    decreases n
  {
    if n.Element? {
      assert CountIn(n.children, q) == 0;
      if Matches(p, LabelOf(n)) {
        PruneInAppend(n.children, [c], q);
        PruneNoneIn(n.children, q);
        Single(c);
        assert PruneIn([c], q) == [];
        assert n.children + [] == n.children;
      } else {
        PruneAppendIn(n.children, p, c, q);
      }
    }
  }
}
