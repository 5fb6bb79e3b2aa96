/** The document adjusters of update_html.py (ensure_script, add_target_blank,
    adjust_body, adjust_csp_meta) and the decision part of process_file, over
    a document whose top-level nodes a `Document` object holds and its
    methods replace. */
module Markup {
  import opened TextOps
  import opened CspPolicy
  import opened DomTree

  /** The element `soup.new_tag('script', src="/preview.js")` creates. */
  const PreviewScript: Node := Element("script", map["src" := PreviewSrc], [])

  // ---------------------------------------------------------------------
  // What each adjuster computes

  /** The document after `ensure_script` (update_html.py:102-112). */
  function WithPreviewScript(ns: seq<Node>): seq<Node> {
    if CountIn(ns, PreviewScripts) > 0 then ns
    else if FirstIn(ns, Bodies).Some? then UpdateFirstIn(ns, Bodies, AppendChild(PreviewScript))
    else ns + [PreviewScript]
  }

  /** `adjust_body` as written: links are only rewritten when the script was
      already there, because of the short-circuit `or` (update_html.py:129). */
  function BodyAdjusted(ns: seq<Node>): seq<Node> {
    if CountIn(ns, PreviewScripts) == 0 then WithPreviewScript(ns) else HardenIn(ns)
  }

  predicate BodyChanges(ns: seq<Node>) {
    CountIn(ns, PreviewScripts) == 0 || CountIn(ns, OpenAnchors) > 0
  }

  /** `adjust_body` with both adjusters always run. */
  function BodyAdjustedFixed(ns: seq<Node>): seq<Node> {
    HardenIn(WithPreviewScript(ns))
  }

  /** `ensure_script(soup) | add_target_blank(soup)`: the links are counted
      in the document the script insertion left. */
  predicate BodyChangesFixed(ns: seq<Node>) {
    CountIn(ns, PreviewScripts) == 0 || CountIn(WithPreviewScript(ns), OpenAnchors) > 0
  }

  /** The `content` of the first CSP meta element, if it has one
      (update_html.py:138-146). */
  function CspContent(ns: seq<Node>): Option<string> {
    var m := FoundLabel(FirstIn(ns, CspMetas));
    if m.Some? && m.value.ElementLabel? && "content" in m.value.attrs then Some(m.value.attrs["content"]) else None
  }

  /** Whether `adjust_csp_meta` writes the attribute and returns True. */
  predicate CspChanges(ns: seq<Node>) {
    CspContent(ns).Some? && NewContent(CspContent(ns).value) != CspContent(ns).value
  }

  /** The document after `adjust_csp_meta`. */
  function CspAdjusted(ns: seq<Node>): seq<Node> {
    if CspChanges(ns) then UpdateFirstIn(ns, CspMetas, SetAttr("content", NewContent(CspContent(ns).value)))
    else ns
  }

  /** A CSP value that the rewrite either leaves alone or whose only character
      references are `&#39;`. */
  predicate CspReady(ns: seq<Node>) {
    CspContent(ns).Some? ==> OnlyAposEntities(CspContent(ns).value) || NewContent(CspContent(ns).value) == CspContent(ns).value
  }

  /** The document `process_file` serialises (update_html.py:186-192). */
  function Processed(ns: seq<Node>): seq<Node> {
    CspAdjusted(BodyAdjusted(PruneIn(ns, Comments)))
  }

  /** Whether `process_file` writes the file (update_html.py:194). */
  predicate WritesFile(ns: seq<Node>) {
    var s := PruneIn(ns, Comments);
    BodyChanges(s) || CspChanges(BodyAdjusted(s))
  }

  function ProcessedFixed(ns: seq<Node>): seq<Node> {
    CspAdjusted(BodyAdjustedFixed(PruneIn(ns, Comments)))
  }

  predicate WritesFileFixed(ns: seq<Node>) {
    var s := PruneIn(ns, Comments);
    BodyChangesFixed(s) || CspChanges(BodyAdjustedFixed(s))
  }

  // ---------------------------------------------------------------------
  // The in-place passes

  /** The loop of `add_target_blank` (update_html.py:117-124), walking the
      anchors in document order. */
  method HardenAnchors(ns: seq<Node>) returns (r: seq<Node>, changed: bool)
    ensures r == HardenIn(ns)
    ensures changed == (CountIn(ns, OpenAnchors) > 0)
    decreases ns
  {
    r := [];
    changed := false;
    var i := 0;
    while i < |ns|
      invariant 0 <= i <= |ns|
      invariant r + HardenIn(ns[i..]) == HardenIn(ns)
      invariant (changed || CountIn(ns[i..], OpenAnchors) > 0) == (CountIn(ns, OpenAnchors) > 0)
    {
      var next, here := HardenAnchor(ns[i]);
      HardenSuffix(ns, i);
      assert (r + [next]) + HardenIn(ns[i + 1..]) == r + ([next] + HardenIn(ns[i + 1..]));
      changed := changed || here;
      r := r + [next];
      i := i + 1;
    }
    assert ns[i..] == [];
  }

  /** One node of the walk: the anchor itself, then the anchors below it. */
  method HardenAnchor(n: Node) returns (next: Node, changed: bool)
    ensures next == HardenAt(n)
    ensures changed == (CountAt(n, OpenAnchors) > 0)
    decreases n
  {
    next := n;
    changed := false;
    if n.Element? {
      var attrs := n.attrs;
      if n.name == "a" && "target" !in attrs {
        attrs := attrs["target" := BlankTarget]["rel" := SafeRel];
        changed := true;
      }
      var children, below := HardenAnchors(n.children);
      next := Element(n.name, attrs, children);
      changed := changed || below;
    }
  }

  lemma HardenSuffix(ns: seq<Node>, i: nat)
    requires i < |ns|
    ensures HardenIn(ns[i..]) == [HardenAt(ns[i])] + HardenIn(ns[i + 1..])
    ensures CountIn(ns[i..], OpenAnchors) == CountAt(ns[i], OpenAnchors) + CountIn(ns[i + 1..], OpenAnchors)
  {
    assert ns[i..][0] == ns[i] && ns[i..][1..] == ns[i + 1..];
  }

  /** The comment-extraction loop of `process_file` (update_html.py:187-188). */
  method ExtractComments(ns: seq<Node>) returns (r: seq<Node>)
    ensures r == PruneIn(ns, Comments)
    decreases ns
  {
    r := [];
    var i := 0;
    while i < |ns|
      invariant 0 <= i <= |ns|
      invariant r + PruneIn(ns[i..], Comments) == PruneIn(ns, Comments)
    {
      var kept := ExtractFromNode(ns[i]);
      PruneSuffix(ns, i);
      assert (r + kept) + PruneIn(ns[i + 1..], Comments) == r + (kept + PruneIn(ns[i + 1..], Comments));
      r := r + kept;
      i := i + 1;
    }
    assert ns[i..] == [];
  }

  /** One node of the walk: a comment is dropped, an element keeps its
      children without their comments. */
  method ExtractFromNode(n: Node) returns (kept: seq<Node>)
    ensures kept == if Matches(Comments, LabelOf(n)) then [] else [PruneAt(n, Comments)]
    decreases n
  {
    kept := [];
    if !n.Comment? {
      var m := n;
      if n.Element? {
        var children := ExtractComments(n.children);
        m := n.(children := children);
      }
      kept := [m];
    }
  }

  lemma PruneSuffix(ns: seq<Node>, i: nat)
    requires i < |ns|
    ensures PruneIn(ns[i..], Comments)
            == (if Matches(Comments, LabelOf(ns[i])) then [] else [PruneAt(ns[i], Comments)]) + PruneIn(ns[i + 1..], Comments)
  {
    assert ns[i..][0] == ns[i] && ns[i..][1..] == ns[i + 1..];
  }

  /** The parsed document of one HTML file. */
  class Document {
    var nodes: seq<Node>

    constructor (ns: seq<Node>)
      ensures nodes == ns
    {
      nodes := ns;
    }

    /** `ensure_script`: True exactly when no preview script was present. */
    method EnsureScript() returns (added: bool)
      modifies this
      ensures added == (CountIn(old(nodes), PreviewScripts) == 0)
      ensures nodes == WithPreviewScript(old(nodes))
    {
      FirstCountIn(nodes, PreviewScripts);
      if FirstIn(nodes, PreviewScripts).Some? {
        return false;
      }
      var tag := Element("script", map["src" := PreviewSrc], []);
      if FirstIn(nodes, Bodies).Some? {
        nodes := UpdateFirstIn(nodes, Bodies, AppendChild(tag));
      } else {
        nodes := nodes + [tag];
      }
      return true;
    }

    /** `add_target_blank`: True exactly when some anchor lacked `target`. */
    method AddTargetBlank() returns (changed: bool)
      modifies this
      ensures nodes == HardenIn(old(nodes))
      ensures changed == (CountIn(old(nodes), OpenAnchors) > 0)
    {
      var r;
      r, changed := HardenAnchors(nodes);
      nodes := r;
    }

    /** `adjust_body` as written (update_html.py:127-129). */
    method AdjustBody() returns (changed: bool)
      modifies this
      ensures nodes == BodyAdjusted(old(nodes))
      ensures changed == BodyChanges(old(nodes))
    {
      changed := EnsureScript();
      if !changed {
        changed := AddTargetBlank();
      }
    }

    /** `adjust_body` with both adjusters run. */
    method AdjustBodyFixed() returns (changed: bool)
      modifies this
      ensures nodes == BodyAdjustedFixed(old(nodes))
      ensures changed == BodyChangesFixed(old(nodes))
    {
      var added := EnsureScript();
      var hardened := AddTargetBlank();
      changed := added || hardened;
    }

    /** `adjust_csp_meta` (update_html.py:132-177). */
    method AdjustCspMeta() returns (changed: bool)
      modifies this
      ensures changed == CspChanges(old(nodes))
      ensures nodes == CspAdjusted(old(nodes))
      ensures CspContent(old(nodes)).None? ==> !changed && nodes == old(nodes)
    {
      var meta := FirstIn(nodes, CspMetas);
      FirstCountIn(nodes, CspMetas);
      if meta.None? || "content" !in meta.value.attrs {
        return false;
      }
      var raw := meta.value.attrs["content"];
      var decoded := Unescape(raw);
      var directives := ParseDirectives(decoded);
      var newDirectives, scriptSrcFound := RewriteDirectives(directives);
      var newContent := Join(newDirectives, "; ");
      if ContainsAposEntity(raw) {
        newContent := EscapeApos(newContent);
      }
      if newContent == raw {
        return false;
      }
      nodes := UpdateFirstIn(nodes, CspMetas, SetAttr("content", newContent));
      return true;
    }

    method StripComments()
      modifies this
      ensures nodes == PruneIn(old(nodes), Comments)
    {
      nodes := ExtractComments(nodes);
    }

    /** The decision part of `process_file` (update_html.py:186-198): True
        when the file would be written. */
    method ProcessFile() returns (write: bool)
      modifies this
      ensures nodes == Processed(old(nodes))
      ensures write == WritesFile(old(nodes))
    {
      StripComments();
      var bodyChanged := AdjustBody();
      var cspChanged := AdjustCspMeta();
      write := bodyChanged || cspChanged;
    }

    /** `process_file` with the corrected `adjust_body`. */
    method ProcessFileFixed() returns (write: bool)
      modifies this
      ensures nodes == ProcessedFixed(old(nodes))
      ensures write == WritesFileFixed(old(nodes))
    {
      StripComments();
      var bodyChanged := AdjustBodyFixed();
      var cspChanged := AdjustCspMeta();
      write := bodyChanged || cspChanged;
    }
  }

  // ---------------------------------------------------------------------
  // The preview script

  /** The new script is found by the preview-script search and by no other. */
  lemma PreviewScriptCounts(q: Query)
    ensures CountAt(PreviewScript, q) == if q == PreviewScripts then 1 else 0
  {
    MatchesItself(PreviewSrc);
    var l := LabelOf(PreviewScript);
    assert l.attrs["src"] == PreviewSrc;
    assert Matches(q, l) <==> q == PreviewScripts;
    assert CountIn(PreviewScript.children, q) == 0;
  }

  /** `ensure_script` inserts exactly one node when no preview script is
      present: afterwards there is exactly one, removing it gives the old
      document back, and it is the last child of the first `body` or, without
      a body, the last top-level node. */
  lemma WithPreviewScriptInserts(ns: seq<Node>)
    requires CountIn(ns, PreviewScripts) == 0
    ensures var r := WithPreviewScript(ns);
            CountIn(r, PreviewScripts) == 1
            && PruneIn(r, PreviewScripts) == ns
            && (FirstIn(ns, Bodies).None? ==> r == ns + [PreviewScript])
            && (FirstIn(ns, Bodies).Some? ==>
                  var b := FirstIn(ns, Bodies).value;
                  b.Element? && FirstIn(r, Bodies) == Some(Element(b.name, b.attrs, b.children + [PreviewScript])))
  {
    PreviewScriptCounts(PreviewScripts);
    if FirstIn(ns, Bodies).Some? {
      var e := AppendChild(PreviewScript);
      CountUpdateFirstIn(ns, Bodies, e, PreviewScripts);
      PruneAppendIn(ns, Bodies, PreviewScript, PreviewScripts);
      FirstCountIn(ns, Bodies);
      FirstUpdateFirstIn(ns, Bodies, e);
    } else {
      CountInAppend(ns, [PreviewScript], PreviewScripts);
      PruneInAppend(ns, [PreviewScript], PreviewScripts);
      PruneNoneIn(ns, PreviewScripts);
      Single(PreviewScript);
      assert PruneIn([PreviewScript], PreviewScripts) == [];
    }
  }

  /** After `ensure_script` a preview script is present, so a second call
      returns False and changes nothing. */
  lemma WithPreviewScriptSettles(ns: seq<Node>)
    ensures CountIn(WithPreviewScript(ns), PreviewScripts) > 0
    ensures WithPreviewScript(WithPreviewScript(ns)) == WithPreviewScript(ns)
  {
    if CountIn(ns, PreviewScripts) == 0 {
      WithPreviewScriptInserts(ns);
    }
  }

  /** Inserting the script leaves every other search as it was: the same
      counts and the same CSP value. */
  lemma WithPreviewScriptKeeps(ns: seq<Node>, q: Query)
    requires q != PreviewScripts
    ensures CountIn(WithPreviewScript(ns), q) == CountIn(ns, q)
    ensures CspContent(WithPreviewScript(ns)) == CspContent(ns)
  {
    PreviewScriptCounts(q);
    PreviewScriptCounts(CspMetas);
    if CountIn(ns, PreviewScripts) == 0 {
      if FirstIn(ns, Bodies).Some? {
        CountUpdateFirstIn(ns, Bodies, AppendChild(PreviewScript), q);
        FoundAfterAppendIn(ns, Bodies, PreviewScript, CspMetas);
      } else {
        CountInAppend(ns, [PreviewScript], q);
        FirstInAppend(ns, [PreviewScript], CspMetas);
        FirstCountAt(PreviewScript, CspMetas);
        Single(PreviewScript);
      }
    }
  }

  lemma HardenKeepsCsp(ns: seq<Node>)
    ensures CspContent(HardenIn(ns)) == CspContent(ns)
  {
    HardenFirstIn(ns, CspMetas);
  }

  // ---------------------------------------------------------------------
  // adjust_body

  /** A document on which `adjust_body` as written inserts the script but
      leaves the link without `target`, so the next run reports a change. */
  lemma AdjustBodyLeavesLinks()
    ensures var ns := [Element("body", map[], [Element("a", map["href" := "page.html"], [])])];
            BodyChanges(ns)
            && CountIn(BodyAdjusted(ns), OpenAnchors) == 1
            && BodyChanges(BodyAdjusted(ns))
  {
    var a := Element("a", map["href" := "page.html"], []);
    var ns := [Element("body", map[], [a])];
    assert CountAt(a, OpenAnchors) == 1 && CountAt(a, PreviewScripts) == 0 by {
      assert CountIn(a.children, OpenAnchors) == 0 && CountIn(a.children, PreviewScripts) == 0;
    }
    var body := ns[0];
    Single(body);
    Single(a);
    assert CountIn([a], OpenAnchors) == 1 && CountIn([a], PreviewScripts) == 0;
    assert body.children == [a];
    assert CountAt(body, OpenAnchors) == 1 && CountAt(body, PreviewScripts) == 0;
    assert CountIn(ns, PreviewScripts) == 0 && CountIn(ns, OpenAnchors) == 1;
    WithPreviewScriptKeeps(ns, OpenAnchors);
  }

  /** `adjust_body` as written settles on the second run: after two runs a
      preview script is present and no anchor lacks `target`. */
  lemma BodyAdjustedTwiceSettles(ns: seq<Node>)
    ensures var r := BodyAdjusted(BodyAdjusted(ns));
            CountIn(r, PreviewScripts) > 0 && CountIn(r, OpenAnchors) == 0 && !BodyChanges(r)
  {
    var b := BodyAdjusted(ns);
    WithPreviewScriptSettles(ns);
    HardenCountIn(ns, PreviewScripts);
    assert CountIn(b, PreviewScripts) > 0;
    HardenClearsIn(b);
    HardenCountIn(b, PreviewScripts);
  }

  /** The corrected `adjust_body` leaves a document with a preview script and
      no anchor without `target`, on which it reports no change. */
  lemma BodyAdjustedFixedSettles(ns: seq<Node>)
    ensures var r := BodyAdjustedFixed(ns);
            CountIn(r, PreviewScripts) > 0 && CountIn(r, OpenAnchors) == 0
            && !BodyChangesFixed(r) && BodyAdjustedFixed(r) == r
  {
    var w := WithPreviewScript(ns);
    var r := HardenIn(w);
    WithPreviewScriptSettles(ns);
    HardenCountIn(w, PreviewScripts);
    HardenClearsIn(w);
    HardenNoneIn(r);
  }

  /** Both versions of `adjust_body` report a change on the same documents;
      they differ only in what they leave behind. */
  lemma BodyChangesAgree(ns: seq<Node>)
    ensures BodyChangesFixed(ns) == BodyChanges(ns)
  {
    WithPreviewScriptKeeps(ns, OpenAnchors);
  }

  // ---------------------------------------------------------------------
  // adjust_csp_meta

  /** When the value changes, the first CSP meta element afterwards carries
      the rewritten value. */
  lemma CspAdjustedWrites(ns: seq<Node>)
    requires CspChanges(ns)
    ensures CspContent(CspAdjusted(ns)) == Some(NewContent(CspContent(ns).value))
  {
    var e := SetAttr("content", NewContent(CspContent(ns).value));
    FirstCountIn(ns, CspMetas);
    FirstUpdateFirstIn(ns, CspMetas, e);
  }

  /** The CSP edit changes the count of no search. */
  lemma CspAdjustedKeeps(ns: seq<Node>, q: Query)
    ensures CountIn(CspAdjusted(ns), q) == CountIn(ns, q)
  {
    if CspChanges(ns) {
      CountUpdateFirstIn(ns, CspMetas, SetAttr("content", NewContent(CspContent(ns).value)), q);
    }
  }

  /** On a value the rewrite can decode, a second `adjust_csp_meta` returns
      False and changes nothing. */
  lemma CspSettles(ns: seq<Node>)
    requires CspReady(ns)
    ensures !CspChanges(CspAdjusted(ns))
    ensures CspAdjusted(CspAdjusted(ns)) == CspAdjusted(ns)
  {
    if CspChanges(ns) {
      CspAdjustedWrites(ns);
      NewContentIdempotent(CspContent(ns).value);
    }
  }

  // ---------------------------------------------------------------------
  // process_file

  /** A document on which `process_file` changes nothing. */
  predicate Settled(ns: seq<Node>) {
    CountIn(ns, Comments) == 0 && CountIn(ns, PreviewScripts) > 0
    && CountIn(ns, OpenAnchors) == 0 && !CspChanges(ns)
  }

  /** On a settled document neither version of `process_file` writes, and
      both leave it as it is. */
  lemma SettledIsFixedPoint(ns: seq<Node>)
    requires Settled(ns)
    ensures !WritesFile(ns) && Processed(ns) == ns
    ensures !WritesFileFixed(ns) && ProcessedFixed(ns) == ns
  {
    PruneNoneIn(ns, Comments);
    HardenNoneIn(ns);
  }

  /** Comment removal keeps what the adjusters look at. */
  lemma StripKeeps(ns: seq<Node>)
    ensures var s := PruneIn(ns, Comments);
            CountIn(s, Comments) == 0 && CspContent(s) == CspContent(ns)
  {
    PruneClearsIn(ns, Comments);
    PruneCommentsFoundIn(ns, CspMetas);
  }

  /** One run of `process_file` as written leaves no comment, a preview
      script, and a CSP value a further run keeps. */
  lemma ProcessedFacts(ns: seq<Node>)
    requires CspReady(ns)
    ensures var p := Processed(ns);
            CountIn(p, Comments) == 0 && CountIn(p, PreviewScripts) > 0 && !CspChanges(p)
  {
    var s := PruneIn(ns, Comments);
    StripKeeps(ns);
    var b := BodyAdjusted(s);
    if CountIn(s, PreviewScripts) == 0 {
      WithPreviewScriptSettles(s);
      WithPreviewScriptKeeps(s, Comments);
    } else {
      HardenCountIn(s, Comments);
      HardenCountIn(s, PreviewScripts);
      HardenKeepsCsp(s);
    }
    CspSettles(b);
    CspAdjustedKeeps(b, Comments);
    CspAdjustedKeeps(b, PreviewScripts);
  }

  /** `process_file` as written settles after two runs: a third run reports
      no change and writes nothing. */
  lemma ProcessedTwiceSettles(ns: seq<Node>)
    requires CspReady(ns)
    ensures Settled(Processed(Processed(ns)))
  {
    var p := Processed(ns);
    ProcessedFacts(ns);
    PruneNoneIn(p, Comments);
    var b := BodyAdjusted(p);
    assert b == HardenIn(p);
    HardenClearsIn(p);
    HardenCountIn(p, Comments);
    HardenCountIn(p, PreviewScripts);
    HardenKeepsCsp(p);
  }

  /** The document of `AdjustBodyLeavesLinks` makes `process_file` as
      written write the file on the first run and again on the second. */
  lemma ProcessFileWritesTwice()
    ensures var ns := [Element("body", map[], [Element("a", map["href" := "page.html"], [])])];
            WritesFile(ns) && WritesFile(Processed(ns))
  {
    var a := Element("a", map["href" := "page.html"], []);
    var ns := [Element("body", map[], [a])];
    var body := ns[0];
    Single(body);
    Single(a);
    assert CountIn([a], Comments) == 0 && CountIn([a], OpenAnchors) == 1;
    assert body.children == [a];
    assert CountIn(ns, Comments) == 0 && CountIn(ns, OpenAnchors) == 1;
    PruneNoneIn(ns, Comments);
    AdjustBodyLeavesLinks();
    var b := BodyAdjusted(ns);
    var p := CspAdjusted(b);
    CspAdjustedKeeps(b, OpenAnchors);
    CspAdjustedKeeps(b, Comments);
    WithPreviewScriptKeeps(ns, Comments);
    PruneNoneIn(p, Comments);
  }

  /** With the corrected `adjust_body`, one run settles the document: the
      next run writes nothing. */
  lemma ProcessedFixedSettles(ns: seq<Node>)
    requires CspReady(ns)
    ensures Settled(ProcessedFixed(ns))
  {
    var s := PruneIn(ns, Comments);
    StripKeeps(ns);
    var w := WithPreviewScript(s);
    WithPreviewScriptSettles(s);
    WithPreviewScriptKeeps(s, Comments);
    var b := HardenIn(w);
    HardenClearsIn(w);
    HardenCountIn(w, Comments);
    HardenCountIn(w, PreviewScripts);
    HardenKeepsCsp(w);
    CspSettles(b);
    CspAdjustedKeeps(b, Comments);
    CspAdjustedKeeps(b, PreviewScripts);
    CspAdjustedKeeps(b, OpenAnchors);
  }
}
