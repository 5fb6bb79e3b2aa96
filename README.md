# update_html: a verified model of the HTML adjusters

`update_html.py` walks a site directory and rewrites every `*.html` file in
three ways:

- it makes sure the page loads `/preview.js`, appending a `<script>` to
  `<body>`, or to the end of the document when there is no body;
- it gives every `<a>` without a `target` the attributes `target="_blank"`
  and `rel="noopener noreferrer"`;
- it adds `'self'` to the `script-src` directive of the
  `Content-Security-Policy` (or `X-Content-Security-Policy`) `<meta>`
  element, keeping the `&#39;` spelling of apostrophes when the original
  used it.

Before any of this, comments are stripped. The file is written back only
when one of the adjusters reports a change.

This project models those adjusters and the decision in `process_file`:

- `TextOps` models the Python string operations the CSP rewrite uses:
  `strip`, `split(';')`, `split()`, `join`, `lower`, `replace("'", "&#39;")`,
  a case-insensitive whole-value regex match, and the `&#39;` part of
  `html.unescape`.
- `CspPolicy` models the directive rewrite of `adjust_csp_meta`. It has
  reference functions (`NewDirectives`, `NewContent`) and the loops as
  methods proved equal to them.
- `DomTree` holds the parsed document as a value: a tree of elements, text
  and comments. It defines the searches the script runs (`find`,
  `find_all`, `soup.body`) as counting, first-match and document-order
  functions, and the in-place edits as functions on the tree.
- `Markup` has a `Document` class whose `nodes` field is the document that
  the methods `EnsureScript`, `AddTargetBlank`, `AdjustBody`,
  `AdjustCspMeta`, `StripComments` and `ProcessFile` replace. Around it
  are the lemmas about a whole run: what it inserts, what it keeps, and
  when a further run changes nothing.

The model follows the code as written. "## Findings" describes where
`adjust_body` falls short of what the module promises, and the corrected
version proved beside it.

## Model

| member | source | states |
|---|---|---|
| TextOps.Split | update_html.py:149 | `split` always yields at least one piece |
| TextOps.JoinSplit | update_html.py:149 | joining the pieces of `split(c)` with `c` gives back the string, and no piece contains `c` |
| TextOps.TrimResult | update_html.py:149 | `strip()` yields the empty string or a string with no whitespace at either end, made of characters of the input |
| TextOps.TrimPadded | update_html.py:149 | `strip()` removes leading whitespace from an already trimmed string and nothing else |
| TextOps.Word | update_html.py:155 | the first word is a whitespace-free prefix followed by whitespace or the end |
| TextOps.Words | update_html.py:155 | every piece of `split()` is a non-empty, whitespace-free word |
| TextOps.WordsJoin | update_html.py:155-159 | `split()` of words joined by single spaces gives back the words |
| TextOps.JoinFree | update_html.py:167 | a character absent from the pieces and the separator is absent from the join |
| TextOps.EscapeApos | update_html.py:171 | `replace("'", "&#39;")` leaves no apostrophe |
| TextOps.UnescapeEscape | update_html.py:147-171 | on text without `&`, unescaping the escaped text gives it back |
| TextOps.UnescapeRemovesAmp | update_html.py:147 | when every `&` begins `&#39;`, unescaping leaves no `&` |
| TextOps.EscapeShowsEntity | update_html.py:170-171 | escaping text that has an apostrophe produces text containing `&#39;` |
| TextOps.MatchesItself | update_html.py:104 | a lower-case value matches its own case-insensitive whole-value pattern |
| CspPolicy.RewriteScriptSrcDirective | update_html.py:155-159 | the method computes the `script-src` rewrite `RewriteScriptSrc` |
| CspPolicy.RewriteDirectives | update_html.py:151-165 | the loop's `script_src_found` is true iff some directive starts with `script-src` ignoring case, and `new_directives` is `NewDirectives` |
| CspPolicy.CountSelfPositive | update_html.py:157 | a source list contains a `self` source iff its count of them is positive |
| CspPolicy.WithSelfSources | update_html.py:157-158 | after the append, a `self` source is present, the old sources are a prefix, exactly one source was appended iff none was `self`, and the number of `self` sources is at least one and otherwise unchanged |
| CspPolicy.NewSourcesAreWords | update_html.py:155-158 | the rewritten source list is non-empty and every source is a word |
| CspPolicy.RewriteScriptSrcIsJoin | update_html.py:159 | the rewritten directive is the name followed by the sources, joined by single spaces |
| CspPolicy.RewriteScriptSrcWords | update_html.py:154-159 | splitting the rewritten directive gives `script-src` followed by the new sources, and it is again a `script-src` directive that allows `self` |
| CspPolicy.RewriteScriptSrcIdempotent | update_html.py:154-159 | rewriting a rewritten `script-src` directive changes nothing |
| CspPolicy.RewriteScriptSrcShape | update_html.py:159 | the rewritten directive is trimmed and brings in no character absent from the input and the default |
| CspPolicy.DefaultIsRewritten | update_html.py:165 | the fallback `script-src 'self'` is a `script-src` directive whose only source is `'self'`, and the rewrite leaves it as it is |
| CspPolicy.OthersAppend | update_html.py:161-162 | the non-`script-src` directives of a concatenation are those of its parts |
| CspPolicy.OthersOfRewritten | update_html.py:153-162 | rewriting leaves the non-`script-src` directives as they were, in the same order |
| CspPolicy.NewDirectivesKeepOthers | update_html.py:161-165 | the new list holds exactly the old non-`script-src` directives, in order |
| CspPolicy.NewDirectivesAllowSelf | update_html.py:153-165 | the new list has a `script-src` directive, and every one allows `self`; each old directive's rewrite stands at its old position; the fallback is appended as the last element iff there was no `script-src` |
| CspPolicy.NewDirectivesIdempotent | update_html.py:151-165 | rewriting a rewritten directive list changes nothing |
| CspPolicy.NewDirectivesShape | update_html.py:153-165 | when every directive is trimmed and has neither `;` nor some character `c` (also absent from the default), so has every new directive |
| CspPolicy.CleanShape | update_html.py:149 | the cleaned pieces are trimmed and carry no character absent from the pieces |
| CspPolicy.ParseShape | update_html.py:149 | every parsed directive is trimmed, has no `;`, and has no character absent from the input |
| CspPolicy.ParseBlank | update_html.py:149 | a blank value without `;` has no directives |
| CspPolicy.ParsePaddedSingle | update_html.py:149 | leading whitespace before one well-formed directive parses to that directive |
| CspPolicy.ParsePaddedCons | update_html.py:149-167 | a directive followed by `"; "` parses as itself, followed by the parse of the rest |
| CspPolicy.ParsePadded | update_html.py:149-167 | whitespace followed by well-formed directives joined with `"; "` parses back to those directives |
| CspPolicy.ParseJoin | update_html.py:149-167 | parsing the `"; "`-join of well-formed directives gives them back |
| CspPolicy.NewContentDecodes | update_html.py:146-171 | when the only character references are `&#39;`: the new value unescapes to the joined directives, which contain no `&`; in `&#39;` mode it contains no apostrophe, and otherwise it is the joined directives |
| CspPolicy.NewContentIdempotent | update_html.py:146-177 | on such values, running the rewrite on its own output yields the same value, so a second run leaves the meta element alone |
| DomTree.CountInAppend | update_html.py:104 | the matches of a concatenation add up |
| DomTree.FirstInAppend | update_html.py:104 | the first match in a concatenation is the first in the left part, if any, and otherwise the first in the right part |
| DomTree.PruneInAppend | update_html.py:187-188 | removal works piecewise over a concatenation |
| DomTree.FirstCountIn | update_html.py:138-143 | `find` finds something iff there is at least one match, and what it finds matches |
| DomTree.FirstCountAt | update_html.py:138-143 | the same, for the subtree of one node |
| DomTree.CountFlattenIn | update_html.py:118 | counting matches in the tree equals counting them in document order |
| DomTree.CountFlattenAt | update_html.py:118 | the same, for one subtree |
| DomTree.CountEntriesAppend | update_html.py:118 | matches in document order add up over a concatenation |
| DomTree.InertKeepsMatches | update_html.py:176 | appending a child, or setting an attribute no search looks at, never changes whether a node matches |
| DomTree.UpdateFirstMissingIn | update_html.py:143-144 | editing the first match of a search that finds nothing leaves the document unchanged |
| DomTree.CountUpdateFirstIn | update_html.py:176 | editing the first match changes the number of matches of any search only by the matches in the appended child |
| DomTree.CountUpdateFirstAt | update_html.py:176 | the same, within one subtree |
| DomTree.FirstUpdateFirstIn | update_html.py:176 | after the edit, the first match is the edited old first match |
| DomTree.FirstUpdateFirstAt | update_html.py:176 | the same, within one subtree |
| DomTree.FoundAfterAppendIn | update_html.py:107-111 | appending a child with no match keeps what a later `find` sees (tag and attributes) |
| DomTree.FoundAfterAppendAt | update_html.py:107-111 | the same, within one subtree |
| DomTree.HardenLabelFacts | update_html.py:119-122 | a hardened node is no longer an anchor without `target`; other nodes are unchanged; other searches see no difference |
| DomTree.HardenLabelOf | update_html.py:119-122 | hardening a node's subtree hardens the node itself |
| DomTree.HardenClearsIn | update_html.py:118-123 | afterwards no anchor lacks a `target` |
| DomTree.HardenClearsAt | update_html.py:118-123 | the same, for one subtree |
| DomTree.HardenNoneIn | update_html.py:119-120 | with no anchor lacking `target`, nothing changes |
| DomTree.HardenNoneAt | update_html.py:119-120 | the same, for one subtree |
| DomTree.HardenCountIn | update_html.py:121-122 | the other searches find as many matches as before |
| DomTree.HardenCountAt | update_html.py:121-122 | the same, for one subtree |
| DomTree.HardenFirstIn | update_html.py:121-122 | the other searches find the hardened version of the same node, with the same tag and attributes |
| DomTree.HardenFirstAt | update_html.py:121-122 | the same, for one subtree |
| DomTree.HardenFlattenIn | update_html.py:118-123 | in document order, the pass changes each node's tag and attributes exactly as the loop changes each anchor, keeping every node's position and depth |
| DomTree.HardenFlattenAt | update_html.py:118-123 | the same, for one subtree |
| DomTree.HardenEntriesAppend | update_html.py:118-123 | hardening in document order works piecewise over a concatenation |
| DomTree.PruneNoneIn | update_html.py:187-188 | with nothing to remove, nothing changes |
| DomTree.PruneNoneAt | update_html.py:187-188 | the same, for one subtree |
| DomTree.PruneClearsIn | update_html.py:187-188 | afterwards no match is left |
| DomTree.PruneClearsAt | update_html.py:187-188 | the same, below a non-matching node |
| DomTree.PruneCommentsCountIn | update_html.py:187-188 | removing comments keeps the count of every other search |
| DomTree.PruneCommentsCountAt | update_html.py:187-188 | the same, for one subtree; a comment itself holds no other match |
| DomTree.PruneCommentsFoundIn | update_html.py:187-188 | removing comments keeps what `find` sees for every other search |
| DomTree.PruneCommentsFoundAt | update_html.py:187-188 | the same, within one subtree |
| DomTree.PruneCommentsFlattenIn | update_html.py:187-188 | in document order, removing comments removes exactly the comment entries and keeps the rest in order |
| DomTree.PruneCommentsFlattenAt | update_html.py:187-188 | the same, for one subtree |
| DomTree.FlattenInAppend | update_html.py:118 | document order works piecewise over a concatenation |
| DomTree.UncommentedAppend | update_html.py:187 | dropping comment entries works piecewise over a concatenation |
| DomTree.AppendKeepsLabel | update_html.py:109 | appending a child leaves a node's own tag and attributes alone |
| DomTree.PruneCons | update_html.py:187-188 | removal keeps a non-matching first node |
| DomTree.PruneAppendIn | update_html.py:107-111 | removing a newly appended node, which is the only match of its kind, restores the document |
| DomTree.PruneAppendAt | update_html.py:107-111 | the same, within one subtree |
| Markup.HardenAnchors | update_html.py:117-124 | the loop over the top-level nodes yields the hardened document, and reports a change iff some anchor lacked `target` |
| Markup.HardenAnchor | update_html.py:118-123 | the same, for one subtree |
| Markup.HardenSuffix | update_html.py:118-123 | the hardened document and its count of open anchors unfold one top-level node at a time |
| Markup.ExtractComments | update_html.py:187-188 | the loop over the top-level nodes yields the document without comments |
| Markup.ExtractFromNode | update_html.py:187-188 | a comment is dropped, and any other node keeps its place with its comments removed |
| Markup.PruneSuffix | update_html.py:187-188 | the pruned document unfolds one top-level node at a time |
| Markup.Document.constructor | update_html.py:184 | the document holds the parsed nodes |
| Markup.Document.EnsureScript | update_html.py:102-112 | reports an insertion iff no `/preview.js` script was present, and leaves `WithPreviewScript` of the old document |
| Markup.Document.AddTargetBlank | update_html.py:115-124 | leaves every anchor without `target` hardened, and reports a change iff there was one |
| Markup.Document.AdjustBody | update_html.py:127-129 | the short-circuit: the document after `BodyAdjusted`, with the change reported iff the script was missing or an anchor lacked `target` |
| Markup.Document.AdjustBodyFixed | update_html.py:127-129 | the corrected version: both adjusters run; the result is script insertion then hardening |
| Markup.Document.AdjustCspMeta | update_html.py:132-177 | reports a change iff the first CSP meta element has a `content` whose rewrite differs, and leaves `CspAdjusted`; with no such element or attribute, nothing changes |
| Markup.Document.StripComments | update_html.py:186-188 | the document without comments |
| Markup.Document.ProcessFile | update_html.py:186-193 | the document that is serialised is `Processed` of the parsed one, and the file is written iff `WritesFile` |
| Markup.Document.ProcessFileFixed | update_html.py:186-193 | the same, with the corrected `adjust_body` |
| Markup.PreviewScriptCounts | update_html.py:104-107 | the new script tag is found by the duplicate check and by no other search |
| Markup.WithPreviewScriptInserts | update_html.py:104-112 | when the script was missing, exactly one is present afterwards, and removing it restores the document; without a body it is the last top-level node; with one, the first body gains it as its last child |
| Markup.WithPreviewScriptSettles | update_html.py:104-105 | afterwards the script is present, and a second call changes nothing |
| Markup.WithPreviewScriptKeeps | update_html.py:107-111 | inserting the script keeps every other search's count and the CSP value |
| Markup.HardenKeepsCsp | update_html.py:121-122 | hardening anchors keeps the CSP value |
| Markup.AdjustBodyLeavesLinks | update_html.py:129 | on `<body><a href="page.html"></a></body>` the as-written `adjust_body` reports a change, leaves the anchor open, and would report a change again |
| Markup.BodyAdjustedTwiceSettles | update_html.py:127-129 | two as-written calls leave the script present and no open anchor, so a third reports no change |
| Markup.BodyAdjustedFixedSettles | update_html.py:127-129 | one corrected call leaves the script present and no open anchor; a second call reports no change and changes nothing |
| Markup.BodyChangesAgree | update_html.py:127-129 | both versions report a change on the same documents |
| Markup.CspAdjustedWrites | update_html.py:173-176 | when the value changes, the CSP meta element afterwards carries the rewritten value |
| Markup.CspAdjustedKeeps | update_html.py:176 | setting `content` keeps every search's count |
| Markup.CspSettles | update_html.py:173-177 | on a value that is unchanged, or whose only character references are `&#39;`, a second `adjust_csp_meta` reports no change and changes nothing |
| Markup.SettledIsFixedPoint | update_html.py:186-198 | on a settled document neither version writes the file, and both leave the document unchanged |
| Markup.StripKeeps | update_html.py:186-191 | after removing comments none is left, and the CSP value is unchanged |
| Markup.ProcessedFacts | update_html.py:186-191 | after one run there is no comment, the script is present, and the CSP value is stable |
| Markup.ProcessedTwiceSettles | update_html.py:186-198 | as written, two runs settle the document, so a third run writes nothing |
| Markup.ProcessFileWritesTwice | update_html.py:190-195 | as written, the one-link page is written on the first run and again on the second |
| Markup.ProcessedFixedSettles | update_html.py:186-198 | with the corrected `adjust_body`, one run settles the document, so the second run writes nothing |

## Left out

- `read_file_smart` and `write_file_utf8` are left out: decoding bytes, encoding detection and file writing are I/O. The model starts from the parsed document and ends with the decision to write.
- `walk_and_update`, `main` and the `print` messages are left out: directory traversal and console output are I/O.
- HTML parsing (`BeautifulSoup(..., 'html.parser')`) and serialisation (`prettify(formatter="html")`) are left out. The document is given as a tree, and the written text is not modelled.
- Names are taken as the parser gives them: tag and attribute names are lower-case, and each attribute has one string value. The multi-valued `rel` list is not modelled.
- Nodes are values, not objects. Node identity, parent links and aliasing between BeautifulSoup objects are not modelled.
- Only comment nodes are removed. Other `NavigableString` subclasses (CDATA, processing instructions, doctypes) are treated as plain text.
- TextOps.Unescape models only the `&#39;` reference of `html.unescape`. The lemmas that depend on decoding (`CspPolicy.NewContentDecodes`, `CspPolicy.NewContentIdempotent`, `Markup.CspSettles`, `Markup.ProcessedFacts`, `Markup.ProcessedTwiceSettles`, `Markup.ProcessedFixedSettles`) require every `&` to begin `&#39;`, or the value to be already stable. On other values the model's decoding differs from the library's.
- TextOps.Lower folds only ASCII letters. Python's `str.lower` and `re.IGNORECASE` fold the whole of Unicode. A value that matches only through non-ASCII folding is not modelled.
- TextOps.IsSpace is the set of characters Python's `str.isspace` accepts, written out. Nothing is derived from a Unicode database.
- The process-level properties are about the document. Whether the serialised text of an unchanged document equals the file on disk is left out with `prettify`.

## Findings

| source | as written | input that shows it | evidently intended | confidence | as-written member | corrected member |
|---|---|---|---|---|---|---|
| update_html.py:129 | `ensure_script(soup) or add_target_blank(soup)` short-circuits. When the script is inserted, the links are not rewritten on that run, so a second run changes the file again. | `<body><a href="page.html"></a></body>` without `/preview.js`: the first run inserts the script and leaves the link without `target`; the second run adds `target="_blank"`. | Both adjusters run on every call (`changed = ensure_script(soup); changed = add_target_blank(soup) or changed`). One run then settles the page: the module's documentation promises both changes, and a second run should report no change. | not executed | Markup.AdjustBodyLeavesLinks, Markup.ProcessFileWritesTwice, Markup.Document.AdjustBody | Markup.Document.AdjustBodyFixed, Markup.BodyAdjustedFixedSettles, Markup.ProcessedFixedSettles |
