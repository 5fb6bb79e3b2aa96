/** The string rewrite inside `adjust_csp_meta` (update_html.py:146-171): the
    `content` value of a Content-Security-Policy meta element is unescaped,
    split into directives, every `script-src` directive is made to allow
    `'self'` (one is added when there is none), and the directives are joined
    again in the apostrophe style of the original value. */
module CspPolicy {
  import opened TextOps

  const ScriptSrcName: string := "script-src"
  const SelfSource: string := "'self'"
  /** The directive appended when the policy has no `script-src` at all. */
  const DefaultScriptSrc: string := ScriptSrcName + " " + SelfSource

  /** `d.lower().startswith('script-src')`. */
  predicate IsScriptSrc(d: string) {
    |d| >= 10 && Lower(d[..10]) == ScriptSrcName
  }

  predicate IsQuote(c: char) {
    c == '\'' || c == '"'
  }

  /** `src.strip("'\"") == 'self'`. */
  predicate IsSelf(src: string) {
    StripBy(src, IsQuote) == "self"
  }

  /** `any(src.strip("'\"") == 'self' for src in sources)`. */
  predicate HasSelf(srcs: seq<string>) {
    exists i :: 0 <= i < |srcs| && IsSelf(srcs[i])
  }

  /** `d.split()[1:]`: the sources that follow the directive name. */
  function Sources(d: string): seq<string> {
    var parts := Words(d);
    if parts == [] then [] else parts[1..]
  }

  /** The sources with `'self'` appended unless one of them already is `self`. */
  function WithSelf(srcs: seq<string>): seq<string> {
    if HasSelf(srcs) then srcs else srcs + [SelfSource]
  }

  /** `'script-src ' + ' '.join(sources)` for a directive that starts with `script-src`. */
  function RewriteScriptSrc(d: string): string {
    ScriptSrcName + " " + Join(WithSelf(Sources(d)), " ")
  }

  /** What one iteration of the loop at update_html.py:153-162 appends. */
  function RewriteDirective(d: string): string {
    if IsScriptSrc(d) then RewriteScriptSrc(d) else d
  }

  predicate HasScriptSrc(ds: seq<string>) {
    exists i :: 0 <= i < |ds| && IsScriptSrc(ds[i])
  }

  /** `new_directives` after the loop and the fallback append of line 165. */
  function NewDirectives(ds: seq<string>): seq<string> {
    seq(|ds|, i requires 0 <= i < |ds| => RewriteDirective(ds[i]))
    + (if HasScriptSrc(ds) then [] else [DefaultScriptSrc])
  }

  /** `[d.strip() for d in pieces if d.strip()]`. */
  function Clean(pieces: seq<string>): seq<string> {
    if pieces == [] then []
    else (if Trim(pieces[0]) == [] then [] else [Trim(pieces[0])]) + Clean(pieces[1..])
  }

  /** The directive list of line 149. */
  function ParseDirectives(decoded: string): seq<string> {
    Clean(Split(decoded, ';'))
  }

  /** The value `new_content` holds when it is compared with the raw value at line 173. */
  function NewContent(raw: string): string {
    var joined := Join(NewDirectives(ParseDirectives(Unescape(raw))), "; ");
    if ContainsAposEntity(raw) then EscapeApos(joined) else joined
  }

  /** The `script-src` branch of the loop body, update_html.py:155-159. */
  method RewriteScriptSrcDirective(d: string) returns (rewritten: string)
    ensures rewritten == RewriteScriptSrc(d)
  {
    var parts := Words(d);
    var sources := if parts == [] then [] else parts[1..];
    if !HasSelf(sources) {
      sources := sources + [SelfSource];
    }
    rewritten := ScriptSrcName + " " + Join(sources, " ");
  }

  /** The loop of update_html.py:151-165, with its `script_src_found` flag. */
  method RewriteDirectives(directives: seq<string>) returns (newDirectives: seq<string>, scriptSrcFound: bool)
    ensures scriptSrcFound == HasScriptSrc(directives)
    ensures newDirectives == NewDirectives(directives)
  {
    newDirectives := [];
    scriptSrcFound := false;
    var i := 0;
    while i < |directives|
      invariant 0 <= i <= |directives|
      invariant |newDirectives| == i
      invariant forall k :: 0 <= k < i ==> newDirectives[k] == RewriteDirective(directives[k])
      invariant scriptSrcFound == HasScriptSrc(directives[..i])
    {
      var d := directives[i];
      var next := d;
      if IsScriptSrc(d) {
        next := RewriteScriptSrcDirective(d);
        scriptSrcFound := true;
      }
      RewriteStep(directives, newDirectives, i, next);
      newDirectives := newDirectives + [next];
      i := i + 1;
    }
    assert directives[..i] == directives;
    NewDirectivesUnfold(directives, newDirectives);
    if !scriptSrcFound {
      newDirectives := newDirectives + [DefaultScriptSrc];
    }
  }

  lemma NewDirectivesUnfold(ds: seq<string>, m: seq<string>)
    requires |m| == |ds|
    requires forall k :: 0 <= k < |ds| ==> m[k] == RewriteDirective(ds[k])
    ensures NewDirectives(ds) == m + (if HasScriptSrc(ds) then [] else [DefaultScriptSrc])
  {
    assert m == seq(|ds|, i requires 0 <= i < |ds| => RewriteDirective(ds[i]));
  }

  /** One iteration of the loop keeps its invariants. */
  lemma RewriteStep(ds: seq<string>, m: seq<string>, i: nat, next: string)
    requires i < |ds| && |m| == i
    requires forall k :: 0 <= k < i ==> m[k] == RewriteDirective(ds[k])
    requires next == RewriteDirective(ds[i])
    ensures forall k :: 0 <= k < i + 1 ==> (m + [next])[k] == RewriteDirective(ds[k])
    ensures HasScriptSrc(ds[..i + 1]) <==> HasScriptSrc(ds[..i]) || IsScriptSrc(ds[i])
  {
    var m' := m + [next];
    forall k | 0 <= k < i + 1 ensures m'[k] == RewriteDirective(ds[k]) {
      if k < i {
        assert m'[k] == m[k];
      }
    }
    HasScriptSrcPrefix(ds, i);
  }

  lemma HasScriptSrcPrefix(ds: seq<string>, i: nat)
    requires i < |ds|
    ensures HasScriptSrc(ds[..i + 1]) <==> HasScriptSrc(ds[..i]) || IsScriptSrc(ds[i])
  {
    assert ds[..i + 1] == ds[..i] + [ds[i]];
    HasScriptSrcSnoc(ds[..i], ds[i]);
  }

  lemma HasScriptSrcSnoc(ds: seq<string>, d: string)
    ensures HasScriptSrc(ds + [d]) <==> HasScriptSrc(ds) || IsScriptSrc(d)
  {
    var e := ds + [d];
    assert e[|ds|] == d;
    if HasScriptSrc(ds) {
      var k :| 0 <= k < |ds| && IsScriptSrc(ds[k]);
      assert e[k] == ds[k];
    }
    if HasScriptSrc(e) && !IsScriptSrc(d) {
      var k :| 0 <= k < |e| && IsScriptSrc(e[k]);
      assert k < |ds| && ds[k] == e[k];
    }
  }

  // ---------------------------------------------------------------------
  // Sources of a script-src directive

  /** Counts the sources that are `self` once quotes are stripped. */
  function CountSelf(srcs: seq<string>): nat {
    if srcs == [] then 0
    else CountSelf(srcs[..|srcs| - 1]) + (if IsSelf(srcs[|srcs| - 1]) then 1 else 0)
  }

  lemma {:induction false} CountSelfPositive(srcs: seq<string>)
    ensures CountSelf(srcs) > 0 <==> HasSelf(srcs)
    decreases |srcs|
  {
    if srcs != [] {
      var init := srcs[..|srcs| - 1];
      CountSelfPositive(init);
      if HasSelf(srcs) && !IsSelf(srcs[|srcs| - 1]) {
        var i :| 0 <= i < |srcs| && IsSelf(srcs[i]);
        assert init[i] == srcs[i];
      }
      if HasSelf(init) {
        var i :| 0 <= i < |init| && IsSelf(init[i]);
        assert srcs[i] == init[i];
      }
    }
  }

  lemma SelfSourceIsSelf()
    ensures IsSelf(SelfSource) && IsWord(SelfSource)
  {
    assert SelfSource[0] == '\'' && SelfSource[1..] == "self'";
    assert TrimLeftBy(SelfSource, IsQuote) == TrimLeftBy("self'", IsQuote) == "self'";
    assert "self'"[..4] == "self";
    assert TrimRightBy("self'", IsQuote) == TrimRightBy("self", IsQuote) == "self";
  }

  /** `'self'` is added exactly when no source is `self`: the existing sources
      keep their order, and a `self` source is never duplicated. */
  lemma WithSelfSources(srcs: seq<string>)
    ensures HasSelf(WithSelf(srcs))
    ensures WithSelf(srcs)[..|srcs|] == srcs
    ensures |WithSelf(srcs)| == |srcs| + (if HasSelf(srcs) then 0 else 1)
    ensures CountSelf(WithSelf(srcs)) == if CountSelf(srcs) == 0 then 1 else CountSelf(srcs)
  {
    SelfSourceIsSelf();
    CountSelfPositive(srcs);
    var w := WithSelf(srcs);
    if !HasSelf(srcs) {
      assert w[..|w| - 1] == srcs;
      assert IsSelf(w[|w| - 1]);
    }
  }

  lemma ScriptSrcNameFacts()
    ensures IsWord(ScriptSrcName) && Lower(ScriptSrcName) == ScriptSrcName
  {
    assert forall i :: 0 <= i < |ScriptSrcName| ==> !('A' <= ScriptSrcName[i] <= 'Z') && !IsSpace(ScriptSrcName[i]);
  }

  /** The sources a rewritten `script-src` directive carries: never empty,
      and each one a maximal run of non-whitespace. */
  lemma NewSourcesAreWords(d: string)
    ensures var srcs := WithSelf(Sources(d));
            |srcs| > 0 && forall i :: 0 <= i < |srcs| ==> IsWord(srcs[i])
  {
    var parts := Words(d);
    var srcs := WithSelf(Sources(d));
    WithSelfSources(Sources(d));
    SelfSourceIsSelf();
    forall i | 0 <= i < |srcs| ensures IsWord(srcs[i]) {
      if i < |Sources(d)| {
        assert srcs[i] == parts[i + 1];
      }
    }
  }

  lemma RewriteScriptSrcIsJoin(d: string)
    ensures RewriteScriptSrc(d) == Join([ScriptSrcName] + WithSelf(Sources(d)), " ")
  {
    var srcs := WithSelf(Sources(d));
    NewSourcesAreWords(d);
    var ws := [ScriptSrcName] + srcs;
    assert ws[1..] == srcs;
  }

  /** A rewritten `script-src` directive is the lower-case name followed by the
      original sources in order, single-space separated, plus `'self'` if
      it was missing; it is itself a `script-src` directive with `self`. */
  lemma RewriteScriptSrcWords(d: string)
    ensures var r := RewriteScriptSrc(d);
            Words(r) == [ScriptSrcName] + WithSelf(Sources(d))
            && Sources(r) == WithSelf(Sources(d))
            && IsScriptSrc(r) && HasSelf(Sources(r))
  {
    var srcs := WithSelf(Sources(d));
    WithSelfSources(Sources(d));
    NewSourcesAreWords(d);
    ScriptSrcNameFacts();
    var ws := [ScriptSrcName] + srcs;
    assert forall i :: 0 <= i < |ws| ==> IsWord(ws[i]) by {
      forall i | 0 <= i < |ws| ensures IsWord(ws[i]) {
        if i > 0 { assert ws[i] == srcs[i - 1]; }
      }
    }
    RewriteScriptSrcIsJoin(d);
    WordsJoin(ws);
    assert ws[1..] == srcs;
    var r := RewriteScriptSrc(d);
    assert r[..10] == ScriptSrcName;
  }

  /** Rewriting a rewritten `script-src` directive changes nothing. */
  lemma RewriteScriptSrcIdempotent(d: string)
    ensures RewriteScriptSrc(RewriteScriptSrc(d)) == RewriteScriptSrc(d)
  {
    RewriteScriptSrcWords(d);
    WithSelfSources(Sources(d));
  }

  /** A directive the splitter can produce: trimmed, non-empty, without `;`. */
  predicate WellFormed(d: string) {
    Trimmed(d) && ';' !in d
  }

  lemma RewriteScriptSrcShape(d: string, c: char)
    requires c !in d && c !in DefaultScriptSrc
    ensures Trimmed(RewriteScriptSrc(d)) && c !in RewriteScriptSrc(d)
  {
    var srcs := WithSelf(Sources(d));
    var parts := Words(d);
    WithSelfSources(Sources(d));
    WordsFree(d, c);
    forall i | 0 <= i < |srcs| ensures c !in srcs[i] {
      if i < |Sources(d)| {
        assert srcs[i] == parts[i + 1];
      }
    }
    JoinFree(srcs, " ", c);
    NewSourcesAreWords(d);
    JoinEndsWithLast(srcs, " ");
    var j := Join(srcs, " ");
    var l := srcs[|srcs| - 1];
    assert j[|j| - 1] == l[|l| - 1];
    assert RewriteScriptSrc(d)[0] == ScriptSrcName[0] == 's';
  }

  // ---------------------------------------------------------------------
  // The directive list

  /** The directives that are not `script-src`, in their order. */
  function Others(ds: seq<string>): seq<string> {
    if ds == [] then [] else (if IsScriptSrc(ds[0]) then [] else [ds[0]]) + Others(ds[1..])
  }

  lemma {:induction false} OthersAppend(a: seq<string>, b: seq<string>)
    ensures Others(a + b) == Others(a) + Others(b)
    decreases |a|
  {
    if a == [] {
      assert a + b == b;
    } else {
      assert (a + b)[1..] == a[1..] + b;
      OthersAppend(a[1..], b);
    }
  }

  lemma {:induction false} OthersOfRewritten(ds: seq<string>)
    ensures Others(seq(|ds|, i requires 0 <= i < |ds| => RewriteDirective(ds[i]))) == Others(ds)
    decreases |ds|
  {
    var m := seq(|ds|, i requires 0 <= i < |ds| => RewriteDirective(ds[i]));
    if ds != [] {
      var t := ds[1..];
      OthersOfRewritten(t);
      assert m[1..] == seq(|t|, i requires 0 <= i < |t| => RewriteDirective(t[i]));
      if IsScriptSrc(ds[0]) {
        RewriteScriptSrcWords(ds[0]);
      }
    }
  }

  /** Directives that are not `script-src` come out unchanged and in their
      original order; `script-src` directives and the fallback are the only
      others. */
  lemma NewDirectivesKeepOthers(ds: seq<string>)
    ensures Others(NewDirectives(ds)) == Others(ds)
  {
    var m := seq(|ds|, i requires 0 <= i < |ds| => RewriteDirective(ds[i]));
    var tail := if HasScriptSrc(ds) then [] else [DefaultScriptSrc];
    OthersAppend(m, tail);
    OthersOfRewritten(ds);
    DefaultIsRewritten();
    if tail != [] {
      assert Others(tail) == [] by {
        assert tail[1..] == [];
      }
    }
  }

  lemma DefaultIsRewritten()
    ensures RewriteScriptSrc(DefaultScriptSrc) == DefaultScriptSrc
    ensures IsScriptSrc(DefaultScriptSrc) && Sources(DefaultScriptSrc) == [SelfSource]
  {
    SelfSourceIsSelf();
    ScriptSrcNameFacts();
    var ws := [ScriptSrcName, SelfSource];
    assert ws[1..] == [SelfSource];
    assert Join(ws, " ") == DefaultScriptSrc;
    WordsJoin(ws);
    assert DefaultScriptSrc[..10] == ScriptSrcName;
    assert HasSelf([SelfSource]);
  }

  /** The result always holds a `script-src` directive, every `script-src`
      directive in it lists a `self` source, the directives of the input keep
      their positions, and `script-src 'self'` is appended as the last
      directive exactly when the input had no `script-src`. */
  lemma NewDirectivesAllowSelf(ds: seq<string>)
    ensures var r := NewDirectives(ds);
            HasScriptSrc(r)
            && (forall i :: 0 <= i < |r| && IsScriptSrc(r[i]) ==> HasSelf(Sources(r[i])))
            && |r| == |ds| + (if HasScriptSrc(ds) then 0 else 1)
            && (forall i :: 0 <= i < |ds| ==> r[i] == RewriteDirective(ds[i]))
            && (!HasScriptSrc(ds) ==> r[|r| - 1] == DefaultScriptSrc)
  {
    var r := NewDirectives(ds);
    DefaultIsRewritten();
    forall i | 0 <= i < |r| && IsScriptSrc(r[i]) ensures HasSelf(Sources(r[i])) {
      if i < |ds| {
        if IsScriptSrc(ds[i]) {
          RewriteScriptSrcWords(ds[i]);
        }
      }
      SelfSourceIsSelf();
      assert HasSelf([SelfSource]);
    }
    if HasScriptSrc(ds) {
      var k :| 0 <= k < |ds| && IsScriptSrc(ds[k]);
      RewriteScriptSrcWords(ds[k]);
      assert IsScriptSrc(r[k]);
    } else {
      assert IsScriptSrc(r[|r| - 1]);
    }
  }

  /** Rewriting the rewritten list changes nothing. */
  lemma NewDirectivesIdempotent(ds: seq<string>)
    ensures NewDirectives(NewDirectives(ds)) == NewDirectives(ds)
  {
    var r := NewDirectives(ds);
    NewDirectivesAllowSelf(ds);
    DefaultIsRewritten();
    forall i | 0 <= i < |r| ensures RewriteDirective(r[i]) == r[i] {
      if i < |ds| && IsScriptSrc(ds[i]) {
        RewriteScriptSrcWords(ds[i]);
        RewriteScriptSrcIdempotent(ds[i]);
      }
    }
  }

  /** Well-formed directives stay well-formed, and a character that is in no
      input directive and not in `script-src 'self'` is in no output directive. */
  lemma NewDirectivesShape(ds: seq<string>, c: char)
    requires forall i :: 0 <= i < |ds| ==> WellFormed(ds[i]) && c !in ds[i]
    requires c !in DefaultScriptSrc
    ensures var r := NewDirectives(ds);
            forall i :: 0 <= i < |r| ==> WellFormed(r[i]) && c !in r[i]
  {
    var r := NewDirectives(ds);
    assert ';' !in DefaultScriptSrc;
    assert Trimmed(DefaultScriptSrc);
    forall i | 0 <= i < |r| ensures WellFormed(r[i]) && c !in r[i] {
      if i < |ds| && IsScriptSrc(ds[i]) {
        RewriteScriptSrcShape(ds[i], c);
        RewriteScriptSrcShape(ds[i], ';');
      }
    }
  }

  // ---------------------------------------------------------------------
  // Parsing and serialising

  lemma {:induction false} CleanShape(pieces: seq<string>, c: char)
    requires forall i :: 0 <= i < |pieces| ==> c !in pieces[i]
    ensures var ds := Clean(pieces); forall i :: 0 <= i < |ds| ==> Trimmed(ds[i]) && c !in ds[i]
    decreases |pieces|
  {
    if pieces != [] {
      TrimResult(pieces[0]);
      CleanShape(pieces[1..], c);
      var head := if Trim(pieces[0]) == [] then [] else [Trim(pieces[0])];
      var ds := Clean(pieces);
      assert ds == head + Clean(pieces[1..]);
      forall i | 0 <= i < |ds| ensures Trimmed(ds[i]) && c !in ds[i] {
        if i >= |head| {
          assert ds[i] == Clean(pieces[1..])[i - |head|];
        }
      }
    }
  }

  /** Every parsed directive is trimmed, non-empty and free of `;`, and a
      character absent from the input is absent from every directive. */
  lemma ParseShape(s: string, c: char)
    requires c !in s
    ensures var ds := ParseDirectives(s);
            forall i :: 0 <= i < |ds| ==> WellFormed(ds[i]) && c !in ds[i]
  {
    JoinSplit(s, ';');
    SplitFree(s, ';', c);
    CleanShape(Split(s, ';'), ';');
    CleanShape(Split(s, ';'), c);
    assert ParseDirectives(s) == Clean(Split(s, ';'));
  }

  lemma CleanSingle(x: string)
    ensures Clean([x]) == if Trim(x) == [] then [] else [Trim(x)]
  {
    assert [x][1..] == [];
  }

  lemma ParseBlank(w: string)
    requires AllSpace(w) && ';' !in w
    ensures ParseDirectives(w) == []
  {
    SplitNoSep(w, ';');
    TrimAllSpace(w);
    CleanSingle(w);
  }

  lemma ParsePaddedSingle(w: string, d: string)
    requires AllSpace(w) && ';' !in w && WellFormed(d)
    ensures ParseDirectives(w + d) == [d]
  {
    SplitNoSep(w + d, ';');
    TrimPadded(w, d);
    CleanSingle(w + d);
  }

  lemma ParsePaddedCons(w: string, d: string, rest: string)
    requires AllSpace(w) && ';' !in w && WellFormed(d)
    ensures ParseDirectives(w + d + "; " + rest) == [d] + ParseDirectives(" " + rest)
  {
    assert w + d + "; " + rest == (w + d) + [';'] + (" " + rest);
    SplitAtSep(w + d, ';', " " + rest);
    TrimPadded(w, d);
    var pieces := [w + d] + Split(" " + rest, ';');
    assert pieces[1..] == Split(" " + rest, ';');
  }

  lemma {:induction false} ParsePadded(w: string, ds: seq<string>)
    requires AllSpace(w) && ';' !in w
    requires forall i :: 0 <= i < |ds| ==> WellFormed(ds[i])
    ensures ParseDirectives(w + Join(ds, "; ")) == ds
    decreases |ds|
  {
    if |ds| == 0 {
      assert w + Join(ds, "; ") == w;
      ParseBlank(w);
    } else if |ds| == 1 {
      assert w + Join(ds, "; ") == w + ds[0];
      ParsePaddedSingle(w, ds[0]);
    } else {
      var tail := Join(ds[1..], "; ");
      assert w + Join(ds, "; ") == w + ds[0] + "; " + tail;
      ParsePaddedCons(w, ds[0], tail);
      ParsePadded(" ", ds[1..]);
      assert ds == [ds[0]] + ds[1..];
    }
  }

  /** Parsing undoes the `"; "` join of well-formed directives. */
  lemma ParseJoin(ds: seq<string>)
    requires forall i :: 0 <= i < |ds| ==> WellFormed(ds[i])
    ensures ParseDirectives(Join(ds, "; ")) == ds
  {
    ParsePadded("", ds);
    assert "" + Join(ds, "; ") == Join(ds, "; ");
  }

  /** On a value whose only references are `&#39;`, the result decodes to the
      plain `"; "` join of the rewritten directives: in entity mode every
      apostrophe is written `&#39;` and no literal apostrophe is left, and
      outside it the join is written as it is. */
  lemma NewContentDecodes(raw: string)
    requires OnlyAposEntities(raw)
    ensures var joined := Join(NewDirectives(ParseDirectives(Unescape(raw))), "; ");
            Unescape(NewContent(raw)) == joined
            && '&' !in joined
            && (ContainsAposEntity(raw) ==> '\'' !in NewContent(raw))
            && (!ContainsAposEntity(raw) ==> NewContent(raw) == joined)
  {
    var dec := Unescape(raw);
    UnescapeRemovesAmp(raw);
    var ds := ParseDirectives(dec);
    ParseShape(dec, '&');
    assert '&' !in DefaultScriptSrc;
    NewDirectivesShape(ds, '&');
    var nd := NewDirectives(ds);
    JoinFree(nd, "; ", '&');
    var joined := Join(nd, "; ");
    if ContainsAposEntity(raw) {
      UnescapeEscape(joined);
    } else {
      UnescapeNoAmp(joined);
    }
  }

  /** Rewriting the rewritten value yields the same string, so the change
      guard of line 173 reports no change the second time. */
  lemma NewContentIdempotent(raw: string)
    requires OnlyAposEntities(raw)
    ensures NewContent(NewContent(raw)) == NewContent(raw)
  {
    var dec := Unescape(raw);
    UnescapeRemovesAmp(raw);
    var ds := ParseDirectives(dec);
    ParseShape(dec, '&');
    assert '&' !in DefaultScriptSrc;
    NewDirectivesShape(ds, '&');
    var nd := NewDirectives(ds);
    var joined := Join(nd, "; ");
    NewContentDecodes(raw);
    var out := NewContent(raw);
    ParseJoin(nd);
    NewDirectivesIdempotent(ds);
    assert Join(NewDirectives(ParseDirectives(Unescape(out))), "; ") == joined;
    if ContainsAposEntity(raw) {
      if !ContainsAposEntity(out) {
        if '\'' in joined {
          EscapeShowsEntity(joined);
        }
        EscapeNoApos(joined);
      }
    } else {
      NoAmpNoEntity(joined);
    }
  }
}
