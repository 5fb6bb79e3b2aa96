/** The Python `str` operations that the CSP rewriter of update_html.py uses,
    written over `string` (= `seq<char>`): `strip`, `split(';')`, `split()`,
    `lower`, `join`, `replace` and the substring test `in`. */
module TextOps {

  /** The characters Python's `str.isspace` accepts; `strip()` and `split()`
      without arguments treat exactly these as whitespace. */
  predicate IsSpace(c: char) {
    c == ' ' || ('\t' <= c <= '\r') || ('\U{1c}' <= c <= '\U{1f}')
    || c == '\U{85}' || c == '\U{a0}' || c == '\U{1680}'
    || ('\U{2000}' <= c <= '\U{200a}') || c == '\U{2028}' || c == '\U{2029}'
    || c == '\U{202f}' || c == '\U{205f}' || c == '\U{3000}'
  }

  predicate AllSpace(s: string) {
    forall i :: 0 <= i < |s| ==> IsSpace(s[i])
  }

  /** A non-empty string that `strip()` leaves as it is. */
  predicate Trimmed(s: string) {
    s != [] && !IsSpace(s[0]) && !IsSpace(s[|s| - 1])
  }

  // ---------------------------------------------------------------------
  // strip

  /** Drops the longest prefix whose characters satisfy `drop`. */
  function TrimLeftBy(s: string, drop: char -> bool): string
    decreases |s|
  {
    if s != [] && drop(s[0]) then TrimLeftBy(s[1..], drop) else s
  }

  /** Drops the longest suffix whose characters satisfy `drop`. */
  function TrimRightBy(s: string, drop: char -> bool): string
    decreases |s|
  {
    if s != [] && drop(s[|s| - 1]) then TrimRightBy(s[..|s| - 1], drop) else s
  }

  /** `TrimLeftBy` keeps a suffix, drops only characters satisfying `drop`,
      and stops at the first one that does not. */
  lemma {:induction false} TrimLeftByFacts(s: string, drop: char -> bool)
    ensures var r := TrimLeftBy(s, drop);
            |r| <= |s| && r == s[|s| - |r|..]
            && (forall i :: 0 <= i < |s| - |r| ==> drop(s[i]))
            && (r != [] ==> !drop(r[0]))
    decreases |s|
  {
    if s != [] && drop(s[0]) {
      TrimLeftByFacts(s[1..], drop);
    }
  }

  /** `TrimRightBy` keeps a prefix, drops only characters satisfying `drop`,
      and stops at the last one that does not. */
  lemma {:induction false} TrimRightByFacts(s: string, drop: char -> bool)
    ensures var r := TrimRightBy(s, drop);
            |r| <= |s| && r == s[..|r|]
            && (forall i :: |r| <= i < |s| ==> drop(s[i]))
            && (r != [] ==> !drop(r[|r| - 1]))
    decreases |s|
  {
    if s != [] && drop(s[|s| - 1]) {
      TrimRightByFacts(s[..|s| - 1], drop);
    }
  }

  /** Python `s.strip(chars)`, the set of characters given by `drop`. */
  function StripBy(s: string, drop: char -> bool): string {
    TrimRightBy(TrimLeftBy(s, drop), drop)
  }

  /** Python `s.strip()`. */
  function Trim(s: string): string {
    StripBy(s, IsSpace)
  }

  lemma TrimResult(s: string)
    ensures Trim(s) == [] || Trimmed(Trim(s))
    ensures forall c :: c in Trim(s) ==> c in s
  {
    var l := TrimLeftBy(s, IsSpace);
    var r := TrimRightBy(l, IsSpace);
    TrimLeftByFacts(s, IsSpace);
    TrimRightByFacts(l, IsSpace);
    assert r == Trim(s);
    if r != [] {
      assert r[0] == l[0];
    }
    forall c | c in r ensures c in s {
      var i :| 0 <= i < |r| && r[i] == c;
      assert l[i] == c;
      assert s[|s| - |l| + i] == c;
    }
  }

  lemma {:induction false} TrimAllSpace(w: string)
    requires AllSpace(w)
    ensures TrimLeftBy(w, IsSpace) == [] && Trim(w) == []
    decreases |w|
  {
    if w != [] {
      TrimAllSpace(w[1..]);
    }
  }

  /** Whitespace in front of a trimmed directive is all that `strip()` removes. */
  lemma {:induction false} TrimPadded(w: string, d: string)
    requires AllSpace(w) && Trimmed(d)
    ensures Trim(w + d) == d
    decreases |w|
  {
    if w == [] {
      assert w + d == d;
    } else {
      assert (w + d)[1..] == w[1..] + d;
      TrimPadded(w[1..], d);
    }
  }

  // ---------------------------------------------------------------------
  // split(c) and join

  /** Python `s.split(c)` for a one-character separator: always at least one piece. */
  function Split(s: string, c: char): (r: seq<string>)
    ensures |r| >= 1
    decreases |s|
  {
    if s == [] then [""]
    else if s[0] == c then [""] + Split(s[1..], c)
    else var rest := Split(s[1..], c); [[s[0]] + rest[0]] + rest[1..]
  }

  /** Python `sep.join(ws)`. */
  function Join(ws: seq<string>, sep: string): string {
    if |ws| == 0 then ""
    else if |ws| == 1 then ws[0]
    else ws[0] + sep + Join(ws[1..], sep)
  }

  /** `split` is the inverse of `join` with the same separator, and no piece holds it. */
  lemma {:induction false} JoinSplit(s: string, c: char)
    ensures Join(Split(s, c), [c]) == s
    ensures forall i :: 0 <= i < |Split(s, c)| ==> c !in Split(s, c)[i]
    decreases |s|
  {
    if s == [] {
    } else if s[0] == c {
      JoinSplit(s[1..], c);
      var rest := Split(s[1..], c);
      assert Split(s, c) == [""] + rest;
      assert ([""] + rest)[1..] == rest;
    } else {
      JoinSplit(s[1..], c);
      var rest := Split(s[1..], c);
      var r := Split(s, c);
      assert r == [[s[0]] + rest[0]] + rest[1..];
      if |rest| == 1 {
        assert Join(r, [c]) == [s[0]] + rest[0];
      } else {
        assert r[1..] == rest[1..];
        assert Join(rest, [c]) == rest[0] + [c] + Join(rest[1..], [c]);
      }
      assert s == [s[0]] + s[1..];
      forall i | 0 <= i < |r| ensures c !in r[i] {
        if i > 0 { assert r[i] == rest[i]; }
      }
    }
  }

  /** A character absent from `s` is absent from every piece of its split. */
  lemma {:induction false} SplitFree(s: string, c: char, x: char)
    requires x !in s
    ensures forall i :: 0 <= i < |Split(s, c)| ==> x !in Split(s, c)[i]
    decreases |s|
  {
    if s != [] {
      SplitFree(s[1..], c, x);
      var rest := Split(s[1..], c);
      var r := Split(s, c);
      if s[0] != c {
        assert r == [[s[0]] + rest[0]] + rest[1..];
        forall i | 0 <= i < |r| ensures x !in r[i] {
          if i > 0 { assert r[i] == rest[i]; }
        }
      } else {
        assert r == [""] + rest;
        forall i | 0 <= i < |r| ensures x !in r[i] {
          if i > 0 { assert r[i] == rest[i - 1]; }
        }
      }
    }
  }

  lemma {:induction false} SplitNoSep(a: string, c: char)
    requires c !in a
    ensures Split(a, c) == [a]
    decreases |a|
  {
    if a != [] {
      SplitNoSep(a[1..], c);
      assert [a[0]] + a[1..] == a;
    }
  }

  lemma {:induction false} SplitAtSep(a: string, c: char, b: string)
    requires c !in a
    ensures Split(a + [c] + b, c) == [a] + Split(b, c)
    decreases |a|
  {
    if a == [] {
      assert a + [c] + b == [c] + b;
      assert ([c] + b)[1..] == b;
    } else {
      assert (a + [c] + b)[1..] == a[1..] + [c] + b;
      SplitAtSep(a[1..], c, b);
      assert [a[0]] + a[1..] == a;
    }
  }

  /** A character in neither a separator nor any piece is not in the join. */
  lemma {:induction false} JoinFree(ws: seq<string>, sep: string, c: char)
    requires c !in sep
    requires forall i :: 0 <= i < |ws| ==> c !in ws[i]
    ensures c !in Join(ws, sep)
    decreases |ws|
  {
    if |ws| > 1 {
      JoinFree(ws[1..], sep, c);
    }
  }

  /** The join ends with its last piece. */
  lemma {:induction false} JoinEndsWithLast(ws: seq<string>, sep: string)
    requires |ws| > 0
    ensures var j := Join(ws, sep); var l := ws[|ws| - 1];
            |l| <= |j| && j[|j| - |l|..] == l
    decreases |ws|
  {
    if |ws| > 1 {
      JoinEndsWithLast(ws[1..], sep);
      assert ws[1..][|ws[1..]| - 1] == ws[|ws| - 1];
    }
  }

  // ---------------------------------------------------------------------
  // split() without arguments

  predicate IsWord(w: string) {
    w != [] && forall i :: 0 <= i < |w| ==> !IsSpace(w[i])
  }

  /** The longest prefix of `s` without whitespace. */
  function Word(s: string): (w: string)
    ensures |w| <= |s| && w == s[..|w|]
    ensures forall i :: 0 <= i < |w| ==> !IsSpace(w[i])
    ensures |w| == |s| || IsSpace(s[|w|])
    decreases |s|
  {
    if s == [] || IsSpace(s[0]) then [] else [s[0]] + Word(s[1..])
  }

  /** Python `s.split()`: the maximal runs of non-whitespace, in order. */
  function Words(s: string): (ws: seq<string>)
    ensures forall i :: 0 <= i < |ws| ==> IsWord(ws[i])
    decreases |s|
  {
    if s == [] then []
    else if IsSpace(s[0]) then Words(s[1..])
    else var w := Word(s); [w] + Words(s[|w|..])
  }

  /** A character absent from `s` is absent from each of its words. */
  lemma {:induction false} WordsFree(s: string, c: char)
    requires c !in s
    ensures forall i :: 0 <= i < |Words(s)| ==> c !in Words(s)[i]
    decreases |s|
  {
    if s == [] {
    } else if IsSpace(s[0]) {
      WordsFree(s[1..], c);
    } else {
      var w := Word(s);
      assert c !in s[|w|..];
      WordsFree(s[|w|..], c);
      var ws := Words(s);
      assert ws == [w] + Words(s[|w|..]);
      forall i | 0 <= i < |ws| ensures c !in ws[i] {
        if i > 0 { assert ws[i] == Words(s[|w|..])[i - 1]; }
      }
    }
  }

  lemma {:induction false} WordOfPrefix(w: string, rest: string)
    requires forall i :: 0 <= i < |w| ==> !IsSpace(w[i])
    requires rest == [] || IsSpace(rest[0])
    ensures Word(w + rest) == w
    decreases |w|
  {
    if w != [] {
      assert (w + rest)[1..] == w[1..] + rest;
      WordOfPrefix(w[1..], rest);
      assert w == [w[0]] + w[1..];
    } else {
      assert w + rest == rest;
    }
  }

  /** `split()` undoes a single-space `join` of words. */
  lemma {:induction false} WordsJoin(ws: seq<string>)
    requires forall i :: 0 <= i < |ws| ==> IsWord(ws[i])
    ensures Words(Join(ws, " ")) == ws
    decreases |ws|
  {
    if |ws| == 0 {
    } else if |ws| == 1 {
      var w := ws[0];
      WordOfPrefix(w, "");
      assert w + "" == w;
      assert w[|w|..] == [];
    } else {
      var w := ws[0];
      var tail := Join(ws[1..], " ");
      var s := Join(ws, " ");
      assert s == w + (" " + tail);
      WordOfPrefix(w, " " + tail);
      assert s[|w|..] == " " + tail;
      assert (" " + tail)[1..] == tail;
      WordsJoin(ws[1..]);
      assert ws == [w] + ws[1..];
    }
  }

  // ---------------------------------------------------------------------
  // lower

  /** Python `str.lower` restricted to ASCII letters. */
  function LowerChar(c: char): char {
    if 'A' <= c <= 'Z' then (c as int + 32) as char else c
  }

  function Lower(s: string): string {
    seq(|s|, i requires 0 <= i < |s| => LowerChar(s[i]))
  }

  lemma {:induction false} LowerOfLowercase(s: string)
    requires forall i :: 0 <= i < |s| ==> !('A' <= s[i] <= 'Z')
    ensures Lower(s) == s
  {
    var r := Lower(s);
    assert forall i :: 0 <= i < |s| ==> r[i] == s[i];
  }

  /** What a `^pattern$` search with `re.IGNORECASE` accepts, for a pattern
      without metacharacters given in lower case: the pattern up to ASCII
      case, optionally followed by one newline (Python's `$` also matches
      before a final newline). */
  predicate MatchesIgnoreCase(v: string, lowered: string) {
    Lower(v) == lowered || Lower(v) == lowered + "\n"
  }

  /** A lower-case value matches its own pattern. */
  lemma MatchesItself(s: string)
    requires forall i :: 0 <= i < |s| ==> !('A' <= s[i] <= 'Z')
    ensures MatchesIgnoreCase(s, s)
  {
    LowerOfLowercase(s);
  }

  // ---------------------------------------------------------------------
  // The apostrophe entity

  const AposEntity: string := "&#39;"

  /** `&#39;` occurs in `s` at position `i`. */
  predicate AposAt(s: string, i: int) {
    0 <= i && i + 5 <= |s| && s[i..i + 5] == AposEntity
  }

  /** Python `"&#39;" in s`. */
  predicate ContainsAposEntity(s: string) {
    exists i :: 0 <= i < |s| && AposAt(s, i)
  }

  /** Every `&` in `s` begins an `&#39;`: the strings on which replacing
      `&#39;` by `'` is all that `html.unescape` does. */
  predicate OnlyAposEntities(s: string) {
    forall i :: 0 <= i < |s| && s[i] == '&' ==> AposAt(s, i)
  }

  /** Python `s.replace("'", "&#39;")`. */
  function EscapeApos(s: string): (r: string)
    ensures '\'' !in r
  {
    if s == [] then []
    else (if s[0] == '\'' then AposEntity else [s[0]]) + EscapeApos(s[1..])
  }

  /** Python `s.replace("&#39;", "'")`, scanning left to right. */
  function Unescape(s: string): string
    decreases |s|
  {
    if |s| >= 5 && s[..5] == AposEntity then "'" + Unescape(s[5..])
    else if s == [] then []
    else [s[0]] + Unescape(s[1..])
  }

  /** Unescaping undoes escaping on a string without `&`. */
  lemma {:induction false} UnescapeEscape(s: string)
    requires '&' !in s
    ensures Unescape(EscapeApos(s)) == s
  {
    if s != [] {
      var e := EscapeApos(s);
      UnescapeEscape(s[1..]);
      if s[0] == '\'' {
        assert e == AposEntity + EscapeApos(s[1..]);
        assert e[..5] == AposEntity && e[5..] == EscapeApos(s[1..]);
      } else {
        assert e == [s[0]] + EscapeApos(s[1..]);
        assert |e| >= 5 ==> e[..5][0] == s[0] != '&';
        assert e[1..] == EscapeApos(s[1..]);
      }
      assert s == [s[0]] + s[1..];
    }
  }

  lemma {:induction false} UnescapeNoAmp(s: string)
    requires '&' !in s
    ensures Unescape(s) == s
    decreases |s|
  {
    if s != [] {
      assert |s| >= 5 ==> s[..5][0] == s[0] != '&';
      UnescapeNoAmp(s[1..]);
      assert s == [s[0]] + s[1..];
    }
  }

  /** When every `&` starts an entity, unescaping leaves no `&` at all. */
  lemma {:induction false} UnescapeRemovesAmp(s: string)
    requires OnlyAposEntities(s)
    ensures '&' !in Unescape(s)
    decreases |s|
  {
    if |s| >= 5 && s[..5] == AposEntity {
      forall i | 0 <= i < |s[5..]| && s[5..][i] == '&' ensures AposAt(s[5..], i) {
        assert s[5 + i] == '&' && AposAt(s, 5 + i);
        assert s[5..][i..i + 5] == s[5 + i..5 + i + 5];
      }
      UnescapeRemovesAmp(s[5..]);
    } else if s != [] {
      assert s[0] != '&' by {
        if |s| >= 5 { assert s[0..5] == s[..5]; }
      }
      forall i | 0 <= i < |s[1..]| && s[1..][i] == '&' ensures AposAt(s[1..], i) {
        assert s[1 + i] == '&' && AposAt(s, 1 + i);
        assert s[1..][i..i + 5] == s[1 + i..1 + i + 5];
      }
      UnescapeRemovesAmp(s[1..]);
    }
  }

  lemma EscapeNoApos(s: string)
    requires '\'' !in s
    ensures EscapeApos(s) == s
  {
    if s != [] {
      EscapeNoApos(s[1..]);
      assert s == [s[0]] + s[1..];
    }
  }

  lemma EntityInSuffix(t: string, u: string)
    requires ContainsAposEntity(u)
    ensures ContainsAposEntity(t + u)
  {
    var i :| 0 <= i < |u| && AposAt(u, i);
    assert (t + u)[|t| + i..|t| + i + 5] == u[i..i + 5];
    assert AposAt(t + u, |t| + i);
  }

  /** Escaping a string that has an apostrophe produces the entity. */
  lemma {:induction false} EscapeShowsEntity(s: string)
    requires '\'' in s
    ensures ContainsAposEntity(EscapeApos(s))
  {
    var e := EscapeApos(s);
    if s[0] == '\'' {
      assert e == AposEntity + EscapeApos(s[1..]);
      assert e[0..5] == AposEntity;
      assert AposAt(e, 0);
    } else {
      assert s == [s[0]] + s[1..];
      EscapeShowsEntity(s[1..]);
      assert e == [s[0]] + EscapeApos(s[1..]);
      EntityInSuffix([s[0]], EscapeApos(s[1..]));
    }
  }

  lemma NoAmpNoEntity(s: string)
    requires '&' !in s
    ensures !ContainsAposEntity(s)
  {
    forall i | 0 <= i < |s| ensures !AposAt(s, i) {
      if i + 5 <= |s| { assert s[i..i + 5][0] == s[i]; }
    }
  }
}
