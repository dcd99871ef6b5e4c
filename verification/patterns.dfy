/**
  The fixed regular expressions of the tool, written out as predicates over one buffer line.
  A `\s*` in front of a literal that starts with a non-space character consumes exactly
  the whitespace run, so skipping that run is the only way such a pattern can match.
 */
module Patterns {
  import opened Wrappers
  import opened Strings

  // `^\s*//`: a line whose first non-blank text is a line comment.
  predicate IsCommentLine(line: string) {
    At(line, LeadingSpaces(line), "//")
  }

  // `;` anywhere in the line.
  predicate HasSemicolon(line: string) {
    ';' in line
  }

  const WireBegin := "vai-auto-wire-begin"
  const WireEnd := "vai-auto-wire-end"
  const PortBegin := "vai-auto-port-begin"
  const PortEnd := "vai-auto-port-end"

  // `^\s*/\*\s*<word>\s*\*/`: a block-comment marker at the start of the line.
  predicate IsMarker(line: string, word: string) {
    OpenAt(line, LeadingSpaces(line), word)
  }

  // `/\*\s*<word>\s*\*/` at position `i`.
  predicate OpenAt(line: string, i: nat, word: string) {
    At(line, i, "/*") && WordAt(line, SkipSpaces(line, i + 2), word)
  }

  // `<word>\s*\*/` at position `j`.
  predicate WordAt(line: string, j: nat, word: string) {
    At(line, j, word) && At(line, SkipSpaces(line, j + |word|), "*/")
  }

  // `^\s*//\s*<keyword>`, e.g. `^\s*//\s*vai-files:`.
  predicate IsKeywordComment(line: string, keyword: string) {
    var i := LeadingSpaces(line);
    && At(line, i, "//")
    && At(line, SkipSpaces(line, i + 2), keyword)
  }

  predicate IsIO(c: char) {
    c == 'I' || c == 'O'
  }

  // Length of the run of `I`/`O` characters starting at `q` (what `[IO]+` takes greedily).
  function IORun(s: string, q: nat): (n: nat)
    requires q <= |s|
    ensures q + n <= |s|
    decreases |s| - q
  {
    if q < |s| && IsIO(s[q]) then 1 + IORun(s, q + 1) else 0
  }

  // The groups of `//([WP]?)([IO]+)` when a match starts at position `p`, if one does:
  // the optional `W`/`P` is taken when an `I`/`O` follows it, otherwise it is left empty.
  function PortTagAt(s: string, p: nat): Option<(string, string)>
  {
    if !At(s, p, "//") then None
    else
      var q := p + 2;
      if q + 1 < |s| && (s[q] == 'W' || s[q] == 'P') && IsIO(s[q + 1]) then
        var n := IORun(s, q + 1);
        Some(([s[q]], s[q + 1..q + 1 + n]))
      else if q < |s| && IsIO(s[q]) then
        var n := IORun(s, q);
        Some(("", s[q..q + n]))
      else None
  }

  // `re.search(r'//([WP]?)([IO]+)', s)` from position `p` on: the leftmost match.
  function PortTagFrom(s: string, p: nat): Option<(string, string)>
    decreases |s| - p
  {
    if p >= |s| then None
    else if PortTagAt(s, p).Some? then PortTagAt(s, p)
    else PortTagFrom(s, p + 1)
  }

  // No match of the port-type pattern starts in [lo, hi).
  predicate NoTagIn(s: string, lo: nat, hi: nat) {
    forall q :: lo <= q < hi ==> PortTagAt(s, q).None?
  }

  // The port-type tag of a port-connection line: (kind, direction), or `None`.
  function PortTag(s: string): Option<(string, string)> {
    PortTagFrom(s, 0)
  }

  const AutoInst := "vai-auto-inst"

  // The literal pieces in order, the first at position `p` and each later one after the
  // whitespace run that follows its predecessor (the pieces joined by `\s*`).
  predicate PiecesAt(s: string, p: nat, pieces: seq<string>)
    decreases |pieces|
  {
    |pieces| == 0 || (At(s, p, pieces[0]) && PiecesAt(s, SkipSpaces(s, p + |pieces[0]|), pieces[1..]))
  }

  // `<name>\s*\(\s*/\*\s*vai-auto-inst\s*\*/`, with the instance name taken literally.
  function DirectivePieces(name: string): seq<string> {
    [name, "(", "/*", AutoInst, "*/"]
  }

  // The directive pattern matching at position `p`.
  predicate DirectiveAt(s: string, name: string, p: nat) {
    PiecesAt(s, p, DirectivePieces(name))
  }

  // Some position of the line starts the name, an opening parenthesis and the
  // `vai-auto-inst` comment, with any whitespace between the pieces.
  predicate HasDirective(s: string, name: string) {
    DirectiveFrom(s, name, 0)
  }

  // The search tries every start position from `p` on.
  predicate DirectiveFrom(s: string, name: string, p: nat)
    decreases |s| - p
  {
    if p > |s| then false else DirectiveAt(s, name, p) || DirectiveFrom(s, name, p + 1)
  }

  // ---------------------------------------------------------------------------
  // Lemmas

  lemma {:induction false} AtAgree(s: string, j: int, w1: string, w2: string, d: int)
    requires At(s, j, w1) && At(s, j, w2)
    requires 0 <= d < |w1| && d < |w2|
    ensures w1[d] == w2[d]
  {
    assert w1[d] == s[j..j + |w1|][d] == s[j + d];
    assert w2[d] == s[j..j + |w2|][d] == s[j + d];
  }

  // Two markers matched on the same line agree wherever both words have a character.
  lemma {:induction false} MarkerWordsAgree(line: string, w1: string, w2: string, d: int)
    requires IsMarker(line, w1) && IsMarker(line, w2)
    requires 0 <= d < |w1| && d < |w2|
    ensures w1[d] == w2[d]
  {
    var i := LeadingSpaces(line);
    AtAgree(line, SkipSpaces(line, i + 2), w1, w2, d);
  }

  /** `[IO]+` takes the whole run: every character in it is `I` or `O`, and the one after
      it is not. */
  lemma {:induction false} IORunSpec(s: string, q: nat)
    requires q <= |s|
    ensures forall k :: q <= k < q + IORun(s, q) ==> IsIO(s[k])
    ensures q + IORun(s, q) < |s| ==> !IsIO(s[q + IORun(s, q)])
    decreases |s| - q
  {
    if q < |s| && IsIO(s[q]) {
      IORunSpec(s, q + 1);
    }
  }

  /** A tag `//<kind><dir>` read from position `p`, with the direction run starting at `q`. */
  lemma {:induction false} TagPieces(s: string, p: nat, kind: string, q: nat, dir: string)
    requires At(s, p, "//") && q == p + 2 + |kind| && q <= |s| && s[p + 2..q] == kind
    requires IORun(s, q) > 0 && dir == s[q..q + IORun(s, q)]
    ensures |dir| > 0 && (forall k :: 0 <= k < |dir| ==> IsIO(dir[k]))
    ensures At(s, p, "//" + kind + dir)
  {
    var n := IORun(s, q);
    IORunSpec(s, q);
    assert s[p..q + n] == s[p..p + 2] + s[p + 2..q] + s[q..q + n];
  }

  /** A match at `p` has a kind of at most one letter, a non-empty `I`/`O` direction, and
      consists of `//`, the kind and the direction, in that order. */
  lemma PortTagAtSpec(s: string, p: nat)
    ensures var r := PortTagAt(s, p);
            && (r.Some? ==> r.value.0 in {"", "W", "P"})
            && (r.Some? ==> |r.value.1| > 0 && forall k :: 0 <= k < |r.value.1| ==> IsIO(r.value.1[k]))
            && (r.Some? ==> At(s, p, "//" + r.value.0 + r.value.1))
  {
    if At(s, p, "//") {
      var q := p + 2;
      var r := PortTagAt(s, p);
      if q + 1 < |s| && (s[q] == 'W' || s[q] == 'P') && IsIO(s[q + 1]) {
        assert r == Some(([s[q]], s[q + 1..q + 1 + IORun(s, q + 1)]));
        assert s[q..q + 1] == r.value.0;
        TagPieces(s, p, r.value.0, q + 1, r.value.1);
      } else if q < |s| && IsIO(s[q]) {
        assert r == Some(("", s[q..q + IORun(s, q)]));
        assert s[q..q] == r.value.0;
        TagPieces(s, p, r.value.0, q, r.value.1);
      }
    }
  }

  /** The port-type search fails exactly when no tag occurs anywhere in the line, and the
      groups it returns occur in the line together, behind `//`. */
  lemma PortTagSpec(s: string)
    ensures PortTag(s).None? <==> NoTagIn(s, 0, |s|)
    ensures PortTag(s).Some? ==> PortTag(s).value.0 in {"", "W", "P"}
    ensures PortTag(s).Some? ==> |PortTag(s).value.1| > 0 && forall k :: 0 <= k < |PortTag(s).value.1| ==> IsIO(PortTag(s).value.1[k])
    ensures PortTag(s).Some? ==>
              exists q :: 0 <= q < |s| && At(s, q, "//" + PortTag(s).value.0 + PortTag(s).value.1)
  {
    PortTagFromSpec(s, 0);
    if PortTag(s).Some? {
      var q :| 0 <= q < |s| && PortTagAt(s, q) == PortTag(s) && NoTagIn(s, 0, q);
      PortTagAtSpec(s, q);
    }
  }

  /** The search from `p` on fails exactly when no tag starts at or after `p`, and otherwise
      returns the groups of the leftmost tag. */
  lemma {:induction false} PortTagFromSpec(s: string, p: nat)
    ensures PortTagFrom(s, p).None? ==> NoTagIn(s, p, |s|)
    ensures PortTagFrom(s, p).Some? ==>
              exists q :: p <= q < |s| && PortTagAt(s, q) == PortTagFrom(s, p) && NoTagIn(s, p, q)
    decreases |s| - p
  {
    if p < |s| && PortTagAt(s, p).None? {
      PortTagFromSpec(s, p + 1);
      if PortTagFrom(s, p).Some? {
        var q :| p + 1 <= q < |s| && PortTagAt(s, q) == PortTagFrom(s, p + 1) && NoTagIn(s, p + 1, q);
        assert NoTagIn(s, p, q);
      }
    }
  }

  /** The directive search succeeds exactly when the pattern matches at some position. */
  lemma {:induction false} DirectiveFromSpec(s: string, name: string, p: nat)
    ensures DirectiveFrom(s, name, p) <==> exists q: nat :: p <= q <= |s| && DirectiveAt(s, name, q)
    decreases |s| - p
  {
    if p <= |s| {
      DirectiveFromSpec(s, name, p + 1);
    }
  }

  /** Pieces written one blank apart match the pieces pattern, as long as every piece after
      the first starts with a non-blank character. */
  lemma {:induction false} PiecesSpaced(pre: string, pieces: seq<string>)
    requires |pieces| > 0
    requires forall k :: 1 <= k < |pieces| ==> |pieces[k]| > 0 && !IsSpace(pieces[k][0])
    ensures PiecesAt(pre + Join(pieces, " "), |pre|, pieces)
    decreases |pieces|
  {
    var s := pre + Join(pieces, " ");
    var p0 := pieces[0];
    if |pieces| == 1 {
      assert s == pre + p0;
      assert s[|pre|..|pre| + |p0|] == p0;
      assert PiecesAt(s, SkipSpaces(s, |pre| + |p0|), pieces[1..]);
    } else {
      var rest := pieces[1..];
      var pre' := pre + p0 + " ";
      assert Join(pieces, " ") == p0 + " " + Join(rest, " ");
      assert s == pre' + Join(rest, " ");
      PiecesSpaced(pre', rest);
      assert |Join(rest, " ")| > 0 && Join(rest, " ")[0] == rest[0][0] by {
        if |rest| > 1 {
          assert Join(rest, " ") == rest[0] + " " + Join(rest[1..], " ");
        }
      }
      assert s[|pre| + |p0|] == ' ' && s[|pre| + |p0| + 1] == rest[0][0];
      SkipOneSpace(s, |pre| + |p0|);
      assert s[|pre|..|pre| + |p0|] == p0;
    }
  }

  /** The directive's pieces after the name, written one blank apart. */
  lemma DirectiveTailText()
    ensures Join(["(", "/*", AutoInst, "*/"], " ") == "( /* vai-auto-inst */"
  {
    assert ["(", "/*", AutoInst, "*/"][1..] == ["/*", AutoInst, "*/"];
    assert ["/*", AutoInst, "*/"][1..] == [AutoInst, "*/"];
    assert [AutoInst, "*/"][1..] == ["*/"];
    var j1 := Join(["*/"], " ");
    var j2 := Join([AutoInst, "*/"], " ");
    var j3 := Join(["/*", AutoInst, "*/"], " ");
    assert j1 == "*/";
    assert j2 == AutoInst + " " + j1;
    assert j3 == "/*" + " " + j2;
    assert Join(["(", "/*", AutoInst, "*/"], " ") == "(" + " " + j3;
    assert "(" + " " + ("/*" + " " + (AutoInst + " " + "*/")) == "( /* vai-auto-inst */";
  }

  /** The directive's pieces written one blank apart. */
  lemma DirectiveText(name: string)
    ensures Join(DirectivePieces(name), " ") == name + " ( /* vai-auto-inst */"
  {
    var ps := DirectivePieces(name);
    DirectiveTailText();
    assert ps[1..] == ["(", "/*", AutoInst, "*/"];
    assert Join(ps, " ") == name + " " + "( /* vai-auto-inst */";
  }

  /** A name followed by ` ( /* vai-auto-inst */` carries the directive for that name. */
  lemma DirectiveSpaced(pre: string, name: string)
    ensures HasDirective(pre + name + " ( /* vai-auto-inst */", name)
  {
    var ps := DirectivePieces(name);
    var s := pre + Join(ps, " ");
    PiecesSpaced(pre, ps);
    assert DirectiveAt(s, name, |pre|);
    DirectiveFromSpec(s, name, 0);
    DirectiveText(name);
    assert pre + name + " ( /* vai-auto-inst */" == s;
  }

  /** A marker comment written as `/* <word> */` behind `n` blanks is recognised as that
      marker, with indentation `n`. */
  lemma MarkerWritten(n: nat, word: string)
    requires |word| > 0 && !IsSpace(word[0])
    ensures IsMarker(Spaces(n) + ("/* " + word + " */"), word)
    ensures LeadingSpaces(Spaces(n) + ("/* " + word + " */")) == n
  {
    var t := "/* " + word + " */";
    var s := Spaces(n) + t;
    LeadingSpacesIndent(n, t);
    var j := n + 3 + |word|;
    assert s[n..n + 2] == "/*" by {
      assert s[n..n + 2] == t[..2];
    }
    assert s[n + 2] == ' ' && s[n + 3] == word[0];
    SkipOneSpace(s, n + 2);
    assert s[n + 3..j] == word by {
      assert s[n + 3..j] == t[3..3 + |word|];
    }
    assert s[j] == ' ' && s[j + 1] == '*';
    assert s[j + 1..j + 3] == "*/" by {
      assert s[j + 1..j + 3] == t[|word| + 4..];
    }
    SkipOneSpace(s, j);
  }

  /** Words that differ at some position cannot both be the marker of one line. */
  lemma MarkersDiffer(line: string, w1: string, w2: string, d: int)
    requires 0 <= d < |w1| && d < |w2| && w1[d] != w2[d]
    ensures !(IsMarker(line, w1) && IsMarker(line, w2))
  {
    if IsMarker(line, w1) && IsMarker(line, w2) {
      MarkerWordsAgree(line, w1, w2, d);
    }
  }

  // No line is two different declaration markers at once, so the order in which a scan
  // tests the markers cannot change which line each one is found on.
  lemma MarkersExclusive(line: string)
    ensures IsMarker(line, WireBegin) ==> !IsMarker(line, WireEnd) && !IsMarker(line, PortBegin) && !IsMarker(line, PortEnd)
    ensures IsMarker(line, WireEnd) ==> !IsMarker(line, PortBegin) && !IsMarker(line, PortEnd)
    ensures IsMarker(line, PortBegin) ==> !IsMarker(line, PortEnd)
  {
    MarkersDiffer(line, WireBegin, WireEnd, 14);
    MarkersDiffer(line, WireBegin, PortBegin, 9);
    MarkersDiffer(line, WireBegin, PortEnd, 9);
    MarkersDiffer(line, WireEnd, PortBegin, 9);
    MarkersDiffer(line, WireEnd, PortEnd, 9);
    MarkersDiffer(line, PortBegin, PortEnd, 14);
  }
}
