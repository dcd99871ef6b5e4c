/**
  The directive scanner: the file list declared by `// vai-files:` and `// vai-incdirs:`
  comments, and the four declaration-block markers (vlogai/vai.py and pyvai/vai.py).
  The buffer is a sequence of lines; line numbers handed out are 1-based, 0 meaning absent.
 */
module Scanner {
  import opened Strings
  import opened Patterns

  // ---------------------------------------------------------------------------
  // grep_vim_buf / grep_from_vim_buf

  /** The lines for which `matches` holds, in buffer order, with trailing whitespace
      stripped. The pattern argument of the source is given as the predicate it decides. */
  function Grep(buf: seq<string>, matches: string -> bool): (r: seq<string>)
    ensures |r| <= |buf|
    ensures forall i :: 0 <= i < |r| ==>
              exists j :: 0 <= j < |buf| && matches(buf[j]) && r[i] == RStrip(buf[j])
  {
    if |buf| == 0 then []
    else
      var front := Grep(buf[..|buf| - 1], matches);
      var last := buf[|buf| - 1];
      assert forall j :: 0 <= j < |buf| - 1 ==> buf[..|buf| - 1][j] == buf[j];
      if matches(last) then front + [RStrip(last)] else front
  }

  /** Grepping keeps buffer order: the matches of a concatenation are the matches of the
      first part followed by those of the second. */
  lemma {:induction false} GrepAppend(a: seq<string>, b: seq<string>, matches: string -> bool)
    ensures Grep(a + b, matches) == Grep(a, matches) + Grep(b, matches)
  {
    if |b| > 0 {
      GrepAppend(a, b[..|b| - 1], matches);
      assert (a + b)[..|a + b| - 1] == a + b[..|b| - 1];
    } else {
      assert a + b == a;
    }
  }

  /** Nothing is lost: every matching buffer line is returned, stripped of trailing
      whitespace. */
  lemma {:induction false} GrepComplete(buf: seq<string>, matches: string -> bool)
    ensures forall j :: 0 <= j < |buf| && matches(buf[j]) ==> RStrip(buf[j]) in Grep(buf, matches)
  {
    if |buf| > 0 {
      var front := buf[..|buf| - 1];
      GrepComplete(front, matches);
      assert forall j :: 0 <= j < |buf| - 1 ==> front[j] == buf[j];
    }
  }

  // ---------------------------------------------------------------------------
  // get_vai_files

  predicate IsFilesLine(line: string) {
    IsKeywordComment(line, "vai-files:")
  }

  predicate IsIncdirsLine(line: string) {
    IsKeywordComment(line, "vai-incdirs:")
  }

  /** The comma-separated entries after the last colon of the line, with every space
      removed (tabs are kept, as in the source). */
  function Entries(line: string): (r: seq<string>)
    ensures |r| >= 1
    ensures forall i :: 0 <= i < |r| ==> ' ' !in r[i] && ',' !in r[i] && ':' !in r[i]
    ensures Join(r, ",") == Remove(LastPiece(line, ':'), ' ')
  {
    var text := Remove(LastPiece(line, ':'), ' ');
    var r := Split(text, ',');
    JoinSplit(text, ',');
    r
  }

  /** All entries of the given lines, line by line. */
  function AllEntries(lines: seq<string>): (r: seq<string>)
    ensures forall i :: 0 <= i < |r| ==> ' ' !in r[i] && ',' !in r[i] && ':' !in r[i]
  {
    if |lines| == 0 then [] else AllEntries(lines[..|lines| - 1]) + Entries(lines[|lines| - 1])
  }

  /** The entries `x` of `xs` with `keep(x)`, in order. */
  function Filter(xs: seq<string>, keep: string -> bool): (r: seq<string>)
    ensures |r| <= |xs|
    ensures forall i :: 0 <= i < |r| ==> keep(r[i]) && r[i] in xs
    ensures forall x :: x in xs && keep(x) ==> x in r
  {
    if |xs| == 0 then []
    else
      var front := Filter(xs[..|xs| - 1], keep);
      assert forall x :: x in xs[..|xs| - 1] ==> x in xs;
      if keep(xs[|xs| - 1]) then front + [xs[|xs| - 1]] else front
  }

  /** `os.path.join(d, p)` on a POSIX system, for a relative `p`. */
  function PathJoin(d: string, p: string): string {
    if |d| == 0 || d[|d| - 1] == '/' then d + p else d + "/" + p
  }

  // For every `vai-incdirs` entry `d`, the listing of `d/*.v` followed by that of `d/*.sv`.
  // `glob` stands for `glob.glob`, a directory listing the model takes as given.
  function IncdirFiles(dirs: seq<string>, glob: string -> seq<string>): seq<string> {
    if |dirs| == 0 then []
    else
      var d := dirs[|dirs| - 1];
      IncdirFiles(dirs[..|dirs| - 1], glob) + glob(PathJoin(d, "*.v")) + glob(PathJoin(d, "*.sv"))
  }

  /** `q` is among the `*.v` or `*.sv` files of directory `d`. */
  predicate Listed(glob: string -> seq<string>, d: string, q: string) {
    q in glob(PathJoin(d, "*.v")) || q in glob(PathJoin(d, "*.sv"))
  }

  /** vlogai `get_vai_files`: the declared files that exist (`present` stands for
      `os.path.exists`), then the Verilog files of the declared include directories. */
  function GetVaiFiles(buf: seq<string>, present: string -> bool, glob: string -> seq<string>): seq<string> {
    var files := AllEntries(Grep(buf, IsFilesLine));
    var dirs := AllEntries(Grep(buf, IsIncdirsLine));
    Filter(files, present) + IncdirFiles(dirs, glob)
  }

  /** pyvai `get_vai_files`: the same list without the existence filter. */
  function PyGetVaiFiles(buf: seq<string>, glob: string -> seq<string>): seq<string> {
    var files := AllEntries(Grep(buf, IsFilesLine));
    var dirs := AllEntries(Grep(buf, IsIncdirsLine));
    files + IncdirFiles(dirs, glob)
  }

  /** All entries of a concatenation are those of the first part, then of the second. */
  lemma {:induction false} AllEntriesAppend(a: seq<string>, b: seq<string>)
    ensures AllEntries(a + b) == AllEntries(a) + AllEntries(b)
  {
    if |b| > 0 {
      AllEntriesAppend(a, b[..|b| - 1]);
      assert (a + b)[..|a + b| - 1] == a + b[..|b| - 1];
    } else {
      assert a + b == a;
    }
  }

  /** Filtering keeps order: the kept entries of a concatenation are those of the first
      part followed by those of the second. */
  lemma {:induction false} FilterAppend(a: seq<string>, b: seq<string>, keep: string -> bool)
    ensures Filter(a + b, keep) == Filter(a, keep) + Filter(b, keep)
  {
    if |b| > 0 {
      FilterAppend(a, b[..|b| - 1], keep);
      assert (a + b)[..|a + b| - 1] == a + b[..|b| - 1];
    } else {
      assert a + b == a;
    }
  }

  lemma {:induction false} FilterAll(xs: seq<string>, keep: string -> bool)
    requires forall x :: keep(x)
    ensures Filter(xs, keep) == xs
  {
    if |xs| > 0 {
      FilterAll(xs[..|xs| - 1], keep);
    }
  }

  /** The vlogai file list is the pyvai one with the missing files taken out: when every
      file exists the two variants agree. */
  lemma VaiFilesVariants(buf: seq<string>, glob: string -> seq<string>)
    ensures GetVaiFiles(buf, _ => true, glob) == PyGetVaiFiles(buf, glob)
  {
    FilterAll(AllEntries(Grep(buf, IsFilesLine)), _ => true);
  }

  /** Every file-list entry comes before every include-directory result: the list starts
      with existing, separator-free names taken from `vai-files` lines, and the rest is
      exactly what the include directories list. */
  lemma VaiFilesOrder(buf: seq<string>, present: string -> bool, glob: string -> seq<string>)
    returns (k: nat)
    ensures var r := GetVaiFiles(buf, present, glob);
            && k <= |r|
            && (forall i :: 0 <= i < k ==> present(r[i]) && r[i] in AllEntries(Grep(buf, IsFilesLine)))
            && (forall x :: x in AllEntries(Grep(buf, IsFilesLine)) && present(x) ==> x in r[..k])
            && r[k..] == IncdirFiles(AllEntries(Grep(buf, IsIncdirsLine)), glob)
  {
    var f := Filter(AllEntries(Grep(buf, IsFilesLine)), present);
    var r := GetVaiFiles(buf, present, glob);
    k := |f|;
    assert r[..k] == f;
  }

  /** Every entry of every line is among all entries. */
  lemma {:induction false} AllEntriesComplete(lines: seq<string>)
    ensures forall j, e :: 0 <= j < |lines| && e in Entries(lines[j]) ==> e in AllEntries(lines)
  {
    if |lines| > 0 {
      var front := lines[..|lines| - 1];
      AllEntriesComplete(front);
      assert forall j :: 0 <= j < |lines| - 1 ==> front[j] == lines[j];
    }
  }

  /** From the buffer to the file list: an existing file named on any `vai-files:` line of
      the buffer is in the result, and so is every listing of a directory named on any
      `vai-incdirs:` line. */
  lemma VaiFilesDeclared(buf: seq<string>, present: string -> bool, glob: string -> seq<string>)
    ensures forall j, e :: 0 <= j < |buf| && IsFilesLine(buf[j]) && e in Entries(RStrip(buf[j])) && present(e) ==>
              e in GetVaiFiles(buf, present, glob)
    ensures forall j, d, q ::
              (0 <= j < |buf| && IsIncdirsLine(buf[j]) && d in Entries(RStrip(buf[j])) && Listed(glob, d, q)) ==>
              q in GetVaiFiles(buf, present, glob)
  {
    forall j, e | 0 <= j < |buf| && IsFilesLine(buf[j]) && e in Entries(RStrip(buf[j])) && present(e) {
      DeclaredFile(buf, present, glob, j, e);
    }
    forall j, d, q | 0 <= j < |buf| && IsIncdirsLine(buf[j]) && d in Entries(RStrip(buf[j])) && Listed(glob, d, q) {
      DeclaredDir(buf, present, glob, j, d, q);
    }
  }

  lemma DeclaredFile(buf: seq<string>, present: string -> bool, glob: string -> seq<string>, j: int, e: string)
    requires 0 <= j < |buf| && IsFilesLine(buf[j]) && e in Entries(RStrip(buf[j])) && present(e)
    ensures e in GetVaiFiles(buf, present, glob)
  {
    var files := AllEntries(Grep(buf, IsFilesLine));
    GrepHas(buf, IsFilesLine, j);
    EntryListed(Grep(buf, IsFilesLine), RStrip(buf[j]), e);
    assert e in Filter(files, present);
    InLeft(Filter(files, present), IncdirFiles(AllEntries(Grep(buf, IsIncdirsLine)), glob), e);
  }

  lemma DeclaredDir(buf: seq<string>, present: string -> bool, glob: string -> seq<string>, j: int, d: string, q: string)
    requires 0 <= j < |buf| && IsIncdirsLine(buf[j]) && d in Entries(RStrip(buf[j]))
    requires Listed(glob, d, q)
    ensures q in GetVaiFiles(buf, present, glob)
  {
    var dirs := AllEntries(Grep(buf, IsIncdirsLine));
    GrepHas(buf, IsIncdirsLine, j);
    EntryListed(Grep(buf, IsIncdirsLine), RStrip(buf[j]), d);
    IncdirFilesHas(dirs, d, glob);
    InRight(Filter(AllEntries(Grep(buf, IsFilesLine)), present), IncdirFiles(dirs, glob), q);
  }

  lemma InLeft(a: seq<string>, b: seq<string>, x: string)
    requires x in a
    ensures x in a + b
  {
    var i :| 0 <= i < |a| && a[i] == x;
    assert (a + b)[i] == x;
  }

  lemma InRight(a: seq<string>, b: seq<string>, x: string)
    requires x in b
    ensures x in a + b
  {
    var i :| 0 <= i < |b| && b[i] == x;
    assert (a + b)[|a| + i] == x;
  }

  /** A matching line of the buffer is among the grepped lines. */
  lemma GrepHas(buf: seq<string>, matches: string -> bool, j: int)
    requires 0 <= j < |buf| && matches(buf[j])
    ensures RStrip(buf[j]) in Grep(buf, matches)
  {
    GrepComplete(buf, matches);
  }

  /** An entry of a grepped line is among all entries. */
  lemma EntryListed(lines: seq<string>, line: string, e: string)
    requires line in lines && e in Entries(line)
    ensures e in AllEntries(lines)
  {
    AllEntriesComplete(lines);
    var j :| 0 <= j < |lines| && lines[j] == line;
  }

  /** The listings of every include directory are in the include-directory files. */
  lemma {:induction false} IncdirFilesHas(dirs: seq<string>, d: string, glob: string -> seq<string>)
    requires d in dirs
    ensures forall q :: Listed(glob, d, q) ==> q in IncdirFiles(dirs, glob)
  {
    if dirs[|dirs| - 1] != d {
      var front := dirs[..|dirs| - 1];
      assert d in front by {
        var i :| 0 <= i < |dirs| && dirs[i] == d;
        assert front[i] == d;
      }
      IncdirFilesHas(front, d, glob);
    }
  }

  /** The existing declared files keep buffer order: those declared in the top part of the
      buffer come first, followed by those declared below it. */
  lemma VaiFilesAppend(a: seq<string>, b: seq<string>, present: string -> bool)
    ensures Filter(AllEntries(Grep(a + b, IsFilesLine)), present) ==
            Filter(AllEntries(Grep(a, IsFilesLine)), present) + Filter(AllEntries(Grep(b, IsFilesLine)), present)
  {
    GrepAppend(a, b, IsFilesLine);
    AllEntriesAppend(Grep(a, IsFilesLine), Grep(b, IsFilesLine));
    FilterAppend(AllEntries(Grep(a, IsFilesLine)), AllEntries(Grep(b, IsFilesLine)), present);
  }

  // ---------------------------------------------------------------------------
  // find_declares_ln

  /** A marker's line numbers and the indentation of its begin line. */
  datatype Region = Region(beginLn: nat, endLn: nat, indent: nat)

  /** `{'ap': (...), 'aw': (...)}`: the port-declaration and wire-declaration regions. */
  datatype Declares = Declares(ap: Region, aw: Region)

  /** `n` is the 1-based number of the first line that is a `word` marker, or 0 if none is. */
  predicate FirstMarker(buf: seq<string>, word: string, n: nat) {
    FirstMarkerBefore(buf, word, n, |buf|)
  }

  /** No line with index in [lo, hi) is a `word` marker. */
  predicate NoMarkerIn(buf: seq<string>, word: string, lo: nat, hi: nat)
    requires hi <= |buf|
  {
    forall i :: lo <= i < hi ==> !IsMarker(buf[i], word)
  }

  /** `FirstMarker` for the first `upto` lines of the buffer. */
  predicate FirstMarkerBefore(buf: seq<string>, word: string, n: nat, upto: nat) {
    && n <= upto <= |buf|
    && (n == 0 ==> NoMarkerIn(buf, word, 0, upto))
    && (n > 0 ==> NoMarkerIn(buf, word, 0, n - 1) && IsMarker(buf[n - 1], word))
  }

  /** Scanning one more line: a marker not yet found is found on it exactly when the line
      is that marker. */
  lemma MarkerStep(buf: seq<string>, word: string, hit: bool, n: nat, n': nat, i: nat)
    requires i < |buf| && FirstMarkerBefore(buf, word, n, i)
    requires hit == IsMarker(buf[i], word)
    requires n' == if n == 0 && hit then i + 1 else n
    ensures FirstMarkerBefore(buf, word, n', i + 1)
  {
  }

  /** The indentation recorded for a begin marker found on line `n` (0 when absent). */
  function IndentOf(buf: seq<string>, n: nat): nat
    requires n <= |buf|
  {
    if n == 0 then 0 else LeadingSpaces(buf[n - 1])
  }

  /** What has been found after scanning the first `i` lines: each marker's line number is
      that of its first occurrence so far, and each begin marker's indentation is recorded. */
  predicate ScannedUpTo(buf: seq<string>, d: Declares, i: nat) {
    && FirstMarkerBefore(buf, PortBegin, d.ap.beginLn, i)
    && FirstMarkerBefore(buf, PortEnd, d.ap.endLn, i)
    && FirstMarkerBefore(buf, WireBegin, d.aw.beginLn, i)
    && FirstMarkerBefore(buf, WireEnd, d.aw.endLn, i)
    && d.ap.indent == IndentOf(buf, d.ap.beginLn)
    && d.aw.indent == IndentOf(buf, d.aw.beginLn)
  }

  /** Which of the four markers one line is. */
  datatype Hits = Hits(apB: bool, apE: bool, awB: bool, awE: bool)

  function LineHits(line: string): (h: Hits)
    ensures h.apB == IsMarker(line, PortBegin) && h.apE == IsMarker(line, PortEnd)
    ensures h.awB == IsMarker(line, WireBegin) && h.awE == IsMarker(line, WireEnd)
  {
    Hits(IsMarker(line, PortBegin), IsMarker(line, PortEnd),
         IsMarker(line, WireBegin), IsMarker(line, WireEnd))
  }

  /** At most one marker per line. */
  predicate AtMostOne(h: Hits) {
    && (h.apB ==> !h.apE && !h.awB && !h.awE)
    && (h.apE ==> !h.awB && !h.awE)
    && (h.awB ==> !h.awE)
  }

  /** The body of the scan for line number `ln`, given which markers the line is and its
      indentation: the first marker not yet found that the line matches is recorded, and
      the line is not tested any further. */
  function ScanLine(d: Declares, h: Hits, ln: nat, indent: nat): Declares {
    if d.ap.beginLn == 0 && h.apB then
      d.(ap := d.ap.(beginLn := ln, indent := indent))
    else if d.ap.endLn == 0 && h.apE then
      d.(ap := d.ap.(endLn := ln))
    else if d.aw.beginLn == 0 && h.awB then
      d.(aw := d.aw.(beginLn := ln, indent := indent))
    else if d.aw.endLn == 0 && h.awE then
      d.(aw := d.aw.(endLn := ln))
    else d
  }

  /** Since a line is at most one marker, the early exit of the scan body never hides a
      marker: each number is set on this line exactly when it was unset and the line is
      that marker. */
  lemma ScanLineFields(d: Declares, h: Hits, ln: nat, indent: nat)
    requires AtMostOne(h)
    ensures ScanLine(d, h, ln, indent).ap.beginLn == if d.ap.beginLn == 0 && h.apB then ln else d.ap.beginLn
    ensures ScanLine(d, h, ln, indent).ap.endLn == if d.ap.endLn == 0 && h.apE then ln else d.ap.endLn
    ensures ScanLine(d, h, ln, indent).aw.beginLn == if d.aw.beginLn == 0 && h.awB then ln else d.aw.beginLn
    ensures ScanLine(d, h, ln, indent).aw.endLn == if d.aw.endLn == 0 && h.awE then ln else d.aw.endLn
    ensures ScanLine(d, h, ln, indent).ap.indent == if d.ap.beginLn == 0 && h.apB then indent else d.ap.indent
    ensures ScanLine(d, h, ln, indent).aw.indent == if d.aw.beginLn == 0 && h.awB then indent else d.aw.indent
  {
  }

  /** The recorded indentation follows its begin marker's line number. */
  lemma IndentStep(buf: seq<string>, hit: bool, n: nat, n': nat, ind: nat, ind': nat, i: nat)
    requires n <= i < |buf| && ind == IndentOf(buf, n)
    requires n' == (if n == 0 && hit then i + 1 else n)
    requires ind' == (if n == 0 && hit then LeadingSpaces(buf[i]) else ind)
    ensures ind' == IndentOf(buf, n')
  {
  }

  /** One iteration of the scan keeps `ScannedUpTo`. */
  lemma ScanLineStep(buf: seq<string>, d: Declares, i: nat)
    requires i < |buf| && ScannedUpTo(buf, d, i)
    ensures ScannedUpTo(buf, ScanLine(d, LineHits(buf[i]), i + 1, LeadingSpaces(buf[i])), i + 1)
  {
    var line := buf[i];
    var h := LineHits(line);
    var d' := ScanLine(d, h, i + 1, LeadingSpaces(line));
    MarkersExclusive(line);
    ScanLineFields(d, h, i + 1, LeadingSpaces(line));
    MarkerStep(buf, PortBegin, h.apB, d.ap.beginLn, d'.ap.beginLn, i);
    MarkerStep(buf, PortEnd, h.apE, d.ap.endLn, d'.ap.endLn, i);
    MarkerStep(buf, WireBegin, h.awB, d.aw.beginLn, d'.aw.beginLn, i);
    MarkerStep(buf, WireEnd, h.awE, d.aw.endLn, d'.aw.endLn, i);
    IndentStep(buf, h.apB, d.ap.beginLn, d'.ap.beginLn, d.ap.indent, d'.ap.indent, i);
    IndentStep(buf, h.awB, d.aw.beginLn, d'.aw.beginLn, d.aw.indent, d'.aw.indent, i);
  }

  /** `find_declares_ln`: one pass over the buffer; a marker's number is only set once, and a
      line that sets one marker is not tested against the markers checked after it. */
  method FindDeclares(buf: seq<string>) returns (d: Declares)
    ensures FirstMarker(buf, PortBegin, d.ap.beginLn)
    ensures FirstMarker(buf, PortEnd, d.ap.endLn)
    ensures FirstMarker(buf, WireBegin, d.aw.beginLn)
    ensures FirstMarker(buf, WireEnd, d.aw.endLn)
    ensures d.ap.indent == IndentOf(buf, d.ap.beginLn)
    ensures d.aw.indent == IndentOf(buf, d.aw.beginLn)
  {
    d := Declares(Region(0, 0, 0), Region(0, 0, 0));
    var i := 0;
    while i < |buf|
      invariant 0 <= i <= |buf|
      invariant ScannedUpTo(buf, d, i)
    {
      ScanLineStep(buf, d, i);
      d := ScanLine(d, LineHits(buf[i]), i + 1, LeadingSpaces(buf[i]));
      i := i + 1;
    }
    ScannedAll(buf, d);
  }

  /** A scan of the whole buffer has found every marker's first occurrence. */
  lemma ScannedAll(buf: seq<string>, d: Declares)
    requires ScannedUpTo(buf, d, |buf|)
    ensures FirstMarker(buf, PortBegin, d.ap.beginLn) && FirstMarker(buf, PortEnd, d.ap.endLn)
    ensures FirstMarker(buf, WireBegin, d.aw.beginLn) && FirstMarker(buf, WireEnd, d.aw.endLn)
    ensures d.ap.indent == IndentOf(buf, d.ap.beginLn) && d.aw.indent == IndentOf(buf, d.aw.beginLn)
  {
  }
}
