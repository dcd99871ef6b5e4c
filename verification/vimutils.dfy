/**
  The buffer edits of the plugin. A Vim buffer is a sequence of lines numbered from 1; an
  edit names lines by those numbers. Insertion goes through the buffer's `append`, which
  puts the new lines after a given line (0 for the top) and raises when that line does not
  exist; deletion goes through a slice, which Python clips to the buffer.
 */
module VimUtils {
  import opened Wrappers
  import opened Strings

  /** The severity `echo` uses when the caller gives none. */
  const DefaultSeverity := "Warning"

  /** `echo(msg, severity)`: the Vim command that shows `msg` highlighted by severity. */
  function Echo(msg: string, severity: string): string {
    "echohl " + severity + "Msg | echo \"" + msg + "\" | echohl None"
  }

  /** `insert(buf, lines, ln)`: the lines of `text` become lines `ln`, `ln + 1`, ... of the
      buffer; `None` where `append` raises because line `ln - 1` does not exist. */
  function Insert(buf: seq<string>, text: string, ln: int): Option<seq<string>> {
    if 0 <= ln - 1 <= |buf| then Some(buf[..ln - 1] + Split(text, '\n') + buf[ln - 1..]) else None
  }

  /** `delete(buf, start_ln, end_ln)`: `del buf[start_ln - 1:end_ln]`, with both bounds
      clipped to the buffer and an empty range when the end falls before the start. */
  function Delete(buf: seq<string>, s: int, e: int): seq<string>
    requires 1 <= s && 0 <= e
  {
    var lo := if s - 1 < |buf| then s - 1 else |buf|;
    var hi := if e < lo then lo else if e < |buf| then e else |buf|;
    buf[..lo] + buf[hi..]
  }

  /** `replace(buf, lines, start_ln, end_ln)`: delete the range, then insert at its start. */
  function Replace(buf: seq<string>, text: string, s: int, e: int): Option<seq<string>>
    requires 1 <= s && 0 <= e
  {
    Insert(Delete(buf, s, e), text, s)
  }

  // ---------------------------------------------------------------------------
  // Lemmas

  /** The message sits between the quotes of the echo command, behind the highlight group
      named after the severity. */
  lemma EchoSpec(msg: string, severity: string)
    ensures var r := Echo(msg, severity);
            var pre := "echohl " + severity + "Msg | echo \"";
            && |r| == |pre| + |msg| + 15
            && r[..|pre|] == pre
            && r[|pre|..|pre| + |msg|] == msg
            && r[|pre| + |msg|..] == "\" | echohl None"
  {
    var pre := "echohl " + severity + "Msg | echo \"";
    assert Echo(msg, severity) == pre + msg + "\" | echohl None";
  }

  /** Lines `s..e` inside the buffer are removed and nothing else: the lines before `s` keep
      their numbers and the lines after `e` move up by `e - s + 1`. */
  lemma DeleteRange(buf: seq<string>, s: int, e: int)
    requires 1 <= s <= e <= |buf|
    ensures |Delete(buf, s, e)| == |buf| - (e - s + 1)
    ensures forall k :: 0 <= k < s - 1 ==> Delete(buf, s, e)[k] == buf[k]
    ensures forall k :: e <= k < |buf| ==> Delete(buf, s, e)[k - (e - s + 1)] == buf[k]
  {
    assert Delete(buf, s, e) == buf[..s - 1] + buf[e..];
  }

  /** The buffer is left as it is exactly when the range holds no line of it: it starts
      below the last line, or ends before it starts. */
  lemma DeleteNothing(buf: seq<string>, s: int, e: int)
    requires 1 <= s && 0 <= e
    ensures Delete(buf, s, e) == buf <==> s > |buf| || e < s
  {
    if !(s > |buf| || e < s) {
      assert |Delete(buf, s, e)| < |buf|;
    }
  }

  /** `append` succeeds exactly for a line number from 1 to one past the last line; then the
      pieces of the text are the new lines `ln`, `ln + 1`, ..., joined they give the text
      back, the lines before `ln` keep their numbers and the old lines from `ln` on follow
      the new ones. */
  lemma InsertSpec(buf: seq<string>, text: string, ln: int)
    ensures Insert(buf, text, ln).Some? <==> 1 <= ln <= |buf| + 1
    ensures Insert(buf, text, ln).Some? ==>
              var r := Insert(buf, text, ln).value;
              var n := Count(text, '\n') + 1;
              && |r| == |buf| + n
              && r[..ln - 1] == buf[..ln - 1]
              && Join(r[ln - 1..ln - 1 + n], "\n") == text
              && r[ln - 1 + n..] == buf[ln - 1..]
  {
    if 1 <= ln <= |buf| + 1 {
      var p := Split(text, '\n');
      var r := buf[..ln - 1] + p + buf[ln - 1..];
      assert r[..ln - 1] == buf[..ln - 1];
      assert r[ln - 1..ln - 1 + |p|] == p;
      assert r[ln - 1 + |p|..] == buf[ln - 1..];
      JoinSplit(text, '\n');
    }
  }

  /** Replacing lines `s..e` of the buffer: the result has the old length less the range
      plus one line per line of the text; the lines above `s` keep their numbers, the text
      fills the lines from `s` on, and the old lines after `e` follow it in order. So a range
      above the replaced one keeps its line numbers. */
  lemma ReplaceSpec(buf: seq<string>, text: string, s: int, e: int)
    requires 1 <= s <= e <= |buf|
    ensures Replace(buf, text, s, e).Some?
    ensures var r := Replace(buf, text, s, e).value;
            var n := Count(text, '\n') + 1;
            && |r| == |buf| - (e - s + 1) + n
            && (forall k :: 0 <= k < s - 1 ==> r[k] == buf[k])
            && Join(r[s - 1..s - 1 + n], "\n") == text
            && (forall k :: e <= k < |buf| ==> r[k - (e - s + 1) + n] == buf[k])
  {
    var d := Delete(buf, s, e);
    assert d == buf[..s - 1] + buf[e..];
    InsertSpec(d, text, s);
    var r := Replace(buf, text, s, e).value;
    var n := Count(text, '\n') + 1;
    assert r == buf[..s - 1] + Split(text, '\n') + buf[e..];
    forall k | e <= k < |buf| ensures r[k - (e - s + 1) + n] == buf[k] {
      assert r[k - (e - s + 1) + n] == buf[e..][k - e];
    }
  }

  /** A range that starts past the line after the buffer's end cannot be replaced: nothing is
      deleted and `append` raises. */
  lemma ReplaceOutOfRange(buf: seq<string>, text: string, s: int, e: int)
    requires 1 <= s && 0 <= e
    ensures Replace(buf, text, s, e).None? <==> s > |buf| + 1
  {
    var d := Delete(buf, s, e);
    if s - 1 <= |buf| {
      assert |d| >= s - 1;
    } else {
      assert d == buf;
    }
  }
}
