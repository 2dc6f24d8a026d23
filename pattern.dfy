/**
 * The glyph mini-language read by `load_pattern` (src/wasm/src/lib.rs) and
 * `loadPattern` (src/components/GameOfLife.js): the text is trimmed, cut
 * into lines at '\n', and the glyph in column `col` of line `row` addresses
 * the cell (originX + col, originY + row).
 */
module Pattern {
  import opened Wrappers

  /** The ASCII characters both `str::trim` and `String.prototype.trim` strip. */
  predicate IsWhitespace(c: char) {
    c == ' ' || c == '\t' || c == '\n' || c == '\r' || c as int == 0x0B || c as int == 0x0C
  }

  /** A glyph that marks a live cell. */
  predicate IsAliveGlyph(c: char) {
    c == 'O' || c == '1' || c == '*'
  }

  /** Drops the leading whitespace. */
  function TrimStart(s: string): (r: string)
    ensures |r| <= |s|
  {
    if s != [] && IsWhitespace(s[0]) then TrimStart(s[1..]) else s
  }

  /** What TrimStart keeps is a suffix of `s` that starts with a non-blank, and all it drops is whitespace. */
  lemma {:induction false} TrimStartSpec(s: string)
    ensures TrimStart(s) == s[|s| - |TrimStart(s)|..]
    ensures TrimStart(s) == [] || !IsWhitespace(TrimStart(s)[0])
    ensures forall k :: 0 <= k < |s| - |TrimStart(s)| ==> IsWhitespace(s[k])
  {
    if s != [] && IsWhitespace(s[0]) {
      var t := s[1..];
      TrimStartSpec(t);
      var r := TrimStart(t);
      assert TrimStart(s) == r;
      assert t[|t| - |r|..] == s[|s| - |r|..];
      forall k | 0 <= k < |s| - |r|
        ensures IsWhitespace(s[k])
      {
        if k > 0 {
          assert s[k] == t[k - 1];
        }
      }
    }
  }

  /** Drops the trailing whitespace. */
  function TrimEnd(s: string): (r: string)
    ensures |r| <= |s|
  {
    if s != [] && IsWhitespace(s[|s| - 1]) then TrimEnd(s[..|s| - 1]) else s
  }

  /** What TrimEnd keeps is a prefix of `s` that ends with a non-blank, and all it drops is whitespace. */
  lemma {:induction false} TrimEndSpec(s: string)
    ensures TrimEnd(s) == s[..|TrimEnd(s)|]
    ensures TrimEnd(s) == [] || !IsWhitespace(TrimEnd(s)[|TrimEnd(s)| - 1])
    ensures forall k :: |TrimEnd(s)| <= k < |s| ==> IsWhitespace(s[k])
  {
    if s != [] && IsWhitespace(s[|s| - 1]) {
      var t := s[..|s| - 1];
      TrimEndSpec(t);
      var r := TrimEnd(t);
      assert TrimEnd(s) == r;
      assert t[..|r|] == s[..|r|];
      forall k | |r| <= k < |s|
        ensures IsWhitespace(s[k])
      {
        if k < |s| - 1 {
          assert s[k] == t[k];
        }
      }
    }
  }

  /** `pattern.trim()`: the slice of `s` left once whitespace is removed at both ends. */
  function Trim(s: string): string {
    TrimEnd(TrimStart(s))
  }

  /**
   * Trim keeps exactly a middle slice s[i..j] of `s` that neither starts nor
   * ends with whitespace, and everything outside it is whitespace.
   */
  lemma TrimIsSlice(s: string) returns (i: nat, j: nat)
    ensures i <= j <= |s| && Trim(s) == s[i..j]
    ensures i < j ==> !IsWhitespace(s[i]) && !IsWhitespace(s[j - 1])
    ensures forall k :: 0 <= k < i ==> IsWhitespace(s[k])
    ensures forall k :: j <= k < |s| ==> IsWhitespace(s[k])
  {
    var t := TrimStart(s);
    var r := TrimEnd(t);
    TrimStartSpec(s);
    TrimEndSpec(t);
    i := |s| - |t|;
    j := i + |r|;
    assert r == s[i..j];
    if i < j {
      assert s[i] == t[0] && s[j - 1] == r[|r| - 1];
    }
    forall k | j <= k < |s|
      ensures IsWhitespace(s[k])
    {
      assert s[k] == t[k - i];
    }
  }

  /** Trimming twice is trimming once. */
  lemma TrimIdempotent(s: string)
    ensures Trim(Trim(s)) == Trim(s)
  {
    var i, j := TrimIsSlice(s);
    var r := Trim(s);
    if r != [] {
      assert !IsWhitespace(r[0]) && !IsWhitespace(r[|r| - 1]);
      assert TrimStart(r) == r;
      assert TrimEnd(r) == r;
    }
  }

  /** Leading whitespace before a non-blank is exactly what TrimStart drops. */
  lemma {:induction false} TrimStartBlanks(blanks: string, body: string)
    requires body != [] && !IsWhitespace(body[0])
    requires forall k :: 0 <= k < |blanks| ==> IsWhitespace(blanks[k])
    ensures TrimStart(blanks + body) == body
  {
    if blanks != [] {
      var s := blanks + body;
      assert s[1..] == blanks[1..] + body;
      TrimStartBlanks(blanks[1..], body);
    } else {
      assert blanks + body == body;
    }
  }

  /** Trailing whitespace after a non-blank is exactly what TrimEnd drops. */
  lemma {:induction false} TrimEndBlanks(body: string, blanks: string)
    requires body != [] && !IsWhitespace(body[|body| - 1])
    requires forall k :: 0 <= k < |blanks| ==> IsWhitespace(blanks[k])
    ensures TrimEnd(body + blanks) == body
  {
    if blanks != [] {
      var s := body + blanks;
      assert s[..|s| - 1] == body + blanks[..|blanks| - 1];
      TrimEndBlanks(body, blanks[..|blanks| - 1]);
    } else {
      assert body + blanks == body;
    }
  }

  /** `s.split('\n')`: the pieces between the newlines, at least one of them. */
  function Split(s: string): (r: seq<string>)
    ensures |r| >= 1
    ensures forall k :: 0 <= k < |r| ==> '\n' !in r[k]
  {
    if s == [] then [[]]
    else if s[0] == '\n' then [[]] + Split(s[1..])
    else
      var rest := Split(s[1..]);
      [[s[0]] + rest[0]] + rest[1..]
  }

  /** Glues lines back together with '\n' between them, the inverse of Split. */
  function Join(lines: seq<string>): string
    requires |lines| >= 1
  {
    if |lines| == 1 then lines[0] else lines[0] + "\n" + Join(lines[1..])
  }

  lemma {:induction false} JoinSplit(s: string)
    ensures Join(Split(s)) == s
  {
    if s == [] {
    } else if s[0] == '\n' {
      JoinSplit(s[1..]);
      assert Split(s) == [[]] + Split(s[1..]);
      assert Join(Split(s)) == [] + "\n" + Join(Split(s[1..]));
    } else {
      JoinSplit(s[1..]);
      var rest := Split(s[1..]);
      assert Split(s) == [[s[0]] + rest[0]] + rest[1..];
      if |rest| == 1 {
        assert Join(Split(s)) == [s[0]] + rest[0];
      } else {
        assert Join(rest) == rest[0] + "\n" + Join(rest[1..]);
        assert ([[s[0]] + rest[0]] + rest[1..])[1..] == rest[1..];
        assert Join(Split(s)) == [s[0]] + rest[0] + "\n" + Join(rest[1..]);
      }
    }
  }

  lemma {:induction false} SplitJoin(lines: seq<string>)
    requires |lines| >= 1
    requires forall k :: 0 <= k < |lines| ==> '\n' !in lines[k]
    ensures Split(Join(lines)) == lines
  {
    if |lines| == 1 {
      SplitNoNewline(lines[0]);
    } else {
      SplitJoin(lines[1..]);
      SplitPrefix(lines[0], Join(lines[1..]));
      assert [lines[0]] + lines[1..] == lines;
    }
  }

  lemma {:induction false} SplitNoNewline(s: string)
    requires '\n' !in s
    ensures Split(s) == [s]
  {
    if s != [] {
      SplitNoNewline(s[1..]);
      assert [s[0]] + s[1..] == s;
    }
  }

  lemma {:induction false} SplitPrefix(a: string, b: string)
    requires '\n' !in a
    ensures Split(a + "\n" + b) == [a] + Split(b)
  {
    if a == [] {
      assert a + "\n" + b == "\n" + b;
      assert ("\n" + b)[1..] == b;
    } else {
      assert (a + "\n" + b)[1..] == a[1..] + "\n" + b;
      SplitPrefix(a[1..], b);
      assert [a[0]] + a[1..] == a;
    }
  }

  /** `str::lines()` on text without '\r' and without a trailing '\n': no line for "", else the split pieces. */
  function RustLines(s: string): seq<string> {
    if s == [] then [] else Split(s)
  }

  /**
   * `lines()` loses nothing and keeps no separator: no line holds '\n', and
   * for non-empty text joining the lines with '\n' gives the text back.
   */
  lemma RustLinesJoin(s: string)
    ensures forall k :: 0 <= k < |RustLines(s)| ==> '\n' !in RustLines(s)[k]
    ensures s != [] ==> |RustLines(s)| >= 1 && Join(RustLines(s)) == s
  {
    JoinSplit(s);
  }

  /**
   * The glyph that the pattern `lines`, placed at (x0, y0), puts on cell
   * (cx, cy), if any: column cx - x0 of line cy - y0.
   */
  function GlyphAt(lines: seq<string>, x0: int, y0: int, cx: int, cy: int): Option<char> {
    var row, col := cy - y0, cx - x0;
    if 0 <= row < |lines| && 0 <= col < |lines[row]| then Some(lines[row][col]) else None
  }

  /** The part of `lines` a row-by-row, column-by-column scan has visited before (row, col). */
  function Visited(lines: seq<string>, row: nat, col: nat): seq<string>
    requires row < |lines| && col <= |lines[row]|
  {
    lines[..row] + [lines[row][..col]]
  }

  /** Visiting one more glyph adds exactly that glyph and nothing else. */
  lemma GlyphAtVisitNext(lines: seq<string>, row: nat, col: nat, x0: int, y0: int, cx: int, cy: int)
    requires row < |lines| && col < |lines[row]|
    ensures GlyphAt(Visited(lines, row, col + 1), x0, y0, cx, cy)
         == if cx == x0 + col && cy == y0 + row then Some(lines[row][col])
            else GlyphAt(Visited(lines, row, col), x0, y0, cx, cy)
  {
  }

  /** Before the first glyph of a row, the scan has visited exactly the earlier rows. */
  lemma GlyphAtVisitStart(lines: seq<string>, row: nat, x0: int, y0: int, cx: int, cy: int)
    requires row < |lines|
    ensures GlyphAt(Visited(lines, row, 0), x0, y0, cx, cy) == GlyphAt(lines[..row], x0, y0, cx, cy)
  {
  }

  lemma VisitedRowDone(lines: seq<string>, row: nat)
    requires row < |lines|
    ensures Visited(lines, row, |lines[row]|) == lines[..row + 1]
  {
    assert lines[row][..|lines[row]|] == lines[row];
  }
}
