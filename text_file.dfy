/** A text file written one line at a time, each followed by `"\n"`, and read
    back by iterating over the handle in text mode, which splits at every
    line break (`\n`, `\r\n` or a lone `\r`). */
module TextFile {
  import opened Text

  /** A line that stays one line in a file: it holds no line break. */
  predicate OneLine(s: string) {
    '\n' !in s && '\r' !in s
  }

  /** The text of `handle.write(line + "\n")` for each line in turn. */
  function FileText(lines: seq<string>): string
  {
    if lines == [] then "" else lines[0] + "\n" + FileText(lines[1..])
  }

  /** The first line comes first in the file. */
  lemma FileTextCons(line: string, lines: seq<string>)
    ensures FileText([line] + lines) == line + "\n" + FileText(lines)
  {
    assert ([line] + lines)[1..] == lines;
  }

  /** Writing one more line appends it and its line break to the file. */
  lemma {:induction false} FileTextSnoc(lines: seq<string>, line: string)
    ensures FileText(lines + [line]) == FileText(lines) + line + "\n"
    decreases |lines|
  {
    if lines == [] {
      assert [] + [line] == [line];
    } else {
      assert (lines + [line])[1..] == lines[1..] + [line];
      FileTextSnoc(lines[1..], line);
    }
  }

  /** Universal newlines: text mode reads `\r\n` and a lone `\r` as `\n`. */
  function Universal(text: string): (r: string)
    ensures '\r' !in r
    ensures '\r' !in text ==> r == text
    decreases |text|
  {
    if text == [] then ""
    else if text[0] == '\r' then
      if |text| > 1 && text[1] == '\n' then "\n" + Universal(text[2..])
      else "\n" + Universal(text[1..])
    else
      assert '\r' !in text ==> '\r' !in text[1..];
      [text[0]] + Universal(text[1..])
  }

  /** The lines `for raw_line in handle` yields, without their line ends
      (which are whitespace, so the loaders' `strip()` removes them anyway):
      the text cut at every line break, and no line after a final break. */
  function FileLines(text: string): (lines: seq<string>)
    ensures forall i :: 0 <= i < |lines| ==> OneLine(lines[i])
  {
    var parts := Split(Universal(text), '\n');
    forall i | 0 <= i < |parts| ensures '\r' !in parts[i] {
      JoinKeepsOut(parts, '\n', i, '\r');
    }
    if parts[|parts| - 1] == "" then
      assert forall i :: 0 <= i < |parts| - 1 ==> parts[..|parts| - 1][i] == parts[i];
      parts[..|parts| - 1]
    else parts
  }

  /** A file of lines ends with a line break, and the lines are joined by one. */
  lemma {:induction false} FileTextJoin(lines: seq<string>)
    requires lines != []
    ensures FileText(lines) == Join(lines + [""], '\n')
    decreases |lines|
  {
    if |lines| == 1 {
      assert lines + [""] == [lines[0], ""];
      assert ([lines[0], ""])[1..] == [""];
    } else {
      FileTextJoin(lines[1..]);
      assert (lines + [""])[1..] == lines[1..] + [""];
      assert (lines + [""])[0] == lines[0];
    }
  }

  /** No character of the file is a carriage return when no line holds one. */
  lemma {:induction false} FileTextNoReturn(lines: seq<string>)
    requires forall i :: 0 <= i < |lines| ==> OneLine(lines[i])
    ensures '\r' !in FileText(lines)
    decreases |lines|
  {
    if lines != [] {
      FileTextNoReturn(lines[1..]);
      var rest := FileText(lines[1..]);
      assert FileText(lines) == lines[0] + "\n" + rest;
      forall k | 0 <= k < |FileText(lines)| ensures FileText(lines)[k] != '\r' {
        if k < |lines[0]| {
          assert FileText(lines)[k] == lines[0][k];
        } else if k > |lines[0]| {
          assert FileText(lines)[k] == rest[k - |lines[0]| - 1];
        }
      }
    }
  }

  /** Reading back a file of lines without line breaks gives those lines. */
  lemma FileRoundTrip(lines: seq<string>)
    requires forall i :: 0 <= i < |lines| ==> OneLine(lines[i])
    ensures FileLines(FileText(lines)) == lines
  {
    if lines != [] {
      var text := FileText(lines);
      FileTextNoReturn(lines);
      assert Universal(text) == text;
      FileTextJoin(lines);
      var parts := lines + [""];
      PiecesOfFile(lines, parts);
      SplitJoin(parts, '\n');
      assert Split(Universal(text), '\n') == parts;
      assert parts[..|parts| - 1] == lines;
    }
  }

  /** The pieces of a file cut at `\n`: its lines and an empty last piece. */
  lemma PiecesOfFile(lines: seq<string>, parts: seq<string>)
    requires forall i :: 0 <= i < |lines| ==> OneLine(lines[i])
    requires parts == lines + [""]
    ensures |parts| >= 1 && forall i :: 0 <= i < |parts| ==> '\n' !in parts[i]
  {
    forall i | 0 <= i < |parts| ensures '\n' !in parts[i] {
      if i < |lines| {
        assert parts[i] == lines[i];
      }
    }
  }

  /** Two one-line strings joined by a character other than a line break. */
  lemma JoinedOneLine(a: string, c: char, b: string)
    requires OneLine(a) && OneLine(b) && c != '\n' && c != '\r'
    ensures OneLine(a + [c] + b)
  {
    var s := a + [c] + b;
    forall j | 0 <= j < |s| ensures s[j] != '\n' && s[j] != '\r' {
      if j < |a| {
        assert s[j] == a[j];
      } else if j > |a| {
        assert s[j] == b[j - |a| - 1];
      }
    }
  }

  /** A value holding a line break is read back as two lines: the line
      written for it ends at the break. */
  lemma BrokenLine(a: string, b: string)
    requires OneLine(a) && OneLine(b)
    ensures FileLines(FileText([a + "\n" + b])) == [a, b]
  {
    var text := a + "\n" + b + "\n";
    assert FileText([a + "\n" + b]) == text;
    forall k | 0 <= k < |text| ensures text[k] != '\r' {
      if k < |a| {
        assert text[k] == a[k];
      } else if |a| < k < |a| + 1 + |b| {
        assert text[k] == b[k - |a| - 1];
      }
    }
    Split2(a, b, '\n');
  }

  lemma Split2(a: string, b: string, sep: char)
    requires sep !in a && sep !in b
    ensures Split(a + [sep] + b + [sep], sep) == [a, b, ""]
  {
    var parts := [a, b, ""];
    assert parts[1..] == [b, ""];
    assert parts[1..][1..] == [""];
    assert Join([b, ""], sep) == b + [sep] + "";
    assert Join(parts, sep) == a + [sep] + (b + [sep] + "");
    assert a + [sep] + (b + [sep] + "") == a + [sep] + b + [sep];
    SplitJoin(parts, sep);
  }
}
