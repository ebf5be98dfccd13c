/** The two hand-written line readers of jakobmenu.c. Both read a file one
    byte at a time into logical lines; an unescaped `#` drops the rest of the
    physical line together with its newline. The rc-file reader also treats
    `\` as an escape that makes the next byte literal (a newline included),
    except that an escaped `#` is still tested as a comment start. The
    `.desktop` reader has no escapes.

    A file is a `string`; `escapes` selects the reader. */
module LineReader {
  import opened Wrappers
  import opened Text
  import opened Seqs

  /** One pass of the inner read loop: the logical line collected, the input
      left after it, and whether end of file was reached. */
  datatype LineRead = LineRead(line: string, rest: string, eof: bool)

  /** The comment branch: skips to just past the next newline, or to the end. */
  function SkipComment(s: string): (r: LineRead)
    ensures r.line == []
    ensures r.eof <==> '\n' !in s
    ensures r.eof ==> r.rest == []
    ensures !r.eof ==> |r.rest| < |s|
    ensures !r.eof ==> var k := |s| - |r.rest| - 1;
                       s[k] == '\n' && '\n' !in s[..k] && r.rest == s[k + 1..]
  {
    match IndexOf(s, '\n')
    case None => LineRead([], [], true)
    case Some(k) => LineRead([], s[k + 1..], false)
  }

  /** Reads one logical line from the front of `s`. */
  function ReadLine(s: string, escapes: bool): (r: LineRead)
    ensures |r.rest| <= |s|
    ensures !r.eof ==> |r.rest| < |s|
    ensures r.eof ==> r.rest == []
    ensures '#' !in r.line
    ensures !escapes ==> '\n' !in r.line
    decreases |s|
  {
    if s == [] then LineRead([], [], true)
    else if s[0] == '\n' then LineRead([], s[1..], false)
    else if escapes && s[0] == '\\' && |s| == 1 then LineRead([], [], true)
    else
      var escaped := escapes && s[0] == '\\';
      var c := if escaped then s[1] else s[0];
      var rest := if escaped then s[2..] else s[1..];
      if c == '#' then SkipComment(rest)
      else
        var r := ReadLine(rest, escapes);
        LineRead([c] + r.line, r.rest, r.eof)
  }

  /** Every logical line of a file, in order: the outer `while(!feof(f))`
      loop, which reads one more (empty) line after a final newline and reads
      one empty line from an empty file. */
  function Lines(s: string, escapes: bool): (r: seq<string>)
    ensures |r| >= 1
    ensures forall i :: 0 <= i < |r| ==> '#' !in r[i]
    ensures !escapes ==> forall i :: 0 <= i < |r| ==> '\n' !in r[i]
    decreases |s|
  {
    var first := ReadLine(s, escapes);
    if first.eof then [first.line] else [first.line] + Lines(first.rest, escapes)
  }

  /** A line that either reader returns as it stands. */
  predicate Plain(l: string, escapes: bool) {
    '\n' !in l && '#' !in l && (escapes ==> '\\' !in l)
  }

  lemma {:induction false} ReadPlain(l: string, tail: string, escapes: bool)
    requires Plain(l, escapes)
    requires tail == [] || tail[0] == '\n'
    ensures ReadLine(l + tail, escapes)
            == if tail == [] then LineRead(l, [], true) else LineRead(l, tail[1..], false)
    decreases |l|
  {
    if l != [] {
      ReadPlain(l[1..], tail, escapes);
      ReadPlainCons(l, tail, escapes);
    }
  }

  /** The inductive step of `ReadPlain`. */
  lemma ReadPlainCons(l: string, tail: string, escapes: bool)
    requires l != [] && Plain(l, escapes)
    requires ReadLine(l[1..] + tail, escapes)
             == if tail == [] then LineRead(l[1..], [], true) else LineRead(l[1..], tail[1..], false)
    ensures ReadLine(l + tail, escapes)
            == if tail == [] then LineRead(l, [], true) else LineRead(l, tail[1..], false)
  {
    HeadAndTail(l, tail);
    PlainHead(l, escapes);
    ReadChar(l[0], l[1..] + tail, escapes);
  }

  lemma HeadAndTail(l: string, tail: string)
    requires l != []
    ensures l + tail == [l[0]] + (l[1..] + tail)
    ensures [l[0]] + l[1..] == l
  {
  }

  lemma PlainHead(l: string, escapes: bool)
    requires l != [] && Plain(l, escapes)
    ensures l[0] != '\n' && l[0] != '#' && !(escapes && l[0] == '\\')
    ensures Plain(l[1..], escapes)
  {
    assert l[0] in l;
  }

  /** An ordinary character goes into the line and the read goes on. */
  lemma ReadChar(c: char, s: string, escapes: bool)
    requires c != '\n' && c != '#' && !(escapes && c == '\\')
    ensures ReadLine([c] + s, escapes)
            == LineRead([c] + ReadLine(s, escapes).line, ReadLine(s, escapes).rest, ReadLine(s, escapes).eof)
  {
    assert ([c] + s)[1..] == s;
  }

  /** In the rc reader, a backslash puts the next character into the line,
      unless that character is `#`. */
  lemma ReadEscapedChar(c: char, s: string)
    requires c != '#'
    ensures ReadLine(['\\', c] + s, true)
            == LineRead([c] + ReadLine(s, true).line, ReadLine(s, true).rest, ReadLine(s, true).eof)
  {
    assert (['\\', c] + s)[2..] == s;
  }

  /** End of input ends the last line, and a newline ends every other one:
      on text whose lines hold no `#` (nor, for the rc reader, `\`), either
      reader gives back exactly the lines that were joined. */
  lemma {:induction false} LinesOfJoin(lines: seq<string>, escapes: bool)
    requires |lines| >= 1
    requires forall i :: 0 <= i < |lines| ==> Plain(lines[i], escapes)
    ensures Lines(Join(lines, '\n'), escapes) == lines
    decreases |lines|
  {
    if |lines| == 1 {
      ReadPlain(lines[0], [], escapes);
      assert lines[0] + [] == lines[0];
    } else {
      var tail := ['\n'] + Join(lines[1..], '\n');
      assert Join(lines, '\n') == lines[0] + tail;
      ReadPlain(lines[0], tail, escapes);
      LinesOfJoin(lines[1..], escapes);
    }
  }

  lemma LinesOfTwo(x: string, y: string, escapes: bool)
    requires Plain(x, escapes) && Plain(y, escapes)
    ensures Lines(x + "\n" + y, escapes) == [x, y]
  {
    assert Join([x, y], '\n') == x + "\n" + y;
    LinesOfJoin([x, y], escapes);
  }

  /** What an rc file must hold for the reader to return `l` as one logical
      line: a backslash before every backslash and every newline. */
  function EscapeLine(l: string): (r: string)
    ensures EscapeCounts(l, r)
  {
    if l == [] then []
    else
      var head := if l[0] == '\\' || l[0] == '\n' then ['\\', l[0]] else [l[0]];
      var rest := EscapeLine(l[1..]);
      EscapeCountsCons(l, head, rest);
      head + rest
  }

  /** `r` adds exactly one backslash for each backslash and each newline of
      `l`, and every other byte keeps its count. */
  predicate EscapeCounts(l: string, r: string) {
    && |r| == |l| + multiset(l)['\\'] + multiset(l)['\n']
    && multiset(r)['\\'] == 2 * multiset(l)['\\'] + multiset(l)['\n']
    && forall c :: c != '\\' ==> multiset(r)[c] == multiset(l)[c]
  }

  lemma EscapeCountsCons(l: string, head: string, rest: string)
    requires l != []
    requires head == if l[0] == '\\' || l[0] == '\n' then ['\\', l[0]] else [l[0]]
    requires EscapeCounts(l[1..], rest)
    ensures EscapeCounts(l, head + rest)
  {
    assert l == [l[0]] + l[1..];
    assert multiset(l) == multiset([l[0]]) + multiset(l[1..]);
    assert multiset(head + rest) == multiset(head) + multiset(rest);
  }

  lemma {:induction false} ReadEscaped(l: string, tail: string)
    requires '#' !in l
    requires tail == [] || tail[0] == '\n'
    ensures ReadLine(EscapeLine(l) + tail, true)
            == if tail == [] then LineRead(l, [], true) else LineRead(l, tail[1..], false)
    decreases |l|
  {
    if l != [] {
      ReadEscaped(l[1..], tail);
      ReadEscapedCons(l, tail);
    }
  }

  /** The inductive step of `ReadEscaped`. */
  lemma ReadEscapedCons(l: string, tail: string)
    requires l != [] && '#' !in l
    requires tail == [] || tail[0] == '\n'
    requires ReadLine(EscapeLine(l[1..]) + tail, true)
             == if tail == [] then LineRead(l[1..], [], true) else LineRead(l[1..], tail[1..], false)
    ensures ReadLine(EscapeLine(l) + tail, true)
            == if tail == [] then LineRead(l, [], true) else LineRead(l, tail[1..], false)
  {
    var more := EscapeLine(l[1..]) + tail;
    EscapeCons(l, tail);
    HeadAndTail(l, tail);
    assert l[0] in l;
    if l[0] == '\\' || l[0] == '\n' {
      ReadEscapedChar(l[0], more);
    } else {
      ReadChar(l[0], more, true);
    }
  }

  lemma EscapeCons(l: string, tail: string)
    requires l != []
    ensures EscapeLine(l) + tail
            == (if l[0] == '\\' || l[0] == '\n' then ['\\', l[0]] else [l[0]]) + (EscapeLine(l[1..]) + tail)
  {
  }

  /** Round trip of the rc reader: escaping each line and joining the lines
      with newlines gives a file the reader splits back into the same lines,
      newlines and backslashes inside a line included. Lines with `#` are
      excluded because even an escaped `#` starts a comment. */
  lemma {:induction false} RcLinesOfEscapedJoin(lines: seq<string>)
    requires |lines| >= 1
    requires forall i :: 0 <= i < |lines| ==> '#' !in lines[i]
    ensures Lines(Join(EscapeAll(lines), '\n'), true) == lines
    decreases |lines|
  {
    if |lines| == 1 {
      RcLinesOfOne(lines);
    } else {
      RcLinesOfEscapedJoin(lines[1..]);
      RcLinesCons(lines);
    }
  }

  lemma RcLinesOfOne(lines: seq<string>)
    requires |lines| == 1 && '#' !in lines[0]
    ensures Lines(Join(EscapeAll(lines), '\n'), true) == lines
  {
    ReadEscaped(lines[0], []);
    assert EscapeLine(lines[0]) + [] == EscapeLine(lines[0]);
  }

  /** The inductive step of `RcLinesOfEscapedJoin`. */
  lemma RcLinesCons(lines: seq<string>)
    requires |lines| >= 2 && '#' !in lines[0]
    requires Lines(Join(EscapeAll(lines[1..]), '\n'), true) == lines[1..]
    ensures Lines(Join(EscapeAll(lines), '\n'), true) == lines
  {
    var rest := Join(EscapeAll(lines[1..]), '\n');
    var tail := ['\n'] + rest;
    JoinEscapedCons(lines);
    ReadEscaped(lines[0], tail);
    assert tail[1..] == rest;
    LinesUnfold(EscapeLine(lines[0]) + tail, true);
  }

  lemma JoinEscapedCons(lines: seq<string>)
    requires |lines| >= 2
    ensures Join(EscapeAll(lines), '\n') == EscapeLine(lines[0]) + (['\n'] + Join(EscapeAll(lines[1..]), '\n'))
  {
    var escaped := EscapeAll(lines);
    assert escaped[1..] == EscapeAll(lines[1..]);
  }

  /** A line that does not end the file is followed by the lines of what
      remains. */
  lemma LinesUnfold(s: string, escapes: bool)
    requires !ReadLine(s, escapes).eof
    ensures Lines(s, escapes) == [ReadLine(s, escapes).line] + Lines(ReadLine(s, escapes).rest, escapes)
  {
  }

  /** Every line escaped for the rc reader. */
  function EscapeAll(lines: seq<string>): (r: seq<string>)
    ensures |r| == |lines|
    ensures forall i :: 0 <= i < |lines| ==> r[i] == EscapeLine(lines[i])
  {
    Map(EscapeLine, lines)
  }

  /** An unescaped `#` drops the rest of its physical line and the newline
      ending it; the text before it is a line of its own. */
  lemma CommentDropped(l: string, comment: string, rest: string, escapes: bool)
    requires Plain(l, escapes)
    requires '\n' !in comment
    ensures Lines(l + ['#'] + comment + ['\n'] + rest, escapes) == [l] + Lines(rest, escapes)
  {
    var after := comment + ['\n'] + rest;
    assert l + ['#'] + comment + ['\n'] + rest == l + ['#'] + after;
    SkipCommentTo(comment, rest);
    ReadUntilHash(l, after, escapes, false);
  }

  /** In the rc reader a backslash does not protect `#`: the escaped
      character is still tested against `#` and starts a comment. */
  lemma EscapedHashStartsComment(l: string, comment: string, rest: string)
    requires Plain(l, true)
    requires '\n' !in comment
    ensures Lines(l + ['\\', '#'] + comment + ['\n'] + rest, true) == [l] + Lines(rest, true)
  {
    var after := comment + ['\n'] + rest;
    assert l + ['\\', '#'] + comment + ['\n'] + rest == l + ['\\', '#'] + after;
    SkipCommentTo(comment, rest);
    ReadUntilHash(l, after, true, true);
  }

  lemma SkipCommentTo(comment: string, rest: string)
    requires '\n' !in comment
    ensures SkipComment(comment + ['\n'] + rest) == LineRead([], rest, false)
  {
    var after := comment + ['\n'] + rest;
    assert after[..|comment|] == comment;
    assert after[|comment|] == '\n';
    assert IndexOf(after, '\n') == Some(|comment|);
    assert after[|comment| + 1..] == rest;
  }

  lemma {:induction false} ReadUntilHash(l: string, after: string, escapes: bool, escaped: bool)
    requires Plain(l, escapes)
    requires escaped ==> escapes
    ensures ReadLine(l + (if escaped then ['\\', '#'] else ['#']) + after, escapes)
            == LineRead(l, SkipComment(after).rest, SkipComment(after).eof)
    decreases |l|
  {
    var mark := if escaped then ['\\', '#'] else ['#'];
    var s := l + mark + after;
    if l == [] {
      assert s == mark + after;
      assert s[|mark|..] == after;
    } else {
      assert s[1..] == l[1..] + mark + after;
      ReadUntilHash(l[1..], after, escapes, escaped);
      assert [l[0]] + l[1..] == l;
    }
  }
}
