/**
 A source file as blocks of includes and other lines, and what sorting makes of it as a whole.
 */
module IncludeBlocks {
  import opened Options
  import opened IncludePatterns
  import opened SortIncludes
  import opened SortedTwice

  datatype Segment = Plain(line: string) | Block(lines: seq<string>)

  predicate IsInclude(cpp: bool, line: string) {
    line != "" && Classify(cpp, line).Some?
  }

  // Includes and blank lines, an include first.
  ghost predicate IsBlock(cpp: bool, ls: seq<string>) {
    ls != [] && IsInclude(cpp, ls[0]) && BlockLines(cpp, ls)
  }

  ghost predicate BlockLines(cpp: bool, ls: seq<string>) {
    forall i :: 0 <= i < |ls| ==> ls[i] == "" || IsInclude(cpp, ls[i])
  }

  // A file cut into lines and blocks; only a line that is neither blank nor an include ends a block.
  ghost predicate Segments(cpp: bool, segs: seq<Segment>) {
    segs == [] ||
    (Segments(cpp, segs[1..]) &&
     match segs[0]
     case Plain(l) => !IsInclude(cpp, l)
     case Block(ls) => IsBlock(cpp, ls) && (segs[1..] == [] || (segs[1].Plain? && IsOther(cpp, segs[1].line))))
  }

  function Text(segs: seq<Segment>): seq<string> {
    if segs == [] then []
    else (match segs[0] case Plain(l) => [l] case Block(ls) => ls) + Text(segs[1..])
  }

  // The cleaned-up includes of one class, in the order of the file.
  function CleanOf(cpp: bool, ls: seq<string>, c: Class): seq<string> {
    if ls == [] then []
    else
      (if IsInclude(cpp, ls[0]) && Classify(cpp, ls[0]).value.0 == c then [Classify(cpp, ls[0]).value.1] else []) +
      CleanOf(cpp, ls[1..], c)
  }

  function Classes(cpp: bool, ls: seq<string>): Includes {
    seq(CLASSES, c requires 0 <= c < CLASSES => CleanOf(cpp, ls, c))
  }

  // The groups of a block: one for each class that has includes, with a blank line between them.
  function Layout(cpp: bool, key: Key, ls: seq<string>): seq<string> {
    Join(Groups(key, Classes(cpp, ls), CLASSES))
  }

  // Every block is written where it was, followed by one blank line if blank lines separate
  // it from a line after it.  Everything else stays.
  function Render(cpp: bool, key: Key, segs: seq<Segment>): seq<string> {
    if segs == [] then []
    else
      (match segs[0]
       case Plain(l) => [l]
       case Block(ls) =>
         Layout(cpp, key, ls) + (if ls != [] && ls[|ls| - 1] == "" && segs[1..] != [] then [""] else [])) +
      Render(cpp, key, segs[1..])
  }

  // ----- Every file can be cut in this way -----

  lemma {:induction false} CutFile(cpp: bool, lines: seq<string>) returns (segs: seq<Segment>)
    ensures Segments(cpp, segs) && Text(segs) == lines
    decreases |lines|
  {
    segs := [];
    if lines != [] {
      hide IsInclude, IsBlock, IsOther, Segments, Text;
      if IsInclude(cpp, lines[0]) {
        var n := BlockEnd(cpp, lines);
        var rest := CutFile(cpp, lines[n..]);
        if n < |lines| {
          EndsBlock(cpp, rest, lines[n], lines[n..]);
        } else {
          TextSome(cpp, rest);
        }
        segs := [Block(lines[..n])] + rest;
        BlockFirst(cpp, lines[..n], rest);
        assert lines == lines[..n] + lines[n..];
      } else {
        var rest := CutFile(cpp, lines[1..]);
        segs := [Plain(lines[0])] + rest;
        PlainFirst(cpp, lines[0], rest);
        assert lines == [lines[0]] + lines[1..];
      }
    }
  }

  lemma BlockEnd(cpp: bool, lines: seq<string>) returns (n: nat)
    requires lines != [] && IsInclude(cpp, lines[0])
    ensures 1 <= n <= |lines| && IsBlock(cpp, lines[..n])
    ensures n < |lines| ==> lines[n] != "" && !IsInclude(cpp, lines[n])
  {
    hide IsInclude;
    n := 1;
    while n < |lines| && (lines[n] == "" || IsInclude(cpp, lines[n]))
      invariant 1 <= n <= |lines| && forall i :: 0 <= i < n ==> lines[i] == "" || IsInclude(cpp, lines[i])
    {
      n := n + 1;
    }
  }

  lemma BlockFirst(cpp: bool, ls: seq<string>, rest: seq<Segment>)
    requires IsBlock(cpp, ls) && Segments(cpp, rest) && (rest == [] || (rest[0].Plain? && IsOther(cpp, rest[0].line)))
    ensures Segments(cpp, [Block(ls)] + rest) && Text([Block(ls)] + rest) == ls + Text(rest)
  {
    assert ([Block(ls)] + rest)[1..] == rest;
  }

  lemma PlainFirst(cpp: bool, l: string, rest: seq<Segment>)
    requires !IsInclude(cpp, l) && Segments(cpp, rest)
    ensures Segments(cpp, [Plain(l)] + rest) && Text([Plain(l)] + rest) == [l] + Text(rest)
  {
    assert ([Plain(l)] + rest)[1..] == rest;
  }

  lemma TextSome(cpp: bool, segs: seq<Segment>)
    requires Segments(cpp, segs)
    ensures segs != [] ==> Text(segs) != []
  {
  }

  lemma EndsBlock(cpp: bool, segs: seq<Segment>, line: string, lines: seq<string>)
    requires Segments(cpp, segs) && Text(segs) == lines && lines != [] && lines[0] == line
    requires line != "" && !IsInclude(cpp, line)
    ensures segs != [] && segs[0].Plain? && IsOther(cpp, segs[0].line)
  {
    assert segs != [];
  }

  // ----- Proof -----

  function After(cpp: bool, ls: seq<string>, st: State): State {
    if ls == [] then st else After(cpp, ls[1..], Next(cpp, ls[0], st))
  }

  // Nothing is written inside a block.
  lemma {:induction false} ReadLines(cpp: bool, key: Key, ls: seq<string>, t: seq<string>, st: State)
    requires BlockLines(cpp, ls) && (st.block || IsBlock(cpp, ls))
    ensures Process(cpp, key, ls + t, st) == Process(cpp, key, t, After(cpp, ls, st)) && After(cpp, ls, st).block
  {
    hide Process, Dump, Classify;
    if ls == [] {
      assert ls + t == t;
    } else {
      assert ls + t == [ls[0]] + (ls[1..] + t);
      ReadOne(cpp, key, ls[0], ls[1..] + t, st);
      assert BlockLines(cpp, ls[1..]);
      ReadLines(cpp, key, ls[1..], t, Next(cpp, ls[0], st));
    }
  }

  lemma {:induction false} AfterIs(cpp: bool, ls: seq<string>, st: State)
    requires BlockLines(cpp, ls)
    ensures forall c: Class :: After(cpp, ls, st).includes[c] == st.includes[c] + CleanOf(cpp, ls, c)
    ensures After(cpp, ls, st).blanks > 0 <==> if ls == [] then st.blanks > 0 else ls[|ls| - 1] == ""
  {
    hide Classify;
    if ls != [] {
      assert BlockLines(cpp, ls[1..]);
      var st' := Next(cpp, ls[0], st);
      AfterIs(cpp, ls[1..], st');
      forall c: Class
        ensures After(cpp, ls, st).includes[c] == st.includes[c] + CleanOf(cpp, ls, c)
      {
        OneLine(cpp, ls[0], st, c);
        var own: seq<string> := if IsInclude(cpp, ls[0]) && Classify(cpp, ls[0]).value.0 == c then [Classify(cpp, ls[0]).value.1] else [];
        assert st.includes[c] + own + CleanOf(cpp, ls[1..], c) == st.includes[c] + (own + CleanOf(cpp, ls[1..], c));
      }
    }
  }

  lemma OneLine(cpp: bool, line: string, st: State, c: Class)
    requires line == "" || IsInclude(cpp, line)
    ensures Next(cpp, line, st).includes[c] ==
            st.includes[c] + if IsInclude(cpp, line) && Classify(cpp, line).value.0 == c then [Classify(cpp, line).value.1] else []
  {
    hide Classify;
  }

  lemma {:induction false} AfterProper(cpp: bool, ls: seq<string>, st: State)
    requires Proper(cpp, st)
    ensures Proper(cpp, After(cpp, ls, st))
  {
    hide Proper, Next;
    if ls != [] {
      NextProper(cpp, ls[0], st);
      AfterProper(cpp, ls[1..], Next(cpp, ls[0], st));
    }
  }

  lemma {:induction false} BlockWritten(cpp: bool, key: Key, ls: seq<string>, b: nat)
    requires IsBlock(cpp, ls)
    ensures var st := After(cpp, ls, State(false, b, Empty()));
            Dump(key, st.includes, CLASSES) == Layout(cpp, key, ls) && (st.blanks > 0 <==> ls[|ls| - 1] == "")
  {
    hide Classify, Dump, Join, Groups, Kept, After;
    var st0 := State(false, b, Empty());
    AfterIs(cpp, ls, st0);
    AfterProper(cpp, ls, st0);
    var st := After(cpp, ls, st0);
    assert st.includes == Classes(cpp, ls) by {
      forall c: Class
        ensures st.includes[c] == Classes(cpp, ls)[c]
      {
        assert [] + CleanOf(cpp, ls, c) == CleanOf(cpp, ls, c);
      }
    }
    DumpIsJoin(cpp, key, st.includes, CLASSES);
  }

  // Sorting the includes of a file leaves every line that is not part of a block where it is, and
  // replaces every block by its groups.
  lemma {:induction false} BlocksInPlace(cpp: bool, key: Key, segs: seq<Segment>, b: nat)
    requires Segments(cpp, segs)
    ensures Process(cpp, key, Text(segs), State(false, b, Empty())) == Render(cpp, key, segs)
    decreases |segs|
  {
    hide Process, Dump, Classify, Layout;
    var st := State(false, b, Empty());
    if segs == [] {
      ReadNone(cpp, key, st);
    } else {
      var rest := segs[1..];
      match segs[0]
      case Plain(l) =>
        BlocksInPlace(cpp, key, rest, if l == "" then b + 1 else b);
        ReadOne(cpp, key, l, Text(rest), st);
      case Block(ls) =>
        ReadLines(cpp, key, ls, Text(rest), st);
        BlockWritten(cpp, key, ls, b);
        var st' := After(cpp, ls, st);
        if rest == [] {
          ReadNone(cpp, key, st');
          assert Layout(cpp, key, ls) + [] + [] == Layout(cpp, key, ls);
        } else {
          BlockEnds(cpp, key, ls, rest, st');
        }
    }
  }

  lemma {:induction false} BlockEnds(cpp: bool, key: Key, ls: seq<string>, rest: seq<Segment>, st: State)
    requires st.block && rest != [] && Segments(cpp, rest) && rest[0].Plain? && IsOther(cpp, rest[0].line)
    requires Dump(key, st.includes, CLASSES) == Layout(cpp, key, ls) && ls != [] && (st.blanks > 0 <==> ls[|ls| - 1] == "")
    ensures Process(cpp, key, Text(rest), st) ==
            Layout(cpp, key, ls) + (if ls[|ls| - 1] == "" then [""] else []) + Render(cpp, key, rest)
    decreases |rest|
  {
    hide Process, Dump, Classify, Layout;
    var l, more := rest[0].line, rest[1..];
    BlocksInPlace(cpp, key, more, 0);
    ReadOther(cpp, key, l, Text(more), st);
    var d, gap, r := Layout(cpp, key, ls), (if ls[|ls| - 1] == "" then [""] else []), Render(cpp, key, more);
    assert d + (gap + [l]) + r == d + gap + ([l] + r);
  }

  // In terms of any file.
  lemma FileRendered(cpp: bool, key: Key, lines: seq<string>) returns (segs: seq<Segment>)
    ensures Segments(cpp, segs) && Text(segs) == lines
    ensures Process(cpp, key, lines, State(false, 0, Empty())) == Render(cpp, key, segs)
  {
    hide Process, Render, Segments, Text;
    segs := CutFile(cpp, lines);
    BlocksInPlace(cpp, key, segs, 0);
  }
}
