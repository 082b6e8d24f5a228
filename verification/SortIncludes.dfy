/**
 Sorting the include lines of a source file: blocks of includes are collected by class and written
 out class by class, each class sorted, with single blank lines between classes.  What is proved
 here holds for every key that lines are sorted by.
 */
module SortIncludes {
  import opened Options
  import opened IncludePatterns

  type Key = string -> string

  // ----- Sorting -----

  predicate Leq(a: string, b: string) {
    a == [] || (b != [] && (a[0] < b[0] || (a[0] == b[0] && Leq(a[1..], b[1..]))))
  }

  lemma {:induction false} LeqTotal(a: string, b: string)
    ensures Leq(a, b) || Leq(b, a)
  {
    if a != [] && b != [] {
      LeqTotal(a[1..], b[1..]);
    }
  }

  lemma {:induction false} LeqTransitive(a: string, b: string, c: string)
    requires Leq(a, b) && Leq(b, c)
    ensures Leq(a, c)
  {
    if a != [] && b != [] && c != [] && a[0] == b[0] == c[0] {
      LeqTransitive(a[1..], b[1..], c[1..]);
    }
  }

  ghost predicate Sorted(key: Key, s: seq<string>) {
    forall i, j :: 0 <= i < j < |s| ==> Leq(key(s[i]), key(s[j]))
  }

  // Puts x behind the lines that do not sort after it.
  function Insert(key: Key, s: seq<string>, x: string): seq<string> {
    if s == [] || Leq(key(s[|s| - 1]), key(x)) then s + [x]
    else Insert(key, s[..|s| - 1], x) + [s[|s| - 1]]
  }

  function Sort(key: Key, s: seq<string>): seq<string> {
    if s == [] then [] else Insert(key, Sort(key, s[..|s| - 1]), s[|s| - 1])
  }

  lemma {:induction false} InsertElements(key: Key, s: seq<string>, x: string)
    ensures forall y :: y in Insert(key, s, x) <==> y in s || y == x
  {
    if s != [] && !Leq(key(s[|s| - 1]), key(x)) {
      InsertElements(key, s[..|s| - 1], x);
      assert s == s[..|s| - 1] + [s[|s| - 1]];
    }
  }

  lemma {:induction false} InsertSorted(key: Key, s: seq<string>, x: string)
    requires Sorted(key, s)
    ensures Sorted(key, Insert(key, s, x))
  {
    if s == [] {
    } else if Leq(key(s[|s| - 1]), key(x)) {
      forall i | 0 <= i < |s|
        ensures Leq(key(s[i]), key(x))
      {
        LeqTotal(key(s[i]), key(s[|s| - 1]));
        if i < |s| - 1 {
          LeqTransitive(key(s[i]), key(s[|s| - 1]), key(x));
        }
      }
    } else {
      var front, last := s[..|s| - 1], s[|s| - 1];
      InsertSorted(key, front, x);
      InsertElements(key, front, x);
      LeqTotal(key(last), key(x));
      var r := Insert(key, front, x);
      forall i | 0 <= i < |r|
        ensures Leq(key(r[i]), key(last))
      {
        assert r[i] in r;
        if r[i] != x {
          assert r[i] in front;
          var j :| 0 <= j < |front| && front[j] == r[i];
          assert Leq(key(s[j]), key(s[|s| - 1]));
        }
      }
    }
  }

  lemma {:induction false} SortSorts(key: Key, s: seq<string>)
    ensures Sorted(key, Sort(key, s)) && forall y :: y in Sort(key, s) <==> y in s
  {
    if s != [] {
      var front := s[..|s| - 1];
      SortSorts(key, front);
      InsertSorted(key, Sort(key, front), s[|s| - 1]);
      InsertElements(key, Sort(key, front), s[|s| - 1]);
      assert s == front + [s[|s| - 1]];
    }
  }

  // A sorted list is left as it is.
  lemma {:induction false} SortKeeps(key: Key, s: seq<string>)
    requires Sorted(key, s)
    ensures Sort(key, s) == s
  {
    hide Leq;
    if s != [] {
      var front, last := s[..|s| - 1], s[|s| - 1];
      SortKeeps(key, front);
      assert s == front + [last];
      if front != [] {
        assert front[|front| - 1] == s[|s| - 2];
        assert Leq(key(s[|s| - 2]), key(s[|s| - 1]));
      }
    }
  }

  // The lines of a list that have a given key, in order.
  ghost function WithKey(key: Key, s: seq<string>, k: string): seq<string> {
    if s == [] then []
    else WithKey(key, s[..|s| - 1], k) + if key(s[|s| - 1]) == k then [s[|s| - 1]] else []
  }

  lemma {:induction false} InsertStable(key: Key, s: seq<string>, x: string, k: string)
    ensures WithKey(key, Insert(key, s, x), k) == WithKey(key, s + [x], k)
  {
    assert (s + [x])[..|s|] == s;
    if s != [] && !Leq(key(s[|s| - 1]), key(x)) {
      var front, last := s[..|s| - 1], s[|s| - 1];
      InsertStable(key, front, x, k);
      var r := Insert(key, front, x);
      assert (r + [last])[..|r|] == r;
      assert (front + [x])[..|front|] == front;
      LeqSelf(key(x));
    }
  }

  lemma {:induction false} LeqSelf(a: string)
    ensures Leq(a, a)
  {
    LeqTotal(a, a);
  }

  // Lines with equal keys keep their order.
  lemma {:induction false} SortStable(key: Key, s: seq<string>, k: string)
    ensures WithKey(key, Sort(key, s), k) == WithKey(key, s, k)
  {
    if s != [] {
      var front, last := s[..|s| - 1], s[|s| - 1];
      SortStable(key, front, k);
      InsertStable(key, Sort(key, front), last, k);
      assert (Sort(key, front) + [last])[..|Sort(key, front)|] == Sort(key, front);
    }
  }

  // Drops a line that equals the one before it.
  function Dedup(s: seq<string>): seq<string> {
    if s == [] then []
    else if |s| > 1 && s[|s| - 1] == s[|s| - 2] then Dedup(s[..|s| - 1])
    else Dedup(s[..|s| - 1]) + [s[|s| - 1]]
  }

  ghost predicate NoRepeat(s: seq<string>) {
    forall i, j :: 0 <= i < |s| && j == i + 1 && j < |s| ==> s[i] != s[j]
  }

  lemma {:induction false} DedupProperties(key: Key, s: seq<string>)
    requires Sorted(key, s)
    ensures Sorted(key, Dedup(s)) && NoRepeat(Dedup(s)) && forall y :: y in Dedup(s) <==> y in s
    ensures s != [] ==> Dedup(s) != [] && Dedup(s)[|Dedup(s)| - 1] == s[|s| - 1]
  {
    if s != [] {
      var front, last := s[..|s| - 1], s[|s| - 1];
      DedupProperties(key, front);
      assert s == front + [last];
      if !(|s| > 1 && last == s[|s| - 2]) {
        var d := Dedup(front);
        forall i | 0 <= i < |d|
          ensures Leq(key(d[i]), key(last))
        {
          assert d[i] in d;
          assert d[i] in front;
          var j :| 0 <= j < |front| && front[j] == d[i];
          assert Leq(key(s[j]), key(s[|s| - 1]));
        }
      }
    }
  }

  lemma {:induction false} DedupKeeps(s: seq<string>)
    requires NoRepeat(s)
    ensures Dedup(s) == s
  {
    if s != [] {
      DedupKeeps(s[..|s| - 1]);
      assert s == s[..|s| - 1] + [s[|s| - 1]];
    }
  }

  // What is written for one class.
  function Tidy(key: Key, s: seq<string>): seq<string> {
    Dedup(Sort(key, s))
  }

  // The lines written for a class are sorted, hold every include once next to its equals, and
  // tidying them again changes nothing.
  lemma TidyProperties(key: Key, s: seq<string>)
    ensures Sorted(key, Tidy(key, s)) && NoRepeat(Tidy(key, s)) && forall y :: y in Tidy(key, s) <==> y in s
    ensures Tidy(key, Tidy(key, s)) == Tidy(key, s) && (Tidy(key, s) == [] <==> s == [])
  {
    SortSorts(key, s);
    DedupProperties(key, Sort(key, s));
    SortKeeps(key, Tidy(key, s));
    DedupKeeps(Tidy(key, s));
    assert s != [] ==> s[0] in Tidy(key, s);
    assert Tidy(key, s) != [] ==> Tidy(key, s)[0] in s;
  }

  // ----- Blocks -----

  // The includes collected so far, by class.
  type Includes = x: seq<seq<string>> | |x| == CLASSES witness seq(CLASSES, _ => [])

  function Empty(): Includes {
    seq(CLASSES, _ => [])
  }

  // What is written for the classes before k.
  function Dump(key: Key, inc: Includes, k: nat): seq<string>
    requires k <= CLASSES
  {
    if k == 0 then []
    else
      var before := Dump(key, inc, k - 1);
      if inc[k - 1] == [] then before
      else before + ((if before == [] then [] else [""]) + Tidy(key, inc[k - 1]))
  }

  datatype State = State(block: bool, blanks: nat, includes: Includes)

  function Next(cpp: bool, line: string, st: State): State {
    if line == "" then st.(blanks := st.blanks + 1)
    else
      match Classify(cpp, line)
      case Some((c, clean)) => State(true, 0, st.includes[c := st.includes[c] + [clean]])
      case None => if st.block then State(false, 0, Empty()) else st
  }

  // What is written when a line has been read.
  function Out(cpp: bool, key: Key, line: string, st: State): seq<string> {
    if line == "" then (if st.block then [] else [""])
    else
      match Classify(cpp, line)
      case Some(_) => []
      case None =>
        if st.block then Dump(key, st.includes, CLASSES) + ((if st.blanks > 0 then [""] else []) + [line]) else [line]
  }

  // What is written for the lines from a state on.
  function Process(cpp: bool, key: Key, lines: seq<string>, st: State): seq<string> {
    if lines == [] then (if st.block then Dump(key, st.includes, CLASSES) else [])
    else Out(cpp, key, lines[0], st) + Process(cpp, key, lines[1..], Next(cpp, lines[0], st))
  }

  class SortIncludes {
    var includes: Includes
    const cpp: bool
    const key: Key

    constructor (cpp: bool, key: Key)
      ensures this.cpp == cpp && this.key == key && includes == Empty()
    {
      this.cpp, this.key := cpp, key;
      includes := Empty();
    }

    method Reset()
      modifies this
      ensures includes == Empty()
    {
      includes := Empty();
    }

    method DumpBlock() returns (out: seq<string>)
      ensures out == Dump(key, includes, CLASSES)
    {
      hide Sort, Dedup, Sorted, NoRepeat;
      out := [];
      var first := true;
      var k := 0;
      while k < CLASSES
        invariant k <= CLASSES && out == Dump(key, includes, k) && (first <==> out == [])
      {
        if includes[k] != [] {
          TidyProperties(key, includes[k]);
          var group := DumpGroup(key, includes[k]);
          out := out + ((if first then [] else [""]) + group);
          first := false;
        }
        k := k + 1;
      }
    }

    method Call(lines: seq<string>) returns (out: seq<string>)
      requires includes == Empty()
      modifies this
      ensures out == Process(cpp, key, lines, State(false, 0, Empty()))
    {
      hide Dump, Out, Next;
      out := [];
      var blanks, block := 0, false;
      ghost var result := Process(cpp, key, lines, State(false, 0, Empty()));
      var i := 0;
      while i < |lines|
        invariant i <= |lines| && (!block ==> includes == Empty())
        invariant out + Process(cpp, key, lines[i..], State(block, blanks, includes)) == result
      {
        assert lines[i..][1..] == lines[i + 1..];
        ghost var st := State(block, blanks, includes);
        var more;
        more, blanks, block := ReadLine(lines[i], blanks, block);
        ghost var rest := Process(cpp, key, lines[i + 1..], State(block, blanks, includes));
        assert out + (more + rest) == out + more + rest;
        out := out + more;
        i := i + 1;
      }
      assert lines[i..] == [];
      if block {
        var lines' := DumpBlock();
        out := out + lines';
      }
    }

    // The body of the loop over the lines.
    method ReadLine(line: string, blanks0: nat, block0: bool) returns (out: seq<string>, blanks: nat, block: bool)
      requires !block0 ==> includes == Empty()
      modifies this
      ensures State(block, blanks, includes) == Next(cpp, line, State(block0, blanks0, old(includes)))
      ensures out == Out(cpp, key, line, State(block0, blanks0, old(includes)))
      ensures !block ==> includes == Empty()
    {
      hide Dump;
      out, blanks, block := [], blanks0, block0;
      if line == "" {
        blanks := blanks + 1;
        if !block {
          out := [""];
        }
        return;
      }
      match Classify(cpp, line) {
        case Some((c, clean)) =>
          includes := includes[c := includes[c] + [clean]];
          block, blanks := true, 0;
        case None =>
          if !block {
            out := [line];
            return;
          }
          out := DumpBlock();
          if blanks > 0 {
            out := out + ([""] + [line]);
          } else {
            out := out + ([] + [line]);
          }
          blanks, block := 0, false;
          Reset();
      }
    }
  }

  // The loop that writes a class: a line is left out if it equals the one before.
  method DumpGroup(key: Key, lines: seq<string>) returns (out: seq<string>)
    ensures out == Tidy(key, lines)
  {
    hide Sort;
    var group := Sort(key, lines);
    out := [];
    var prev := None;
    var i := 0;
    while i < |group|
      invariant i <= |group| && out == Dedup(group[..i])
      invariant prev == if i == 0 then None else Some(group[i - 1])
    {
      assert group[..i + 1][..i] == group[..i];
      if Some(group[i]) != prev {
        out := out + [group[i]];
      }
      prev := Some(group[i]);
      i := i + 1;
    }
    assert group[..i] == group;
  }
}
