/**
 What sorting the includes of a file keeps, and exactly when sorting them a second time changes
 nothing.
 */
module SortedTwice {
  import opened Options
  import opened IncludePatterns
  import opened SortIncludes

  // ----- Lines that have been cleaned up -----

  // A line that is left as it is, in some class.
  ghost predicate IsClean(cpp: bool, line: string) {
    line != "" && Classify(cpp, line).Some? && Classify(cpp, line).value.1 == line
  }

  function ClassOf(cpp: bool, line: string): Class {
    var r := Classify(cpp, line);
    if r.Some? then r.value.0 else 0
  }

  // A line of class c that is read back as a C header.
  predicate Moves(cpp: bool, c: Class, line: string) {
    (c == 2 || c == 3) && Classify(cpp, line) == Some((1, line))
  }

  // Collected lines are clean and are read back in their class, or move.
  ghost predicate Kept(cpp: bool, c: Class, line: string) {
    line != "" && (Classify(cpp, line) == Some((c, line)) || Moves(cpp, c, line))
  }

  ghost predicate AllKept(cpp: bool, inc: Includes) {
    forall c: Class, l :: l in inc[c] ==> Kept(cpp, c, l)
  }

  // The states that the sorting can be in.
  ghost predicate Proper(cpp: bool, st: State) {
    AllKept(cpp, st.includes) && (if st.block then exists c: Class :: st.includes[c] != [] else st.includes == Empty())
  }

  lemma NextProper(cpp: bool, line: string, st: State)
    requires Proper(cpp, st)
    ensures Proper(cpp, Next(cpp, line, st))
  {
    hide Classify;
    if line != "" && Classify(cpp, line).Some? {
      CleanAgain(cpp, line);
      var (c, clean) := Classify(cpp, line).value;
      assert Kept(cpp, c, clean);
      assert Next(cpp, line, st).includes[c] != [];
    }
  }

  // ----- Reading lines -----

  lemma {:induction false} ReadOne(cpp: bool, key: Key, line: string, t: seq<string>, st: State)
    ensures Process(cpp, key, [line] + t, st) == Out(cpp, key, line, st) + Process(cpp, key, t, Next(cpp, line, st))
  {
    hide Out, Next, Dump;
    assert ([line] + t)[1..] == t;
  }

  lemma {:induction false} ReadNone(cpp: bool, key: Key, st: State)
    ensures Process(cpp, key, [], st) == if st.block then Dump(key, st.includes, CLASSES) else []
  {
    hide Dump;
  }

  lemma {:induction false} ReadBlank(cpp: bool, key: Key, t: seq<string>, st: State)
    ensures Process(cpp, key, [""] + t, st) ==
            (if st.block then [] else [""]) + Process(cpp, key, t, st.(blanks := st.blanks + 1))
  {
    hide Process, Dump, Classify;
    ReadOne(cpp, key, "", t, st);
  }

  lemma {:induction false} ReadOther(cpp: bool, key: Key, line: string, t: seq<string>, st: State)
    requires line != "" && Classify(cpp, line).None?
    ensures Process(cpp, key, [line] + t, st) ==
            Out(cpp, key, line, st) + Process(cpp, key, t, if st.block then State(false, 0, Empty()) else st)
  {
    hide Process, Dump, Classify;
    ReadOne(cpp, key, line, t, st);
  }

  // The includes after lines that are clean have been read.
  function Collect(cpp: bool, ls: seq<string>, inc: Includes): Includes {
    if ls == [] then inc
    else
      var c := ClassOf(cpp, ls[0]);
      Collect(cpp, ls[1..], inc[c := inc[c] + [ls[0]]])
  }

  lemma {:induction false} ReadGroup(cpp: bool, key: Key, ls: seq<string>, t: seq<string>, st: State)
    requires ls != [] && forall l :: l in ls ==> IsClean(cpp, l)
    ensures Process(cpp, key, ls + t, st) == Process(cpp, key, t, State(true, 0, Collect(cpp, ls, st.includes)))
    decreases |ls|
  {
    hide Dump, Process, Classify;
    var st' := Next(cpp, ls[0], st);
    assert IsClean(cpp, ls[0]);
    assert ls + t == [ls[0]] + (ls[1..] + t);
    ReadOne(cpp, key, ls[0], ls[1..] + t, st);
    var after := Process(cpp, key, ls[1..] + t, st');
    assert [] + after == after;
    if |ls| == 1 {
      assert ls[1..] + t == t;
      assert Collect(cpp, ls[1..], st'.includes) == st'.includes;
    } else {
      ReadGroup(cpp, key, ls[1..], t, st');
    }
  }

  lemma TidyClean(cpp: bool, key: Key, inc: Includes, c: Class)
    requires AllKept(cpp, inc)
    ensures forall l :: l in Tidy(key, inc[c]) ==> IsClean(cpp, l) && Kept(cpp, c, l)
    ensures Tidy(key, inc[c]) == [] <==> inc[c] == []
  {
    hide Classify, Tidy;
    TidyProperties(key, inc[c]);
    forall l | l in Tidy(key, inc[c])
      ensures IsClean(cpp, l) && Kept(cpp, c, l)
    {
      assert Kept(cpp, c, l);
    }
  }

  // The includes after what was written for the classes before k has been read back.
  function ReadBack(cpp: bool, key: Key, inc: Includes, k: nat): Includes
    requires k <= CLASSES
  {
    if k == 0 then Empty()
    else Collect(cpp, Tidy(key, inc[k - 1]), ReadBack(cpp, key, inc, k - 1))
  }

  lemma {:induction false} ReadDump(cpp: bool, key: Key, inc: Includes, k: nat, t: seq<string>, b: nat)
    requires k <= CLASSES && AllKept(cpp, inc)
    ensures Dump(key, inc, k) == [] ==> ReadBack(cpp, key, inc, k) == Empty()
    ensures Dump(key, inc, k) != [] ==>
              Process(cpp, key, Dump(key, inc, k) + t, State(false, b, Empty())) == Process(cpp, key, t, State(true, 0, ReadBack(cpp, key, inc, k)))
    decreases k
  {
    hide Process, Tidy, Classify, AllKept, Collect, IsClean;
    if k > 0 {
      var before, group, fresh_ := Dump(key, inc, k - 1), Tidy(key, inc[k - 1]), State(false, b, Empty());
      var all := ReadBack(cpp, key, inc, k - 1);
      TidyClean(cpp, key, inc, k - 1);
      if inc[k - 1] == [] {
        CollectNone(cpp, all);
        ReadDump(cpp, key, inc, k - 1, t, b);
      } else {
        ReadDump(cpp, key, inc, k - 1, [""] + (group + t), b);
        hide ReadBack;
        if before == [] {
          assert Dump(key, inc, k) == group;
          ReadGroup(cpp, key, group, t, fresh_);
        } else {
          ReadMore(cpp, key, before, group, t, fresh_, all);
        }
        ReadBackStep(cpp, key, inc, k - 1);
      }
    }
  }

  lemma ReadBackStep(cpp: bool, key: Key, inc: Includes, k: nat)
    requires k < CLASSES
    ensures ReadBack(cpp, key, inc, k + 1) == Collect(cpp, Tidy(key, inc[k]), ReadBack(cpp, key, inc, k))
  {
  }

  lemma {:induction false} CollectNone(cpp: bool, inc: Includes)
    ensures Collect(cpp, [], inc) == inc
  {
  }

  // One more group, after a blank line.
  lemma {:induction false} ReadMore(cpp: bool, key: Key, before: seq<string>, group: seq<string>, t: seq<string>, st: State, all: Includes)
    requires group != [] && forall l :: l in group ==> IsClean(cpp, l)
    requires var t' := [""] + (group + t); Process(cpp, key, before + t', st) == Process(cpp, key, t', State(true, 0, all))
    ensures Process(cpp, key, before + ([""] + group) + t, st) == Process(cpp, key, t, State(true, 0, Collect(cpp, group, all)))
  {
    hide Process, Classify;
    assert before + ([""] + group) + t == before + ([""] + (group + t));
    ReadBlank(cpp, key, group + t, State(true, 0, all));
    ReadGroup(cpp, key, group, t, State(true, 1, all));
  }

  // Reading back what was written for a block collects its includes.
  lemma {:induction false} ReadsBack(cpp: bool, key: Key, inc: Includes, t: seq<string>, b: nat)
    requires AllKept(cpp, inc) && exists c: Class :: inc[c] != []
    ensures Process(cpp, key, Dump(key, inc, CLASSES) + t, State(false, b, Empty())) ==
            Process(cpp, key, t, State(true, 0, ReadBack(cpp, key, inc, CLASSES)))
  {
    hide Process, Dump, Tidy, ReadBack, Classify;
    var c: Class :| inc[c] != [];
    DumpLines(key, inc, CLASSES);
    assert inc[c][0] in inc[c] && Kept(cpp, c, inc[c][0]) && inc[c][0] in Dump(key, inc, CLASSES);
    ReadDump(cpp, key, inc, CLASSES, t, b);
  }

  // ----- What is read back -----

  // The lines of a class, in order.
  function OfClass(cpp: bool, ls: seq<string>, d: Class): seq<string> {
    if ls == [] then [] else (if ClassOf(cpp, ls[0]) == d then [ls[0]] else []) + OfClass(cpp, ls[1..], d)
  }

  lemma {:induction false} OfClassMembers(cpp: bool, ls: seq<string>, d: Class)
    ensures forall l :: l in OfClass(cpp, ls, d) <==> l in ls && ClassOf(cpp, l) == d
    ensures |OfClass(cpp, ls, d)| <= |ls| && ((exists l :: l in ls && ClassOf(cpp, l) != d) ==> |OfClass(cpp, ls, d)| < |ls|)
  {
    hide ClassOf;
    if ls != [] {
      OfClassMembers(cpp, ls[1..], d);
      assert ls == [ls[0]] + ls[1..];
    }
  }

  lemma {:induction false} OfClassAll(cpp: bool, ls: seq<string>, d: Class)
    requires forall l :: l in ls ==> ClassOf(cpp, l) == d
    ensures OfClass(cpp, ls, d) == ls
  {
    hide ClassOf;
    if ls != [] {
      assert ls[0] in ls;
      OfClassAll(cpp, ls[1..], d);
      assert ls == [ls[0]] + ls[1..];
    }
  }

  lemma {:induction false} OfClassNone(cpp: bool, ls: seq<string>, d: Class)
    requires forall l :: l in ls ==> ClassOf(cpp, l) != d
    ensures OfClass(cpp, ls, d) == []
  {
    hide ClassOf;
    if ls != [] {
      assert ls[0] in ls;
      OfClassNone(cpp, ls[1..], d);
    }
  }

  lemma {:induction false} CollectAt(cpp: bool, ls: seq<string>, inc: Includes, d: Class)
    ensures Collect(cpp, ls, inc)[d] == inc[d] + OfClass(cpp, ls, d)
    decreases |ls|
  {
    hide ClassOf;
    if ls != [] {
      var c := ClassOf(cpp, ls[0]);
      CollectAt(cpp, ls[1..], inc[c := inc[c] + [ls[0]]], d);
    }
  }

  // A group consists of lines of its own class and, for stl and cc, of lines of class c.
  lemma GroupClasses(cpp: bool, key: Key, inc: Includes, c: Class)
    requires AllKept(cpp, inc)
    ensures forall l :: l in Tidy(key, inc[c]) ==> ClassOf(cpp, l) == c || ((c == 2 || c == 3) && ClassOf(cpp, l) == 1)
  {
    hide Classify, Tidy, AllKept;
    TidyClean(cpp, key, inc, c);
  }

  // The part of the group of class c that is read back as class d.
  function Part(cpp: bool, key: Key, inc: Includes, c: Class, d: Class): seq<string> {
    OfClass(cpp, Tidy(key, inc[c]), d)
  }

  lemma PartOf(cpp: bool, key: Key, inc: Includes, c: Class, d: Class)
    requires AllKept(cpp, inc)
    ensures d != c && !(d == 1 && (c == 2 || c == 3)) ==> Part(cpp, key, inc, c, d) == []
    ensures c == d && c != 2 && c != 3 ==> Part(cpp, key, inc, c, d) == Tidy(key, inc[c])
  {
    hide ClassOf, OfClass, AllKept, Tidy;
    GroupClasses(cpp, key, inc, c);
    if d != c && !(d == 1 && (c == 2 || c == 3)) {
      OfClassNone(cpp, Tidy(key, inc[c]), d);
    } else if c == d && c != 2 && c != 3 {
      OfClassAll(cpp, Tidy(key, inc[c]), d);
    }
  }

  lemma ReadBackNext(cpp: bool, key: Key, inc: Includes, k: nat, d: Class)
    requires k < CLASSES
    ensures ReadBack(cpp, key, inc, k + 1)[d] == ReadBack(cpp, key, inc, k)[d] + Part(cpp, key, inc, k, d)
  {
    hide Tidy, OfClass, Collect;
    CollectAt(cpp, Tidy(key, inc[k]), ReadBack(cpp, key, inc, k), d);
  }

  // The includes of a class that are read back from the groups before k: those of its own
  // group, and C headers from the groups of stl and cc as well.
  function From(cpp: bool, key: Key, inc: Includes, k: nat, d: Class): seq<string> {
    if d != 1 then (if d < k then Part(cpp, key, inc, d, d) else [])
    else (if 1 < k then Tidy(key, inc[1]) else []) + (if 2 < k then Part(cpp, key, inc, 2, 1) else [])
         + (if 3 < k then Part(cpp, key, inc, 3, 1) else [])
  }

  lemma FromNext(cpp: bool, key: Key, inc: Includes, k: nat, d: Class)
    requires k < CLASSES && AllKept(cpp, inc)
    ensures From(cpp, key, inc, k + 1, d) == From(cpp, key, inc, k, d) + Part(cpp, key, inc, k, d)
  {
    hide Part, AllKept, Tidy;
    PartOf(cpp, key, inc, k, d);
    var part := Part(cpp, key, inc, k, d);
    if d == 1 && k != 1 && k != 2 && k != 3 {
      assert part == [];
    }
  }

  lemma {:induction false} ReadBackAt(cpp: bool, key: Key, inc: Includes, k: nat, d: Class)
    requires k <= CLASSES && AllKept(cpp, inc)
    ensures ReadBack(cpp, key, inc, k)[d] == From(cpp, key, inc, k, d)
    decreases k
  {
    if k == 0 {
      hide Part, AllKept, Tidy;
    } else {
      hide *;
      ReadBackAt(cpp, key, inc, k - 1, d);
      ReadBackNext(cpp, key, inc, k - 1, d);
      FromNext(cpp, key, inc, k - 1, d);
    }
  }

  // ----- The groups of what is written -----

  function Group(g: seq<string>): seq<seq<string>> {
    if g == [] then [] else [g]
  }

  function Groups(key: Key, inc: Includes, k: nat): seq<seq<string>>
    requires k <= CLASSES
  {
    if k == 0 then [] else Groups(key, inc, k - 1) + Group(Tidy(key, inc[k - 1]))
  }

  // The groups with blank lines between them.
  function Join(gs: seq<seq<string>>): seq<string> {
    if gs == [] then []
    else
      var front, last := gs[..|gs| - 1], gs[|gs| - 1];
      if front == [] then last else Join(front) + ([""] + last)
  }

  ghost predicate AreGroups(gs: seq<seq<string>>) {
    forall g :: g in gs ==> g != [] && "" !in g
  }

  lemma {:induction false} JoinMore(gs: seq<seq<string>>, g: seq<string>)
    requires AreGroups(gs) && g != [] && "" !in g
    ensures AreGroups(gs + [g]) && Join(gs + [g]) == (if gs == [] then g else Join(gs) + ([""] + g))
  {
    assert (gs + [g])[..|gs|] == gs;
  }

  lemma {:induction false} JoinEmpty(gs: seq<seq<string>>)
    requires AreGroups(gs)
    ensures Join(gs) == [] <==> gs == []
  {
    if gs != [] {
      assert gs[|gs| - 1] in gs;
    }
  }

  lemma {:induction false} DumpIsJoin(cpp: bool, key: Key, inc: Includes, k: nat)
    requires k <= CLASSES && AllKept(cpp, inc)
    ensures AreGroups(Groups(key, inc, k)) && Dump(key, inc, k) == Join(Groups(key, inc, k))
  {
    hide Tidy, AllKept, Join, AreGroups, Classify;
    if k == 0 {
      JoinNone();
    } else {
      DumpIsJoin(cpp, key, inc, k - 1);
      TidyClean(cpp, key, inc, k - 1);
      var front, last := Groups(key, inc, k - 1), Tidy(key, inc[k - 1]);
      JoinEmpty(front);
      assert front + [] == front;
      if last != [] {
        JoinMore(front, last);
      }
    }
  }

  lemma JoinNone()
    ensures AreGroups([]) && Join([]) == []
  {
  }

  // Where the last of several groups starts.
  lemma LastGroup(a: seq<string>, g: seq<string>, b: seq<string>, h: seq<string>)
    requires "" !in g && "" !in h && a + ([""] + g) == b + ([""] + h)
    ensures a == b && g == h
  {
    var s := a + ([""] + g);
    var t := b + ([""] + h);
    assert s[|a|] == "" && t[|b|] == "";
    assert forall i :: |a| < i < |s| ==> s[i] == g[i - |a| - 1];
    assert forall i :: |b| < i < |t| ==> t[i] == h[i - |b| - 1];
    assert |a| == |b|;
    assert a == s[..|a|] && b == t[..|b|] && g == s[|a| + 1..] && h == t[|b| + 1..];
  }

  lemma FrontGroups(gs: seq<seq<string>>)
    requires AreGroups(gs) && gs != []
    ensures AreGroups(gs[..|gs| - 1]) && gs[|gs| - 1] != [] && "" !in gs[|gs| - 1]
    ensures gs == gs[..|gs| - 1] + [gs[|gs| - 1]]
  {
    assert gs[|gs| - 1] in gs;
    var front := gs[..|gs| - 1];
    forall g | g in front
      ensures g != [] && "" !in g
    {
      assert g in gs;
    }
  }

  // The groups can be told from what is written.
  lemma {:induction false} JoinInjective(gs: seq<seq<string>>, hs: seq<seq<string>>)
    requires AreGroups(gs) && AreGroups(hs) && Join(gs) == Join(hs)
    ensures gs == hs
    decreases |gs|
  {
    hide AreGroups;
    JoinEmpty(gs);
    JoinEmpty(hs);
    if gs != [] && hs != [] {
      FrontGroups(gs);
      FrontGroups(hs);
      var front, last, front', last' := gs[..|gs| - 1], gs[|gs| - 1], hs[..|hs| - 1], hs[|hs| - 1];
      assert front != [] ==> Join(gs)[|Join(front)|] == "";
      assert front' != [] ==> Join(hs)[|Join(front')|] == "";
      if front != [] && front' != [] {
        LastGroup(Join(front), last, Join(front'), last');
        JoinInjective(front, front');
      }
    }
  }

  // ----- When a block is written as before -----

  lemma {:induction false} InsertLength(key: Key, s: seq<string>, x: string)
    ensures |Insert(key, s, x)| == |s| + 1
  {
    if s != [] && !Leq(key(s[|s| - 1]), key(x)) {
      InsertLength(key, s[..|s| - 1], x);
    }
  }

  lemma {:induction false} SortLength(key: Key, s: seq<string>)
    ensures |Sort(key, s)| == |s|
  {
    hide Insert;
    if s != [] {
      SortLength(key, s[..|s| - 1]);
      InsertLength(key, Sort(key, s[..|s| - 1]), s[|s| - 1]);
    }
  }

  lemma {:induction false} DedupLength(s: seq<string>)
    ensures |Dedup(s)| <= |s|
  {
    if s != [] {
      DedupLength(s[..|s| - 1]);
    }
  }

  lemma TidyLength(key: Key, s: seq<string>)
    ensures |Tidy(key, s)| <= |s|
  {
    hide Sort, Dedup;
    SortLength(key, s);
    DedupLength(Sort(key, s));
  }

  ghost predicate NoneMoves(cpp: bool, inc: Includes, c: Class) {
    forall l :: l in inc[c] ==> ClassOf(cpp, l) == c
  }

  ghost predicate AllMove(cpp: bool, inc: Includes, c: Class) {
    forall l :: l in inc[c] ==> ClassOf(cpp, l) == 1
  }

  // Nothing moves, or what moves is the whole of the first group behind a missing group of C
  // headers.
  ghost predicate Settled(cpp: bool, inc: Includes) {
    || (NoneMoves(cpp, inc, 2) && NoneMoves(cpp, inc, 3))
    || (inc[1] == [] && if inc[2] != [] then AllMove(cpp, inc, 2) && NoneMoves(cpp, inc, 3) else AllMove(cpp, inc, 3))
  }

  // The two parts of a group of which some lines move.
  lemma SplitGroup(cpp: bool, key: Key, inc: Includes, c: Class)
    requires AllKept(cpp, inc) && (c == 2 || c == 3)
    ensures var t, m, u := Tidy(key, inc[c]), Part(cpp, key, inc, c, 1), Tidy(key, Part(cpp, key, inc, c, c));
            && (if NoneMoves(cpp, inc, c) then u == t && m == [] else |u| < |t| && m != [])
            && (AllMove(cpp, inc, c) <==> u == [])
            && (AllMove(cpp, inc, c) ==> m == t)
            && (forall l :: l in u ==> ClassOf(cpp, l) == c)
  {
    hide ClassOf, OfClass, AllKept, Tidy;
    var t, k := Tidy(key, inc[c]), Part(cpp, key, inc, c, c);
    GroupClasses(cpp, key, inc, c);
    TidyProperties(key, inc[c]);
    TidyProperties(key, k);
    TidyLength(key, k);
    OfClassMembers(cpp, t, c);
    OfClassMembers(cpp, t, 1);
    if NoneMoves(cpp, inc, c) {
      OfClassAll(cpp, t, c);
      OfClassNone(cpp, t, 1);
    } else {
      var l :| l in inc[c] && ClassOf(cpp, l) != c;
      assert l in t && l in Part(cpp, key, inc, c, 1);
    }
    if AllMove(cpp, inc, c) {
      OfClassAll(cpp, t, 1);
      OfClassNone(cpp, t, c);
    } else {
      var l :| l in inc[c] && ClassOf(cpp, l) != 1;
      assert l in t && l in k;
    }
  }

  // Three groups behind others: t as they were, u as they are now; n says that no line of a
  // group has moved, a that all have.
  lemma ThreeGroups(p: seq<seq<string>>, t1: seq<string>, t2: seq<string>, t3: seq<string>,
                    u1: seq<string>, u2: seq<string>, u3: seq<string>, n2: bool, a2: bool, n3: bool, a3: bool)
    requires (if n2 then u2 == t2 else |u2| < |t2|) && (a2 <==> u2 == [])
    requires (if n3 then u3 == t3 else |u3| < |t3|) && (a3 <==> u3 == [])
    requires u1 == [] <==> t1 == [] && n2 && n3
    requires (n2 && n3 ==> u1 == t1) && (t1 == [] && a2 && n3 ==> u1 == t2) && (t1 == [] && t2 == [] && a3 ==> u1 == t3)
    requires u2 != [] && a3 && t3 != [] ==> u2 != t3
    ensures p + Group(u1) + Group(u2) + Group(u3) == p + Group(t1) + Group(t2) + Group(t3) <==>
            (n2 && n3) || (t1 == [] && if t2 != [] then a2 && n3 else a3)
  {
    var t, u := p + Group(t1) + Group(t2) + Group(t3), p + Group(u1) + Group(u2) + Group(u3);
    assert (t3 != [] ==> t[|t| - 1] == t3) && (u3 != [] ==> u[|u| - 1] == u3) && (u3 == [] && u2 != [] ==> u[|u| - 1] == u2);
    assert (t1 != [] && t2 != [] ==> t[|p| + 1] == t2) && (u1 != [] && u2 != [] ==> u[|p| + 1] == u2);
  }

  // Behind the class of C++ headers, the groups are read back as they are.
  lemma {:induction false} SameGroup(cpp: bool, key: Key, inc: Includes, c: Class)
    requires AllKept(cpp, inc) && (c == 0 || c > 3)
    ensures Tidy(key, ReadBack(cpp, key, inc, CLASSES)[c]) == Tidy(key, inc[c])
  {
    hide ReadBack, Part, AllKept, Tidy;
    ReadBackAt(cpp, key, inc, CLASSES, c);
    PartOf(cpp, key, inc, c, c);
    TidyProperties(key, inc[c]);
  }

  lemma {:induction false} SameGroups(cpp: bool, key: Key, inc: Includes, k: nat)
    requires AllKept(cpp, inc) && 4 <= k <= CLASSES
    ensures var r := ReadBack(cpp, key, inc, CLASSES);
            Groups(key, r, k) == Groups(key, inc, k) <==> Groups(key, r, 4) == Groups(key, inc, 4)
    decreases k
  {
    hide ReadBack, AllKept, Tidy, Group;
    if k > 4 {
      SameGroups(cpp, key, inc, k - 1);
      SameGroup(cpp, key, inc, k - 1);
      var r, g := ReadBack(cpp, key, inc, CLASSES), Group(Tidy(key, inc[k - 1]));
      SameEnd(Groups(key, r, k - 1), Groups(key, inc, k - 1), g);
    }
  }

  lemma SameEnd(a: seq<seq<string>>, b: seq<seq<string>>, g: seq<seq<string>>)
    ensures a + g == b + g <==> a == b
  {
    if a + g == b + g {
      assert a == (a + g)[..|a|] && b == (b + g)[..|b|];
    }
  }

  lemma {:induction false} FourGroups(key: Key, inc: Includes)
    ensures Groups(key, inc, 4) == Group(Tidy(key, inc[0])) + Group(Tidy(key, inc[1])) + Group(Tidy(key, inc[2])) + Group(Tidy(key, inc[3]))
  {
    hide Tidy, Group;
    assert Groups(key, inc, 1) == Group(Tidy(key, inc[0]));
    assert Groups(key, inc, 2) == Groups(key, inc, 1) + Group(Tidy(key, inc[1]));
    assert Groups(key, inc, 3) == Groups(key, inc, 2) + Group(Tidy(key, inc[2]));
  }

  // What is read back as a C header, when none, all of stl or all of cc move.
  lemma {:induction false} Headers(cpp: bool, key: Key, inc: Includes)
    requires AllKept(cpp, inc)
    ensures var t1, t2, t3 := Tidy(key, inc[1]), Tidy(key, inc[2]), Tidy(key, inc[3]);
            var u1 := Tidy(key, ReadBack(cpp, key, inc, CLASSES)[1]);
            var n2, n3 := NoneMoves(cpp, inc, 2), NoneMoves(cpp, inc, 3);
            && (u1 == [] <==> t1 == [] && n2 && n3)
            && (n2 && n3 ==> u1 == t1)
            && (t1 == [] && AllMove(cpp, inc, 2) && n3 ==> u1 == t2)
            && (t1 == [] && t2 == [] && AllMove(cpp, inc, 3) ==> u1 == t3)
  {
    hide ReadBack, Part, AllKept, Tidy, NoneMoves, AllMove;
    ReadBackAt(cpp, key, inc, CLASSES, 1);
    SplitGroup(cpp, key, inc, 2);
    SplitGroup(cpp, key, inc, 3);
    TidyProperties(key, inc[1]);
    TidyProperties(key, inc[2]);
    TidyProperties(key, inc[3]);
    TidyProperties(key, ReadBack(cpp, key, inc, CLASSES)[1]);
    var t1, m2, m3 := Tidy(key, inc[1]), Part(cpp, key, inc, 2, 1), Part(cpp, key, inc, 3, 1);
    assert (m2 == [] && m3 == [] ==> t1 + m2 + m3 == t1) && (t1 == [] && m3 == [] ==> t1 + m2 + m3 == m2);
    assert t1 == [] && m2 == [] ==> t1 + m2 + m3 == m3;
  }

  // A group that stays in stl is not one that moves from cc.
  lemma NotTheSame(cpp: bool, key: Key, inc: Includes)
    requires AllKept(cpp, inc) && AllMove(cpp, inc, 3) && inc[3] != []
    ensures Tidy(key, Part(cpp, key, inc, 2, 2)) != Tidy(key, inc[3])
  {
    hide Part, AllKept, Tidy, NoneMoves;
    SplitGroup(cpp, key, inc, 2);
    TidyProperties(key, inc[3]);
    var l := inc[3][0];
    assert l in Tidy(key, inc[3]) && ClassOf(cpp, l) == 1;
  }

  lemma {:induction false} SettledGroups(cpp: bool, key: Key, inc: Includes)
    requires AllKept(cpp, inc)
    ensures Groups(key, ReadBack(cpp, key, inc, CLASSES), 4) == Groups(key, inc, 4) <==> Settled(cpp, inc)
  {
    hide ReadBack, Part, AllKept, Tidy, NoneMoves, AllMove, Groups, Group;
    var r := ReadBack(cpp, key, inc, CLASSES);
    FourGroups(key, inc);
    FourGroups(key, r);
    SameGroup(cpp, key, inc, 0);
    ReadBackAt(cpp, key, inc, CLASSES, 2);
    ReadBackAt(cpp, key, inc, CLASSES, 3);
    SplitGroup(cpp, key, inc, 2);
    SplitGroup(cpp, key, inc, 3);
    Headers(cpp, key, inc);
    TidyProperties(key, inc[1]);
    TidyProperties(key, inc[2]);
    TidyProperties(key, inc[3]);
    if AllMove(cpp, inc, 3) && inc[3] != [] {
      NotTheSame(cpp, key, inc);
    }
    ThreeGroups(Group(Tidy(key, inc[0])), Tidy(key, inc[1]), Tidy(key, inc[2]), Tidy(key, inc[3]),
                Tidy(key, r[1]), Tidy(key, r[2]), Tidy(key, r[3]),
                NoneMoves(cpp, inc, 2), AllMove(cpp, inc, 2), NoneMoves(cpp, inc, 3), AllMove(cpp, inc, 3));
  }

  // What is read back is clean as well.
  lemma {:induction false} ReadBackKept(cpp: bool, key: Key, inc: Includes)
    requires AllKept(cpp, inc)
    ensures AllKept(cpp, ReadBack(cpp, key, inc, CLASSES))
  {
    var r := ReadBack(cpp, key, inc, CLASSES);
    forall d: Class, l | l in r[d]
      ensures Kept(cpp, d, l)
    {
      ReadBackKeptAt(cpp, key, inc, d, l);
    }
  }

  lemma {:induction false} ReadBackKeptAt(cpp: bool, key: Key, inc: Includes, d: Class, l: string)
    requires AllKept(cpp, inc) && l in ReadBack(cpp, key, inc, CLASSES)[d]
    ensures Kept(cpp, d, l)
  {
    hide ReadBack, AllKept, Tidy, OfClass, Classify;
    ReadBackAt(cpp, key, inc, CLASSES, d);
    var c: Class := if l in Tidy(key, inc[d]) then d else if l in Part(cpp, key, inc, 2, 1) then 2 else 3;
    OfClassMembers(cpp, Tidy(key, inc[d]), d);
    OfClassMembers(cpp, Tidy(key, inc[c]), d);
    GroupClasses(cpp, key, inc, d);
    TidyClean(cpp, key, inc, c);
  }

  // A block is written as before exactly if it is settled.
  lemma {:induction false} SettledIff(cpp: bool, key: Key, inc: Includes)
    requires AllKept(cpp, inc)
    ensures Dump(key, ReadBack(cpp, key, inc, CLASSES), CLASSES) == Dump(key, inc, CLASSES) <==> Settled(cpp, inc)
  {
    hide Dump, Join, Groups, ReadBack, Settled, AllKept, AreGroups;
    var r := ReadBack(cpp, key, inc, CLASSES);
    ReadBackKept(cpp, key, inc);
    DumpIsJoin(cpp, key, inc, CLASSES);
    DumpIsJoin(cpp, key, r, CLASSES);
    if Join(Groups(key, r, CLASSES)) == Join(Groups(key, inc, CLASSES)) {
      JoinInjective(Groups(key, r, CLASSES), Groups(key, inc, CLASSES));
    }
    SameGroups(cpp, key, inc, CLASSES);
    SettledGroups(cpp, key, inc);
  }

  // ----- Whole files -----

  predicate IsOther(cpp: bool, line: string) {
    line != "" && Classify(cpp, line).None?
  }

  // Every block is settled where it ends.
  ghost predicate AllSettled(cpp: bool, lines: seq<string>, st: State) {
    if lines == [] then st.block ==> Settled(cpp, st.includes)
    else (st.block && IsOther(cpp, lines[0]) ==> Settled(cpp, st.includes)) && AllSettled(cpp, lines[1..], Next(cpp, lines[0], st))
  }

  // What is written for a block are its lines and blank lines, and nothing is lost.
  lemma {:induction false} DumpLines(key: Key, inc: Includes, k: nat)
    requires k <= CLASSES
    ensures forall l :: l != "" ==> (l in Dump(key, inc, k) <==> exists c: Class :: c < k && l in inc[c])
  {
    hide Tidy;
    if k > 0 {
      DumpLines(key, inc, k - 1);
      TidyProperties(key, inc[k - 1]);
      var before := Dump(key, inc, k - 1);
      forall l | l != ""
        ensures l in Dump(key, inc, k) <==> exists c: Class :: c < k && l in inc[c]
      {
        assert l in Dump(key, inc, k) <==> l in before || l in inc[k - 1];
      }
    }
  }

  lemma {:induction false} NoOthersInDump(cpp: bool, key: Key, inc: Includes)
    requires AllKept(cpp, inc)
    ensures forall l :: l in Dump(key, inc, CLASSES) ==> !IsOther(cpp, l)
  {
    hide Dump, Classify;
    DumpLines(key, inc, CLASSES);
    forall l | l in Dump(key, inc, CLASSES)
      ensures !IsOther(cpp, l)
    {
      if l != "" {
        var c: Class :| c < CLASSES && l in inc[c];
        assert Kept(cpp, c, l);
      }
    }
  }

  // The first line that is not an include shows where a block ends.
  lemma FirstOther(cpp: bool, x: seq<string>, y: seq<string>, line: string, p: seq<string>, q: seq<string>)
    requires IsOther(cpp, line) && (forall l :: l in x ==> !IsOther(cpp, l)) && forall l :: l in y ==> !IsOther(cpp, l)
    requires x + ([line] + p) == y + ([line] + q)
    ensures x == y && p == q
  {
    hide IsOther;
    var s, t := x + ([line] + p), y + ([line] + q);
    assert s[|x|] == line && t[|y|] == line;
    assert forall i :: 0 <= i < |x| ==> s[i] in x;
    assert forall i :: 0 <= i < |y| ==> t[i] in y;
    assert |x| == |y|;
    assert x == s[..|x|] && y == t[..|y|] && p == s[|x| + 1..] && q == t[|y| + 1..];
  }

  // Reading back a block and the line behind it.
  lemma {:induction false} EndOfBlock(cpp: bool, key: Key, line: string, r: seq<string>, st: State, b: nat)
    requires Proper(cpp, st) && st.block && IsOther(cpp, line)
    ensures var back := ReadBack(cpp, key, st.includes, CLASSES);
            Process(cpp, key, Out(cpp, key, line, st) + r, State(false, b, Empty())) ==
            Dump(key, back, CLASSES) + ((if st.blanks > 0 then [""] else []) + [line]) + Process(cpp, key, r, State(false, 0, Empty()))
  {
    hide Dump, Process, AllKept, Classify, ReadBack;
    var dump, back := Dump(key, st.includes, CLASSES), ReadBack(cpp, key, st.includes, CLASSES);
    if st.blanks > 0 {
      assert Out(cpp, key, line, st) + r == dump + ([""] + ([line] + r));
      ReadsBack(cpp, key, st.includes, [""] + ([line] + r), b);
      ReadBlank(cpp, key, [line] + r, State(true, 0, back));
      ReadOther(cpp, key, line, r, State(true, 1, back));
    } else {
      assert Out(cpp, key, line, st) + r == dump + ([line] + r);
      ReadsBack(cpp, key, st.includes, [line] + r, b);
      ReadOther(cpp, key, line, r, State(true, 0, back));
    }
  }

  // The end of a block is written as before exactly if the block is settled and the rest of the
  // file is written as before.
  lemma {:induction false} BlockAgain(cpp: bool, key: Key, line: string, r: seq<string>, st: State, b: nat)
    requires Proper(cpp, st) && st.block && IsOther(cpp, line)
    ensures var out := Out(cpp, key, line, st) + r;
            Process(cpp, key, out, State(false, b, Empty())) == out <==>
            Settled(cpp, st.includes) && Process(cpp, key, r, State(false, 0, Empty())) == r
  {
    hide Dump, Process, AllKept, ReadBack, Settled, Classify;
    var dump, back := Dump(key, st.includes, CLASSES), ReadBack(cpp, key, st.includes, CLASSES);
    var dump', r' := Dump(key, back, CLASSES), Process(cpp, key, r, State(false, 0, Empty()));
    var gap: seq<string> := if st.blanks > 0 then [""] else [];
    EndOfBlock(cpp, key, line, r, st, b);
    SettledIff(cpp, key, st.includes);
    ReadBackKept(cpp, key, st.includes);
    NoOthersInDump(cpp, key, st.includes);
    NoOthersInDump(cpp, key, back);
    assert dump + (gap + [line]) + r == (dump + gap) + ([line] + r);
    assert dump' + (gap + [line]) + r' == (dump' + gap) + ([line] + r');
    if (dump + gap) + ([line] + r) == (dump' + gap) + ([line] + r') {
      FirstOther(cpp, dump + gap, dump' + gap, line, r, r');
      assert dump == (dump + gap)[..|dump|] && dump' == (dump' + gap)[..|dump'|];
    }
  }

  lemma {:induction false} LastBlock(cpp: bool, key: Key, st: State, b: nat)
    requires Proper(cpp, st) && st.block
    ensures var out := Process(cpp, key, [], st); Process(cpp, key, out, State(false, b, Empty())) == out <==> Settled(cpp, st.includes)
  {
    hide Dump, Process, AllKept, ReadBack, Settled;
    var dump, back := Dump(key, st.includes, CLASSES), ReadBack(cpp, key, st.includes, CLASSES);
    ReadNone(cpp, key, st);
    ReadNone(cpp, key, State(true, 0, back));
    assert dump + [] == dump;
    ReadsBack(cpp, key, st.includes, [], b);
    SettledIff(cpp, key, st.includes);
  }

  // A line outside blocks is written as it is.
  lemma {:induction false} OutsideAgain(cpp: bool, key: Key, line: string, r: seq<string>, b: nat)
    requires line == "" || IsOther(cpp, line)
    ensures var b' := if line == "" then b + 1 else b;
            Process(cpp, key, [line] + r, State(false, b, Empty())) == [line] + r <==>
            Process(cpp, key, r, State(false, b', Empty())) == r
  {
    hide Dump, Process, Classify;
    var b' := if line == "" then b + 1 else b;
    var r' := Process(cpp, key, r, State(false, b', Empty()));
    if line == "" {
      ReadBlank(cpp, key, r, State(false, b, Empty()));
    } else {
      ReadOther(cpp, key, line, r, State(false, b, Empty()));
    }
    assert ([line] + r)[1..] == r && ([line] + r')[1..] == r';
  }

  lemma {:induction false} AgainIff(cpp: bool, key: Key, lines: seq<string>, st: State, b: nat)
    requires Proper(cpp, st)
    ensures var out := Process(cpp, key, lines, st);
            Process(cpp, key, out, State(false, b, Empty())) == out <==> AllSettled(cpp, lines, st)
    decreases |lines|
  {
    hide Dump, AllKept, Settled, Process, Classify;
    if lines == [] {
      if st.block {
        LastBlock(cpp, key, st, b);
      } else {
        ReadNone(cpp, key, st);
        ReadNone(cpp, key, State(false, b, Empty()));
      }
    } else {
      var line, rest := lines[0], lines[1..];
      var st' := Next(cpp, line, st);
      var r := Process(cpp, key, rest, st');
      NextProper(cpp, line, st);
      assert lines == [line] + rest;
      ReadOne(cpp, key, line, rest, st);
      if st.block && IsOther(cpp, line) {
        AgainIff(cpp, key, rest, st', 0);
        BlockAgain(cpp, key, line, r, st, b);
      } else if !st.block && (line == "" || IsOther(cpp, line)) {
        AgainIff(cpp, key, rest, st', if line == "" then b + 1 else b);
        OutsideAgain(cpp, key, line, r, b);
      } else {
        assert [] + r == r;
        AgainIff(cpp, key, rest, st', b);
      }
    }
  }

  // Sorting the includes of a file a second time changes nothing exactly if all its blocks are
  // settled.
  lemma {:induction false} IdempotentIff(cpp: bool, key: Key, lines: seq<string>)
    ensures var start := State(false, 0, Empty());
            var out := Process(cpp, key, lines, start);
            Process(cpp, key, out, start) == out <==> AllSettled(cpp, lines, start)
  {
    hide Process, AllSettled, Classify;
    AgainIff(cpp, key, lines, State(false, 0, Empty()), 0);
  }

  // ----- Lines that do not move -----

  lemma CleanStays(cpp: bool, line: string)
    requires Classify(cpp, line).Some? && !ChangesClass(line)
    ensures var (c, clean) := Classify(cpp, line).value; Classify(cpp, clean) == Some((c, clean))
  {
    hide Classify, ChangesClass;
    CleanAgain(cpp, line);
    ChangesClassIff(cpp, line);
  }

  lemma NextStays(cpp: bool, line: string, st: State)
    requires NoneMoves(cpp, st.includes, 2) && NoneMoves(cpp, st.includes, 3) && !ChangesClass(line)
    ensures var inc := Next(cpp, line, st).includes; NoneMoves(cpp, inc, 2) && NoneMoves(cpp, inc, 3)
  {
    hide Classify, ChangesClass;
    if line != "" && Classify(cpp, line).Some? {
      CleanStays(cpp, line);
    }
  }

  lemma {:induction false} NothingMoves(cpp: bool, lines: seq<string>, st: State)
    requires NoneMoves(cpp, st.includes, 2) && NoneMoves(cpp, st.includes, 3) && forall l :: l in lines ==> !ChangesClass(l)
    ensures AllSettled(cpp, lines, st)
    decreases |lines|
  {
    hide Classify, ChangesClass, NoneMoves, Next;
    if lines != [] {
      assert lines[0] in lines;
      NextStays(cpp, lines[0], st);
      NothingMoves(cpp, lines[1..], Next(cpp, lines[0], st));
    }
  }

  // Without includes that are read in another class once they are cleaned up, the sorting is
  // idempotent.
  lemma {:induction false} Idempotent(cpp: bool, key: Key, lines: seq<string>)
    requires forall l :: l in lines ==> !ChangesClass(l)
    ensures var start := State(false, 0, Empty());
            var out := Process(cpp, key, lines, start); Process(cpp, key, out, start) == out
  {
    hide Process, AllSettled, ChangesClass;
    NothingMoves(cpp, lines, State(false, 0, Empty()));
    IdempotentIff(cpp, key, lines);
  }

  const PLAIN := "#include <a.h>"
  const LOOSE := "#include  <foo> // <bar.h>"

  // A C header is left as it is.
  lemma PlainClass(cpp: bool)
    ensures Classify(cpp, PLAIN) == Some((1, PLAIN))
  {
    var rest := "a.h>";
    PlainTail();
    PlainName();
    FirstIs(PLAIN, 1, rest);
    assert PLAIN == Cleaned(1, rest);
    ShortStem();
  }

  lemma PlainTail()
    ensures Tail(PLAIN, "#include", false, '<') == Some("a.h>") && Match(0, PLAIN).None?
  {
    hide Name, DropSeps;
    CleanedTail(1, "a.h>", 1);
    CleanedTail(1, "a.h>", 0);
    assert PLAIN == Cleaned(1, "a.h>");
    PlainNotPython();
  }

  lemma PlainNotPython()
    ensures Name(0, "a.h>").None? && Name(0, "foo> // <bar.h>").None?
  {
    assert "Python"[0] == 'P' && "a.h>"[0] == 'a' && "foo> // <bar.h>"[0] == 'f';
  }

  lemma PlainName()
    ensures Name(1, "a.h>") == Some(3)
  {
    hide LastOf;
    assert StartsAt("a.h>", ".h>", 1) by {
      assert "a.h>"[1..4] == ".h>";
    }
    var r := LastOf("a.h>", ".h>", ".h>", 1, 4);
  }

  lemma ShortStem()
    ensures !IsCHeader("a.h>"[..3])
  {
    assert forall k :: 0 <= k < |STEMS| ==> |STEMS[k]| > 1;
    var name := "a.h>"[..3];
    assert |name[..|name| - 2]| == 1;
  }

  // A header of the standard library with two blanks in front and a C header in a comment
  // behind it is read as a C header once it is cleaned up.
  lemma LooseClass(cpp: bool)
    ensures Classify(cpp, LOOSE).Some? && Classify(cpp, LOOSE).value.0 == 2 && ChangesClass(LOOSE)
  {
    var rest := "foo> // <bar.h>";
    LooseTail();
    LooseName();
    FirstIs(LOOSE, 2, rest);
  }

  lemma TwoBlanks(keyword: string, open: char, rest: string)
    requires !IsSep(open)
    ensures var line := keyword + ("  " + ([open] + rest));
            Tail(line, keyword, true, open) == Some(rest) && Tail(line, keyword, false, open).None?
  {
    var s := "  " + ([open] + rest);
    var line := keyword + s;
    assert line[|keyword|..] == s && s[0] == ' ' && s[1..] == " " + ([open] + rest) && s[1..][1..] == [open] + rest;
    assert DropSeps(s) == DropSeps(s[1..]) == DropSeps(s[1..][1..]) == [open] + rest;
    assert ([open] + rest)[1..] == rest;
  }

  lemma LooseTail()
    ensures Match(2, LOOSE) == Some("foo> // <bar.h>") && Match(0, LOOSE).None? && Match(1, LOOSE).None?
  {
    hide Tail, Name;
    var rest := "foo> // <bar.h>";
    assert LOOSE == "#include" + ("  " + (['<'] + rest));
    TwoBlanks("#include", '<', rest);
    PlainNotPython();
    LooseName();
  }

  lemma LooseName()
    ensures Name(2, "foo> // <bar.h>") == Some(3) && Name(1, "foo> // <bar.h>").Some?
  {
    hide LastOf, WordLength;
    var rest := "foo> // <bar.h>";
    var w := WordLength(rest);
    assert rest[3] == '>' && !IsWord('>') && IsWord(rest[0]) && IsWord(rest[1]) && IsWord(rest[2]);
    assert StartsAt(rest, ".h>", 12) by {
      assert rest[12..15] == ".h>";
    }
    var r := LastOf(rest, ".h>", ".h>", 1, |rest|);
  }

  lemma {:induction false} NotSettled(cpp: bool)
    ensures !AllSettled(cpp, [PLAIN, LOOSE], State(false, 0, Empty()))
  {
    hide Classify, Settled;
    PlainClass(cpp);
    LooseClass(cpp);
    ChangesClassIff(cpp, LOOSE);
    var start := State(false, 0, Empty());
    var st := Next(cpp, PLAIN, start);
    var st' := Next(cpp, LOOSE, st);
    assert [PLAIN, LOOSE][1..] == [LOOSE] && [LOOSE][1..] == [];
    BothCollected(cpp, st'.includes, Classify(cpp, LOOSE).value.1);
    assert !AllSettled(cpp, [], st');
    assert !AllSettled(cpp, [LOOSE], st);
  }

  lemma BothCollected(cpp: bool, inc: Includes, clean: string)
    requires inc[1] != [] && clean in inc[2] && ClassOf(cpp, clean) == 1
    ensures !Settled(cpp, inc)
  {
  }

  // In general a second sorting does change what the first has written.
  lemma {:induction false} NotIdempotent(cpp: bool, key: Key)
    ensures var start := State(false, 0, Empty());
            var out := Process(cpp, key, [PLAIN, LOOSE], start); Process(cpp, key, out, start) != out
  {
    hide Process, AllSettled;
    NotSettled(cpp);
    IdempotentIff(cpp, key, [PLAIN, LOOSE]);
  }

  // ----- Nothing is lost -----

  // The lines that are not includes, in order.
  ghost function Others(cpp: bool, lines: seq<string>): seq<string> {
    if lines == [] then [] else (if IsOther(cpp, lines[0]) then [lines[0]] else []) + Others(cpp, lines[1..])
  }

  lemma {:induction false} OthersConcat(cpp: bool, a: seq<string>, b: seq<string>)
    ensures Others(cpp, a + b) == Others(cpp, a) + Others(cpp, b)
  {
    hide IsOther;
    if a == [] {
      assert a + b == b;
    } else {
      assert (a + b)[1..] == a[1..] + b;
      OthersConcat(cpp, a[1..], b);
    }
  }

  lemma {:induction false} NoOthers(cpp: bool, ls: seq<string>)
    requires forall l :: l in ls ==> !IsOther(cpp, l)
    ensures Others(cpp, ls) == []
  {
    hide IsOther;
    if ls != [] {
      assert ls[0] in ls;
      NoOthers(cpp, ls[1..]);
    }
  }

  lemma {:induction false} OthersOut(cpp: bool, key: Key, line: string, st: State)
    requires Proper(cpp, st)
    ensures Others(cpp, Out(cpp, key, line, st)) == Others(cpp, [line])
  {
    hide Dump, Classify, AllKept;
    var d := Dump(key, st.includes, CLASSES);
    NoOthersInDump(cpp, key, st.includes);
    NoOthers(cpp, d);
    NoOthers(cpp, [""]);
    if st.block && IsOther(cpp, line) {
      var gap: seq<string> := if st.blanks > 0 then [""] else [];
      OthersConcat(cpp, d, gap + [line]);
      OthersConcat(cpp, gap, [line]);
    }
  }

  // The lines that are not includes are kept, in order.
  lemma {:induction false} OthersKept(cpp: bool, key: Key, lines: seq<string>, st: State)
    requires Proper(cpp, st)
    ensures Others(cpp, Process(cpp, key, lines, st)) == Others(cpp, lines)
    decreases |lines|
  {
    hide Dump, Out, Next, AllKept, Process, IsOther;
    if lines == [] {
      ReadNone(cpp, key, st);
      NoOthersInDump(cpp, key, st.includes);
      NoOthers(cpp, Dump(key, st.includes, CLASSES));
    } else {
      var line, rest := lines[0], lines[1..];
      var st' := Next(cpp, line, st);
      assert lines == [line] + rest;
      ReadOne(cpp, key, line, rest, st);
      NextProper(cpp, line, st);
      OthersKept(cpp, key, rest, st');
      OthersConcat(cpp, Out(cpp, key, line, st), Process(cpp, key, rest, st'));
      OthersOut(cpp, key, line, st);
      OthersConcat(cpp, [line], rest);
    }
  }

  // The form in which a line is written.
  function Written(cpp: bool, line: string): string {
    var r := Classify(cpp, line);
    if r.Some? then r.value.1 else line
  }

  // The lines that are collected or still to be read.
  ghost predicate Due(cpp: bool, l: string, lines: seq<string>, st: State) {
    (exists c: Class :: l in st.includes[c]) || exists i :: 0 <= i < |lines| && lines[i] != "" && l == Written(cpp, lines[i])
  }

  lemma DueNext(cpp: bool, key: Key, l: string, lines: seq<string>, st: State)
    requires Proper(cpp, st) && lines != [] && l != ""
    ensures Due(cpp, l, lines, st) <==> l in Out(cpp, key, lines[0], st) || Due(cpp, l, lines[1..], Next(cpp, lines[0], st))
  {
    hide Dump, Classify, AllKept;
    var line, rest, st' := lines[0], lines[1..], Next(cpp, lines[0], st);
    DumpLines(key, st.includes, CLASSES);
    assert (exists i :: 0 <= i < |lines| && lines[i] != "" && l == Written(cpp, lines[i])) <==>
           (line != "" && l == Written(cpp, line)) || exists i :: 0 <= i < |rest| && rest[i] != "" && l == Written(cpp, rest[i]) by {
      assert forall i :: 0 <= i < |rest| ==> rest[i] == lines[i + 1];
      assert forall i :: 0 < i < |lines| ==> lines[i] == rest[i - 1];
    }
    if line != "" && Classify(cpp, line).Some? {
      var (c, clean) := Classify(cpp, line).value;
      assert forall d: Class :: l in st'.includes[d] <==> l in st.includes[d] || (d == c && l == clean);
    }
  }

  // A file loses no include and gains none: the lines that are written are the lines that were
  // read, cleaned up.
  lemma {:induction false} LinesKept(cpp: bool, key: Key, lines: seq<string>, st: State, l: string)
    requires Proper(cpp, st) && l != ""
    ensures l in Process(cpp, key, lines, st) <==> Due(cpp, l, lines, st)
    decreases |lines|
  {
    hide Dump, Out, Next, AllKept, Process, Classify, Due;
    if lines == [] {
      ReadNone(cpp, key, st);
      DueAtEnd(cpp, key, l, st);
    } else {
      var line, rest := lines[0], lines[1..];
      assert lines == [line] + rest;
      ReadOne(cpp, key, line, rest, st);
      NextProper(cpp, line, st);
      LinesKept(cpp, key, rest, Next(cpp, line, st), l);
      DueNext(cpp, key, l, lines, st);
    }
  }

  lemma DueAtEnd(cpp: bool, key: Key, l: string, st: State)
    requires Proper(cpp, st) && l != ""
    ensures Due(cpp, l, [], st) <==> st.block && l in Dump(key, st.includes, CLASSES)
  {
    hide Dump, Classify, AllKept;
    DumpLines(key, st.includes, CLASSES);
  }
}
