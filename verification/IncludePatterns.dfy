/**
 The nine patterns that recognise include lines, as functions on strings, and what becomes of a
 line that is cleaned up and looked at again.  Lines hold no line breaks.
 */
module IncludePatterns {
  import opened Options

  // The classes of includes, in the order in which they are tried and written.
  const CLASSES := 9

  type Class = c: nat | c < CLASSES

  // python, c, stl, cc, m5cc, swig0, swig1, swig2, swig3
  function Keyword(c: Class): string {
    if c <= 4 then "#include" else if c == 5 || c == 7 then "%import" else "%include"
  }

  // Whether several blanks may follow the keyword.
  predicate Many(c: Class) {
    c == 0 || c == 2 || c == 3
  }

  function Open(c: Class): char {
    if c == 4 || c >= 7 then '"' else '<'
  }

  function Close(c: Class): char {
    if Open(c) == '<' then '>' else '"'
  }

  predicate IsSep(c: char) {
    c == ' ' || c == '\t'
  }

  function DropSeps(s: string): string {
    if s != [] && IsSep(s[0]) then DropSeps(s[1..]) else s
  }

  // What follows the keyword, the blanks and the opening delimiter.
  function Tail(line: string, keyword: string, many: bool, open: char): Option<string> {
    if !(keyword <= line) then None
    else
      var s := line[|keyword|..];
      if s == [] || !IsSep(s[0]) then None
      else
        var t := if many then DropSeps(s) else s[1..];
        if t != [] && t[0] == open then Some(t[1..]) else None
  }

  predicate StartsAt(s: string, p: string, i: nat) {
    i + |p| <= |s| && s[i..i + |p|] == p
  }

  // The last place before k, not before from, where p or q starts.
  function LastOf(s: string, p: string, q: string, from: nat, k: nat): (r: Option<nat>)
    ensures r.Some? ==> from <= r.value < k && (StartsAt(s, p, r.value) || StartsAt(s, q, r.value))
    ensures forall i :: from <= i < k && (r.None? || r.value < i) ==> !StartsAt(s, p, i) && !StartsAt(s, q, i)
    decreases k
  {
    if k <= from then None
    else if StartsAt(s, p, k - 1) || StartsAt(s, q, k - 1) then Some(k - 1)
    else LastOf(s, p, q, from, k - 1)
  }

  // The characters 0-9, A-z and _.
  predicate IsWord(c: char) {
    '0' <= c <= '9' || 'A' <= c <= 'z'
  }

  function WordLength(s: string): (n: nat)
    ensures n <= |s| && (forall i :: 0 <= i < n ==> IsWord(s[i])) && (n < |s| ==> !IsWord(s[n]))
  {
    if s == [] || !IsWord(s[0]) then 0 else 1 + WordLength(s[1..])
  }

  // The length of the header name at the start of rest, which the closing delimiter follows.
  // Patterns with .+ or .* take the longest name they can.
  function Name(c: Class, rest: string): (n: Option<nat>)
    ensures n.Some? ==> 0 < n.value < |rest|
  {
    if c == 0 then
      if "Python" <= rest then Ends(rest, LastOf(rest, ".h>", ".h>", 6, |rest|)) else None
    else if c == 1 then Ends(rest, LastOf(rest, ".h>", ".h>", 1, |rest|))
    else if c == 2 then
      var n := WordLength(rest);
      if 0 < n < |rest| && rest[n] == '>' then Some(n) else None
    else if c == 3 then
      var n := WordLength(rest);
      if n == 0 then None
      else if StartsAt(rest, ".hh>", n) then Some(n + 3)
      else if StartsAt(rest, ".hxx>", n) || StartsAt(rest, ".hpp>", n) then Some(n + 4)
      else if StartsAt(rest, ".H>", n) then Some(n + 2)
      else None
    else if c == 4 then
      var k := LastOf(rest, ".h\"", ".hh\"", 1, |rest|);
      if k.None? then None else if StartsAt(rest, ".hh\"", k.value) then Some(k.value + 3) else Some(k.value + 2)
    else
      var close := if Open(c) == '<' then ">" else "\"";
      LastOf(rest, close, close, 1, |rest|)
  }

  // The name that ends with the .h at k.
  function Ends(rest: string, k: Option<nat>): (n: Option<nat>)
    requires k.Some? ==> StartsAt(rest, ".h>", k.value)
    ensures n.Some? ==> 0 < n.value < |rest|
  {
    if k.None? then None else Some(k.value + 2)
  }

  // The part of the line that pattern c is about, if it matches.
  function Match(c: Class, line: string): Option<string> {
    match Tail(line, Keyword(c), Many(c), Open(c))
    case None => None
    case Some(rest) => if Name(c, rest).Some? then Some(rest) else None
  }

  // The first pattern from c on that matches.
  function FirstMatch(c: nat, line: string): (r: Option<(Class, string)>)
    requires c <= CLASSES
    ensures r.Some? ==> c <= r.value.0 && Match(r.value.0, line) == Some(r.value.1)
    ensures forall d: Class :: c <= d && (r.None? || d < r.value.0) ==> Match(d, line).None?
    decreases CLASSES - c
  {
    if c == CLASSES then None
    else if Match(c, line).Some? then Some((c, Match(c, line).value))
    else FirstMatch(c + 1, line)
  }

  // C headers that have a C++ name: c in front, no .h behind.
  const STEMS: seq<string> := ["assert", "ctype", "errno", "float", "limits", "locale", "math", "setjmp", "signal",
                               "stdarg", "stddef", "stdio", "stdlib", "string", "time", "wchar", "wctype"]

  predicate IsCHeader(name: string) {
    |name| >= 2 && name[|name| - 2..] == ".h" && name[..|name| - 2] in STEMS
  }

  function Cleaned(c: Class, rest: string): string {
    Keyword(c) + (" " + ([Open(c)] + rest))
  }

  // The class of an include line and its cleaned-up form; None for other lines.
  function Classify(cpp: bool, line: string): Option<(Class, string)> {
    match FirstMatch(0, line)
    case None => None
    case Some((c, rest)) =>
      var n := Name(c, rest).value;
      if c == 1 && cpp && IsCHeader(rest[..n]) then Some((2, Cleaned(2, "c" + (rest[..n - 2] + rest[n..]))))
      else Some((c, Cleaned(c, rest)))
  }

  // ----- Looking at a cleaned-up line -----

  lemma CleanedTail(c: Class, rest: string, d: Class)
    ensures Tail(Cleaned(c, rest), Keyword(d), Many(d), Open(d)) ==
            if Keyword(c) == Keyword(d) && Open(c) == Open(d) then Some(rest) else None
  {
    var line := Cleaned(c, rest);
    var after := " " + ([Open(c)] + rest);
    if Keyword(c) == Keyword(d) {
      assert line[|Keyword(c)|..] == after;
      assert after[1..] == [Open(c)] + rest && ([Open(c)] + rest)[1..] == rest;
      assert DropSeps(after) == DropSeps([Open(c)] + rest) == [Open(c)] + rest;
    } else {
      KeywordsDiffer(c, d, after);
    }
  }

  lemma KeywordsDiffer(c: Class, d: Class, after: string)
    requires Keyword(c) != Keyword(d)
    ensures !(Keyword(d) <= Keyword(c) + after)
  {
    var line := Keyword(c) + after;
    assert line[0] == Keyword(c)[0] && line[2] == Keyword(c)[2];
    assert "#include"[0] == '#' && "%import"[0] == '%' && "%include"[0] == '%' && "%import"[2] == 'm' && "%include"[2] == 'n';
  }

  // Where one blank is accepted, several are too, with the same rest.
  lemma {:induction false} SingleIsMany(line: string, keyword: string, open: char)
    requires !IsSep(open) && Tail(line, keyword, false, open).Some?
    ensures Tail(line, keyword, true, open) == Tail(line, keyword, false, open)
  {
    var s := line[|keyword|..];
    assert DropSeps(s) == DropSeps(s[1..]) == s[1..];
  }

  // An earlier pattern that did not match the line does not match the cleaned-up line either,
  // unless it insists on a single blank and the one that matched does not.
  lemma StillNoMatch(line: string, c: Class, rest: string, d: Class)
    requires Match(c, line) == Some(rest) && Match(d, line).None? && (Many(d) || !Many(c))
    ensures Match(d, Cleaned(c, rest)).None?
  {
    hide Name, Tail;
    CleanedTail(c, rest, d);
    if Keyword(c) == Keyword(d) && Open(c) == Open(d) && Many(d) && !Many(c) {
      SingleIsMany(line, Keyword(c), Open(c));
    }
  }

  lemma CleanedMatch(line: string, c: Class, rest: string)
    requires Match(c, line) == Some(rest)
    ensures Match(c, Cleaned(c, rest)) == Some(rest)
  {
    hide Name, Tail;
    CleanedTail(c, rest, c);
  }

  // The pattern for C headers is the only one that allows no more than one blank before a
  // pattern that allows several.
  lemma {:induction false} CleanedFirst(line: string, c: Class, rest: string)
    requires FirstMatch(0, line) == Some((c, rest))
    ensures FirstMatch(0, Cleaned(c, rest)) ==
            if (c == 2 || c == 3) && Name(1, rest).Some? then Some((1, rest)) else Some((c, rest))
  {
    hide Name, Tail, FirstMatch, Match;
    var clean := Cleaned(c, rest);
    CleanedMatch(line, c, rest);
    forall d: Class | d < c && !(d == 1 && (c == 2 || c == 3))
      ensures Match(d, clean).None?
    {
      StillNoMatch(line, c, rest, d);
    }
    if c == 2 || c == 3 {
      MatchesAsC(c, rest);
      FirstIs(clean, if Name(1, rest).Some? then 1 else c, rest);
    } else {
      FirstIs(clean, c, rest);
    }
  }

  lemma MatchesAsC(c: Class, rest: string)
    requires c == 2 || c == 3
    ensures Match(1, Cleaned(c, rest)) == if Name(1, rest).Some? then Some(rest) else None
  {
    hide Name, Tail;
    CleanedTail(c, rest, 1);
  }

  lemma {:induction false} FirstIs(line: string, c: Class, rest: string)
    requires Match(c, line) == Some(rest) && forall d: Class :: d < c ==> Match(d, line).None?
    ensures FirstMatch(0, line) == Some((c, rest))
  {
    hide Match;
    var r := FirstMatch(0, line);
  }

  // ----- Classifying a cleaned-up line -----

  predicate IsLetter(c: char) {
    'a' <= c <= 'z'
  }

  lemma StemLetters(stem: string)
    requires stem in STEMS
    ensures |stem| >= 1 && forall i :: 0 <= i < |stem| ==> IsLetter(stem[i])
  {
    var k :| 0 <= k < |STEMS| && STEMS[k] == stem;
    StemLettersAt(k);
  }

  lemma StemLettersAt(k: nat)
    requires k < |STEMS|
    ensures |STEMS[k]| >= 1 && forall i :: 0 <= i < |STEMS[k]| ==> IsLetter(STEMS[k][i])
  {
  }

  lemma CharAt(s: string, p: string, i: nat, k: nat)
    requires StartsAt(s, p, i) && k < |p|
    ensures s[i + k] == p[k]
  {
    assert s[i..i + |p|][k] == s[i + k];
  }

  lemma DotH(s: string, i: nat)
    ensures StartsAt(s, ".h>", i) <==> i + 3 <= |s| && s[i] == '.' && s[i + 1] == 'h' && s[i + 2] == '>'
  {
    if StartsAt(s, ".h>", i) {
      CharAt(s, ".h>", i, 0);
      CharAt(s, ".h>", i, 1);
      CharAt(s, ".h>", i, 2);
    } else if i + 3 <= |s| {
      assert s[i..i + 3] == [s[i], s[i + 1], s[i + 2]];
    }
  }

  // A shorter name that the C pattern would extend ends before the .h that it finds.
  lemma ClosesBefore(c: Class, rest: string)
    requires (c == 2 || c == 3) && Name(c, rest).Some? && Name(1, rest).Some?
    ensures var j := Name(c, rest).value; rest[j] == '>' && j + 2 < Name(1, rest).value
  {
    hide StartsAt, LastOf, WordLength;
    var w, k := WordLength(rest), Name(1, rest).value - 2;
    DotH(rest, k);
    assert !IsWord('.');
    if c == 3 {
      if StartsAt(rest, ".hh>", w) {
        ExtensionBefore(rest, ".hh>", w, k);
      } else if StartsAt(rest, ".hxx>", w) {
        ExtensionBefore(rest, ".hxx>", w, k);
      } else if StartsAt(rest, ".hpp>", w) {
        ExtensionBefore(rest, ".hpp>", w, k);
      } else {
        ExtensionBefore(rest, ".H>", w, k);
      }
    }
  }

  lemma ExtensionBefore(rest: string, e: string, w: nat, k: nat)
    requires e in [".hh>", ".hxx>", ".hpp>", ".H>"] && StartsAt(rest, e, w)
    requires w <= k && k + 3 <= |rest| && rest[k] == '.' && rest[k + 1] == 'h' && rest[k + 2] == '>'
    ensures rest[w + |e| - 1] == '>' && w + |e| - 1 < k
  {
    hide StartsAt;
    CharAt(rest, e, w, |e| - 1);
    CharAt(rest, e, w, 1);
    CharAt(rest, e, w, 2);
    if w < k < w + |e| {
      CharAt(rest, e, w, k - w);
    }
  }

  lemma CHeaderLetters(name: string)
    requires IsCHeader(name)
    ensures forall i :: 0 <= i < |name| - 2 ==> IsLetter(name[i])
  {
    var stem := name[..|name| - 2];
    StemLetters(stem);
    assert forall i :: 0 <= i < |stem| ==> stem[i] == name[i];
  }

  lemma NotCHeader(rest: string, n: nat, j: nat)
    requires j + 2 < n <= |rest| && rest[j] == '>'
    ensures !IsCHeader(rest[..n])
  {
    hide IsCHeader;
    var name := rest[..n];
    var x := name[j];
    if IsCHeader(name) {
      CHeaderLetters(name);
    }
  }

  lemma {:induction false} PlainAgain(cpp: bool, line: string, c: Class, rest: string)
    requires FirstMatch(0, line) == Some((c, rest)) && !(c == 1 && cpp && IsCHeader(rest[..Name(1, rest).value]))
    ensures var clean := Cleaned(c, rest);
            Classify(cpp, clean) == Some((if (c == 2 || c == 3) && Name(1, rest).Some? then 1 else c, clean))
  {
    hide FirstMatch, IsCHeader;
    CleanedFirst(line, c, rest);
    if (c == 2 || c == 3) && Name(1, rest).Some? {
      ClosesBefore(c, rest);
      NotCHeader(rest, Name(1, rest).value, Name(c, rest).value);
    }
  }

  // A C header under its C++ name is a header of the standard library.
  lemma RenamedAgain(cpp: bool, stem: string, extra: string)
    requires stem in STEMS && forall k: nat :: |stem| < k ==> !DotHAt(stem + (".h>" + extra), k)
    ensures var clean := Cleaned(2, "c" + (stem + (">" + extra))); Classify(cpp, clean) == Some((2, clean))
  {
    hide *;
    StemLetters(stem);
    RenamedWord(stem, extra);
    RenamedNotC(stem, extra);
    NotPython(stem + (">" + extra));
    StandardHeader(cpp, "c" + (stem + (">" + extra)));
  }

  lemma StandardHeader(cpp: bool, rest: string)
    requires Name(0, rest).None? && Name(1, rest).None? && Name(2, rest).Some?
    ensures Classify(cpp, Cleaned(2, rest)) == Some((2, Cleaned(2, rest)))
  {
    hide Tail, Name, FirstMatch, IsCHeader;
    CleanedTail(2, rest, 0);
    CleanedTail(2, rest, 1);
    CleanedTail(2, rest, 2);
    FirstIs(Cleaned(2, rest), 2, rest);
  }

  lemma NotPython(rest: string)
    ensures Name(0, "c" + rest).None?
  {
    assert "Python"[0] == 'P';
  }

  lemma RenamedWord(stem: string, extra: string)
    requires forall i :: 0 <= i < |stem| ==> IsLetter(stem[i])
    ensures var new_ := "c" + (stem + (">" + extra)); Name(2, new_) == Some(|stem| + 1)
  {
    hide WordLength;
    var new_ := "c" + (stem + (">" + extra));
    var w := WordLength(new_);
    assert new_[|stem| + 1] == '>' && !IsWord('>');
    assert forall i :: 0 <= i <= |stem| ==> IsWord(new_[i]);
  }

  lemma RenamedNotC(stem: string, extra: string)
    requires forall i :: 0 <= i < |stem| ==> IsLetter(stem[i])
    requires forall k: nat :: |stem| < k ==> !DotHAt(stem + (".h>" + extra), k)
    ensures var new_ := "c" + (stem + (">" + extra)); Name(1, new_).None?
  {
    hide *;
    var new_ := "c" + (stem + (">" + extra));
    forall i: nat | i < |new_|
      ensures !DotHAt(new_, i)
    {
      RenamedDot(stem, extra, i);
    }
    NoLast(new_);
  }

  predicate DotHAt(s: string, i: nat) {
    i + 3 <= |s| && s[i] == '.' && s[i + 1] == 'h' && s[i + 2] == '>'
  }

  lemma {:induction false} AfterLast(s: string, k: nat)
    requires LastOf(s, ".h>", ".h>", 1, |s|) == Some(k)
    ensures forall i: nat :: k < i ==> !DotHAt(s, i)
  {
    hide LastOf, StartsAt;
    forall i: nat | k < i < |s|
      ensures !DotHAt(s, i)
    {
      DotH(s, i);
    }
  }

  lemma NoLast(s: string)
    requires forall i: nat :: i < |s| ==> !DotHAt(s, i)
    ensures Name(1, s).None?
  {
    hide LastOf, StartsAt;
    var r := LastOf(s, ".h>", ".h>", 1, |s|);
    if r.Some? {
      assert !DotHAt(s, r.value);
      DotH(s, r.value);
    }
  }

  // A .h> of the renamed line stands in the text behind the name, and so in the old line.
  lemma RenamedDot(stem: string, extra: string, i: nat)
    requires forall k :: 0 <= k < |stem| ==> IsLetter(stem[k])
    requires forall k: nat :: |stem| < k ==> !DotHAt(stem + (".h>" + extra), k)
    ensures !DotHAt("c" + (stem + (">" + extra)), i)
  {
    var rest, new_ := stem + (".h>" + extra), "c" + (stem + (">" + extra));
    assert new_[0] == 'c' && new_[|stem| + 1] == '>' && forall k :: 1 <= k <= |stem| ==> new_[k] == stem[k - 1];
    if i > |stem| + 1 {
      assert forall k :: |stem| + 1 < k < |new_| ==> new_[k] == rest[k + 1];
      assert !DotHAt(rest, i + 1);
    }
  }

  // A cleaned-up line is an include again and is left as it is.  Its class can only change
  // from stl or cc to c.
  lemma CleanAgain(cpp: bool, line: string)
    requires Classify(cpp, line).Some?
    ensures var (c, clean) := Classify(cpp, line).value;
            clean != "" && (Classify(cpp, clean) == Some((c, clean)) || ((c == 2 || c == 3) && Classify(cpp, clean) == Some((1, clean))))
  {
    hide Name, FirstMatch, Tail;
    var (c, rest) := FirstMatch(0, line).value;
    if c == 1 && cpp && IsCHeader(rest[..Name(1, rest).value]) {
      hide Classify;
      Renamed(cpp, line, rest);
    } else {
      PlainAgain(cpp, line, c, rest);
    }
  }

  lemma {:induction false} Renamed(cpp: bool, line: string, rest: string)
    requires cpp && FirstMatch(0, line) == Some((1, rest)) && Name(1, rest).Some? && IsCHeader(rest[..Name(1, rest).value])
    ensures Classify(cpp, line).Some?
    ensures var (c, clean) := Classify(cpp, line).value; c == 2 && clean != "" && Classify(cpp, clean) == Some((2, clean))
  {
    hide FirstMatch, LastOf, StartsAt, IsCHeader;
    var n := Name(1, rest).value;
    var stem, extra := rest[..n - 2], rest[n + 1..];
    DotH(rest, n - 2);
    RestParts(rest, n);
    HeaderStem(rest, n);
    AfterLast(rest, n - 2);
    RenamedAgain(cpp, stem, extra);
  }

  lemma RestParts(rest: string, n: nat)
    requires 2 <= n < |rest| && rest[n - 2] == '.' && rest[n - 1] == 'h' && rest[n] == '>'
    ensures rest == rest[..n - 2] + (".h>" + rest[n + 1..]) && rest[n..] == ">" + rest[n + 1..]
    ensures "c" + (rest[..n - 2] + rest[n..]) == "c" + (rest[..n - 2] + (">" + rest[n + 1..]))
  {
    assert rest[n..] == ">" + rest[n + 1..];
    assert rest[n - 2..] == ".h>" + rest[n + 1..];
  }

  lemma HeaderStem(rest: string, n: nat)
    requires n <= |rest| && IsCHeader(rest[..n])
    ensures n >= 2 && rest[..n - 2] in STEMS
  {
    assert rest[..n][..n - 2] == rest[..n - 2];
  }

  // Exactly these lines change their class: those of the standard library or of C++ headers
  // in whose remaining text the C pattern finds a longer name.
  predicate ChangesClass(line: string) {
    var m := FirstMatch(0, line);
    m.Some? && (m.value.0 == 2 || m.value.0 == 3) && Name(1, m.value.1).Some?
  }

  lemma ChangesClassIff(cpp: bool, line: string)
    requires Classify(cpp, line).Some?
    ensures var (c, clean) := Classify(cpp, line).value;
            ChangesClass(line) <==> (c == 2 || c == 3) && Classify(cpp, clean) == Some((1, clean))
    ensures ChangesClass(line) ==> Tail(line, "#include", false, '<').None?
  {
    hide FirstMatch;
    var (c, rest) := FirstMatch(0, line).value;
    if c == 1 && cpp && IsCHeader(rest[..Name(1, rest).value]) {
      Renamed(cpp, line, rest);
    } else {
      PlainAgain(cpp, line, c, rest);
    }
    if ChangesClass(line) {
      SeveralBlanks(line, c, rest);
    }
  }

  lemma {:induction false} SeveralBlanks(line: string, c: Class, rest: string)
    requires FirstMatch(0, line) == Some((c, rest)) && (c == 2 || c == 3) && Name(1, rest).Some?
    ensures Tail(line, "#include", false, '<').None?
  {
    hide FirstMatch, Tail, Name;
    assert Match(1, line).None?;
    if Tail(line, "#include", false, '<').Some? {
      SingleIsMany(line, "#include", '<');
    }
  }
}
