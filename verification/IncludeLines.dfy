/**
 The patterns for include lines said declaratively, as the regular expressions have it, and what
 the clean-up makes of every line.
 */
module IncludeLines {
  import opened Options
  import opened IncludePatterns

  // ----- The regular expressions -----

  predicate HasSuffix(s: string, e: string) {
    |e| <= |s| && s[|s| - |e|..] == e
  }

  predicate AllWord(s: string) {
    |s| > 0 && forall i :: 0 <= i < |s| ==> IsWord(s[i])
  }

  const CPP_ENDINGS: seq<string> := [".hh", ".hxx", ".hpp", ".H"]

  // A word and an ending.
  predicate WordWith(name: string, e: string) {
    HasSuffix(name, e) && AllWord(name[..|name| - |e|])
  }

  // The header names of a class: Python.*\.h, .+\.h, [0-9A-z_]+, [0-9A-z_]+\.(hh|hxx|hpp|H),
  // .+\.h{1,2}, and .+ for the others.
  predicate InLang(c: Class, name: string) {
    if c == 0 then "Python" <= name && |name| >= 8 && HasSuffix(name, ".h")
    else if c == 1 then |name| > 2 && HasSuffix(name, ".h")
    else if c == 2 then AllWord(name)
    else if c == 3 then exists e <- CPP_ENDINGS :: WordWith(name, e)
    else if c == 4 then (|name| > 2 && HasSuffix(name, ".h")) || (|name| > 3 && HasSuffix(name, ".hh"))
    else |name| > 0
  }

  predicate IsBlanks(blanks: string, many: bool) {
    |blanks| > 0 && (many || |blanks| == 1) && forall i :: 0 <= i < |blanks| ==> IsSep(blanks[i])
  }

  // Keyword, blanks, delimited header name, and the rest of the line.
  ghost predicate Reads(c: Class, line: string, blanks: string, name: string, extra: string) {
    IsBlanks(blanks, Many(c)) && InLang(c, name) &&
    line == Keyword(c) + (blanks + ([Open(c)] + (name + ([Close(c)] + extra))))
  }

  ghost predicate Matches(c: Class, line: string) {
    exists blanks, name, extra :: Reads(c, line, blanks, name, extra)
  }

  // ----- Keyword, blanks and delimiter -----

  lemma {:induction false} DropBlanks(s: string, blanks: string, t: string)
    requires s == blanks + t && (forall i :: 0 <= i < |blanks| ==> IsSep(blanks[i])) && (t == [] || !IsSep(t[0]))
    ensures DropSeps(s) == t
  {
    if blanks == [] {
      assert s == t;
    } else {
      assert s[0] == blanks[0] && s[1..] == blanks[1..] + t;
      DropBlanks(s[1..], blanks[1..], t);
    }
  }

  lemma {:induction false} Dropped(s: string) returns (blanks: string)
    ensures s == blanks + DropSeps(s) && forall i :: 0 <= i < |blanks| ==> IsSep(blanks[i])
    ensures s != [] && IsSep(s[0]) ==> blanks != []
  {
    blanks := [];
    if s != [] && IsSep(s[0]) {
      var rest := Dropped(s[1..]);
      blanks := [s[0]] + rest;
    }
  }

  lemma TailOf(line: string, keyword: string, many: bool, open: char, blanks: string, t: string)
    requires !IsSep(open) && IsBlanks(blanks, many) && line == keyword + (blanks + ([open] + t))
    ensures Tail(line, keyword, many, open) == Some(t)
  {
    var s := line[|keyword|..];
    assert s == blanks + ([open] + t) && s[0] == blanks[0];
    if many {
      DropBlanks(s, blanks, [open] + t);
    } else {
      assert s[1..] == [open] + t;
    }
    assert ([open] + t)[1..] == t;
  }

  lemma TailIs(line: string, keyword: string, many: bool, open: char) returns (blanks: string)
    requires Tail(line, keyword, many, open).Some?
    ensures IsBlanks(blanks, many) && line == keyword + (blanks + ([open] + Tail(line, keyword, many, open).value))
  {
    var s := line[|keyword|..];
    assert line == keyword + s;
    var t := if many then DropSeps(s) else s[1..];
    assert t == [open] + t[1..];
    if many {
      blanks := Dropped(s);
    } else {
      blanks := [s[0]];
    }
    assert s == blanks + t;
  }

  // ----- Names -----

  // n is the length of the longest name of class c that the delimiter follows.
  ghost predicate IsLongest(c: Class, rest: string, n: nat) {
    Delimited(c, rest, n) && forall m: nat :: Delimited(c, rest, m) ==> m <= n
  }

  predicate Delimited(c: Class, rest: string, m: nat) {
    m < |rest| && rest[m] == Close(c) && InLang(c, rest[..m])
  }

  // Such a name exists exactly if the pattern finds one, and it finds the longest.
  ghost predicate NameRight(c: Class, rest: string) {
    match Name(c, rest)
    case None => forall m: nat :: !Delimited(c, rest, m)
    case Some(n) => IsLongest(c, rest, n)
  }

  // A suffix of a name, seen together with the delimiter.
  lemma SuffixAt(rest: string, m: nat, e: string, d: char)
    requires m < |rest|
    ensures HasSuffix(rest[..m], e) && rest[m] == d <==> |e| <= m && StartsAt(rest, e + [d], m - |e|)
  {
    if |e| <= m {
      assert rest[..m][m - |e|..] == rest[m - |e|..m];
      var whole := rest[m - |e|..m + 1];
      assert whole[..|e|] == rest[m - |e|..m] && whole[|e|] == rest[m];
      assert whole == rest[m - |e|..m] + [rest[m]];
      if whole == e + [d] {
        assert whole[..|e|] == e;
      }
    }
  }

  lemma {:induction false} DotHName(c: Class, rest: string)
    requires c == 0 || c == 1
    ensures NameRight(c, rest)
  {
    hide LastOf, HasSuffix, StartsAt;
    var from := if c == 0 then 6 else 1;
    assert ".h" + ['>'] == ".h>";
    forall m: nat
      ensures Delimited(c, rest, m) <==>
              from + 2 <= m < |rest| && StartsAt(rest, ".h>", m - 2) && (c == 0 ==> "Python" <= rest)
    {
      if m < |rest| {
        SuffixAt(rest, m, ".h", '>');
        assert m >= 8 ==> ("Python" <= rest[..m] <==> "Python" <= rest);
      }
    }
  }

  lemma WordName(rest: string)
    ensures NameRight(2, rest)
  {
    var w := WordLength(rest);
    assert !IsWord('>');
    forall m: nat
      ensures Delimited(2, rest, m) <==> m == w && 0 < w < |rest| && rest[w] == '>'
    {
      if m < |rest| {
        assert forall i :: 0 <= i < m ==> rest[..m][i] == rest[i];
      }
    }
  }

  // A word with an ending that starts with a dot: the word is all that WordLength finds.
  lemma WordEnding(rest: string, m: nat, e: string)
    requires m < |rest| && e in CPP_ENDINGS
    ensures WordWith(rest[..m], e) && rest[m] == '>' <==>
            var w := WordLength(rest); w > 0 && m == w + |e| && StartsAt(rest, e + ">", w)
  {
    hide WordLength, StartsAt, HasSuffix;
    SuffixAt(rest, m, e, '>');
    var w := WordLength(rest);
    assert !IsWord('.') && e[0] == '.';
    if |e| <= m {
      var stem := rest[..m][..m - |e|];
      assert forall i :: 0 <= i < m - |e| ==> stem[i] == rest[i];
      if StartsAt(rest, e + ">", m - |e|) {
        CharAt(rest, e + ">", m - |e|, 0);
      }
    }
  }

  lemma EndingName(rest: string)
    ensures NameRight(3, rest)
  {
    hide WordLength, StartsAt, HasSuffix, WordWith;
    var w := WordLength(rest);
    assert ".hh" + ">" == ".hh>" && ".hxx" + ">" == ".hxx>" && ".hpp" + ">" == ".hpp>" && ".H" + ">" == ".H>";
    forall m: nat
      ensures Delimited(3, rest, m) <==>
              w > 0 && m < |rest| && exists e <- CPP_ENDINGS :: m == w + |e| && StartsAt(rest, e + ">", w)
    {
      if m < |rest| {
        forall e | e in CPP_ENDINGS
          ensures WordWith(rest[..m], e) && rest[m] == '>' <==> w > 0 && m == w + |e| && StartsAt(rest, e + ">", w)
        {
          WordEnding(rest, m, e);
        }
      }
    }
    EndingOnce(rest, w);
  }

  // No two endings start at one place.
  lemma EndingOnce(rest: string, w: nat)
    ensures forall e, f :: e in CPP_ENDINGS && f in CPP_ENDINGS && StartsAt(rest, e + ">", w) && StartsAt(rest, f + ">", w) ==> e == f
  {
    hide StartsAt;
    forall e, f | e in CPP_ENDINGS && f in CPP_ENDINGS && StartsAt(rest, e + ">", w) && StartsAt(rest, f + ">", w)
      ensures e == f
    {
      CharAt(rest, e + ">", w, 1);
      CharAt(rest, f + ">", w, 1);
      CharAt(rest, e + ">", w, 2);
      CharAt(rest, f + ">", w, 2);
    }
  }

  lemma QuotedName(rest: string)
    ensures NameRight(4, rest)
  {
    hide LastOf, HasSuffix, StartsAt;
    assert ".h" + ['"'] == ".h\"" && ".hh" + ['"'] == ".hh\"";
    forall m: nat
      ensures Delimited(4, rest, m) <==>
              m < |rest| && ((m > 2 && StartsAt(rest, ".h\"", m - 2)) || (m > 3 && StartsAt(rest, ".hh\"", m - 3)))
    {
      if m < |rest| {
        SuffixAt(rest, m, ".h", '"');
        SuffixAt(rest, m, ".hh", '"');
      }
    }
    var k := LastOf(rest, ".h\"", ".hh\"", 1, |rest|);
    if k.Some? {
      QuotedEnds(rest, k.value);
      forall m: nat | Delimited(4, rest, m)
        ensures m <= Name(4, rest).value
      {
        var j := if m > 2 && StartsAt(rest, ".h\"", m - 2) then m - 2 else m - 3;
        QuotedEnds(rest, j);
      }
    } else {
      forall m: nat
        ensures !Delimited(4, rest, m)
      {
        if m > 3 { assert 1 <= m - 3; }
      }
    }
  }

  lemma QuotedEnds(rest: string, j: nat)
    ensures StartsAt(rest, ".h\"", j) ==> j + 3 <= |rest| && rest[j] == '.' && rest[j + 1] == 'h' && rest[j + 2] == '"'
    ensures StartsAt(rest, ".hh\"", j) ==> j + 4 <= |rest| && rest[j] == '.' && rest[j + 1] == 'h' && rest[j + 2] == 'h' && rest[j + 3] == '"'
  {
    if StartsAt(rest, ".h\"", j) {
      CharAt(rest, ".h\"", j, 0);
      CharAt(rest, ".h\"", j, 1);
      CharAt(rest, ".h\"", j, 2);
    }
    if StartsAt(rest, ".hh\"", j) {
      CharAt(rest, ".hh\"", j, 0);
      CharAt(rest, ".hh\"", j, 1);
      CharAt(rest, ".hh\"", j, 2);
      CharAt(rest, ".hh\"", j, 3);
    }
  }

  lemma AnyName(c: Class, rest: string)
    requires c >= 5
    ensures NameRight(c, rest)
  {
    hide LastOf;
    var close := if Open(c) == '<' then ">" else "\"";
    assert close == [Close(c)];
    forall m: nat
      ensures Delimited(c, rest, m) <==> 0 < m < |rest| && StartsAt(rest, close, m)
    {
      if m < |rest| {
        assert rest[m..m + 1] == [rest[m]];
      }
    }
  }

  lemma NameIsRight(c: Class, rest: string)
    ensures NameRight(c, rest)
  {
    hide NameRight;
    if c <= 1 {
      DotHName(c, rest);
    } else if c == 2 {
      WordName(rest);
    } else if c == 3 {
      EndingName(rest);
    } else if c == 4 {
      QuotedName(rest);
    } else {
      AnyName(c, rest);
    }
  }

  // ----- Lines -----

  // What follows the opening delimiter in a line that a pattern reads.
  lemma ReadsTail(c: Class, line: string, blanks: string, name: string, extra: string)
    requires Reads(c, line, blanks, name, extra)
    ensures var rest := name + ([Close(c)] + extra);
            Tail(line, Keyword(c), Many(c), Open(c)) == Some(rest) && Delimited(c, rest, |name|) &&
            rest[..|name|] == name && rest[|name| + 1..] == extra
  {
    hide InLang, Tail;
    var rest := name + ([Close(c)] + extra);
    TailOf(line, Keyword(c), Many(c), Open(c), blanks, rest);
    assert rest[..|name|] == name && rest[|name| + 1..] == extra;
  }

  lemma DelimitedReads(c: Class, line: string, rest: string, m: nat) returns (blanks: string)
    requires Tail(line, Keyword(c), Many(c), Open(c)) == Some(rest) && Delimited(c, rest, m)
    ensures Reads(c, line, blanks, rest[..m], rest[m + 1..])
  {
    hide InLang, Tail;
    blanks := TailIs(line, Keyword(c), Many(c), Open(c));
    assert rest == rest[..m] + ([Close(c)] + rest[m + 1..]);
  }

  // A pattern function matches exactly the lines that the regular expression reads.
  lemma MatchIff(c: Class, line: string)
    ensures Match(c, line).Some? <==> Matches(c, line)
  {
    hide InLang, Tail, Name, Reads, Delimited;
    var t := Tail(line, Keyword(c), Many(c), Open(c));
    if t.Some? {
      NameIsRight(c, t.value);
      if Name(c, t.value).Some? {
        var blanks := DelimitedReads(c, line, t.value, Name(c, t.value).value);
      }
    }
    if Matches(c, line) {
      var blanks, name, extra :| Reads(c, line, blanks, name, extra);
      ReadsTail(c, line, blanks, name, extra);
    }
  }

  // A line is an include exactly if some pattern reads it.
  lemma ClassifiedIff(cpp: bool, line: string)
    ensures Classify(cpp, line).Some? <==> exists c: Class :: Matches(c, line)
  {
    hide Match, Matches, FirstMatch;
    forall c: Class
      ensures Match(c, line).Some? <==> Matches(c, line)
    {
      MatchIff(c, line);
    }
    var m := FirstMatch(0, line);
  }

  // C++ names of C headers: the table of the source.
  predicate CName(name: string, cppName: string) {
    exists stem <- STEMS :: name == stem + ".h" && cppName == "c" + stem
  }

  lemma CNameOnce(name: string)
    ensures IsCHeader(name) ==> CName(name, "c" + name[..|name| - 2])
    ensures forall cppName :: CName(name, cppName) ==> IsCHeader(name) && cppName == "c" + name[..|name| - 2]
  {
    if IsCHeader(name) {
      var stem := name[..|name| - 2];
      assert name == stem + ".h";
    }
    forall cppName | CName(name, cppName)
      ensures IsCHeader(name) && cppName == "c" + name[..|name| - 2]
    {
      var stem :| stem in STEMS && name == stem + ".h" && cppName == "c" + stem;
      assert name[|name| - 2..] == ".h" && name[..|name| - 2] == stem;
    }
  }

  // Of the patterns that read a line the first counts, with the longest name it can read.  The line
  // is written with one blank and otherwise as it was, but in a C++ file a C header that has
  // a C++ name gets that name and the class of the standard library.
  lemma WrittenAs(cpp: bool, line: string, c: Class, blanks: string, name: string, extra: string)
    requires Reads(c, line, blanks, name, extra)
    requires forall d: Class :: d < c ==> !Matches(d, line)
    requires forall b, n, x :: Reads(c, line, b, n, x) ==> |n| <= |name|
    ensures forall cppName :: c == 1 && cpp && CName(name, cppName) ==>
              Classify(cpp, line) == Some((2, "#include <" + cppName + ">" + extra))
    ensures !(c == 1 && cpp && exists cppName :: CName(name, cppName)) ==>
              Classify(cpp, line) == Some((c, Keyword(c) + " " + [Open(c)] + name + [Close(c)] + extra))
  {
    hide InLang, Tail, Name, Match, FirstMatch, Delimited, IsCHeader, Reads, Matches, CName;
    ReadsTail(c, line, blanks, name, extra);
    var rest := name + ([Close(c)] + extra);
    LongestFound(c, line, rest, |name|);
    forall d: Class | d < c
      ensures Match(d, line).None?
    {
      MatchIff(d, line);
    }
    FirstIs(line, c, rest);
    CNameOnce(name);
    WrittenForms(c, name, extra);
  }

  lemma LongestFound(c: Class, line: string, rest: string, n: nat)
    requires Tail(line, Keyword(c), Many(c), Open(c)) == Some(rest) && Delimited(c, rest, n)
    requires forall b, m, x :: Reads(c, line, b, m, x) ==> |m| <= n
    ensures Match(c, line) == Some(rest) && Name(c, rest) == Some(n)
  {
    hide InLang, Tail, Name, Delimited, Reads;
    NameIsRight(c, rest);
    var k := Name(c, rest).value;
    var blanks := DelimitedReads(c, line, rest, k);
  }

  // Every include line is read by some pattern first, with a longest name.
  lemma FirstAndLongest(line: string) returns (c: Class, blanks: string, name: string, extra: string)
    requires exists d: Class :: Matches(d, line)
    ensures Reads(c, line, blanks, name, extra) && (forall d: Class :: d < c ==> !Matches(d, line))
    ensures forall b, n, x :: Reads(c, line, b, n, x) ==> |n| <= |name|
  {
    hide InLang, Tail, Name, FirstMatch, Delimited, Reads, Matches;
    forall d: Class
      ensures Match(d, line).Some? <==> Matches(d, line)
    {
      MatchIff(d, line);
    }
    var rest;
    c, rest := FirstMatch(0, line).value.0, FirstMatch(0, line).value.1;
    NameIsRight(c, rest);
    var k := Name(c, rest).value;
    name, extra := rest[..k], rest[k + 1..];
    blanks := DelimitedReads(c, line, rest, k);
    forall b, n, x | Reads(c, line, b, n, x)
      ensures |n| <= |name|
    {
      ReadsTail(c, line, b, n, x);
    }
  }

  lemma WrittenForms(c: Class, name: string, extra: string)
    ensures Cleaned(c, name + ([Close(c)] + extra)) == Keyword(c) + " " + [Open(c)] + name + [Close(c)] + extra
    ensures c == 1 && |name| >= 2 ==>
            var rest := name + ([Close(c)] + extra);
            Cleaned(2, "c" + (rest[..|name| - 2] + rest[|name|..])) == "#include <" + ("c" + name[..|name| - 2]) + ">" + extra
  {
    if c == 1 && |name| >= 2 {
      var rest := name + ([Close(c)] + extra);
      assert rest[..|name| - 2] == name[..|name| - 2] && rest[|name|..] == ">" + extra;
      assert "#include" + " " + ['<'] == "#include <";
    }
  }
}
