/**
 The key that the includes of a class are sorted by: the header's path, with a blank in front of
 every directory, so that directories come before files.
 */
module IncludeKeys {
  import opened Options
  import opened IncludePatterns
  import opened Splitting
  import opened SortIncludes

  // ----- The text in delimiters -----

  predicate Opens(c: char) {
    c == '<' || c == '"'
  }

  predicate Closes(c: char) {
    c == '>' || c == '"'
  }

  // The last place of a character of a kind.
  function Last(s: string, kind: char -> bool): (r: Option<nat>)
    ensures r.Some? ==> r.value < |s| && kind(s[r.value])
    ensures forall i :: 0 <= i < |s| && (r.None? || r.value < i) ==> !kind(s[i])
  {
    if s == [] then None
    else if kind(s[|s| - 1]) then Some(|s| - 1)
    else Last(s[..|s| - 1], kind)
  }

  // The opening and closing delimiter of the text: the last closing one, and the last opening one
  // before it.
  function Delimiters(s: string): (r: Option<(nat, nat)>)
    ensures r.Some? ==> var (p, q) := r.value;
            && p < q < |s| && Opens(s[p]) && Closes(s[q])
            && (forall i :: p < i < q ==> !Opens(s[i]))
            && (forall i :: q < i < |s| ==> !Closes(s[i]))
    ensures r.None? ==> forall i, j :: 0 <= i < j < |s| && Opens(s[i]) ==> !Closes(s[j])
  {
    match Last(s, Closes)
    case None => None
    case Some(q) =>
      match Last(s[..q], Opens)
      case None =>
        assert forall i :: 0 <= i < q ==> s[i] == s[..q][i];
        None
      case Some(p) =>
        assert forall i :: 0 <= i < q ==> s[i] == s[..q][i];
        Some((p, q))
  }

  predicate IsKeyword(s: string) {
    s == "#include" || s == "%include" || s == "#import" || s == "%import"
  }

  function KeywordLength(line: string): (n: Option<nat>)
    ensures n.Some? ==> n.value <= |line|
  {
    if line == [] || (line[0] != '#' && line[0] != '%') then None
    else if "include" <= line[1..] then Some(8)
    else if "import" <= line[1..] then Some(7)
    else None
  }

  // Where the text between the delimiters starts and ends.
  function TextSpan(line: string): (r: Option<(nat, nat)>)
    ensures r.Some? ==> r.value.0 <= r.value.1 <= |line|
  {
    match KeywordLength(line)
    case None => None
    case Some(n) =>
      match Delimiters(line[n..])
      case None => None
      case Some((p, q)) => Some((n + p + 1, n + q))
  }

  function IncludeText(line: string): Option<string> {
    match TextSpan(line)
    case None => None
    case Some(span) => Some(line[span.0..span.1])
  }

  // How the pattern can read a line: skipped characters, then a text in delimiters.
  ghost predicate Reads(tail: string, skipped: string, open: char, text: string, close: char, rest: string) {
    Opens(open) && Closes(close) && tail == skipped + ([open] + (text + ([close] + rest)))
  }

  lemma KeywordOf(keyword: string, tail: string)
    requires IsKeyword(keyword)
    ensures KeywordLength(keyword + tail) == Some(|keyword|)
  {
    var line := keyword + tail;
    assert line[1..] == keyword[1..] + tail;
    if keyword == "#include" || keyword == "%include" {
      assert keyword[1..] == "include";
    } else {
      assert keyword[1..] == "import";
      assert line[1..][1] == 'm';
    }
  }

  lemma KeywordIs(line: string)
    requires KeywordLength(line).Some?
    ensures IsKeyword(line[..KeywordLength(line).value])
  {
    var n := KeywordLength(line).value;
    assert line[..n] == [line[0]] + line[1..n];
    if "include" <= line[1..] {
      assert line[1..n] == line[1..][..7] == "include";
      assert line[..n] == "#include" || line[..n] == "%include";
    } else {
      assert line[1..n] == line[1..][..6] == "import";
      assert line[..n] == "#import" || line[..n] == "%import";
    }
  }

  lemma ReadsAt(tail: string, skipped: string, open: char, text: string, close: char, rest: string)
    requires Reads(tail, skipped, open, text, close, rest)
    ensures var p, q := |skipped|, |skipped| + 1 + |text|;
            q < |tail| && Opens(tail[p]) && Closes(tail[q]) && tail[p + 1..q] == text
  {
  }

  lemma ReadsBetween(tail: string, p: nat, q: nat)
    requires p < q < |tail| && Opens(tail[p]) && Closes(tail[q])
    ensures Reads(tail, tail[..p], tail[p], tail[p + 1..q], tail[q], tail[q + 1..])
  {
  }

  // The pattern reads as much as it can before the opening delimiter, then as much as it can
  // inside, and that is the text found;
  lemma TextFound(keyword: string, tail: string, skipped: string, open: char, text: string, close: char, rest: string)
    requires IsKeyword(keyword) && Reads(tail, skipped, open, text, close, rest)
    requires forall s, o, t, c, r :: Reads(tail, s, o, t, c, r) ==>
               |s| < |skipped| || (|s| == |skipped| && |t| <= |text|)
    ensures IncludeText(keyword + tail) == Some(text)
  {
    hide KeywordLength, IsKeyword, Delimiters, Reads;
    var line := keyword + tail;
    KeywordOf(keyword, tail);
    assert line[|keyword|..] == tail;
    ReadsAt(tail, skipped, open, text, close, rest);
    var (p, q) := Delimiters(tail).value;
    ReadsBetween(tail, p, q);
    assert p == |skipped|;
    assert q == p + 1 + |text|;
    assert line[|keyword| + p + 1..|keyword| + q] == tail[p + 1..q];
  }

  // nothing is found iff the pattern cannot read the line.
  ghost predicate Readable(tail: string) {
    exists s, o, t, c, r :: Reads(tail, s, o, t, c, r)
  }

  lemma ReadableIff(tail: string)
    ensures Readable(tail) <==> Delimiters(tail).Some?
  {
    hide Delimiters, Reads;
    if Delimiters(tail).Some? {
      var (p, q) := Delimiters(tail).value;
      ReadsBetween(tail, p, q);
    }
    if s, o, t, c, r :| Reads(tail, s, o, t, c, r) {
      ReadsAt(tail, s, o, t, c, r);
    }
  }

  lemma TextNone(line: string)
    ensures IncludeText(line).Some? <==> exists keyword, tail :: line == keyword + tail && IsKeyword(keyword) && Readable(tail)
  {
    hide KeywordLength, IsKeyword, Delimiters, Readable;
    if IncludeText(line).Some? {
      KeywordIs(line);
      var n := KeywordLength(line).value;
      var keyword, tail := line[..n], line[n..];
      assert line == keyword + tail;
      ReadableIff(tail);
    }
    if keyword, tail :| line == keyword + tail && IsKeyword(keyword) && Readable(tail) {
      KeywordOf(keyword, tail);
      assert line[|keyword|..] == tail;
      ReadableIff(tail);
    }
  }

  ghost predicate NoOpen(s: string) {
    forall i :: 0 <= i < |s| ==> !Opens(s[i])
  }

  ghost predicate NoClose(s: string) {
    forall i :: 0 <= i < |s| ==> !Closes(s[i])
  }

  // What follows the keyword of a cleaned-up line.
  function CleanTail(c: Class, name: string, extra: string): string {
    " " + ([Open(c)] + (name + ([Close(c)] + extra)))
  }

  lemma CleanIs(c: Class, name: string, extra: string)
    ensures Keyword(c) + CleanTail(c, name, extra) == Keyword(c) + " " + [Open(c)] + name + [Close(c)] + extra
  {
    hide Keyword;
    var d := [Close(c)] + extra;
    assert name + d == name + [Close(c)] + extra;
  }

  lemma NameDelimited(c: Class, name: string, extra: string)
    ensures var tail := CleanTail(c, name, extra); var k := 2 + |name|;
            && k < |tail| && Opens(tail[1]) && Closes(tail[k])
            && Delimiters(tail).Some? && (Delimiters(tail) == Some((1, k)) <==> NoClose(extra) && NoOpen(name))
  {
    hide Delimiters;
    var tail, k := CleanTail(c, name, extra), 2 + |name|;
    assert forall i :: 0 <= i < |extra| ==> extra[i] == tail[k + 1 + i];
    assert forall i :: 0 <= i < |name| ==> name[i] == tail[2 + i];
    assert Opens(tail[1]) && Closes(tail[k]);
    var (p, q) := Delimiters(tail).value;
    assert q >= k;
    if q > k {
      assert tail[q] == extra[q - k - 1];
    } else {
      assert p >= 1;
      assert p > 1 ==> tail[p] == name[p - 2];
    }
  }

  // In a cleaned-up line a text is always found.  It is the header's name iff nothing behind the
  // name closes and nothing in it opens; otherwise a comment has a say in the order.
  lemma NameReadIff(c: Class, name: string, extra: string)
    ensures var line := Keyword(c) + CleanTail(c, name, extra); var start := |Keyword(c)| + 2;
            && TextSpan(line).Some?
            && (TextSpan(line) == Some((start, start + |name|)) <==> NoClose(extra) && NoOpen(name))
  {
    var tail := CleanTail(c, name, extra);
    var line := Keyword(c) + tail;
    KeywordOf(Keyword(c), tail);
    hide KeywordLength, IsKeyword, Delimiters, CleanTail, NoOpen, NoClose, Keyword;
    NameDelimited(c, name, extra);
    assert line[|Keyword(c)|..] == tail;
  }

  lemma CommentDecides()
    ensures IncludeText("#include <b.h> // <a.h>") == Some("a.h")
  {
    hide KeywordLength, Delimiters;
    var tail := " <b.h> // <a.h>";
    var line := "#include" + tail;
    assert line == "#include <b.h> // <a.h>";
    KeywordOf("#include", tail);
    assert line[8..] == tail && |tail| == 15;
    assert Opens(tail[10]) && Closes(tail[14]);
    var (p, q) := Delimiters(tail).value;
    assert q == 14;
    assert !Opens(tail[11]) && !Opens(tail[12]) && !Opens(tail[13]);
    assert p == 10;
    assert line[19..22] == "a.h";
  }

  // ----- The key -----

  // Everything but the file part gets a blank in front.
  function Spaced(parts: seq<string>): (r: seq<string>)
    requires parts != []
    ensures |r| == |parts|
  {
    if |parts| == 1 then parts else [" " + parts[0]] + Spaced(parts[1..])
  }

  // The includes of dnet are not sorted among themselves.
  predicate IsDnet(parts: seq<string>) {
    |parts| == 2 && parts[0] == "dnet"
  }

  function PathKey(parts: seq<string>): string
    requires parts != []
  {
    Join(Spaced(if IsDnet(parts) then [parts[0], " "] else parts), '/')
  }

  // Lines without such a text do not get here, see NameReadIff.
  function IncludeKey(line: string): string {
    match IncludeText(line)
    case None => ""
    case Some(text) => PathKey(Split(text, '/'))
  }

  // ----- The order -----

  // What the keys of all headers in a directory start with.
  function Under(dirs: seq<string>): string {
    if dirs == [] then "" else " " + dirs[0] + "/" + Under(dirs[1..])
  }

  ghost predicate Before(a: string, b: string) {
    Leq(a, b) && !Leq(b, a)
  }

  lemma {:induction false} JoinUnder(dirs: seq<string>, rest: seq<string>)
    requires rest != []
    ensures Join(Spaced(dirs + rest), '/') == Under(dirs) + Join(Spaced(rest), '/')
  {
    if dirs == [] {
      assert dirs + rest == rest;
      assert Under(dirs) + Join(Spaced(rest), '/') == Join(Spaced(rest), '/');
    } else {
      JoinUnder(dirs[1..], rest);
      var all := dirs + rest;
      assert all[1..] == dirs[1..] + rest && all[0] == dirs[0];
      assert Spaced(all)[0] == " " + dirs[0] && Spaced(all)[1..] == Spaced(all[1..]);
      assert Join(Spaced(all), '/') == (" " + dirs[0]) + (['/'] + Join(Spaced(all[1..]), '/'));
      var u, j := Under(dirs[1..]), Join(Spaced(rest), '/');
      assert (" " + dirs[0]) + (['/'] + (u + j)) == (" " + dirs[0] + "/" + u) + j;
    }
  }

  lemma {:induction false} LeqUnder(u: string, a: string, b: string)
    ensures Leq(u + a, u + b) <==> Leq(a, b)
  {
    if u == [] {
      assert u + a == a && u + b == b;
    } else {
      LeqUnder(u[1..], a, b);
      assert (u + a)[1..] == u[1..] + a && (u + b)[1..] == u[1..] + b;
    }
  }

  // The key of a header at rest in the directory dirs.
  lemma KeyUnder(dirs: seq<string>, rest: seq<string>)
    requires rest != []
    ensures dirs == ["dnet"] && |rest| == 1 ==> PathKey(dirs + rest) == Under(dirs) + " "
    ensures dirs != [] && !(dirs == ["dnet"] && |rest| == 1) ==> PathKey(dirs + rest) == Under(dirs) + Join(Spaced(rest), '/')
    ensures dirs == [] ==> PathKey(dirs + rest) == PathKey(rest)
  {
    if dirs == [] {
      assert dirs + rest == rest;
    } else if IsDnet(dirs + rest) {
      assert |dirs| == 1 && dirs == [(dirs + rest)[0]] == ["dnet"];
      assert [(dirs + rest)[0], " "] == dirs + [" "];
      JoinUnder(dirs, [" "]);
    } else {
      assert dirs == ["dnet"] ==> (dirs + rest)[0] == "dnet";
      JoinUnder(dirs, rest);
    }
  }

  // In every directory, what lies in a directory of it comes before the files iff the
  // directory is not dnet and the name of the file starts with a character above the blank.
  lemma DirectoriesFirstIff(dirs: seq<string>, d: string, rest: seq<string>, file: string)
    requires rest != [] && (file == [] || file[0] != ' ')
    ensures Before(PathKey(dirs + ([d] + rest)), PathKey(dirs + [file])) <==> dirs != ["dnet"] && file != [] && file[0] > ' '
  {
    KeyUnder(dirs, [d] + rest);
    KeyUnder(dirs, [file]);
    InDirectory(d, rest);
    var inside := if dirs == [] then PathKey([d] + rest) else Join(Spaced([d] + rest), '/');
    var outside := if dirs == ["dnet"] then " " else file;
    assert PathKey([file]) == file == Join(Spaced([file]), '/');
    assert Under([]) + inside == inside && Under([]) + outside == outside;
    LeqUnder(Under(dirs), inside, outside);
    LeqUnder(Under(dirs), outside, inside);
  }

  lemma InDirectory(d: string, rest: seq<string>)
    requires rest != []
    ensures var k := PathKey([d] + rest); |k| > 1 && k[0] == ' '
    ensures var k := Join(Spaced([d] + rest), '/'); |k| > 1 && k[0] == ' '
  {
    JoinUnder([d], rest);
    assert Under([d])[0] == ' ' && |Under([d])| >= 2;
    KeyUnder([d], rest);
  }

  // The files of one directory are in the order of their names, but those of dnet in the order in
  // which they were.
  lemma FilesByName(dirs: seq<string>, f: string, g: string)
    ensures dirs != ["dnet"] ==> (Leq(PathKey(dirs + [f]), PathKey(dirs + [g])) <==> Leq(f, g))
    ensures dirs == ["dnet"] ==> PathKey(dirs + [f]) == PathKey(dirs + [g])
  {
    KeyUnder(dirs, [f]);
    KeyUnder(dirs, [g]);
    assert PathKey([f]) == f == Join(Spaced([f]), '/') && PathKey([g]) == g == Join(Spaced([g]), '/');
    LeqUnder(Under(dirs), f, g);
  }

  // ----- One directory, one stretch -----

  ghost predicate Lies(parts: seq<string>, dirs: seq<string>) {
    |dirs| < |parts| && dirs <= parts
  }

  // The place of the first slash.
  function FirstSlash(s: string): (n: nat)
    ensures n <= |s|
  {
    if s == [] || s[0] == '/' then 0 else 1 + FirstSlash(s[1..])
  }

  lemma {:induction false} FirstSlashOf(s: string, more: string)
    requires '/' !in s
    ensures FirstSlash(s) == |s| && FirstSlash(s + (['/'] + more)) == |s|
  {
    if s == [] {
      assert s + (['/'] + more) == ['/'] + more;
    } else {
      FirstSlashOf(s[1..], more);
      assert (s + (['/'] + more))[1..] == s[1..] + (['/'] + more);
    }
  }

  lemma {:induction false} SameFirstSlash(a: string, b: string)
    ensures a <= b && FirstSlash(a) < |a| ==> FirstSlash(b) == FirstSlash(a)
  {
    if a != [] && a <= b {
      SameFirstSlash(a[1..], b[1..]);
    }
  }

  lemma HeadsAgree(p: string, more: string, d: string, u: string)
    requires '/' !in p && '/' !in d
    ensures d + (['/'] + u) <= p + (['/'] + more) <==> d == p && u <= more
  {
    var a, b := d + (['/'] + u), p + (['/'] + more);
    FirstSlashOf(d, u);
    FirstSlashOf(p, more);
    SameFirstSlash(a, b);
    if a <= b {
      assert d == a[..|d|] == b[..|d|] == p;
      assert u == a[|d| + 1..] && more == b[|d| + 1..];
    }
    if d == p && u <= more {
      assert a == b[..|a|];
    }
  }

  ghost predicate NoSlash(parts: seq<string>) {
    forall k :: 0 <= k < |parts| ==> '/' !in parts[k]
  }

  lemma LiesStep(parts: seq<string>, dirs: seq<string>)
    requires parts != [] && dirs != []
    ensures Lies(parts, dirs) <==> parts[0] == dirs[0] && Lies(parts[1..], dirs[1..])
  {
    assert parts == [parts[0]] + parts[1..] && dirs == [dirs[0]] + dirs[1..];
    if Lies(parts, dirs) {
      assert parts[1..][..|dirs| - 1] == dirs[1..];
    }
    if parts[0] == dirs[0] && Lies(parts[1..], dirs[1..]) {
      assert parts[..|dirs|] == dirs;
    }
  }

  lemma UnderFirst(dirs: seq<string>)
    requires dirs != []
    ensures Under(dirs) == (" " + dirs[0]) + (['/'] + Under(dirs[1..]))
  {
  }

  lemma JoinFirst(parts: seq<string>)
    requires |parts| > 1
    ensures Join(Spaced(parts), '/') == (" " + parts[0]) + (['/'] + Join(Spaced(parts[1..]), '/'))
  {
    assert Spaced(parts)[1..] == Spaced(parts[1..]);
  }

  // A key starts with the prefix of a directory iff the header lies in it.
  lemma {:induction false} SpacedUnderIff(parts: seq<string>, dirs: seq<string>)
    requires parts != [] && NoSlash(parts) && NoSlash(dirs)
    ensures Under(dirs) <= Join(Spaced(parts), '/') <==> Lies(parts, dirs)
  {
    if dirs != [] {
      hide Under, Lies, Spaced, Join, FirstSlash;
      var j := Join(Spaced(parts), '/');
      UnderFirst(dirs);
      LiesStep(parts, dirs);
      if |parts| == 1 {
        LastPart(parts[0], dirs);
        FirstSlashOf(" " + dirs[0], Under(dirs[1..]));
        FirstSlashOf(parts[0], []);
        SameFirstSlash(Under(dirs), j);
      } else {
        SpacedUnderIff(parts[1..], dirs[1..]);
        JoinFirst(parts);
        HeadsAgree(" " + parts[0], Join(Spaced(parts[1..]), '/'), " " + dirs[0], Under(dirs[1..]));
        assert " " + parts[0] == " " + dirs[0] ==> (" " + parts[0])[1..] == (" " + dirs[0])[1..];
      }
    }
  }

  lemma LastPart(part: string, dirs: seq<string>)
    requires dirs != []
    ensures Join(Spaced([part]), '/') == part && !Lies([part], dirs)
  {
  }

  lemma UnderIff(parts: seq<string>, dirs: seq<string>)
    requires parts != [] && NoSlash(parts) && NoSlash(dirs)
    ensures Under(dirs) <= PathKey(parts) <==> Lies(parts, dirs)
  {
    hide Under, Join, Spaced, Lies;
    if IsDnet(parts) {
      var cleared := [parts[0], " "];
      SpacedUnderIff(cleared, dirs);
      LiesWithFile(parts, cleared, dirs);
    } else {
      SpacedUnderIff(parts, dirs);
    }
  }

  // The file part does not matter.
  lemma LiesWithFile(parts: seq<string>, others: seq<string>, dirs: seq<string>)
    requires |parts| == |others| > 0 && parts[..|parts| - 1] == others[..|others| - 1]
    ensures Lies(parts, dirs) <==> Lies(others, dirs)
  {
    if |dirs| < |parts| {
      var front := parts[..|parts| - 1];
      assert parts[..|dirs|] == front[..|dirs|] == others[..|dirs|];
    }
  }

  // What lies between two texts with a common prefix has that prefix.
  lemma {:induction false} PrefixBetween(u: string, a: string, b: string, c: string)
    requires u <= a && u <= c && Leq(a, b) && Leq(b, c)
    ensures u <= b
  {
    if u != [] {
      PrefixBetween(u[1..], a[1..], b[1..], c[1..]);
      assert u == [u[0]] + u[1..] && b == [b[0]] + b[1..];
    }
  }

  ghost predicate LineLies(line: string, dirs: seq<string>) {
    IncludeText(line).Some? && Lies(Split(IncludeText(line).value, '/'), dirs)
  }

  // A line's key starts with the prefix of a directory iff its header lies there.
  lemma LineUnderIff(line: string, dirs: seq<string>)
    requires dirs != [] && NoSlash(dirs)
    ensures Under(dirs) <= IncludeKey(line) <==> LineLies(line, dirs)
  {
    hide IncludeText, Split, PathKey;
    if IncludeText(line).Some? {
      var text := IncludeText(line).value;
      SplitParts(text, '/');
      UnderIff(Split(text, '/'), dirs);
    } else {
      UnderFirst(dirs);
    }
  }

  // In the output for a class the headers that lie in a directory, however deep, form one stretch.
  lemma OneStretch(lines: seq<string>, dirs: seq<string>, i: nat, k: nat, j: nat)
    requires dirs != [] && NoSlash(dirs)
    requires var out := Tidy(IncludeKey, lines); i <= k <= j < |out| && LineLies(out[i], dirs) && LineLies(out[j], dirs)
    ensures LineLies(Tidy(IncludeKey, lines)[k], dirs)
  {
    hide IncludeText, IncludeKey, LineLies, Tidy, Under;
    var out := Tidy(IncludeKey, lines);
    TidyProperties(IncludeKey, lines);
    if i < k < j {
      LineUnderIff(out[i], dirs);
      LineUnderIff(out[k], dirs);
      LineUnderIff(out[j], dirs);
      PrefixBetween(Under(dirs), IncludeKey(out[i]), IncludeKey(out[k]), IncludeKey(out[j]));
    }
  }
}
