/** Splitting a text at a separator, and joining its parts again. */
module Splitting {

  function Split(s: string, sep: char): (items: seq<string>)
    ensures items != []
  {
    if s == [] then [[]]
    else if s[0] == sep then [[]] + Split(s[1..], sep)
    else
      var rest := Split(s[1..], sep);
      [[s[0]] + rest[0]] + rest[1..]
  }

  function Join(items: seq<string>, sep: char): string
    requires items != []
  {
    if |items| == 1 then items[0] else items[0] + ([sep] + Join(items[1..], sep))
  }

  lemma {:induction false} SplitItem(s: string, rest: string, sep: char)
    requires sep !in s
    ensures Split(s, sep) == [s] && Split(s + ([sep] + rest), sep) == [s] + Split(rest, sep)
  {
    if s == [] {
      assert s + ([sep] + rest) == [sep] + rest;
      assert ([sep] + rest)[1..] == rest;
    } else {
      SplitItem(s[1..], rest, sep);
      assert (s + ([sep] + rest))[1..] == s[1..] + ([sep] + rest);
      assert [s[0]] + s[1..] == s;
    }
  }

  // Joining and splitting undo each other: parts without the separator come back,
  lemma {:induction false} SplitJoin(items: seq<string>, sep: char)
    requires items != [] && forall k :: 0 <= k < |items| ==> sep !in items[k]
    ensures Split(Join(items, sep), sep) == items
  {
    if |items| == 1 {
      SplitItem(items[0], [], sep);
      assert items == [items[0]];
    } else {
      SplitJoin(items[1..], sep);
      SplitItem(items[0], Join(items[1..], sep), sep);
      assert items == [items[0]] + items[1..];
    }
  }

  lemma JoinPrepend(c: char, items: seq<string>, sep: char)
    requires items != []
    ensures Join([[c] + items[0]] + items[1..], sep) == [c] + Join(items, sep)
  {
    if |items| > 1 {
      var more := [sep] + Join(items[1..], sep);
      assert [c] + (items[0] + more) == [c] + items[0] + more;
      assert ([[c] + items[0]] + items[1..])[1..] == items[1..];
    }
  }

  lemma JoinEmpty(items: seq<string>, sep: char)
    requires items != []
    ensures Join([[]] + items, sep) == [sep] + Join(items, sep)
  {
    assert ([[]] + items)[1..] == items;
  }

  lemma SplitFirst(s: string, sep: char)
    requires s != []
    ensures var rest := Split(s[1..], sep);
            Split(s, sep) == if s[0] == sep then [[]] + rest else [[s[0]] + rest[0]] + rest[1..]
  {
  }

  // and every text is the join of its parts, which hold no separator.
  lemma {:induction false} SplitParts(s: string, sep: char)
    ensures Join(Split(s, sep), sep) == s
    ensures forall k :: 0 <= k < |Split(s, sep)| ==> sep !in Split(s, sep)[k]
  {
    if s != [] {
      SplitFirst(s, sep);
      hide Split, Join;
      SplitParts(s[1..], sep);
      var rest := Split(s[1..], sep);
      if s[0] == sep {
        JoinEmpty(rest, sep);
      } else {
        JoinPrepend(s[0], rest, sep);
      }
      assert [s[0]] + s[1..] == s;
    }
  }
}
