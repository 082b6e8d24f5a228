/** The years of copyright notices: sets of years printed as runs, and read back. */
module CopyrightYears {
  import opened Options
  import opened Decimals
  import opened Splitting

  datatype Run = Run(first: nat, second: nat)

  // ----- Printing -----

  function Show(run: Run): string {
    if run.first == run.second then Decimal(run.first) else Decimal(run.first) + ("-" + Decimal(run.second))
  }

  function ShowAll(runs: seq<Run>): (items: seq<string>)
    ensures |items| == |runs| && forall k :: 0 <= k < |runs| ==> items[k] == Show(runs[k])
  {
    if runs == [] then [] else ShowAll(runs[..|runs| - 1]) + [Show(runs[|runs| - 1])]
  }

  ghost predicate InRun(run: Run, y: nat) {
    run.first <= y <= run.second
  }

  ghost predicate Covered(runs: seq<Run>, y: nat) {
    exists k :: 0 <= k < |runs| && InRun(runs[k], y)
  }

  // No run is empty, and there is a gap after each.
  ghost predicate Separated(runs: seq<Run>) {
    (forall k :: 0 <= k < |runs| ==> runs[k].first <= runs[k].second) &&
    forall k, k' :: 0 <= k < k' < |runs| ==> runs[k].second + 1 < runs[k'].first
  }

  // The runs are the longest runs of consecutive years, in increasing order.
  ghost predicate RunsOf(runs: seq<Run>, years: set<nat>) {
    Separated(runs) && forall y: nat :: y in years <==> Covered(runs, y)
  }

  ghost predicate IsRuns(runs: seq<Run>, dates: seq<nat>) {
    RunsOf(runs, set y | y in dates)
  }

  lemma CoveredSnoc(runs: seq<Run>, run: Run, y: nat)
    ensures Covered(runs + [run], y) <==> Covered(runs, y) || InRun(run, y)
  {
    var all := runs + [run];
    if k :| 0 <= k < |runs| && InRun(runs[k], y) {
      assert InRun(all[k], y);
    }
    if InRun(run, y) {
      assert InRun(all[|runs|], y);
    }
    if k :| 0 <= k < |all| && InRun(all[k], y) {
      assert k < |runs| ==> InRun(runs[k], y);
    }
  }

  ghost predicate Increasing(years: seq<nat>) {
    forall i, j :: 0 <= i < j < |years| ==> years[i] < years[j]
  }

  lemma {:induction false} Least(years: set<nat>) returns (y: nat)
    requires years != {}
    ensures y in years && forall x :: x in years ==> y <= x
    decreases |years|
  {
    var first :| first in years;
    var rest := years - {first};
    assert years == rest + {first};
    if rest == {} {
      y := first;
    } else {
      var z := Least(rest);
      y := if z < first then z else first;
    }
  }

  method SortYears(years: set<nat>) returns (dates: seq<nat>)
    ensures Increasing(dates) && forall y :: y in dates <==> y in years
  {
    dates := [];
    var rest := years;
    while rest != {}
      invariant rest <= years && Increasing(dates) && (forall y :: y in years <==> y in dates || y in rest)
      invariant forall x, y :: x in dates && y in rest ==> x < y
      decreases |rest|
    {
      ghost var least := Least(rest);
      var y :| y in rest && forall x :: x in rest ==> y <= x;
      assert forall i :: 0 <= i < |dates| ==> dates[i] in dates;
      dates := dates + [y];
      rest := rest - {y};
    }
  }

  // The printed runs of a set of years; there must be one.
  method DateStr(years: set<nat>) returns (r: Option<string>, runs: seq<Run>)
    ensures years == {} ==> r == None
    ensures years != {} ==> runs != [] && RunsOf(runs, years) && r == Some(Join(ShowAll(runs), ','))
  {
    hide ShowAll, Show, Join;
    var dates := SortYears(years);
    if dates == [] {
      assert years == {};
      return None, [];
    }
    assert dates[0] in dates;
    var text;
    text, runs := ShowDates(dates);
    r := Some(text);
  }

  // The loop over the sorted list.
  method ShowDates(dates: seq<nat>) returns (text: string, runs: seq<Run>)
    requires Increasing(dates) && dates != []
    ensures runs != [] && IsRuns(runs, dates) && text == Join(ShowAll(runs), ',')
  {
    hide IsRuns, ShowAll, Show, Join;
    runs := [];
    assert ShowAll(runs) == [];
    var output := [];
    var first, second := dates[0], dates[0];
    var i := 1;
    AddFirst(dates);
    while i < |dates|
      invariant 1 <= i <= |dates| && output == ShowAll(runs)
      invariant second == dates[i - 1] && IsRuns(runs + [Run(first, second)], dates[..i])
    {
      var next := dates[i];
      assert dates[..i + 1] == dates[..i] + [next];
      if next == second + 1 {
        Lengthen(runs, first, second, dates[..i]);
        second := next;
      } else {
        StartRun(runs + [Run(first, second)], next, dates[..i]);
        ShowAllSnoc(runs, Run(first, second));
        output := output + [Show(Run(first, second))];
        runs := runs + [Run(first, second)];
        first, second := next, next;
      }
      i := i + 1;
    }
    ShowAllSnoc(runs, Run(first, second));
    output := output + [Show(Run(first, second))];
    runs := runs + [Run(first, second)];
    assert dates[..i] == dates;
    text := Join(output, ',');
  }

  lemma {:induction false} ShowAllSnoc(runs: seq<Run>, run: Run)
    ensures ShowAll(runs + [run]) == ShowAll(runs) + [Show(run)]
  {
    assert (runs + [run])[..|runs|] == runs;
  }

  lemma AddFirst(dates: seq<nat>)
    requires dates != []
    ensures IsRuns([] + [Run(dates[0], dates[0])], dates[..1])
  {
    var runs := [Run(dates[0], dates[0])];
    assert [] + runs == runs;
    forall y: nat
      ensures y in dates[..1] <==> Covered(runs, y)
    {
      assert InRun(runs[0], y) <==> y == dates[0];
    }
  }

  lemma LastRun(runs: seq<Run>, first: nat, second: nat, years: seq<nat>)
    requires IsRuns(runs + [Run(first, second)], years)
    ensures first <= second
  {
    var all := runs + [Run(first, second)];
    assert all[|runs|].first <= all[|runs|].second;
  }

  lemma Lengthen(runs: seq<Run>, first: nat, second: nat, years: seq<nat>)
    requires IsRuns(runs + [Run(first, second)], years)
    ensures IsRuns(runs + [Run(first, second + 1)], years + [second + 1])
  {
    hide Covered;
    LastRun(runs, first, second, years);
    SeparatedLonger(runs, first, second);
    var longer, more := runs + [Run(first, second + 1)], years + [second + 1];
    forall y: nat
      ensures y in more <==> Covered(longer, y)
    {
      CoveredSnoc(runs, Run(first, second), y);
      CoveredSnoc(runs, Run(first, second + 1), y);
    }
  }

  lemma SeparatedLonger(runs: seq<Run>, first: nat, second: nat)
    requires Separated(runs + [Run(first, second)])
    ensures Separated(runs + [Run(first, second + 1)])
  {
    var a, b := runs + [Run(first, second)], runs + [Run(first, second + 1)];
    assert forall k :: 0 <= k < |runs| ==> a[k] == b[k];
    assert a[|runs|].first <= a[|runs|].second;
    forall k, k' | 0 <= k < k' < |b|
      ensures b[k].second + 1 < b[k'].first
    {
      assert a[k].second + 1 < a[k'].first;
    }
  }

  lemma StartRun(runs: seq<Run>, next: nat, years: seq<nat>)
    requires IsRuns(runs, years) && runs != [] && runs[|runs| - 1].second + 1 < next
    ensures IsRuns(runs + [Run(next, next)], years + [next])
  {
    hide Covered;
    SeparatedMore(runs, next);
    forall y: nat
      ensures y in years + [next] <==> Covered(runs + [Run(next, next)], y)
    {
      CoveredSnoc(runs, Run(next, next), y);
    }
  }

  lemma SeparatedMore(runs: seq<Run>, next: nat)
    requires Separated(runs) && runs != [] && runs[|runs| - 1].second + 1 < next
    ensures Separated(runs + [Run(next, next)])
  {
    var last := |runs| - 1;
    forall k | 0 <= k < |runs|
      ensures runs[k].second + 1 < next
    {
      assert k < last ==> runs[k].second + 1 < runs[last].first <= runs[last].second;
    }
  }

  // ----- Reading -----

  predicate IsSpace(c: char) {
    c in " \t\n\r" || c as int == 0x0b || c as int == 0x0c
  }

  function SkipSpace(s: string): string {
    if s != [] && IsSpace(s[0]) then SkipSpace(s[1..]) else s
  }

  function Strip(s: string): string {
    TrimEnd(SkipSpace(s))
  }

  function TrimEnd(s: string): string {
    if s != [] && IsSpace(s[|s| - 1]) then TrimEnd(s[..|s| - 1]) else s
  }

  predicate AllDigits(s: string) {
    forall c :: c in s ==> IsDigit(c)
  }

  // Four digits at the start of s, and what follows them.
  function Year(s: string): Option<(nat, string)> {
    if |s| >= 4 && AllDigits(s[..4]) then Some((ValueFrom(s[..4], 0), s[4..])) else None
  }

  // The start of s as two years with a dash between them, blanks around the dash.
  function Range(s: string): Option<(nat, nat)> {
    match Year(s)
    case None => None
    case Some((first, rest)) =>
      var dash := SkipSpace(rest);
      if dash == [] || dash[0] != '-' then None
      else
        match Year(SkipSpace(dash[1..]))
        case None => None
        case Some((last, _)) => Some((first, last))
  }

  // A whole number with an optional sign.
  function Int(s: string): Option<int> {
    if s != [] && AllDigits(s) then Some(ValueFrom(s, 0))
    else if |s| > 1 && s[0] in "+-" && AllDigits(s[1..]) then
      var v: int := ValueFrom(s[1..], 0);
      Some(if s[0] == '-' then -v else v)
    else None
  }

  function Between(first: int, last: int): (r: set<int>)
    ensures forall y :: y in r <==> first <= y <= last
    decreases last - first
  {
    if last < first then {} else Between(first, last - 1) + {last}
  }

  // The years that one item stands for.
  function YearsOf(item: string): set<int> {
    match Range(item)
    case Some((first, last)) => Between(first, last)
    case None =>
      match Int(item)
      case Some(y) => {y}
      case None => {}
  }

  function AllYears(items: seq<string>, k: nat): set<int>
    requires k <= |items|
  {
    if k == 0 then {} else AllYears(items, k - 1) + YearsOf(Strip(items[k - 1]))
  }

  method ProcessDates(dates: string) returns (output: set<int>)
    ensures output == AllYears(Split(dates, ','), |Split(dates, ',')|)
  {
    hide Split, Strip, Int, Range;
    var items := Split(dates, ',');
    output := {};
    var k := 0;
    while k < |items|
      invariant k <= |items| && output == AllYears(items, k)
    {
      var date := Strip(items[k]);
      var range := Range(date);
      if range.Some? {
        var f: int, l: int := range.value.0, range.value.1;
        var i := f;
        while i < l + 1
          invariant f <= i && (i <= l + 1 || i == f) && output == AllYears(items, k) + Between(f, i - 1)
        {
          output := output + {i};
          i := i + 1;
        }
      } else {
        var year := Int(date);
        if year.Some? {
          output := output + {year.value};
        }
      }
      k := k + 1;
    }
  }

  // ----- What is read -----

  predicate AllSpace(s: string) {
    forall i :: 0 <= i < |s| ==> IsSpace(s[i])
  }

  lemma {:induction false} SkipsSpace(blanks: string, s: string)
    requires AllSpace(blanks) && (s == [] || !IsSpace(s[0]))
    ensures SkipSpace(blanks + s) == s
  {
    if blanks == [] {
      assert blanks + s == s;
    } else {
      assert (blanks + s)[0] == blanks[0] && (blanks + s)[1..] == blanks[1..] + s;
      SkipsSpace(blanks[1..], s);
    }
  }

  lemma {:induction false} TrimsEnd(s: string, blanks: string)
    requires AllSpace(blanks) && (s == [] || !IsSpace(s[|s| - 1]))
    ensures TrimEnd(s + blanks) == s
  {
    if blanks == [] {
      assert s + blanks == s;
    } else {
      var n := |blanks| - 1;
      assert (s + blanks)[|s + blanks| - 1] == blanks[n] && (s + blanks)[..|s + blanks| - 1] == s + blanks[..n];
      TrimsEnd(s, blanks[..n]);
    }
  }

  // Blanks before and behind an item do not count.
  lemma Stripped(before: string, item: string, behind: string)
    requires AllSpace(before) && AllSpace(behind) && item != [] && !IsSpace(item[0]) && !IsSpace(item[|item| - 1])
    ensures Strip(before + (item + behind)) == item
  {
    assert (item + behind)[0] == item[0];
    SkipsSpace(before, item + behind);
    TrimsEnd(item, behind);
  }

  predicate FourDigitText(s: string) {
    |s| == 4 && AllDigits(s)
  }

  // Two years of four digits, with a dash and any blanks between them; what follows does not count.
  ghost predicate IsRange(item: string, a: string, x: string, y: string, b: string, rest: string) {
    FourDigitText(a) && AllSpace(x) && AllSpace(y) && FourDigitText(b) && item == a + (x + ("-" + (y + (b + rest))))
  }

  lemma RangeOf(item: string, a: string, x: string, y: string, b: string, rest: string)
    requires IsRange(item, a, x, y, b, rest)
    ensures Range(item) == Some((ValueFrom(a, 0), ValueFrom(b, 0)))
  {
    hide ValueFrom;
    var tail := y + (b + rest);
    assert item[..4] == a && item[4..] == x + ("-" + tail);
    SkipsSpace(x, "-" + tail);
    assert ("-" + tail)[1..] == tail;
    assert b[0] in b && (b + rest)[0] == b[0];
    SkipsSpace(y, b + rest);
    assert (b + rest)[..4] == b;
  }

  lemma {:induction false} Skipped(s: string) returns (blanks: string)
    ensures AllSpace(blanks) && s == blanks + SkipSpace(s)
  {
    blanks := [];
    if s != [] && IsSpace(s[0]) {
      var more := Skipped(s[1..]);
      blanks := [s[0]] + more;
    }
  }

  // Only such an item is a range.
  lemma RangeFound(item: string) returns (a: string, x: string, y: string, b: string, rest: string)
    requires Range(item).Some?
    ensures IsRange(item, a, x, y, b, rest)
  {
    hide ValueFrom;
    var r := item[4..];
    var dash := SkipSpace(r);
    var t := dash[1..];
    var u := SkipSpace(t);
    a, b, rest := item[..4], u[..4], u[4..];
    x := Skipped(r);
    y := Skipped(t);
    assert dash == "-" + t && u == b + rest && item == a + r;
  }

  // An item with a range stands for all its years, whatever blanks surround and separate them.
  lemma RangeItem(before: string, a: string, x: string, y: string, b: string, behind: string, year: int)
    requires AllSpace(before) && AllSpace(x) && AllSpace(y) && AllSpace(behind) && FourDigitText(a) && FourDigitText(b)
    ensures year in YearsOf(Strip(before + (a + (x + ("-" + (y + b))) + behind))) <==>
            ValueFrom(a, 0) <= year <= ValueFrom(b, 0)
  {
    hide Range, ValueFrom, Strip;
    var item := a + (x + ("-" + (y + b)));
    assert a[0] in a && b[3] in b && item[0] == a[0] && item[|item| - 1] == b[3];
    Stripped(before, item, behind);
    assert b + [] == b;
    RangeOf(item, a, x, y, b, []);
  }

  // A single year of any number of digits, with blanks around it.
  lemma YearItem(before: string, digits: string, behind: string)
    requires AllSpace(before) && AllSpace(behind) && digits != [] && AllDigits(digits)
    ensures YearsOf(Strip(before + (digits + behind))) == {ValueFrom(digits, 0)}
  {
    hide Range, ValueFrom, Strip;
    assert digits[0] in digits && digits[|digits| - 1] in digits;
    Stripped(before, digits, behind);
    NoRange(digits);
  }

  // ----- What is read back -----

  // A single year, or two years of four digits each.
  predicate Readable(run: Run) {
    run.first == run.second || (1000 <= run.first && run.second <= 9999)
  }

  lemma Unstripped(s: string)
    requires s != [] && !IsSpace(s[0]) && !IsSpace(s[|s| - 1])
    ensures Strip(s) == s
  {
  }

  lemma {:induction false} NumberText(n: nat)
    ensures var a := Decimal(n); a != [] && AllDigits(a) && ValueFrom(a, 0) == n && ',' !in a && '-' !in a
    ensures !IsSpace(Decimal(n)[0]) && !IsSpace(Decimal(n)[|Decimal(n)| - 1])
  {
    hide Decimal, ValueFrom;
    DecimalValue(n);
    var a := Decimal(n);
    assert a[0] in a && a[|a| - 1] in a;
  }

  lemma {:induction false} SkipsInside(s: string)
    ensures forall c :: c in SkipSpace(s) ==> c in s
  {
    if s != [] && IsSpace(s[0]) {
      SkipsInside(s[1..]);
    }
  }

  // Without a dash there is no range.
  lemma NoRange(s: string)
    requires '-' !in s
    ensures Range(s) == None
  {
    hide ValueFrom;
    if |s| >= 4 {
      SkipsInside(s[4..]);
      var dash := SkipSpace(s[4..]);
      assert dash != [] ==> dash[0] in dash;
    }
  }

  lemma {:induction false} ShowOne(n: nat)
    ensures Range(Decimal(n)) == None && Int(Decimal(n)) == Some(n) && ',' !in Decimal(n) && Strip(Decimal(n)) == Decimal(n)
  {
    hide Decimal, ValueFrom, Range;
    NumberText(n);
    NoRange(Decimal(n));
    Unstripped(Decimal(n));
  }

  lemma {:induction false} YearThen(n: nat, rest: string)
    requires 1000 <= n <= 9999
    ensures Year(Decimal(n) + rest) == Some((n, rest))
  {
    hide Decimal, ValueFrom;
    NumberText(n);
    FourDigits(n);
    assert (Decimal(n) + rest)[..4] == Decimal(n) && (Decimal(n) + rest)[4..] == rest;
  }

  function Pair(a: nat, b: nat): string {
    Decimal(a) + ("-" + Decimal(b))
  }

  lemma ShowTwo(a: nat, b: nat)
    ensures ',' !in Pair(a, b) && Strip(Pair(a, b)) == Pair(a, b) && Int(Pair(a, b)) == None
  {
    hide Decimal, ValueFrom;
    var s := Pair(a, b);
    NumberText(a);
    NumberText(b);
    assert s[0] == Decimal(a)[0] && s[|s| - 1] == Decimal(b)[|Decimal(b)| - 1];
    Unstripped(s);
    assert s[|Decimal(a)|] == '-' && Decimal(a)[0] in Decimal(a);
    assert '-' in s;
  }

  // Two years, the first of four digits: the second is read up to its fourth digit.
  lemma ReadTwo(a: nat, b: nat)
    requires 1000 <= a <= 9999 && a < b
    ensures Range(Pair(a, b)).Some? && Range(Pair(a, b)).value.0 == a
    ensures if b <= 9999 then Range(Pair(a, b)).value.1 == b else Range(Pair(a, b)).value.1 <= 9999
  {
    hide Decimal, ValueFrom, Year;
    NumberText(b);
    YearThen(a, "-" + Decimal(b));
    assert ("-" + Decimal(b))[1..] == Decimal(b);
    if b <= 9999 {
      YearThen(b, []);
      assert Decimal(b) + [] == Decimal(b);
    } else {
      LongYear(b);
    }
  }

  lemma {:induction false} LongYear(b: nat)
    requires b >= 10000
    ensures Year(Decimal(b)).Some? && Year(Decimal(b)).value.0 <= 9999
  {
    hide Decimal, ValueFrom;
    NumberText(b);
    ManyDigits(b);
    FourValue(Decimal(b)[..4]);
  }

  // With a first year of fewer or more digits the dash is not where it is looked for.
  lemma ReadNone(a: nat, b: nat)
    requires a < 1000 || a > 9999
    ensures Range(Pair(a, b)) == None
  {
    hide Decimal, ValueFrom;
    var s := Pair(a, b);
    var n := |Decimal(a)|;
    NumberText(a);
    assert s[n] == '-';
    if a < 1000 {
      FewDigits(a);
      assert |s| >= 4 ==> s[..4][n] == '-' && s[..4][n] in s[..4];
    } else {
      ManyDigits(a);
      assert s[4] == Decimal(a)[4] && Decimal(a)[4] in Decimal(a) && s[4..][0] == s[4];
    }
  }

  // An item stands for years of the run it was printed from, and for all of them exactly if the
  // run is readable.
  lemma ShowReads(run: Run)
    requires run.first <= run.second
    ensures ',' !in Show(run) && Strip(Show(run)) == Show(run)
    ensures forall y: int :: y in YearsOf(Show(run)) ==> run.first <= y <= run.second
    ensures (forall y: int :: run.first <= y <= run.second ==> y in YearsOf(Show(run))) <==> Readable(run)
  {
    hide Decimal, Range, Int, Strip;
    var a, b := run.first, run.second;
    if a == b {
      ShowOne(a);
    } else {
      ShowTwo(a, b);
      if 1000 <= a <= 9999 {
        ReadTwo(a, b);
        assert b > 9999 ==> b !in YearsOf(Show(run));
      } else {
        ReadNone(a, b);
        assert a !in YearsOf(Show(run));
      }
    }
  }

  ghost predicate ReadAs(runs: seq<Run>, y: int) {
    exists i :: 0 <= i < |runs| && y in YearsOf(Show(runs[i]))
  }

  lemma {:induction false} RunsRead(runs: seq<Run>, y: int)
    requires forall i :: 0 <= i < |runs| ==> runs[i].first <= runs[i].second
    ensures y in AllYears(ShowAll(runs), |runs|) <==> ReadAs(runs, y)
    decreases |runs|
  {
    hide YearsOf, Strip, Show;
    if runs != [] {
      var n := |runs| - 1;
      var front, run := runs[..n], runs[n];
      RunsRead(front, y);
      ShowReads(run);
      assert runs == front + [run];
      ShowAllSnoc(front, run);
      AllYearsPrefix(ShowAll(front), Show(run), n);
      assert forall i :: 0 <= i < n ==> front[i] == runs[i];
    }
  }

  lemma {:induction false} AllYearsPrefix(items: seq<string>, item: string, k: nat)
    requires k <= |items|
    ensures AllYears(items + [item], k) == AllYears(items, k)
  {
    if k > 0 {
      AllYearsPrefix(items, item, k - 1);
    }
  }

  // What is read back are the years, exactly if all runs are readable.
  lemma RunsReadBack(runs: seq<Run>)
    requires Separated(runs)
    ensures (forall y: nat :: Covered(runs, y) ==> ReadAs(runs, y)) <==> forall i :: 0 <= i < |runs| ==> Readable(runs[i])
    ensures forall y: int :: ReadAs(runs, y) ==> y >= 0 && Covered(runs, y)
  {
    hide YearsOf, Show;
    forall i | 0 <= i < |runs|
      ensures forall y: int :: y in YearsOf(Show(runs[i])) ==> y >= 0 && InRun(runs[i], y)
    {
      ShowReads(runs[i]);
    }
    if forall i :: 0 <= i < |runs| ==> Readable(runs[i]) {
      forall y: nat | Covered(runs, y)
        ensures ReadAs(runs, y)
      {
        var i :| 0 <= i < |runs| && InRun(runs[i], y);
        ShowReads(runs[i]);
      }
    } else {
      var i :| 0 <= i < |runs| && !Readable(runs[i]);
      ShowReads(runs[i]);
      var y: int :| runs[i].first <= y <= runs[i].second && y !in YearsOf(Show(runs[i]));
      assert InRun(runs[i], y);
      NotElsewhere(runs, i, y);
    }
  }

  lemma NotElsewhere(runs: seq<Run>, i: nat, y: nat)
    requires Separated(runs) && i < |runs| && InRun(runs[i], y) && y !in YearsOf(Show(runs[i]))
    ensures !ReadAs(runs, y)
  {
    hide YearsOf, Show;
    forall j | 0 <= j < |runs| && j != i
      ensures y !in YearsOf(Show(runs[j]))
    {
      ShowReads(runs[j]);
      assert if i < j then runs[i].second + 1 < runs[j].first else runs[j].second + 1 < runs[i].first;
    }
  }

  // Every year next to another one has four digits.
  ghost predicate FourDigitRuns(years: set<nat>) {
    forall y: nat :: y in years && y + 1 in years ==> 1000 <= y < 9999
  }

  lemma SameRun(runs: seq<Run>, i: nat, j: nat, y: nat)
    requires Separated(runs) && i < |runs| && j < |runs| && InRun(runs[i], y) && InRun(runs[j], y + 1)
    ensures i == j
  {
  }

  lemma ReadableRuns(years: set<nat>, runs: seq<Run>)
    requires RunsOf(runs, years)
    ensures (forall i :: 0 <= i < |runs| ==> Readable(runs[i])) <==> FourDigitRuns(years)
  {
    if FourDigitRuns(years) {
      forall i | 0 <= i < |runs|
        ensures Readable(runs[i])
      {
        if runs[i].first < runs[i].second {
          var a, b := runs[i].first, runs[i].second;
          assert InRun(runs[i], a) && InRun(runs[i], a + 1) && InRun(runs[i], b - 1) && InRun(runs[i], b);
          assert Covered(runs, a) && Covered(runs, a + 1) && Covered(runs, b - 1) && Covered(runs, b);
          assert a in years && a + 1 in years && b - 1 in years && b - 1 + 1 in years;
        }
      }
    }
    if forall i :: 0 <= i < |runs| ==> Readable(runs[i]) {
      forall y: nat | y in years && y + 1 in years
        ensures 1000 <= y < 9999
      {
        var i :| 0 <= i < |runs| && InRun(runs[i], y);
        var j :| 0 <= j < |runs| && InRun(runs[j], y + 1);
        SameRun(runs, i, j, y);
      }
    }
  }

  // Reading what was printed gives back the set of years exactly if years next to each other
  // have four digits.
  lemma {:induction false} YearsRoundTripIff(years: set<nat>, runs: seq<Run>)
    requires RunsOf(runs, years) && runs != []
    ensures var items := Split(Join(ShowAll(runs), ','), ',');
            (forall y: int :: y in AllYears(items, |items|) <==> y in years) <==> FourDigitRuns(years)
  {
    hide Show, AllYears, Join, Split, YearsOf, ReadAs, Covered, FourDigitRuns;
    var items := ShowAll(runs);
    forall i | 0 <= i < |runs|
      ensures ',' !in items[i]
    {
      ShowReads(runs[i]);
    }
    SplitJoin(items, ',');
    forall y: int
      ensures y in AllYears(items, |items|) <==> ReadAs(runs, y)
    {
      RunsRead(runs, y);
    }
    RunsReadBack(runs);
    ReadableRuns(years, runs);
  }

  method RoundTrip(years: set<nat>) returns (output: set<int>)
    requires years != {}
    ensures (forall y: int :: y in output <==> y in years) <==> FourDigitRuns(years)
  {
    hide FourDigitRuns, Split, AllYears;
    var text, runs := DateStr(years);
    YearsRoundTripIff(years, runs);
    output := ProcessDates(text.value);
  }
}
