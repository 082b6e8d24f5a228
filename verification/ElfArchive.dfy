/**
 Reading ar(1) archives: numbers in member headers, the search for the special members at the
 front, and the cursor that goes from member to member.
 */
module ElfArchive {
  import opened Options
  import opened Decimals

  // ----- Numbers in header fields -----

  function SkipBlanks(s: string): string {
    if s != [] && s[0] == ' ' then SkipBlanks(s[1..]) else s
  }

  // Digits up to a blank or a digit outside the base; None at any other character.
  function Digits(s: string, base: nat, r: nat): Option<nat> {
    if s == [] || s[0] == ' ' then Some(r)
    else if s[0] < '0' || s[0] > '9' then None
    else
      var v := s[0] as int - '0' as int;
      if v >= base then Some(r) else Digits(s[1..], base, r * base + v)
  }

  function Number(s: string, base: nat): Option<nat> {
    Digits(SkipBlanks(s), base, 0)
  }

  method GetNumber(s: string, base: nat) returns (r: Option<nat>)
    ensures r == Number(s, base)
  {
    hide SkipBlanks, Digits;
    var i := 0;
    while i < |s| && s[i] == ' '
      invariant i <= |s| && SkipBlanks(s) == SkipBlanks(s[i..])
    {
      SkipOne(s, i);
      i := i + 1;
    }
    SkipNone(s, i);
    var n: nat := 0;
    while i < |s|
      invariant i <= |s| && Number(s, base) == Digits(s[i..], base, n)
    {
      DigitsStep(s, i, base, n);
      if s[i] == ' ' {
        return Some(n);
      }
      if s[i] < '0' || s[i] > '9' {
        return None;
      }
      var v := s[i] as int - '0' as int;
      if v >= base {
        return Some(n);
      }
      n := n * base + v;
      i := i + 1;
    }
    DigitsEnd(s, base, n);
    r := Some(n);
  }

  lemma SkipOne(s: string, i: nat)
    requires i < |s| && s[i] == ' '
    ensures SkipBlanks(s[i..]) == SkipBlanks(s[i + 1..])
  {
    assert s[i..][1..] == s[i + 1..];
  }

  lemma SkipNone(s: string, i: nat)
    requires i <= |s| && (i < |s| ==> s[i] != ' ')
    ensures SkipBlanks(s[i..]) == s[i..]
  {
  }

  lemma {:induction false} DigitsStep(s: string, i: nat, base: nat, n: nat)
    requires i < |s|
    ensures Digits(s[i..], base, n) ==
            if s[i] == ' ' then Some(n) else if s[i] < '0' || s[i] > '9' then None
            else if s[i] as int - '0' as int >= base then Some(n)
            else Digits(s[i + 1..], base, n * base + (s[i] as int - '0' as int))
  {
    assert s[i..][1..] == s[i + 1..] && s[i..][0] == s[i];
  }

  lemma {:induction false} DigitsEnd(s: string, base: nat, n: nat)
    ensures Digits(s[|s|..], base, n) == Some(n)
  {
  }

  // The value of digits in a base.
  function Value(ds: string, base: nat): nat
    requires AllDigits(ds, base)
  {
    if ds == [] then 0 else Value(ds[..|ds| - 1], base) * base + (ds[|ds| - 1] as int - '0' as int)
  }

  predicate IsDigit(c: char, base: nat) {
    '0' <= c <= '9' && c as int - '0' as int < base
  }

  predicate AllDigits(s: string, base: nat) {
    forall i :: 0 <= i < |s| ==> IsDigit(s[i], base)
  }

  predicate AllBlank(s: string) {
    forall i :: 0 <= i < |s| ==> s[i] == ' '
  }

  lemma {:induction false} SkipsBlanks(blanks: string, s: string)
    requires AllBlank(blanks) && (s == [] || s[0] != ' ')
    ensures SkipBlanks(blanks + s) == s
  {
    if blanks == [] {
      assert blanks + s == s;
    } else {
      assert (blanks + s)[0] == blanks[0] && (blanks + s)[1..] == blanks[1..] + s;
      SkipsBlanks(blanks[1..], s);
    }
  }

  // Leading blanks, digits of the base, and then a blank, the end or a digit too large for the
  // base: the digits count.  Any other character behind them is an error.
  lemma {:induction false} NumberReads(blanks: string, ds: string, tail: string, base: nat)
    requires AllBlank(blanks) && AllDigits(ds, base)
    requires (tail == [] || !IsDigit(tail[0], base)) && (ds == [] && tail != [] ==> tail[0] != ' ')
    ensures Number(blanks + (ds + tail), base) ==
            if tail == [] || tail[0] == ' ' || '0' <= tail[0] <= '9' then Some(Value(ds, base)) else None
  {
    assert ds != [] ==> (ds + tail)[0] == ds[0];
    assert ds == [] ==> ds + tail == tail;
    SkipsBlanks(blanks, ds + tail);
    DigitsFrom(ds, [], tail, base);
    assert [] + ds == ds;
  }

  lemma {:induction false} DigitsFrom(ds: string, done: string, tail: string, base: nat)
    requires AllDigits(ds, base) && AllDigits(done, base)
    requires tail == [] || !IsDigit(tail[0], base)
    ensures Digits(ds + tail, base, Value(done, base)) ==
            if tail == [] || tail[0] == ' ' || '0' <= tail[0] <= '9' then Some(Value(done + ds, base)) else None
  {
    if ds == [] {
      assert ds + tail == tail && done + ds == done;
    } else {
      var done' := done + [ds[0]];
      assert done'[..|done|] == done;
      assert (ds + tail)[0] == ds[0] && (ds + tail)[1..] == ds[1..] + tail;
      assert done' + ds[1..] == done + ds;
      DigitsFrom(ds[1..], done', tail, base);
    }
  }

  // Every field has such a form.
  lemma FieldParts(s: string, base: nat) returns (blanks: string, ds: string, tail: string)
    ensures s == blanks + (ds + tail) && AllBlank(blanks) && AllDigits(ds, base)
    ensures (tail == [] || !IsDigit(tail[0], base)) && (ds == [] && tail != [] ==> tail[0] != ' ')
  {
    var i := 0;
    while i < |s| && s[i] == ' '
      invariant i <= |s| && forall k :: 0 <= k < i ==> s[k] == ' '
    {
      i := i + 1;
    }
    var j := i;
    while j < |s| && IsDigit(s[j], base)
      invariant i <= j <= |s| && forall k :: i <= k < j ==> IsDigit(s[k], base)
    {
      j := j + 1;
    }
    blanks, ds, tail := s[..i], s[i..j], s[j..];
  }

  lemma {:induction false} DigitsOfDecimal(n: nat, rest: string)
    ensures Digits(Decimal(n) + rest, 10, 0) == Digits(rest, 10, n)
    ensures Decimal(n) != [] && '0' <= Decimal(n)[0] <= '9'
  {
    var d := [('0' as int + n % 10) as char];
    assert (d + rest)[1..] == rest;
    if n < 10 {
      assert Decimal(n) + rest == d + rest;
    } else {
      DigitsOfDecimal(n / 10, d + rest);
      assert Decimal(n) + rest == Decimal(n / 10) + (d + rest);
    }
  }

  // Reading a field gives back the number written into it.
  lemma {:induction false} NumberRoundTrip(n: nat, blanks: string)
    requires forall c :: c in blanks ==> c == ' '
    ensures Number(Decimal(n) + blanks, 10) == Some(n)
  {
    DigitsOfDecimal(n, blanks);
    assert (Decimal(n) + blanks)[0] == Decimal(n)[0];
    assert blanks != [] ==> blanks[0] in blanks;
  }

  // ----- The format -----

  const SARMAG := 8
  const HEADER := 60

  // name is the raw field of the header; meta holds date, owner and mode.
  datatype Member = Member(name: string, meta: string, size: string, data: string)

  ghost predicate ValidMember(m: Member) {
    |m.name| == 16 && |m.meta| == 32 && |m.size| == 10 && Number(m.size, 10) == Some(|m.data|) && |m.data| > 0
  }

  function Even(n: nat): (r: nat)
    ensures r % 2 == 0 && n <= r <= n + 1
  {
    (n + 1) / 2 * 2
  }

  function Header(m: Member): string {
    m.name + (m.meta + (m.size + "`\n"))
  }

  function Padded(m: Member): string {
    Header(m) + (m.data + if |m.data| % 2 == 1 then "\n" else "")
  }

  // Where member i starts.
  function Offset(ms: seq<Member>, i: nat): nat
    requires i <= |ms|
  {
    if i == 0 then SARMAG else Offset(ms, i - 1) + HEADER + Even(|ms[i - 1].data|)
  }

  // The file ends with the last member; its padding may be missing.
  ghost predicate EndsWithLast(file: string, ms: seq<Member>) {
    |file| == Offset(ms, |ms|) || (ms != [] && |file| == Offset(ms, |ms|) - 1 && |ms[|ms| - 1].data| % 2 == 1)
  }

  ghost predicate Holds(file: string, s: nat, m: Member) {
    s + HEADER + |m.data| <= |file| &&
    file[s..s + HEADER] == Header(m) &&
    file[s + HEADER..s + HEADER + |m.data|] == m.data
  }

  // A file that holds these members.
  ghost predicate IsArchive(file: string, ms: seq<Member>) {
    EndsWithLast(file, ms) && forall i {:trigger HoldsAt(file, ms, i)} :: 0 <= i < |ms| ==> HoldsAt(file, ms, i)
  }

  ghost predicate HoldsAt(file: string, ms: seq<Member>, i: nat)
    requires i < |ms|
  {
    ValidMember(ms[i]) && Holds(file, Offset(ms, i), ms[i])
  }

  // ----- Reading -----

  // Fields of the header at position s.
  function NameAt(file: string, s: nat): string
    requires s + HEADER <= |file|
  {
    file[s..s + 16]
  }

  function SizeAt(file: string, s: nat): string
    requires s + HEADER <= |file|
  {
    file[s + 48..s + 58]
  }

  lemma HeaderFields(file: string, s: nat, m: Member)
    requires ValidMember(m) && Holds(file, s, m)
    ensures NameAt(file, s) == m.name && SizeAt(file, s) == m.size && file[s + 58] == '`' && file[s + 59] == '\n'
  {
    hide Header;
    HeaderParts(m);
    Slice(file, s, s + HEADER, 0, 16);
    Slice(file, s, s + HEADER, 48, 58);
    assert file[s..s + HEADER][58] == file[s + 58] && file[s..s + HEADER][59] == file[s + 59];
  }

  lemma HeaderParts(m: Member)
    requires ValidMember(m)
    ensures var h := Header(m); |h| == HEADER && h[0..16] == m.name && h[48..58] == m.size && h[58] == '`' && h[59] == '\n'
  {
    var tail := m.size + "`\n";
    assert m.meta + tail == (m.meta + tail)[..32] + tail;
    assert Header(m)[48..] == tail;
    assert Header(m)[48..58] == tail[..10] == m.size;
    assert Header(m)[58] == tail[10] && Header(m)[59] == tail[11];
  }

  lemma Slice<T>(s: seq<T>, a: nat, b: nat, c: nat, d: nat)
    requires a <= b <= |s| && c <= d <= b - a
    ensures s[a..b][c..d] == s[a + c..a + d]
  {
    var x, y := s[a..b][c..d], s[a + c..a + d];
    assert |x| == |y| && forall i :: 0 <= i < |x| ==> x[i] == y[i];
  }

  // Aborted: an assertion fails.  Overrun: a header is read that does not lie in the file.
  datatype Outcome = Opened | Failed | Aborted | Overrun

  // A stretch of the file.
  datatype Span = Span(offset: nat, size: nat)

  datatype Front = Front(outcome: Outcome, next: int, symtab: Option<Span>, strtab: Option<Span>)

  // The search for special members from position s on, when i members have been looked at.
  function SearchFront(file: string, s: nat, i: nat, symtab: Option<Span>, strtab: Option<Span>): Front
    requires i <= 2
    decreases 2 - i
  {
    if i == 2 then Front(Opened, s, symtab, strtab)
    else if s + HEADER > |file| || file[s + 58] != '`' || file[s + 59] != '\n' then Front(Failed, -1, symtab, strtab)
    else
      var name := NameAt(file, s);
      if name[0] != '/' then Front(Opened, s, symtab, strtab)
      else
        match Number(SizeAt(file, s), 10)
        case None => Front(Failed, -1, symtab, strtab)
        case Some(sz) =>
          if sz == 0 then Front(Aborted, -1, symtab, strtab)
          else
            var here := Some(Span(s + HEADER, sz));
            SearchFront(file, s + HEADER + Even(sz), i + 1,
                        if name[1] == ' ' then here else symtab,
                        if name[1] == '/' && name[2] == ' ' then here else strtab)
  }

  // ----- When the front of any file can be read -----

  predicate Readable(file: string, s: nat) {
    s + HEADER <= |file| && file[s + 58..s + 60] == "`\n"
  }

  predicate Slash(file: string, s: nat)
    requires Readable(file, s)
  {
    file[s] == '/'
  }

  function SizeOf(file: string, s: nat): Option<nat>
    requires Readable(file, s)
  {
    Number(SizeAt(file, s), 10)
  }

  // Where the member behind the one at s starts.
  function Behind(file: string, s: nat): nat
    requires Readable(file, s) && SizeOf(file, s).Some?
  {
    Even(s + HEADER + SizeOf(file, s).value)
  }

  // The member at s has a slash name and a size.
  predicate Skipped(file: string, s: nat) {
    Readable(file, s) && Slash(file, s) && SizeOf(file, s).Some? && SizeOf(file, s).value > 0
  }

  predicate EndsSearch(file: string, s: nat) {
    Readable(file, s) && !Slash(file, s)
  }

  lemma ReadableMeans(file: string, s: nat)
    ensures Readable(file, s) <==> s + HEADER <= |file| && file[s + 58] == '`' && file[s + 59] == '\n'
  {
    if s + HEADER <= |file| {
      assert file[s + 58..s + 60] == [file[s + 58], file[s + 59]];
    }
  }

  // The front of a file opens exactly if a first or second member without a slash name comes, or
  // two with one; then reading starts there.  It aborts exactly at a size of 0.
  lemma OpensIff(file: string)
    ensures var f := SearchFront(file, SARMAG, 0, None, None);
            && (f.outcome == Opened <==>
                  EndsSearch(file, SARMAG) ||
                  (Skipped(file, SARMAG) && (EndsSearch(file, Behind(file, SARMAG)) || Skipped(file, Behind(file, SARMAG)))))
            && (f.outcome == Opened ==>
                  f.next == if EndsSearch(file, SARMAG) then SARMAG
                            else if EndsSearch(file, Behind(file, SARMAG)) then Behind(file, SARMAG)
                            else Behind(file, Behind(file, SARMAG)))
            && (f.outcome == Aborted <==>
                  ZeroSized(file, SARMAG) || (Skipped(file, SARMAG) && ZeroSized(file, Behind(file, SARMAG))))
            && f.outcome != Overrun
  {
    hide Number, SizeAt, Readable;
    ReadableMeans(file, SARMAG);
    if Skipped(file, SARMAG) {
      ReadableMeans(file, Behind(file, SARMAG));
    }
  }

  predicate ZeroSized(file: string, s: nat) {
    Readable(file, s) && Slash(file, s) && SizeOf(file, s) == Some(0)
  }

  class Archive {
    const file: string
    // The cursor: where the next member starts, or 0 after the last one.
    var next: int
    var symtab: Option<Span>
    var strtab: Option<Span>

    constructor (file: string)
      ensures this.file == file && next == -1 && symtab == None && strtab == None
    {
      this.file, next, symtab, strtab := file, -1, None, None;
    }

    method Open() returns (r: Outcome)
      modifies this
      ensures Front(r, next, symtab, strtab) == SearchFront(file, SARMAG, 0, None, None)
    {
      next, symtab, strtab := -1, None, None;
      var s: nat := SARMAG;
      var i := 0;
      while i < 2
        invariant i <= 2 && next == -1
        invariant SearchFront(file, s, i, symtab, strtab) == SearchFront(file, SARMAG, 0, None, None)
      {
        if s + HEADER > |file| {
          return Failed;
        }
        if file[s + 58] != '`' || file[s + 59] != '\n' {
          return Failed;
        }
        var name := NameAt(file, s);
        if name[0] != '/' {
          break;
        }
        var sz := GetNumber(SizeAt(file, s), 10);
        if sz.None? {
          return Failed;
        }
        if sz.value == 0 {
          return Aborted;
        }
        s := s + HEADER;
        if name[1] == ' ' {
          symtab := Some(Span(s, sz.value));
        } else if name[1] == '/' && name[2] == ' ' {
          strtab := Some(Span(s, sz.value));
        }
        s := s + Even(sz.value);
        i := i + 1;
      }
      next := s;
      r := Opened;
    }

    // accept says which stretches of the file can be opened as descriptors.
    method OpenMember(accept: Span -> bool) returns (r: Outcome, member: Span)
      requires next >= 0
      ensures r == Opened ==> next != 0 && next % 2 == 0 && next + HEADER <= |file| && member.size > 0 && accept(member)
      ensures r == Opened ==> member.offset == next + HEADER && Some(member.size) == Number(SizeAt(file, next), 10)
      ensures r == Overrun <==> next != 0 && next % 2 == 0 && next + HEADER > |file|
      ensures r == Aborted ==> next % 2 != 0 || (next != 0 && next + HEADER <= |file| && Number(SizeAt(file, next), 10) == Some(0))
      ensures r == Failed ==> next == 0 || (next % 2 == 0 && next + HEADER <= |file| && (Number(SizeAt(file, next), 10).None? ||
                              !accept(Span(next + HEADER, Number(SizeAt(file, next), 10).value))))
    {
      member := Span(0, 0);
      if next == 0 {
        return Failed, member;
      }
      if next % 2 != 0 {
        return Aborted, member;
      }
      if next + HEADER > |file| {
        return Overrun, member;
      }
      var sz := GetNumber(SizeAt(file, next), 10);
      if sz.None? {
        return Failed, member;
      }
      if sz.value == 0 {
        return Aborted, member;
      }
      member := Span(next + HEADER, sz.value);
      if !accept(member) {
        return Failed, member;
      }
      r := Opened;
    }

    method Advance(member: Span)
      modifies this`next
      ensures next == if Even(member.offset + member.size) >= |file| then 0 else Even(member.offset + member.size)
    {
      var n := member.offset + member.size;
      n := (n + 1) / 2 * 2;
      next := if n >= |file| then 0 else n;
    }

    // What a client does: open a member, go to the next, until no member can be opened.
    method Visit(accept: Span -> bool, ghost ms: seq<Member>, ghost k: nat) returns (visited: seq<Span>, last: Outcome)
      requires IsArchive(file, ms) && k <= |ms| && next == Offset(ms, k)
      modifies this`next
      ensures visited == Spans(ms, k, Stop(ms, k, accept))
      ensures last == if k == |ms| then Overrun else Failed
      ensures k < |ms| ==> next == if Stop(ms, k, accept) == |ms| then 0 else Offset(ms, Stop(ms, k, accept))
    {
      hide IsArchive, Offset, Number;
      visited := [];
      ghost var i := k;
      last := Opened;
      OffsetEven(ms, k);
      PastEnd(file, ms);
      while last == Opened
        invariant k <= i <= |ms| && visited == Spans(ms, k, i)
        invariant Stop(ms, i, accept) == Stop(ms, k, accept)
        invariant next == if i == |ms| && k < |ms| then 0 else Offset(ms, i)
        invariant last != Opened ==> i == Stop(ms, k, accept) && last == if k == |ms| then Overrun else Failed
        decreases |ms| - i, last == Opened
      {
        OffsetEven(ms, i);
        if i < |ms| {
          MemberAt(file, ms, i);
        }
        var member;
        last, member := OpenMember(accept);
        if last == Opened {
          visited := visited + [member];
          EndOfMember(file, ms, i);
          Advance(member);
          i := i + 1;
        }
      }
    }
  }

  // ----- Going through an archive -----

  function SpanOf(ms: seq<Member>, i: nat): Span
    requires i < |ms|
  {
    Span(Offset(ms, i) + HEADER, |ms[i].data|)
  }

  function Spans(ms: seq<Member>, k: nat, j: nat): (r: seq<Span>)
    requires k <= j <= |ms|
    ensures |r| == j - k && forall i :: 0 <= i < |r| ==> r[i] == SpanOf(ms, k + i)
  {
    if k == j then [] else Spans(ms, k, j - 1) + [SpanOf(ms, j - 1)]
  }

  // The first member from k on that is not accepted.
  ghost function Stop(ms: seq<Member>, k: nat, accept: Span -> bool): (i: nat)
    requires k <= |ms|
    ensures k <= i <= |ms|
    decreases |ms| - k
  {
    if k == |ms| || !accept(SpanOf(ms, k)) then k else Stop(ms, k + 1, accept)
  }

  lemma MemberAt(file: string, ms: seq<Member>, i: nat)
    requires IsArchive(file, ms) && i < |ms|
    ensures var s := Offset(ms, i);
            s % 2 == 0 && s > 0 && s + HEADER <= |file| && Number(SizeAt(file, s), 10) == Some(|ms[i].data|) && |ms[i].data| > 0
    ensures NameAt(file, Offset(ms, i)) == ms[i].name
    ensures file[Offset(ms, i) + 58] == '`' && file[Offset(ms, i) + 59] == '\n'
  {
    hide Header, Number, Offset;
    assert HoldsAt(file, ms, i);
    OffsetEven(ms, i);
    HeaderFields(file, Offset(ms, i), ms[i]);
  }

  // Members start at even offsets.
  lemma {:induction false} OffsetEven(ms: seq<Member>, i: nat)
    requires i <= |ms|
    ensures Offset(ms, i) % 2 == 0 && Offset(ms, i) >= SARMAG
  {
    if i > 0 {
      OffsetEven(ms, i - 1);
    }
  }

  lemma {:induction false} OffsetGrows(ms: seq<Member>, i: nat, j: nat)
    requires i < j <= |ms|
    ensures Offset(ms, i) + HEADER + |ms[i].data| <= Offset(ms, j)
  {
    if i < j - 1 {
      OffsetGrows(ms, i, j - 1);
    }
  }

  lemma {:induction false} PastEnd(file: string, ms: seq<Member>)
    requires IsArchive(file, ms)
    ensures Offset(ms, |ms|) + HEADER > |file|
  {
    hide HoldsAt, Offset;
  }

  lemma EndOfMember(file: string, ms: seq<Member>, i: nat)
    requires IsArchive(file, ms) && i < |ms|
    ensures Even(Offset(ms, i) + HEADER + |ms[i].data|) == Offset(ms, i + 1)
    ensures Offset(ms, i + 1) >= |file| <==> i + 1 == |ms|
  {
    hide HoldsAt;
    OffsetEven(ms, i);
    if i + 1 < |ms| {
      hide Offset;
      OffsetGrows(ms, i + 1, |ms|);
    }
  }

  // ----- The members at the front -----

  // How many of the first two members have a name that starts with a slash.
  function Leading(ms: seq<Member>): (k: nat)
    requires forall m :: m in ms ==> |m.name| == 16
    ensures k <= 2 && k <= |ms|
  {
    if ms == [] || ms[0].name[0] != '/' then 0
    else if |ms| == 1 || ms[1].name[0] != '/' then 1
    else 2
  }

  // The search stops at the first member that is not skipped.  Without such a member it fails,
  // except behind two special members, where it stops at the end of the file.
  lemma {:induction false} OpenFindsFirst(file: string, ms: seq<Member>)
    requires IsArchive(file, ms) && forall m :: m in ms ==> |m.name| == 16
    ensures var f := SearchFront(file, SARMAG, 0, None, None);
            f.outcome == (if Leading(ms) < |ms| || |ms| == 2 then Opened else Failed) &&
            (f.outcome == Opened ==> f.next == Offset(ms, Leading(ms)))
  {
    hide IsArchive, Number, NameAt, SizeAt;
    PastEnd(file, ms);
    if |ms| > 0 {
      MemberAt(file, ms, 0);
    }
    if |ms| > 1 && Leading(ms) > 0 {
      MemberAt(file, ms, 1);
    }
  }

  // t is the stretch of the last of the first k members whose name starts with the given text.
  ghost predicate IsTable(file: string, ms: seq<Member>, k: nat, start: string, t: Option<Span>)
    requires k <= |ms|
  {
    match t
    case None => forall i :: 0 <= i < k ==> !(start <= ms[i].name)
    case Some(span) => exists i :: 0 <= i < k && IsTableAt(file, ms, k, start, span, i)
  }

  ghost predicate IsTableAt(file: string, ms: seq<Member>, k: nat, start: string, span: Span, i: nat)
    requires i < k <= |ms|
  {
    start <= ms[i].name && span == SpanOf(ms, i) && (forall j :: i < j < k ==> !(start <= ms[j].name)) &&
    span.offset + span.size <= |file| && file[span.offset..span.offset + span.size] == ms[i].data
  }

  lemma SlashNames(name: string)
    requires |name| == 16
    ensures "/ " <= name <==> name[0] == '/' && name[1] == ' '
    ensures "// " <= name <==> name[0] == '/' && name[1] == '/' && name[2] == ' '
  {
    assert "/ "[0] == '/' && "/ "[1] == ' ';
    assert "// "[0] == '/' && "// "[1] == '/' && "// "[2] == ' ';
  }

  // In every archive that opens, the symbol table is the data of the skipped member named "/ ", and
  // the table of long names that of the one named "// "; the last one if both have the name.
  lemma {:induction false} TablesFound(file: string, ms: seq<Member>)
    requires IsArchive(file, ms) && forall m :: m in ms ==> |m.name| == 16
    ensures var f := SearchFront(file, SARMAG, 0, None, None);
            f.outcome == Opened ==>
              IsTable(file, ms, Leading(ms), "/ ", f.symtab) && IsTable(file, ms, Leading(ms), "// ", f.strtab)
  {
    hide IsArchive, Number, NameAt, SizeAt, IsTableAt;
    PastEnd(file, ms);
    if |ms| > 0 {
      MemberAt(file, ms, 0);
      SlashNames(ms[0].name);
      TableAt(file, ms, Leading(ms), "/ ", 0);
      TableAt(file, ms, Leading(ms), "// ", 0);
    }
    if |ms| > 1 && Leading(ms) > 0 {
      MemberAt(file, ms, 1);
      SlashNames(ms[1].name);
      TableAt(file, ms, Leading(ms), "/ ", 1);
      TableAt(file, ms, Leading(ms), "// ", 1);
    }
  }

  lemma TableAt(file: string, ms: seq<Member>, k: nat, start: string, i: nat)
    requires IsArchive(file, ms) && i < |ms| && k <= |ms|
    ensures i < k && start <= ms[i].name && (forall j :: i < j < k ==> !(start <= ms[j].name)) ==>
              IsTableAt(file, ms, k, start, SpanOf(ms, i), i)
  {
    hide IsArchive;
    VisitsData(file, ms, i);
  }

  // Where reading starts there is a header in the file exactly if a member is left.
  lemma {:induction false} StartsInsideIff(file: string, ms: seq<Member>)
    requires IsArchive(file, ms) && forall m :: m in ms ==> |m.name| == 16
    ensures Offset(ms, Leading(ms)) + HEADER <= |file| <==> Leading(ms) < |ms|
  {
    hide IsArchive, Offset;
    PastEnd(file, ms);
    if Leading(ms) < |ms| {
      MemberAt(file, ms, Leading(ms));
    }
  }

  // ----- Complete iteration -----

  // The symbol table and the string table of an archive.
  predicate Special(m: Member)
    requires |m.name| == 16
  {
    m.name[0] == '/' && (m.name[1] == ' ' || (m.name[1] == '/' && m.name[2] == ' '))
  }

  // With k special members in front of ordinary ones, reading starts at the first ordinary
  // member exactly when both tables are there or its name does not start with a slash.
  lemma StartsAtFirstOrdinary(ms: seq<Member>, k: nat)
    requires k <= 2 && k < |ms| && forall m :: m in ms ==> |m.name| == 16
    requires forall i :: 0 <= i < |ms| ==> |ms[i].name| == 16 && (Special(ms[i]) <==> i < k)
    ensures Leading(ms) == k <==> k == 2 || ms[k].name[0] != '/'
  {
    assert Special(ms[0]) <==> 0 < k;
    if |ms| > 1 {
      assert Special(ms[1]) <==> 1 < k;
    }
  }

  // Members are visited in order, each at an even offset behind the one before it.
  lemma VisitsInOrder(ms: seq<Member>, i: nat, j: nat)
    requires i < j < |ms|
    ensures SpanOf(ms, i).offset % 2 == 0 && SpanOf(ms, j).offset % 2 == 0
    ensures SpanOf(ms, i).offset + SpanOf(ms, i).size <= SpanOf(ms, j).offset - HEADER
  {
    hide Offset;
    OffsetEven(ms, i);
    OffsetEven(ms, j);
    OffsetGrows(ms, i, j);
  }

  // The bytes visited are the data of the member.
  lemma VisitsData(file: string, ms: seq<Member>, i: nat)
    requires IsArchive(file, ms) && i < |ms|
    ensures var s := SpanOf(ms, i); s.offset + s.size <= |file| && file[s.offset..s.offset + s.size] == ms[i].data
  {
    assert HoldsAt(file, ms, i);
  }

  // Opening an archive and going through it visits every member from the first one that is not
  // skipped, up to the first that is not accepted.  With two members that are both skipped the
  // first header read lies behind the file, with fewer the archive does not open.
  method ReadArchive(file: string, accept: Span -> bool, ghost ms: seq<Member>) returns (r: Outcome, visited: seq<Span>, last: Outcome)
    requires IsArchive(file, ms) && forall m :: m in ms ==> |m.name| == 16
    ensures r == if Leading(ms) < |ms| || |ms| == 2 then Opened else Failed
    ensures r == Opened ==> visited == Spans(ms, Leading(ms), Stop(ms, Leading(ms), accept))
    ensures r == Opened ==> last == if Leading(ms) == |ms| then Overrun else Failed
  {
    hide IsArchive, SearchFront, Offset;
    var archive := new Archive(file);
    OpenFindsFirst(file, ms);
    r := archive.Open();
    visited, last := [], Failed;
    if r == Opened {
      visited, last := archive.Visit(accept, ms, Leading(ms));
    }
  }

  // ----- Writing an archive -----

  function Written(ms: seq<Member>): string {
    if ms == [] then "!<arch>\n" else Written(ms[..|ms| - 1]) + Padded(ms[|ms| - 1])
  }

  lemma {:induction false} OffsetPrefix(ms: seq<Member>, n: nat, i: nat)
    requires i <= n <= |ms|
    ensures Offset(ms[..n], i) == Offset(ms, i)
  {
    if i > 0 {
      OffsetPrefix(ms, n, i - 1);
    }
  }

  lemma PaddedLength(m: Member)
    requires ValidMember(m)
    ensures |Padded(m)| == HEADER + Even(|m.data|)
  {
    HeaderParts(m);
  }

  lemma HoldsExtended(file: string, more: string, s: nat, m: Member)
    requires Holds(file, s, m)
    ensures Holds(file + more, s, m)
  {
    assert (file + more)[s..s + HEADER] == file[s..s + HEADER];
    assert (file + more)[s + HEADER..s + HEADER + |m.data|] == file[s + HEADER..s + HEADER + |m.data|];
  }

  lemma HoldsNew(file: string, m: Member)
    requires ValidMember(m)
    ensures Holds(file + Padded(m), |file|, m)
  {
    HeaderParts(m);
    var h, pad := Header(m), if |m.data| % 2 == 1 then "\n" else "";
    var all := file + Padded(m);
    assert all == file + h + m.data + pad;
    assert all[|file|..|file| + HEADER] == h;
    assert all[|file| + HEADER..|file| + HEADER + |m.data|] == m.data;
  }

  // What the archiver writes is an archive of the members written.
  lemma {:induction false} WrittenIsArchive(ms: seq<Member>)
    requires forall i :: 0 <= i < |ms| ==> ValidMember(ms[i])
    ensures IsArchive(Written(ms), ms) && |Written(ms)| == Offset(ms, |ms|)
  {
    if ms != [] {
      var n := |ms| - 1;
      var file := Written(ms[..n]);
      WrittenIsArchive(ms[..n]);
      OffsetPrefix(ms, n, n);
      PaddedLength(ms[n]);
      forall i | 0 <= i < |ms|
        ensures HoldsAt(Written(ms), ms, i)
      {
        if i < n {
          assert HoldsAt(file, ms[..n], i);
          OffsetPrefix(ms, n, i);
          HoldsExtended(file, Padded(ms[n]), Offset(ms, i), ms[i]);
        } else {
          HoldsNew(file, ms[n]);
        }
      }
    }
  }
}
