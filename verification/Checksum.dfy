/**
 The Internet checksum: the unrolled loop that adds 16-bit words, and the folding of the carries.
 Memory is a sequence of bytes from the start of the buffer on; words are read in the byte order
 of the host.
 */
module Checksum {
  import opened Arithmetic

  const INT_MAX := 0x7fff_ffff

  type byte = b: nat | b < 256

  // ----- Words -----

  function Pair(first: byte, second: byte, big: bool): (w: nat)
    ensures w < 65536
  {
    if big then 256 * first + second else first + 256 * second
  }

  function Word(mem: seq<byte>, i: nat, big: bool): (w: nat)
    requires 2 * i + 1 < |mem|
    ensures w < 65536
  {
    Pair(mem[2 * i], mem[2 * i + 1], big)
  }

  function SumWords(mem: seq<byte>, k: nat, big: bool): (s: nat)
    requires 2 * k <= |mem|
    ensures s <= 65535 * k
  {
    if k == 0 then 0 else SumWords(mem, k - 1, big) + Word(mem, k - 1, big)
  }

  // The sum that the standard asks for: the words of the buffer, the last byte of an odd buffer
  // being followed by a zero byte.
  function PlainSum(buf: seq<byte>, big: bool): (s: nat)
    ensures s <= 65535 * ((|buf| + 1) / 2)
  {
    SumWords(buf, |buf| / 2, big) + if |buf| % 2 == 1 then Pair(buf[|buf| - 1], 0, big) else 0
  }

  // The words that the unrolled loop adds: those of the buffer, but sixteen if it has none.
  function WordsRead(len: nat): nat {
    if len / 2 == 0 then 16 else len / 2
  }

  // What it adds, with the last byte of an odd buffer.
  function ReadSum(mem: seq<byte>, len: nat, big: bool): (s: nat)
    requires 2 * WordsRead(len) + len % 2 <= |mem|
    ensures s <= 65535 * (WordsRead(len) + len % 2)
  {
    SumWords(mem, WordsRead(len), big) + if len % 2 == 1 then Pair(mem[2 * WordsRead(len)], 0, big) else 0
  }

  // htons on the host.
  function Htons(x: nat, big: bool): nat
    requires x < 65536
  {
    if big then x else x % 256 * 256 + x / 256
  }

  // The loop is entered in the middle: the first turn adds sn % 16 words, or 16 when that is 0.
  method CksumAdd(mem: seq<byte>, len: nat, cksum0: nat, big: bool) returns (cksum: int)
    requires 2 * WordsRead(len) + len % 2 <= |mem|
    requires cksum0 + 65535 * (WordsRead(len) + len % 2) <= INT_MAX
    ensures cksum == cksum0 + ReadSum(mem, len, big)
    ensures 0 <= cksum <= INT_MAX
  {
    var sn := len / 2;
    var n := (sn + 15) / 16;
    var sp := 0;
    cksum := cksum0;
    var turn := if sn % 16 == 0 then 16 else sn % 16;
    var again := true;
    while again
      invariant sp <= WordsRead(len) && cksum == cksum0 + SumWords(mem, sp, big)
      invariant again ==> turn >= 1 && sp + turn + 16 * (if n > 0 then n - 1 else 0) == WordsRead(len)
      invariant again ==> n >= 0
      invariant !again ==> sp == WordsRead(len)
      decreases if again then n + 1 else 0
    {
      var left := turn;
      while left > 0
        invariant 0 <= left && sp + left + 16 * (if n > 0 then n - 1 else 0) == WordsRead(len)
        invariant cksum == cksum0 + SumWords(mem, sp, big)
      {
        cksum := cksum + Word(mem, sp, big);
        sp := sp + 1;
        left := left - 1;
      }
      turn := 16;
      n := n - 1;
      again := n > 0;
    }
    if len % 2 == 1 {
      var last: nat := mem[2 * sp];
      cksum := cksum + Htons(last * 256, big);
    }
  }

  // For a buffer of at least one word the loop computes the plain sum.
  lemma PlainWhenLong(mem: seq<byte>, len: nat, big: bool)
    requires 2 <= len <= |mem|
    ensures ReadSum(mem, len, big) == PlainSum(mem[..len], big)
  {
    SumPrefix(mem, len, len / 2, big);
  }

  lemma {:induction false} SumPrefix(mem: seq<byte>, len: nat, k: nat, big: bool)
    requires 2 * k <= len <= |mem|
    ensures SumWords(mem, k, big) == SumWords(mem[..len], k, big)
  {
    if k > 0 {
      SumPrefix(mem, len, k - 1, big);
    }
  }

  // For a shorter one it depends on what lies behind the buffer.
  lemma ShortReadsOn(len: nat, big: bool) returns (mem: seq<byte>)
    requires len < 2
    ensures 2 * WordsRead(len) + len % 2 <= |mem|
    ensures ReadSum(mem, len, big) != PlainSum(mem[..len], big)
  {
    mem := seq(33, i => if i == 2 then 1 else 0);
    SumAtLeast(mem, 1, 16, big);
    assert Word(mem, 1, big) > 0;
    assert SumWords(mem[..len], 0, big) == 0;
  }

  lemma {:induction false} SumAtLeast(mem: seq<byte>, i: nat, k: nat, big: bool)
    requires i < k && 2 * k <= |mem|
    ensures SumWords(mem, k, big) >= Word(mem, i, big)
  {
    if i < k - 1 {
      SumAtLeast(mem, i, k - 1, big);
    }
  }

  // ----- Folding -----

  // The 16-bit ones' complement sum that a sum of words stands for.
  function Ones(x: nat): (o: nat)
    ensures o <= 65535 && (o == 0 <==> x == 0)
  {
    if x == 0 then 0 else (x - 1) % 65535 + 1
  }

  lemma OnesUnique(x: nat, q: int, v: nat)
    requires x == q * 65535 + v && 1 <= v <= 65535 && x > 0
    ensures Ones(x) == v
  {
    DivModUnique(x - 1, 65535, q, v - 1);
  }

  // Shifts, masks and complement, on the non-negative values of an int.
  function CksumCarry(x: nat): (c: nat)
    requires x <= INT_MAX
    ensures c == 65535 - Ones(x)
  {
    var y := x / 65536 + x % 65536;
    FoldIsOnes(x);
    65535 - (y + y / 65536) % 65536
  }

  lemma FoldIsOnes(x: nat)
    requires x <= INT_MAX
    ensures var y := x / 65536 + x % 65536; (y + y / 65536) % 65536 == Ones(x)
  {
    var y := x / 65536 + x % 65536;
    assert x == x / 65536 * 65535 + y;
    if 0 < y < 65536 {
      OnesUnique(x, x / 65536, y);
    } else if y >= 65536 {
      OnesUnique(x, x / 65536 + 1, y - 65535);
    }
  }

  // ----- What the checksum is for -----

  function Checksum(buf: seq<byte>, big: bool): (c: nat)
    requires |buf| <= 65535
    ensures c <= 65535
  {
    CksumCarry(PlainSum(buf, big))
  }

  // The checksum of a buffer, as the protocol code computes it.
  method Cksum(mem: seq<byte>, len: nat, big: bool) returns (c: nat)
    requires len <= 65535 && 2 * WordsRead(len) + len % 2 <= |mem|
    ensures c == 65535 - Ones(ReadSum(mem, len, big))
    ensures 2 <= len ==> c == Checksum(mem[..len], big)
  {
    var sum := CksumAdd(mem, len, 0, big);
    if 2 <= len {
      PlainWhenLong(mem, len, big);
    }
    c := CksumCarry(sum);
  }

  // Storing a word in the byte order of the host.
  function Store(buf: seq<byte>, k: nat, w: nat, big: bool): (r: seq<byte>)
    requires 2 * k + 1 < |buf| && w < 65536
    ensures |r| == |buf| && Word(r, k, big) == w
  {
    if big then buf[2 * k := w / 256][2 * k + 1 := w % 256] else buf[2 * k := w % 256][2 * k + 1 := w / 256]
  }

  lemma {:induction false} SumStored(buf: seq<byte>, k: nat, w: nat, big: bool, n: nat)
    requires 2 * k + 1 < |buf| && w < 65536 && 2 * n <= |buf| && Word(buf, k, big) == 0
    ensures SumWords(Store(buf, k, w, big), n, big) == SumWords(buf, n, big) + if k < n then w else 0
  {
    if n > 0 {
      SumStored(buf, k, w, big, n - 1);
    }
  }

  // A buffer that holds its checksum in a word that was zero when the checksum was computed
  // has checksum zero.
  lemma StoredChecksumVerifies(buf: seq<byte>, k: nat, big: bool)
    requires 2 * k + 1 < |buf| <= 65535 && Word(buf, k, big) == 0
    ensures Checksum(Store(buf, k, Checksum(buf, big), big), big) == 0
  {
    var s := PlainSum(buf, big);
    var c := Checksum(buf, big);
    SumStored(buf, k, c, big, |buf| / 2);
    assert PlainSum(Store(buf, k, c, big), big) == s + c;
    if s == 0 {
      OnesUnique(s + c, 0, 65535);
    } else {
      assert s == (s - 1) / 65535 * 65535 + Ones(s);
      OnesUnique(s + c, (s - 1) / 65535, 65535);
    }
  }

  function Swap(w: nat): (s: nat)
    requires w < 65536
    ensures s < 65536
  {
    w % 256 * 256 + w / 256
  }

  // Sum of the bytes that count 256 times on a big host.
  ghost function Highs(mem: seq<byte>, k: nat): nat
    requires 2 * k <= |mem|
  {
    if k == 0 then 0 else Highs(mem, k - 1) + mem[2 * k - 1]
  }

  lemma {:induction false} SumSwapped(mem: seq<byte>, k: nat)
    requires 2 * k <= |mem|
    ensures SumWords(mem, k, true) == 256 * SumWords(mem, k, false) - 65535 * Highs(mem, k)
  {
    if k > 0 {
      SumSwapped(mem, k - 1);
    }
  }

  lemma OnesSwapped(little: nat, big: nat, h: int)
    requires big == 256 * little - 65535 * h && (little == 0 <==> big == 0)
    ensures Ones(big) == Swap(Ones(little))
  {
    if little > 0 {
      var q, o := (little - 1) / 65535, Ones(little);
      assert little == q * 65535 + o;
      assert o == o / 256 * 256 + o % 256;
      assert big == (256 * q - h + o / 256) * 65535 + Swap(o);
      OnesUnique(big, 256 * q - h + o / 256, Swap(o));
    }
  }

  lemma {:induction false} ZeroOnBoth(mem: seq<byte>, k: nat)
    requires 2 * k <= |mem|
    ensures SumWords(mem, k, true) == 0 <==> SumWords(mem, k, false) == 0
  {
    if k > 0 {
      ZeroOnBoth(mem, k - 1);
    }
  }

  // Hosts of either byte order compute the same two bytes.
  lemma ByteOrderIndependent(buf: seq<byte>)
    requires |buf| <= 65535
    ensures Checksum(buf, true) == Swap(Checksum(buf, false))
  {
    var k := |buf| / 2;
    SumSwapped(buf, k);
    ZeroOnBoth(buf, k);
    OnesSwapped(PlainSum(buf, false), PlainSum(buf, true), Highs(buf, k));
    SwapComplement(Ones(PlainSum(buf, false)));
  }

  lemma SwapComplement(o: nat)
    requires o <= 65535
    ensures 65535 - Swap(o) == Swap(65535 - o)
  {
    DivModUnique(65535 - o, 256, 255 - o / 256, 255 - o % 256);
  }

  // The buffer with the two bytes of every word exchanged.
  function Exchanged(buf: seq<byte>): (r: seq<byte>)
    requires |buf| % 2 == 0
    ensures |r| == |buf|
  {
    seq(|buf|, i requires 0 <= i < |buf| => if i % 2 == 0 then buf[i + 1] else buf[i - 1])
  }

  lemma {:induction false} SumExchanged(buf: seq<byte>, k: nat, big: bool)
    requires |buf| % 2 == 0 && 2 * k <= |buf|
    ensures SumWords(Exchanged(buf), k, big) == SumWords(buf, k, !big)
  {
    hide Exchanged;
    if k > 0 {
      SumExchanged(buf, k - 1, big);
      WordExchanged(buf, k - 1, big);
    }
  }

  lemma WordExchanged(buf: seq<byte>, i: nat, big: bool)
    requires |buf| % 2 == 0 && 2 * i + 1 < |buf|
    ensures Word(Exchanged(buf), i, big) == Word(buf, i, !big)
  {
  }

  // Exchanging the bytes of every word exchanges the bytes of the checksum.
  lemma ExchangedChecksum(buf: seq<byte>, big: bool)
    requires |buf| <= 65535 && |buf| % 2 == 0
    ensures Checksum(Exchanged(buf), big) == Swap(Checksum(buf, big))
  {
    SumExchanged(buf, |buf| / 2, big);
    ByteOrderIndependent(buf);
    SwapTwice(Checksum(buf, false));
  }

  lemma SwapTwice(w: nat)
    requires w < 65536
    ensures Swap(Swap(w)) == w
  {
    DivModUnique(Swap(w), 256, w % 256, w / 256);
  }
}
