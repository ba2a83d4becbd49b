/** The checksum of IP headers in iptools/loop_lib.c. */
module Checksum {

  type Byte = x: int | 0 <= x < 256

  /** The sum of 16 bit words as a little endian machine reads them; an odd byte at the
      end counts as itself. */
  function Words(s: seq<Byte>): (r: nat)
    ensures r <= (|s| + 1) / 2 * 0xFFFF
  {
    if s == [] then 0
    else if |s| == 1 then s[0]
    else s[0] + 0x100 * s[1] + Words(s[2..])
  }

  /** The same in network order; an odd byte is followed by a zero. */
  function NetWords(s: seq<Byte>): (r: nat) {
    if s == [] then 0
    else if |s| == 1 then 0x100 * s[0]
    else 0x100 * s[0] + s[1] + NetWords(s[2..])
  }

  /** Addition with the carries brought around, as in section 1 of RFC 1071. */
  function Fold(n: nat): (r: nat)
    ensures r < 0x10000
    decreases n
  {
    if n < 0x10000 then n else Fold(n % 0x10000 + n / 0x10000)
  }

  lemma ModMultiple(a: nat, q: nat)
    ensures (a + 0xFFFF * q) % 0xFFFF == a % 0xFFFF
  {
    if q > 0 {
      ModMultiple(a, q - 1);
      assert a + 0xFFFF * q == (a + 0xFFFF * (q - 1)) + 0xFFFF;
    }
  }

  /** The one's complement value of a sum: the remainder modulo 0xFFFF, and of the two
      zeros the one with all bits set unless nothing was added. */
  lemma {:induction false} FoldMeaning(n: nat)
    ensures Fold(n) % 0xFFFF == n % 0xFFFF
    ensures Fold(n) == 0 <==> n == 0
    decreases n
  {
    if n >= 0x10000 {
      var q, r := n / 0x10000, n % 0x10000;
      FoldMeaning(r + q);
      ModMultiple(r + q, q);
      assert n == r + q + 0xFFFF * q;
    }
  }

  /** An int of 32 bits. */
  function Wrap32(n: int): (r: int)
    ensures -0x8000_0000 <= r < 0x8000_0000
    ensures -0x8000_0000 <= n < 0x8000_0000 ==> r == n
  {
    (n + 0x8000_0000) % 0x1_0000_0000 - 0x8000_0000
  }

  /** The accumulator, after it took in the words of sum `taken`: it fell by one with
      each of the wraps, and by multiples of 0xFFFF. */
  ghost predicate Accumulates(sum: int, taken: nat, wraps: nat, folds: int) {
    && -0x8000_0000 <= sum < 0x8000_0000
    && sum == taken - wraps - 0xFFFF * folds
    && (wraps == 0 ==> sum == taken)
    && (wraps > 0 ==> taken >= 0x8000_0000)
  }

  /** A wrap needs many words: what is taken in pays for all of them. */
  ghost predicate Paid(sum: int, words: nat, wraps: nat) {
    (if sum < 0 then 0x10000 else sum) + wraps * 0x7FFF_0000 <= 0xFFFF * words
  }

  /** One addition in 32 bits. */
  lemma Adds(sum: int, taken: nat, wraps: nat, folds: int, w: nat) returns (wraps': nat, folds': int)
    requires Accumulates(sum, taken, wraps, folds) && w <= 0xFFFF
    ensures Accumulates(Wrap32(sum + w), taken + w, wraps', folds')
    ensures wraps' == if sum + w >= 0x8000_0000 then wraps + 1 else wraps
  {
    wraps', folds' := wraps, folds;
    if sum + w >= 0x8000_0000 {
      wraps', folds' := wraps + 1, folds + 0x10001;
    }
  }

  /** One fold. */
  lemma Folds(sum: int, taken: nat, wraps: nat, folds: int)
    requires Accumulates(sum, taken, wraps, folds) && sum < 0
    ensures Accumulates(sum % 0x10000 + sum / 0x10000, taken, wraps, folds + sum / 0x10000)
  {
  }

  /** What is left of a word in the accumulator, folded when it is negative. */
  lemma StaysPaid(sum: int, words: nat, wraps: nat, w: nat)
    requires Paid(sum, words, wraps) && -0x8000 <= sum < 0x8000_0000 && w <= 0xFFFF
    ensures var n := Wrap32(sum + w);
            var after := if n < 0 then n % 0x10000 + n / 0x10000 else n;
            && -0x8000 <= after < 0x8000_0000
            && Paid(after, words + 1, if sum + w >= 0x8000_0000 then wraps + 1 else wraps)
  {
    if sum + w >= 0x8000_0000 {
      var n := Wrap32(sum + w);
      assert n == sum + w - 0x1_0000_0000 && n / 0x10000 == -0x8000;
    }
  }

  /** The accumulator after one word. */
  function Next(sum: int, w: nat): int {
    var n := Wrap32(sum + w);
    if n < 0 then n % 0x10000 + n / 0x10000 else n
  }

  /** What holds between words. */
  ghost predicate Between(sum: int, taken: nat, words: nat, wraps: nat, folds: int) {
    Accumulates(sum, taken, wraps, folds) && -0x8000 <= sum && Paid(sum, words, wraps)
  }

  lemma TakesWord(sum: int, taken: nat, words: nat, wraps: nat, folds: int, w: nat) returns (wraps': nat, folds': int)
    requires Between(sum, taken, words, wraps, folds) && w <= 0xFFFF
    ensures Between(Next(sum, w), taken + w, words + 1, wraps', folds')
  {
    hide Paid;
    StaysPaid(sum, words, wraps, w);
    wraps', folds' := Adds(sum, taken, wraps, folds, w);
    var n := Wrap32(sum + w);
    if n < 0 {
      Folds(n, taken + w, wraps', folds');
      folds' := folds' + n / 0x10000;
    }
  }

  /** The end of the sum: right exactly when there was no wrap. */
  lemma RightWithoutWrap(sum: int, taken: nat, wraps: nat, folds: int)
    requires sum == taken - wraps - 0xFFFF * folds && 0 <= sum < 0x10000 && wraps < 0xFFFF
    requires wraps == 0 ==> sum == Fold(taken)
    ensures sum == Fold(taken) <==> wraps == 0
  {
    FoldMeaning(taken);
    if sum == Fold(taken) {
      var q, f := taken / 0xFFFF, Fold(taken) / 0xFFFF;
      assert wraps == 0xFFFF * (q - f - folds);
    }
  }

  /** ip_cksum, of every int as length, of which a negative one stands for the first
      byte.  Else the result is the complement of the folded sum if and only if the
      plain sum of the words does not reach the sign bit of the accumulator. */
  method IpCksum(ip: array<Byte>, len: int) returns (r: nat)
    requires 12 <= ip.Length && -0x8000_0000 <= len < 0x8000_0000 && len <= ip.Length
    modifies ip
    ensures ip[..] == old(ip[..])[10 := 0][11 := 0] && r < 0x10000
    ensures len < 0 ==> r == 0xFFFF - (ip[0] as int)
    ensures len >= 0 ==> (r == 0xFFFF - Fold(Words(ip[..len])) <==> Words(ip[..len]) < 0x8000_0000)
  {
    hide Words, Fold, Accumulates, Paid, Between, Wrap32;
    ip[10], ip[11] := 0, 0;
    var sum, left, i := 0, len, 0;
    ghost var packet := ip[..];
    ghost var s := packet[..if len < 0 then 1 else len];
    assert ip[..|s|] == s;
    ghost var taken: nat, wraps: nat, folds: int := 0, 0, 0;
    Starts();
    assert s[0..] == s;
    while left > 1
      invariant i + left == len && (if len < 0 then i == 0 else 0 <= left) && ip[..] == packet && i % 2 == 0
      invariant Between(sum, taken, i / 2, wraps, folds) && taken + Words(s[i..]) == Words(s)
    {
      NextWord(s, i);
      assert ip[i] == s[i] && ip[i + 1] == s[i + 1];
      ghost var w := s[i] + 0x100 * (s[i + 1] as int);
      wraps, folds := TakesWord(sum, taken, i / 2, wraps, folds, w);
      ghost var next := Next(sum, w);
      sum := Wrap32(sum + ip[i] + 0x100 * (ip[i + 1] as int));
      taken := taken + w;
      i := i + 2;
      if sum < 0 {
        sum := sum % 0x10000 + sum / 0x10000;
      }
      assert sum == next;
      left := left - 2;
    }
    FewWraps(sum, taken, i / 2, wraps, folds);
    LastByte(s, i);
    if left != 0 {
      wraps, folds := Adds(sum, taken, wraps, folds, s[i]);
      taken := taken + s[i];
      sum := Wrap32(sum + ip[i]);
    }
    Total(sum, taken, wraps, folds);
    ghost var total := sum;
    while sum / 0x10000 != 0
      invariant sum == taken - wraps - 0xFFFF * folds && ip[..] == packet
      invariant total >= 0 ==> 0 <= sum && Fold(sum) == Fold(total)
      decreases if sum < 0 then 0x8000_0000 - sum else sum
    {
      FoldOnce(sum);
      folds := folds + sum / 0x10000;
      sum := sum % 0x10000 + sum / 0x10000;
    }
    FoldOnce(sum);
    RightWithoutWrap(sum, taken, wraps, folds);
    assert ip[..|s|] == s;
    if len < 0 {
      OneByte(s);
    }
    return 0xFFFF - sum;
  }

  lemma OneByte(s: seq<Byte>)
    requires |s| == 1
    ensures Words(s) == s[0] < 0x8000_0000 && Fold(s[0]) == s[0]
  {
  }

  lemma Starts()
    ensures Between(0, 0, 0, 0, 0)
  {
  }

  lemma NextWord(s: seq<Byte>, i: nat)
    requires i + 1 < |s|
    ensures Words(s[i..]) == s[i] + 0x100 * (s[i + 1] as int) + Words(s[i + 2..])
  {
    assert s[i..][2..] == s[i + 2..];
  }

  lemma LastByte(s: seq<Byte>, i: nat)
    requires i <= |s| <= i + 1
    ensures Words(s[i..]) == if i < |s| then s[i] as int else 0
  {
  }

  lemma FewWraps(sum: int, taken: nat, words: nat, wraps: nat, folds: int)
    requires Between(sum, taken, words, wraps, folds) && 2 * words < 0x8000_0000
    ensures wraps < 0xFFFE && Accumulates(sum, taken, wraps, folds)
  {
  }

  lemma Total(sum: int, taken: nat, wraps: nat, folds: int)
    requires Accumulates(sum, taken, wraps, folds)
    ensures sum == taken - wraps - 0xFFFF * folds && (wraps == 0 <==> taken < 0x8000_0000)
    ensures wraps == 0 ==> sum == taken
  {
  }

  lemma FoldOnce(n: int)
    ensures n >= 0x10000 ==> Fold(n) == Fold(n % 0x10000 + n / 0x10000)
    ensures 0 <= n < 0x10000 ==> Fold(n) == n
  {
  }

  /** Every IP packet is short enough. */
  lemma PacketsFit(s: seq<Byte>)
    requires |s| <= 0x10000
    ensures Words(s) < 0x8000_0000
  {
    hide Words;
    assert Words(s) <= (|s| + 1) / 2 * 0xFFFF;
  }

  /** The shortest buffer of set bits that fails: 32770 words, of which one is cleared. */
  method WrongAbove() returns (ip: array<Byte>, r: nat)
    ensures ip.Length == 65540 && fresh(ip)
    ensures r != 0xFFFF - Fold(Words(ip[..])) && Words(ip[..]) == 0x8000_7FFF
  {
    hide Words, Fold;
    ip := new Byte[65540](_ => 0xFF);
    SetBuffer(ip[..]);
    r := IpCksum(ip, 65540);
    assert ip[..65540] == ip[..];
  }

  lemma SetBuffer(s: seq<Byte>)
    requires |s| == 65540 && forall i :: 0 <= i < |s| ==> s[i] == 0xFF
    ensures Words(s[10 := 0][11 := 0]) == 0x8000_7FFF
  {
    hide Words;
    SetWords(s);
    WordsUpdated(s, 10, 0, 0);
  }

  /** Words with all bits set. */
  lemma {:induction false} SetWords(s: seq<Byte>)
    requires |s| % 2 == 0 && forall i :: 0 <= i < |s| ==> s[i] == 0xFF
    ensures Words(s) == 0xFFFF * (|s| / 2)
  {
    if s != [] {
      SetWords(s[2..]);
    }
  }

  function Stored(s: seq<Byte>, r: nat): (t: seq<Byte>)
    requires 12 <= |s| && r < 0x10000
    ensures |t| == |s|
  {
    s[10 := r % 0x100][11 := r / 0x100]
  }

  lemma {:induction false} WordsUpdated(s: seq<Byte>, k: nat, a: Byte, b: Byte)
    requires k + 1 < |s| && k % 2 == 0
    ensures Words(s[k := a][k + 1 := b]) == Words(s) - s[k] - 0x100 * (s[k + 1] as int) + a + 0x100 * (b as int)
  {
    var t := s[k := a][k + 1 := b];
    if k > 0 {
      assert t[2..] == s[2..][k - 2 := a][k - 1 := b];
      WordsUpdated(s[2..], k - 2, a, b);
    } else {
      assert t[2..] == s[2..];
    }
  }

  /** What a byte counts: once at an even place, 0x100 times at an odd one, in network order
      the other way round, also when it is the last one of an odd number. */
  lemma ByteCounts(s: seq<Byte>, k: nat, b: Byte)
    requires k < |s|
    ensures Words(s[k := b]) == Words(s) + if k % 2 == 0 then b - s[k] else 0x100 * (b - s[k])
    ensures NetWords(s[k := b]) == NetWords(s) + if k % 2 == 0 then 0x100 * (b - s[k]) else b - s[k]
  {
    ByteInWords(s, k, b);
    ByteInNetWords(s, k, b);
  }

  lemma OneWord(s: seq<Byte>)
    requires |s| == 1
    ensures Words(s) == s[0]
  {
  }

  lemma FirstWord(s: seq<Byte>)
    requires |s| > 1
    ensures Words(s) == s[0] + 0x100 * (s[1] as int) + Words(s[2..])
  {
  }

  lemma {:induction false} ByteInWords(s: seq<Byte>, k: nat, b: Byte)
    requires k < |s|
    ensures Words(s[k := b]) == Words(s) + if k % 2 == 0 then b - s[k] else 0x100 * (b - s[k])
  {
    hide Words;
    var t := s[k := b];
    if |s| == 1 {
      OneWord(s);
      OneWord(t);
    } else if k < 2 {
      FirstWord(s);
      FirstWord(t);
      assert t[2..] == s[2..];
    } else {
      FirstWord(s);
      FirstWord(t);
      assert t[2..] == s[2..][k - 2 := b];
      ByteInWords(s[2..], k - 2, b);
    }
  }

  lemma {:induction false} ByteInNetWords(s: seq<Byte>, k: nat, b: Byte)
    requires k < |s|
    ensures NetWords(s[k := b]) == NetWords(s) + if k % 2 == 0 then 0x100 * (b - s[k]) else b - s[k]
  {
    if k < 2 {
      assert |s| > 1 ==> s[k := b][2..] == s[2..];
    } else {
      assert s[k := b][2..] == s[2..][k - 2 := b];
      ByteInNetWords(s[2..], k - 2, b);
    }
  }

  /** And zeros count nothing. */
  lemma {:induction false} ZerosCount(s: seq<Byte>)
    ensures (forall i :: 0 <= i < |s| ==> s[i] == 0) <==> Words(s) == 0
    ensures Words(s) == 0 <==> NetWords(s) == 0
  {
    if |s| > 1 {
      ZerosCount(s[2..]);
      assert forall i :: 2 <= i < |s| ==> s[i] == s[2..][i - 2];
    }
  }

  /** The order of the bytes in the words does not matter: section 2 (B) of RFC 1071. */
  lemma {:induction false} ByteOrder(s: seq<Byte>)
    ensures NetWords(s) % 0xFFFF == 0x100 * Words(s) % 0xFFFF
    ensures NetWords(s) == 0 <==> Words(s) == 0
  {
    if |s| >= 2 {
      ByteOrder(s[2..]);
      var a: int, b: int, m, n := s[0], s[1], NetWords(s[2..]), Words(s[2..]);
      SumMod(0x100 * a + b, m, 0x100 * n);
      ModMultiple(0x100 * a + b + 0x100 * n, b);
      assert 0x100 * Words(s) == 0x100 * a + b + 0x100 * n + 0xFFFF * b;
    }
  }

  lemma SumMod(a: nat, m: nat, n: nat)
    requires m % 0xFFFF == n % 0xFFFF
    ensures (a + m) % 0xFFFF == (a + n) % 0xFFFF
  {
    ModMultiple(a + m % 0xFFFF, m / 0xFFFF);
    ModMultiple(a + n % 0xFFFF, n / 0xFFFF);
    assert m == m % 0xFFFF + 0xFFFF * (m / 0xFFFF);
    assert n == n % 0xFFFF + 0xFFFF * (n / 0xFFFF);
  }

  /** A sum folds to all ones exactly when it is a multiple of 0xFFFF other than 0. */
  lemma AllOnes(n: nat)
    ensures Fold(n) == 0xFFFF <==> n > 0 && n % 0xFFFF == 0
  {
    FoldMeaning(n);
  }

  /** A packet with the checksum stored in it sums up to all ones, on the machine and in
      network order; and with another value that is so only for the other zero. */
  lemma StoredSumsToOnes(s: seq<Byte>, r: nat)
    requires 20 <= |s| && s[10] == s[11] == 0 && r < 0x10000
    ensures var t := Stored(s, r);
            && (r == 0xFFFF - Fold(Words(s)) ==> Fold(Words(t)) == 0xFFFF && Fold(NetWords(t)) == 0xFFFF)
            && (Fold(Words(t)) == 0xFFFF <==> Fold(NetWords(t)) == 0xFFFF)
            && (Fold(Words(t)) == 0xFFFF ==> r % 0xFFFF == (0xFFFF - Fold(Words(s))) % 0xFFFF)
  {
    hide Words, NetWords, Fold;
    var t, n := Stored(s, r), Words(s);
    WordsUpdated(s, 10, r % 0x100, r / 0x100);
    assert Words(t) == n + r;
    Complement(n, r);
    AllOnes(n + r);
    AllOnes(NetWords(t));
    ByteOrder(t);
    TimesTwoFiftySix(n + r);
  }

  lemma Complement(n: nat, r: nat)
    requires r < 0x10000
    ensures r == 0xFFFF - Fold(n) ==> n + r > 0 && (n + r) % 0xFFFF == 0
    ensures n + r > 0 && (n + r) % 0xFFFF == 0 ==> r % 0xFFFF == (0xFFFF - Fold(n)) % 0xFFFF
  {
    hide Fold;
    FoldMeaning(n);
    SumMod(r, n, Fold(n));
  }

  /** 0x100 and 0xFFFF have no common factor. */
  lemma TimesTwoFiftySix(n: nat)
    ensures 0x100 * n % 0xFFFF == 0 <==> n % 0xFFFF == 0
  {
    var q, r := n / 0xFFFF, n % 0xFFFF;
    ModMultiple(0x100 * r, 0x100 * q);
    assert 0x100 * n == 0x100 * r + 0xFFFF * (0x100 * q);
    if 0x100 * r % 0xFFFF == 0 {
      var k := 0x100 * r / 0xFFFF;
      assert 0x100 * r == 0xFFFF * k && k < 0x100;
      assert k == 0x100 * (0x100 * k - r);
    }
  }
}
