/** Tagged data in evbuffers: integers by nibbles, tags by sevens of bits, and the framing of items. */
module EventTagging {
  import opened Basics
  import opened Chunks
  import opened EvbufferSearch
  import Evbuffers
  import opened EvbufferRun


  // ----- integers

  function Pow16(n: nat): (p: nat)
    ensures p > 0
  {
    if n == 0 then 1 else 16 * Pow16(n - 1)
  }

  /** The nibble at place o, from 1 on: the low half of byte 0, then the high half of byte 1, ... */
  function Nibble(data: seq<byte>, o: nat): (n: nat)
    requires o / 2 < |data|
    ensures n < 16
  {
    if o % 2 == 1 then data[o / 2] % 16 else data[o / 2] / 16
  }

  /** The number that the nibbles from place o to place n make, the first of them the least significant. */
  function Value(data: seq<byte>, o: nat, n: nat): (v: nat)
    requires n / 2 < |data|
    decreases n + 1 - o
  {
    if o > n then 0 else Nibble(data, o) + 16 * Value(data, o + 1, n)
  }

  /** How an integer is written: one nibble says how many nibbles follow, less one. */
  ghost predicate SpellsInt(data: seq<byte>, number: nat, maxNibbles: nat)
  {
    && data != [] && var n := data[0] / 16 + 1;
    && n <= maxNibbles && |data| == n / 2 + 1 && Value(data, 1, n) == number
  }

  /** What decode_int_internal makes of bytes: the integer, and how many bytes it takes */
  function ReadInt(s: seq<byte>, maxNibbles: nat): (r: Option<(nat, nat)>)
  {
    if s == [] then None
    else
      var n := s[0] / 16 + 1;
      if n > maxNibbles || n / 2 + 1 > |s| then None else Some((Value(s, 1, n), n / 2 + 1))
  }

  lemma {:induction false} ValueSame(a: seq<byte>, b: seq<byte>, o: nat, n: nat)
    requires n / 2 < |a| && n / 2 < |b| && forall i :: 0 <= i <= n / 2 ==> a[i] == b[i]
    ensures Value(a, o, n) == Value(b, o, n)
    decreases n + 1 - o
  {
    if o <= n { ValueSame(a, b, o + 1, n); }
  }

  /** The number when nibbles o to n have been written, and the rest of it is still to be. */
  ghost function With(data: seq<byte>, o: nat, n: nat, left: nat): (v: nat)
    requires n / 2 < |data|
    decreases n + 1 - o
  {
    if o > n then left else Nibble(data, o) + 16 * With(data, o + 1, n, left)
  }

  lemma {:induction false} WithNone(data: seq<byte>, o: nat, n: nat)
    requires n / 2 < |data|
    ensures With(data, o, n, 0) == Value(data, o, n)
    decreases n + 1 - o
  {
    if o <= n { WithNone(data, o + 1, n); }
  }

  /** One more nibble written. */
  lemma {:induction false} WithNext(buf: seq<byte>, buf': seq<byte>, o: nat, off: nat, left: nat)
    requires 1 <= o <= off && off / 2 < |buf| == |buf'|
    requires forall i: nat :: o <= i < off ==> Nibble(buf', i) == Nibble(buf, i)
    requires Nibble(buf', off) == left % 16
    ensures With(buf', o, off, left / 16) == With(buf, o, off - 1, left)
    decreases off - o
  {
    if o < off { WithNext(buf, buf', o + 1, off, left); }
  }

  /** An integer is read back, whatever follows it. */
  lemma ReadIntSpelled(data: seq<byte>, number: nat, maxNibbles: nat, rest: seq<byte>)
    requires SpellsInt(data, number, maxNibbles)
    ensures ReadInt(data + rest, maxNibbles) == Some((number, |data|))
  {
    ValueSame(data, data + rest, 1, data[0] / 16 + 1);
  }

  // ----- the bytes of an integer

  /** Dividing a digit and 16 times the rest by powers of 16 */
  lemma DigitUp(d: nat, v: nat, k: nat)
    requires d < 16
    ensures (d + 16 * v) % 16 == d && (d + 16 * v) / 16 == v
    ensures k > 0 ==> (d + 16 * v) / Pow16(k) == v / Pow16(k - 1)
  {
    if k > 0 {
      hide Pow16;
      PowNext(k);
      DivTwice(d + 16 * v, Pow16(k - 1));
    }
  }

  lemma DivTwice(a: nat, p: nat)
    requires p > 0
    ensures a / (16 * p) == a / 16 / p
  {
    var q, r := a / 16 / p, a / 16 % p;
    assert a / 16 == q * p + r;
    var rest := 16 * r + a % 16;
    assert a == 16 * (q * p + r) + a % 16;
    assert 16 * (q * p + r) == q * (16 * p) + 16 * r;
    DivIs(a, 16 * p, q, rest);
  }

  lemma DivIs(a: nat, n: nat, q: nat, r: nat)
    requires n > 0 && r < n && a == q * n + r
    ensures a / n == q
  {
    Multiple(q - a / n, n);
    assert a == n * (a / n) + a % n;
    assert (q - a / n) * n == q * n - a / n * n;
  }

  /** A multiple of n that is not 0 is not near 0. */
  lemma Multiple(d: int, n: nat)
    ensures (d > 0 ==> d * n >= n) && (d < 0 ==> d * n <= 0 - n)
  {
    if d < 0 { MulUp(1, 0 - d, n); } else if d > 0 { MulUp(1, d, n); }
  }

  lemma MulUp(a: nat, b: nat, n: nat)
    requires a <= b
    ensures a * n <= b * n
  {}

  /** Every nibble is a hexadecimal digit of the number. */
  lemma {:induction false} ValueDigit(data: seq<byte>, o: nat, n: nat, k: nat)
    requires 1 <= o && o + k <= n && n / 2 < |data|
    ensures Value(data, o, n) / Pow16(k) % 16 == Nibble(data, o + k)
    decreases k
  {
    hide Nibble, Value, Pow16;
    ValueStep(data, o, n);
    DigitUp(Nibble(data, o), Value(data, o + 1, n), k);
    if k > 0 { ValueDigit(data, o + 1, n, k - 1); } else { PowNext(0); }
  }

  lemma ValueStep(data: seq<byte>, o: nat, n: nat)
    requires n / 2 < |data|
    ensures Value(data, o, n) == if o > n then 0 else Nibble(data, o) + 16 * Value(data, o + 1, n)
  {}

  /** There are no more digits. */
  lemma {:induction false} ValueBound(data: seq<byte>, o: nat, n: nat)
    requires n / 2 < |data| && 1 <= o <= n + 1
    ensures Value(data, o, n) < Pow16(n + 1 - o)
    decreases n + 1 - o
  {
    hide Nibble, Value, Pow16;
    ValueStep(data, o, n);
    PowNext(n + 1 - o);
    if o <= n { ValueBound(data, o + 1, n); }
  }

  lemma {:induction false} PowMono(a: nat, b: nat)
    requires a <= b
    ensures Pow16(a) <= Pow16(b)
    decreases b
  {
    if a < b { PowMono(a, b - 1); }
  }

  lemma SmallDiv(v: nat, a: nat, k: nat)
    ensures v < Pow16(a) && a <= k ==> v / Pow16(k) == 0
  {
    hide Pow16;
    if v < Pow16(a) && a <= k {
      PowMono(a, k);
      DivIs(v, Pow16(k), 0, v);
    }
  }

  lemma SplitByte(b: byte)
    ensures b == b / 16 * 16 + b % 16
  {}

  lemma NibblesAt(data: seq<byte>, i: nat)
    requires i < |data|
    ensures (2 * i) / 2 == i && (2 * i + 1) / 2 == i
    ensures Nibble(data, 2 * i) == data[i] / 16 && Nibble(data, 2 * i + 1) == data[i] % 16
  {}

  lemma FirstDigit(data: seq<byte>, n: nat)
    requires 1 <= n && n / 2 < |data|
    ensures Value(data, 1, n) % 16 == data[0] % 16
  {
    hide Nibble, Value, Pow16;
    ValueDigit(data, 1, n, 0);
    PowNext(0);
    NibblesAt(data, 0);
  }

  /** The digits of byte i; if the number has no more than the first of them, the other is 0. */
  lemma TwoDigits(data: seq<byte>, n: nat, i: nat)
    requires 1 <= i && 2 * i <= n && n / 2 < |data|
    ensures i < |data| && Value(data, 1, n) / Pow16(2 * i - 1) % 16 == data[i] / 16
    ensures Value(data, 1, n) / Pow16(2 * i) % 16 == if 2 * i < n then data[i] % 16 else 0
  {
    hide Nibble, Value, Pow16;
    NibblesAt(data, i);
    ValueDigit(data, 1, n, 2 * i - 1);
    if 2 * i < n {
      ValueDigit(data, 1, n, 2 * i);
    } else {
      ValueBound(data, 1, n);
      SmallDiv(Value(data, 1, n), n, 2 * i);
    }
  }

  /**
   An integer is read exactly if the first byte does not count too many nibbles and those it counts are there; and its
   digits are those nibbles, the lowest beside the count and then two by two, the lower one first.
   */
  lemma ReadIntDigits(s: seq<byte>, maxNibbles: nat)
    ensures ReadInt(s, maxNibbles).None? <==>
      s == [] || s[0] / 16 + 1 > maxNibbles || |s| < (s[0] / 16 + 1) / 2 + 1
    ensures ReadInt(s, maxNibbles).Some? ==>
      var n, v, k := s[0] / 16 + 1, ReadInt(s, maxNibbles).value.0, ReadInt(s, maxNibbles).value.1;
      && k == n / 2 + 1 <= |s| && v < Pow16(n) && v % 16 == s[0] % 16
      && (forall i :: 1 <= i < k ==> v / Pow16(2 * i - 1) % 16 == s[i] / 16)
      && (forall i :: 1 <= i < k && 2 * i < n ==> v / Pow16(2 * i) % 16 == s[i] % 16)
  {
    hide Value, Pow16, Nibble;
    if ReadInt(s, maxNibbles).Some? {
      var n := s[0] / 16 + 1;
      ValueBound(s, 1, n);
      FirstDigit(s, n);
      forall i | 1 <= i < n / 2 + 1
        ensures Value(s, 1, n) / Pow16(2 * i - 1) % 16 == s[i] / 16
        ensures 2 * i < n ==> Value(s, 1, n) / Pow16(2 * i) % 16 == s[i] % 16 {
        TwoDigits(s, n, i);
      }
    }
  }

  /** The digits of the number, in bytes: the lowest beside the count, and then two by two, the lower one first. */
  ghost predicate Digits(data: seq<byte>, number: nat, n: nat)
  {
    && |data| == n / 2 + 1 && data[0] == (n - 1) * 16 + number % 16 && number < Pow16(n)
    && forall i :: 1 <= i < |data| ==> data[i] == number / Pow16(2 * i - 1) % 16 * 16 + number / Pow16(2 * i) % 16
  }

  lemma BytesAreDigits(data: seq<byte>, number: nat, n: nat)
    requires 1 <= n && |data| == n / 2 + 1 && data[0] / 16 == n - 1 && Value(data, 1, n) == number
    requires n % 2 == 0 ==> data[n / 2] % 16 == 0
    ensures Digits(data, number, n)
  {
    hide Pow16, Value, Nibble;
    ValueBound(data, 1, n);
    FirstDigit(data, n);
    SplitByte(data[0]);
    forall i | 1 <= i < |data|
      ensures data[i] == number / Pow16(2 * i - 1) % 16 * 16 + number / Pow16(2 * i) % 16 {
      TwoDigits(data, n, i);
      SplitByte(data[i]);
    }
  }

  /** The bytes of 0x123: two more nibbles than one, 3, 2 and 1 */
  method Encoded() returns (data: seq<byte>)
    ensures data == [0x23, 0x21]
  {
    data := EncodeIntInternal(0x123, 8);
    assert Pow16(1) == 16 && Pow16(2) == 256 && Pow16(3) == 4096;
    EncodedLength(data);
  }

  lemma EncodedLength(data: seq<byte>)
    requires data != [] && Shortest(0x123, data[0] / 16 + 1)
    ensures data[0] / 16 == 2
  {
    hide Pow16;
    PowNext(1);
    PowNext(2);
    PowNext(3);
    var n := data[0] / 16 + 1;
    if n > 3 { PowMono(3, n - 1); }
    if n < 3 { PowMono(n, 2); }
  }

  /** As many nibbles as the number has hexadecimal digits */
  ghost predicate Shortest(number: nat, n: nat)
  {
    1 <= n && number < Pow16(n) && (n > 1 ==> number >= Pow16(n - 1))
  }

  /** ENCODE_INT_INTERNAL, for numbers of up to maxNibbles nibbles */
  method EncodeIntInternal(number: nat, maxNibbles: nat) returns (data: seq<byte>)
    requires (maxNibbles == 8 && number < TWO32) || (maxNibbles == 16 && number < TWO64)
    ensures SpellsInt(data, number, maxNibbles) && |data| <= maxNibbles / 2 + 1
    ensures data != [] && Digits(data, number, data[0] / 16 + 1) && Shortest(number, data[0] / 16 + 1)
  {
    hide With, Value, Nibble, Pow16, Digits, Shortest;
    var buf: seq<byte> := Zeros(maxNibbles / 2 + 1);
    var off: nat, left: nat := 1, number;
    PowIs();
    StartsWith(buf, number);
    while left != 0
      invariant 1 <= off <= maxNibbles + 1 && |buf| == maxNibbles / 2 + 1 && buf[0] / 16 == 0
      invariant left < Pow16(maxNibbles + 1 - off) && (off == 1 ==> buf[0] == 0)
      invariant number == With(buf, 1, off - 1, left)
      invariant number / Pow16(off - 1) == left && (off > 1 ==> number >= Pow16(off - 2))
      invariant forall i: nat :: off <= i && i / 2 < |buf| ==> Nibble(buf, i) == 0
      decreases left
    {
      PowNext(maxNibbles + 1 - off);
      var buf' := PutNibble(buf, off, left % 16);
      WithNext(buf, buf', 1, off, left);
      NextDigit(number, off);
      buf := buf';
      left := left / 16;
      off := off + 1;
    }
    WithNone(buf, 1, off - 1);
    var nibbles := if off > 2 then off - 2 else 0;
    data := buf[0 := (buf[0] % 16 + nibbles % 16 * 16) as byte][..(off + 1) / 2];
    Finished(buf, data, off, nibbles);
    ShortestIs(number, off, nibbles + 1);
    LastNibble(buf, data, off);
    BytesAreDigits(data, number, nibbles + 1);
  }

  lemma NextDigit(number: nat, off: nat)
    requires off >= 1 && number / Pow16(off - 1) != 0
    ensures number / Pow16(off) == number / Pow16(off - 1) / 16 && number >= Pow16(off - 1)
  {
    hide Pow16;
    PowNext(off);
    DivSwap(number, Pow16(off - 1), 16);
    SmallDiv(number, off - 1, off - 1);
  }

  lemma DivSwap(a: nat, p: nat, m: nat)
    requires p > 0 && m > 0
    ensures a / (m * p) == a / p / m
  {
    var b, c := a / p, a % p;
    var q, r := b / m, b % m;
    assert a == p * b + c;
    SplitProduct(p, b, q, r, m);
    DivIs(a, m * p, q, p * r + c);
  }

  lemma SplitProduct(p: nat, b: nat, q: nat, r: nat, m: nat)
    requires b == m * q + r && r < m
    ensures p * b == q * (m * p) + p * r && 0 <= p * r <= m * p - p
  {
    MulUp(r, m - 1, p);
    assert (m - 1) * p == m * p - p;
    assert p * (m * q) == q * (m * p);
    assert p * (m * q + r) == p * (m * q) + p * r;
  }

  lemma ShortestIs(number: nat, off: nat, n: nat)
    requires off >= 1 && n == (if off > 2 then off - 1 else 1)
    requires number / Pow16(off - 1) == 0 && (off > 1 ==> number >= Pow16(off - 2))
    ensures Shortest(number, n)
  {
    hide Pow16;
    if number >= Pow16(off - 1) { DivPositive(number, Pow16(off - 1)); }
    PowNext(0);
    PowNext(1);
  }

  lemma DivPositive(a: nat, n: nat)
    requires 0 < n <= a
    ensures a / n > 0
  {}

  /** A last nibble that is not used is 0. */
  lemma LastNibble(buf: seq<byte>, data: seq<byte>, off: nat)
    requires 1 <= off && |data| == (off + 1) / 2 <= |buf| && forall i :: 1 <= i < |data| ==> data[i] == buf[i]
    requires forall i: nat :: off <= i && i / 2 < |buf| ==> Nibble(buf, i) == 0
    ensures var n := if off > 2 then off - 1 else 1; n % 2 == 0 ==> n / 2 < |data| && data[n / 2] % 16 == 0
  {
    if off > 2 && off % 2 == 1 { assert Nibble(buf, off) == 0; }
  }

  function Zeros(n: nat): (s: seq<byte>)
    ensures |s| == n && forall i :: 0 <= i < n ==> s[i] == 0
  {
    seq(n, _ => 0)
  }

  lemma StartsWith(buf: seq<byte>, number: nat)
    requires |buf| > 0
    ensures With(buf, 1, 0, number) == number && number / Pow16(0) == number
    ensures (forall i :: 0 <= i < |buf| ==> buf[i] == 0) ==>
      forall i: nat :: i / 2 < |buf| ==> Nibble(buf, i) == 0
  {}

  lemma PowNext(k: nat)
    ensures Pow16(0) == 1 && (k > 0 ==> Pow16(k) == 16 * Pow16(k - 1))
  {}

  /** data[off/2] gets a nibble, in its low half or its high half. */
  method PutNibble(buf: seq<byte>, off: nat, digit: nat) returns (buf': seq<byte>)
    requires 1 <= off && off / 2 < |buf| && digit < 16
    ensures |buf'| == |buf| && Nibble(buf', off) == digit && buf'[0] / 16 == buf[0] / 16
    ensures (off > 1 ==> buf'[0] == buf[0])
    ensures forall i: nat :: i != off && i / 2 < |buf| ==> Nibble(buf', i) == Nibble(buf, i)
  {
    if off % 2 == 1 {
      buf' := buf[off / 2 := (buf[off / 2] / 16 * 16 + digit) as byte];
    } else {
      buf' := buf[off / 2 := (buf[off / 2] % 16 + digit * 16) as byte];
    }
    assert buf'[off / 2] < 256;
  }

  lemma ValueOne(data: seq<byte>)
    requires data != []
    ensures Value(data, 1, 0) == 0 && Value(data, 1, 1) == Nibble(data, 1)
  {}

  /** The count of nibbles goes in front. */
  lemma Finished(buf: seq<byte>, data: seq<byte>, off: nat, nibbles: nat)
    requires 1 <= off <= 17 && (off + 1) / 2 <= |buf| && buf[0] / 16 == 0 && (off == 1 ==> buf[0] == 0)
    requires nibbles == (if off > 2 then off - 2 else 0)
    requires data == buf[0 := (buf[0] % 16 + nibbles % 16 * 16) as byte][..(off + 1) / 2]
    ensures data != [] && data[0] / 16 == nibbles && |data| == (off + 1) / 2
    ensures Value(data, 1, nibbles + 1) == Value(buf, 1, off - 1)
  {
    hide Value;
    var n := nibbles + 1;
    assert data[0] % 16 == buf[0] % 16;
    if off == 1 {
      ValueOne(data);
      ValueOne(buf);
    } else {
      ValueAlike(data, buf, 1, n);
    }
  }

  lemma {:induction false} ValueAlike(a: seq<byte>, b: seq<byte>, o: nat, n: nat)
    requires 1 <= o && n / 2 < |a| && n / 2 < |b| && (forall i :: 1 <= i <= n / 2 ==> a[i] == b[i])
    requires a[0] % 16 == b[0] % 16
    ensures Value(a, o, n) == Value(b, o, n)
    decreases n + 1 - o
  {
    if o <= n { ValueAlike(a, b, o + 1, n); }
  }

  lemma PowIs()
    ensures Pow16(0) == 1 && Pow16(8) == TWO32 && Pow16(16) == TWO64
  {
    assert Pow16(4) == 0x1_0000;
    assert Pow16(8) == 0x1_0000 * 0x1_0000;
    assert Pow16(12) == 0x1_0000 * 0x1_0000 * 0x1_0000;
  }

  // ----- tags

  function Pow128(n: nat): (p: nat)
    ensures p > 0
  {
    if n == 0 then 1 else 128 * Pow128(n - 1)
  }

  /** The number that the low seven bits of bytes o to n - 1 make, the first of them the least significant. */
  function Sevens(data: seq<byte>, o: nat, n: nat): (v: nat)
    requires n <= |data|
    decreases n - o
  {
    if o >= n then 0 else data[o] % 128 + 128 * Sevens(data, o + 1, n)
  }

  /** How a tag is written: all bytes but the last have the high bit set. */
  ghost predicate SpellsTag(data: seq<byte>, tag: nat)
  {
    && 0 < |data| <= 5 && (forall i :: 0 <= i < |data| - 1 ==> data[i] >= 128) && data[|data| - 1] < 128
    && Sevens(data, 0, |data|) == tag < TWO32
  }

  lemma SevensStep(data: seq<byte>, o: nat, n: nat)
    requires n <= |data|
    ensures Sevens(data, o, n) == if o >= n then 0 else data[o] % 128 + 128 * Sevens(data, o + 1, n)
  {}

  lemma SevenUp(d: nat, v: nat, k: nat)
    requires d < 128
    ensures (d + 128 * v) % 128 == d && Pow128(0) == 1
    ensures k > 0 ==> (d + 128 * v) / Pow128(k) == v / Pow128(k - 1)
  {
    if k > 0 {
      hide Pow128;
      PowGrows(k - 1);
      var p := Pow128(k - 1);
      assert (d + 128 * v) / 128 == v by { DivIs(d + 128 * v, 128, v, d); }
      DivSwap(d + 128 * v, 128, p);
    }
  }

  /** The low seven bits of every byte are seven bits of the number. */
  lemma {:induction false} SevensDigit(data: seq<byte>, o: nat, n: nat, k: nat)
    requires o + k < n <= |data|
    ensures Sevens(data, o, n) / Pow128(k) % 128 == data[o + k] % 128
    decreases k
  {
    hide Sevens, Pow128;
    SevensStep(data, o, n);
    SevenUp(data[o] % 128, Sevens(data, o + 1, n), k);
    if k > 0 { SevensDigit(data, o + 1, n, k - 1); }
  }

  lemma {:induction false} SevensBound(data: seq<byte>, o: nat, n: nat)
    requires o <= n <= |data|
    ensures Sevens(data, o, n) < Pow128(n - o)
    decreases n - o
  {
    hide Sevens, Pow128;
    SevensStep(data, o, n);
    SevensNone(data);
    if o < n {
      SevensBound(data, o + 1, n);
      PowGrows(n - o - 1);
    }
  }

  /**
   A tag is read exactly if some byte is without the high bit; it ends with the first such byte, and its bits are the
   seven low ones of each byte, the lowest first, as far as 32 bits go.
   */
  lemma ReadTagIs(s: seq<byte>) returns (v: nat)
    ensures ReadTag(s).None? <==> forall i :: 0 <= i < |s| ==> s[i] >= 128
    ensures ReadTag(s).Some? ==>
      var t, n := ReadTag(s).value.0, ReadTag(s).value.1;
      && 0 < n <= |s| && s[n - 1] < 128 && (forall i :: 0 <= i < n - 1 ==> s[i] >= 128)
      && t == v % 0x1_0000_0000 && v < Pow128(n) && forall i :: 0 <= i < n ==> v / Pow128(i) % 128 == s[i] % 128
  {
    hide Pow128, Sevens, TagEnd;
    var n := TagEnd(s);
    v := if n > 0 then Sevens(s, 0, n) else 0;
    if n > 0 {
      SevensBound(s, 0, n);
      forall i | 0 <= i < n ensures v / Pow128(i) % 128 == s[i] % 128 { SevensDigit(s, 0, n, i); }
    }
  }

  /** Where the bytes of a tag end: after the first one without the high bit, or nowhere */
  function TagEnd(s: seq<byte>): (n: nat)
    ensures n <= |s| && (forall i :: 0 <= i < n - 1 ==> s[i] >= 128) && (n > 0 ==> s[n - 1] < 128)
    ensures n == 0 ==> forall i :: 0 <= i < |s| ==> s[i] >= 128
  {
    if s == [] then 0
    else if s[0] < 128 then 1
    else if TagEnd(s[1..]) == 0 then 0 else 1 + TagEnd(s[1..])
  }

  /** What decode_tag_internal makes of bytes */
  function ReadTag(s: seq<byte>): (r: Option<(nat, nat)>)
  {
    var n := TagEnd(s);
    if n == 0 then None else Some((Sevens(s, 0, n) % TWO32, n))
  }

  lemma {:induction false} SevensSame(a: seq<byte>, b: seq<byte>, o: nat, n: nat)
    requires n <= |a| && n <= |b| && forall i :: 0 <= i < n ==> a[i] == b[i]
    ensures Sevens(a, o, n) == Sevens(b, o, n)
    decreases n - o
  {
    if o < n { SevensSame(a, b, o + 1, n); }
  }

  lemma {:induction false} TagEndIs(s: seq<byte>, n: nat)
    requires 0 < n <= |s| && (forall i :: 0 <= i < n - 1 ==> s[i] >= 128) && s[n - 1] < 128
    ensures TagEnd(s) == n
  {
    if n > 1 { TagEndIs(s[1..], n - 1); }
  }

  /** A tag is read back, whatever follows it. */
  lemma ReadTagSpelled(data: seq<byte>, tag: nat, rest: seq<byte>)
    requires SpellsTag(data, tag)
    ensures ReadTag(data + rest) == Some((tag, |data|))
  {
    TagEndIs(data + rest, |data|);
    SevensSame(data, data + rest, 0, |data|);
  }

  /** The number when n bytes of a tag have been written, and the rest of it is still to be. */
  ghost function TagWith(data: seq<byte>, o: nat, left: nat): (v: nat)
    decreases |data| - o
  {
    if o >= |data| then left else data[o] % 128 + 128 * TagWith(data, o + 1, left)
  }

  lemma {:induction false} TagWithNext(data: seq<byte>, o: nat, left: nat, x: byte)
    requires o <= |data| && x % 128 == left % 128
    ensures TagWith(data + [x], o, left / 128) == TagWith(data, o, left)
    decreases |data| - o
  {
    if o < |data| { TagWithNext(data, o + 1, left, x); }
  }

  lemma TagWithStart(left: nat)
    ensures TagWith([], 0, left) == left
  {}

  lemma {:induction false} TagWithNone(data: seq<byte>, o: nat)
    ensures TagWith(data, o, 0) == Sevens(data, o, |data|)
    decreases |data| - o
  {
    if o < |data| { TagWithNone(data, o + 1); }
  }

  /** The bits of a tag in groups of seven, the lowest first, all but the last with the high bit; no zeros behind. */
  ghost predicate Groups(data: seq<byte>, tag: nat)
  {
    && data != [] && tag < Pow128(|data|) && (|data| > 1 ==> tag >= Pow128(|data| - 1))
    && forall i :: 0 <= i < |data| ==> data[i] == tag / Pow128(i) % 128 + if i + 1 < |data| then 128 else 0
  }

  ghost predicate GroupsBut(data: seq<byte>, tag: nat)
  {
    forall i :: 0 <= i < |data| ==> data[i] == tag / Pow128(i) % 128 + 128
  }

  lemma GroupBounds(tag: nat, n: nat, left: nat)
    requires left == tag / Pow128(n)
    ensures left / 128 == tag / Pow128(n + 1)
    ensures (left < 128 ==> tag < Pow128(n + 1)) && (left > 0 ==> tag >= Pow128(n))
  {
    hide Pow128;
    PowGrows(n);
    DivSwap(tag, Pow128(n), 128);
    if tag < Pow128(n) { DivIs(tag, Pow128(n), 0, tag); }
    if tag >= Pow128(n + 1) { DivPositive(tag, Pow128(n + 1)); }
  }

  lemma GroupsPush(data: seq<byte>, tag: nat, x: byte)
    requires GroupsBut(data, tag)
    ensures x == tag / Pow128(|data|) % 128 + 128 ==> GroupsBut(data + [x], tag)
    ensures x == tag / Pow128(|data|) % 128 && tag < Pow128(|data| + 1) && (data == [] || tag >= Pow128(|data|)) ==>
      Groups(data + [x], tag)
  {
    hide Pow128;
    var data' := data + [x];
    forall i | 0 <= i < |data| ensures data'[i] == tag / Pow128(i) % 128 + 128 {
      assert data'[i] == data[i];
    }
  }

  lemma GroupsNext(data: seq<byte>, tag: nat, left: nat)
    requires GroupsBut(data, tag) && left == tag / Pow128(|data|)
    ensures left % 128 + 128 < 256 && GroupsBut(data + [left % 128 + 128], tag)
    ensures left / 128 == tag / Pow128(|data| + 1)
    ensures left < 128 && (left > 0 || data == []) ==> Groups(data + [left], tag)
  {
    hide Pow128, Groups, GroupsBut;
    GroupBounds(tag, |data|, left);
    GroupsPush(data, tag, left % 128 + 128);
    if left < 128 { GroupsPush(data, tag, left); }
  }

  lemma GroupsNone(tag: nat)
    ensures GroupsBut([], tag) && tag == tag / Pow128(0)
  {}

  /** The bytes of the tag 300: 44 and more to come, and then 2 */
  method Tagged300() returns (data: seq<byte>)
    ensures data == [0xac, 2]
  {
    data := TagBytes(300);
    assert Pow128(1) == 128 && Pow128(2) == 16384;
    TwoGroups(data);
  }

  lemma {:induction false} Pow128Mono(a: nat, b: nat)
    requires a <= b
    ensures Pow128(a) <= Pow128(b)
  {
    if a < b { Pow128Mono(a, b - 1); }
  }

  lemma TwoGroups(data: seq<byte>)
    requires Groups(data, 300)
    ensures |data| == 2
  {
    assert Pow128(1) == 128 && Pow128(2) == 16384;
    if |data| > 2 { Pow128Mono(2, |data| - 1); }
  }

  /** The loop of evtag_encode_tag */
  method TagBytes(tag: nat) returns (data: seq<byte>)
    requires tag < TWO32
    ensures SpellsTag(data, tag) && Groups(data, tag)
  {
    hide Pow128, Groups, GroupsBut, TagWith;
    data := [];
    TagWithStart(tag);
    var left: nat := tag;
    GroupsNone(tag);
    while true
      invariant |data| <= 4 && left < TWO32 && (|data| == 1 ==> left < TWO32 / 0x80)
      invariant (|data| == 2 ==> left < TWO32 / 0x4000)
      invariant (|data| == 3 ==> left < TWO32 / 0x20_0000) && (|data| == 4 ==> left < TWO32 / 0x1000_0000)
      invariant (forall i :: 0 <= i < |data| ==> data[i] >= 128) && TagWith(data, 0, left) == tag
      invariant left == tag / Pow128(|data|) && GroupsBut(data, tag) && (left > 0 || data == [])
      decreases left, 5 - |data|
    {
      var lower: byte := left % 128;
      GroupsNext(data, tag, left);
      if left / 128 != 0 {
        TagWithNext(data, 0, left, 128 + lower);
        data := data + [128 + lower];
      } else {
        TagWithNext(data, 0, left, lower);
        data := data + [lower];
        break;
      }
      left := left / 128;
    }
    TagWithNone(data, 0);
  }

  /** d << shift, where p is 1 << shift */
  function Shift(d: nat, p: nat): (r: nat)
  {
    d * p
  }

  lemma ShiftNext(d: nat, n: nat)
    requires n > 0
    ensures Shift(d, Pow128(n)) == 128 * Shift(d, Pow128(n - 1))
  {
    var p := Pow128(n - 1);
    assert d * (128 * p) == 128 * (d * p);
  }

  lemma SevensFirst(s: seq<byte>, o: nat, n: nat)
    requires n <= |s|
    ensures Sevens(s, o, n) == if o < n then s[o] % 128 + 128 * Sevens(s, o + 1, n) else 0
    ensures Pow128(0) == 1
  {}

  lemma {:induction false} SevensNext(s: seq<byte>, o: nat, n: nat)
    requires o <= n < |s|
    ensures Sevens(s, o, n + 1) == Sevens(s, o, n) + Shift(s[n] % 128, Pow128(n - o))
    decreases n - o
  {
    hide Sevens, Pow128;
    SevensFirst(s, o, n + 1);
    SevensFirst(s, o, n);
    if o < n {
      hide Shift;
      SevensNext(s, o + 1, n);
      ShiftNext(s[n] % 128, n - o);
    } else {
      SevensFirst(s, o + 1, n + 1);
    }
  }

  // ----- decoding from a buffer

  /** The tag at the start ends within the five bytes that are looked at, or the bytes do. */
  ghost predicate TagShort(s: seq<byte>)
  {
    |s| <= 5 || 0 < TagEnd(s) <= 5
  }

  /** number |= (lower & 0x7f) << shift, for each byte up to the one that ends the tag */
  method DecodeSevens(data: seq<byte>) returns (number: nat, count: nat)
    requires |data| <= 5
    ensures count == TagEnd(data) && (count > 0 ==> number == Sevens(data, 0, count) % TWO32)
  {
    hide TagEnd, Shift, Sevens, Pow128;
    number, count := 0, 0;
    var one: nat := 1;
    ghost var sum: nat := 0;
    SevensNone(data);
    while count < |data|
      invariant count <= |data| && sum == Sevens(data, 0, count) && number == sum % TWO32 && one == Pow128(count)
      invariant forall i :: 0 <= i < count ==> data[i] >= 128
    {
      var lower := data[count];
      SevensNext(data, 0, count);
      AddWraps(sum, Shift(lower % 128, one));
      sum := sum + Shift(lower % 128, one);
      number := (number + Shift(lower % 128, one)) % TWO32;
      one := 128 * one;
      PowGrows(count);
      count := count + 1;
      if lower < 128 {
        TagEndIs(data, count);
        return;
      }
    }
    NoTagEnd(data);
    count := 0;
  }

  lemma SevensNone(data: seq<byte>)
    ensures Sevens(data, 0, 0) == 0 && Pow128(0) == 1
  {}

  lemma PowGrows(n: nat)
    ensures Pow128(n + 1) == 128 * Pow128(n)
  {}

  lemma AddWraps(a: nat, b: nat)
    ensures (a % TWO32 + b) % TWO32 == (a + b) % TWO32
  {}

  lemma {:induction false} NoTagEnd(s: seq<byte>)
    requires forall i :: 0 <= i < |s| ==> s[i] >= 128
    ensures TagEnd(s) == 0
  {
    if s != [] { NoTagEnd(s[1..]); }
  }

  lemma {:induction false} TagEndPart(s: seq<byte>, n: nat)
    requires n <= |s| && (n == |s| || 0 < TagEnd(s) <= n)
    ensures TagEnd(s[..n]) == TagEnd(s)
    ensures TagEnd(s) > 0 ==> Sevens(s[..n], 0, TagEnd(s)) == Sevens(s, 0, TagEnd(s))
  {
    var k := TagEnd(s);
    if n == |s| { assert s[..n] == s; }
    else { TagEndIs(s[..n], k); SevensSame(s[..n], s, 0, k); }
  }

  lemma TagEndLong(s: seq<byte>)
    requires |s| > 5
    ensures TagEnd(s[..5]) == 0 <==> !TagShort(s)
  {
    hide TagEnd;
    var k := TagEnd(s[..5]);
    if k > 0 { TagEndIs(s, k); } else if TagShort(s) { TagEndIs(s[..5], TagEnd(s)); }
  }

  /**
   decode_tag_internal without the draining: the length of the tag, or -1.  It is lost if it goes on past the five
   bytes that are in a row: it then shifts a 32-bit number by 35, and C says nothing about the rest.
   */
  method PeekTag(bufs: Buffers, i: nat) returns (lost: bool, res: int, tag: nat)
    requires bufs.Valid() && i < |bufs.b|
    modifies bufs
    ensures bufs.Valid() && |bufs.b| == |old(bufs.b)| && bufs.Contents() == old(bufs.Contents())
    ensures old(bufs.Fine()) ==> bufs.Fine()
    ensures lost <==> !TagShort(bufs.Contents()[i])
    ensures res >= -1 && (!lost ==> res == TagResult(bufs.Contents()[i], tag))
  {
    hide TagEnd, Sevens, Buffers.Valid, AllTight, Buffers.Contents;
    bufs.Count();
    ghost var s := bufs.Contents()[i];
    var len := bufs.Length(i);
    var data := bufs.Pullup(i, if len < 5 then len else 5);
    tag := 0;
    if data.None? {
      NoTag();
      return false, -1, tag;
    }
    var count;
    tag, count := DecodeSevens(data.value);
    lost := count == 0 && len > 5;
    if len > 5 { TagEndLong(s); }
    if !lost { TagEndPart(s, |data.value|); }
    res := if count == 0 then -1 else count;
  }

  /** The length of the tag at the start of s, if it is this one; -1 if there is none */
  ghost function TagResult(s: seq<byte>, tag: nat): (r: int)
  {
    match ReadTag(s)
    case None => -1
    case Some((t, n)) => if t == tag then n else -2
  }

  /** decode_tag_internal with the draining */
  method DecodeTag(bufs: Buffers, i: nat) returns (lost: bool, res: int, tag: nat)
    requires bufs.Valid() && i < |bufs.b|
    modifies bufs
    ensures bufs.Valid() && |bufs.b| == |old(bufs.b)| && |bufs.Contents()| == |old(bufs.Contents())|
    ensures old(bufs.Fine()) ==> bufs.Fine()
    ensures lost <==> !TagShort(old(bufs.Contents())[i])
    ensures lost ==> bufs.Contents() == old(bufs.Contents())
    ensures !lost ==>
      var s := old(bufs.Contents())[i];
      && -1 <= res == TagResult(s, tag) <= |s|
      && bufs.Contents() == if res < 0 then old(bufs.Contents()) else old(bufs.Contents())[i := s[res..]]
  {
    hide TagEnd, Sevens, Buffers.Valid, AllTight, Buffers.Contents;
    bufs.Count();
    ghost var s := bufs.Contents()[i];
    lost, res, tag := PeekTag(bufs, i);
    if !lost && res >= 0 {
      bufs.Drain(i, res);
      DropIs(s, res);
    }
  }

  lemma DropTwice(s: seq<byte>, n: nat, k: nat)
    requires n + k <= |s|
    ensures s[n..][k..] == s[n + k..]
  {}

  lemma DropIs(s: seq<byte>, n: nat)
    requires n <= |s|
    ensures Drop(s, n) == s[n..]
  {}

  lemma NoTag()
    ensures TagEnd([]) == 0
  {}

  /** The loop of DECODE_INT_INTERNAL */
  method DecodeNibbles(data: seq<byte>, n: nat) returns (number: nat)
    requires n / 2 < |data|
    ensures number == Value(data, 1, n)
  {
    number := 0;
    var nibbles: nat := n;
    while nibbles > 0
      invariant nibbles <= n && number == Value(data, nibbles + 1, n)
    {
      number := number * 16 + (if nibbles % 2 == 1 then data[nibbles / 2] % 16 else data[nibbles / 2] / 16);
      nibbles := nibbles - 1;
    }
  }

  /** decode_int_internal and decode_int64_internal: the length of the integer at offset, or -1 */
  method DecodeIntInternal(bufs: Buffers, i: nat, offset: nat, maxNibbles: nat) returns (res: int, number: nat)
    requires bufs.Valid() && i < |bufs.b| && maxNibbles <= 16 && offset <= 5 && offset <= |bufs.Contents()[i]|
    modifies bufs
    ensures bufs.Valid() && |bufs.b| == |old(bufs.b)| && bufs.Contents() == old(bufs.Contents())
    ensures old(bufs.Fine()) ==> bufs.Fine()
    ensures match ReadInt(bufs.Contents()[i][offset..], maxNibbles)
      case None => res == -1
      case Some((v, n)) => res == n && number == v
  {
    hide Value, ReadInt, Buffers.Valid, AllTight, Buffers.Contents;
    bufs.Count();
    ghost var s := bufs.Contents()[i];
    ghost var t := s[offset..];
    ReadIntIs(t, maxNibbles);
    number := 0;
    var total := bufs.Length(i);
    var len := total - offset;
    if len <= 0 {
      return -1, number;
    }
    var first := bufs.Pullup(i, offset + 1);
    PartOf(s, offset, 1);
    var nibbles: nat := first.value[offset..][0] / 16 + 1;
    if nibbles > maxNibbles || nibbles / 2 + 1 > len {
      return -1, number;
    }
    len := nibbles / 2 + 1;
    var data := bufs.Pullup(i, offset + len);
    PartOf(s, offset, len);
    number := DecodeNibbles(data.value[offset..], nibbles);
    ValueSame(data.value[offset..], t, 1, nibbles);
    res := len;
  }

  lemma ReadIntIs(s: seq<byte>, maxNibbles: nat)
    ensures s == [] ==> ReadInt(s, maxNibbles) == None
    ensures s != [] ==>
      var n: nat, k: nat := s[0] / 16 + 1, (s[0] / 16 + 1) / 2 + 1;
      ReadInt(s, maxNibbles) == if n > maxNibbles || k > |s| then None else Some((Value(s, 1, n), k))
  {}

  lemma PartOf(s: seq<byte>, offset: nat, len: nat)
    requires offset + len <= |s|
    ensures s[..offset + len][offset..] == s[offset..][..len]
    ensures forall i :: 0 <= i < len ==> s[..offset + len][offset..][i] == s[offset..][i]
  {}

  /** evtag_decode_int */
  method DecodeInt(bufs: Buffers, i: nat) returns (ok: bool, number: nat)
    requires bufs.Valid() && i < |bufs.b|
    modifies bufs
    ensures bufs.Valid() && |bufs.b| == |old(bufs.b)|
    ensures old(bufs.Fine()) ==> bufs.Fine()
    ensures match ReadInt(old(bufs.Contents())[i], 8)
      case None => !ok && bufs.Contents() == old(bufs.Contents())
      case Some((v, n)) =>
        ok && number == v && bufs.Contents() == old(bufs.Contents())[i := old(bufs.Contents())[i][n..]]
  {
    hide Value, Buffers.Valid, AllTight;
    bufs.Count();
    ghost var s := bufs.Contents()[i];
    assert s[0..] == s;
    var res;
    res, number := DecodeIntInternal(bufs, i, 0, 8);
    if res != -1 {
      bufs.Drain(i, res);
      DropIs(s, res);
    }
    ok := res != -1;
  }

  // ----- items

  /** A tagged item: bytes up to n spell the tag, from there up to k the length, and the rest is the payload. */
  ghost predicate Framed(item: seq<byte>, tag: nat, data: seq<byte>, n: nat, k: nat)
  {
    n <= k <= |item| && SpellsTag(item[..n], tag) && SpellsInt(item[n..k], |data|, 8) && item[k..] == data
  }

  ghost predicate IsItem(item: seq<byte>, tag: nat, data: seq<byte>)
  {
    exists n: nat, k: nat :: Framed(item, tag, data, n, k)
  }

  /** An item is read back part by part, whatever follows it. */
  lemma ItemReads(item: seq<byte>, tag: nat, data: seq<byte>, rest: seq<byte>) returns (n: nat, k: nat)
    requires IsItem(item, tag, data)
    ensures var s := item + rest;
      && 0 < n < k <= |item| && |item| == k + |data| && TagShort(s)
      && ReadTag(s) == Some((tag, n)) && ReadInt(s[n..], 8) == Some((|data|, k - n)) && s[k..] == data + rest
  {
    hide SpellsTag, SpellsInt, ReadTag, ReadInt, TagShort;
    n, k :| Framed(item, tag, data, n, k);
    var s := item + rest;
    SpelledLengths(item[..n], tag, item[n..k], |data|);
    ReadTagSpelled(item[..n], tag, item[n..] + rest);
    assert item[..n] + (item[n..] + rest) == s;
    ReadIntSpelled(item[n..k], |data|, 8, item[k..] + rest);
    assert item[n..k] + (item[k..] + rest) == s[n..];
    ShortTag(s, n);
  }

  lemma SpelledLengths(t: seq<byte>, tag: nat, l: seq<byte>, number: nat)
    requires SpellsTag(t, tag) && SpellsInt(l, number, 8)
    ensures 0 < |t| <= 5 && 0 < |l| <= 5
  {}

  lemma ShortTag(s: seq<byte>, n: nat)
    requires n <= 5 && ReadTag(s).Some? && ReadTag(s).value.1 == n
    ensures TagShort(s)
  {}

  /** evbuffer_add of bytes that it does not refuse, to a buffer without empty chunks */
  method Append(bufs: Buffers, i: nat, data: seq<byte>)
    requires bufs.Fine() && i < |bufs.b| && i < |bufs.Contents()|
    requires |data| <= CHAIN_MAX - CHAIN_SIZE && |bufs.Contents()[i]| + |data| <= SIZE_MAX
    modifies bufs
    ensures bufs.Fine() && |bufs.b| == |old(bufs.b)|
    ensures bufs.Contents() == old(bufs.Contents())[i := old(bufs.Contents())[i] + data]
  {
    hide Buffers.Valid, Buffers.Pointing, AllTight, Buffers.Contents, Evbuffers.AddFate;
    var added := bufs.Add(i, data);
  }

  /** The bytes of an item: the tag in groups of seven bits, the length in nibbles, both the shortest; then the data. */
  ghost predicate Compact(item: seq<byte>, tag: nat, data: seq<byte>)
  {
    exists n: nat, k: nat :: CompactAt(item, tag, data, n, k)
  }

  ghost predicate CompactAt(item: seq<byte>, tag: nat, data: seq<byte>, n: nat, k: nat)
  {
    && n < k <= |item| && Groups(item[..n], tag) && item[k..] == data
    && Digits(item[n..k], |data|, item[n] / 16 + 1) && Shortest(|data|, item[n] / 16 + 1)
  }

  lemma CompactOf(t: seq<byte>, l: seq<byte>, data: seq<byte>, tag: nat)
    requires Groups(t, tag) && l != [] && Digits(l, |data|, l[0] / 16 + 1) && Shortest(|data|, l[0] / 16 + 1)
    ensures Compact(t + l + data, tag, data)
  {
    hide Groups, Digits, Shortest;
    var item, n, k := t + l + data, |t|, |t| + |l|;
    assert item[..n] == t && item[n..k] == l && item[k..] == data && item[n] == l[0];
    assert CompactAt(item, tag, data, n, k);
  }

  /** evtag_marshal */
  method Marshal(bufs: Buffers, i: nat, tag: nat, data: seq<byte>) returns (ghost item: seq<byte>)
    requires bufs.Fine() && i < |bufs.b| && tag < TWO32 && |data| < TWO32
    requires |bufs.Contents()[i]| + 10 + |data| <= SIZE_MAX
    modifies bufs
    ensures bufs.Fine() && |bufs.b| == |old(bufs.b)|
    ensures bufs.Contents() == old(bufs.Contents())[i := old(bufs.Contents())[i] + item]
    ensures IsItem(item, tag, data) && Compact(item, tag, data)
  {
    hide SpellsTag, SpellsInt, Buffers.Valid, AllTight, Buffers.Contents, Groups, Digits, Shortest, Compact;
    bufs.Count();
    ghost var all := bufs.Contents();
    var t := TagBytes(tag);
    var l := EncodeIntInternal(|data|, 8);
    SpelledLengths(t, tag, l, |data|);
    Append(bufs, i, t);
    PutTwice(all, i, all[i] + t, all[i] + t + l);
    Append(bufs, i, l);
    PutTwice(all, i, all[i] + t + l, all[i] + t + l + data);
    Append(bufs, i, data);
    item := t + l + data;
    CompactOf(t, l, data, tag);
    assert item[..|t|] == t && item[|t|..|t| + |l|] == l && item[|t| + |l|..] == data;
    assert Framed(item, tag, data, |t|, |t| + |l|);
    assert all[i] + t + l + data == all[i] + item;
  }

  /** evtag_marshal_int and evtag_marshal_int64 */
  method MarshalInt(bufs: Buffers, i: nat, tag: nat, number: nat, maxNibbles: nat)
    returns (ghost item: seq<byte>, ghost data: seq<byte>)
    requires bufs.Fine() && i < |bufs.b| && tag < TWO32 && |bufs.Contents()[i]| + 20 <= SIZE_MAX
    requires (maxNibbles == 8 && number < TWO32) || (maxNibbles == 16 && number < TWO64)
    modifies bufs
    ensures bufs.Fine() && |bufs.b| == |old(bufs.b)|
    ensures bufs.Contents() == old(bufs.Contents())[i := old(bufs.Contents())[i] + item]
    ensures IsItem(item, tag, data) && SpellsInt(data, number, maxNibbles)
    ensures Compact(item, tag, data)
    ensures data != [] && Digits(data, number, data[0] / 16 + 1) && Shortest(number, data[0] / 16 + 1)
  {
    hide SpellsInt, Buffers.Valid, AllTight, Buffers.Contents, Compact, Digits, Shortest;
    var d := EncodeIntInternal(number, maxNibbles);
    data := d;
    item := Marshal(bufs, i, tag, d);
  }

  /** A 32-bit length, returned as an int */
  function ToInt(len: nat): (r: int)
  {
    if len <= INT_MAX then len else len - TWO32
  }

  /** What evtag_unmarshal_header does: the result, the tag, and what is left of the bytes */
  function Header(s: seq<byte>): (r: (int, nat, seq<byte>))
  {
    match ReadTag(s)
    case None => (-1, 0, s)
    case Some((tag, n)) =>
      match ReadInt(s[n..], 8)
      case None => (-1, tag, s[n..])
      case Some((len, k)) => (if |s| - n - k < len then -1 else ToInt(len), tag, s[n + k..])
  }

  /** evtag_unmarshal_header */
  method UnmarshalHeader(bufs: Buffers, i: nat) returns (lost: bool, res: int, tag: nat)
    requires bufs.Valid() && i < |bufs.b|
    modifies bufs
    ensures bufs.Valid() && |bufs.b| == |old(bufs.b)|
    ensures old(bufs.Fine()) ==> bufs.Fine()
    ensures lost <==> !TagShort(old(bufs.Contents())[i])
    ensures !lost ==>
      var h := Header(old(bufs.Contents())[i]);
      && res == h.0 && (ReadTag(old(bufs.Contents())[i]).Some? ==> tag == h.1)
      && bufs.Contents() == old(bufs.Contents())[i := h.2]
    ensures !lost ==>
      var was := old(bufs.Contents()); var s := was[i];
      match ReadTag(s)
      case None => res == -1 && bufs.Contents() == was
      case Some((t, n)) =>
        && tag == t
        && match ReadInt(s[n..], 8)
           case None => res == -1 && bufs.Contents() == was[i := s[n..]]
           case Some((len, k)) =>
             && bufs.Contents() == was[i := s[n + k..]]
             && res == if |s| - n - k < len then -1 else if len < 0x8000_0000 then len else len - 0x1_0000_0000
  {
    hide ReadTag, ReadInt, TagShort, Buffers.Valid, AllTight, Buffers.Contents;
    bufs.Count();
    ghost var all := bufs.Contents();
    ghost var s := all[i];
    assert all[i := s] == all;
    lost, res, tag := DecodeTag(bufs, i);
    if lost || res == -1 {
      return;
    }
    ghost var n := res;
    var ok, len := DecodeInt(bufs, i);
    if !ok {
      return lost, -1, tag;
    }
    ReadIntFits(s[n..], 8);
    ghost var k := ReadInt(s[n..], 8).value.1;
    assert s[n..][k..] == s[n + k..];
    var left := bufs.Length(i);
    if left < len {
      return lost, -1, tag;
    }
    res := ToInt(len);
  }

  lemma ReadIntFits(s: seq<byte>, maxNibbles: nat)
    ensures ReadInt(s, maxNibbles).Some? ==> 0 < ReadInt(s, maxNibbles).value.1 <= |s|
    ensures ReadInt(s, maxNibbles).Some? && maxNibbles == 8 ==> ReadInt(s, maxNibbles).value.0 < TWO32
  {
    if ReadInt(s, maxNibbles).Some? && maxNibbles == 8 {
      var n := s[0] / 16 + 1;
      ValueBound(s, 1, n);
      PowIs();
      PowMono(n, 8);
    }
  }

  /** The header of an item is what it was marshalled with. */
  lemma HeaderOfItem(item: seq<byte>, tag: nat, data: seq<byte>, rest: seq<byte>)
    requires IsItem(item, tag, data) && |data| <= INT_MAX
    ensures TagShort(item + rest) && ReadTag(item + rest).Some? && Header(item + rest) == (|data|, tag, data + rest)
  {
    hide ReadTag, ReadInt, TagShort, IsItem;
    var n, k := ItemReads(item, tag, data, rest);
  }

  /** evtag_unmarshal, from one buffer to the end of another */
  method Unmarshal(bufs: Buffers, src: nat, dst: nat) returns (lost: bool, res: int, tag: nat)
    requires bufs.Fine() && src < |bufs.b| && dst < |bufs.b| && src != dst
    requires |bufs.Contents()[src]| + |bufs.Contents()[dst]| <= SIZE_MAX
    modifies bufs
    ensures bufs.Fine() && |bufs.b| == |old(bufs.b)|
    ensures lost <==> !TagShort(old(bufs.Contents())[src])
    ensures !lost ==>
      var h := Header(old(bufs.Contents())[src]);
      && res == (if h.0 < 0 then -1 else h.0) && (ReadTag(old(bufs.Contents())[src]).Some? ==> tag == h.1)
      && h.0 <= |h.2|
      && bufs.Contents() ==
        if h.0 < 0 then old(bufs.Contents())[src := h.2]
        else old(bufs.Contents())[src := h.2[h.0..]][dst := old(bufs.Contents())[dst] + h.2[..h.0]]
  {
    hide ReadTag, ReadInt, TagShort, Header, Buffers.Valid, AllTight, Buffers.Contents;
    bufs.Count();
    ghost var all := bufs.Contents();
    ghost var h := Header(all[src]);
    HeaderFits(all[src]);
    lost, res, tag := UnmarshalHeader(bufs, src);
    if lost || res == -1 {
      return;
    }
    var data := bufs.Pullup(src, res);
    if res < 0 {
      return lost, -1, tag;  // the length as a size_t is more than evbuffer_add can take
    }
    var len: nat := res;
    ghost var s := h.2;
    var added := bufs.Add(dst, if data.Some? then data.value else []);
    if added.Refused? {
      return lost, -1, tag;
    }
    bufs.Drain(src, len);
    DropIs(s, len);
    assert all[src := s][dst := all[dst] + s[..len]][src := s[len..]]
      == all[src := s[len..]][dst := all[dst] + s[..len]];
  }

  lemma HeaderFits(s: seq<byte>)
    ensures var h := Header(s); |h.2| <= |s| && h.0 <= |h.2| && h.0 <= INT_MAX
  {
    hide ReadInt;
    if ReadTag(s).Some? { ReadIntFits(s[ReadTag(s).value.1..], 8); }
  }

  /** evtag_consume */
  method Consume(bufs: Buffers, i: nat) returns (lost: bool, res: int)
    requires bufs.Valid() && i < |bufs.b|
    modifies bufs
    ensures bufs.Valid() && |bufs.b| == |old(bufs.b)|
    ensures old(bufs.Fine()) ==> bufs.Fine()
    ensures lost <==> !TagShort(old(bufs.Contents())[i])
    ensures !lost ==>
      var h := Header(old(bufs.Contents())[i]);
      && res == (if h.0 == -1 then -1 else 0) && h.0 <= |h.2|
      && (h.0 >= 0 ==> bufs.Contents() == old(bufs.Contents())[i := h.2[h.0..]])
  {
    hide ReadTag, ReadInt, TagShort, Header, Buffers.Valid, AllTight, Buffers.Contents;
    bufs.Count();
    HeaderFits(bufs.Contents()[i]);
    ghost var h := Header(bufs.Contents()[i]);
    var len, tag;
    lost, len, tag := UnmarshalHeader(bufs, i);
    if lost || len == -1 {
      return lost, -1;
    }
    if len >= 0 {
      bufs.Drain(i, len);
      DropIs(h.2, len);
    }
    res := 0;
  }

  /** evtag_peek_length: how long the whole item is; evtag_payload_length, without its header */
  method PeekLength(bufs: Buffers, i: nat, payloadOnly: bool) returns (lost: bool, ok: bool, length: nat)
    requires bufs.Valid() && i < |bufs.b|
    modifies bufs
    ensures bufs.Valid() && |bufs.b| == |old(bufs.b)| && bufs.Contents() == old(bufs.Contents())
    ensures old(bufs.Fine()) ==> bufs.Fine()
    ensures lost <==> !TagShort(bufs.Contents()[i])
    ensures !lost ==>
      match ReadTag(bufs.Contents()[i])
      case None => !ok
      case Some((_, n)) =>
        match ReadInt(bufs.Contents()[i][n..], 8)
        case None => !ok
        case Some((len, k)) => ok && length == (if payloadOnly then len else (len + k + n) % TWO32)
  {
    hide ReadInt, TagEnd, Sevens, Buffers.Valid, AllTight, Buffers.Contents;
    bufs.Count();
    var len, tag;
    lost, len, tag := PeekTag(bufs, i);
    if lost || len == -1 {
      return lost, false, 0;
    }
    ShortLength(bufs.Contents()[i]);
    var res, number := DecodeIntInternal(bufs, i, len, 8);
    if res == -1 {
      return lost, false, 0;
    }
    ReadIntFits(bufs.Contents()[i][len..], 8);
    ok, length := true, if payloadOnly then number else (number + (res + len)) % TWO32;
  }

  lemma ShortLength(s: seq<byte>)
    requires TagShort(s)
    ensures TagEnd(s) <= 5
  {}

  /** A length and an integer in as many bytes: the result, the number, and what is left */
  function SizedInt(t: seq<byte>, maxNibbles: nat): (r: (int, nat, seq<byte>))
  {
    match ReadInt(t, 8)
    case None => (-1, 0, t)
    case Some((len, k)) =>
      if |t| - k < len then (-1, 0, t[k..])
      else match ReadInt(t[k..], maxNibbles)
      case None => (-1, 0, t[k + len..])
      case Some((number, l)) => (if l > len then -1 else l, number, t[k + len..])
  }

  /** evtag_unmarshal_int and evtag_unmarshal_int64, on bytes: the result, the number, and what is left */
  function TaggedInt(s: seq<byte>, needTag: nat, maxNibbles: nat): (r: (int, nat, seq<byte>))
  {
    match ReadTag(s)
    case None => (-1, 0, s)
    case Some((tag, n)) => if tag != needTag then (-1, 0, s[n..]) else SizedInt(s[n..], maxNibbles)
  }

  lemma PutBack(all: seq<seq<byte>>, i: nat)
    requires i < |all|
    ensures all[i := all[i]] == all
  {}

  lemma PutTwice(all: seq<seq<byte>>, i: nat, x: seq<byte>, y: seq<byte>)
    requires i < |all|
    ensures all[i := x][i := y] == all[i := y] && all[i := x][i] == x && |all[i := x]| == |all|
  {}

  /** The end of evtag_unmarshal_int: the integer in the payload, of which all len bytes go. */
  method PayloadInt(bufs: Buffers, i: nat, len: nat, maxNibbles: nat) returns (res: int, number: nat)
    requires bufs.Valid() && i < |bufs.b| && maxNibbles <= 16 && i < |bufs.Contents()| && len <= |bufs.Contents()[i]|
    modifies bufs
    ensures bufs.Valid() && |bufs.b| == |old(bufs.b)|
    ensures old(bufs.Fine()) ==> bufs.Fine()
    ensures bufs.Contents() == old(bufs.Contents())[i := old(bufs.Contents())[i][len..]]
    ensures match ReadInt(old(bufs.Contents())[i], maxNibbles)
      case None => res == -1
      case Some((v, n)) => number == v && res == if n > len then -1 else n
  {
    hide ReadInt, Buffers.Valid, AllTight, Buffers.Contents, Drop;
    bufs.Count();
    ghost var s := bufs.Contents()[i];
    assert s[0..] == s;
    res, number := DecodeIntInternal(bufs, i, 0, maxNibbles);
    ReadIntFits(s, maxNibbles);
    bufs.Drain(i, len);
    DropIs(s, len);
    if res > len {
      res := -1;
    }
  }

  /** evtag_unmarshal_int after the tag */
  method UnmarshalSized(bufs: Buffers, i: nat, maxNibbles: nat) returns (res: int, number: nat)
    requires bufs.Valid() && i < |bufs.b| && maxNibbles <= 16 && i < |bufs.Contents()|
    modifies bufs
    ensures bufs.Valid() && |bufs.b| == |old(bufs.b)|
    ensures old(bufs.Fine()) ==> bufs.Fine()
    ensures var r := SizedInt(old(bufs.Contents())[i], maxNibbles);
      && res == r.0 && (res >= 0 ==> number == r.1) && bufs.Contents() == old(bufs.Contents())[i := r.2]
  {
    hide ReadInt, Buffers.Valid, AllTight, Buffers.Contents, Drop;
    bufs.Count();
    ghost var all := bufs.Contents();
    ghost var t := all[i];
    PutBack(all, i);
    res, number := -1, 0;
    var ok, len := DecodeInt(bufs, i);
    if !ok {
      return;
    }
    ReadIntFits(t, 8);
    ghost var k := ReadInt(t, 8).value.1;
    PutTwice(all, i, t[k..], t[k..]);
    var left := bufs.Length(i);
    if left < len {
      return;
    }
    res, number := PayloadInt(bufs, i, len, maxNibbles);
    DropTwice(t, k, len);
    PutTwice(all, i, t[k..], t[k + len..]);
    ReadIntFits(t[k..], maxNibbles);
  }

  /** Each step takes its bytes, also if a later one fails: the length, and, if there are as many, the payload. */
  ghost predicate SizedTaken(t: seq<byte>, rest: seq<byte>, maxNibbles: nat, res: int, number: nat)
  {
    match ReadInt(t, 8)
    case None => res == -1 && rest == t
    case Some((len, k)) =>
      var u := t[k..];
      if |u| < len then res == -1 && rest == u
      else
        && rest == u[len..]
        && match ReadInt(u, maxNibbles)
           case None => res == -1
           case Some((v, l)) => if l > len then res == -1 else res == l && number == v
  }

  /** What an attempt to take an integer with a tag does; a wrong tag is taken, too. */
  ghost predicate IntTaken(s: seq<byte>, rest: seq<byte>, needTag: nat, maxNibbles: nat, res: int, number: nat)
  {
    match ReadTag(s)
    case None => res == -1 && rest == s
    case Some((tag, n)) =>
      if tag != needTag then res == -1 && rest == s[n..] else SizedTaken(s[n..], rest, maxNibbles, res, number)
  }

  lemma SizedIntIs(t: seq<byte>, maxNibbles: nat)
    ensures var r := SizedInt(t, maxNibbles); SizedTaken(t, r.2, maxNibbles, r.0, r.1)
  {
    hide Value;
    if ReadInt(t, 8).Some? {
      var len, k := ReadInt(t, 8).value.0, ReadInt(t, 8).value.1;
      if |t| - k >= len { DropTwice(t, k, len); }
    }
  }

  lemma TaggedIntIs(s: seq<byte>, needTag: nat, maxNibbles: nat)
    ensures var r := TaggedInt(s, needTag, maxNibbles); IntTaken(s, r.2, needTag, maxNibbles, r.0, r.1)
  {
    hide SizedTaken, SizedInt;
    if ReadTag(s).Some? { SizedIntIs(s[ReadTag(s).value.1..], maxNibbles); }
  }

  /** evtag_unmarshal_int and evtag_unmarshal_int64 */
  method UnmarshalInt(bufs: Buffers, i: nat, needTag: nat, maxNibbles: nat)
    returns (lost: bool, res: int, number: nat)
    requires bufs.Valid() && i < |bufs.b| && maxNibbles <= 16
    modifies bufs
    ensures bufs.Valid() && |bufs.b| == |old(bufs.b)|
    ensures old(bufs.Fine()) ==> bufs.Fine()
    ensures lost <==> !TagShort(old(bufs.Contents())[i])
    ensures !lost ==>
      var r := TaggedInt(old(bufs.Contents())[i], needTag, maxNibbles);
      && res == r.0 && (res >= 0 ==> number == r.1) && bufs.Contents() == old(bufs.Contents())[i := r.2]
  {
    hide ReadTag, SizedInt, TagShort, Buffers.Valid, AllTight, Buffers.Contents, Drop;
    bufs.Count();
    ghost var all := bufs.Contents();
    ghost var s := all[i];
    PutBack(all, i);
    number := 0;
    var tag;
    lost, res, tag := DecodeTag(bufs, i);
    if lost || res == -1 {
      return;
    }
    ghost var n := res;
    PutTwice(all, i, s[n..], s[n..]);
    if tag != needTag {
      return lost, -1, number;
    }
    res, number := UnmarshalSized(bufs, i, maxNibbles);
    PutTwice(all, i, s[n..], SizedInt(s[n..], maxNibbles).2);
  }

  /** A marshalled integer is read back, and just its own bytes are taken. */
  lemma TaggedIntOfItem(item: seq<byte>, tag: nat, data: seq<byte>, number: nat, maxNibbles: nat, rest: seq<byte>)
    requires IsItem(item, tag, data) && SpellsInt(data, number, maxNibbles)
    ensures TagShort(item + rest) && TaggedInt(item + rest, tag, maxNibbles) == (|data|, number, rest)
  {
    hide ReadTag, ReadInt, TagShort, IsItem, SpellsInt;
    var n, k := ItemReads(item, tag, data, rest);
    var s := item + rest;
    ReadIntSpelled(data, number, maxNibbles, rest);
    assert s[k + |data|..] == rest;
  }

  /** evtag_peek_length and evtag_payload_length of an item agree with what it is and what is in it. */
  lemma LengthsOfItem(item: seq<byte>, tag: nat, data: seq<byte>, rest: seq<byte>)
    requires IsItem(item, tag, data) && |item| < TWO32
    ensures var s := item + rest;
      && TagShort(s) && ReadTag(s).Some? && ReadTag(s).value.0 == tag
      && ReadInt(s[ReadTag(s).value.1..], 8).Some?
    ensures var s := item + rest; var n := ReadTag(s).value.1; var l := ReadInt(s[n..], 8).value;
      l.0 == |data| && (l.0 + l.1 + n) % TWO32 == |item|
  {
    hide ReadTag, ReadInt, TagShort, IsItem;
    var n, k := ItemReads(item, tag, data, rest);
  }

  // ----- lists of items

  datatype Item = Item(tag: nat, data: seq<byte>)

  ghost predicate ItemsOk(items: seq<Item>)
  {
    forall k :: 0 <= k < |items| ==> items[k].tag < TWO32 && |items[k].data| <= INT_MAX
  }

  ghost function TotalLength(items: seq<Item>, from: nat): (n: nat)
    requires from <= |items|
    decreases |items| - from
  {
    if from == |items| then 0 else 10 + |items[from].data| + TotalLength(items, from + 1)
  }

  /** The items from `from` on, one after the other. */
  ghost predicate Marshalled(s: seq<byte>, items: seq<Item>, from: nat)
    requires from <= |items|
    decreases |items| - from
  {
    if from == |items| then s == []
    else exists n ::
      0 <= n <= |s| && IsItem(s[..n], items[from].tag, items[from].data) && Marshalled(s[n..], items, from + 1)
  }

  lemma {:induction false} MarshalledMore(s: seq<byte>, items: seq<Item>, from: nat, x: Item, item: seq<byte>)
    requires from <= |items| && Marshalled(s, items, from) && IsItem(item, x.tag, x.data)
    ensures Marshalled(s + item, items + [x], from)
    decreases |items| - from
  {
    hide IsItem;
    var items', s' := items + [x], s + item;
    if from == |items| {
      assert s'[..|item|] == item && s'[|item|..] == [];
      assert Marshalled([], items', from + 1);
    } else {
      var n :| 0 <= n <= |s| && IsItem(s[..n], items[from].tag, items[from].data)
        && Marshalled(s[n..], items, from + 1);
      MarshalledMore(s[n..], items, from + 1, x, item);
      assert s'[..n] == s[..n] && s'[n..] == s[n..] + item;
    }
  }

  /** Marshalling a list of items into an empty buffer. */
  method MarshalAll(bufs: Buffers, items: seq<Item>) returns (ghost s: seq<byte>)
    requires bufs.Fine() && bufs.Contents() == [[], []] && ItemsOk(items) && TotalLength(items, 0) <= SIZE_MAX
    modifies bufs
    ensures bufs.Fine() && bufs.Contents() == [s, []] && Marshalled(s, items, 0) && |s| <= SIZE_MAX
  {
    hide IsItem, Marshalled, Buffers.Valid, AllTight, Buffers.Contents;
    bufs.Count();
    s := [];
    NothingMarshalled();
    for k := 0 to |items|
      invariant bufs.Fine() && |bufs.b| == 2 && bufs.Contents() == [s, []] && Marshalled(s, items[..k], 0)
      invariant |s| + TotalLength(items, k) <= SIZE_MAX
    {
      ghost var item := Marshal(bufs, 0, items[k].tag, items[k].data);
      ItemLength(item, items[k].tag, items[k].data);
      MarshalledMore(s, items[..k], 0, items[k], item);
      assert items[..k] + [items[k]] == items[..k + 1];
      s := s + item;
    }
    assert items[..|items|] == items;
  }

  /** Unmarshalling one item through the second buffer. */
  method UnmarshalOne(bufs: Buffers, ghost s: seq<byte>, ghost item: seq<byte>, ghost x: Item) returns (back: Item)
    requires bufs.Fine() && item <= s && bufs.Contents() == [s, []] && IsItem(item, x.tag, x.data)
    requires |x.data| <= INT_MAX && |s| <= SIZE_MAX
    modifies bufs
    ensures bufs.Fine() && bufs.Contents() == [s[|item|..], []] && back == x
  {
    hide IsItem, Buffers.Valid, AllTight, Buffers.Contents, Header, TagShort, ReadTag;
    bufs.Count();
    ghost var rest := s[|item|..];
    assert item + rest == s;
    HeaderOfItem(item, x.tag, x.data, rest);
    var lost, res, tag := Unmarshal(bufs, 0, 1);
    AfterHeader(x.data, rest);
    var data := bufs.Remove(1, res);
    TakeAll(data, x.data);
    back := Item(tag, data);
  }

  /** Unmarshalling a list of items. */
  method UnmarshalAll(bufs: Buffers, ghost s: seq<byte>, count: nat, ghost items: seq<Item>) returns (back: seq<Item>)
    requires bufs.Fine() && bufs.Contents() == [s, []] && Marshalled(s, items, 0) && |s| <= SIZE_MAX && ItemsOk(items)
    requires count == |items|
    modifies bufs
    ensures back == items
  {
    hide IsItem, Marshalled, Buffers.Valid, AllTight, Buffers.Contents;
    back := [];
    ghost var t := s;
    for k := 0 to count
      invariant bufs.Fine() && bufs.Contents() == [t, []] && Marshalled(t, items, k)
      invariant back == items[..k] && |t| <= SIZE_MAX
    {
      ghost var n := FirstItem(t, items, k);
      var x := UnmarshalOne(bufs, t, t[..n], items[k]);
      back := back + [x];
      t := t[n..];
    }
  }

  /** Any list of items, marshalled into one buffer and unmarshalled from it again, comes back as it was. */
  method RoundTrip(items: seq<Item>) returns (back: seq<Item>)
    requires ItemsOk(items) && TotalLength(items, 0) <= SIZE_MAX
    ensures back == items
  {
    hide *;
    var bufs := new Buffers(2);
    TwoEmpty(bufs.Contents());
    ghost var s := MarshalAll(bufs, items);
    back := UnmarshalAll(bufs, s, |items|, items);
  }

  lemma TwoEmpty(s: seq<seq<byte>>)
    requires |s| == 2 && s[0] == [] && s[1] == []
    ensures s == [[], []]
  {}

  lemma NothingMarshalled()
    ensures Marshalled([], [], 0)
  {}

  lemma ItemLength(item: seq<byte>, tag: nat, data: seq<byte>)
    requires IsItem(item, tag, data)
    ensures |item| <= 10 + |data|
  {
    var n: nat, k: nat :| Framed(item, tag, data, n, k);
    SpelledLengths(item[..n], tag, item[n..k], |data|);
  }

  lemma FirstItem(s: seq<byte>, items: seq<Item>, k: nat) returns (n: nat)
    requires k < |items| && Marshalled(s, items, k)
    ensures n <= |s| && IsItem(s[..n], items[k].tag, items[k].data) && Marshalled(s[n..], items, k + 1)
  {
    n :| 0 <= n <= |s| && IsItem(s[..n], items[k].tag, items[k].data) && Marshalled(s[n..], items, k + 1);
  }

  lemma AfterHeader(data: seq<byte>, rest: seq<byte>)
    ensures (data + rest)[..|data|] == data && (data + rest)[|data|..] == rest && [] + data == data
    ensures Take(data, |data|) == data && Drop(data, |data|) == []
  {}

  lemma TakeAll(a: seq<byte>, data: seq<byte>)
    requires a == Take(data, |data|)
    ensures a == data
  {}
}
