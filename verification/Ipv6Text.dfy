/**
 The text form of IPv6 addresses, section 2.2 of RFC 4291: printing with the longest run of zeros left out,
 and parsing.
 */
module Ipv6Text {
  import opened Basics
  type Word = w: int | 0 <= w < 0x1_0000

  /** The text t is in s at src. */
  ghost predicate Has(s: string, src: nat, t: string)
  {
    src + |t| <= |s| && s[src..src + |t|] == t
  }

  lemma HasSplit(s: string, src: nat, a: string, b: string)
    requires Has(s, src, a + b)
    ensures Has(s, src, a) && Has(s, src + |a|, b)
  {
    assert s[src..src + |a|] == s[src..src + |a + b|][..|a|];
    assert s[src + |a|..src + |a + b|] == s[src..src + |a + b|][|a|..];
  }

  lemma HasChar(s: string, src: nat, c: char)
    requires Has(s, src, [c])
    ensures src < |s| && s[src] == c
  {
    assert s[src] == s[src..src + 1][0];
  }

  // ----- hexadecimal

  function HexDigit(d: nat): (c: char)
    requires d < 16
  {
    if d < 10 then ('0' as int + d) as char else ('a' as int + d - 10) as char
  }

  /** The value of a hexadecimal digit, EVUTIL_ISXDIGIT being that it has one */
  function HexValue(c: char): (v: Option<nat>)
  {
    if '0' <= c <= '9' then Some(c as int - '0' as int)
    else if 'a' <= c <= 'f' then Some(c as int - 'a' as int + 10)
    else if 'A' <= c <= 'F' then Some(c as int - 'A' as int + 10)
    else None
  }

  /** The digits, in both cases, and nothing else. */
  lemma HexValueIs(c: char)
    ensures HexValue('0') == Some(0) && HexValue('1') == Some(1) && HexValue('2') == Some(2)
    ensures HexValue('3') == Some(3) && HexValue('4') == Some(4) && HexValue('5') == Some(5)
    ensures HexValue('6') == Some(6) && HexValue('7') == Some(7) && HexValue('8') == Some(8)
    ensures HexValue('9') == Some(9)
    ensures HexValue('a') == Some(10) && HexValue('b') == Some(11) && HexValue('c') == Some(12)
    ensures HexValue('d') == Some(13) && HexValue('e') == Some(14) && HexValue('f') == Some(15)
    ensures HexValue('A') == Some(10) && HexValue('B') == Some(11) && HexValue('C') == Some(12)
    ensures HexValue('D') == Some(13) && HexValue('E') == Some(14) && HexValue('F') == Some(15)
    ensures HexValue(c).None? <==> c < '0' || '9' < c < 'A' || 'F' < c < 'a' || 'f' < c
    ensures HexValue(c).Some? ==> HexValue(c).value < 16
  {}

  /** %x */
  function Hex(n: nat): (s: string)
    ensures |s| > 0
  {
    if n < 16 then [HexDigit(n)] else Hex(n / 16) + [HexDigit(n % 16)]
  }

  /** How many hexadecimal digits there are from src on. */
  function HexRun(s: string, src: nat): (k: nat)
    requires src <= |s|
    ensures src + k <= |s|
    decreases |s| - src
  {
    if src < |s| && HexValue(s[src]).Some? then 1 + HexRun(s, src + 1) else 0
  }

  /** The number that k digits from src on make. */
  function HexNumber(s: string, src: nat, k: nat): (n: nat)
    requires src + k <= |s|
  {
    if k == 0 then 0
    else 16 * HexNumber(s, src, k - 1) + (match HexValue(s[src + k - 1]) case None => 0 case Some(v) => v)
  }

  /** strtol(src, &next, 16) from a hexadecimal digit on: the number, and where it ends; 0x may come first */
  function Strtol(s: string, src: nat): (r: (nat, nat))
    requires src <= |s|
    ensures src <= r.1 <= |s|
  {
    if src + 2 < |s| && s[src] == '0' && (s[src + 1] == 'x' || s[src + 1] == 'X') && HexValue(s[src + 2]).Some? then
      (HexNumber(s, src + 2, HexRun(s, src + 2)), src + 2 + HexRun(s, src + 2))
    else (HexNumber(s, src, HexRun(s, src)), src + HexRun(s, src))
  }

  lemma HexDigitIs(d: nat)
    requires d < 16
    ensures HexValue(HexDigit(d)) == Some(d) && HexDigit(d) == "0123456789abcdef"[d]
  {}

  /** No zeros in front. */
  lemma {:induction false} HexFirst(n: nat)
    ensures n > 0 ==> Hex(n)[0] != '0'
    ensures n == 0 ==> Hex(n) == "0"
  {
    if n >= 16 { HexFirst(n / 16); }
  }

  lemma {:induction false} HexLength(n: nat)
    ensures n < 0x10 ==> |Hex(n)| == 1
    ensures n < 0x100 ==> |Hex(n)| <= 2
    ensures n < 0x1000 ==> |Hex(n)| <= 3
    ensures n < 0x1_0000 ==> |Hex(n)| <= 4
  {
    if n >= 16 { HexLength(n / 16); }
  }

  /** A printed number is digits, and makes that number. */
  lemma {:induction false} HexIs(s: string, src: nat, n: nat)
    requires Has(s, src, Hex(n))
    ensures forall i :: src <= i < src + |Hex(n)| ==> HexValue(s[i]).Some?
    ensures HexNumber(s, src, |Hex(n)|) == n
  {
    var k := |Hex(n)|;
    assert forall i :: src <= i < src + k ==> s[i] == s[src..src + k][i - src];
    if n < 16 {
      HexDigitIs(n);
      assert s[src] == HexDigit(n);
      assert HexNumber(s, src, 0) == 0;
    } else {
      assert s[src..src + k - 1] == s[src..src + k][..k - 1] == Hex(n / 16);
      HexIs(s, src, n / 16);
      HexDigitIs(n % 16);
      assert s[src + k - 1] == HexDigit(n % 16);
    }
  }

  lemma {:induction false} HexRunIs(s: string, src: nat, k: nat)
    requires src + k <= |s| && (forall i :: src <= i < src + k ==> HexValue(s[i]).Some?)
    requires src + k < |s| ==> HexValue(s[src + k]).None?
    ensures HexRun(s, src) == k
    decreases k
  {
    if k > 0 { HexRunIs(s, src + 1, k - 1); }
  }

  /** strtol gives back a number printed before a colon or at the end. */
  lemma StrtolHex(s: string, src: nat, n: Word)
    requires Has(s, src, Hex(n))
    requires src + |Hex(n)| < |s| ==> s[src + |Hex(n)|] == ':'
    ensures Strtol(s, src) == (n, src + |Hex(n)|) && |Hex(n)| <= 4 && HexValue(s[src]).Some?
  {
    var k := |Hex(n)|;
    HexIs(s, src, n);
    HexRunIs(s, src, k);
    HexLength(n);
    if src + 1 < |s| {
      assert src + 1 < src + k ==> HexValue(s[src + 1]).Some?;
    }
  }

  // ----- decimal

  /** %d, for a byte */
  function Dec(n: nat): (s: string)
    ensures |s| > 0 && forall i :: 0 <= i < |s| ==> '0' <= s[i] <= '9'
  {
    if n < 10 then [('0' as int + n) as char] else Dec(n / 10) + [('0' as int + n % 10) as char]
  }

  predicate IsDigit(c: char)
  {
    '0' <= c <= '9'
  }

  predicate IsSpace(c: char)
  {
    c == ' ' || 9 as char <= c <= 13 as char
  }

  function DecRun(s: string, src: nat): (k: nat)
    requires src <= |s|
    ensures src + k <= |s|
    decreases |s| - src
  {
    if src < |s| && IsDigit(s[src]) then 1 + DecRun(s, src + 1) else 0
  }

  function DigitValue(c: char): (v: nat)
    requires IsDigit(c)
  {
    c as int - '0' as int
  }

  function DecNumber(s: string, src: nat, k: nat): (n: nat)
    requires src + k <= |s| && forall i :: src <= i < src + k ==> IsDigit(s[i])
  {
    if k == 0 then 0 else 10 * DecNumber(s, src, k - 1) + DigitValue(s[src + k - 1])
  }

  function SkipSpace(s: string, src: nat): (j: nat)
    requires src <= |s|
    ensures src <= j <= |s|
    decreases |s| - src
  {
    if src < |s| && IsSpace(s[src]) then SkipSpace(s, src + 1) else src
  }

  lemma DecRunDigits(s: string, src: nat)
    requires src <= |s|
    ensures forall i :: src <= i < src + DecRun(s, src) ==> IsDigit(s[i])
    decreases |s| - src
  {}

  /** scanf's %d: white space, a sign, and digits; the number, and where it ends */
  function ScanInt(s: string, src: nat): (r: Option<(int, nat)>)
    requires src <= |s|
    ensures r.Some? ==> src < r.value.1 <= |s|
  {
    var j := SkipSpace(s, src);
    var neg := j < |s| && s[j] == '-';
    var d := if neg || (j < |s| && s[j] == '+') then j + 1 else j;
    var k := DecRun(s, d);
    DecRunDigits(s, d);
    if k == 0 then None else Some((if neg then 0 - DecNumber(s, d, k) else DecNumber(s, d, k) as int, d + k))
  }

  /** sscanf(eow, "%d.%d.%d.%d%c") == 4, and the four numbers */
  function ScanQuad(s: string, src: nat): (r: Option<seq<int>>)
    requires src <= |s|
    ensures r.Some? ==> |r.value| == 4
  {
    var a := ScanInt(s, src);
    if a.None? || a.value.1 == |s| || s[a.value.1] != '.' then None else
    var b := ScanInt(s, a.value.1 + 1);
    if b.None? || b.value.1 == |s| || s[b.value.1] != '.' then None else
    var c := ScanInt(s, b.value.1 + 1);
    if c.None? || c.value.1 == |s| || s[c.value.1] != '.' then None else
    var d := ScanInt(s, c.value.1 + 1);
    if d.None? || d.value.1 != |s| then None else Some([a.value.0, b.value.0, c.value.0, d.value.0])
  }

  /** Each of the four numbers is a byte. */
  predicate Bytes(q: seq<int>)
    requires |q| == 4
  {
    0 <= q[0] <= 255 && 0 <= q[1] <= 255 && 0 <= q[2] <= 255 && 0 <= q[3] <= 255
  }

  function Quad(a: nat, b: nat, c: nat, d: nat): (s: string)
  {
    Dec(a) + ("." + (Dec(b) + ("." + (Dec(c) + ("." + Dec(d))))))
  }

  lemma {:induction false} DecIs(s: string, src: nat, n: nat)
    requires Has(s, src, Dec(n))
    ensures (forall i :: src <= i < src + |Dec(n)| ==> IsDigit(s[i])) && DecNumber(s, src, |Dec(n)|) == n
  {
    var k := |Dec(n)|;
    assert forall i :: src <= i < src + k ==> s[i] == s[src..src + k][i - src];
    if n < 10 {
      assert s[src] == Dec(n)[0];
      assert DecNumber(s, src, 0) == 0;
    } else {
      assert s[src..src + k - 1] == s[src..src + k][..k - 1] == Dec(n / 10);
      DecIs(s, src, n / 10);
      assert s[src + k - 1] == Dec(n)[k - 1];
    }
  }

  lemma {:induction false} DecRunIs(s: string, src: nat, k: nat)
    requires src + k <= |s| && (forall i :: src <= i < src + k ==> IsDigit(s[i]))
    requires (src + k < |s| ==> !IsDigit(s[src + k]))
    ensures DecRun(s, src) == k
    decreases k
  {
    if k > 0 { DecRunIs(s, src + 1, k - 1); }
  }

  lemma ScanDec(s: string, src: nat, n: nat)
    requires Has(s, src, Dec(n)) && (src + |Dec(n)| < |s| ==> s[src + |Dec(n)|] == '.')
    ensures ScanInt(s, src) == Some((n as int, src + |Dec(n)|))
  {
    DecIs(s, src, n);
    DecRunIs(s, src, |Dec(n)|);
    assert s[src] == s[src..src + |Dec(n)|][0];
  }

  lemma ScanQuadIs(s: string, src: nat, a: nat, b: nat, c: nat, d: nat)
    requires src <= |s| && s[src..] == Quad(a, b, c, d)
    ensures ScanQuad(s, src) == Some([a as int, b as int, c as int, d as int])
  {
    hide Dec, ScanInt, Has;
    HasRest(s, src, Quad(a, b, c, d));
    var i := ScanDot(s, src, a, Dec(b) + ("." + (Dec(c) + ("." + Dec(d)))));
    var j := ScanDot(s, i, b, Dec(c) + ("." + Dec(d)));
    var k := ScanDot(s, j, c, Dec(d));
    HasEnd(s, k, Dec(d));
    ScanDec(s, k, d);
  }

  lemma HasRest(s: string, src: nat, t: string)
    requires src <= |s| && s[src..] == t
    ensures Has(s, src, t) && |s| == src + |t|
  {}

  lemma HasEnd(s: string, src: nat, t: string)
    requires Has(s, src, t)
    ensures src + |t| <= |s|
  {}

  /** A number and the dot after it. */
  lemma ScanDot(s: string, src: nat, n: nat, rest: string) returns (next: nat)
    requires Has(s, src, Dec(n) + ("." + rest))
    ensures next == src + |Dec(n)| + 1 && src <= next <= |s| && Has(s, next, rest)
    ensures ScanInt(s, src) == Some((n as int, next - 1)) && next - 1 < |s| && s[next - 1] == '.'
  {
    hide Dec, ScanInt, Has;
    HasSplit(s, src, Dec(n), "." + rest);
    HasSplit(s, src + |Dec(n)|, ".", rest);
    HasChar(s, src + |Dec(n)|, '.');
    ScanDec(s, src, n);
    next := src + |Dec(n)| + 1;
    HasEnd(s, next, rest);
  }

  // ----- the words of an address

  function Pair(hi: byte, lo: byte): (w: Word)
  {
    256 * (hi as int) + lo
  }

  ghost predicate WordsOf(addr: seq<byte>, words: seq<Word>)
  {
    |addr| == 16 && |words| == 8 && forall i :: 0 <= i < 8 ==> words[i] == Pair(addr[2 * i], addr[2 * i + 1])
  }

  method ToWords(addr: seq<byte>) returns (words: seq<Word>)
    requires |addr| == 16
    ensures WordsOf(addr, words)
  {
    words := [];
    for i := 0 to 8
      invariant |words| == i && forall k :: 0 <= k < i ==> words[k] == Pair(addr[2 * k], addr[2 * k + 1])
    {
      words := words + [Pair(addr[2 * i], addr[2 * i + 1])];
    }
  }

  method ToBytes(words: seq<Word>) returns (addr: seq<byte>)
    requires |words| == 8
    ensures WordsOf(addr, words)
  {
    addr := [];
    for i := 0 to 8
      invariant |addr| == 2 * i && forall k :: 0 <= k < i ==> words[k] == Pair(addr[2 * k], addr[2 * k + 1])
    {
      addr := addr + [words[i] / 256, words[i] % 256];
    }
  }

  lemma SameWords(a: seq<byte>, b: seq<byte>, words: seq<Word>)
    requires WordsOf(a, words) && WordsOf(b, words)
    ensures a == b
  {
    forall k | 0 <= k < 16 ensures a[k] == b[k] {
      assert words[k / 2] == Pair(a[2 * (k / 2)], a[2 * (k / 2) + 1]) == Pair(b[2 * (k / 2)], b[2 * (k / 2) + 1]);
    }
  }

  // ----- the longest gap

  /** Where the zeros from i on end. */
  function ZeroEnd(words: seq<Word>, i: nat): (e: nat)
    requires i <= |words|
    ensures i <= e <= |words| && (forall k :: i <= k < e ==> words[k] == 0) && (e < |words| ==> words[e] != 0)
    decreases |words| - i
  {
    if i < |words| && words[i] == 0 then ZeroEnd(words, i + 1) else i
  }

  /** pos is where the first of the longest runs of two zeros or more starts; -1 if there is none. */
  ghost predicate IsLongestGap(words: seq<Word>, pos: int)
    requires |words| == 8
  {
    && -1 <= pos < 8
    && (pos == -1 ==> forall k :: 0 <= k < 7 ==> words[k] != 0 || words[k + 1] != 0)
    && (pos >= 0 ==> ZeroEnd(words, pos) >= pos + 2)
    && (pos >= 0 ==> forall k :: 0 <= k < 8 ==>
      && ZeroEnd(words, k) - k <= ZeroEnd(words, pos) - pos
      && (k < pos ==> ZeroEnd(words, k) - k < ZeroEnd(words, pos) - pos))
  }

  /** The first loop of evutil_inet_ntop */
  method LongestGap(words: seq<Word>) returns (pos: int)
    requires |words| == 8
    ensures IsLongestGap(words, pos)
  {
    var longestLen, longestPos, i := 0, -1, 0;
    while i < 8
      invariant 0 <= i <= 8 && -1 <= longestPos < i && (longestPos == -1 <==> longestLen == 0)
      invariant longestPos >= 0 ==> longestLen == ZeroEnd(words, longestPos) - longestPos > 0
      invariant forall k ::
        0 <= k < i ==> ZeroEnd(words, k) - k <= longestLen && (k < longestPos ==> ZeroEnd(words, k) - k < longestLen)
      invariant forall k :: 0 <= k < i ==> ZeroEnd(words, k) <= i
    {
      if words[i] == 0 {
        var curPos, curLen := i, 1;
        i := i + 1;
        while i < 8 && words[i] == 0
          invariant curPos < i <= 8 && curLen == i - curPos && forall k :: curPos <= k < i ==> words[k] == 0
        {
          i := i + 1;
          curLen := curLen + 1;
        }
        forall k | curPos <= k < i ensures ZeroEnd(words, k) == i {
          ZeroEndIs(words, k, i);
        }
        if curLen > longestLen {
          longestPos, longestLen := curPos, curLen;
        }
      } else {
        i := i + 1;
      }
    }
    pos := if longestLen <= 1 then -1 else longestPos;
    if longestLen <= 1 {
      forall k | 0 <= k < 7 ensures words[k] != 0 || words[k + 1] != 0 {
        ZeroPair(words, k);
      }
    }
  }

  lemma {:induction false} ZeroEndIs(words: seq<Word>, k: nat, e: nat)
    requires k <= e <= |words| && (forall i :: k <= i < e ==> words[i] == 0) && (e < |words| ==> words[e] != 0)
    ensures ZeroEnd(words, k) == e
    decreases e - k
  {
    if k < e { ZeroEndIs(words, k + 1, e); }
  }

  lemma ZeroPair(words: seq<Word>, k: nat)
    requires k + 1 < |words|
    ensures words[k] == 0 && words[k + 1] == 0 ==> ZeroEnd(words, k) >= k + 2
  {}

  // ----- printing

  /** Words, each with a colon after it. */
  function Colons(ws: seq<Word>): (s: string)
  {
    if ws == [] then "" else Hex(ws[0]) + (":" + Colons(ws[1..]))
  }

  /** Words with colons between them. */
  function Joined(ws: seq<Word>): (s: string)
  {
    if ws == [] then "" else Colons(ws[..|ws| - 1]) + Hex(ws[|ws| - 1])
  }

  /** Words, a gap, and words. */
  function Gapped(before: seq<Word>, rest: string): (s: string)
  {
    (if before == [] then ":" else Colons(before)) + (":" + rest)
  }

  /** Whether the last two words are printed as an IPv4 address. */
  predicate IsV4(words: seq<Word>)
    requires |words| == 8
  {
    words[..5] == [0, 0, 0, 0, 0] && ((words[5] == 0 && words[6] != 0 && words[7] != 0) || words[5] == 0xffff)
  }

  function V4Text(words: seq<Word>): (s: string)
    requires |words| == 8
  {
    var q := Quad(words[6] / 256, words[6] % 256, words[7] / 256, words[7] % 256);
    Gapped([], if words[5] == 0 then q else Colons([words[5]]) + q)
  }

  /** The text with the gap at pos, if it is not -1 */
  function WordText(words: seq<Word>, pos: int): (s: string)
    requires -1 <= pos < |words|
  {
    if pos == -1 then Joined(words) else Gapped(words[..pos], Joined(words[ZeroEnd(words, pos)..]))
  }

  lemma {:induction false} ColonsPush(ws: seq<Word>, w: Word)
    ensures Colons(ws + [w]) == Colons(ws) + Hex(w) + ":"
  {
    if ws == [] {
      assert [w][1..] == [];
    } else {
      ColonsPush(ws[1..], w);
      assert (ws + [w])[1..] == ws[1..] + [w];
      var h, c, x := Hex(ws[0]), Colons(ws[1..]), Hex(w);
      assert h + (":" + (c + x + ":")) == h + (":" + c) + x + ":";
    }
  }

  /** What has been printed of the words from `from` on, when i is the next. */
  ghost function Printed(words: seq<Word>, from: nat, i: nat): (s: string)
    requires from <= i <= |words| == 8
  {
    if i < 8 then Colons(words[from..i]) else Joined(words[from..])
  }

  lemma PrintedNext(words: seq<Word>, from: nat, i: nat)
    requires from <= i < |words| == 8
    ensures Printed(words, from, i) + Hex(words[i]) + (if i != 7 then ":" else "") == Printed(words, from, i + 1)
    ensures Printed(words, from, from) == ""
  {
    hide Hex, Colons, Joined;
    ColonsNone();
    assert words[from..from] == [];
    ColonsPush(words[from..i], words[i]);
    assert words[from..i] + [words[i]] == words[from..i + 1];
    if i == 7 {
      JoinedLast(words, from);
      var s := Colons(words[from..7]) + Hex(words[7]);
      assert s + "" == s;
    }
  }

  lemma ColonsNone()
    ensures Colons([]) == "" && Joined([]) == ""
  {}

  lemma JoinedLast(words: seq<Word>, from: nat)
    requires from < |words| == 8
    ensures Joined(words[from..]) == Colons(words[from..7]) + Hex(words[7])
  {
    hide Hex, Colons;
    var ws := words[from..];
    assert ws[..|ws| - 1] == words[from..7] && ws[|ws| - 1] == words[7];
  }

  lemma PrintedNone(words: seq<Word>, from: nat)
    requires from <= |words| == 8
    ensures Printed(words, from, from) == ""
  {
    if from == 8 { assert words[8..] == []; }
  }

  /** The two loops over zeros in evutil_inet_ntop */
  method SkipZeros(words: seq<Word>, start: nat) returns (i: nat)
    requires start <= |words|
    ensures i == ZeroEnd(words, start)
  {
    i := start;
    while i < |words| && words[i] == 0
      invariant start <= i <= |words| && forall k :: start <= k < i ==> words[k] == 0
    {
      i := i + 1;
    }
    ZeroEndIs(words, start, i);
  }

  /** The last loop of evutil_inet_ntop */
  method PrintWords(words: seq<Word>, pos: int) returns (buf: string)
    requires |words| == 8 && -1 <= pos < 8 && (pos >= 0 ==> words[pos] == 0)
    ensures buf == WordText(words, pos)
  {
    hide Hex, Colons, Joined, Printed;
    buf := "";
    var i: nat := 0;
    ghost var from: nat, head := 0, "";
    PrintedNone(words, 0);
    while i < 8
      invariant from <= i <= 8 && (i <= pos || pos == -1 ==> from == 0 && head == "")
      invariant i > pos >= 0 ==>
        from == ZeroEnd(words, pos) && head == (if pos == 0 then ":" else Colons(words[..pos])) + ":"
      invariant buf == head + Printed(words, from, i)
      decreases 8 - i
    {
      if words[i] == 0 && pos == i {
        PrintedIs(words, i);
        if i == 0 {
          buf := buf + ":";
        }
        buf := buf + ":";
        i := SkipZeros(words, i);
        AfterZero(words, pos);
        head, from := buf, i;
        PrintedNone(words, i);
        assert buf == buf + "";
      } else {
        PrintedNext(words, from, i);
        assert head + Printed(words, from, i) + Hex(words[i]) + (if i != 7 then ":" else "")
            == head + (Printed(words, from, i) + Hex(words[i]) + (if i != 7 then ":" else ""));
        buf := buf + Hex(words[i]);
        if i != 7 {
          buf := buf + ":";
        } else {
          assert buf + "" == buf;
        }
        i := i + 1;
      }
    }
    PrintedEnd(words, pos, from, head);
  }

  lemma PrintedIs(words: seq<Word>, i: nat)
    requires i < |words| == 8
    ensures Printed(words, 0, i) == Colons(words[..i]) && (i == 0 ==> Printed(words, 0, 0) == "")
    ensures "" + Printed(words, 0, i) == Printed(words, 0, i)
  {
    assert words[0..i] == words[..i];
  }

  lemma AfterZero(words: seq<Word>, pos: nat)
    requires pos < |words| && words[pos] == 0
    ensures ZeroEnd(words, pos) > pos
  {}

  lemma PrintedEnd(words: seq<Word>, pos: int, from: nat, head: string)
    requires |words| == 8 && -1 <= pos < 8 && from <= 8 && (pos == -1 ==> from == 0 && head == "")
    requires pos >= 0 ==> from == ZeroEnd(words, pos) && head == (if pos == 0 then ":" else Colons(words[..pos])) + ":"
    ensures head + Printed(words, from, 8) == WordText(words, pos)
  {
    hide Hex, Colons, Joined;
    if pos == -1 {
      assert words[0..] == words;
    } else {
      var a, r := if pos == 0 then ":" else Colons(words[..pos]), Joined(words[from..]);
      assert a + ":" + r == a + (":" + r);
    }
  }

  /** strlcpy, after the check that refuses only a text that is longer than dst */
  function Copied(buf: string, len: nat): (r: Option<string>)
  {
    if |buf| > len then None else if |buf| == len && len > 0 then Some(buf[..len - 1]) else Some(buf)
  }

  /**
   The whole text fits exactly if there is room for its terminating zero as well; with room for the text
   alone, it loses its last character.
   */
  lemma CopiedWhole(buf: string, len: nat)
    requires |buf| > 0
    ensures Copied(buf, len) == Some(buf) <==> |buf| < len
    ensures Copied(buf, len) == None <==> |buf| > len
    ensures |buf| == len ==> Copied(buf, len) == Some(buf[..len - 1])
  {}

  /** The text of an address. */
  ghost function TextOf(words: seq<Word>, pos: int): (s: string)
    requires |words| == 8 && -1 <= pos < 8
  {
    if IsV4(words) then V4Text(words) else WordText(words, pos)
  }

  /** evutil_inet_ntop for AF_INET6 */
  method Ntop(addr: seq<byte>, len: nat) returns (dst: Option<string>)
    requires |addr| == 16
    ensures exists words, pos ::
      WordsOf(addr, words) && IsLongestGap(words, pos) && dst == Copied(TextOf(words, pos), len)
  {
    hide Quad, Hex, WordText, ZeroEnd, IsLongestGap;
    var ws := ToWords(addr);
    var gap := LongestGap(ws);
    GapZero(ws, gap);
    var buf;
    V4Words(addr, ws);
    if ws[0] == 0 && ws[1] == 0 && ws[2] == 0 && ws[3] == 0 && ws[4] == 0
      && ((ws[5] == 0 && ws[6] != 0 && ws[7] != 0) || ws[5] == 0xffff) {
      var q := Quad(addr[12], addr[13], addr[14], addr[15]);
      V4Is(ws, q);
      if ws[5] == 0 {
        buf := "::" + q;
      } else {
        buf := "::" + Hex(ws[5]) + ":" + q;
      }
    } else {
      buf := PrintWords(ws, gap);
    }
    dst := Copied(buf, len);
  }

  lemma GapZero(words: seq<Word>, pos: int)
    requires |words| == 8 && IsLongestGap(words, pos)
    ensures -1 <= pos < 8 && (pos >= 0 ==> words[pos] == 0 && ZeroEnd(words, pos) > pos)
  {}

  lemma V4Words(addr: seq<byte>, ws: seq<Word>)
    requires WordsOf(addr, ws)
    ensures IsV4(ws) <==>
      ws[0] == 0 && ws[1] == 0 && ws[2] == 0 && ws[3] == 0 && ws[4] == 0
        && ((ws[5] == 0 && ws[6] != 0 && ws[7] != 0) || ws[5] == 0xffff)
    ensures ws[6] / 256 == addr[12] && ws[6] % 256 == addr[13] && ws[7] / 256 == addr[14] && ws[7] % 256 == addr[15]
  {
    assert ws[..5] == [ws[0], ws[1], ws[2], ws[3], ws[4]];
    assert ws[6] == Pair(addr[12], addr[13]) && ws[7] == Pair(addr[14], addr[15]);
  }

  lemma V4Is(words: seq<Word>, q: string)
    requires |words| == 8
    ensures Gapped([], q) == "::" + q && Gapped([], Colons([words[5]]) + q) == "::" + Hex(words[5]) + ":" + q
  {
    hide Hex;
    assert [words[5]][1..] == [];
    assert Colons([words[5]]) == Hex(words[5]) + (":" + "");
    assert ":" + (":" + q) == "::" + q;
    var h := Hex(words[5]);
    assert ":" + (":" + ((h + ":") + q)) == "::" + h + ":" + q;
  }

  // ----- parsing

  /** strchr(src, '.'), or the length */
  function FirstDot(s: string): (k: nat)
    ensures k <= |s| && (k < |s| ==> s[k] == '.') && forall i :: 0 <= i < k ==> s[i] != '.'
  {
    if s == [] || s[0] == '.' then 0 else 1 + FirstDot(s[1..])
  }

  /** Back over the digits before k. */
  function BackDigits(s: string, k: nat): (e: nat)
    requires k <= |s|
    ensures e <= k && (forall i :: e <= i < k ==> IsDigit(s[i])) && (e > 0 ==> !IsDigit(s[e - 1]))
  {
    if k > 0 && IsDigit(s[k - 1]) then BackDigits(s, k - 1) else k
  }

  /**
   The words from src up to eow, after the words ws, with the gap if there has been one; or nothing, if that
   is no address
   */
  function ReadWords(s: string, src: nat, eow: nat, ws: seq<Word>, gap: int): (r: Option<(seq<Word>, int)>)
    requires eow <= |s| && -1 <= gap <= |ws|
    ensures r.Some? ==> -1 <= r.value.1 <= |r.value.0|
    decreases eow - src
  {
    if src >= eow then Some((ws, gap))
    else if |ws| > 7 then None
    else if HexValue(s[src]).Some? then
      var r := Strtol(s, src);
      if r.1 > src + 4 || r.1 == src || r.0 > 0x1_0000 || ((r.1 == |s| || s[r.1] != ':') && r.1 != eow) then None
      else ReadWords(s, r.1 + 1, eow, ws + [r.0 % 0x1_0000], gap)
    else if s[src] == ':' && |ws| > 0 && gap == -1 then ReadWords(s, src + 1, eow, ws, |ws|)
    else if s[src] == ':' && |ws| == 0 && src + 1 < |s| && s[src + 1] == ':' && gap == -1 then
      ReadWords(s, src + 2, eow, ws, 0)
    else None
  }

  /** The words that a text stands for. */
  function Parse(s: string): (r: Option<seq<Word>>)
    ensures r.Some? ==> |r.value| == 8
  {
    var dot := FirstDot(s);
    var hasDot := dot < |s|;
    var eow := if hasDot then BackDigits(s, dot) else |s|;
    var q := if hasDot then ScanQuad(s, eow) else None;
    if hasDot && (dot == 0 || q.None? || !Bytes(q.value)) then None
    else
      var tail: seq<Word> := if hasDot then [Pair(q.value[0], q.value[1]), Pair(q.value[2], q.value[3])] else [];
      match ReadWords(s, 0, eow, [], -1)
      case None => None
      case Some((ws, gap)) =>
        var n := |ws| + |tail|;
        if n > 8 || (n == 8 && gap != -1) || (n < 8 && gap == -1) then None
        else if gap == -1 then Some(ws + tail)
        else Some(WithGap(ws, gap, 8 - n) + tail)
  }

  /** The gap filled with zeros again: memmove and memset */
  function WithGap(ws: seq<Word>, gap: nat, n: nat): (r: seq<Word>)
    requires gap <= |ws|
    ensures |r| == |ws| + n
  {
    ws[..gap] + seq(n, _ => 0) + ws[gap..]
  }

  /** The loop over words in evutil_inet_pton */
  method PtonWords(s: string, eow: nat) returns (ok: bool, words: seq<Word>, gapPos: int)
    requires eow <= |s|
    ensures ok ==> -1 <= gapPos <= |words|
    ensures ReadWords(s, 0, eow, [], -1) == if ok then Some((words, gapPos)) else None
  {
    hide Strtol, HexValue;
    ok, words, gapPos := false, [], -1;
    var src: nat := 0;
    while src < eow
      invariant -1 <= gapPos <= |words| && ReadWords(s, 0, eow, [], -1) == ReadWords(s, src, eow, words, gapPos)
      decreases eow - src
    {
      if |words| > 7 {
        return;
      }
      if HexValue(s[src]).Some? {
        var r := Strtol(s, src);
        if r.1 > 4 + src {
          return;
        }
        if r.1 == src {
          return;
        }
        if r.0 > 0x1_0000 {
          return;
        }
        words := words + [r.0 % 0x1_0000];
        src := r.1;
        if (src == |s| || s[src] != ':') && src != eow {
          return;
        }
        src := src + 1;
      } else if s[src] == ':' && |words| > 0 && gapPos == -1 {
        gapPos := |words|;
        src := src + 1;
      } else if s[src] == ':' && |words| == 0 && src + 1 < |s| && s[src + 1] == ':' && gapPos == -1 {
        gapPos := |words|;
        src := src + 2;
      } else {
        return;
      }
    }
    ok := true;
  }

  /** evutil_inet_pton for AF_INET6: 1 and the address, or 0 */
  method Pton(s: string) returns (r: int, out: seq<byte>)
    ensures match Parse(s) case None => r == 0 case Some(words) => r == 1 && WordsOf(out, words)
  {
    hide ReadWords, ScanQuad;
    out := [];
    var dot := FirstDot(s);
    if dot < |s| && dot == 0 {
      return 0, out;
    }
    var eow := |s|;
    var tail: seq<Word> := [];
    if dot < |s| {
      eow := BackDigits(s, dot);
      var q := ScanQuad(s, eow);
      if q.None? {
        return 0, out;
      }
      if !Bytes(q.value) {
        return 0, out;
      }
      tail := [Pair(q.value[0], q.value[1]), Pair(q.value[2], q.value[3])];
    }
    var ok, words, gapPos := PtonWords(s, eow);
    if !ok {
      return 0, out;
    }
    var setWords := |words| + |tail|;
    if setWords > 8 || (setWords == 8 && gapPos != -1) || (setWords < 8 && gapPos == -1) {
      return 0, out;
    }
    if gapPos >= 0 {
      words := WithGap(words, gapPos, 8 - setWords);
    }
    out := ToBytes(words + tail);
    r := 1;
  }

  // ----- what a text without a dot stands for

  /** strchr(src, ':'), or the length */
  function ColonFrom(s: string, src: nat): (k: nat)
    requires src <= |s|
    ensures src <= k <= |s| && (k < |s| ==> s[k] == ':') && forall i :: src <= i < k ==> s[i] != ':'
    decreases |s| - src
  {
    if src == |s| || s[src] == ':' then src else ColonFrom(s, src + 1)
  }

  /** The pieces between the colons, from src on */
  function Split(s: string, src: nat): (ps: seq<string>)
    requires src <= |s|
    ensures ps != []
    decreases |s| - src
  {
    var k := ColonFrom(s, src);
    if k == |s| then [s[src..]] else [s[src..k]] + Split(s, k + 1)
  }

  predicate AllHex(t: string)
  {
    forall i :: 0 <= i < |t| ==> HexValue(t[i]).Some?
  }

  predicate Prefixed(t: string)
  {
    3 <= |t| && t[0] == '0' && (t[1] == 'x' || t[1] == 'X') && AllHex(t[2..])
  }

  /** Up to four hexadecimal digits; or no more than two, after 0x or 0X */
  predicate WordPiece(t: string)
  {
    1 <= |t| <= 4 && (AllHex(t) || Prefixed(t))
  }

  function PieceValue(t: string): (w: Word)
    requires WordPiece(t)
  {
    var digits := if AllHex(t) then t else t[2..];
    HexBound(digits, 0, |digits|);
    HexNumber(digits, 0, |digits|)
  }

  lemma {:induction false} HexBound(s: string, src: nat, k: nat)
    requires src + k <= |s|
    ensures k <= 4 ==> HexNumber(s, src, k) < 0x1_0000
    ensures k <= 3 ==> HexNumber(s, src, k) < 0x1000
    ensures k <= 2 ==> HexNumber(s, src, k) < 0x100
    ensures k <= 1 ==> HexNumber(s, src, k) < 0x10
  {
    if k > 0 { HexBound(s, src, k - 1); }
  }

  function Values(ts: seq<string>): (ws: seq<Word>)
    requires forall i :: 0 <= i < |ts| ==> WordPiece(ts[i])
    ensures |ws| == |ts|
  {
    seq(|ts|, i requires 0 <= i < |ts| => PieceValue(ts[i]))
  }

  /**
   The pieces are words ts with a gap before the g-th of them, or without one if g is -1.  A gap at the start of the
   whole text is two empty pieces, elsewhere it is one; and an empty piece may come last, and does if the gap is.
   */
  ghost predicate Pieces(ps: seq<string>, ts: seq<string>, g: int, first: bool)
  {
    && (forall i :: 0 <= i < |ts| ==> WordPiece(ts[i])) && -1 <= g <= |ts|
    && if g == -1 then ps == ts || ps == ts + [""]
       else
         var all := ts[..g] + (if g == 0 && first then ["", ""] else [""]) + ts[g..];
         (ps == all && g < |ts|) || ps == all + [""]
  }

  /** Eight words: ws with zeros put in before the g-th */
  ghost predicate Filled(ws: seq<Word>, g: nat, words: seq<Word>)
    requires g <= |ws| <= 8
  {
    && |words| == 8 && words[..g] == ws[..g] && words[g + 8 - |ws|..] == ws[g..]
    && forall i :: g <= i < g + 8 - |ws| ==> words[i] == 0
  }

  lemma FilledIs(ws: seq<Word>, g: nat, words: seq<Word>)
    requires g <= |ws| <= 8
    ensures WithGap(ws, g, 8 - |ws|) == words <==> Filled(ws, g, words)
  {
    var w := WithGap(ws, g, 8 - |ws|);
    assert w[..g] == ws[..g] && w[g + 8 - |ws|..] == ws[g..];
    assert forall i :: g <= i < g + 8 - |ws| ==> w[i] == 0;
    if Filled(ws, g, words) {
      assert words == words[..g] + words[g..g + 8 - |ws|] + words[g + 8 - |ws|..];
      assert w == w[..g] + w[g..g + 8 - |ws|] + w[g + 8 - |ws|..];
      assert words[g..g + 8 - |ws|] == w[g..g + 8 - |ws|];
    }
  }

  lemma PiecesWords(ps: seq<string>, ts: seq<string>, g: int, first: bool)
    requires Pieces(ps, ts, g, first)
    ensures -1 <= g <= |ts| && (forall i :: 0 <= i < |ts| ==> WordPiece(ts[i])) && [] + Values(ts) == Values(ts)
  {
    hide WordPiece;
  }

  /** The words that pieces stand for: all eight, or fewer and zeros in the gap */
  ghost predicate StandFor(ps: seq<string>, ts: seq<string>, g: int, words: seq<Word>)
  {
    && Pieces(ps, ts, g, true)
    && if g == -1 then |ts| == 8 && words == Values(ts)
       else |ts| < 8 && Filled(Values(ts), g, words)
  }

  /** The loop of evutil_inet_pton, over the pieces */
  function FromPieces(ps: seq<string>, ws: seq<Word>, gap: int): (r: Option<(seq<Word>, int)>)
    decreases |ps|
  {
    if ps == [] || ps == [""] then Some((ws, gap))
    else if |ws| > 7 then None
    else if ps[0] == "" then
      if gap != -1 then None
      else if |ws| > 0 then FromPieces(ps[1..], ws, |ws|)
      else if |ps| >= 3 && ps[1] == "" then FromPieces(ps[2..], ws, 0)
      else None
    else if WordPiece(ps[0]) then FromPieces(ps[1..], ws + [PieceValue(ps[0])], gap)
    else None
  }

  lemma {:induction false} HexRunMax(s: string, src: nat)
    requires src <= |s|
    ensures forall i :: src <= i < src + HexRun(s, src) ==> HexValue(s[i]).Some?
    ensures var e := src + HexRun(s, src); e < |s| ==> HexValue(s[e]).None?
    decreases |s| - src
  {
    if src < |s| && HexValue(s[src]).Some? { HexRunMax(s, src + 1); }
  }

  lemma {:induction false} HexShift(s: string, src: nat, n: nat, t: string)
    requires src + n <= |s| && n <= |t| && forall i :: 0 <= i < n ==> t[i] == s[src + i]
    ensures HexNumber(s, src, n) == HexNumber(t, 0, n)
  {
    if n > 0 { HexShift(s, src, n - 1, t); }
  }

  /** The digits from src on end with the piece exactly if it is all digits. */
  lemma RunInPiece(s: string, src: nat, k: nat)
    requires src <= k <= |s| && (k < |s| ==> s[k] == ':') && forall i :: src <= i < k ==> s[i] != ':'
    ensures var e := src + HexRun(s, src);
      e <= k && (e == |s| || s[e] == ':' <==> e == k) && (e == k <==> AllHex(s[src..k]))
  {
    HexRunMax(s, src);
    var t, e := s[src..k], src + HexRun(s, src);
    assert e <= k;
    assert e < k ==> t[e - src] == s[e];
    if e == k { forall i | 0 <= i < |t| ensures HexValue(t[i]).Some? { assert t[i] == s[src + i]; } }
  }

  predicate HasPrefix(s: string, src: nat)
  {
    src + 2 < |s| && s[src] == '0' && (s[src + 1] == 'x' || s[src + 1] == 'X') && HexValue(s[src + 2]).Some?
  }

  /** After 0x, the digits are those of the rest of the piece. */
  lemma PrefixedRead(s: string, src: nat, k: nat)
    requires src < k <= |s| && (k < |s| ==> s[k] == ':') && (forall i :: src <= i < k ==> s[i] != ':')
    requires HasPrefix(s, src)
    ensures var t, e := s[src..k], src + 2 + HexRun(s, src + 2);
      && k > src + 2 && HexValue(s[src]).Some? && (e <= src + 4 && (e == |s| || s[e] == ':') <==> WordPiece(t))
      && (WordPiece(t) ==> e == k && HexNumber(s, src + 2, HexRun(s, src + 2)) == PieceValue(t))
  {
    hide HexValue, HexRun, HexNumber;
    HexValueColon();
    var t := s[src..k];
    assert t[0] == s[src] && k > src + 2 && t[1] == s[src + 1];
    RunInPiece(s, src + 2, k);
    assert t[2..] == s[src + 2..k];
    HexShift(s, src + 2, k - src - 2, t[2..]);
  }

  lemma PlainRead(s: string, src: nat, k: nat)
    requires src < k <= |s| && (k < |s| ==> s[k] == ':') && (forall i :: src <= i < k ==> s[i] != ':')
    requires !HasPrefix(s, src)
    ensures var t, e := s[src..k], src + HexRun(s, src);
      && (e > src <==> HexValue(s[src]).Some?)
      && (e > src && e <= src + 4 && (e == |s| || s[e] == ':') <==> WordPiece(t))
      && (WordPiece(t) ==> e == k && HexNumber(s, src, HexRun(s, src)) == PieceValue(t))
  {
    hide HexValue, HexNumber;
    HexValueColon();
    var t := s[src..k];
    assert t[0] == s[src];
    RunInPiece(s, src, k);
    HexShift(s, src, k - src, t);
    assert |t| >= 3 ==> t[1] == s[src + 1] && t[2..][0] == t[2] == s[src + 2];
  }

  lemma StrtolIs(s: string, src: nat)
    requires src < |s|
    ensures var from := if HasPrefix(s, src) then src + 2 else src;
      from <= |s| && Strtol(s, src) == (HexNumber(s, from, HexRun(s, from)), from + HexRun(s, from))
  {}

  /** strtol on a piece takes just that piece, if it is a word, and something else otherwise. */
  lemma PieceRead(s: string, src: nat)
    requires src < |s| && s[src] != ':'
    ensures var k := ColonFrom(s, src); var t := s[src..k]; var r := Strtol(s, src);
      && t != ""
      && (HexValue(s[src]).Some? && r.1 <= src + 4 && r.1 != src && (r.1 == |s| || s[r.1] == ':') <==> WordPiece(t))
      && (WordPiece(t) ==> r == (PieceValue(t), k))
  {
    hide HexValue, HexRun, HexNumber, WordPiece, PieceValue, ColonFrom, HasPrefix, Strtol;
    var k := ColonFrom(s, src);
    StrtolIs(s, src);
    if HasPrefix(s, src) { PrefixedRead(s, src, k); } else { PlainRead(s, src, k); }
  }

  lemma HexValueColon()
    ensures HexValue(':') == None && HexValue('x') == None && HexValue('X') == None && HexValue('0') == Some(0)
  {}

  lemma ReadPieces(s: string, src: nat, ws: seq<Word>, gap: int)
    requires src <= |s| && -1 <= gap <= |ws|
    ensures ReadWords(s, src, |s|, ws, gap) == FromPieces(Split(s, src), ws, gap)
    decreases |s| - src
  {
    hide HexValue, Strtol, WordPiece, PieceValue, Split, ColonFrom;
    var ps := Split(s, src);
    if src == |s| {
      SplitEnd(s);
    } else if s[src] == ':' {
      SplitColon(s, src);
      if |ws| <= 7 && gap == -1 {
        if |ws| > 0 {
          ReadPieces(s, src + 1, ws, |ws|);
        } else if src + 1 < |s| && s[src + 1] == ':' {
          ReadPieces(s, src + 2, ws, 0);
        }
      }
    } else {
      PieceRead(s, src);
      SplitPiece(s, src);
      var t := ps[0];
      if |ws| <= 7 && WordPiece(t) {
        if ps[1..] != [] { ReadPieces(s, ColonFrom(s, src) + 1, ws + [PieceValue(t)], gap); }
      }
    }
  }

  lemma SplitEnd(s: string)
    ensures Split(s, |s|) == [""]
  {
    assert s[|s|..] == "";
  }

  /** A colon: an empty piece, and another one if there is another colon */
  lemma SplitColon(s: string, src: nat)
    requires src < |s| && s[src] == ':'
    ensures var ps := Split(s, src);
      && |ps| >= 2 && ps[0] == "" && ps[1..] == Split(s, src + 1) && HexValue(':').None?
      && (src + 1 < |s| && s[src + 1] == ':' <==> |ps| >= 3 && ps[1] == "")
      && (src + 1 < |s| && s[src + 1] == ':' ==> ps[2..] == Split(s, src + 2))
  {
    hide Split, ColonFrom, HexValue;
    HexValueColon();
    StartsColon(s, src);
    if src + 1 < |s| && s[src + 1] == ':' { StartsColon(s, src + 1); } else { NoColon(s, src + 1); }
  }

  /** A colon ends an empty piece. */
  lemma StartsColon(s: string, src: nat)
    requires src < |s| && s[src] == ':'
    ensures Split(s, src) == [""] + Split(s, src + 1)
  {
    hide Split;
    SplitIs(s, src);
    assert ColonFrom(s, src) == src && s[src..src] == "";
  }

  lemma NoColon(s: string, src: nat)
    requires src <= |s| && (src < |s| ==> s[src] != ':')
    ensures |Split(s, src)| >= 2 ==> Split(s, src)[0] != ""
  {
    hide Split, ColonFrom;
    SplitIs(s, src);
  }

  lemma SplitPiece(s: string, src: nat)
    requires src < |s| && s[src] != ':'
    ensures var ps, k := Split(s, src), ColonFrom(s, src);
      && ps[0] == s[src..k] != "" && if k == |s| then ps[1..] == [] else ps[1..] == Split(s, k + 1) && ps[1..] != []
  {
    hide Split, ColonFrom;
    SplitIs(s, src);
    var ps, k := Split(s, src), ColonFrom(s, src);
    assert k > src && |s[src..k]| > 0;
    assert k < |s| ==> ps[1..] == Split(s, k + 1);
  }

  lemma PiecesOf(ps: seq<string>, ws: seq<Word>, gap: int) returns (ts: seq<string>, g: int)
    requires FromPieces(ps, ws, gap).Some? && -1 <= gap <= |ws|
    ensures Pieces(ps, ts, g, ws == []) && (g >= 0 ==> gap == -1)
    ensures FromPieces(ps, ws, gap) == Some((ws + Values(ts), if g == -1 then gap else |ws| + g))
    decreases |ps|
  {
    hide WordPiece, PieceValue, Pieces, Values;
    if ps == [] || ps == [""] {
      ts, g := [], -1;
      NoPieces(ps, ws == []);
      assert ws + Values([]) == ws;
    } else if ps[0] == "" {
      var n := if |ws| > 0 then 1 else 2;
      ts, g := PiecesOf(ps[n..], ws, |ws|);
      PiecesAre(ps[n..], ts, g, ws == []);
      GapPieces(ps, ts, ws == []);
      g := 0;
    } else {
      var v := PieceValue(ps[0]);
      ts, g := PiecesOf(ps[1..], ws + [v], gap);
      PiecesAre(ps[1..], ts, g, false);
      ValuesFirst(ps[0], ts);
      PiecesFirst(ps, ts, g, ws == []);
      assert ws + [v] + Values(ts) == ws + ([v] + Values(ts));
      ts, g := [ps[0]] + ts, if g == -1 then -1 else g + 1;
    }
  }

  lemma PiecesAre(ps: seq<string>, ts: seq<string>, g: int, first: bool)
    requires Pieces(ps, ts, g, first)
    ensures -1 <= g <= |ts| && forall i :: 0 <= i < |ts| ==> WordPiece(ts[i])
  {}

  lemma NoPieces(ps: seq<string>, first: bool)
    requires ps == [] || ps == [""]
    ensures Pieces(ps, [], -1, first) && Values([]) == []
  {
    assert [] + [""] == [""];
  }

  lemma GapPieces(ps: seq<string>, ts: seq<string>, first: bool)
    requires var n := if first then 2 else 1;
      |ps| > n && ps[0] == "" && ps[n - 1] == "" && Pieces(ps[n..], ts, -1, first)
    ensures Pieces(ps, ts, 0, first)
  {
    hide WordPiece;
    var n := if first then 2 else 1;
    assert ps == ps[..n] + ps[n..] && ts[..0] == [] && ts[0..] == ts;
    assert ps[..n] == if n == 2 then ["", ""] else [""];
  }

  lemma ValuesFirst(t: string, ts: seq<string>)
    requires WordPiece(t) && forall i :: 0 <= i < |ts| ==> WordPiece(ts[i])
    ensures forall i :: 0 <= i < |[t] + ts| ==> WordPiece(([t] + ts)[i])
    ensures Values([t] + ts) == [PieceValue(t)] + Values(ts)
  {}

  /** One word more in front. */
  lemma PiecesFirst(ps: seq<string>, ts: seq<string>, g: int, first: bool)
    requires ps != [] && WordPiece(ps[0]) && Pieces(ps[1..], ts, g, false)
    ensures Pieces(ps, [ps[0]] + ts, if g == -1 then -1 else g + 1, first)
  {
    hide WordPiece;
    var ts' := [ps[0]] + ts;
    assert ps == [ps[0]] + ps[1..];
    if g >= 0 {
      assert ts'[..g + 1] == [ps[0]] + ts[..g] && ts'[g + 1..] == ts[g..];
    }
  }

  lemma PiecesRead(ps: seq<string>, ts: seq<string>, g: int, ws: seq<Word>, gap: int)
    requires Pieces(ps, ts, g, ws == []) && (g >= 0 ==> gap == -1) && -1 <= gap <= |ws|
    requires |ws| + |ts| <= if g == -1 then 8 else 7
    ensures FromPieces(ps, ws, gap) == Some((ws + Values(ts), if g == -1 then gap else |ws| + g))
    decreases |ts|, g
  {
    hide WordPiece, PieceValue;
    if g == 0 {
      var n := if ws == [] then 2 else 1;
      GapFirst(ps, ts, ws == []);
      PiecesRead(ps[n..], ts, -1, ws, |ws|);
    } else if ts == [] {
      assert ps == [] || ps == [""];
      assert ws + Values([]) == ws;
    } else {
      WordFirst(ps, ts, g, ws == []);
      var v := PieceValue(ts[0]);
      PiecesRead(ps[1..], ts[1..], if g == -1 then -1 else g - 1, ws + [v], gap);
      assert ts == [ts[0]] + ts[1..];
      ValuesFirst(ts[0], ts[1..]);
      assert ws + [v] + Values(ts[1..]) == ws + ([v] + Values(ts[1..]));
    }
  }

  /** The gap comes first. */
  lemma GapFirst(ps: seq<string>, ts: seq<string>, first: bool)
    requires Pieces(ps, ts, 0, first)
    ensures var n := if first then 2 else 1;
      && |ps| > n && ps[0] == "" && (first ==> ps[1] == "") && ps[n..] != [] && Pieces(ps[n..], ts, -1, first)
  {
    hide WordPiece;
    var n := if first then 2 else 1;
    var e := if first then ["", ""] else [""];
    assert ts[..0] == [] && ts[0..] == ts && [] + e + ts == e + ts && |e| == n;
    if ps == e + ts + [""] { assert ps[n..] == ts + [""]; } else { assert ps[n..] == ts; }
  }

  /** A word comes first. */
  lemma WordFirst(ps: seq<string>, ts: seq<string>, g: int, first: bool)
    requires Pieces(ps, ts, g, first) && ts != [] && g != 0
    ensures ps != [] && ps[0] == ts[0] && ts[0] != "" && WordPiece(ts[0])
    ensures Pieces(ps[1..], ts[1..], if g == -1 then -1 else g - 1, false)
  {
    var rest := ts[1..];
    if g == -1 {
      if ps == ts + [""] { assert ps[1..] == rest + [""]; }
    } else {
      assert ts[..g] == [ts[0]] + rest[..g - 1] && ts[g..] == rest[g - 1..];
      var all, all' := ts[..g] + [""] + ts[g..], rest[..g - 1] + [""] + rest[g - 1..];
      assert all == [ts[0]] + all' && all[1..] == all' && (all + [""])[1..] == all' + [""];
    }
  }

  lemma Undotted(s: string)
    requires Dotless(s)
    ensures FirstDot(s) == |s|
  {}

  /**
   What evutil_inet_pton makes of a text without a dot: eight words between colons; or fewer, with one gap.  After the
   last word there may be one colon more.
   */
  lemma TextIs(s: string, words: seq<Word>)
    requires Dotless(s)
    ensures Parse(s) == Some(words) <==> exists ts, g :: StandFor(Split(s, 0), ts, g, words)
  {
    hide ReadWords, FromPieces, Split, WordPiece, PieceValue, Pieces, Filled, WithGap, Values;
    Undotted(s);
    ReadPieces(s, 0, [], -1);
    var ps := Split(s, 0);
    if Parse(s) == Some(words) {
      var ts, g := PiecesOf(ps, [], -1);
      PiecesWords(ps, ts, g, true);
      if g >= 0 && |ts| < 8 { FilledIs(Values(ts), g, words); }
      assert StandFor(ps, ts, g, words);
    }
    if ts, g :| StandFor(ps, ts, g, words) {
      PiecesRead(ps, ts, g, [], -1);
      PiecesWords(ps, ts, g, true);
      var ws, none: seq<Word> := Values(ts), [];
      assert ws + none == ws;
      if g >= 0 {
        FilledIs(ws, g, words);
        assert WithGap(ws, g, 8 - |ts|) + none == WithGap(ws, g, 8 - |ts|);
      }
    }
  }

  lemma {:induction false} ColonShift(a: string, b: string, i: nat)
    requires i <= |b|
    ensures ColonFrom(a + b, |a| + i) == |a| + ColonFrom(b, i)
    decreases |b| - i
  {
    if i < |b| && b[i] != ':' { ColonShift(a, b, i + 1); }
  }

  lemma SplitIs(s: string, src: nat)
    requires src <= |s|
    ensures var k := ColonFrom(s, src);
      Split(s, src) == if k == |s| then [s[src..k]] else [s[src..k]] + Split(s, k + 1)
  {
    hide ColonFrom;
    assert s[src..] == s[src..|s|];
  }

  lemma SliceShift(a: string, b: string, i: nat, k: nat)
    requires i <= k <= |b|
    ensures (a + b)[|a| + i..|a| + k] == b[i..k]
  {}

  lemma {:induction false} SplitShift(a: string, b: string, i: nat)
    requires i <= |b|
    ensures Split(a + b, |a| + i) == Split(b, i)
    decreases |b| - i
  {
    hide ColonFrom, Split;
    ColonShift(a, b, i);
    var k := ColonFrom(b, i);
    SplitIs(a + b, |a| + i);
    SplitIs(b, i);
    SliceShift(a, b, i, k);
    if k < |b| { SplitShift(a, b, k + 1); }
  }

  /** The first piece is what comes before the first colon. */
  lemma SplitPush(t: string, rest: string)
    requires forall i :: 0 <= i < |t| ==> t[i] != ':'
    ensures Split(t + ":" + rest, 0) == [t] + Split(rest, 0)
    ensures Split(t, 0) == [t]
  {
    var s := t + ":" + rest;
    assert s[|t|] == ':' && ColonFrom(s, 0) == |t| && s[0..|t|] == t;
    SplitShift(t + ":", rest, 0);
    assert ColonFrom(t, 0) == |t| && t[0..] == t;
  }

  lemma FourDigits(t: string)
    requires |t| == 4 && AllHex(t)
    ensures WordPiece(t)
    ensures var a, b, c, d := HexValue(t[0]).value, HexValue(t[1]).value, HexValue(t[2]).value, HexValue(t[3]).value;
      PieceValue(t) == ((a * 16 + b) * 16 + c) * 16 + d
  {
    hide HexValue;
    assert HexNumber(t, 0, 1) == HexValue(t[0]).value;
    assert HexNumber(t, 0, 2) == HexNumber(t, 0, 1) * 16 + HexValue(t[1]).value;
    assert HexNumber(t, 0, 3) == HexNumber(t, 0, 2) * 16 + HexValue(t[2]).value;
  }

  lemma OneDigit(t: string)
    requires |t| == 1 && AllHex(t)
    ensures WordPiece(t) && PieceValue(t) == HexValue(t[0]).value
  {
    hide HexValue;
    assert HexNumber(t, 0, 1) == HexValue(t[0]).value;
  }

  lemma LinkWords()
    ensures WordPiece("FE80") && PieceValue("FE80") == 0xFE80 && WordPiece("1") && PieceValue("1") == 1
  {
    hide HexNumber, WordPiece, PieceValue;
    HexValueIs('0');
    FourDigits("FE80");
    OneDigit("1");
  }

  lemma LinkPieces()
    ensures Split("FE80::1", 0) == ["FE80", "", "1"]
  {
    hide Split;
    SplitPush("FE80", ":1");
    SplitPush("", "1");
    SplitPush("1", "");
    assert "FE80" + ":" + ":1" == "FE80::1" && "" + ":" + "1" == ":1";
  }

  /** An address in capitals, which is never printed like that */
  method Capitals() returns (r: int, out: seq<byte>)
    ensures r == 1 && out == [0xFE, 0x80, 0, 0, 0, 0, 0, 0, 0, 0, 0, 0, 0, 0, 0, 1]
  {
    hide ReadWords, FromPieces, Split, WordPiece, PieceValue, Parse, HexValue;
    LinkWords();
    LinkPieces();
    var words: seq<Word> := [0xFE80, 0, 0, 0, 0, 0, 0, 1];
    assert StandFor(Split("FE80::1", 0), ["FE80", "1"], 1, words) by {
      assert Values(["FE80", "1"]) == [0xFE80, 1];
    }
    TextIs("FE80::1", words);
    r, out := Pton("FE80::1");
    SixteenBytes(out, words);
  }

  lemma SixteenBytes(b: seq<byte>, words: seq<Word>)
    requires WordsOf(b, words) && words == [0xFE80, 0, 0, 0, 0, 0, 0, 1]
    ensures b == [0xFE, 0x80, 0, 0, 0, 0, 0, 0, 0, 0, 0, 0, 0, 0, 0, 1]
  {
    forall i | 0 <= i < 8 ensures words[i] == Pair(b[2 * i], b[2 * i + 1]) {}
    assert words[0] == Pair(b[0], b[1]) && words[7] == Pair(b[14], b[15]);
    assert words[1] == Pair(b[2], b[3]) && words[2] == Pair(b[4], b[5]) && words[3] == Pair(b[6], b[7]);
    assert words[4] == Pair(b[8], b[9]) && words[5] == Pair(b[10], b[11]) && words[6] == Pair(b[12], b[13]);
  }

  // ----- there and back

  predicate Dotless(s: string)
  {
    forall i :: 0 <= i < |s| ==> s[i] != '.'
  }

  lemma DotlessHex(n: nat)
    ensures Dotless(Hex(n))
  {
    hide Hex;
    var s := Hex(n);
    assert s[0..|s|] == s;
    HexIs(s, 0, n);
  }

  lemma {:induction false} DotlessColons(ws: seq<Word>)
    ensures Dotless(Colons(ws))
  {
    hide Hex;
    if ws != [] {
      DotlessHex(ws[0]);
      DotlessColons(ws[1..]);
    }
  }

  lemma DotlessText(words: seq<Word>, pos: int)
    requires -1 <= pos < |words|
    ensures Dotless(WordText(words, pos))
  {
    hide Hex, Colons;
    if pos == -1 {
      DotlessJoined(words);
    } else {
      DotlessColons(words[..pos]);
      DotlessJoined(words[ZeroEnd(words, pos)..]);
    }
  }

  lemma DotlessJoined(ws: seq<Word>)
    ensures Dotless(Joined(ws))
  {
    hide Hex, Colons;
    if ws != [] {
      DotlessColons(ws[..|ws| - 1]);
      DotlessHex(ws[|ws| - 1]);
    }
  }

  /** ::a.b.c.d with more than 16 bits, and ::ffff:a.b.c.d */
  predicate EndsInV4(addr: seq<byte>)
    requires |addr| == 16
  {
    && addr[..10] == [0, 0, 0, 0, 0, 0, 0, 0, 0, 0]
    && (if addr[10] == 0 && addr[11] == 0
        then (addr[12] != 0 || addr[13] != 0) && (addr[14] != 0 || addr[15] != 0)
        else addr[10] == 255 && addr[11] == 255)
  }

  lemma PairZero(hi: byte, lo: byte)
    ensures (Pair(hi, lo) == 0 <==> hi == 0 && lo == 0) && (Pair(hi, lo) == 0xffff <==> hi == 255 && lo == 255)
  {}

  lemma V4Bytes(addr: seq<byte>, words: seq<Word>)
    requires WordsOf(addr, words)
    ensures IsV4(words) <==> EndsInV4(addr)
  {
    hide Pair;
    V4Words(addr, words);
    forall i | 0 <= i < 8
      ensures (words[i] == 0 <==> addr[2 * i] == 0 && addr[2 * i + 1] == 0)
      ensures (words[i] == 0xffff <==> addr[2 * i] == 255 && addr[2 * i + 1] == 255) {
      PairZero(addr[2 * i], addr[2 * i + 1]);
    }
    var ten := addr[..10];
    assert words[0] == 0 <==> ten[0] == 0 && ten[1] == 0;
    assert words[1] == 0 <==> ten[2] == 0 && ten[3] == 0;
    assert words[2] == 0 <==> ten[4] == 0 && ten[5] == 0;
    assert words[3] == 0 <==> ten[6] == 0 && ten[7] == 0;
    assert words[4] == 0 <==> ten[8] == 0 && ten[9] == 0;
    assert words[5] == 0 <==> addr[10] == 0 && addr[11] == 0;
    assert words[5] == 0xffff <==> addr[10] == 255 && addr[11] == 255;
    assert words[6] == 0 <==> addr[12] == 0 && addr[13] == 0;
    assert words[7] == 0 <==> addr[14] == 0 && addr[15] == 0;
  }

  /** Dots are printed exactly for addresses that end in one of IPv4. */
  lemma FormOf(addr: seq<byte>, words: seq<Word>, pos: int)
    requires WordsOf(addr, words) && -1 <= pos < 8
    ensures Dotless(TextOf(words, pos)) <==> !EndsInV4(addr)
  {
    hide WordText, V4Text, Dotless, EndsInV4, IsV4;
    V4Bytes(addr, words);
    if IsV4(words) { V4Dotted(words); } else { DotlessText(words, pos); }
  }

  lemma V4Dotted(words: seq<Word>)
    requires |words| == 8
    ensures !Dotless(V4Text(words))
  {
    hide Dec;
    var a := Dec(words[6] / 256);
    var q := Quad(words[6] / 256, words[6] % 256, words[7] / 256, words[7] % 256);
    assert q[|a|] == '.';
    var t := if words[5] == 0 then q else Colons([words[5]]) + q;
    assert t[|t| - |q| + |a|] == '.';
    assert V4Text(words)[2 + |t| - |q| + |a|] == '.';
  }

  /** A word with a colon after it is read. */
  lemma ReadWord(s: string, src: nat, eow: nat, ws: seq<Word>, gap: int, w: Word, rest: string) returns (next: nat)
    requires Has(s, src, Hex(w) + (":" + rest)) && src + |Hex(w)| < eow <= |s| && -1 <= gap <= |ws| < 8
    ensures next == src + |Hex(w)| + 1 && Has(s, next, rest)
    ensures ReadWords(s, src, eow, ws, gap) == ReadWords(s, next, eow, ws + [w], gap)
  {
    hide Hex, Strtol, HexValue, Has;
    HasSplit(s, src, Hex(w), ":" + rest);
    HasSplit(s, src + |Hex(w)|, ":", rest);
    HasChar(s, src + |Hex(w)|, ':');
    StrtolHex(s, src, w);
    next := src + |Hex(w)| + 1;
  }

  lemma {:induction false} ReadColons(s: string, src: nat, eow: nat, ws: seq<Word>, gap: int, more: seq<Word>)
    requires Has(s, src, Colons(more)) && src + |Colons(more)| <= eow <= |s| && -1 <= gap <= |ws| && |ws| + |more| <= 8
    ensures ReadWords(s, src, eow, ws, gap) == ReadWords(s, src + |Colons(more)|, eow, ws + more, gap)
    decreases |more|
  {
    hide Hex, Has, ReadWords;
    if more == [] {
      assert ws + more == ws;
    } else {
      var next := ReadWord(s, src, eow, ws, gap, more[0], Colons(more[1..]));
      ReadColons(s, next, eow, ws + [more[0]], gap, more[1..]);
      assert ws + [more[0]] + more[1..] == ws + more;
    }
  }

  lemma ReadNone(s: string, ws: seq<Word>, gap: int)
    requires -1 <= gap <= |ws|
    ensures ReadWords(s, |s|, |s|, ws, gap) == Some((ws, gap))
  {}

  /** The last word, up to the end. */
  lemma ReadLast(s: string, src: nat, ws: seq<Word>, gap: int, w: Word)
    requires Has(s, src, Hex(w)) && src + |Hex(w)| == |s| && -1 <= gap <= |ws| < 8
    ensures ReadWords(s, src, |s|, ws, gap) == Some((ws + [w], gap))
  {
    hide Hex, Has, Strtol, HexValue;
    StrtolHex(s, src, w);
  }

  lemma ReadJoined(s: string, src: nat, ws: seq<Word>, gap: int, more: seq<Word>)
    requires Has(s, src, Joined(more)) && src + |Joined(more)| == |s| && -1 <= gap <= |ws| && |ws| + |more| <= 8
    ensures ReadWords(s, src, |s|, ws, gap) == Some((ws + more, gap))
  {
    hide Hex, Has, Colons, ReadWords;
    if more == [] {
      assert ws + more == ws;
      ReadNone(s, ws, gap);
    } else {
      var last := |more| - 1;
      HasSplit(s, src, Colons(more[..last]), Hex(more[last]));
      ReadColons(s, src, |s|, ws, gap, more[..last]);
      ReadLast(s, src + |Colons(more[..last])|, ws + more[..last], gap, more[last]);
      assert more == more[..last] + [more[last]];
      assert ws + more[..last] + [more[last]] == ws + (more[..last] + [more[last]]);
    }
  }

  /** The gap: two colons at the start, or a second colon. */
  lemma ReadGap(s: string, src: nat, eow: nat, ws: seq<Word>)
    requires src < eow <= |s| && s[src] == ':' && |ws| < 8
    requires ws == [] ==> src + 1 < |s| && s[src + 1] == ':'
    ensures ReadWords(s, src, eow, ws, -1) == ReadWords(s, if ws == [] then src + 2 else src + 1, eow, ws, |ws|)
  {
    hide Strtol;
  }

  lemma ReadGapped(s: string, before: seq<Word>, rest: string, eow: nat) returns (src: nat)
    requires s == Gapped(before, rest) && |s| - |rest| <= eow <= |s| && |before| < 8
    ensures src == |s| - |rest| && Has(s, src, rest)
    ensures ReadWords(s, 0, eow, [], -1) == ReadWords(s, src, eow, before, |before|)
  {
    hide Hex, Has, Colons, ReadWords;
    var head := if before == [] then ":" else Colons(before);
    HasWhole(s);
    HasSplit(s, 0, head, ":" + rest);
    HasSplit(s, |head|, ":", rest);
    HasChar(s, |head|, ':');
    src := |head| + 1;
    if before == [] {
      HasChar(s, 0, ':');
      ReadGap(s, 0, eow, []);
    } else {
      ReadColons(s, 0, eow, [], -1, before);
      assert [] + before == before;
      ReadGap(s, |head|, eow, before);
    }
  }

  lemma HasWhole(s: string)
    ensures Has(s, 0, s)
  {
    assert s[0..|s|] == s;
  }

  lemma WithGapIs(words: seq<Word>, pos: nat, e: nat)
    requires pos <= e <= |words| && forall k :: pos <= k < e ==> words[k] == 0
    ensures WithGap(words[..pos] + words[e..], pos, e - pos) == words
  {}

  lemma ParseWords(words: seq<Word>, pos: int)
    requires |words| == 8 && IsLongestGap(words, pos)
    ensures Parse(WordText(words, pos)) == Some(words)
  {
    hide Hex, Has, Colons, Joined, Gapped, ReadWords, WithGap;
    var s := WordText(words, pos);
    DotlessText(words, pos);
    if pos == -1 {
      HasWhole(s);
      ReadJoined(s, 0, [], -1, words);
      assert [] + words == words && words + [] == words;
    } else {
      var e := ZeroEnd(words, pos);
      GappedLength(words[..pos], Joined(words[e..]));
      var src := ReadGapped(s, words[..pos], Joined(words[e..]), |s|);
      ReadJoined(s, src, words[..pos], pos, words[e..]);
      WithGapIs(words, pos, e);
      assert words + [] == words;
    }
  }

  lemma GappedLength(before: seq<Word>, rest: string)
    ensures |Gapped(before, rest)| >= |rest|
  {}

  /** After a head without a dot that ends in a colon, the four numbers are found. */
  lemma QuadFound(s: string, head: string, a: nat, b: nat, c: nat, d: nat)
    requires s == head + Quad(a, b, c, d) && |head| > 0 && head[|head| - 1] == ':' && Dotless(head)
    ensures 0 < FirstDot(s) < |s| && BackDigits(s, FirstDot(s)) == |head|
    ensures ScanQuad(s, |head|) == Some([a as int, b as int, c as int, d as int])
  {
    hide Dec, ScanQuad, FirstDot, BackDigits;
    var q := Quad(a, b, c, d);
    assert s[|head|..] == q;
    ScanQuadIs(s, |head|, a, b, c, d);
    var dot := |head| + |Dec(a)|;
    assert s[dot] == q[|Dec(a)|] == '.';
    assert forall i :: |head| <= i < dot ==> s[i] == q[i - |head|] == Dec(a)[i - |head|];
    assert s[|head| - 1] == ':';
    assert FirstDot(s) == dot;
  }

  lemma ParseV4(words: seq<Word>)
    requires |words| == 8 && IsV4(words)
    ensures Parse(V4Text(words)) == Some(words)
  {
    hide Hex, Has, Colons, Quad, ReadWords, FirstDot, BackDigits, ScanQuad, V4Text, Gapped, WithGap, IsV4;
    var q := Quad(words[6] / 256, words[6] % 256, words[7] / 256, words[7] % 256);
    var mid: seq<Word> := if words[5] == 0 then [] else [words[5]];
    V4Head(words, q);
    QuadFound(V4Text(words), Gapped([], Colons(mid)), words[6] / 256, words[6] % 256, words[7] / 256, words[7] % 256);
    V4Read(V4Text(words), mid, q);
    V4WithGap(words);
  }

  /** The words before the four numbers are read. */
  lemma V4Read(s: string, mid: seq<Word>, q: string)
    requires s == Gapped([], Colons(mid) + q) && |mid| <= 1
    ensures |Gapped([], Colons(mid))| <= |s| && ReadWords(s, 0, |Gapped([], Colons(mid))|, [], -1) == Some((mid, 0))
  {
    hide Hex, Has, Colons, ReadWords;
    var eow := |Gapped([], Colons(mid))|;
    var src := ReadGapped(s, [], Colons(mid) + q, eow);
    HasSplit(s, src, Colons(mid), q);
    ReadColons(s, src, eow, [], 0, mid);
    assert [] + mid == mid;
    ReadEnd(s, eow, mid, 0);
  }

  lemma V4WithGap(words: seq<Word>)
    requires |words| == 8 && IsV4(words)
    ensures var mid: seq<Word> := if words[5] == 0 then [] else [words[5]];
      WithGap(mid, 0, 6 - |mid|) + [Pair(words[6] / 256, words[6] % 256), Pair(words[7] / 256, words[7] % 256)] == words
  {
    assert forall i :: 0 <= i < 5 ==> words[i] == words[..5][i];
  }

  lemma ReadEnd(s: string, eow: nat, ws: seq<Word>, gap: int)
    requires eow <= |s| && -1 <= gap <= |ws|
    ensures ReadWords(s, eow, eow, ws, gap) == Some((ws, gap))
  {}

  /** What comes before the four numbers. */
  lemma V4Head(words: seq<Word>, q: string)
    requires |words| == 8
    requires q == Quad(words[6] / 256, words[6] % 256, words[7] / 256, words[7] % 256)
    ensures var mid: seq<Word> := if words[5] == 0 then [] else [words[5]]; var head := Gapped([], Colons(mid));
      && V4Text(words) == head + q == Gapped([], Colons(mid) + q)
      && |head| == 2 + |Colons(mid)| && head[|head| - 1] == ':' && Dotless(head)
  {
    hide Hex, Quad;
    var mid: seq<Word> := if words[5] == 0 then [] else [words[5]];
    var c := Colons(mid);
    DotlessColons(mid);
    if words[5] == 0 {
      assert c + q == q;
    } else {
      assert mid[1..] == [];
      assert c == Hex(words[5]) + (":" + "");
    }
    assert ":" + (":" + c) + q == ":" + (":" + (c + q));
  }

  /** Parsing undoes printing, whichever form it takes. */
  lemma ParseText(words: seq<Word>, pos: int)
    requires |words| == 8 && IsLongestGap(words, pos)
    ensures Parse(TextOf(words, pos)) == Some(words)
  {
    hide Parse, V4Text, WordText, IsLongestGap;
    if IsV4(words) {
      ParseV4(words);
    } else {
      ParseWords(words, pos);
    }
  }

  lemma {:induction false} ColonsLength(ws: seq<Word>)
    ensures |Colons(ws)| <= 5 * |ws|
  {
    hide Hex;
    if ws != [] {
      HexLength(ws[0]);
      ColonsLength(ws[1..]);
    }
  }

  lemma JoinedLength(ws: seq<Word>)
    requires ws != []
    ensures |Joined(ws)| <= 5 * |ws| - 1
  {
    hide Hex, Colons;
    ColonsLength(ws[..|ws| - 1]);
    HexLength(ws[|ws| - 1]);
  }

  lemma DecLength(n: byte)
    ensures |Dec(n)| <= 3
  {
    assert n < 100 ==> |Dec(n)| <= 2;
    assert n >= 10 ==> |Dec(n / 10)| <= 2;
  }

  /** No text is longer than 39 characters. */
  lemma TextLength(words: seq<Word>, pos: int)
    requires |words| == 8 && IsLongestGap(words, pos)
    ensures 0 < |TextOf(words, pos)| <= 39
  {
    hide Hex, Colons, Joined, Dec;
    if IsV4(words) {
      ColonsLength([words[5]]);
      DecLength(words[6] / 256);
      DecLength(words[6] % 256);
      DecLength(words[7] / 256);
      DecLength(words[7] % 256);
    } else if pos == -1 {
      JoinedLength(words);
      HasWhole(Joined(words));
      ReadJoined(Joined(words), 0, [], -1, words);
    } else {
      var e := ZeroEnd(words, pos);
      ColonsLength(words[..pos]);
      if e < 8 { JoinedLength(words[e..]); } else { NoneJoined(words); }
    }
  }

  lemma NoneJoined(words: seq<Word>)
    requires |words| == 8
    ensures Joined(words[8..]) == ""
  {}

  /** Whatever the address, with room for 40 characters it comes back from its text. */
  method ThereAndBack(addr: seq<byte>, len: nat) returns (back: Option<seq<byte>>)
    requires |addr| == 16
    ensures len >= 40 ==> back == Some(addr)
  {
    hide Parse, ZeroEnd, TextOf;
    var dst := Ntop(addr, len);
    ghost var words, pos :| WordsOf(addr, words) && IsLongestGap(words, pos) && dst == Copied(TextOf(words, pos), len);
    GapZero(words, pos);
    TextLength(words, pos);
    CopiedWhole(TextOf(words, pos), len);
    ParseText(words, pos);
    if dst.None? {
      return None;
    }
    var r, out := Pton(dst.value);
    if r == 1 && len >= 40 {
      SameWords(addr, out, words);
    }
    back := if r == 1 then Some(out) else None;
  }

  /** The address ::12 and its text. */
  const TWELVE: seq<byte> := seq(15, _ => 0) + [0x12]

  lemma TwelveText(words: seq<Word>, pos: int)
    requires |words| == 8 && WordsOf(TWELVE, words) && IsLongestGap(words, pos)
    ensures -1 <= pos < 8 && TextOf(words, pos) == "::12"
  {
    hide WordsOf, ZeroEnd, TextOf;
    TwelveWords(words);
    TwelveGap(words, pos);
  }

  lemma TwelveWords(words: seq<Word>)
    requires WordsOf(TWELVE, words)
    ensures words == [0, 0, 0, 0, 0, 0, 0, 0x12]
  {
    forall i | 0 <= i < 8 ensures words[i] == if i == 7 then 0x12 else 0 {
      assert TWELVE[2 * i] == 0 && TWELVE[2 * i + 1] == if i == 7 then 0x12 else 0;
    }
  }

  lemma TwelveGap(words: seq<Word>, pos: int)
    requires words == [0, 0, 0, 0, 0, 0, 0, 0x12] && IsLongestGap(words, pos)
    ensures pos == 0 && TextOf(words, pos) == "::12"
  {
    ZeroEndIs(words, 0, 7);
    assert words[0] == 0 && words[1] == 0;
    assert words[..0] == [] && words[7..] == [0x12] && [0x12][..0] == [];
    assert Hex(0x12) == Hex(1) + [HexDigit(2)];
  }

  /**
   With room for the four characters of ::12 and not for a zero behind them, the text comes out as that of
   another address.
   */
  method CutShort() returns (dst: Option<string>)
    ensures dst == Some("::1")
  {
    hide TextOf, ZeroEnd;
    assert |TWELVE| == 16 && "::12"[..3] == "::1";
    dst := Ntop(TWELVE, 4);
    ghost var words, pos :| WordsOf(TWELVE, words) && IsLongestGap(words, pos) && dst == Copied(TextOf(words, pos), 4);
    TwelveText(words, pos);
  }
}
