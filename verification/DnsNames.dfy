/**
 DNS names in a message: encoding with compression pointers and parsing, as in
 sections 3.1 and 4.1.4 of RFC 1035.
 */
module DnsNames {
  import opened Basics

  type Label = seq<byte>

  const DOT: byte := 46
  const MAX_LABELS: nat := 128

  // ----- names and their labels

  /** strchr(name, '.'), or the length of the name */
  function FirstDot(name: seq<byte>): (k: nat)
    ensures k <= |name| && (k < |name| ==> name[k] == DOT) && forall i :: 0 <= i < k ==> name[i] != DOT
  {
    if name == [] || name[0] == DOT then 0 else 1 + FirstDot(name[1..])
  }

  function Labels(name: seq<byte>): (ls: seq<Label>)
    ensures |ls| > 0
    decreases |name|
  {
    var k := FirstDot(name);
    if k == |name| then [name] else [name[..k]] + Labels(name[k + 1..])
  }

  /** Labels with dots between them. */
  function Dotted(ls: seq<Label>): (name: seq<byte>)
  {
    if ls == [] then [] else if |ls| == 1 then ls[0] else ls[0] + [DOT] + Dotted(ls[1..])
  }

  /** The first label, and the others. */
  lemma FirstLabel(rest: seq<byte>)
    ensures var ls, k := Labels(rest), FirstDot(rest);
      ls[0] == rest[..k] && if k < |rest| then |ls| > 1 && ls[1..] == Labels(rest[k + 1..]) else |ls| == 1
  {
    var k := FirstDot(rest);
    if k < |rest| {
      assert Labels(rest) == [rest[..k]] + Labels(rest[k + 1..]);
    } else {
      assert rest[..k] == rest;
    }
  }

  lemma {:induction false} DottedLabels(name: seq<byte>)
    ensures Dotted(Labels(name)) == name
    decreases |name|
  {
    hide FirstDot, Labels, Dotted;
    var k := FirstDot(name);
    FirstLabel(name);
    DottedFirst(Labels(name));
    if k < |name| {
      DottedLabels(name[k + 1..]);
      assert name == name[..k] + [DOT] + name[k + 1..];
    } else {
      assert name[..k] == name;
    }
  }

  lemma DottedFirst(ls: seq<Label>)
    requires |ls| > 0
    ensures Dotted(ls) == if |ls| == 1 then ls[0] else ls[0] + [DOT] + Dotted(ls[1..])
  {}

  /** A name of labels that are neither empty nor too long. */
  ghost predicate Proper(name: seq<byte>)
  {
    |name| <= 255 && ProperLabels(Labels(name))
  }

  ghost predicate ProperLabels(ls: seq<Label>)
  {
    forall i :: 0 <= i < |ls| ==> 0 < |ls[i]| <= 63
  }

  // ----- what a message says

  /** Where a pointer of these two bytes points. */
  function Target(hi: byte, lo: byte): (t: nat)
  {
    hi % 64 * 256 + lo
  }

  /**
   What there is to read at an index: nothing right; the labels, and the index after the name; or some labels, and
   then one of n bytes, not all of which are in memory
   */
  datatype Reading = Fails | Gives(labels: seq<Label>, end: nat) | Beyond(labels: seq<Label>, n: nat)

  function WithLabel(l: Label, r: Reading): (r': Reading)
  {
    if r.Fails? then r else r.(labels := [l] + r.labels)
  }

  /**
   The labels of the name at j, and where it ends; jumps have been made already.  Of a packet of that length, p is
   what can be read at its address.
   */
  function Read(p: seq<byte>, length: nat, j: nat, jumps: nat): (r: Reading)
    requires length <= |p| && jumps <= length + 1
    decreases length + 1 - jumps, length + 64 - j
  {
    if j >= length then Fails
    else if p[j] == 0 then Gives([], j + 1)
    else if p[j] >= 64 then
      if j + 1 >= length || Target(p[j], p[j + 1]) >= length || jumps + 1 > length then Fails
      else
        var r := Read(p, length, Target(p[j], p[j + 1]), jumps + 1);
        if r.Gives? then Gives(r.labels, j + 2) else r
    else if j + 1 + p[j] > |p| then Beyond([], p[j])
    else WithLabel(p[j + 1..j + 1 + p[j]], Read(p, length, j + 1 + p[j], jumps))
  }

  /** With 63 bytes behind the packet no label is beyond memory. */
  lemma {:induction false} NeverBeyond(p: seq<byte>, length: nat, j: nat, jumps: nat)
    requires length + 63 <= |p| && jumps <= length + 1
    ensures !Read(p, length, j, jumps).Beyond?
    decreases length + 1 - jumps, length + 64 - j
  {
    if j < length && p[j] >= 64 && j + 1 < length && Target(p[j], p[j + 1]) < length && jumps + 1 <= length {
      NeverBeyond(p, length, Target(p[j], p[j + 1]), jumps + 1);
    } else if j < length && 0 < p[j] < 64 {
      NeverBeyond(p, length, j + 1 + p[j], jumps);
    }
  }

  /** How many bytes the labels take in the output, after out bytes. */
  function OutLength(out: nat, ls: seq<Label>): (n: nat)
    decreases |ls|
  {
    if ls == [] then out else OutLength(out + (if out > 0 then 1 else 0) + |ls[0]|, ls[1..])
  }

  /** What name_parse writes for the labels, after out. */
  function Written(out: seq<byte>, ls: seq<Label>): (r: seq<byte>)
    ensures |r| == OutLength(|out|, ls)
    decreases |ls|
  {
    if ls == [] then out else Written((if out == [] then [] else out + [DOT]) + ls[0], ls[1..])
  }

  lemma {:induction false} OutGrows(out: nat, ls: seq<Label>)
    ensures OutLength(out, ls) >= out
    decreases |ls|
  {
    if ls != [] { OutGrows(out + (if out > 0 then 1 else 0) + |ls[0]|, ls[1..]); }
  }

  lemma {:induction false} WrittenIs(out: seq<byte>, ls: seq<Label>)
    requires ProperLabels(ls)
    ensures Written(out, ls) == if ls == [] then out else if out == [] then Dotted(ls) else out + [DOT] + Dotted(ls)
    decreases |ls|
  {
    if ls != [] {
      var out' := (if out == [] then [] else out + [DOT]) + ls[0];
      WrittenIs(out', ls[1..]);
      if |ls| > 1 {
        assert out == [] ==> out' + [DOT] + Dotted(ls[1..]) == Dotted(ls);
        assert out != [] ==> out' + [DOT] + Dotted(ls[1..]) == out + [DOT] + Dotted(ls);
      } else {
        assert ls[1..] == [];
      }
    }
  }

  /** The part of name_parse that makes sure of room for a label of n bytes, and writes the dot before it */
  method RoomForLabel(name: seq<byte>, n: nat, outLen: nat) returns (fits: bool, name': seq<byte>)
    ensures fits <==> |name| + (if name == [] then 0 else 1) + n < outLen
    ensures fits ==> name' == if name == [] then [] else name + [DOT]
  {
    fits, name' := false, name;
    if name != [] {
      if |name| + 1 >= outLen {
        return;
      }
      name' := name + [DOT];
    }
    if |name'| + n >= outLen {
      return;
    }
    fits := true;
  }

  /** One step of reading. */
  lemma ReadStep(p: seq<byte>, length: nat, j: nat, jumps: nat)
    requires length <= |p| && jumps <= length
    ensures var r := Read(p, length, j, jumps);
      && (j >= length ==> r == Fails)
      && (j < length && p[j] == 0 ==> r == Gives([], j + 1))
      && (j < length && p[j] >= 64 && (j + 1 >= length || Target(p[j], p[j + 1]) >= length || jumps + 1 > length) ==>
          r == Fails)
      && (j < length && p[j] >= 64 && j + 1 < length && Target(p[j], p[j + 1]) < length && jumps + 1 <= length ==>
            var r1 := Read(p, length, Target(p[j], p[j + 1]), jumps + 1);
            r == if r1.Gives? then Gives(r1.labels, j + 2) else r1)
      && (j < length && 0 < p[j] < 64 ==>
            r == if j + 1 + p[j] > |p| then Beyond([], p[j])
                 else WithLabel(p[j + 1..j + 1 + p[j]], Read(p, length, j + 1 + p[j], jumps)))
  {
    hide Target;
  }

  /** What name_parse is to answer */
  ghost predicate Answer(all: Reading, outLen: nat, over: bool, r: int, name: seq<byte>, idx': nat)
  {
    match all
    case Fails => !over && r == -1
    case Gives(ls, end) =>
      !over && if OutLength(0, ls) < outLen then r == 0 && name == Written([], ls) && idx' == end else r == -1
    case Beyond(ls, n) =>
      r == -1 && (over <==> OutLength(0, ls) + (if OutLength(0, ls) > 0 then 1 else 0) + n < outLen)
  }

  /**
   name_parse: the name, and the index after it.  The length of a label is not checked against the packet: over says
   that bytes beyond memory are copied, which is so exactly if there is such a label and room for it in the output.
   */
  method NameParse(p: seq<byte>, length: nat, idx: nat, outLen: nat)
    returns (over: bool, r: int, name: seq<byte>, idx': nat)
    requires length <= |p|
    ensures match Read(p, length, idx, 0)
      case Fails => !over && r == -1
      case Gives(ls, end) =>
        !over && if OutLength(0, ls) < outLen then r == 0 && name == Written([], ls) && idx' == end else r == -1
      case Beyond(ls, n) =>
        r == -1 && (over <==> OutLength(0, ls) + (if OutLength(0, ls) > 0 then 1 else 0) + n < outLen)
    ensures over ==> |p| < length + 63
  {
    hide Written, OutLength, Target, Read, Answer;
    ghost var all := Read(p, length, idx, 0);
    over, r, name, idx' := ParseLoop(p, length, idx, outLen);
    AnswerIs(all, outLen, over, r, name, idx');
    if length + 63 <= |p| { NeverBeyond(p, length, idx, 0); }
  }

  lemma AnswerIs(all: Reading, outLen: nat, over: bool, r: int, name: seq<byte>, idx': nat)
    requires Answer(all, outLen, over, r, name, idx')
    ensures match all
      case Fails => !over && r == -1
      case Gives(ls, end) =>
        !over && if OutLength(0, ls) < outLen then r == 0 && name == Written([], ls) && idx' == end else r == -1
      case Beyond(ls, n) =>
        r == -1 && (over <==> OutLength(0, ls) + (if OutLength(0, ls) > 0 then 1 else 0) + n < outLen)
  {
    hide Written, OutLength;
  }

  /** The loop of name_parse, and what comes after it */
  method ParseLoop(p: seq<byte>, length: nat, idx: nat, outLen: nat)
    returns (over: bool, r: int, name: seq<byte>, idx': nat)
    requires length <= |p|
    ensures Answer(Read(p, length, idx, 0), outLen, over, r, name, idx')
  {
    hide Target, Read, Answer, Continues;
    var j: nat, jumps: nat := idx, 0;
    var nameEnd: int := -1;
    over, name, idx' := false, [], idx;
    ghost var all := Read(p, length, idx, 0);
    Starts(all);
    while true
      invariant jumps <= length && (nameEnd == -1 <==> jumps == 0) && -1 <= nameEnd && !over
      invariant Continues(all, Read(p, length, j, jumps), name, nameEnd)
      decreases length + 1 - jumps, length + 64 - j
    {
      ReadStep(p, length, j, jumps);
      ghost var rest := Read(p, length, j, jumps);
      if j >= length {
        ParseFails(all, name, nameEnd, outLen, idx);
        return over, -1, name, idx;
      }
      var labelLen := p[j];
      j := j + 1;
      if labelLen == 0 {
        ParseEnds(all, name, nameEnd, outLen, j, idx);
        break;
      }
      if labelLen >= 64 {
        if j >= length {
          ParseFails(all, name, nameEnd, outLen, idx);
          return over, -1, name, idx;
        }
        var low := p[j];
        j := j + 1;
        ghost var end, nameEnd0 := j, nameEnd;
        if nameEnd < 0 {
          nameEnd := j;
        }
        j := Target(labelLen, low);
        if j >= length {
          ParseFails(all, name, nameEnd0, outLen, idx);
          return over, -1, name, idx;
        }
        jumps := jumps + 1;
        if jumps > length {
          ParseFails(all, name, nameEnd0, outLen, idx);
          return over, -1, name, idx;
        }
        NextJump(all, Read(p, length, j, jumps), name, nameEnd0, end);
        continue;
      }
      var fits, name' := RoomForLabel(name, labelLen, outLen);
      if !fits {
        ParseFull(all, rest, name, nameEnd, outLen, labelLen, idx);
        return over, -1, name, idx;
      }
      if j + labelLen > |p| {
        ParseBeyond(all, name, nameEnd, outLen, labelLen, idx);
        return true, -1, name, idx;
      }
      NextLabel(all, Read(p, length, j + labelLen, jumps), name, nameEnd, p[j..j + labelLen]);
      name := name' + p[j..j + labelLen];
      j := j + labelLen;
    }
    if |name| >= outLen {
      return over, -1, name, idx;
    }
    idx' := if nameEnd < 0 then j else nameEnd;
    r := 0;
  }

  /** What is still to be read, after name has been written, makes up all. */
  ghost predicate Continues(all: Reading, rest: Reading, name: seq<byte>, nameEnd: int)
  {
    && (all.Fails? <==> rest.Fails?) && (all.Gives? <==> rest.Gives?)
    && (all.Gives? ==> all.end == (if nameEnd == -1 then rest.end else nameEnd))
    && (all.Beyond? ==> all.n == rest.n)
    && (!all.Fails? ==> Written([], all.labels) == Written(name, rest.labels))
  }

  lemma Starts(all: Reading)
    ensures Continues(all, all, [], -1)
  {}

  /** One label written; what was written stays. */
  lemma WrittenFirst(out: seq<byte>, ls: seq<Label>)
    ensures ls == [] ==> Written(out, ls) == out
    ensures ls != [] ==> Written(out, ls) == Written((if out == [] then [] else out + [DOT]) + ls[0], ls[1..])
    ensures ls != [] ==> OutLength(|out|, ls) == OutLength(|out| + (if |out| > 0 then 1 else 0) + |ls[0]|, ls[1..])
  {}

  lemma WrittenSome(out: seq<byte>, ls: seq<Label>)
    ensures |Written(out, ls)| == OutLength(|out|, ls) >= |out|
    ensures ls == [] ==> Written(out, ls) == out
    ensures ls != [] ==>
      && Written(out, ls) == Written((if out == [] then [] else out + [DOT]) + ls[0], ls[1..])
      && OutLength(|out|, ls) >= |out| + (if out == [] then 0 else 1) + |ls[0]|
  {
    hide Written, OutLength;
    OutGrows(|out|, ls);
    WrittenFirst(out, ls);
    if ls != [] { OutGrows(|out| + (if |out| > 0 then 1 else 0) + |ls[0]|, ls[1..]); }
  }

  lemma ParseFails(all: Reading, name: seq<byte>, nameEnd: int, outLen: nat, idx: nat)
    requires Continues(all, Fails, name, nameEnd)
    ensures Answer(all, outLen, false, -1, name, idx)
  {}

  lemma ParseEnds(all: Reading, name: seq<byte>, nameEnd: int, outLen: nat, j: nat, idx: nat)
    requires Continues(all, Gives([], j), name, nameEnd) && -1 <= nameEnd
    ensures |name| >= outLen ==> Answer(all, outLen, false, -1, name, idx)
    ensures |name| < outLen ==> Answer(all, outLen, false, 0, name, if nameEnd < 0 then j else nameEnd)
  {
    hide Written, OutLength;
    WrittenSome([], all.labels);
    WrittenSome(name, []);
  }

  /** There is no room for a label of n bytes. */
  lemma ParseFull(all: Reading, rest: Reading, name: seq<byte>, nameEnd: int, outLen: nat, n: nat, idx: nat)
    requires Continues(all, rest, name, nameEnd) && |name| + (if name == [] then 0 else 1) + n >= outLen
    requires rest.Fails? || rest == Beyond([], n) || (rest.labels != [] && |rest.labels[0]| == n)
    ensures Answer(all, outLen, false, -1, name, idx)
  {
    hide Written, OutLength;
    if !all.Fails? {
      WrittenSome([], all.labels);
      WrittenSome(name, rest.labels);
    }
  }

  lemma ParseBeyond(all: Reading, name: seq<byte>, nameEnd: int, outLen: nat, n: nat, idx: nat)
    requires Continues(all, Beyond([], n), name, nameEnd) && |name| + (if name == [] then 0 else 1) + n < outLen
    ensures Answer(all, outLen, true, -1, name, idx)
  {
    hide Written, OutLength;
    WrittenSome([], all.labels);
    WrittenSome(name, []);
  }

  lemma NextLabel(all: Reading, rest: Reading, name: seq<byte>, nameEnd: int, l: Label)
    requires Continues(all, WithLabel(l, rest), name, nameEnd)
    ensures Continues(all, rest, (if name == [] then [] else name + [DOT]) + l, nameEnd)
  {
    hide Written, OutLength;
    if !rest.Fails? {
      WrittenSome(name, [l] + rest.labels);
      assert ([l] + rest.labels)[1..] == rest.labels;
    }
  }

  /** A pointer, the first one being where the name ends in the packet */
  lemma NextJump(all: Reading, rest: Reading, name: seq<byte>, nameEnd: int, j: nat)
    requires Continues(all, if rest.Gives? then Gives(rest.labels, j) else rest, name, nameEnd)
    ensures Continues(all, rest, name, if nameEnd == -1 then j else nameEnd)
  {
    hide Written, OutLength;
  }

  // ----- names in a message that is being written

  /**
   The bytes at pos, before hi, spell the labels: each pointer goes back to a name that lies
   entirely before it.
   */
  ghost predicate Means(b: seq<byte>, hi: nat, pos: nat, ls: seq<Label>)
    requires hi <= |b|
    decreases hi, |ls|
  {
    pos < hi &&
    if b[pos] == 0 then ls == []
    else if b[pos] >= 64 then
      pos + 1 < hi && Target(b[pos], b[pos + 1]) < pos && Means(b, pos, Target(b[pos], b[pos + 1]), ls)
    else
      && ls != [] && |ls[0]| == b[pos] && pos + 1 + b[pos] <= hi && b[pos + 1..pos + 1 + b[pos]] == ls[0]
      && Means(b, hi, pos + 1 + b[pos], ls[1..])
  }

  /** Where the name at pos ends. */
  ghost function End(b: seq<byte>, hi: nat, pos: nat): (e: nat)
    requires hi <= |b|
    decreases hi - pos
  {
    if pos >= hi then pos
    else if b[pos] == 0 then pos + 1
    else if b[pos] >= 64 then pos + 2
    else End(b, hi, pos + 1 + b[pos])
  }

  /** Later bytes do not change what earlier ones mean. */
  lemma {:induction false} MeansStill(b: seq<byte>, b': seq<byte>, hi: nat, hi': nat, pos: nat, ls: seq<Label>)
    requires hi <= |b| && hi <= hi' <= |b'| && (forall i :: 0 <= i < hi ==> b'[i] == b[i]) && Means(b, hi, pos, ls)
    ensures Means(b', hi', pos, ls) && End(b', hi', pos) == End(b, hi, pos)
    decreases hi, |ls|
  {
    if b[pos] == 0 {
    } else if b[pos] >= 64 {
      MeansStill(b, b', pos, pos, Target(b[pos], b[pos + 1]), ls);
    } else {
      MeansStill(b, b', hi, hi', pos + 1 + b[pos], ls[1..]);
      assert b'[pos + 1..pos + 1 + b[pos]] == b[pos + 1..pos + 1 + b[pos]];
    }
  }

  /** name_parse reads a name that a message means, in any message that is long enough. */
  lemma {:induction false} ReadMeans(p: seq<byte>, length: nat, hi: nat, pos: nat, ls: seq<Label>, jumps: nat)
    requires length <= |p| && hi + jumps <= length && Means(p, hi, pos, ls)
    ensures Read(p, length, pos, jumps) == Gives(ls, End(p, hi, pos))
    decreases hi, |ls|
  {
    if p[pos] == 0 {
    } else if p[pos] >= 64 {
      ReadMeans(p, length, pos, Target(p[pos], p[pos + 1]), ls, jumps + 1);
    } else {
      ReadMeans(p, length, hi, pos + 1 + p[pos], ls[1..], jumps);
      assert ls == [ls[0]] + ls[1..];
    }
  }

  /** The labels written from one place up to another. */
  ghost predicate Chain(b: seq<byte>, from: nat, to: nat, ls: seq<Label>)
    requires to <= |b|
    decreases |ls|
  {
    if ls == [] then from == to
    else
      && from < to && 0 < |ls[0]| == b[from] < 64 && from + 1 + |ls[0]| <= to
      && b[from + 1..from + 1 + |ls[0]|] == ls[0]
      && Chain(b, from + 1 + |ls[0]|, to, ls[1..])
  }

  lemma {:induction false} ChainStill(b: seq<byte>, b': seq<byte>, from: nat, to: nat, ls: seq<Label>)
    requires to <= |b| && to <= |b'| && (forall i :: 0 <= i < to ==> b'[i] == b[i]) && Chain(b, from, to, ls)
    ensures Chain(b', from, to, ls)
    decreases |ls|
  {
    if ls != [] {
      ChainStill(b, b', from + 1 + |ls[0]|, to, ls[1..]);
      assert b'[from + 1..from + 1 + |ls[0]|] == b[from + 1..from + 1 + |ls[0]|];
    }
  }

  lemma {:induction false} ChainMore(b: seq<byte>, from: nat, to: nat, ls: seq<Label>, l: Label)
    requires to + 1 + |l| <= |b| && Chain(b, from, to, ls) && 0 < |l| == b[to] < 64 && b[to + 1..to + 1 + |l|] == l
    ensures Chain(b, from, to + 1 + |l|, ls + [l])
    decreases |ls|
  {
    if ls == [] {
      assert [l][1..] == [];
    } else {
      ChainMore(b, from + 1 + |ls[0]|, to, ls[1..], l);
      assert (ls + [l])[1..] == ls[1..] + [l];
    }
  }

  /** Labels and then a name are a name. */
  lemma {:induction false} ChainMeans(b: seq<byte>, from: nat, to: nat, ls: seq<Label>, hi: nat, rest: seq<Label>)
    requires to <= |b| && hi <= |b| && Chain(b, from, to, ls) && Means(b, hi, to, rest)
    ensures Means(b, hi, from, ls + rest) && End(b, hi, from) == End(b, hi, to)
    decreases |ls|
  {
    if ls == [] {
      assert ls + rest == rest;
    } else {
      ChainMeans(b, from + 1 + |ls[0]|, to, ls[1..], hi, rest);
      assert (ls + rest)[1..] == ls[1..] + rest;
      assert (ls + rest)[0] == ls[0];
    }
  }

  // ----- the table of suffixes already written

  /** struct dnslabel_entry */
  datatype Entry = Entry(v: seq<byte>, pos: nat)

  ghost predicate InTable(table: seq<Entry>, e: Entry)
  {
    exists i :: 0 <= i < |table| && table[i] == e
  }

  ghost predicate NotInTable(table: seq<Entry>, suffix: seq<byte>)
  {
    forall i :: 0 <= i < |table| ==> table[i].v != suffix
  }

  /** Where the table says first that a suffix is; -1 if it does not. */
  function FirstPos(table: seq<Entry>, suffix: seq<byte>): (pos: int)
  {
    if table == [] then -1 else if table[0].v == suffix then table[0].pos else FirstPos(table[1..], suffix)
  }

  lemma {:induction false} FirstIs(table: seq<Entry>, suffix: seq<byte>, i: nat)
    requires i <= |table| && forall k :: 0 <= k < i ==> table[k].v != suffix
    ensures FirstPos(table, suffix) ==
      if i < |table| && table[i].v == suffix then table[i].pos else FirstPos(table[i..], suffix)
  {
    if i == 0 {
      assert table[0..] == table;
    } else {
      FirstIs(table[1..], suffix, i - 1);
      assert table[1..][i - 1..] == table[i..];
    }
  }

  /** Entries for other suffixes behind. */
  lemma {:induction false} FirstBefore(table: seq<Entry>, added: seq<Entry>, suffix: seq<byte>)
    requires NotInTable(added, suffix)
    ensures FirstPos(table + added, suffix) == FirstPos(table, suffix)
  {
    if table == [] {
      assert table + added == added;
      FirstIs(added, suffix, |added|);
    } else {
      FirstBefore(table[1..], added, suffix);
      assert (table + added)[1..] == table[1..] + added;
    }
  }

  lemma FirstNone(table: seq<Entry>, suffix: seq<byte>)
    requires NotInTable(table, suffix)
    ensures FirstPos(table, suffix) == -1
  {
    FirstIs(table, suffix, |table|);
  }

  /** dnslabel_table_get_pos */
  method GetPos(table: seq<Entry>, suffix: seq<byte>) returns (pos: int)
    ensures if pos < 0 then pos == -1 && NotInTable(table, suffix) else InTable(table, Entry(suffix, pos))
    ensures pos == FirstPos(table, suffix)
  {
    FirstIs(table, suffix, 0);
    for i := 0 to |table|
      invariant forall k :: 0 <= k < i ==> table[k].v != suffix
    {
      FirstIs(table, suffix, i);
      if table[i].v == suffix {
        assert table[i] == Entry(suffix, table[i].pos);
        return table[i].pos;
      }
    }
    FirstNone(table, suffix);
    return -1;
  }

  /** dnslabel_table_add, whose refusal of a full table is ignored */
  function TableAdd(table: seq<Entry>, suffix: seq<byte>, pos: nat): (table': seq<Entry>)
  {
    if |table| == MAX_LABELS then table else table + [Entry(suffix, pos)]
  }

  /** Every suffix in the table is where the table says, before hi. */
  ghost predicate TableOk(b: seq<byte>, hi: nat, table: seq<Entry>)
    requires hi <= |b|
  {
    forall i :: 0 <= i < |table| ==>
      table[i].pos < hi && Means(b, hi, table[i].pos, Labels(table[i].v))
  }

  /** ref | 0xc000, as two bytes */
  function PointerTo(ref: nat): (p: (byte, byte))
  {
    (192 + ref / 256 % 64, ref % 256)
  }

  /** A pointer leads back exactly if it points into the first 0x4000 bytes of the message. */
  lemma PointerIs(ref: nat)
    ensures Target(PointerTo(ref).0, PointerTo(ref).1) == ref % 0x4000
    ensures Target(PointerTo(ref).0, PointerTo(ref).1) == ref <==> ref < 0x4000
  {
    hide PointerTo, Target;
    var q, lo := ref / 256, ref % 256;
    assert ref == 256 * q + lo;
    PointerParts(q, lo, ref);
    assert Target(PointerTo(ref).0, PointerTo(ref).1) == ref % 0x4000;
  }

  lemma PointerParts(q: nat, lo: nat, ref: nat)
    requires ref == 256 * q + lo && lo < 256 && q == ref / 256 && lo == ref % 256
    ensures Target(PointerTo(ref).0, PointerTo(ref).1) == ref % 0x4000 == 256 * (q % 64) + lo
  {
    hide Target, PointerTo;
    var n, m := q / 64, q % 64;
    PointerBytes(ref);
    LowSix(m);
    assert ref == 0x4000 * n + (256 * m + lo) && 256 * m + lo < 0x4000;
    RestIs(n, 256 * m + lo);
  }

  lemma PointerBytes(ref: nat)
    ensures Target(PointerTo(ref).0, PointerTo(ref).1) == (192 + ref / 256 % 64) % 64 * 256 + ref % 256
  {}

  lemma LowSix(m: nat)
    requires m < 64
    ensures (192 + m) % 64 == m
  {}

  lemma RestIs(n: nat, r: nat)
    requires r < 0x4000
    ensures (0x4000 * n + r) % 0x4000 == r
  {}

  // ----- writing a name

  /** APPEND16(ref | 0xc000) */
  method WritePointer(b: seq<byte>, at: nat, ref: nat) returns (b': seq<byte>)
    requires at + 2 <= |b|
    ensures |b'| == |b| && b'[..at] == b[..at] && b'[at] == PointerTo(ref).0 && b'[at + 1] == PointerTo(ref).1
  {
    b' := b[at := PointerTo(ref).0][at + 1 := PointerTo(ref).1];
  }

  /** A length byte and a label: buf[j++] = label_len, then memcpy */
  method WriteLabel(b: seq<byte>, at: nat, l: Label) returns (b': seq<byte>)
    requires at + 1 + |l| <= |b| && |l| <= 63
    ensures |b'| == |b| && b'[..at] == b[..at] && b'[at] == |l| && b'[at + 1..at + 1 + |l|] == l
  {
    b' := b[..at] + [|l| as byte] + l + b[at + 1 + |l|..];
  }

  /** An entry added while the labels before the n-th of all were written: its own start with the m-th. */
  ghost predicate AddedOk(b: seq<byte>, at: nat, all: seq<Label>, n: nat, e: Entry, m: nat, left: nat)
    requires at <= |b| && n <= |all|
  {
    m < n && Labels(e.v) == all[m..] && e.pos < at && Chain(b, e.pos, at, all[m..n]) && |e.v| > left
  }

  /** One more label written. */
  lemma AddedMore(b: seq<byte>, b': seq<byte>, at: nat, all: seq<Label>, n: nat, e: Entry, m: nat, left: nat,
                  left': nat)
    requires n < |all| && at + 1 + |all[n]| <= |b| == |b'| && AddedOk(b, at, all, n, e, m, left) && left' <= left
    requires b'[..at] == b[..at] && 0 < |all[n]| == b'[at] < 64 && b'[at + 1..at + 1 + |all[n]|] == all[n]
    ensures AddedOk(b', at + 1 + |all[n]|, all, n + 1, e, m, left')
  {
    hide Chain, Labels;
    SamePrefix(b, b', at);
    ChainStill(b, b', e.pos, at, all[m..n]);
    ChainMore(b', e.pos, at, all[m..n], all[n]);
    assert all[m..n] + [all[n]] == all[m..n + 1];
  }

  lemma SamePrefix(b: seq<byte>, b': seq<byte>, at: nat)
    requires at <= |b| && at <= |b'| && b'[..at] == b[..at]
    ensures forall i :: 0 <= i < at ==> b'[i] == b[i]
  {
    assert forall i :: 0 <= i < at ==> b'[i] == b'[..at][i] && b[i] == b[..at][i];
  }

  /** The label just written, as an entry. */
  lemma AddedNew(b: seq<byte>, at: nat, all: seq<Label>, n: nat, v: seq<byte>, left': nat)
    requires n < |all| && at + 1 + |all[n]| <= |b| && Labels(v) == all[n..] && left' < |v|
    requires 0 < |all[n]| == b[at] < 64 && b[at + 1..at + 1 + |all[n]|] == all[n]
    ensures AddedOk(b, at + 1 + |all[n]|, all, n + 1, Entry(v, at), n, left')
  {
    hide Chain, Labels;
    ChainNone(b, at);
    ChainMore(b, at, at, [], all[n]);
    assert [] + [all[n]] == all[n..n + 1];
  }

  lemma ChainNone(b: seq<byte>, at: nat)
    requires at <= |b|
    ensures Chain(b, at, at, [])
  {}

  /** Once the rest of the name is there, an added entry is as good as an old one. */
  lemma AddedMeans(b: seq<byte>, at: nat, hi: nat, all: seq<Label>, n: nat, e: Entry, m: nat, left: nat)
    requires at < hi <= |b| && n <= |all| && AddedOk(b, at, all, n, e, m, left) && Means(b, hi, at, all[n..])
    ensures Means(b, hi, e.pos, Labels(e.v)) && e.pos < hi
  {
    ChainMeans(b, e.pos, at, all[m..n], hi, all[n..]);
    assert all[m..n] + all[n..] == all[m..];
  }

  /** What has been written of a name that starts at j, with the entries added since. */
  ghost predicate Writing(b: seq<byte>, j: nat, at: nat, all: seq<Label>, n: nat, added: seq<Entry>, ms: seq<nat>,
                          left: nat)
  {
    && at <= |b| && n <= |all| && Chain(b, j, at, all[..n]) && |added| == |ms|
    && forall i :: 0 <= i < |added| ==> AddedOk(b, at, all, n, added[i], ms[i], left)
  }

  lemma WritingStarts(b: seq<byte>, j: nat, all: seq<Label>, left: nat)
    requires j <= |b|
    ensures Writing(b, j, j, all, 0, [], [], left)
  {
    assert all[..0] == [];
  }

  lemma WritingMore(b: seq<byte>, b': seq<byte>, j: nat, at: nat, all: seq<Label>, n: nat, added: seq<Entry>,
                    ms: seq<nat>, v: seq<byte>, left': nat, full: bool)
    requires Writing(b, j, at, all, n, added, ms, |v|) && n < |all| && at + 1 + |all[n]| <= |b| == |b'|
    requires Labels(v) == all[n..] && left' < |v|
    requires b'[..at] == b[..at] && 0 < |all[n]| == b'[at] < 64 && b'[at + 1..at + 1 + |all[n]|] == all[n]
    ensures Writing(b', j, at + 1 + |all[n]|, all, n + 1, if full then added else added + [Entry(v, at)],
                    if full then ms else ms + [n], left')
  {
    hide Chain, Labels, AddedOk;
    var added', ms' := if full then added else added + [Entry(v, at)], if full then ms else ms + [n];
    SamePrefix(b, b', at);
    ChainStill(b, b', j, at, all[..n]);
    ChainMore(b', j, at, all[..n], all[n]);
    assert all[..n] + [all[n]] == all[..n + 1];
    forall i | 0 <= i < |added'| ensures AddedOk(b', at + 1 + |all[n]|, all, n + 1, added'[i], ms'[i], left') {
      if i < |added| {
        AddedMore(b, b', at, all, n, added[i], ms[i], |v|, left');
      } else {
        AddedNew(b', at, all, n, v, left');
      }
    }
  }

  /** The name is complete. */
  lemma WritingDone(b: seq<byte>, j: nat, at: nat, hi: nat, all: seq<Label>, n: nat, table: seq<Entry>,
                    added: seq<Entry>, ms: seq<nat>, left: nat, b0: seq<byte>)
    requires Writing(b, j, at, all, n, added, ms, left) && at < hi <= |b| && Means(b, hi, at, all[n..])
    requires End(b, hi, at) == hi
    requires j <= |b0| && j <= at && b0[..j] == b[..j] && TableOk(b0, j, table)
    ensures Means(b, hi, j, all) && End(b, hi, j) == hi
    ensures TableOk(b, hi, table + added)
  {
    ChainMeans(b, j, at, all[..n], hi, all[n..]);
    assert all[..n] + all[n..] == all;
    var table' := table + added;
    SamePrefix(b, b0, j);
    forall i | 0 <= i < |table'| ensures table'[i].pos < hi && Means(b, hi, table'[i].pos, Labels(table'[i].v)) {
      if i < |table| {
        MeansStill(b0, b, j, hi, table[i].pos, Labels(table[i].v));
      } else {
        AddedMeans(b, at, hi, all, n, added[i - |table|], ms[i - |table|], left);
      }
    }
  }

  /** One turn of the loop of dnsname_to_labels, when the rest of the name is not in the table */
  method PutLabel(buf: seq<byte>, bufLen: nat, at: nat, rest: seq<byte>, table: Option<seq<Entry>>,
                  ghost j: nat, ghost all: seq<Label>, ghost n: nat, ghost known: seq<Entry>, ghost added: seq<Entry>,
                  ghost ms: seq<nat>)
    returns (r: int, buf': seq<byte>, table': Option<seq<Entry>>, k: nat, ghost added': seq<Entry>, ghost ms': seq<nat>)
    requires j <= at <= bufLen < |buf|
    ensures |buf'| == |buf| && buf'[..at] == buf[..at] && k == FirstDot(rest) && table'.Some? == table.Some?
    ensures r == if k > 63 then -1 else if at + k + 1 > bufLen then -2 else at + k + 1
    ensures r >= 0 ==> buf'[r - 1] == if k > 0 then rest[k - 1] else 0
    ensures table == Some(known + added) ==> table' == Some(known + added')
    ensures table.None? ==> added' == added
    ensures added' == added || added' == added + [Entry(rest, at)]
    ensures r < 0 ==> added' == added && table' == table
    ensures table.Some? && r >= 0 ==>
      table'.value == if |table.value| == 128 then table.value else table.value + [Entry(rest, at)]
    ensures r >= 0 && Writing(buf, j, at, all, n, added, ms, |rest|) && n < |all| && Labels(rest) == all[n..] &&
            LabelIs(all, n, rest) ==>
      Writing(buf', j, r, all, n + 1, added', ms', if k == |rest| then 0 else |rest| - k - 1)
  {
    hide Labels, Writing, FirstDot;
    buf', table', added', ms' := buf, table, added, ms;
    k := FirstDot(rest);
    if k > 63 {
      return -1, buf', table', k, added', ms';
    }
    if at + k + 1 > bufLen {
      return -2, buf', table', k, added', ms';
    }
    ghost var full := table.None? || |table.value| == MAX_LABELS;
    if table.Some? {
      table' := Some(TableAdd(table.value, rest, at));
    }
    buf' := WriteLabel(buf, at, rest[..k]);
    LastByte(buf', at, rest[..k]);
    r := at + 1 + k;
    if Writing(buf, j, at, all, n, added, ms, |rest|) && n < |all| && Labels(rest) == all[n..]
      && LabelIs(all, n, rest) {
      WritingMore(buf, buf', j, at, all, n, added, ms, rest, if k == |rest| then 0 else |rest| - k - 1, full);
    }
    if !full {
      added', ms' := added + [Entry(rest, at)], ms + [n];
      assert known + added' == known + added + [Entry(rest, at)];
    }
  }

  ghost predicate LabelIs(all: seq<Label>, n: nat, rest: seq<byte>)
  {
    n < |all| && all[n] == rest[..FirstDot(rest)] && 0 < FirstDot(rest) <= 63
  }

  /** A C string has no zero in it. */
  ghost predicate Text(name: seq<byte>)
  {
    forall i :: 0 <= i < |name| ==> name[i] != 0
  }

  lemma TextAt(name: seq<byte>, start: nat, k: nat)
    requires Text(name) && start + k <= |name|
    ensures k > 0 ==> name[start..][k - 1] != 0
  {}

  /** The labels all are spelled from j to r, and the entries are right. */
  ghost predicate Named(b: seq<byte>, r: nat, j: nat, all: seq<Label>, entries: seq<Entry>)
    requires r <= |b|
  {
    Means(b, r, j, all) && End(b, r, j) == r && TableOk(b, r, entries)
  }

  /** The labels before the n-th are in the message, and those from start on are still to come. */
  ghost predicate Progress(name: seq<byte>, start: nat, b: seq<byte>, j: nat, at: nat, n: nat, added: seq<Entry>,
                           ms: seq<nat>)
  {
    && start <= |name| && n < |Labels(name)| && Labels(name[start..]) == Labels(name)[n..]
    && Writing(b, j, at, Labels(name), n, added, ms, |name| - start)
  }

  lemma ProgressStarts(name: seq<byte>, b: seq<byte>, j: nat)
    requires j <= |b|
    ensures Progress(name, 0, b, j, j, 0, [], [])
  {
    hide Writing;
    WritingStarts(b, j, Labels(name), |name|);
    assert name[0..] == name && Labels(name)[0..] == Labels(name);
  }

  /** How long the label at start is. */
  function LabelLen(name: seq<byte>, start: nat): (k: nat)
    requires start <= |name|
  {
    FirstDot(name[start..])
  }

  /** The label at start is put at the end of the message. */
  method PutNext(buf: seq<byte>, bufLen: nat, at: nat, name: seq<byte>, start: nat, table: Option<seq<Entry>>,
                 ghost j: nat, ghost n: nat, ghost known: seq<Entry>, ghost added: seq<Entry>, ghost ms: seq<nat>)
    returns (r: int, buf': seq<byte>, table': Option<seq<Entry>>, k: nat, ghost added': seq<Entry>, ghost ms': seq<nat>)
    requires j <= at <= bufLen < |buf| && start <= |name| && Text(name)
    ensures |buf'| == |buf| && buf'[..at] == buf[..at] && start + k <= |name| && table'.Some? == table.Some?
    ensures k == LabelLen(name, start) && (r < 0 <==> k > 63 || at + k + 1 > bufLen)
    ensures r >= 0 ==> r == at + k + 1 <= bufLen && (buf'[r - 1] != 0 <==> k > 0)
    ensures table == Some(known + added) ==> table' == Some(known + added')
    ensures table.None? ==> added' == added
    ensures added' == added || added' == added + [Entry(name[start..], at)]
    ensures r < 0 ==> added' == added && table' == table
    ensures table.Some? && r >= 0 ==>
      table'.value == if |table.value| == 128 then table.value else table.value + [Entry(name[start..], at)]
    ensures Proper(name) && Progress(name, start, buf, j, at, n, added, ms) ==>
      && (at + k + 1 <= bufLen ==> r >= 0)
      && (r >= 0 ==> buf'[r - 1] != 0)
      && (r >= 0 && start + k < |name| ==> Progress(name, start + k + 1, buf', j, r, n + 1, added', ms'))
      && (r >= 0 && start + k == |name| ==> Writing(buf', j, r, Labels(name), |Labels(name)|, added', ms', 0))
  {
    hide Labels, Writing, FirstDot, Text, Proper, LabelIs, Progress;
    var rest := name[start..];
    r, buf', table', k, added', ms' := PutLabel(buf, bufLen, at, rest, table, j, Labels(name), n, known, added, ms);
    TextAt(name, start, k);
    if Proper(name) && Progress(name, start, buf, j, at, n, added, ms) {
      ProgressIs(name, start, buf, j, at, n, added, ms);
      LabelHere(name, rest, n);
      LabelLength(Labels(name), n, rest);
      if r >= 0 { ProgressMore(name, start, k, buf', j, r, n, added', ms'); }
    }
  }

  /** One label more has been written. */
  lemma ProgressMore(name: seq<byte>, start: nat, k: nat, b: seq<byte>, j: nat, r: nat, n: nat, added: seq<Entry>,
                     ms: seq<nat>)
    requires start + k <= |name| && k == FirstDot(name[start..]) && Proper(name)
    requires n < |Labels(name)| && Labels(name[start..]) == Labels(name)[n..]
    requires Writing(b, j, r, Labels(name), n + 1, added, ms, if start + k == |name| then 0 else |name| - start - k - 1)
    ensures start + k < |name| ==> Progress(name, start + k + 1, b, j, r, n + 1, added, ms)
    ensures start + k == |name| ==> Writing(b, j, r, Labels(name), |Labels(name)|, added, ms, 0)
  {
    hide Labels, Writing, FirstDot, Proper, LabelIs;
    LabelHere(name, name[start..], n);
    if start + k < |name| { assert name[start..][k + 1..] == name[start + k + 1..]; }
  }

  lemma LabelLength(all: seq<Label>, n: nat, rest: seq<byte>)
    requires LabelIs(all, n, rest)
    ensures 0 < FirstDot(rest) <= 63
  {}

  // ----- the last zero

  predicate LabelStart(name: seq<byte>, i: nat)
  {
    i == 0 || (i <= |name| && name[i - 1] == DOT)
  }

  /** No suffix of the name that starts with a label is in the table, and no label is too long. */
  ghost predicate Plain(name: seq<byte>, table: seq<Entry>)
  {
    forall i :: 0 <= i <= |name| && LabelStart(name, i) ==> NotInTable(table, name[i..]) && FirstDot(name[i..]) <= 63
  }

  /** dnsname_to_labels fills the buffer to the last byte with the labels of a name that does not end in a dot. */
  ghost predicate Overruns(bufLen: nat, j: nat, name: seq<byte>, table: seq<Entry>)
  {
    && |name| <= 255 && Plain(name, table)
    && name != [] && name[|name| - 1] != DOT && j + |name| + 1 == bufLen
  }

  /**
   So far, up to start, no suffix was in the table and no label too long; and the entries added are longer
   than what is left.
   */
  ghost predicate PlainTo(name: seq<byte>, start: nat, table: seq<Entry>, added: seq<Entry>)
  {
    && start <= |name| && LabelStart(name, start)
    && (forall i :: 0 <= i < start && LabelStart(name, i) ==> NotInTable(table, name[i..]) && FirstDot(name[i..]) <= 63)
    && (forall e :: e in added ==> |e.v| > |name| - start)
  }

  /** The first suffix of the name that is in the table, at i, is where the table says: at ref. */
  ghost predicate Refers(name: seq<byte>, table: seq<Entry>, i: nat, ref: nat)
  {
    && i <= |name| && LabelStart(name, i) && FirstPos(table, name[i..]) == ref
    && forall k :: 0 <= k < i && LabelStart(name, k) ==> NotInTable(table, name[k..])
  }

  /** If the name ends in a pointer, it leads where it should. */
  ghost predicate Near(name: seq<byte>, table: seq<Entry>)
  {
    forall i: nat, ref: nat :: Refers(name, table, i, ref) ==> ref < 0x4000
  }

  /** The name written from j to r ends in a pointer that does not lead where it should. */
  ghost predicate Strays(b: seq<byte>, j: nat, r: nat, name: seq<byte>, table: seq<Entry>)
  {
    exists i: nat, ref: nat ::
      Refers(name, table, i, ref) && 0x4000 <= ref && r == j + i + 2 && LeadsTo(b, r, ref % 0x4000)
  }

  ghost predicate LeadsTo(b: seq<byte>, r: nat, ref: nat)
  {
    && 2 <= r <= |b| && b[r - 2] >= 64 && Target(b[r - 2], b[r - 1]) == ref
    && ref < 0x4000 && b[r - 2] == 0xC0 + ref / 256 && b[r - 1] == ref % 256
  }

  lemma RefersOnce(name: seq<byte>, table: seq<Entry>, i: nat, ref: nat, i': nat, ref': nat)
    requires Refers(name, table, i, ref) && Refers(name, table, i', ref')
    ensures i == i' && ref == ref'
  {
    if i < i' { FirstNone(table, name[i..]); }
    if i' < i { FirstNone(table, name[i'..]); }
  }

  /** What is found in the table is what the name refers to. */
  lemma RefersTo(name: seq<byte>, start: nat, table: seq<Entry>, added: seq<Entry>, ref: nat, b: seq<byte>, j: nat,
                 r: nat)
    requires PlainTo(name, start, table, added) && FirstPos(table + added, name[start..]) == ref
    requires r == j + start + 2 && LeadsTo(b, r, ref % 0x4000)
    ensures Near(name, table) <==> ref < 0x4000
    ensures !Near(name, table) ==> Strays(b, j, r, name, table)
  {
    hide LabelStart, FirstPos, LeadsTo;
    forall i | 0 <= i < |added| ensures added[i].v != name[start..] { assert added[i] in added; }
    FirstBefore(table, added, name[start..]);
    assert Refers(name, table, start, ref);
    forall i: nat, ref': nat | Refers(name, table, i, ref') ensures ref' == ref {
      RefersOnce(name, table, start, ref, i, ref');
    }
  }

  /** A name that is written to its end refers to nothing. */
  lemma RefersNot(name: seq<byte>, start: nat, table: seq<Entry>, added: seq<Entry>, k: nat)
    requires PlainTo(name, start, table, added) && k == LabelLen(name, start) && start + k == |name|
    requires NotInTable(table + added, name[start..])
    ensures Near(name, table)
  {
    hide NotInTable, FirstPos;
    OnlyKnown(name, start, table, added);
    var rest := name[start..];
    forall i: nat | start < i <= |name| ensures !LabelStart(name, i) {
      assert name[i - 1] == rest[i - 1 - start];
    }
    forall i: nat, ref: nat | Refers(name, table, i, ref) ensures false {
      FirstNone(table, name[i..]);
    }
  }

  lemma PlainStarts(name: seq<byte>, table: seq<Entry>)
    ensures PlainTo(name, 0, table, [])
  {}

  /** Only an entry that was there before can be what is left. */
  lemma OnlyKnown(name: seq<byte>, start: nat, table: seq<Entry>, added: seq<Entry>)
    requires PlainTo(name, start, table, added)
    ensures NotInTable(table + added, name[start..]) <==> NotInTable(table, name[start..])
  {
    var all := table + added;
    if NotInTable(table, name[start..]) {
      forall i | 0 <= i < |all| ensures all[i].v != name[start..] {
        if i >= |table| { assert all[i] == added[i - |table|] && all[i] in added; }
      }
    }
    if NotInTable(all, name[start..]) {
      forall i | 0 <= i < |table| ensures table[i].v != name[start..] {
        assert all[i] == table[i];
      }
    }
  }

  lemma PlainNext(name: seq<byte>, start: nat, table: seq<Entry>, added: seq<Entry>, added': seq<Entry>, k: nat,
                  at: nat)
    requires PlainTo(name, start, table, added) && k == LabelLen(name, start) <= 63 && start + k < |name|
    requires NotInTable(table + added, name[start..])
    requires (added' == added || added' == added + [Entry(name[start..], at)])
    ensures PlainTo(name, start + k + 1, table, added')
  {
    hide NotInTable;
    OnlyKnown(name, start, table, added);
    var rest := name[start..];
    assert name[start + k] == rest[k];
    forall i: nat | start < i < start + k + 1 ensures !LabelStart(name, i) {
      assert name[i - 1] == rest[i - 1 - start];
    }
  }

  /** The last label: the name is plain, and ends in a dot, or is empty, exactly if that label is empty. */
  lemma PlainEnds(name: seq<byte>, start: nat, table: seq<Entry>, added: seq<Entry>, k: nat)
    requires PlainTo(name, start, table, added) && k == LabelLen(name, start) <= 63 && start + k == |name|
    requires NotInTable(table + added, name[start..])
    ensures |name| <= 255 ==>
      forall bufLen: nat, j: nat :: Overruns(bufLen, j, name, table) <==> k > 0 && j + |name| + 1 == bufLen
  {
    hide NotInTable;
    OnlyKnown(name, start, table, added);
    var rest := name[start..];
    forall i: nat | start < i <= |name| ensures !LabelStart(name, i) {
      assert name[i - 1] == rest[i - 1 - start];
    }
    if k > 0 { assert name[|name| - 1] == rest[k - 1]; }
  }

  lemma NotPlain(name: seq<byte>, start: nat, table: seq<Entry>, added: seq<Entry>)
    requires PlainTo(name, start, table, added) && start <= |name|
    requires LabelLen(name, start) > 63 || !NotInTable(table, name[start..])
    ensures forall bufLen: nat, j: nat :: !Overruns(bufLen, j, name, table)
  {
    hide NotInTable, FirstDot;
  }

  lemma TooLong(name: seq<byte>, start: nat, table: seq<Entry>, added: seq<Entry>)
    requires PlainTo(name, start, table, added) && start <= |name| && LabelLen(name, start) > 63
    ensures forall bufLen: nat, j: nat :: !Overruns(bufLen, j, name, table)
  {
    hide LabelLen, PlainTo, Overruns;
    NotPlain(name, start, table, added);
  }

  lemma Found(name: seq<byte>, start: nat, table: seq<Entry>, added: seq<Entry>, pos: nat)
    requires PlainTo(name, start, table, added) && start <= |name| && InTable(table + added, Entry(name[start..], pos))
    ensures forall bufLen: nat, j: nat :: !Overruns(bufLen, j, name, table)
  {
    hide LabelLen, PlainTo, Overruns;
    OnlyKnown(name, start, table, added);
    NotPlain(name, start, table, added);
  }

  lemma OverrunsIs(bufLen: nat, j: nat, name: seq<byte>, table: seq<Entry>)
    ensures Overruns(bufLen, j, name, table) ==> |name| <= 255 && j + |name| + 1 == bufLen
  {}

  // ----- when a name is taken, and what is remembered of it

  /** The label at s is written: neither its suffix nor one before is in the table. */
  ghost predicate Reached(name: seq<byte>, table: seq<Entry>, s: nat)
  {
    && s <= |name| && LabelStart(name, s)
    && forall k :: 0 <= k <= s && LabelStart(name, k) ==> NotInTable(table, name[k..])
  }

  ghost predicate RefersNowhere(name: seq<byte>, table: seq<Entry>)
  {
    forall i: nat, ref: nat :: !Refers(name, table, i, ref)
  }

  /** The labels that are written are short enough, and there is room for them and the pointer, or for all. */
  ghost predicate Accepts(bufLen: nat, j: nat, name: seq<byte>, table: seq<Entry>)
  {
    && |name| <= 255 && (forall s: nat :: Reached(name, table, s) ==> FirstDot(name[s..]) <= 63)
    && (forall i: nat, ref: nat :: Refers(name, table, i, ref) ==> j + i + 2 <= bufLen)
    && (RefersNowhere(name, table) ==> j + |name| + 1 <= bufLen)
  }

  /** Every label start before start has been entered with its place, unless the table is full. */
  ghost predicate Remembered(name: seq<byte>, start: nat, j: nat, table: seq<Entry>)
    requires start <= |name| + 1
  {
    forall s :: 0 <= s < start && LabelStart(name, s) ==> InTable(table, Entry(name[s..], j + s)) || |table| >= 128
  }

  /** Nothing else has been entered. */
  ghost predicate OnlyStarts(name: seq<byte>, start: nat, j: nat, added: seq<Entry>)
    requires start <= |name| + 1
  {
    forall k :: 0 <= k < |added| ==> StartEntry(name, start, j, added[k])
  }

  ghost predicate StartEntry(name: seq<byte>, start: nat, j: nat, e: Entry)
    requires start <= |name| + 1
  {
    exists s :: 0 <= s < start && LabelStart(name, s) && e == Entry(name[s..], j + s)
  }

  lemma RememberedNext(name: seq<byte>, start: nat, j: nat, k: nat, table: seq<Entry>, table': seq<Entry>)
    requires start <= |name| && LabelStart(name, start) && k == LabelLen(name, start) && start + k <= |name|
    requires Remembered(name, start, j, table)
    requires table' == if |table| == 128 then table else table + [Entry(name[start..], j + start)]
    ensures Remembered(name, start + k + 1, j, table')
  {
    hide InTable, FirstDot;
    InMore(table, Entry(name[start..], j + start));
    forall s | 0 <= s < start + k + 1 && LabelStart(name, s)
      ensures InTable(table', Entry(name[s..], j + s)) || |table'| >= 128 {
      if s > start { NoStart(name, start, k, s); }
    }
  }

  lemma InMore(table: seq<Entry>, e: Entry)
    ensures InTable(table + [e], e) && forall x :: InTable(table, x) ==> InTable(table + [e], x)
  {
    assert (table + [e])[|table|] == e;
    forall x | InTable(table, x) ensures InTable(table + [e], x) {
      var i :| 0 <= i < |table| && table[i] == x;
      assert (table + [e])[i] == x;
    }
  }

  /** Within a label none starts. */
  lemma NoStart(name: seq<byte>, start: nat, k: nat, i: nat)
    requires start <= |name| && k == LabelLen(name, start) && start < i < start + k + 1 && i <= |name|
    ensures !LabelStart(name, i)
  {
    var rest := name[start..];
    assert name[i - 1] == rest[i - 1 - start];
  }

  lemma OnlyNext(name: seq<byte>, start: nat, j: nat, k: nat, added: seq<Entry>, added': seq<Entry>)
    requires start + k <= |name| && LabelStart(name, start) && OnlyStarts(name, start, j, added)
    requires added' == added || added' == added + [Entry(name[start..], j + start)]
    ensures OnlyStarts(name, start + k + 1, j, added')
  {
    forall i | 0 <= i < |added'| ensures StartEntry(name, start + k + 1, j, added'[i]) {
      if i < |added| {
        assert StartEntry(name, start, j, added[i]);
      } else {
        assert LabelStart(name, start) && added'[i] == Entry(name[start..], j + start);
      }
    }
  }

  /** What is left has been found in the table. */
  lemma AcceptedHere(name: seq<byte>, start: nat, table: seq<Entry>, added: seq<Entry>, ref: nat, bufLen: nat, j: nat)
    requires PlainTo(name, start, table, added) && FirstPos(table + added, name[start..]) == ref && |name| <= 255
    ensures Refers(name, table, start, ref) && (Accepts(bufLen, j, name, table) <==> j + start + 2 <= bufLen)
    ensures forall s: nat :: Reached(name, table, s) ==> s < start
  {
    hide LabelStart, FirstPos, FirstDot;
    forall i | 0 <= i < |added| ensures added[i].v != name[start..] { assert added[i] in added; }
    FirstBefore(table, added, name[start..]);
    assert Refers(name, table, start, ref);
    forall i: nat, ref': nat | Refers(name, table, i, ref') ensures i == start {
      RefersOnce(name, table, start, ref, i, ref');
    }
    if NotInTable(table, name[start..]) { FirstNone(table, name[start..]); }
  }

  /** The label at start is the next to be written: if it is too long, or has no room, the name is not taken. */
  lemma AcceptedNot(name: seq<byte>, start: nat, table: seq<Entry>, added: seq<Entry>, k: nat, bufLen: nat, j: nat)
    requires PlainTo(name, start, table, added) && k == LabelLen(name, start) && start + k <= |name|
    requires NotInTable(table + added, name[start..]) && (k > 63 || j + start + k + 1 > bufLen)
    ensures !Accepts(bufLen, j, name, table)
  {
    hide LabelStart, FirstPos, FirstDot, NotInTable;
    OnlyKnown(name, start, table, added);
    assert Reached(name, table, start);
    if k <= 63 {
      forall i: nat, ref: nat | Refers(name, table, i, ref) ensures i > start + k {
        if i <= start { FirstNone(table, name[i..]); } else if i <= start + k { NoStart(name, start, k, i); }
      }
    }
  }

  /** The last label has been written. */
  lemma AcceptedAll(name: seq<byte>, start: nat, table: seq<Entry>, added: seq<Entry>, k: nat, bufLen: nat, j: nat)
    requires PlainTo(name, start, table, added) && k == LabelLen(name, start) <= 63 && start + k == |name|
    requires NotInTable(table + added, name[start..]) && |name| <= 255
    ensures RefersNowhere(name, table)
    ensures Accepts(bufLen, j, name, table) <==> j + |name| + 1 <= bufLen
    ensures k == 0 <==> name == [] || name[|name| - 1] == DOT
    ensures forall s: nat :: Reached(name, table, s) ==> s <= |name|
  {
    hide FirstPos, NotInTable;
    OnlyKnown(name, start, table, added);
    var rest := name[start..];
    forall i: nat | start < i <= |name| ensures !LabelStart(name, i) { NoStart(name, start, k, i); }
    forall i: nat, ref: nat ensures !Refers(name, table, i, ref) {
      if Refers(name, table, i, ref) { FirstNone(table, name[i..]); }
    }
    if k > 0 { assert name[|name| - 1] == rest[k - 1]; }
  }

  predicate EndsInDot(name: seq<byte>)
  {
    name == [] || name[|name| - 1] == DOT
  }

  /** The name written from j to r ends in a pointer to the first suffix of it that is in the table. */
  ghost predicate PointsTo(b: seq<byte>, j: nat, r: nat, name: seq<byte>, table: seq<Entry>)
  {
    && !RefersNowhere(name, table)
    && forall i: nat, ref: nat :: Refers(name, table, i, ref) ==> r == j + i + 2 && LeadsTo(b, r, ref % 0x4000)
  }

  /** All the old entries, and one for each label that was written unless the table is full */
  ghost predicate AllRemembered(name: seq<byte>, j: nat, table: seq<Entry>, table': seq<Entry>)
  {
    && table <= table'
    && forall s: nat :: Reached(name, table, s) ==> InTable(table', Entry(name[s..], j + s)) || |table'| >= 128
  }

  lemma PointsHere(b: seq<byte>, j: nat, r: nat, name: seq<byte>, table: seq<Entry>, i: nat, ref: nat)
    requires Refers(name, table, i, ref) && r == j + i + 2 && LeadsTo(b, r, ref % 0x4000)
    ensures PointsTo(b, j, r, name, table)
  {
    hide Refers, LeadsTo;
    forall i': nat, ref': nat | Refers(name, table, i', ref') ensures i' == i && ref' == ref {
      RefersOnce(name, table, i, ref, i', ref');
    }
  }

  lemma AllBefore(name: seq<byte>, start: nat, j: nat, table: seq<Entry>, table': seq<Entry>)
    requires start <= |name| + 1 && table <= table' && forall s: nat :: Reached(name, table, s) ==> s < start
    ensures Remembered(name, start, j, table') ==> AllRemembered(name, j, table, table')
  {
    hide InTable, NotInTable;
  }

  lemma RememberedNone(name: seq<byte>, j: nat, table: seq<Entry>)
    ensures Remembered(name, 0, j, table) && OnlyStarts(name, 0, j, [])
  {}

  lemma OnlyMore(name: seq<byte>, start: nat, j: nat, added: seq<Entry>)
    requires start <= |name| + 1 && OnlyStarts(name, start, j, added)
    ensures OnlyStarts(name, |name| + 1, j, added)
  {
    forall k | 0 <= k < |added| ensures StartEntry(name, |name| + 1, j, added[k]) {
      assert StartEntry(name, start, j, added[k]);
    }
  }

  lemma StartIs(name: seq<byte>, start: nat, table: seq<Entry>, added: seq<Entry>)
    requires PlainTo(name, start, table, added)
    ensures LabelStart(name, start)
  {}

  /** What is left is in the table: a pointer has been written, or there was no room for it. */
  lemma WithPointer(name: seq<byte>, start: nat, known: seq<Entry>, added: seq<Entry>, ref: nat, bufLen: nat, j: nat,
                    b: seq<byte>, r: int)
    requires PlainTo(name, start, known, added) && FirstPos(known + added, name[start..]) == ref && |name| <= 255
    requires InTable(known + added, Entry(name[start..], ref)) && OnlyStarts(name, start, j, added)
    requires r >= 0 ==> r == j + start + 2 && LeadsTo(b, r, ref % 0x4000)
    requires (r >= 0 <==> j + start + 2 <= bufLen) && start <= |name|
    ensures !Overruns(bufLen, j, name, known) && (r >= 0 <==> Accepts(bufLen, j, name, known))
    ensures OnlyStarts(name, |name| + 1, j, added)
    ensures r >= 0 ==>
      && (Near(name, known) <==> ref < 0x4000) && (!Near(name, known) ==> Strays(b, j, r, name, known))
      && PointsTo(b, j, r, name, known)
    ensures Remembered(name, start, j, known + added) ==> AllRemembered(name, j, known, known + added)
  {
    hide PlainTo, FirstPos, InTable, OnlyStarts, LeadsTo, Overruns, Accepts, Near, Strays, PointsTo, Remembered,
      AllRemembered, Refers, Reached;
    Found(name, start, known, added, ref);
    AcceptedHere(name, start, known, added, ref, bufLen, j);
    AllBefore(name, start, j, known, known + added);
    OnlyMore(name, start, j, added);
    if r >= 0 {
      RefersTo(name, start, known, added, ref, b, j, r);
      PointsHere(b, j, r, name, known, start, ref);
    }
  }

  /** The next label is too long, or there is no room for it. */
  lemma WithFailure(name: seq<byte>, start: nat, known: seq<Entry>, added: seq<Entry>, k: nat, bufLen: nat, j: nat)
    requires PlainTo(name, start, known, added) && k == LabelLen(name, start) && start + k <= |name|
    requires NotInTable(known + added, name[start..]) && (k > 63 || j + start + k + 1 > bufLen)
    requires OnlyStarts(name, start, j, added)
    ensures !Accepts(bufLen, j, name, known) && OnlyStarts(name, |name| + 1, j, added)
    ensures !Overruns(bufLen, j, name, known)
  {
    hide PlainTo, OnlyStarts, Overruns, Accepts, NotInTable, LabelLen;
    if k > 63 { TooLong(name, start, known, added); } else { OverrunsIs(bufLen, j, name, known); }
    AcceptedNot(name, start, known, added, k, bufLen, j);
    OnlyMore(name, start, j, added);
  }

  /** The last label has been written, and entered in the table. */
  lemma WithEnd(name: seq<byte>, start: nat, known: seq<Entry>, added0: seq<Entry>, added: seq<Entry>, k: nat,
                bufLen: nat, j: nat)
    requires PlainTo(name, start, known, added0) && k == LabelLen(name, start) <= 63 && start + k == |name| <= 255
    requires NotInTable(known + added0, name[start..]) && j + |name| + 1 <= bufLen
    ensures Overruns(bufLen, j, name, known) <==> k > 0 && j + |name| + 1 == bufLen
    ensures Near(name, known) && RefersNowhere(name, known) && Accepts(bufLen, j, name, known)
    ensures k == 0 <==> EndsInDot(name)
    ensures Remembered(name, |name| + 1, j, known + added) ==> AllRemembered(name, j, known, known + added)
  {
    hide PlainTo, OnlyStarts, Overruns, Accepts, NotInTable, LabelLen, Near, RefersNowhere, Remembered, AllRemembered,
      Reached;
    PlainEnds(name, start, known, added0, k);
    RefersNot(name, start, known, added0, k);
    AcceptedAll(name, start, known, added0, k, bufLen, j);
    AllBefore(name, |name| + 1, j, known, known + added);
  }

  lemma NoneKnown(table: seq<Entry>, added: seq<Entry>, v: seq<byte>)
    ensures table == [] && added == [] ==> NotInTable(table + added, v)
  {}

  /** The loop of dnsname_to_labels: it ends after the last label, or returns with a pointer or a failure. */
  method PutLabels(buf: seq<byte>, bufLen: nat, j: nat, name: seq<byte>, table: Option<seq<Entry>>)
    returns (ended: bool, r: int, buf': seq<byte>, table': Option<seq<Entry>>, ghost added: seq<Entry>,
             ghost ms: seq<nat>)
    requires j <= bufLen < |buf| && Text(name) && |name| <= 255
    ensures |buf'| == |buf| && buf'[..j] == buf[..j] && r <= bufLen && (r >= 0 ==> j < r <= j + |name| + 2)
    ensures if table.Some? then table' == Some(table.value + added) else table' == None && added == []
    ensures ended ==> r == j + |name| + 1
    ensures ended && Proper(name) ==>
      buf'[r - 1] != 0 && Writing(buf', j, r, Labels(name), |Labels(name)|, added, ms, 0)
    ensures var t := if table.Some? then table.value else [];
      && (ended ==> Near(name, t))
      && (!ended && r >= 0 && !Near(name, t) ==> Strays(buf', j, r, name, t))
      && (!ended && Proper(name) && r >= 0 && Near(name, t) && TableOk(buf, j, t) ==>
          Named(buf', r, j, Labels(name), if table'.Some? then table'.value else []))
    ensures Proper(name) && j + |name| + 1 < bufLen ==> r >= 0
    ensures Overruns(bufLen, j, name, if table.Some? then table.value else []) <==>
      ended && buf'[r - 1] != 0 && r == bufLen
    ensures var t := if table.Some? then table.value else [];
      && (r >= 0 <==> Accepts(bufLen, j, name, t))
      && (ended ==> RefersNowhere(name, t) && (buf'[r - 1] == 0 <==> EndsInDot(name)))
      && (!ended && r >= 0 ==> PointsTo(buf', j, r, name, t))
      && (r >= 0 && table'.Some? ==> AllRemembered(name, j, t, table'.value))
    ensures OnlyStarts(name, |name| + 1, j, added) && |added| <= |name| + 1
    ensures table.Some? && |table.value| <= 128 ==> |table.value + added| <= 128
  {
    hide Means, End, Chain, TableOk, Labels, Writing, Proper, PointerTo, Target, FirstDot, Progress, Named, Text,
      InTable, NotInTable, Plain, PlainTo, Overruns, LabelLen, Near, Strays, FirstPos, Accepts, Remembered, Reached,
      Refers, RefersNowhere, OnlyStarts, LabelStart, PointsTo, AllRemembered;
    ended, r, buf', table' := false, -2, buf, table;
    var at, start: nat := j, 0;
    ghost var known := if table.Some? then table.value else [];
    ghost var n: nat := 0;
    added, ms := [], [];
    ProgressStarts(name, buf, j);
    PlainStarts(name, known);
    assert known + [] == known;
    NoEntries(buf, j);
    OverrunsIs(bufLen, j, name, known);
    RememberedNone(name, j, known);
    while true
      invariant PlainTo(name, start, known, added)
      invariant start <= |name| && at == j + start <= bufLen && |buf'| == |buf| && buf'[..j] == buf[..j]
      invariant Proper(name) ==> Progress(name, start, buf', j, at, n, added, ms)
      invariant if table.Some? then table' == Some(known + added) else table' == None && added == []
      invariant Remembered(name, start, j, known + added) || table.None?
      invariant OnlyStarts(name, start, j, added) && (|known| <= 128 ==> |known + added| <= 128) && |added| <= start
      decreases |name| - start
    {
      NoneKnown(known, added, name[start..]);
      if table'.Some? {
        var ref := GetPos(table'.value, name[start..]);
        if ref >= 0 {
          r, buf' := PutReference(buf, buf', bufLen, at, ref, j, name, start, n, known, added, ms);
          WithPointer(name, start, known, added, ref, bufLen, j, buf', r);
          return;
        }
      }
      var k;
      ghost var b0, added0, at0 := buf', added, at;
      r, buf', table', k, added, ms := PutNext(buf', bufLen, at, name, start, table', j, n, known, added, ms);
      SameStart(b0, buf', at, j);
      if r < 0 {
        WithFailure(name, start, known, added0, k, bufLen, j);
        return;
      }
      StartIs(name, start, known, added0);
      if table.Some? { RememberedNext(name, start, j, k, known + added0, known + added); }
      OnlyNext(name, start, j, k, added0, added);
      at := r;
      n := n + 1;
      if start + k == |name| {
        WithEnd(name, start, known, added0, added, k, bufLen, j);
        ended := true;
        return;
      }
      PlainNext(name, start, known, added0, added, k, at0);
      start := start + k + 1;
    }
  }

  /**
   dnsname_to_labels.  The last zero is written without a check, and goes one byte beyond buf_len
   exactly if the labels fill the buffer up to there; so buf has room for that byte.  A pointer is written
   without a check, too, and leads astray exactly if the suffix is further along than a pointer can say.
   */
  method DnsnameToLabels(buf: seq<byte>, bufLen: nat, j: nat, name: seq<byte>, table: Option<seq<Entry>>)
    returns (r: int, buf': seq<byte>, table': Option<seq<Entry>>)
    requires j <= bufLen < |buf| && Text(name)
    ensures |buf'| == |buf| && buf'[..j] == buf[..j] && table'.Some? == table.Some?
    ensures r >= 0 ==> j < r <= bufLen + 1 && r <= j + |name| + 2
    ensures |name| > 255 ==> r == -2
    ensures var t := if table.Some? then table.value else [];
      && (Proper(name) && r >= 0 && Near(name, t) && TableOk(buf, j, t) ==>
          Named(buf', r, j, Labels(name), if table'.Some? then table'.value else []))
      && (r >= 0 && !Near(name, t) ==> Strays(buf', j, r, name, t))
    ensures Proper(name) && j + |name| + 1 < bufLen ==> r >= 0
    ensures r == bufLen + 1 <==> Overruns(bufLen, j, name, if table.Some? then table.value else [])
    ensures var t := if table.Some? then table.value else [];
      && (r >= 0 <==> Accepts(bufLen, j, name, t))
      && (r >= 0 && RefersNowhere(name, t) ==> r == j + |name| + if EndsInDot(name) then 1 else 2)
      && (r >= 0 && !RefersNowhere(name, t) ==> PointsTo(buf', j, r, name, t))
      && (r >= 0 && table'.Some? ==> AllRemembered(name, j, t, table'.value))
    ensures table.Some? ==>
      && table.value <= table'.value && (|table.value| <= 128 ==> |table'.value| <= 128)
      && OnlyStarts(name, |name| + 1, j, table'.value[|table.value|..])
      && |table'.value| <= |table.value| + |name| + 1
  {
    hide TableOk, Labels, Writing, Proper, Named, Text, Overruns, Near, Strays, Accepts, RefersNowhere, PointsTo,
      AllRemembered, OnlyStarts, EndsInDot;
    r, buf', table' := -2, buf, table;
    ProperLength(name);
    OverrunsIs(bufLen, j, name, if table.Some? then table.value else []);
    if |name| > 255 {
      NotAccepted(bufLen, j, name, if table.Some? then table.value else []);
      Behind(if table.Some? then table.value else [], []);
      return;
    }
    NoEntries(buf, j);
    var ended; ghost var added, ms;
    ended, r, buf', table', added, ms := PutLabels(buf, bufLen, j, name, table);
    Behind(if table.Some? then table.value else [], added);
    if !ended && r >= 0 { PointsSomewhere(buf', j, r, name, if table.Some? then table.value else []); }
    if ended {
      assert table.None? ==> [] + added == [];
      r, buf' := PutEnd(buf, buf', j, r, Labels(name), if table.Some? then table.value else [], added, ms);
    }
  }

  lemma NotAccepted(bufLen: nat, j: nat, name: seq<byte>, table: seq<Entry>)
    ensures Accepts(bufLen, j, name, table) ==> |name| <= 255
    ensures OnlyStarts(name, |name| + 1, j, [])
  {}

  lemma PointsSomewhere(b: seq<byte>, j: nat, r: nat, name: seq<byte>, table: seq<Entry>)
    requires PointsTo(b, j, r, name, table)
    ensures !RefersNowhere(name, table)
  {}

  lemma Behind(a: seq<Entry>, b: seq<Entry>)
    ensures a <= a + b && (a + b)[|a|..] == b && a[|a|..] == []
  {}

  /**
   A name that fills the buffer: with buf_len 2, the labels of "a" take bytes 0 and 1, and the zero goes to
   byte 2.
   */
  method ZeroBehind(buf: seq<byte>) returns (r: int, buf': seq<byte>)
    requires |buf| == 3
    ensures r == 3 && buf' == [1, 97, 0]
  {
    hide Means, End, Labels, Plain;
    var table';
    r, buf', table' := DnsnameToLabels(buf, 2, 0, [97], None);
    OneLabel();
    NamedOne(buf', r);
  }

  lemma OneLabel()
    ensures Overruns(2, 0, [97], []) && Proper([97]) && Labels([97]) == [[97]]
  {
    var name: seq<byte> := [97];
    assert FirstDot(name[1..]) == 0 && FirstDot(name) == 1;
    assert name[0..] == name;
  }

  lemma NamedOne(b: seq<byte>, r: nat)
    requires |b| == 3 && r == 3 && Named(b, r, 0, [[97]], [])
    ensures b == [1, 97, 0]
  {}

  lemma ProgressIs(name: seq<byte>, start: nat, b: seq<byte>, j: nat, at: nat, n: nat, added: seq<Entry>, ms: seq<nat>)
    requires Progress(name, start, b, j, at, n, added, ms)
    ensures start <= |name| && n < |Labels(name)| && Labels(name[start..]) == Labels(name)[n..]
    ensures Writing(b, j, at, Labels(name), n, added, ms, |name| - start)
  {
    hide Labels, Writing;
  }

  /** The rest of the name is in the table: a pointer to it. */
  method PutReference(ghost buf: seq<byte>, b: seq<byte>, bufLen: nat, at: nat, ref: nat, ghost j: nat,
                      ghost name: seq<byte>,
                      ghost start: nat, ghost n: nat, ghost known: seq<Entry>, ghost added: seq<Entry>,
                      ghost ms: seq<nat>)
    returns (r: int, b': seq<byte>)
    requires j <= at <= bufLen < |b| == |buf| && b[..j] == buf[..j] && start <= |name|
    requires Proper(name) ==> Progress(name, start, b, j, at, n, added, ms)
    requires InTable(known + added, Entry(name[start..], ref))
    ensures r == (if at + 2 > bufLen then -2 else at + 2) && |b'| == |b| && b'[..j] == buf[..j]
    ensures Proper(name) && r >= 0 && ref < 0x4000 && TableOk(buf, j, known) ==>
      Named(b', r, j, Labels(name), known + added)
    ensures r >= 0 ==> b'[r - 2] >= 64 && Target(b'[r - 2], b'[r - 1]) == ref % 0x4000
    ensures r >= 0 ==> b'[r - 2] == 0xC0 + ref % 0x4000 / 256 && b'[r - 1] == ref % 0x4000 % 256
  {
    hide Labels, Proper, Progress, Named, InTable, PointerTo, TableOk, Target;
    r, b' := -2, b;
    if at + 2 > bufLen {
      return;
    }
    b' := WritePointer(b, at, ref);
    SameStart(b, b', at, j);
    PointerIs(ref);
    PointerHigh(ref);
    if Proper(name) && ref < 0x4000 && TableOk(buf, j, known) {
      ProgressIs(name, start, b, j, at, n, added, ms);
      PointsBack(buf, b, b', j, at, Labels(name), n, known, added, ms, name[start..], ref);
    }
    r := at + 2;
  }

  /** The last zero, unless the name ended in a dot. */
  method PutEnd(ghost buf: seq<byte>, b: seq<byte>, ghost j: nat, at: nat, ghost all: seq<Label>,
                ghost known: seq<Entry>, ghost added: seq<Entry>, ghost ms: seq<nat>)
    returns (r: nat, b': seq<byte>)
    requires j < at < |b| == |buf| && b[..j] == buf[..j]
    ensures r == (if b[at - 1] != 0 then at + 1 else at) && |b'| == |b| && b'[..j] == buf[..j]
    ensures TableOk(buf, j, known) && b[at - 1] != 0 && Writing(b, j, at, all, |all|, added, ms, 0) ==>
      Named(b', r, j, all, known + added)
  {
    hide Writing, TableOk, Named;
    r, b' := at, b;
    if b[at - 1] != 0 {
      b' := b[at := 0];
      r := at + 1;
      SameStart(b, b', at, j);
      if TableOk(buf, j, known) && Writing(b, j, at, all, |all|, added, ms, 0) {
        EndsHere(buf, b, b', j, at, all, known, added, ms);
      }
    }
  }

  lemma SameStart(b: seq<byte>, b': seq<byte>, at: nat, j: nat)
    requires j <= at <= |b| && at <= |b'| && b'[..at] == b[..at]
    ensures b'[..j] == b[..j]
  {
    assert b'[..j] == b'[..at][..j] == b[..at][..j];
  }

  lemma ProperLength(name: seq<byte>)
    ensures Proper(name) ==> |name| <= 255
  {}

  lemma LastByte(b: seq<byte>, at: nat, l: Label)
    requires at + 1 + |l| <= |b| && b[at + 1..at + 1 + |l|] == l
    ensures |l| > 0 ==> b[at + |l|] == l[|l| - 1]
  {
    assert |l| > 0 ==> b[at + 1..at + 1 + |l|][|l| - 1] == b[at + |l|];
  }

  lemma NoEntries(b: seq<byte>, hi: nat)
    requires hi <= |b|
    ensures TableOk(b, hi, [])
  {}

  lemma LabelHere(name: seq<byte>, rest: seq<byte>, n: nat)
    requires Proper(name) && n < |Labels(name)| && Labels(rest) == Labels(name)[n..]
    ensures var all, k := Labels(name), FirstDot(rest);
      && LabelIs(all, n, rest) && all[n] == rest[..k] && 0 < k <= 63
      && (if k < |rest| then n + 1 < |all| && Labels(rest[k + 1..]) == all[n + 1..] else n + 1 == |all|)
  {
    hide Labels, FirstDot;
    var all, k := Labels(name), FirstDot(rest);
    FirstLabel(rest);
    assert all[n] == all[n..][0] && all[n..][1..] == all[n + 1..];
  }

  lemma WritingStill(b: seq<byte>, b': seq<byte>, j: nat, at: nat, all: seq<Label>, n: nat, added: seq<Entry>,
                     ms: seq<nat>, left: nat)
    requires Writing(b, j, at, all, n, added, ms, left) && |b'| == |b| && b'[..at] == b[..at]
    ensures Writing(b', j, at, all, n, added, ms, left)
  {
    SamePrefix(b, b', at);
    ChainStill(b, b', j, at, all[..n]);
    forall i | 0 <= i < |added| ensures AddedOk(b', at, all, n, added[i], ms[i], left) {
      assert AddedOk(b, at, all, n, added[i], ms[i], left);
      ChainStill(b, b', added[i].pos, at, all[ms[i]..n]);
    }
  }

  /** The name ends with a zero byte. */
  lemma EndsHere(buf: seq<byte>, b: seq<byte>, b': seq<byte>, j: nat, at: nat, all: seq<Label>, known: seq<Entry>,
                 added: seq<Entry>, ms: seq<nat>)
    requires j <= |buf| && j <= at < |b| && Writing(b, j, at, all, |all|, added, ms, 0) && b' == b[at := 0]
    requires b[..j] == buf[..j]
    requires TableOk(buf, j, known)
    ensures Named(b', at + 1, j, all, known + added)
  {
    hide Writing, TableOk, Chain;
    assert b'[..at] == b[..at] && b'[..j] == b[..j];
    WritingStill(b, b', j, at, all, |all|, added, ms, 0);
    assert all[|all|..] == [];
    WritingDone(b', j, at, at + 1, all, |all|, known, added, ms, 0, buf);
  }

  /** The name ends with a pointer to a suffix in the table. */
  lemma PointsBack(buf: seq<byte>, b: seq<byte>, b': seq<byte>, j: nat, at: nat, all: seq<Label>, n: nat,
                   known: seq<Entry>, added: seq<Entry>, ms: seq<nat>, rest: seq<byte>, ref: nat)
    requires j <= |buf| && j <= at && at + 2 <= |b| == |b'| && Writing(b, j, at, all, n, added, ms, |rest|)
    requires b[..j] == buf[..j]
    requires b'[..at] == b[..at] && b'[at] == PointerTo(ref).0 && b'[at + 1] == PointerTo(ref).1
    requires TableOk(buf, j, known) && Labels(rest) == all[n..]
    requires InTable(known + added, Entry(rest, ref)) && ref < 0x4000
    ensures Named(b', at + 2, j, all, known + added)
  {
    hide Chain, Labels, Target, PointerTo, Named;
    PointsBackTo(buf, b, b', j, at, all, n, known, added, ms, rest, ref);
    NamedIs(b', at + 2, j, all, known + added);
  }

  lemma NamedIs(b: seq<byte>, r: nat, j: nat, all: seq<Label>, entries: seq<Entry>)
    requires r <= |b| && Means(b, r, j, all) && End(b, r, j) == r && TableOk(b, r, entries)
    ensures Named(b, r, j, all, entries)
  {
    hide Means, End, TableOk;
  }

  lemma PointsBackTo(buf: seq<byte>, b: seq<byte>, b': seq<byte>, j: nat, at: nat, all: seq<Label>, n: nat,
                     known: seq<Entry>, added: seq<Entry>, ms: seq<nat>, rest: seq<byte>, ref: nat)
    requires j <= |buf| && j <= at && at + 2 <= |b| == |b'| && Writing(b, j, at, all, n, added, ms, |rest|)
    requires b[..j] == buf[..j]
    requires b'[..at] == b[..at] && b'[at] == PointerTo(ref).0 && b'[at + 1] == PointerTo(ref).1
    requires TableOk(buf, j, known) && Labels(rest) == all[n..] && InTable(known + added, Entry(rest, ref))
    requires ref < 0x4000
    ensures Means(b', at + 2, j, all) && End(b', at + 2, j) == at + 2
    ensures TableOk(b', at + 2, known + added)
  {
    hide Chain, Labels, Target, PointerTo;
    var i :| 0 <= i < |known + added| && (known + added)[i] == Entry(rest, ref);
    forall k | 0 <= k < |added| ensures added[k].v != rest {
      assert AddedOk(b, at, all, n, added[k], ms[k], |rest|);
    }
    assert i < |known|;
    assert b'[..j] == b'[..at][..j] == b[..at][..j] == b[..j];
    SamePrefix(buf, b', j);
    MeansStill(buf, b', j, at, ref, Labels(rest));
    PointerIs(ref);
    PointerHigh(ref);
    WritingStill(b, b', j, at, all, n, added, ms, |rest|);
    WritingDone(b', j, at, at + 2, all, n, known, added, ms, |rest|, buf);
  }

  /** The two high bits set, and 14 bits of the position, the high byte first */
  lemma PointerHigh(ref: nat)
    ensures PointerTo(ref).0 >= 64
    ensures PointerTo(ref).0 == 0xC0 + ref % 0x4000 / 256 && PointerTo(ref).1 == ref % 0x4000 % 256
  {
    hide Target;
    var q, lo := ref / 256, ref % 256;
    assert ref == 256 * q + lo;
    PointerParts(q, lo, ref);
    HighLow(q % 64, lo);
  }

  lemma HighLow(m: nat, lo: nat)
    requires lo < 256
    ensures (256 * m + lo) / 256 == m && (256 * m + lo) % 256 == lo
  {}

  // ----- several names in one message

  ghost predicate AllProper(names: seq<seq<byte>>)
  {
    forall k :: 0 <= k < |names| ==> Proper(names[k]) && Text(names[k])
  }

  /** The first n names are in the message up to at: each starts where the one before it ends. */
  ghost predicate Spelled(b: seq<byte>, at: nat, names: seq<seq<byte>>, starts: seq<nat>, n: nat)
    requires at <= |b|
  {
    && n <= |names| && |starts| == n + 1 && starts[n] == at
    && forall k :: 0 <= k < n ==> Means(b, at, starts[k], Labels(names[k])) && End(b, at, starts[k]) == starts[k + 1]
  }

  lemma SpelledNext(b: seq<byte>, b': seq<byte>, at: nat, at': nat, names: seq<seq<byte>>, starts: seq<nat>, n: nat)
    requires at <= at' <= |b'| && at <= |b| && Spelled(b, at, names, starts, n) && n < |names| && b'[..at] == b[..at]
    requires Means(b', at', at, Labels(names[n])) && End(b', at', at) == at'
    ensures Spelled(b', at', names, starts + [at'], n + 1)
  {
    hide Means, End, Labels;
    SamePrefix(b, b', at);
    var starts' := starts + [at'];
    forall k | 0 <= k < n + 1 ensures Means(b', at', starts'[k], Labels(names[k]))
      && End(b', at', starts'[k]) == starts'[k + 1] {
      if k < n { MeansStill(b, b', at, at', starts[k], Labels(names[k])); }
    }
  }

  /** Room for all the names, even if no pointer helps. */
  ghost function Room(names: seq<seq<byte>>): (n: nat)
  {
    if names == [] then 0 else Room(names[..|names| - 1]) + |names[|names| - 1]| + 2
  }

  lemma {:induction false} RoomNext(names: seq<seq<byte>>, n: nat)
    requires n < |names|
    ensures Room(names[..n]) + |names[n]| + 2 == Room(names[..n + 1]) <= Room(names)
    decreases |names| - n
  {
    assert names[..n + 1][..n] == names[..n];
    if n + 1 < |names| {
      RoomNext(names, n + 1);
    } else {
      assert names[..n + 1] == names;
    }
  }

  lemma SpelledStill(b: seq<byte>, b': seq<byte>, at: nat, names: seq<seq<byte>>, starts: seq<nat>, n: nat)
    requires at <= |b| && at <= |b'| && b'[..at] == b[..at] && Spelled(b, at, names, starts, n)
    ensures Spelled(b', at, names, starts, n)
  {
    hide Means, End, Labels;
    SamePrefix(b, b', at);
    forall k | 0 <= k < n
      ensures Means(b', at, starts[k], Labels(names[k])) && End(b', at, starts[k]) == starts[k + 1] {
      MeansStill(b, b', at, at, starts[k], Labels(names[k]));
    }
  }

  lemma TableStill(b: seq<byte>, b': seq<byte>, at: nat, table: seq<Entry>)
    requires at <= |b| && at <= |b'| && b'[..at] == b[..at] && TableOk(b, at, table)
    ensures TableOk(b', at, table)
  {
    hide Means, Labels;
    SamePrefix(b, b', at);
    forall i | 0 <= i < |table| ensures Means(b', at, table[i].pos, Labels(table[i].v)) {
      MeansStill(b, b', at, at, table[i].pos, Labels(table[i].v));
    }
  }

  lemma StraysStill(b: seq<byte>, b': seq<byte>, at: nat, j: nat, r: nat, name: seq<byte>, table: seq<Entry>)
    requires r <= at <= |b| && at <= |b'| && b'[..at] == b[..at] && Strays(b, j, r, name, table)
    ensures Strays(b', j, r, name, table)
  {
    hide Refers, Target;
    SamePrefix(b, b', at);
    var i: nat, ref: nat :|
      Refers(name, table, i, ref) && 0x4000 <= ref && r == j + i + 2 && LeadsTo(b, r, ref % 0x4000);
    assert LeadsTo(b', r, ref % 0x4000);
  }

  /** In the first 0x4000 bytes everything is near enough. */
  lemma AllNear(b: seq<byte>, at: nat, table: seq<Entry>, name: seq<byte>)
    requires at <= |b| && at <= 0x4000 && TableOk(b, at, table)
    ensures Near(name, table)
  {
    hide Means, Labels;
    forall i: nat, ref: nat | Refers(name, table, i, ref) ensures ref < 0x4000 {
      PosIn(table, name[i..]);
    }
  }

  lemma {:induction false} PosIn(table: seq<Entry>, v: seq<byte>)
    ensures FirstPos(table, v) >= 0 ==> exists i :: 0 <= i < |table| && table[i].pos == FirstPos(table, v)
  {
    if table != [] && table[0].v != v {
      PosIn(table[1..], v);
      if FirstPos(table, v) >= 0 {
        var i :| 0 <= i < |table[1..]| && table[1..][i].pos == FirstPos(table, v);
        assert table[i + 1].pos == FirstPos(table, v);
      }
    } else if table != [] {
      assert table[0].pos == FirstPos(table, v);
    }
  }

  /**
   The first good names are in the message, one after the other; and the next one, if there is one, ends in
   a pointer that leads astray, though the suffix is where the table says.
   */
  ghost predicate SpelledUpTo(b: seq<byte>, names: seq<seq<byte>>, starts: seq<nat>, n: nat, good: nat,
                              table: seq<Entry>)
  {
    && good <= n <= |names| && |starts| == n + 1 && starts[good] <= starts[n] <= |b|
    && Spelled(b, starts[good], names, starts[..good + 1], good) && TableOk(b, starts[good], table)
    && (good < n ==> starts[good + 1] <= starts[n] && Strays(b, starts[good], starts[good + 1], names[good], table))
  }

  /** Another name behind, when one has gone wrong before. */
  lemma BehindWrong(b: seq<byte>, b': seq<byte>, names: seq<seq<byte>>, starts: seq<nat>, n: nat, good: nat,
                    table: seq<Entry>, r: nat)
    requires SpelledUpTo(b, names, starts, n, good, table) && good < n < |names|
    requires |b'| == |b| && b'[..starts[n]] == b[..starts[n]] && starts[n] <= r <= |b'|
    ensures SpelledUpTo(b', names, starts + [r], n + 1, good, table)
  {
    hide Spelled, TableOk, Strays;
    SameStart(b, b', starts[n], starts[good]);
    var starts' := starts + [r];
    assert starts'[..good + 1] == starts[..good + 1];
    SpelledStill(b, b', starts[good], names, starts[..good + 1], good);
    TableStill(b, b', starts[good], table);
    StraysStill(b, b', starts[n], starts[good], starts[good + 1], names[good], table);
  }

  /** Another name, right or the first that goes wrong. */
  lemma BehindRight(b: seq<byte>, b': seq<byte>, names: seq<seq<byte>>, starts: seq<nat>, n: nat, table: seq<Entry>,
                    r: nat, table': seq<Entry>)
    requires SpelledUpTo(b, names, starts, n, n, table) && n < |names|
    requires |b'| == |b| && b'[..starts[n]] == b[..starts[n]] && starts[n] <= r <= |b'|
    requires if Near(names[n], table) then Named(b', r, starts[n], Labels(names[n]), table')
      else Strays(b', starts[n], r, names[n], table)
    ensures if Near(names[n], table) then SpelledUpTo(b', names, starts + [r], n + 1, n + 1, table')
      else SpelledUpTo(b', names, starts + [r], n + 1, n, table)
  {
    hide Spelled, TableOk, Strays, Near, Means, End, Labels;
    var starts' := starts + [r];
    assert starts[..n + 1] == starts && starts'[..n + 1] == starts && starts'[..n + 2] == starts';
    if Near(names[n], table) {
      SpelledNext(b, b', starts[n], r, names, starts, n);
    } else {
      SpelledStill(b, b', starts[n], names, starts, n);
      TableStill(b, b', starts[n], table);
    }
  }

  /** One name after another: where it ends, and what the table has then. */
  ghost predicate NextName(name: seq<byte>, table: seq<Entry>, j: nat, r: nat, table': seq<Entry>)
  {
    && (RefersNowhere(name, table) ==> r == j + |name| + if EndsInDot(name) then 1 else 2)
    && (forall i: nat, ref: nat :: Refers(name, table, i, ref) ==> r == j + i + 2)
    && AllRemembered(name, j, table, table') && OnlyStarts(name, |name| + 1, j, table'[|table|..])
    && |table'| <= |table| + |name| + 1 && (|table| <= 128 ==> |table'| <= 128)
  }

  /**
   Names written one after the other with one table, by dnsname_to_labels: they are in the message up to the
   first one that refers to a suffix at 0x4000 or later.
   */
  method WriteNames(buf: seq<byte>, bufLen: nat, j: nat, names: seq<seq<byte>>)
    returns (ok: bool, buf': seq<byte>, starts: seq<nat>, ghost good: nat, ghost last: seq<Entry>,
             ghost tables: seq<seq<Entry>>)
    requires j <= bufLen < |buf| && AllProper(names)
    ensures |buf'| == |buf| && buf'[..j] == buf[..j] && |starts| > 0
    ensures starts[0] == j
    ensures |tables| == |starts| <= |names| + 1 && tables[0] == []
    ensures forall n :: 0 <= n < |starts| - 1 ==> NextName(names[n], tables[n], starts[n], starts[n + 1], tables[n + 1])
    ensures ok <==> |starts| == |names| + 1
    ensures !ok ==>
      var n := |starts| - 1;
      n < |names| && (starts[n] > bufLen || !Accepts(bufLen, starts[n], names[n], tables[n]))
    ensures ok ==> starts[|starts| - 1] <= bufLen + 1 && SpelledUpTo(buf', names, starts, |names|, good, last)
    ensures ok && bufLen < 0x4000 ==> good == |names|
    ensures j + Room(names) < bufLen ==> ok
  {
    hide Means, End, Labels, Proper, TableOk, Spelled, Room, SpelledUpTo, Near, Strays, Named, Accepts, NextName,
      RefersNowhere, PointsTo, AllRemembered, OnlyStarts, EndsInDot;
    var at: nat := j;
    var table := Some([]);
    ok, buf', starts, tables := false, buf, [j], [[]];
    good, last := 0, [];
    NoEntries(buf, j);
    SpelledNone(buf, j, names);
    for n := 0 to |names|
      invariant |buf'| == |buf| && j <= at <= bufLen + 1 && buf'[..j] == buf[..j] && |starts| == n + 1
      invariant starts[n] == at && starts[0] == j && table.Some?
      invariant SpelledUpTo(buf', names, starts, n, good, last) && (good == n ==> last == table.value)
      invariant |tables| == n + 1 && tables[0] == [] && tables[n] == table.value
      invariant forall k :: 0 <= k < n ==> NextName(names[k], tables[k], starts[k], starts[k + 1], tables[k + 1])
      invariant bufLen < 0x4000 ==> good == n
      invariant at <= j + Room(names[..n])
    {
      RoomNext(names, n);
      if at > bufLen {
        return;
      }
      ghost var b0 := buf';
      var r;
      UpTo(buf', names, starts, n, good, last);
      r, buf', table := DnsnameToLabels(buf', bufLen, at, names[n], table);
      SameStart(b0, buf', at, j);
      if r < 0 {
        return;
      }
      if good < n {
        BehindWrong(b0, buf', names, starts, n, good, last, r);
      } else {
        BehindRight(b0, buf', names, starts, n, last, r, table.value);
        if bufLen < 0x4000 { AllNear(b0, at, last, names[n]); }
        if Near(names[n], last) {
          good, last := n + 1, table.value;
        }
      }
      NextIs(names[n], tables[n], at, r, table.value, buf');
      starts, tables := starts + [r], tables + [table.value];
      at := r;
    }
    ok := true;
  }

  lemma NextIs(name: seq<byte>, table: seq<Entry>, j: nat, r: nat, table': seq<Entry>, b: seq<byte>)
    requires RefersNowhere(name, table) ==> r == j + |name| + if EndsInDot(name) then 1 else 2
    requires !RefersNowhere(name, table) ==> PointsTo(b, j, r, name, table)
    requires AllRemembered(name, j, table, table') && OnlyStarts(name, |name| + 1, j, table'[|table|..])
    requires |table'| <= |table| + |name| + 1 && (|table| <= 128 ==> |table'| <= 128)
    ensures NextName(name, table, j, r, table')
  {
    hide OnlyStarts, EndsInDot, Refers, LeadsTo, Reached;
  }

  lemma TwoLabels(name: seq<byte>)
    requires name == [97, 46, 98]
    ensures Labels(name) == [[97], [98]] && Proper(name) && Text(name)
    ensures LabelStart(name, 0) && name[0..] == name && FirstDot(name) == 1 && FirstDot(name[2..]) == 1
    ensures forall s: nat :: s <= 3 && LabelStart(name, s) ==> FirstDot(name[s..]) <= 63
  {
    assert name[2..] == [98] && name[..1] == [97] && name[1..] == [46, 98] && name[2..][1..] == [];
    assert FirstDot([98]) == 1 && FirstDot(name[1..]) == 0;
    assert Labels([98]) == [[98]];
  }

  lemma {:induction false} PosFound(table: seq<Entry>, e: Entry)
    requires InTable(table, e)
    ensures FirstPos(table, e.v) >= 0
  {
    var i :| 0 <= i < |table| && table[i] == e;
    if table[0].v != e.v {
      assert table[1..][i - 1] == e;
      PosFound(table[1..], e);
    }
  }

  /** With its whole in the table, a name is a pointer. */
  lemma WholeKnown(name: seq<byte>, table: seq<Entry>, pos: nat)
    requires InTable(table, Entry(name, pos)) && |name| <= 255
    ensures FirstPos(table, name) >= 0 && Refers(name, table, 0, FirstPos(table, name))
    ensures forall bufLen: nat, j: nat :: Accepts(bufLen, j, name, table) <==> j + 2 <= bufLen
  {
    hide FirstPos, FirstDot;
    PosFound(table, Entry(name, pos));
    assert name[0..] == name;
    var ref: nat := FirstPos(table, name);
    assert Refers(name, table, 0, ref);
    forall i: nat, ref': nat | Refers(name, table, i, ref') ensures i == 0 { RefersOnce(name, table, 0, ref, i, ref'); }
    if NotInTable(table, name) { FirstNone(table, name); }
  }

  lemma NothingKnown(name: seq<byte>)
    ensures RefersNowhere(name, [])
  {}

  lemma TwoNamesAre(name: seq<byte>, ok: bool, starts: seq<nat>, tables: seq<seq<Entry>>)
    requires name == [97, 46, 98] && |tables| == |starts| && 1 <= |starts| <= 3 && tables[0] == [] && starts[0] == 0
    requires forall n :: 0 <= n < |starts| - 1 ==> NextName(name, tables[n], starts[n], starts[n + 1], tables[n + 1])
    requires ok <==> |starts| == 3
    requires !ok ==> var n := |starts| - 1; starts[n] > 8 || !Accepts(8, starts[n], name, tables[n])
    ensures ok && starts == [0, 5, 7]
  {
    hide FirstPos, FirstDot, Refers, InTable;
    TwoLabels(name);
    NothingKnown(name);
    assert Accepts(8, 0, name, []);
    assert NextName(name, tables[0], starts[0], starts[1], tables[1]);
    assert starts[1] == 5;
    assert Reached(name, [], 0);
    WholeKnown(name, tables[1], 0);
    if |starts| == 3 { assert NextName(name, tables[1], starts[1], starts[2], tables[2]); }
  }

  /** The two names "a.b" in eight bytes, the second of them a pointer to the first */
  method TwoNames(buf: seq<byte>) returns (ok: bool, buf': seq<byte>, starts: seq<nat>)
    requires |buf| == 9
    ensures ok && starts == [0, 5, 7]
  {
    hide Labels, Proper, Text, Spelled, SpelledUpTo, Room, Accepts, NextName;
    var name: seq<byte> := [97, 46, 98];
    ghost var good, last, tables;
    TwoLabels(name);
    ok, buf', starts, good, last, tables := WriteNames(buf, 8, 0, [name, name]);
    TwoNamesAre(name, ok, starts, tables);
  }

  lemma UpTo(b: seq<byte>, names: seq<seq<byte>>, starts: seq<nat>, n: nat, good: nat, table: seq<Entry>)
    requires SpelledUpTo(b, names, starts, n, good, table)
    ensures good <= n <= |names| && |starts| == n + 1 && starts[n] <= |b|
    ensures good == n ==> TableOk(b, starts[n], table)
  {}

  lemma SpelledNone(b: seq<byte>, j: nat, names: seq<seq<byte>>)
    requires j <= |b|
    ensures SpelledUpTo(b, names, [j], 0, 0, [])
  {}

  /** name_parse gives back every name of a message written that way, and where it ends. */
  lemma SpelledReads(p: seq<byte>, length: nat, at: nat, names: seq<seq<byte>>, starts: seq<nat>, n: nat, k: nat)
    requires length <= |p| && at <= length && Spelled(p, at, names, starts, n) && k < n && Proper(names[k])
    ensures Read(p, length, starts[k], 0) == Gives(Labels(names[k]), starts[k + 1])
    ensures Written([], Labels(names[k])) == names[k] && OutLength(0, Labels(names[k])) <= 255
  {
    ReadMeans(p, length, at, starts[k], Labels(names[k]), 0);
    WrittenIs([], Labels(names[k]));
    DottedLabels(names[k]);
  }

  /**
   Writing any list of names and parsing each of them again.  Each comes back, and ends where the next one
   starts, up to the first one that refers to a suffix at 0x4000 or later.
   */
  method RoundTrip(buf: seq<byte>, bufLen: nat, j: nat, names: seq<seq<byte>>)
    returns (ok: bool, starts: seq<nat>, parsed: seq<seq<byte>>, ends: seq<nat>, ghost p: seq<byte>, ghost good: nat,
             ghost last: seq<Entry>)
    requires j <= bufLen < |buf| && AllProper(names)
    ensures ok ==> |parsed| == |ends| == |names| && |starts| == |names| + 1 && starts[0] == j
    ensures ok ==> SpelledUpTo(p, names, starts, |names|, good, last)
    ensures ok ==> good <= |names| && parsed[..good] == names[..good] && ends[..good] == starts[1..good + 1]
    ensures ok && bufLen < 0x4000 ==> good == |names| && parsed == names && ends == starts[1..]
    ensures j + Room(names) < bufLen ==> ok
  {
    hide Spelled, Read, Written, OutLength, Labels, Proper, Room, TableOk, Strays;
    var m;
    ghost var tables;
    ok, m, starts, good, last, tables := WriteNames(buf, bufLen, j, names);
    p, parsed, ends := m, [], [];
    if !ok {
      return;
    }
    var length := starts[|starts| - 1];
    for k := 0 to |names|
      invariant |parsed| == |ends| == k
      invariant forall i :: 0 <= i < k && i < good ==> parsed[i] == names[i] && ends[i] == starts[i + 1]
    {
      var over, r, name, end := NameParse(m, length, starts[k], 256);
      if k < good {
        SpelledReads(m, length, starts[good], names, starts[..good + 1], good, k);
        assert r == 0 && end == starts[k + 1];
      }
      parsed, ends := parsed + [name], ends + [end];
    }
    assert parsed[..good] == names[..good];
    assert good == |names| ==> parsed[..good] == parsed && names[..good] == names && ends[..good] == ends;
  }

  /** The name "a" at 0x4000, behind as many zeros, and room behind it. */
  const FAR: seq<byte> := seq(0x4000, _ => 0) + [1, 97, 0] + seq(80, _ => 0)

  lemma FarIs()
    ensures |FAR| == 0x4053 && FAR[0x4000] == 1 && FAR[0x4001] == 97 && FAR[0x4002] == 0 && FAR[0] == 0
    ensures TableOk(FAR, 0x4003, [Entry([97], 0x4000)]) && Refers([97], [Entry([97], 0x4000)], 0, 0x4000)
  {
    OneLabel();
    assert FAR[0x4001..0x4002] == [97] && [97][0..] == [97];
    assert Means(FAR, 0x4003, 0x4002, [[97]][1..]);
  }

  /** The same name once more: a pointer to 0x4000 is written, and parsed as one to 0, where there is the empty name. */
  method FarName() returns (r: int, buf: seq<byte>, name: seq<byte>)
    ensures r == 0x4005 && |buf| == |FAR| && buf[..0x4003] == FAR[..0x4003] && name == []
  {
    hide Means, Labels, TableOk, Near, Proper, Named;
    FarIs();
    OneLabel();
    var table, over, code, end;
    r, buf, table := DnsnameToLabels(FAR, 0x4010, 0x4003, [97], Some([Entry([97], 0x4000)]));
    StraysTo(buf, r);
    over, code, name, end := NameParse(buf, 0x4010, 0x4003, 256);
  }

  /** What is read at a pointer that should lead to 0x4000. */
  lemma StraysTo(b: seq<byte>, r: int)
    requires |b| == |FAR| && b[..0x4003] == FAR[..0x4003] && r <= 0x4011
    requires r >= 0 && !Near([97], [Entry([97], 0x4000)]) ==> Strays(b, 0x4003, r, [97], [Entry([97], 0x4000)])
    requires r >= 0
    ensures r == 0x4005 && Read(b, 0x4010, 0x4003, 0) == Gives([], 0x4005) && Written([], []) == []
    ensures OutLength(0, []) == 0
  {
    hide Refers;
    FarIs();
    var table := [Entry([97], 0x4000)];
    assert !Near([97], table);
    var i: nat, ref: nat :|
      Refers([97], table, i, ref) && 0x4000 <= ref && r == 0x4003 + i + 2 && LeadsTo(b, r, ref % 0x4000);
    RefersOnce([97], table, i, ref, 0, 0x4000);
    assert b[0] == b[..0x4003][0] == FAR[..0x4003][0] == 0;
    assert Read(b, 0x4010, 0, 1) == Gives([], 1);
  }
}
