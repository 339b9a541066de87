/**
 The minimum firmware revision a rendezvous blob asks for (dctpm.rs): the highest
 value of variable 18 among all directives of a RendezvousInfo,
 `[[ [variable, bstr value, ...], ... ], ...]`.
 */
module RvInfo {
  import opened Base
  import opened Cbor
  import opened DctpmRecord

  const RV_MIN_FIRMWARE_REV: nat := 18

  // ---- the scan ----

  function ReadArrayOf(d: Bytes, pos: nat): (r: Option<(nat, nat)>)
    ensures r.Some? ==> pos < r.value.1 <= |d|
  {
    var (m, n, p) :- ReadHead(Dctpm, d, pos);
    if m == 4 then Some((n, p)) else None
  }

  /** The revision inside a variable-18 value: an unsigned integer in a bstr. */
  function InnerRev(major: Major, inner: Bytes): nat {
    var h := ReadHead(Dctpm, inner, 0);
    if major == 2 && h.Some? && h.value.0 == 0 then h.value.1 else 0
  }

  /** A value names a revision exactly by being a byte string that starts with that
      unsigned integer, written in any width. */
  lemma InnerRevExactly(major: Major, inner: Bytes, rev: nat)
    requires rev > 0
    ensures InnerRev(major, inner) == rev <==>
            major == 2 && exists h :: HeadOf(Dctpm, h, 0, rev) && At(inner, 0, h.Bytes())
  {
    hide ReadHead;
    if InnerRev(major, inner) == rev {
      ReadHeadExact(Dctpm, inner, 0, 0, rev, ReadHead(Dctpm, inner, 0).value.2);
    }
    forall h | HeadOf(Dctpm, h, 0, rev) && At(inner, 0, h.Bytes()) && major == 2 ensures InnerRev(major, inner) == rev {
      HeadAt(Dctpm, h, inner, 0);
    }
  }

  /** One instruction: (the revision it names or 0, position after it). */
  function ScanInstr(d: Bytes, pos: nat): Option<(nat, nat)> {
    var (len, p0) :- ReadArrayOf(d, pos);
    if len == 0 then None else
      var (vm, v, p1) :- ReadHead(Dctpm, d, p0);
      if len < 2 then Some((0, p1))
      else if vm == 0 && v == RV_MIN_FIRMWARE_REV then
        var (bm, blen, p2) :- ReadHead(Dctpm, d, p1);
        if p2 + blen > |d| then None else
          var e :- SkipN(Dctpm, d, p2 + blen, len - 2);
          Some((InnerRev(bm, d[p2..p2 + blen]), e))
      else
        var e :- SkipN(Dctpm, d, p1, len - 1);
        Some((0, e))
  }

  function ScanInstrs(d: Bytes, pos: nat, n: nat, best: nat): Option<(nat, nat)>
    decreases n
  {
    if n == 0 then Some((best, pos))
    else
      var (rev, p) :- ScanInstr(d, pos);
      ScanInstrs(d, p, n - 1, Max(best, rev))
  }

  function ScanDirs(d: Bytes, pos: nat, n: nat, best: nat): Option<nat>
    decreases n
  {
    if n == 0 then Some(best)
    else
      var (k, p) :- ReadArrayOf(d, pos);
      var (best', q) :- ScanInstrs(d, p, k, best);
      ScanDirs(d, q, n - 1, best')
  }

  function RvRev(d: Bytes): nat {
    var h := ReadArrayOf(d, 0);
    if h.None? then 0 else
      var r := ScanDirs(d, h.value.1, h.value.0, 0);
      if r.Some? then r.value else 0
  }

  /** The innermost part of the scan: one instruction off the cursor. */
  method NextInstr(d: Bytes, pos: nat) returns (r: Option<(nat, nat)>)
    ensures r == ScanInstr(d, pos)
  {
    hide ReadHead, Skip;
    var a := ReadArrayOf(d, pos);
    if a.None? || a.value.0 == 0 { return None; }
    var len := a.value.0;
    var v := ReadHead(Dctpm, d, a.value.1);
    if v.None? { return None; }
    if len < 2 { return Some((0, v.value.2)); }
    if v.value.0 == 0 && v.value.1 == RV_MIN_FIRMWARE_REV {
      var b := ReadHead(Dctpm, d, v.value.2);
      if b.None? || b.value.2 + b.value.1 > |d| { return None; }
      var inner := d[b.value.2..b.value.2 + b.value.1];
      var e := SkipItems(d, b.value.2 + b.value.1, len - 2);
      return if e.None? then None else Some((InnerRev(b.value.0, inner), e.value));
    }
    var e := SkipItem(d, v.value.2);
    if e.None? { return None; }
    e := SkipItems(d, e.value, len - 2);
    return if e.None? then None else Some((0, e.value));
  }

  method RvMinFirmwareRev(d: Bytes) returns (best: nat)
    ensures best == RvRev(d)
  {
    hide ReadArrayOf, ScanInstr;
    best := 0;
    var h := ReadArrayOf(d, 0);
    if h.None? { return 0; }
    var n, pos, i := h.value.0, h.value.1, 0;
    while i < n
      invariant i <= n
      invariant ScanDirs(d, h.value.1, n, 0) == ScanDirs(d, pos, n - i, best)
    {
      var k := ReadArrayOf(d, pos);
      if k.None? { return 0; }
      pos := k.value.1;
      var j := 0;
      ghost var at, before := pos, best;
      while j < k.value.0
        invariant j <= k.value.0
        invariant ScanInstrs(d, at, k.value.0, before) == ScanInstrs(d, pos, k.value.0 - j, best)
      {
        var r := NextInstr(d, pos);
        if r.None? { return 0; }
        best, pos, j := Max(best, r.value.0), r.value.1, j + 1;
      }
      i := i + 1;
    }
  }

  // ---- well-formed rendezvous information ----

  /** An instruction: its array head, the head of its variable, its other items. */
  datatype Instr = Instr(head: Head, variable: Head, rest: seq<Item>)

  predicate ArrayHead(h: Head, n: nat) {
    h.major == 4 && TailLen(Dctpm, 4, h.info) == Some(|h.tail|) && h.Arg() == n
  }

  predicate IsRev(i: Instr) {
    i.variable.major == 0 && i.variable.Arg() == RV_MIN_FIRMWARE_REV && i.rest != []
  }

  /** The variable is an integer; a variable-18 value is a byte string. */
  ghost predicate InstrOk(i: Instr) {
    && ArrayHead(i.head, 1 + |i.rest|)
    && i.variable.major < 2 && TailLen(Dctpm, i.variable.major, i.variable.info) == Some(|i.variable.tail|)
    && AllInLang(Dctpm, i.rest)
    && (IsRev(i) ==> i.rest[0].head.major == 2)
  }

  /** The revision an instruction asks for. */
  function RevIn(i: Instr): nat {
    if IsRev(i) && i.rest[0].Atom? then InnerRev(2, i.rest[0].body) else 0
  }

  function InstrBytes(i: Instr): Bytes { i.head.Bytes() + i.variable.Bytes() + EncodeAll(i.rest) }

  function InstrsBytes(xs: seq<Instr>): Bytes {
    if xs == [] then [] else InstrBytes(xs[0]) + InstrsBytes(xs[1..])
  }

  datatype Dir = Dir(head: Head, instrs: seq<Instr>)

  ghost predicate DirOk(r: Dir) {
    ArrayHead(r.head, |r.instrs|) && forall i :: 0 <= i < |r.instrs| ==> InstrOk(r.instrs[i])
  }

  function DirsBytes(rs: seq<Dir>): Bytes {
    if rs == [] then [] else rs[0].head.Bytes() + InstrsBytes(rs[0].instrs) + DirsBytes(rs[1..])
  }

  /** An encoded instruction is scanned to its end and yields its revision. */
  lemma {:induction false} InstrAt(d: Bytes, pos: nat, i: Instr)
    requires InstrOk(i) && At(d, pos, InstrBytes(i))
    ensures ScanInstr(d, pos) == Some((RevIn(i), pos + |InstrBytes(i)|))
  {
    hide Skip, SkipN, ReadHead, TailLen, InLang, Encode, EncodeAll, InnerRev;
    AtConcat(d, pos, i.head.Bytes() + i.variable.Bytes(), EncodeAll(i.rest));
    AtConcat(d, pos, i.head.Bytes(), i.variable.Bytes());
    HeadAt(Dctpm, i.head, d, pos);
    var p0 := pos + |i.head.Bytes()|;
    HeadAt(Dctpm, i.variable, d, p0);
    var p1 := p0 + |i.variable.Bytes()|;
    SkipNEncoded(Dctpm, i.rest, d, p1);
    if i.rest == [] {
      EncodeNone();
    } else if IsRev(i) {
      RevAt(d, p1, i);
    }
  }

  /** The value of variable 18, and the items after it. */
  lemma {:induction false} RevAt(d: Bytes, pos: nat, i: Instr)
    requires InstrOk(i) && IsRev(i) && At(d, pos, EncodeAll(i.rest))
    ensures var h := ReadHead(Dctpm, d, pos);
            && h.Some? && h.value.0 == 2 && h.value.2 + h.value.1 <= |d|
            && InnerRev(2, d[h.value.2..h.value.2 + h.value.1]) == RevIn(i)
            && SkipN(Dctpm, d, h.value.2 + h.value.1, |i.rest| - 1) == Some(pos + |EncodeAll(i.rest)|)
  {
    hide Skip, SkipN, ReadHead, TailLen, EncodeAll, InnerRev;
    var it, more := i.rest[0], i.rest[1..];
    assert i.rest == [it] + more;
    EncodeAllConcat([it], more);
    EncodeOne(it);
    AtConcat(d, pos, Encode(it), EncodeAll(more));
    assert InLang(Dctpm, it);
    AtConcat(d, pos, it.head.Bytes(), it.body);
    HeadAt(Dctpm, it.head, d, pos);
    assert AllInLang(Dctpm, more);
    SkipNEncoded(Dctpm, more, d, pos + |Encode(it)|);
  }

  function BestInstr(xs: seq<Instr>, best: nat): nat
    decreases |xs|
  {
    if xs == [] then best else BestInstr(xs[1..], Max(best, RevIn(xs[0])))
  }

  lemma {:induction false} InstrsAt(d: Bytes, pos: nat, xs: seq<Instr>, best: nat)
    requires (forall i :: 0 <= i < |xs| ==> InstrOk(xs[i])) && At(d, pos, InstrsBytes(xs))
    ensures ScanInstrs(d, pos, |xs|, best) == Some((BestInstr(xs, best), pos + |InstrsBytes(xs)|))
    decreases |xs|
  {
    hide ScanInstr, InstrOk, InstrBytes, RevIn;
    if xs != [] {
      AtConcat(d, pos, InstrBytes(xs[0]), InstrsBytes(xs[1..]));
      InstrAt(d, pos, xs[0]);
      InstrsAt(d, pos + |InstrBytes(xs[0])|, xs[1..], Max(best, RevIn(xs[0])));
    }
  }

  function BestDir(rs: seq<Dir>, best: nat): nat
    decreases |rs|
  {
    if rs == [] then best else BestDir(rs[1..], BestInstr(rs[0].instrs, best))
  }

  lemma {:induction false} DirsAt(d: Bytes, pos: nat, rs: seq<Dir>, best: nat)
    requires (forall i :: 0 <= i < |rs| ==> DirOk(rs[i])) && At(d, pos, DirsBytes(rs))
    ensures ScanDirs(d, pos, |rs|, best) == Some(BestDir(rs, best))
    decreases |rs|
  {
    hide ReadHead, TailLen, ScanInstrs, InstrsBytes, BestInstr, InstrOk;
    if rs != [] {
      var r := rs[0];
      assert DirOk(r);
      AtConcat(d, pos, r.head.Bytes() + InstrsBytes(r.instrs), DirsBytes(rs[1..]));
      AtConcat(d, pos, r.head.Bytes(), InstrsBytes(r.instrs));
      HeadAt(Dctpm, r.head, d, pos);
      var p := pos + |r.head.Bytes()|;
      InstrsAt(d, p, r.instrs, best);
      DirsAt(d, p + |InstrsBytes(r.instrs)|, rs[1..], BestInstr(r.instrs, best));
    }
  }

  /** Some instruction names the revision `rev`. */
  ghost predicate Named(rs: seq<Dir>, rev: nat) {
    exists i, j :: 0 <= i < |rs| && 0 <= j < |rs[i].instrs| && RevIn(rs[i].instrs[j]) == rev
  }

  lemma {:induction false} BestInstrIsMax(xs: seq<Instr>, best: nat)
    ensures best <= BestInstr(xs, best)
    ensures forall j :: 0 <= j < |xs| ==> RevIn(xs[j]) <= BestInstr(xs, best)
    ensures BestInstr(xs, best) == best || exists j :: 0 <= j < |xs| && RevIn(xs[j]) == BestInstr(xs, best)
    decreases |xs|
  {
    hide RevIn;
    if xs != [] {
      BestInstrIsMax(xs[1..], Max(best, RevIn(xs[0])));
      forall j | 0 <= j < |xs| ensures RevIn(xs[j]) <= BestInstr(xs, best) {
        if j > 0 { assert xs[j] == xs[1..][j - 1]; }
      }
      var b := BestInstr(xs, best);
      if b != best && b != RevIn(xs[0]) {
        var j :| 0 <= j < |xs[1..]| && RevIn(xs[1..][j]) == b;
        assert xs[j + 1] == xs[1..][j];
      }
    }
  }

  lemma {:induction false} BestDirIsMax(rs: seq<Dir>, best: nat)
    ensures best <= BestDir(rs, best)
    ensures forall i, j :: 0 <= i < |rs| && 0 <= j < |rs[i].instrs| ==> RevIn(rs[i].instrs[j]) <= BestDir(rs, best)
    ensures BestDir(rs, best) == best || Named(rs, BestDir(rs, best))
    decreases |rs|
  {
    hide RevIn, BestInstr;
    if rs != [] {
      var b := BestInstr(rs[0].instrs, best);
      BestInstrIsMax(rs[0].instrs, best);
      BestDirIsMax(rs[1..], b);
      forall i, j | 0 <= i < |rs| && 0 <= j < |rs[i].instrs| ensures RevIn(rs[i].instrs[j]) <= BestDir(rs, best) {
        if i > 0 { assert rs[i] == rs[1..][i - 1]; }
      }
      var t := BestDir(rs, best);
      if t != best && t != b {
        var i, j :| 0 <= i < |rs[1..]| && 0 <= j < |rs[1..][i].instrs| && RevIn(rs[1..][i].instrs[j]) == t;
        assert rs[i + 1] == rs[1..][i];
      }
    }
  }

  /** On every well-formed RendezvousInfo, followed by anything, the scan returns
      the highest revision any instruction names, or 0 if none names one. */
  lemma HighestRevision(h: Head, rs: seq<Dir>, after: Bytes)
    requires ArrayHead(h, |rs|) && forall i :: 0 <= i < |rs| ==> DirOk(rs[i])
    ensures var r := RvRev(h.Bytes() + DirsBytes(rs) + after);
            && (forall i, j :: 0 <= i < |rs| && 0 <= j < |rs[i].instrs| ==> RevIn(rs[i].instrs[j]) <= r)
            && (r == 0 || Named(rs, r))
  {
    hide DirsBytes, ScanDirs, ReadHead, TailLen, DirOk, RevIn, Named;
    var d := h.Bytes() + DirsBytes(rs) + after;
    assert d[0..|h.Bytes()|] == h.Bytes();
    HeadAt(Dctpm, h, d, 0);
    AtPrefix(h.Bytes(), DirsBytes(rs), after);
    DirsAt(d, |h.Bytes()|, rs, 0);
    BestDirIsMax(rs, 0);
  }
}
