/**
 DNS names on the wire (RFC 1035 sections 3.1 and 4.1.4; dns.rs): the encoder,
 the decoder that follows compression pointers, and the skipper.

 A name is its bytes; the decoder turns each wire byte into the character with
 that code, which is the same name as long as it is ASCII.
 */
module DnsNames {
  import opened Base

  const DOT: u8 := 46
  const MAX_JUMPS: nat := 64

  // ---- encoding ----

  /** `str::split('.')`: always at least one piece. */
  function Split(name: Bytes): (ls: seq<Bytes>)
    ensures |ls| >= 1
  {
    if name == [] then [[]]
    else
      var rest := Split(name[1..]);
      if name[0] == DOT then [[]] + rest else [[name[0]] + rest[0]] + rest[1..]
  }

  function Clip(lbl: Bytes): Bytes { if |lbl| > 63 then lbl[..63] else lbl }

  /** The labels that reach the wire: empty ones dropped, long ones cut. */
  function WireLabels(ls: seq<Bytes>): seq<Bytes> {
    if ls == [] then []
    else (if ls[0] == [] then [] else [Clip(ls[0])]) + WireLabels(ls[1..])
  }

  function EncodeLabels(ls: seq<Bytes>): Bytes
    requires forall i :: 0 <= i < |ls| ==> |ls[i]| <= 63
  {
    if ls == [] then [] else [|ls[0]|] + ls[0] + EncodeLabels(ls[1..])
  }

  predicate IsLabel(l: Bytes) { 0 < |l| <= 63 }

  predicate AreLabels(ls: seq<Bytes>) { forall i :: 0 <= i < |ls| ==> IsLabel(ls[i]) }

  lemma {:induction false} WireLabelsFit(ls: seq<Bytes>)
    ensures AreLabels(WireLabels(ls))
  {
    if ls != [] { WireLabelsFit(ls[1..]); }
  }

  lemma {:induction false} EncodeLabelsSnoc(ls: seq<Bytes>, l: Bytes)
    requires AreLabels(ls) && IsLabel(l)
    ensures EncodeLabels(ls + [l]) == EncodeLabels(ls) + [|l|] + l
  {
    if ls == [] {
      assert EncodeLabels([l][1..]) == [];
    } else {
      assert (ls + [l])[1..] == ls[1..] + [l];
      EncodeLabelsSnoc(ls[1..], l);
    }
  }

  lemma {:induction false} WireLabelsConcat(a: seq<Bytes>, b: seq<Bytes>)
    ensures WireLabels(a + b) == WireLabels(a) + WireLabels(b)
  {
    if a == [] {
      assert a + b == b;
    } else {
      assert (a + b)[1..] == a[1..] + b;
      WireLabelsConcat(a[1..], b);
    }
  }

  function OnWire(name: Bytes): Bytes {
    WireLabelsFit(Split(name));
    EncodeLabels(WireLabels(Split(name))) + [0]
  }

  method EncodeDnsName(name: Bytes) returns (buf: Bytes)
    ensures buf == OnWire(name)
  {
    hide Split;
    buf := [];
    var ls := Split(name);
    var i := 0;
    WireLabelsFit(ls[..0]);
    while i < |ls|
      invariant i <= |ls| && AreLabels(WireLabels(ls[..i]))
      invariant buf == EncodeLabels(WireLabels(ls[..i]))
    {
      var lbl := ls[i];
      WireLabelsConcat(ls[..i], [lbl]);
      assert ls[..i + 1] == ls[..i] + [lbl];
      assert WireLabels([lbl][1..]) == [];
      WireLabelsFit(ls[..i + 1]);
      if lbl == [] {
        assert WireLabels([lbl]) == [];
        assert WireLabels(ls[..i + 1]) == WireLabels(ls[..i]);
      } else {
        EncodeLabelsSnoc(WireLabels(ls[..i]), Clip(lbl));
        assert WireLabels([lbl]) == [Clip(lbl)];
        if |lbl| > 63 {
          buf := buf + [63] + lbl[..63];
        } else {
          buf := buf + [|lbl|] + lbl;
        }
      }
      i := i + 1;
    }
    assert ls[..|ls|] == ls;
    buf := buf + [0];
  }

  // ---- the two walkers ----

  function Remaining(data: Bytes, pos: nat): nat { if pos < |data| then |data| - pos else 0 }

  function Target(data: Bytes, pos: nat): nat
    requires pos + 1 < |data| && data[pos] >= 0xC0
  {
    (data[pos] as int - 0xC0) * 256 + data[pos + 1] as int
  }

  function FirstEnd(end: Option<nat>, pos: nat): Option<nat> { if end.None? then Some(pos) else end }

  /** Decoding from `pos` with the jumps made, the end already fixed by the first
      pointer, and the name read so far. The measure is the jumps left, then the
      bytes left. */
  function DecodeFrom(data: Bytes, pos: nat, jumps: nat, end: Option<nat>, name: Bytes): Option<(Bytes, nat)>
    requires jumps <= MAX_JUMPS
    decreases MAX_JUMPS - jumps, Remaining(data, pos)
  {
    if pos >= |data| then None
    else
      var len := data[pos];
      if len == 0 then Some((name, FirstEnd(end, pos + 1).value))
      else if len >= 0xC0 then
        if pos + 1 >= |data| || jumps + 1 > MAX_JUMPS then None
        else DecodeFrom(data, Target(data, pos), jumps + 1, FirstEnd(end, pos + 2), name)
      else if pos + 1 + len > |data| then None
      else DecodeFrom(data, pos + 1 + len, jumps, end, AddLabel(name, data[pos + 1..pos + 1 + len]))
  }

  function AddLabel(name: Bytes, lbl: Bytes): Bytes {
    (if name == [] then [] else name + [DOT]) + lbl
  }

  function SkipFrom(data: Bytes, pos: nat, jumps: nat, end: Option<nat>): Option<nat>
    requires jumps <= MAX_JUMPS
    decreases MAX_JUMPS - jumps, Remaining(data, pos)
  {
    if pos >= |data| then None
    else
      var len := data[pos];
      if len == 0 then FirstEnd(end, pos + 1)
      else if len >= 0xC0 then
        if pos + 1 >= |data| || jumps + 1 > MAX_JUMPS then None
        else SkipFrom(data, Target(data, pos), jumps + 1, FirstEnd(end, pos + 2))
      else SkipFrom(data, pos + 1 + len, jumps, end)
  }

  function Decoded(data: Bytes, pos: nat): Option<(Bytes, nat)> { DecodeFrom(data, pos, 0, None, []) }

  function Skipped(data: Bytes, pos: nat): Option<nat> { SkipFrom(data, pos, 0, None) }

  /** The inner loop: a dot if the name has begun, then the label's characters. */
  method PushLabel(name: Bytes, bytes: Bytes) returns (longer: Bytes)
    ensures longer == AddLabel(name, bytes)
  {
    longer := if name == [] then [] else name + [DOT];
    ghost var before := longer;
    var i := 0;
    while i < |bytes|
      invariant i <= |bytes| && longer == before + bytes[..i]
    {
      longer := longer + [bytes[i]];
      i := i + 1;
    }
  }

  method DecodeDnsName(data: Bytes, start: nat) returns (r: Option<(Bytes, nat)>)
    ensures r == Decoded(data, start)
  {
    var pos: nat, jumps, name := start, 0, [];
    var end: Option<nat> := None;
    while true
      invariant jumps <= MAX_JUMPS
      invariant Decoded(data, start) == DecodeFrom(data, pos, jumps, end, name)
      decreases MAX_JUMPS - jumps, Remaining(data, pos)
    {
      if pos >= |data| { return None; }
      var len := data[pos];
      if len == 0 {
        pos := pos + 1;
        break;
      } else if len >= 0xC0 {
        if pos + 1 >= |data| { return None; }
        if end.None? { end := Some(pos + 2); }
        if jumps + 1 > MAX_JUMPS { return None; }
        pos, jumps := Target(data, pos), jumps + 1;
      } else {
        if pos + 1 + len > |data| { return None; }
        name := PushLabel(name, data[pos + 1..pos + 1 + len]);
        pos := pos + 1 + len;
      }
    }
    return Some((name, if end.Some? then end.value else pos));
  }

  method SkipDnsName(data: Bytes, start: nat) returns (r: Option<nat>)
    ensures r == Skipped(data, start)
  {
    var pos: nat, jumps := start, 0;
    var end: Option<nat> := None;
    while true
      invariant jumps <= MAX_JUMPS
      invariant Skipped(data, start) == SkipFrom(data, pos, jumps, end)
      decreases MAX_JUMPS - jumps, Remaining(data, pos)
    {
      if pos >= |data| { return None; }
      var len := data[pos];
      if len == 0 {
        pos := pos + 1;
        break;
      } else if len >= 0xC0 {
        if pos + 1 >= |data| { return None; }
        if end.None? { end := Some(pos + 2); }
        if jumps + 1 > MAX_JUMPS { return None; }
        pos, jumps := Target(data, pos), jumps + 1;
      } else {
        pos := pos + 1 + len;
      }
    }
    return Some(if end.Some? then end.value else pos);
  }

  lemma {:induction false} WalkersAgreeFrom(data: Bytes, pos: nat, jumps: nat, end: Option<nat>, name: Bytes)
    requires jumps <= MAX_JUMPS
    ensures var d := DecodeFrom(data, pos, jumps, end, name);
            SkipFrom(data, pos, jumps, end) == if d.None? then None else Some(d.value.1)
    decreases MAX_JUMPS - jumps, Remaining(data, pos)
  {
    if pos < |data| && data[pos] != 0 {
      var len := data[pos];
      if len >= 0xC0 {
        if pos + 1 < |data| && jumps + 1 <= MAX_JUMPS {
          WalkersAgreeFrom(data, Target(data, pos), jumps + 1, FirstEnd(end, pos + 2), name);
        }
      } else if pos + 1 + len <= |data| {
        WalkersAgreeFrom(data, pos + 1 + len, jumps, end, AddLabel(name, data[pos + 1..pos + 1 + len]));
      } else {
        assert SkipFrom(data, pos + 1 + len, jumps, end) == None;
      }
    }
  }

  /** The skipper accepts exactly the names the decoder accepts, and both stop at
      the same place, on every packet and at every position. */
  lemma SkipMatchesDecode(data: Bytes, pos: nat)
    ensures Skipped(data, pos) == if Decoded(data, pos).None? then None else Some(Decoded(data, pos).value.1)
  {
    WalkersAgreeFrom(data, pos, 0, None, []);
  }

  // ---- decoding what was encoded ----

  function AddLabels(name: Bytes, ls: seq<Bytes>): Bytes
    decreases |ls|
  {
    if ls == [] then name else AddLabels(AddLabel(name, ls[0]), ls[1..])
  }

  lemma DecodeOneLabel(data: Bytes, pos: nat, l: Bytes, jumps: nat, end: Option<nat>, name: Bytes)
    requires jumps <= MAX_JUMPS && IsLabel(l) && At(data, pos, [|l|] + l)
    ensures DecodeFrom(data, pos, jumps, end, name) == DecodeFrom(data, pos + 1 + |l|, jumps, end, AddLabel(name, l))
  {
    AtConcat(data, pos, [|l|], l);
    assert data[pos] == data[pos..pos + 1][0] == |l|;
  }

  lemma {:induction false} DecodeLabels(data: Bytes, pos: nat, ls: seq<Bytes>, jumps: nat, end: Option<nat>,
                                        name: Bytes)
    requires jumps <= MAX_JUMPS && AreLabels(ls) && At(data, pos, EncodeLabels(ls))
    ensures DecodeFrom(data, pos, jumps, end, name)
         == DecodeFrom(data, pos + |EncodeLabels(ls)|, jumps, end, AddLabels(name, ls))
    decreases |ls|
  {
    hide DecodeFrom;
    if ls != [] {
      var l := ls[0];
      assert IsLabel(l);
      AtConcat(data, pos, [|l|] + l, EncodeLabels(ls[1..]));
      DecodeOneLabel(data, pos, l, jumps, end, name);
      DecodeLabels(data, pos + 1 + |l|, ls[1..], jumps, end, AddLabel(name, l));
    }
  }

  lemma DecodeRoot(data: Bytes, pos: nat, jumps: nat, end: Option<nat>, name: Bytes)
    requires jumps <= MAX_JUMPS && At(data, pos, [0])
    ensures DecodeFrom(data, pos, jumps, end, name) == Some((name, FirstEnd(end, pos + 1).value))
  {
    assert data[pos] == data[pos..pos + 1][0];
  }

  lemma DecodePointer(data: Bytes, pos: nat, offset: nat, name: Bytes)
    requires offset < 0x4000 && At(data, pos, [0xC0 + offset / 256, offset % 256])
    ensures DecodeFrom(data, pos, 0, None, name) == DecodeFrom(data, offset, 1, Some(pos + 2), name)
  {
    var ptr := data[pos..pos + 2];
    assert data[pos] == ptr[0] && data[pos + 1] == ptr[1];
    assert Target(data, pos) == offset;
  }

  /** A plain name: labels and the root. */
  lemma DecodePlain(data: Bytes, pos: nat, ls: seq<Bytes>)
    requires AreLabels(ls) && At(data, pos, EncodeLabels(ls) + [0])
    ensures Decoded(data, pos) == Some((AddLabels([], ls), pos + |EncodeLabels(ls)| + 1))
  {
    hide DecodeFrom, EncodeLabels;
    AtConcat(data, pos, EncodeLabels(ls), [0]);
    DecodeLabels(data, pos, ls, 0, None, []);
    DecodeRoot(data, pos + |EncodeLabels(ls)|, 0, None, AddLabels([], ls));
  }

  /** A compressed name (section 4.1.4): labels and a pointer to a name elsewhere
      decode to the joined name, and end right after the pointer. */
  lemma DecodeCompressed(data: Bytes, pos: nat, ls: seq<Bytes>, offset: nat, tail: seq<Bytes>)
    requires AreLabels(ls) && AreLabels(tail) && offset < 0x4000
    requires At(data, pos, EncodeLabels(ls) + [0xC0 + offset / 256, offset % 256])
    requires At(data, offset, EncodeLabels(tail) + [0])
    ensures Decoded(data, pos) == Some((AddLabels([], ls + tail), pos + |EncodeLabels(ls)| + 2))
  {
    hide DecodeFrom, EncodeLabels;
    var q := pos + |EncodeLabels(ls)|;
    var name := AddLabels([], ls);
    AtConcat(data, pos, EncodeLabels(ls), [0xC0 + offset / 256, offset % 256]);
    DecodeLabels(data, pos, ls, 0, None, []);
    DecodePointer(data, q, offset, name);
    AtConcat(data, offset, EncodeLabels(tail), [0]);
    DecodeLabels(data, offset, tail, 1, Some(q + 2), name);
    DecodeRoot(data, offset + |EncodeLabels(tail)|, 1, Some(q + 2), AddLabels(name, tail));
    AddLabelsConcat([], ls, tail);
  }

  lemma {:induction false} AddLabelsConcat(name: Bytes, a: seq<Bytes>, b: seq<Bytes>)
    ensures AddLabels(name, a + b) == AddLabels(AddLabels(name, a), b)
    decreases |a|
  {
    if a == [] {
      assert a + b == b;
    } else {
      assert (a + b)[1..] == a[1..] + b;
      AddLabelsConcat(AddLabel(name, a[0]), a[1..], b);
    }
  }

  // ---- which names survive the round trip ----

  predicate IsAscii(name: Bytes) { forall i :: 0 <= i < |name| ==> name[i] < 128 }

  /** Bytes of the labels and the dots between them. */
  function DottedLen(ls: seq<Bytes>): nat {
    if ls == [] then 0 else |ls[0]| + (if |ls| == 1 then 0 else 1 + DottedLen(ls[1..]))
  }

  lemma {:induction false} SplitLen(name: Bytes)
    ensures DottedLen(Split(name)) == |name|
  {
    if name != [] {
      SplitLen(name[1..]);
      var rest := Split(name[1..]);
      if name[0] == DOT {
        assert Split(name)[1..] == rest;
      } else {
        assert Split(name)[1..] == rest[1..];
      }
    }
  }

  lemma {:induction false} AddLabelsLen(name: Bytes, ls: seq<Bytes>)
    requires AreLabels(ls)
    ensures |AddLabels(name, ls)| == if ls == [] then |name| else (if name == [] then 0 else |name| + 1) + DottedLen(ls)
    decreases |ls|
  {
    if ls != [] {
      assert IsLabel(ls[0]);
      AddLabelsLen(AddLabel(name, ls[0]), ls[1..]);
    }
  }

  /** Dropping or cutting a label makes the dotted form shorter. */
  lemma {:induction false} WireLen(ls: seq<Bytes>)
    requires ls != []
    ensures DottedLen(WireLabels(ls)) <= DottedLen(ls)
    ensures DottedLen(WireLabels(ls)) == DottedLen(ls) <==> AreLabels(ls) || ls == [[]]
    ensures AreLabels(ls) ==> WireLabels(ls) == ls
  {
    if |ls| == 1 {
      assert WireLabels(ls[1..]) == [];
      assert ls == [ls[0]];
    } else {
      var rest := ls[1..];
      WireLen(rest);
      WireLabelsFit(rest);
      var w := WireLabels(rest);
      if ls[0] == [] {
        assert WireLabels(ls) == w;
        assert !IsLabel(ls[0]);
      } else {
        assert WireLabels(ls) == [Clip(ls[0])] + w && WireLabels(ls)[1..] == w;
        assert AreLabels(ls) <==> IsLabel(ls[0]) && AreLabels(rest);
        if rest == [[]] { assert !IsLabel(rest[0]); }
      }
    }
  }

  lemma {:induction false} JoinSplit(name: Bytes, pre: Bytes)
    requires AreLabels(Split(name))
    ensures AddLabels(pre, Split(name)) == if pre == [] then name else pre + [DOT] + name
    decreases |name|
  {
    hide Split;
    var ls := Split(name);
    var l := ls[0];
    FirstPiece(name);
    assert IsLabel(l);
    if |ls| == 1 {
      assert name == l && ls[1..] == [];
    } else {
      var tail := name[|l| + 1..];
      assert name == l + [DOT] + tail;
      forall i | 0 <= i < |ls[1..]| ensures IsLabel(ls[1..][i]) { assert ls[1..][i] == ls[i + 1]; }
      JoinSplit(tail, AddLabel(pre, l));
      assert pre != [] ==> pre + [DOT] + l + [DOT] + tail == pre + [DOT] + name;
    }
  }

  /** The first piece of a split, and what remains after its dot. */
  lemma {:induction false} FirstPiece(name: Bytes)
    ensures var ls := Split(name);
            var k := |ls[0]|;
            && k <= |name| && name[..k] == ls[0]
            && (|ls| == 1 <==> k == |name|)
            && (|ls| > 1 ==> name[k] == DOT && Split(name[k + 1..]) == ls[1..])
  {
    if name != [] {
      FirstPiece(name[1..]);
      var rest := Split(name[1..]);
      var k := |rest[0]|;
      if name[0] == DOT {
        assert Split(name)[1..] == rest;
      } else {
        assert Split(name)[1..] == rest[1..];
        assert name[..k + 1] == [name[0]] + name[1..][..k];
        if |rest| > 1 { assert name[k + 2..] == name[1..][k + 1..]; }
      }
    }
  }

  /** Every ASCII name decodes, wherever its encoding stands in a packet, to the
      dotted form of the labels that reached the wire; that is the name itself
      exactly for the root and for names whose labels are all 1 to 63 bytes. */
  lemma NameRoundTrip(name: Bytes, before: Bytes, after: Bytes)
    requires IsAscii(name)
    ensures var r := Decoded(before + OnWire(name) + after, |before|);
            && r.Some? && r.value.1 == |before| + |OnWire(name)|
            && (r.value.0 == name <==> name == [] || AreLabels(Split(name)))
  {
    hide DecodeFrom, Split, EncodeLabels;
    var ls := Split(name);
    var w := WireLabels(ls);
    WireLabelsFit(ls);
    AtPrefix(before, OnWire(name), after);
    DecodePlain(before + OnWire(name) + after, |before|, w);
    AddLabelsLen([], w);
    SplitLen(name);
    WireLen(ls);
    if AreLabels(ls) { JoinSplit(name, []); }
    else if ls == [[]] { assert name == []; }
    else { assert |AddLabels([], w)| < |name|; }
    if name == [] { SplitEmpty(); }
  }

  lemma SplitEmpty() ensures Split([]) == [[]] && WireLabels([[]]) == [] { }
}
