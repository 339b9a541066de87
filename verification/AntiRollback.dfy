/**
 The anti-rollback ratchet (anti_rollback.rs) over the DCTPM NV index: check a
 firmware revision against the stored minimum, raise the minimum, launch.

 The TPM is an adversarial device: every NV read may fail; a write stores the
 bytes or changes nothing, and may be reported as failed in either case; and a
 redefinition of the index (undefine, define, write) may also leave the index
 without contents.
 */
module AntiRollback {
  import opened Base
  import opened DctpmRecord

  /** What the TPM does with the commands of one call. */
  datatype WriteOutcome = Stored | Unreported | Unchanged | Lost
  datatype Io = Io(readOk: bool, write: WriteOutcome)

  type Index = Option<Bytes>

  const DEFAULT_SIZE: nat := 512

  /** The stored minimum; 0 if there is no record or it cannot be parsed. */
  function Counter(nv: Index): nat {
    if nv.None? then 0 else
      var r := RevOf(nv.value);
      if r.Some? then r.value else 0
  }

  function Zeros(n: nat): Bytes { seq(n, _ => 0) }

  function Padded(s: Bytes, size: nat): Bytes {
    if |s| < size then s + Zeros(size - |s|) else s
  }

  /** The bytes are stored, whether or not that is reported. */
  predicate Arrives(io: Io) { io.write.Stored? || io.write.Unreported? }

  /** The update leaves the index with a minimum of at least `rev`. */
  predicate Takes(nv: Index, rev: u64, io: Io) {
    || rev == 0
    || (io.readOk && nv.Some? && (rev <= Counter(nv) || (WithRev(nv.value, rev).Some? && Arrives(io))))
  }

  /** New contents of the index and the reported success. */
  function Update(nv: Index, rev: u64, io: Io): (Index, bool) {
    if rev == 0 then (nv, true)
    else if !io.readOk || nv.None? then (nv, false)
    else if rev <= Counter(nv) then (nv, true)
    else
      var updated := WithRev(nv.value, rev);
      if updated.None? then (nv, false)
      else if |updated.value| <= |nv.value| then
        if Arrives(io) then (Some(Padded(updated.value, |nv.value|)), io.write.Stored?) else (nv, false)
      else
        match io.write
        case Stored => (Some(Padded(updated.value, DEFAULT_SIZE)), true)
        case Unreported => (Some(Padded(updated.value, DEFAULT_SIZE)), false)
        case Unchanged => (nv, false)
        case Lost => (None, false)
  }

  function Accepts(nv: Index, rev: u64, rvMin: Option<u64>, io: Io): bool {
    var persisted := if io.readOk then Counter(nv) else 0;
    var effective := Max(persisted, if rvMin.Some? then rvMin.value else 0);
    effective == 0 || rev >= effective
  }

  /** The NV index and the operations on it, as the source runs them. */
  class NvIndex {
    var index: Index

    constructor (contents: Index)
      ensures index == contents
    {
      index := contents;
    }

    method Read(io: Io) returns (data: Index)
      ensures data == if io.readOk then index else None
    {
      data := if io.readOk then index else None;
    }

    method ReadFirmwareRevCounter(io: Io) returns (rev: nat)
      ensures rev == if io.readOk then Counter(index) else 0
    {
      var data := Read(io);
      if data.None? { return 0; }
      var r := MinFirmwareRev(data.value);
      return if r.Some? then r.value else 0;
    }

    method UpdateFirmwareRevCounter(rev: u64, io: Io) returns (ok: bool)
      modifies this
      ensures (index, ok) == Update(old(index), rev, io)
    {
      if rev == 0 { return true; }
      var data := Read(io);
      if data.None? { return false; }
      var stored := MinFirmwareRev(data.value);
      var current := if stored.Some? then stored.value else 0;
      if rev <= current { return true; }
      var updated := WithMinFirmwareRev(data.value, rev);
      if updated.None? { return false; }
      if |updated.value| <= |data.value| {
        if Arrives(io) { index := Some(Padded(updated.value, |data.value|)); }
        return io.write.Stored?;
      }
      match io.write {
        case Stored => index := Some(Padded(updated.value, DEFAULT_SIZE)); return true;
        case Unreported => index := Some(Padded(updated.value, DEFAULT_SIZE)); return false;
        case Unchanged => return false;
        case Lost => index := None; return false;
      }
    }

    method CheckFirmwareRev(rev: u64, rvMin: Option<u64>, io: Io) returns (ok: bool)
      ensures ok == Accepts(index, rev, rvMin, io)
    {
      var persisted := ReadFirmwareRevCounter(io);
      var effective := Max(persisted, if rvMin.Some? then rvMin.value else 0);
      return effective == 0 || rev >= effective;
    }

    /** Steps 4b and 5 of the delivery: launched or not. A failed update is only
        reported; the image is launched all the same. */
    method Deliver(a: Attempt) returns (launched: bool)
      modifies this
      ensures (index, launched) == Step(old(index), a)
    {
      launched := CheckFirmwareRev(a.rev, a.rvMin, a.checkIo);
      if launched && a.rev > 0 {
        var _ := UpdateFirmwareRevCounter(a.rev, a.updateIo);
      }
    }
  }

  // ---- one call ----

  lemma PaddedRevOf(d: Bytes, rev: u64, size: nat)
    requires WithRev(d, rev).Some?
    ensures RevOf(Padded(WithRev(d, rev).value, size)) == Some(rev)
  {
    hide RevOf, WithRev;
    var u := WithRev(d, rev).value;
    assert u + [] == u;
    ReadBack(d, rev, []);
    if |u| < size { ReadBack(d, rev, Zeros(size - |u|)); }
  }

  /** An update that takes leaves the larger of the two as the minimum; any other
      leaves the index as it was or, for a lost redefinition, empty. A reported
      success takes, and a failure takes only if the TPM did not report the write. */
  lemma UpdateEffect(nv: Index, rev: u64, io: Io)
    ensures var (nv', ok) := Update(nv, rev, io);
            && (Takes(nv, rev, io) ==> Counter(nv') == Max(Counter(nv), rev))
            && (!Takes(nv, rev, io) ==> nv' == nv || (nv' == None && io.write.Lost?))
            && (ok ==> Takes(nv, rev, io))
            && (Takes(nv, rev, io) ==> (!ok <==> io.write.Unreported? && rev > Counter(nv)))
  {
    hide RevOf, WithRev;
    if nv.Some? && WithRev(nv.value, rev).Some? {
      PaddedRevOf(nv.value, rev, |nv.value|);
      PaddedRevOf(nv.value, rev, DEFAULT_SIZE);
    }
  }

  /** An update never touches another item: the record keeps the spans before and
      after item 10, and the minimum it reads is the new one. */
  lemma UpdateKeepsItems(nv: Index, rev: u64, io: Io)
    requires Update(nv, rev, io).0 != nv && Update(nv, rev, io).0.Some?
    ensures nv.Some?
    ensures var old', new' := SpansOf(nv.value), SpansOf(Update(nv, rev, io).0.value);
            old'.Some? && new' == Some(old'.value.(count := Max(old'.value.count, REV_ITEM + 1)))
  {
    hide RevOf, WithRev, SpansOf;
    var u := WithRev(nv.value, rev).value;
    assert u + [] == u;
    assert SpansOf(nv.value).Some? by { NeedsSpans(nv.value, rev); }
    OtherItemsKept(nv.value, rev, []);
    if |u| < |nv.value| { OtherItemsKept(nv.value, rev, Zeros(|nv.value| - |u|)); }
    if |u| < DEFAULT_SIZE { OtherItemsKept(nv.value, rev, Zeros(DEFAULT_SIZE - |u|)); }
  }

  lemma NeedsSpans(d: Bytes, rev: u64)
    requires WithRev(d, rev).Some?
    ensures SpansOf(d).Some?
  {
    hide SpansOf;
  }

  /** The index has to be redefined to hold the longer record. */
  predicate NeedsRedefine(nv: Index, rev: u64) {
    && nv.Some? && rev > Counter(nv)
    && WithRev(nv.value, rev).Some? && |WithRev(nv.value, rev).value| > |nv.value|
  }

  /** The only way the minimum can drop. */
  lemma CounterDropsExactly(nv: Index, rev: u64, io: Io)
    ensures Counter(Update(nv, rev, io).0) < Counter(nv) <==>
            io.readOk && NeedsRedefine(nv, rev) && io.write.Lost? && Counter(nv) > 0
  {
    hide RevOf, WithRev;
    UpdateEffect(nv, rev, io);
  }

  // ---- runs ----

  datatype Attempt = Attempt(rev: u64, rvMin: Option<u64>, checkIo: Io, updateIo: Io)

  function Step(nv: Index, a: Attempt): (Index, bool) {
    if !Accepts(nv, a.rev, a.rvMin, a.checkIo) then (nv, false)
    else if a.rev > 0 then (Update(nv, a.rev, a.updateIo).0, true)
    else (nv, true)
  }

  /** The index after the first `k` attempts. */
  function After(nv: Index, run: seq<Attempt>, k: nat): Index
    requires k <= |run|
  {
    if k == 0 then nv else Step(After(nv, run, k - 1), run[k - 1]).0
  }

  predicate Launched(nv: Index, run: seq<Attempt>, i: nat)
    requires i < |run|
  {
    Step(After(nv, run, i), run[i]).1
  }

  /** Attempt `i` launched and the index took its revision; a launch whose update
      was reported as successful always did. */
  predicate Recorded(nv: Index, run: seq<Attempt>, i: nat)
    requires i < |run|
  {
    Launched(nv, run, i) && Takes(After(nv, run, i), run[i].rev, run[i].updateIo)
  }

  /** The attempt launches, needs the index redefined and loses it while it held
      a non-zero minimum. */
  predicate Forgets(nv: Index, a: Attempt) {
    && Accepts(nv, a.rev, a.rvMin, a.checkIo)
    && a.updateIo.readOk && NeedsRedefine(nv, a.rev) && a.updateIo.write.Lost? && Counter(nv) > 0
  }

  predicate NeverForgets(nv: Index, run: seq<Attempt>) {
    forall i :: 0 <= i < |run| ==> !Forgets(After(nv, run, i), run[i])
  }

  lemma {:induction false} CounterMonotone(nv: Index, run: seq<Attempt>, i: nat, j: nat)
    requires NeverForgets(nv, run) && i <= j <= |run|
    ensures Counter(After(nv, run, i)) <= Counter(After(nv, run, j))
    decreases j
  {
    hide Counter, Update, Accepts, NeedsRedefine;
    if i < j {
      CounterMonotone(nv, run, i, j - 1);
      CounterDropsExactly(After(nv, run, j - 1), run[j - 1].rev, run[j - 1].updateIo);
      assert !Forgets(After(nv, run, j - 1), run[j - 1]);
    }
  }

  /** Over any number of attempts the minimum never decreases, exactly when no
      attempt loses the index in a redefinition. */
  lemma RatchetExactly(nv: Index, run: seq<Attempt>)
    ensures (forall i, j :: 0 <= i <= j <= |run| ==> Counter(After(nv, run, i)) <= Counter(After(nv, run, j)))
       <==> NeverForgets(nv, run)
  {
    hide Counter, Update, Accepts, NeedsRedefine;
    if NeverForgets(nv, run) {
      forall i, j | 0 <= i <= j <= |run|
        ensures Counter(After(nv, run, i)) <= Counter(After(nv, run, j))
      {
        CounterMonotone(nv, run, i, j);
      }
    }
    if !NeverForgets(nv, run) {
      var i :| 0 <= i < |run| && Forgets(After(nv, run, i), run[i]);
      CounterDropsExactly(After(nv, run, i), run[i].rev, run[i].updateIo);
      NeedsPositive(After(nv, run, i), run[i].rev);
      assert After(nv, run, i + 1) == Step(After(nv, run, i), run[i]).0;
      assert Counter(After(nv, run, i)) > Counter(After(nv, run, i + 1));
    }
  }

  lemma NeedsPositive(nv: Index, rev: u64)
    requires NeedsRedefine(nv, rev)
    ensures rev > 0
  {
    hide RevOf, WithRev;
  }

  // ---- which attempts launch ----

  /** No attempt from `i` up to, not including, `j` forgets. */
  predicate Remembers(nv: Index, run: seq<Attempt>, i: nat, j: nat)
    requires j <= |run|
  {
    forall k :: i <= k < j ==> !Forgets(After(nv, run, k), run[k])
  }

  /** Revision `c` is not below anything the index still stands for: the minimum
      it started with and every revision recorded since it last forgot. */
  predicate NotBelow(nv: Index, run: seq<Attempt>, j: nat, c: nat)
    requires j <= |run|
  {
    && (Remembers(nv, run, 0, j) ==> Counter(nv) <= c)
    && forall i :: 0 <= i < j && Recorded(nv, run, i) && Remembers(nv, run, i + 1, j) ==> run[i].rev <= c
  }

  /** What one attempt does to the minimum. */
  lemma CounterStep(nv: Index, a: Attempt)
    ensures var launched := Accepts(nv, a.rev, a.rvMin, a.checkIo);
            var recorded := launched && Takes(nv, a.rev, a.updateIo);
            && (Forgets(nv, a) ==> !recorded)
            && Counter(Step(nv, a).0)
            == if Forgets(nv, a) then 0 else if recorded then Max(Counter(nv), a.rev) else Counter(nv)
  {
    hide RevOf, WithRev;
    UpdateEffect(nv, a.rev, a.updateIo);
    CounterDropsExactly(nv, a.rev, a.updateIo);
  }

  /** The stored minimum without the rolling state: it is the highest revision
      recorded since the index last forgot, or what it started with. */
  lemma {:induction false} CounterExactly(nv: Index, run: seq<Attempt>, j: nat, c: nat)
    requires j <= |run|
    ensures Counter(After(nv, run, j)) <= c <==> NotBelow(nv, run, j, c)
  {
    hide Counter, Update, Takes, Accepts, Forgets;
    if j > 0 {
      var here, a := After(nv, run, j - 1), run[j - 1];
      CounterExactly(nv, run, j - 1, c);
      CounterStep(here, a);
      assert Recorded(nv, run, j - 1) <==> Accepts(here, a.rev, a.rvMin, a.checkIo) && Takes(here, a.rev, a.updateIo);
      if Forgets(here, a) {
        assert forall i :: 0 <= i < j ==> !Remembers(nv, run, i, j);
      } else {
        assert forall i :: 0 <= i < j ==> (Remembers(nv, run, i, j) <==> Remembers(nv, run, i, j - 1));
        assert Remembers(nv, run, j, j);
      }
    }
  }

  predicate RvAllows(a: Attempt) { a.rvMin.Some? ==> a.rvMin.value <= a.rev }

  /** Exactly which attempts launch, in every run against every TPM: those not
      below the rendezvous minimum and, if the index can be read, not below
      anything it still stands for. */
  lemma LaunchExactly(nv: Index, run: seq<Attempt>, j: nat)
    requires j < |run|
    ensures Launched(nv, run, j) <==>
            RvAllows(run[j]) && (run[j].checkIo.readOk ==> NotBelow(nv, run, j, run[j].rev))
  {
    hide Counter, Update, NotBelow;
    CounterExactly(nv, run, j, run[j].rev);
  }

  /** Once a revision has been recorded, and as long as the index does not forget
      it, an older one is launched exactly when the index cannot be read and the
      rendezvous minimum, if any, lets it pass. */
  lemma RollbackExactly(nv: Index, run: seq<Attempt>, i: nat, j: nat)
    requires i < j < |run| && Recorded(nv, run, i) && Remembers(nv, run, i + 1, j)
    requires run[j].rev < run[i].rev
    ensures Launched(nv, run, j) <==> !run[j].checkIo.readOk && RvAllows(run[j])
  {
    hide Counter, Update, Launched, Recorded, RvAllows, Remembers;
    LaunchExactly(nv, run, j);
  }

  /** So nothing older is ever launched by an attempt that can read the index. */
  lemma NoRollback(nv: Index, run: seq<Attempt>, i: nat, j: nat)
    requires i < j < |run| && Recorded(nv, run, i) && Remembers(nv, run, i + 1, j)
    requires Launched(nv, run, j) && run[j].checkIo.readOk
    ensures run[i].rev <= run[j].rev
  {
    hide Counter, Update, Launched, Recorded, RvAllows, Remembers;
    if run[j].rev < run[i].rev { RollbackExactly(nv, run, i, j); }
  }

  /** Attempt `j` offers less than an earlier launch, cannot read the index and is
      not stopped by the rendezvous minimum. */
  predicate SlipsBelow(nv: Index, run: seq<Attempt>, i: nat, j: nat)
    requires i < j < |run|
  {
    Launched(nv, run, i) && run[j].rev < run[i].rev && !run[j].checkIo.readOk && RvAllows(run[j])
  }

  /** If every launch is recorded and the index never forgets, the launched
      revisions never go down, exactly when no attempt slips below an earlier
      launch with the index unreadable. */
  lemma LaunchesAscendExactly(nv: Index, run: seq<Attempt>)
    requires NeverForgets(nv, run)
    requires forall i :: 0 <= i < |run| && Launched(nv, run, i) ==> Recorded(nv, run, i)
    ensures (forall i, j ::
               0 <= i < j < |run| && Launched(nv, run, i) && Launched(nv, run, j) ==> run[i].rev <= run[j].rev)
       <==> (forall i, j :: 0 <= i < j < |run| ==> !SlipsBelow(nv, run, i, j))
  {
    hide Launched, Recorded, RvAllows, Forgets, After, Counter, Update;
    forall i, j | 0 <= i < j < |run| && Launched(nv, run, i) && run[j].rev < run[i].rev
      ensures Launched(nv, run, j) <==> SlipsBelow(nv, run, i, j)
    {
      RollbackExactly(nv, run, i, j);
    }
  }

  /** Both other hypotheses are needed: a lost redefinition forgets the minimum,
      and an unrecorded launch leaves the older minimum in force. */
  lemma RollbackAfterLoss(nv: Index, rev: u64)
    requires NeedsRedefine(nv, rev)
    ensures Update(nv, rev, Io(true, Lost)) == (None, false)
    ensures Accepts(None, 0, None, Io(true, Stored))
  {
    hide WithRev;
  }

  lemma RollbackAfterFailedWrite(nv: Index, rev: u64)
    requires Counter(nv) < rev
    ensures var run := [Attempt(rev, None, Io(true, Unchanged), Io(true, Unchanged)),
                        Attempt(Counter(nv) % TWO64, None, Io(true, Unchanged), Io(true, Unchanged))];
            Launched(nv, run, 0) && Launched(nv, run, 1) && run[1].rev < run[0].rev
  {
    hide RevOf, WithRev;
    var a := Attempt(rev, None, Io(true, Unchanged), Io(true, Unchanged));
    var b := Attempt(Counter(nv) % TWO64, None, Io(true, Unchanged), Io(true, Unchanged));
    assert Step(nv, a) == (nv, true);
    assert After(nv, [a, b], 0) == nv && After(nv, [a, b], 1) == nv;
  }
}
