/**
 What every schedule of decoders sharing the script pool keeps (msg_tx.go,
 msg_extended_tx.go), in any mix of plain and extended ones: buffers are never in two
 places, none is dropped while the pool has room, and every decoder ends with what the
 parser makes of its own stream.
 */
module PoolSafety {
  import opened Bytes
  import opened Parsing
  import opened VarInts
  import opened Limits
  import opened Transactions
  import opened TxForms
  import opened Interleaving
  import opened PoolFlow
  import opened DecodeProgress

  // ---------- The invariant ----------

  ghost predicate Inv(ebs: uint64, st: State) {
    && SharedOk(st.sh) && Exclusive(st)
    && forall i :: 0 <= i < |st.decs| ==> Ready(st.decs[i], st.sh) && Good(ebs, st.decs[i], st.sh.mem)
  }

  // Every buffer made so far is somewhere.
  ghost predicate Conserved(st: State) { forall id: nat :: id < st.sh.made ==> AllIds(st)[id] == 1 }

  // What the stepping decoder and the pool do is all that happens to the counts.
  lemma StepCounts(ebs: uint64, st: State, i: nat)
    requires i < |st.decs|
    ensures var st' := Step(ebs, st, i);
            && |st'.decs| == |st.decs|
            && forall id: nat ::
                 AllIds(st')[id] + Places(st.decs[i], st.sh, id) == AllIds(st)[id] + Places(st'.decs[i], st'.sh, id)
  {
    hide CellIds, Held, StepDec, SumIds;
    SumIdsUpdate(st.decs, i, StepDec(ebs, st.decs[i], st.sh).0);
  }

  lemma StepExclusive(ebs: uint64, st: State, i: nat)
    requires Inv(ebs, st) && i < |st.decs|
    ensures Exclusive(Step(ebs, st, i))
  {
    hide AllIds, Places, StepDec, SharedOk, Good, Ready, MayDrop;
    StepDecFlow(ebs, st, i);
    StepCounts(ebs, st, i);
    var st' := Step(ebs, st, i);
    forall id: nat
      ensures AllIds(st')[id] <= 1 && (id in AllIds(st') ==> id < st'.sh.made)
    {
      assert AllIds(st')[id] <= AllIds(st)[id] + (if id == st.sh.made < st'.sh.made then 1 else 0);
    }
  }

  lemma StepDecFlow(ebs: uint64, st: State, i: nat)
    requires Inv(ebs, st) && i < |st.decs|
    ensures Stepped(st.decs[i], st.sh, Step(ebs, st, i).decs[i], Step(ebs, st, i).sh)
  {
    hide StepDec, SharedOk, Good, Ready, Exclusive, Stepped;
    StepFlow(ebs, st.decs[i], st.sh);
  }

  // No buffer is held twice by one decoder, or by two.
  lemma HeldOnce(st: State, i: nat)
    requires Exclusive(st) && i < |st.decs|
    ensures forall id: nat :: CellIds(Held(st.decs[i]))[id] <= 1
    ensures forall j, id: nat :: 0 <= j < |st.decs| && j != i && id in CellIds(Held(st.decs[j])) ==>
              id !in CellIds(Held(st.decs[i]))
  {
    hide CellIds, Held, SumIds;
    SumIdsMember(st.decs, i);
    assert forall id: nat :: CellIds(Held(st.decs[i]))[id] <= AllIds(st)[id];
    forall j, id: nat | 0 <= j < |st.decs| && j != i && id in CellIds(Held(st.decs[j]))
      ensures id !in CellIds(Held(st.decs[i]))
    {
      SumIdsPair(st.decs, if i < j then i else j, if i < j then j else i);
      assert CellIds(Held(st.decs[i]))[id] + CellIds(Held(st.decs[j]))[id] <= SumIds(st.decs)[id] <= AllIds(st)[id];
    }
  }

  // A step leaves what the other decoders hold alone.
  lemma OthersKept(ebs: uint64, st: State, i: nat, j: nat)
    requires Inv(ebs, st) && i < |st.decs| && j < |st.decs| && j != i
    ensures var st' := Step(ebs, st, i);
            && st'.decs[j] == st.decs[j] && Ready(st.decs[j], st'.sh) && Good(ebs, st.decs[j], st'.sh.mem)
  {
    hide StepDec, CellIds, Held, Good, AllIds, Flow, Clean, ShapeOk;
    StepDecFlow(ebs, st, i);
    HeldOnce(st, i);
    var st' := Step(ebs, st, i);
    var cs := Held(st.decs[j]);
    forall k | 0 <= k < |cs|
      ensures Content(st'.sh.mem, cs[k]) == Content(st.sh.mem, cs[k])
    {
      if cs[k].Pooled? {
        CellIdsMember(cs, k);
      }
    }
    GoodKept(ebs, st.decs[j], st.sh.mem, st'.sh.mem);
    MadeGrows(st.decs[i], st.sh, st'.decs[i], st'.sh);
  }

  lemma MadeGrows(d: Dec, sh: Shared, d': Dec, sh': Shared)
    requires Flow(d, sh, d', sh')
    ensures sh.made <= sh'.made
  {
  }

  lemma StepInv(ebs: uint64, st: State, i: nat)
    requires Inv(ebs, st) && i < |st.decs|
    ensures Inv(ebs, Step(ebs, st, i))
  {
    hide StepDec, CellIds, Good, AllIds, Exclusive, Flow, SharedOk, Known;
    var st' := Step(ebs, st, i);
    StepExclusive(ebs, st, i);
    StepDecFlow(ebs, st, i);
    HeldOnce(st, i);
    StepGood(ebs, st.decs[i], st.sh);
    forall j | 0 <= j < |st.decs|
      ensures Ready(st'.decs[j], st'.sh) && Good(ebs, st'.decs[j], st'.sh.mem)
    {
      if j != i {
        OthersKept(ebs, st, i, j);
      }
    }
  }

  // ---------- Conservation ----------

  // At most n buffers below n, if none counts twice.
  lemma {:induction false} Pigeonhole(m: multiset<nat>, n: nat)
    requires forall id: nat :: m[id] <= 1 && (id in m ==> id < n)
    ensures |m| <= n
  {
    if n == 0 {
      assert m == multiset{};
    } else {
      var rest := m[n - 1 := 0];
      Pigeonhole(rest, n - 1);
      assert m == rest + (if n - 1 in m then multiset{n - 1} else multiset{});
    }
  }

  // A full pool leaves no buffer to hold, unless more were made than the pool takes.
  lemma NoDrop(ebs: uint64, st: State, i: nat)
    requires Inv(ebs, st) && i < |st.decs| && st.sh.made <= POOL_ITEMS
    ensures !MayDrop(st.decs[i], st.sh)
  {
    hide CellIds, Held, SumIds, Good, Ready, SharedOk;
    if MayDrop(st.decs[i], st.sh) {
      var id: nat :| id in CellIds(Held(st.decs[i]));
      SumIdsMember(st.decs, i);
      var m := multiset(st.sh.pool) + multiset{id};
      assert forall x: nat :: m[x] <= AllIds(st)[x];
      Pigeonhole(m, st.sh.made);
      assert false;
    }
  }

  lemma StepConserves(ebs: uint64, st: State, i: nat)
    requires Inv(ebs, st) && Conserved(st) && i < |st.decs| && st.sh.made <= POOL_ITEMS
    ensures Conserved(Step(ebs, st, i))
  {
    hide AllIds, Places, StepDec, SharedOk, Good, Ready, MayDrop;
    NoDrop(ebs, st, i);
    StepDecFlow(ebs, st, i);
    StepCounts(ebs, st, i);
    var st' := Step(ebs, st, i);
    forall id: nat | id < st'.sh.made
      ensures AllIds(st')[id] == 1
    {
      assert AllIds(st')[id] == AllIds(st)[id] + (if id == st.sh.made < st'.sh.made then 1 else 0);
    }
  }

  // ---------- Every schedule ----------

  lemma {:induction false} RunInv(ebs: uint64, st: State, schedule: seq<nat>)
    requires Inv(ebs, st)
    ensures var st' := Run(ebs, st, schedule);
            && Inv(ebs, st') && |st'.decs| == |st.decs| && st.sh.made <= st'.sh.made
            && (Conserved(st) && st'.sh.made <= POOL_ITEMS ==> Conserved(st'))
    decreases |schedule|
  {
    hide Inv, Conserved, StepDec;
    if schedule != [] {
      var last := schedule[|schedule| - 1];
      var before := Run(ebs, st, schedule[..|schedule| - 1]);
      RunInv(ebs, st, schedule[..|schedule| - 1]);
      if last < |before.decs| {
        StepInv(ebs, before, last);
        StepMade(ebs, before, last);
        if Conserved(before) && before.sh.made <= POOL_ITEMS {
          StepConserves(ebs, before, last);
        }
      }
    }
  }

  lemma StepMade(ebs: uint64, st: State, i: nat)
    requires Inv(ebs, st) && i < |st.decs|
    ensures st.sh.made <= Step(ebs, st, i).sh.made
  {
    hide StepDec, SharedOk, Good, Ready, Exclusive, Flow;
    StepDecFlow(ebs, st, i);
    MadeGrows(st.decs[i], st.sh, Step(ebs, st, i).decs[i], Step(ebs, st, i).sh);
  }

  // ---------- From fresh decoders ----------

  // The pool between decodes: no buffer in it twice.
  ghost predicate PoolOk(sh: Shared) { SharedOk(sh) && forall id: nat :: multiset(sh.pool)[id] <= 1 }

  // A message type to decode and the old output scripts of the receiver.
  datatype Receiver = Receiver(ext: bool, stale: seq<Cell>)

  // One decoder per stream, each on its receiver.
  function Launch(sh: Shared, streams: seq<bytes>, rs: seq<Receiver>): State
    requires |streams| == |rs|
  {
    State(sh, seq(|streams|, i requires 0 <= i < |streams| => Fresh(streams[i], rs[i].ext, rs[i].stale)))
  }

  lemma {:induction false} NoneHeld(decs: seq<Dec>)
    requires forall i :: 0 <= i < |decs| ==> Held(decs[i]) == []
    ensures SumIds(decs) == multiset{}
  {
    if decs != [] {
      NoneHeld(decs[1..]);
    }
  }

  lemma LaunchInv(ebs: uint64, sh: Shared, streams: seq<bytes>, rs: seq<Receiver>)
    requires PoolOk(sh) && |streams| == |rs| && forall i :: 0 <= i < |rs| ==> Clean(rs[i].stale)
    ensures Inv(ebs, Launch(sh, streams, rs))
    ensures SumIds(Launch(sh, streams, rs).decs) == multiset{}
  {
    hide SharedOk, Clean, Held, Ready, Good;
    var st := Launch(sh, streams, rs);
    forall i | 0 <= i < |rs|
      ensures Held(st.decs[i]) == [] && Ready(st.decs[i], sh) && Good(ebs, st.decs[i], sh.mem)
    {
      FreshReady(ebs, sh, streams[i], rs[i].ext, rs[i].stale);
    }
    NoneHeld(st.decs);
    PoolIds(sh);
  }

  lemma FreshReady(ebs: uint64, sh: Shared, stream: bytes, ext: bool, stale: seq<Cell>)
    requires SharedOk(sh) && Clean(stale)
    ensures var d := Fresh(stream, ext, stale); Held(d) == [] && Ready(d, sh) && Good(ebs, d, sh.mem)
  {
    hide SharedOk, Clean;
  }

  lemma FreshHoldNothing()
    ensures forall s, ext, stale :: Held(Fresh(s, ext, stale)) == []
  {
  }

  lemma PoolIds(sh: Shared)
    requires SharedOk(sh)
    ensures forall id: nat :: id in multiset(sh.pool) ==> id < sh.made
  {
  }

  // The outcome of one decoder, whatever the others do, in its own fields and in the
  // buffers it keeps.
  ghost predicate OwnResult(ebs: uint64, stream: bytes, ext: bool, d: Dec, mem: map<nat, bytes>) {
    var spec, spent := TakeMessage(ebs, ext, stream), SpentVals(mem, d.spent);
    && (d.phase.Done? ==> spec.Ok? && spec.value == AnyTx(d.phase.tx, spent))
    && (d.phase.Failed? ==> spec.Fail? && spec.err == d.phase.err && SpentKept(ebs, ext, stream, spent))
  }

  predicate Finished(d: Dec) { d.phase.Done? || d.phase.Failed? }

  // Every buffer made so far is in the pool, once.
  ghost predicate AllBack(sh: Shared) { forall id: nat :: id < sh.made ==> multiset(sh.pool)[id] == 1 }

  // The buffers that hold scripts of spent outputs.
  function SpentIds(decs: seq<Dec>): multiset<nat> {
    if decs == [] then multiset{} else CellIds(SpentCells(decs[0].spent)) + SpentIds(decs[1..])
  }

  // Every buffer made so far is in the pool, once, or holds the script of one spent output.
  ghost predicate BackOrSpent(st: State) {
    forall id: nat :: id < st.sh.made ==> multiset(st.sh.pool)[id] + SpentIds(st.decs)[id] == 1
  }

  // Over every schedule of any mix of plain and extended decoders with receivers that hold
  // no old 512-byte output script: no buffer is ever in two places. A decoder that is done
  // has the transaction the parser reads from its own stream, spent outputs included for as
  // long as it lives, and one that failed has the parser's error. As long as no more buffers
  // were made than the pool takes, every buffer is somewhere, and when all decoders are
  // finished each is back in the pool unless it holds the script of a spent output.
  lemma PoolSafe(ebs: uint64, sh: Shared, streams: seq<bytes>, rs: seq<Receiver>, schedule: seq<nat>)
    requires PoolOk(sh) && |streams| == |rs| && forall i :: 0 <= i < |rs| ==> Clean(rs[i].stale)
    ensures var st := Run(ebs, Launch(sh, streams, rs), schedule);
            && |st.decs| == |streams| && Exclusive(st)
            && (forall i :: 0 <= i < |streams| ==> OwnResult(ebs, streams[i], rs[i].ext, st.decs[i], st.sh.mem))
            && (AllBack(sh) && st.sh.made <= 12_500 ==>
                  && Conserved(st)
                  && ((forall i :: 0 <= i < |st.decs| ==> Finished(st.decs[i])) ==> BackOrSpent(st)))
  {
    hide Run, SharedOk, AllIds, Good, Ready, OwnResult, Conserved, AllBack, BackOrSpent, Exclusive, Clean, SumIds;
    var start := Launch(sh, streams, rs);
    LaunchInv(ebs, sh, streams, rs);
    RunInv(ebs, start, schedule);
    RunStreams(ebs, start, schedule);
    var st := Run(ebs, start, schedule);
    forall i | 0 <= i < |streams|
      ensures OwnResult(ebs, streams[i], rs[i].ext, st.decs[i], st.sh.mem)
    {
      GoodResult(ebs, st.decs[i], st.sh.mem);
    }
    IdleConserved(start);
    if forall i :: 0 <= i < |st.decs| ==> Finished(st.decs[i]) {
      FinishedConserved(st);
    }
  }

  // With plain decoders only, all buffers are back when all are finished.
  lemma PlainAllBack(ebs: uint64, sh: Shared, streams: seq<bytes>, rs: seq<Receiver>, schedule: seq<nat>)
    requires PoolOk(sh) && |streams| == |rs| && forall i :: 0 <= i < |rs| ==> Clean(rs[i].stale) && !rs[i].ext
    requires AllBack(sh)
    ensures var st := Run(ebs, Launch(sh, streams, rs), schedule);
            st.sh.made <= 12_500 && (forall i :: 0 <= i < |st.decs| ==> Finished(st.decs[i])) ==> AllBack(st.sh)
  {
    hide Run, SharedOk, AllIds, Conserved, AllBack, Exclusive, Clean, TakeMessage, SpentKept, TakeInputCount, CellIds;
    PoolSafe(ebs, sh, streams, rs, schedule);
    var st := Run(ebs, Launch(sh, streams, rs), schedule);
    if forall i :: 0 <= i < |st.decs| ==> Finished(st.decs[i]) {
      forall i | 0 <= i < |st.decs|
        ensures st.decs[i].spent == []
      {
        PlainSpendsNothing(ebs, streams[i], st.decs[i], st.sh.mem);
      }
      NoneSpent(st.decs);
      if st.sh.made <= POOL_ITEMS {
        SpentNoneBack(st);
      }
    }
  }

  lemma PlainSpendsNothing(ebs: uint64, stream: bytes, d: Dec, mem: map<nat, bytes>)
    requires OwnResult(ebs, stream, false, d, mem) && Finished(d)
    ensures d.spent == []
  {
    hide TakeTx, TakeInputCount, Content;
    assert |SpentVals(mem, d.spent)| == |d.spent|;
  }

  lemma {:induction false} NoneSpent(decs: seq<Dec>)
    requires forall i :: 0 <= i < |decs| ==> decs[i].spent == []
    ensures SpentIds(decs) == multiset{}
  {
    if decs != [] {
      NoneSpent(decs[1..]);
      assert SpentCells([]) == [];
    }
  }

  lemma SpentNoneBack(st: State)
    requires BackOrSpent(st) && SpentIds(st.decs) == multiset{}
    ensures AllBack(st.sh)
  {
  }

  lemma GoodResult(ebs: uint64, d: Dec, mem: map<nat, bytes>)
    requires Good(ebs, d, mem)
    ensures OwnResult(ebs, d.stream, d.ext, d, mem)
  {
    hide TakeMessage, SpentKept, SpentVals;
  }

  lemma IdleConserved(st: State)
    requires SumIds(st.decs) == multiset{}
    ensures Conserved(st) <==> AllBack(st.sh)
  {
    assert forall id: nat :: AllIds(st)[id] == multiset(st.sh.pool)[id];
  }

  lemma FinishedConserved(st: State)
    requires forall i :: 0 <= i < |st.decs| ==> Finished(st.decs[i])
    ensures Conserved(st) <==> BackOrSpent(st)
  {
    hide SumIds, SpentIds;
    FinishedHoldSpent(st.decs);
    assert forall id: nat :: AllIds(st)[id] == multiset(st.sh.pool)[id] + SpentIds(st.decs)[id];
  }

  lemma {:induction false} FinishedHoldSpent(decs: seq<Dec>)
    requires forall i :: 0 <= i < |decs| ==> Finished(decs[i])
    ensures SumIds(decs) == SpentIds(decs)
  {
    hide CellIds, SpentCells;
    if decs != [] {
      FinishedHoldSpent(decs[1..]);
      assert Finished(decs[0]);
      assert [] + SpentCells(decs[0].spent) == SpentCells(decs[0].spent);
    }
  }

  lemma {:induction false} RunStreams(ebs: uint64, st: State, schedule: seq<nat>)
    ensures var st' := Run(ebs, st, schedule);
            && |st'.decs| == |st.decs|
            && forall i :: 0 <= i < |st.decs| ==>
                 st'.decs[i].stream == st.decs[i].stream && st'.decs[i].ext == st.decs[i].ext
    decreases |schedule|
  {
    hide StepDec;
    if schedule != [] {
      var last := schedule[|schedule| - 1];
      var before := Run(ebs, st, schedule[..|schedule| - 1]);
      RunStreams(ebs, st, schedule[..|schedule| - 1]);
      if last < |before.decs| {
        StepStream(ebs, before.decs[last], before.sh);
      }
    }
  }

  lemma StepStream(ebs: uint64, d: Dec, sh: Shared)
    ensures StepDec(ebs, d, sh).0.stream == d.stream && StepDec(ebs, d, sh).0.ext == d.ext
  {
    hide TakeInputCount, TakeU32, TakeU64, TakeVarInt, TakeOutPoint, TakeN, Borrow, Write, Content, Built;
    hide InCells, OutCells;
  }

  // ---------- No decoder waits for another ----------

  // Stages still to come, records left in the stage, and steps left in the record.
  function Stage(d: Dec): nat {
    match d.phase
    case Start => 6
    case Inputs(_) => 5
    case FillIn(_, _, _) => 5
    case EndIn(_, _, _) => 5
    case Spent(_, _) => 5
    case FillSpent(_, _, _, _) => 5
    case Outputs(_) => 4
    case FillOut(_, _, _) => 4
    case Lock => 3
    case Copy(_, _) => 2
    case GiveBack(_, _) => 2
    case Unwind(_, _) => 1
    case Done(_) => 0
    case Failed(_) => 0
  }

  function Less(a: nat, b: nat): nat { if b <= a then a - b else 0 }

  function Records(d: Dec): nat {
    match d.phase
    case Inputs(n) => Less(n, |d.ins|)
    case FillIn(n, _, _) => Less(n, |d.ins|)
    case EndIn(n, _, _) => Less(n, |d.ins|)
    case Spent(n, _) => Less(n, |d.ins|)
    case FillSpent(n, _, _, _) => Less(n, |d.ins|)
    case Outputs(m) => Less(m, |d.outs|)
    case FillOut(m, _, _) => Less(m, |d.outs|)
    case Copy(k, _) => Less(|Cells(d)|, k)
    case GiveBack(k, _) => Less(|Cells(d)|, k)
    case Unwind(_, cells) => |cells|
    case _ => 0
  }

  function Substeps(d: Dec): nat {
    if d.phase.Inputs? || d.phase.Outputs? || d.phase.Copy? then 4
    else if d.phase.FillIn? || d.phase.FillOut? then 3
    else if d.phase.EndIn? then 2
    else if d.phase.Spent? then 1
    else 0
  }

  predicate Closer(d: Dec, d': Dec) {
    || Stage(d') < Stage(d)
    || (Stage(d') == Stage(d) && Records(d') < Records(d))
    || (Stage(d') == Stage(d) && Records(d') == Records(d) && Substeps(d') < Substeps(d))
  }

  lemma StepCloser(ebs: uint64, d: Dec, sh: Shared)
    requires ShapeOk(d) && Good(ebs, d, sh.mem) && !Finished(d)
    ensures Closer(d, StepDec(ebs, d, sh).0)
  {
    hide TakeInputCount, TakeU32, TakeU64, TakeVarInt, TakeOutPoint, TakeN, MaxTxInPerMessage;
    hide MaxTxOutPerMessage, MaxMessagePayload;
    hide Borrow, Write, Return, Content, Good, InCells, OutCells;
    LeftToDo(ebs, d, sh.mem);
  }

  // A record being read is one of those announced, and every script moved belongs to one.
  lemma LeftToDo(ebs: uint64, d: Dec, mem: map<nat, bytes>)
    requires Good(ebs, d, mem)
    ensures d.phase.EndIn? || d.phase.FillSpent? ==> |d.ins| < d.phase.n
    ensures d.phase.FillOut? ==> |d.outs| < d.phase.m
    ensures d.phase.Copy? && d.phase.k >= |Cells(d)| ==> |d.phase.moved| == |d.ins| + |d.outs|
  {
    hide TakeMessage, Content, InsRead, OutsRead, InCells, OutCells, Scripts;
    if d.phase.Copy? {
      BuiltIs(d, TakeMessage(ebs, d.ext, d.stream).value.tx);
    }
  }

  function Again(i: nat, n: nat): seq<nat> { seq(n, _ => i) }

  lemma RunAgain(ebs: uint64, st: State, i: nat, n: nat)
    requires i < |Run(ebs, st, Again(i, n)).decs|
    ensures Run(ebs, st, Again(i, n + 1)) == Step(ebs, Run(ebs, st, Again(i, n)), i)
  {
    hide StepDec;
    assert Again(i, n + 1)[..n] == Again(i, n);
  }

  lemma {:induction false} RunFirst(ebs: uint64, st: State, i: nat, n: nat)
    requires i < |st.decs|
    ensures Run(ebs, st, Again(i, n + 1)) == Run(ebs, Step(ebs, st, i), Again(i, n))
  {
    hide StepDec;
    var st' := Step(ebs, st, i);
    RunStreams(ebs, st, Again(i, n));
    RunAgain(ebs, st, i, n);
    if n == 0 {
      assert Run(ebs, st, Again(i, 0)) == st && Run(ebs, st', Again(i, 0)) == st';
    } else {
      RunStreams(ebs, st', Again(i, n - 1));
      RunAgain(ebs, st', i, n - 1);
      RunFirst(ebs, st, i, n - 1);
    }
  }

  // From every reachable state every decoder finishes by its own steps alone.
  lemma {:induction false} FinishesAlone(ebs: uint64, st: State, i: nat) returns (n: nat)
    requires Inv(ebs, st) && i < |st.decs|
    ensures |Run(ebs, st, Again(i, n)).decs| == |st.decs| && Finished(Run(ebs, st, Again(i, n)).decs[i])
    decreases Stage(st.decs[i]), Records(st.decs[i]), Substeps(st.decs[i])
  {
    hide StepDec, Good, ShapeOk, SharedOk, Exclusive, Stage, Records, Substeps;
    n := 0;
    if !Finished(st.decs[i]) {
      StepInv(ebs, st, i);
      StepCloser(ebs, st.decs[i], st.sh);
      n := FinishesAlone(ebs, Step(ebs, st, i), i);
      RunFirst(ebs, st, i, n);
      n := n + 1;
    }
  }
}
