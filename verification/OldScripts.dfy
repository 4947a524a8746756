/**
 Decoding into receivers that are not empty (msg_tx.go, msg_extended_tx.go): a decode
 that fails before the outputs are replaced gives the receiver's old output scripts to
 the pool as well. This module says exactly when that is safe.
 */
module OldScripts {
  import opened Bytes
  import opened Parsing
  import opened VarInts
  import opened Limits
  import opened Transactions
  import opened ExtendedTransactions
  import opened TxForms
  import opened Interleaving
  import opened PoolFlow
  import opened DecodeProgress
  import opened PoolSafety

  // No buffer is in two places, counting the old output scripts of the receivers, which
  // the application still refers to, against the pool.
  ghost predicate Separate(st: State, rs: seq<Receiver>) {
    && Exclusive(st)
    && forall i, k :: 0 <= i < |rs| && 0 <= k < |rs[i].stale| && rs[i].stale[k].Pooled? ==>
         rs[i].stale[k].id !in st.sh.pool
  }

  // Safe on every input and every schedule.
  ghost predicate ReceiversSafe(ebs: uint64, sh: Shared, rs: seq<Receiver>) {
    forall streams: seq<bytes>, schedule: seq<nat> :: |streams| == |rs| ==>
      Separate(Run(ebs, Launch(sh, streams, rs), schedule), rs)
  }

  // ---------- One decoder by itself ----------

  function Alone(ebs: uint64, d: Dec, sh: Shared, n: nat): (Dec, Shared) {
    if n == 0 then (d, sh) else var (d', sh') := Alone(ebs, d, sh, n - 1); StepDec(ebs, d', sh')
  }

  lemma {:induction false} AloneRun(ebs: uint64, st: State, i: nat, n: nat)
    requires i < |st.decs|
    ensures var (d, sh) := Alone(ebs, st.decs[i], st.sh, n);
            Run(ebs, st, Again(i, n)) == State(sh, st.decs[i := d])
  {
    hide StepDec;
    if n == 0 {
      assert Run(ebs, st, Again(i, 0)) == st;
    } else {
      AloneRun(ebs, st, i, n - 1);
      RunAgain(ebs, st, i, n - 1);
    }
  }

  lemma {:induction false} AloneThen(ebs: uint64, d: Dec, sh: Shared, n: nat, m: nat)
    ensures var (d', sh') := Alone(ebs, d, sh, n);
            Alone(ebs, d, sh, n + m) == Alone(ebs, d', sh', m)
  {
    hide StepDec;
    if m > 0 {
      AloneThen(ebs, d, sh, n, m - 1);
    }
  }

  lemma {:induction false} RunConcat(ebs: uint64, st: State, a: seq<nat>, b: seq<nat>)
    ensures Run(ebs, st, a + b) == Run(ebs, Run(ebs, st, a), b)
    decreases |b|
  {
    hide StepDec;
    if b == [] {
      assert a + b == a;
    } else {
      RunConcat(ebs, st, a, b[..|b| - 1]);
      assert (a + b)[..|a + b| - 1] == a + b[..|b| - 1];
    }
  }

  // Cells that are no buffers are given back without effect.
  lemma {:induction false} SkipsPrivate(ebs: uint64, d: Dec, sh: Shared, k: nat)
    requires d.phase.Unwind? && k <= |d.phase.cells| && Clean(d.phase.cells[..k])
    ensures Alone(ebs, d, sh, k) == (d.(phase := Unwind(d.phase.err, d.phase.cells[k..])), sh)
  {
    var cells := d.phase.cells;
    if k == 0 {
      assert cells[0..] == cells;
    } else {
      assert cells[..k][k - 1] == cells[k - 1];
      assert Clean(cells[..k - 1]) by {
        assert forall j :: 0 <= j < k - 1 ==> cells[..k - 1][j] == cells[..k][j];
      }
      SkipsPrivate(ebs, d, sh, k - 1);
      assert cells[k - 1..][1..] == cells[k..];
    }
  }

  // The first buffer among the cells goes into a pool with room.
  lemma FirstGoesBack(ebs: uint64, d: Dec, sh: Shared, k: nat)
    requires d.phase.Unwind? && k < |d.phase.cells| && Clean(d.phase.cells[..k])
    requires d.phase.cells[k].Pooled? && |sh.pool| < POOL_ITEMS
    ensures Alone(ebs, d, sh, k + 1).1.pool == sh.pool + [d.phase.cells[k].id]
  {
    SkipsPrivate(ebs, d, sh, k);
  }

  lemma {:induction false} FirstPooled(stale: seq<Cell>) returns (k: nat)
    requires !Clean(stale)
    ensures k < |stale| && stale[k].Pooled? && Clean(stale[..k])
    decreases |stale|
  {
    if stale[0].Pooled? {
      k := 0;
    } else {
      k := FirstPooled(stale[1..]);
      k := k + 1;
      assert forall j :: 1 <= j < k ==> stale[..k][j] == stale[1..][..k - 1][j - 1];
    }
  }

  // ---------- Messages that stop where the output count should be ----------

  function Head(ext: bool): bytes { Zeros(4) + (if ext then MARKER else []) }

  // Without inputs, and with one input all of whose bytes are zero.
  function CutMessage(ext: bool): bytes { Head(ext) + [0] }
  function OneInput(ext: bool): bytes { Head(ext) + [1] + Zeros(if ext then 50 else 41) }

  lemma ZeroVarInt(s: bytes, p: nat, n: byte)
    requires p < |s| && s[p] == n < 0xfd
    ensures TakeVarInt(s, p) == Ok(n, p + 1)
  {
    assert s[p..p + 1] == EncVarInt(n);
    TakeVarIntComplete(s, p, n);
  }

  lemma NothingThere(s: bytes)
    ensures TakeVarInt(s, |s|).Fail?
  {
  }

  lemma FixedFields(s: bytes, p: nat)
    ensures p + 4 <= |s| ==> TakeU32(s, p).Ok? && TakeU32(s, p).next == p + 4
    ensures p + 8 <= |s| ==> TakeU64(s, p).Ok? && TakeU64(s, p).next == p + 8
    ensures p + 36 <= |s| ==> TakeOutPoint(s, p).Ok? && TakeOutPoint(s, p).next == p + 36
  {
    hide FromLE;
  }

  lemma CountAfterHead(ebs: uint64, ext: bool, n: byte, rest: bytes)
    requires n <= 1
    ensures var s := Head(ext) + [n] + rest;
            TakeInputCount(ebs, ext, s) == Ok(n, |Head(ext)| + 1)
  {
    hide TakeU32, TakeMarker, TakeVarInt, MaxMessagePayload;
    var s := Head(ext) + [n] + rest;
    FixedFields(s, 0);
    ZeroVarInt(s, |Head(ext)|, n);
    if ext {
      assert s == Zeros(4) + MARKER + ([n] + rest);
      HasWhole(Zeros(4), MARKER, [n] + rest);
      TakeMarkerIff(s, 4, 10);
    }
  }

  lemma CutUnwinds(ebs: uint64, ext: bool, stale: seq<Cell>, sh: Shared)
    ensures var (d, sh') := Alone(ebs, Fresh(CutMessage(ext), ext, stale), sh, 2);
            d.phase.Unwind? && d.phase.cells == stale && d.spent == [] && sh' == sh
  {
    hide TakeU32, TakeInputCount, TakeVarInt, Head;
    var s, f := CutMessage(ext), Fresh(CutMessage(ext), ext, stale);
    assert s == Head(ext) + [0] + [];
    CountAfterHead(ebs, ext, 0, []);
    NothingThere(s);
    assert Alone(ebs, f, sh, 1) == StepDec(ebs, f, sh);
    assert InCells([]) + stale == stale;
  }

  // Two steps into a message with an input, a buffer is out on loan.
  lemma OneInputBorrows(ebs: uint64, ext: bool, stale: seq<Cell>, sh: Shared)
    requires sh.pool != []
    ensures var (d, sh') := Alone(ebs, Fresh(OneInput(ext), ext, stale), sh, 2);
            && sh'.pool == sh.pool[1..]
            && d.phase.FillIn? && d.phase.cell == Pooled(sh.pool[0], 0) && d.phase.n == 1 && d.pos == |Head(ext)| + 38
            && d == Fresh(OneInput(ext), ext, stale).(pos := d.pos, phase := d.phase, version := d.version)
  {
    hide TakeU32, TakeInputCount, TakeVarInt, TakeOutPoint, Head, MaxMessagePayload;
    var s, f := OneInput(ext), Fresh(OneInput(ext), ext, stale);
    var p := |Head(ext)| + 1;
    CountAfterHead(ebs, ext, 1, Zeros(if ext then 50 else 41));
    FixedFields(s, p);
    ZeroVarInt(s, p + 36, 0);
    assert Alone(ebs, f, sh, 1) == StepDec(ebs, f, sh);
  }

  // An empty script is read into its buffer without touching the pool.
  lemma EmptyScript(ebs: uint64, d: Dec, sh: Shared)
    requires (d.phase.FillIn? || d.phase.FillSpent?) && d.phase.cell.Pooled? && d.phase.cell.len == 0
    ensures var (d', sh') := StepDec(ebs, d, sh);
            && sh'.pool == sh.pool
            && (d.phase.FillIn? ==> d' == d.(phase := EndIn(d.phase.n, d.phase.op, d.phase.cell)))
            && (d.phase.FillSpent? ==>
                  d' == d.(phase := Inputs(d.phase.n), ins := d.ins + [d.phase.rec],
                           spent := d.spent + [SpentRec(d.phase.satoshis, d.phase.cell)]))
  {
  }

  // The sequence number, the amount and the length of the spent script are read.
  lemma ToSpentScript(ebs: uint64, d: Dec, sh: Shared)
    requires d.phase.EndIn? && d.ext && d.pos + 13 <= |d.stream| && d.stream[d.pos + 12] == 0 && sh.pool != []
    ensures var (a, sa) := StepDec(ebs, d, sh);
            var (b, sb) := StepDec(ebs, a, sa);
            && sb.pool == sh.pool[1..]
            && b.phase.FillSpent? && b.phase.n == d.phase.n && b.phase.cell == Pooled(sh.pool[0], 0)
            && b.phase.rec.cell == d.phase.cell
            && b == d.(pos := d.pos + 13, phase := b.phase)
  {
    hide TakeU32, TakeU64, TakeVarInt, MaxMessagePayload;
    FixedFields(d.stream, d.pos);
    FixedFields(d.stream, d.pos + 4);
    ZeroVarInt(d.stream, d.pos + 12, 0);
  }

  // Seven steps into the extended one, the buffer of the spent output is gone for good
  // and the failed decode is about to give back one buffer less than it took.
  lemma ExtendedKeepsOne(ebs: uint64, stale: seq<Cell>, sh: Shared)
    requires |sh.pool| >= 2
    ensures var (d, sh') := Alone(ebs, Fresh(OneInput(true), true, stale), sh, 7);
            && d.phase.Unwind? && d.phase.cells == [Pooled(sh.pool[0], 0)] + stale
            && sh'.pool == sh.pool[2..]
  {
    hide StepDec, Alone, TakeVarInt, Head;
    var s, f := OneInput(true), Fresh(OneInput(true), true, stale);
    OneInputBorrows(ebs, true, stale, sh);
    var (d2, sh2) := Alone(ebs, f, sh, 2);
    EmptyScript(ebs, d2, sh2);
    var (d3, sh3) := StepDec(ebs, d2, sh2);
    ToSpentScript(ebs, d3, sh3);
    var (d4, sh4) := StepDec(ebs, d3, sh3);
    var (d5, sh5) := StepDec(ebs, d4, sh4);
    EmptyScript(ebs, d5, sh5);
    var (d6, sh6) := StepDec(ebs, d5, sh5);
    EndsAfterInput(ebs, d6, sh6);
    AloneThen(ebs, f, sh, 2, 5);
    FiveSteps(ebs, d2, sh2);
  }

  lemma EndsAfterInput(ebs: uint64, d: Dec, sh: Shared)
    requires d.phase == Inputs(1) && |d.ins| == 1 && d.pos == |d.stream|
    ensures var (d', sh') := StepDec(ebs, d, sh);
            d'.phase.Unwind? && d'.phase.cells == [d.ins[0].cell] + d.stale && sh' == sh
  {
    hide TakeVarInt, MaxMessagePayload;
    NothingThere(d.stream);
    assert InCells(d.ins) == [d.ins[0].cell];
  }

  lemma FiveSteps(ebs: uint64, d: Dec, sh: Shared)
    ensures var (a, sa) := StepDec(ebs, d, sh);
            var (b, sb) := StepDec(ebs, a, sa);
            var (c, sc) := StepDec(ebs, b, sb);
            var (e, se) := StepDec(ebs, c, sc);
            Alone(ebs, d, sh, 5) == StepDec(ebs, e, se)
  {
    hide StepDec;
    assert Alone(ebs, d, sh, 1) == StepDec(ebs, d, sh);
    assert Alone(ebs, d, sh, 3) == StepDec(ebs, Alone(ebs, d, sh, 2).0, Alone(ebs, d, sh, 2).1);
  }

  // ---------- Old scripts that reach the pool ----------

  predicate FirstAt(stale: seq<Cell>, k: nat) { k < |stale| && stale[k].Pooled? && Clean(stale[..k]) }

  // With room in the pool a cut message is enough.
  lemma ReachesWithRoom(ebs: uint64, st: State, i: nat, ext: bool, stale: seq<Cell>, k: nat)
    requires i < |st.decs| && st.decs[i] == Fresh(CutMessage(ext), ext, stale)
    requires FirstAt(stale, k) && |st.sh.pool| < POOL_ITEMS
    ensures Run(ebs, st, Again(i, k + 3)).sh.pool == st.sh.pool + [stale[k].id]
  {
    hide StepDec, Run, CutMessage;
    AloneRun(ebs, st, i, k + 3);
    CutUnwinds(ebs, ext, stale, st.sh);
    AloneThen(ebs, st.decs[i], st.sh, 2, k + 1);
    FirstGoesBack(ebs, Alone(ebs, st.decs[i], st.sh, 2).0, st.sh, k);
  }

  // A second decoder can make room first.
  lemma ReachesAfterOther(ebs: uint64, st: State, i: nat, ext: bool, stale: seq<Cell>, k: nat, j: nat, other: Receiver)
    requires i < |st.decs| && st.decs[i] == Fresh(CutMessage(ext), ext, stale)
    requires j < |st.decs| && j != i && st.decs[j] == Fresh(OneInput(other.ext), other.ext, other.stale)
    requires FirstAt(stale, k) && |st.sh.pool| == POOL_ITEMS
    ensures stale[k].id in Run(ebs, st, Again(j, 2) + Again(i, k + 3)).sh.pool
  {
    hide StepDec, Run, Alone, CutMessage, OneInput;
    AloneRun(ebs, st, j, 2);
    OneInputBorrows(ebs, other.ext, other.stale, st.sh);
    RunConcat(ebs, st, Again(j, 2), Again(i, k + 3));
    var mid := Run(ebs, st, Again(j, 2));
    ReachesWithRoom(ebs, mid, i, ext, stale, k);
    assert (mid.sh.pool + [stale[k].id])[|mid.sh.pool|] == stale[k].id;
  }

  // An extended decoder makes room by itself: the buffer of a spent output stays out.
  lemma ReachesByItself(ebs: uint64, st: State, i: nat, stale: seq<Cell>, k: nat)
    requires i < |st.decs| && st.decs[i] == Fresh(OneInput(true), true, stale)
    requires FirstAt(stale, k) && |st.sh.pool| == POOL_ITEMS
    ensures stale[k].id in Run(ebs, st, Again(i, k + 9)).sh.pool
  {
    hide StepDec, Run, Alone, OneInput;
    AloneRun(ebs, st, i, k + 9);
    ExtendedKeepsOne(ebs, stale, st.sh);
    var (d, sh) := Alone(ebs, st.decs[i], st.sh, 7);
    var own := Pooled(st.sh.pool[0], 0);
    var (d', sh') := StepDec(ebs, d, sh);
    OwnGoesFirst(ebs, d, sh, own, stale);
    AloneThen(ebs, st.decs[i], st.sh, 7, k + 2);
    OneThen(ebs, d, sh, k + 1);
    FirstGoesBack(ebs, d', sh', k);
    assert (sh'.pool + [stale[k].id])[|sh'.pool|] == stale[k].id;
  }

  lemma OwnGoesFirst(ebs: uint64, d: Dec, sh: Shared, own: Cell, stale: seq<Cell>)
    requires d.phase.Unwind? && d.phase.cells == [own] + stale && own.Pooled? && |sh.pool| < POOL_ITEMS
    ensures StepDec(ebs, d, sh) == (d.(phase := Unwind(d.phase.err, stale)), sh.(pool := sh.pool + [own.id]))
  {
    assert d.phase.cells[1..] == stale;
  }

  lemma OneThen(ebs: uint64, d: Dec, sh: Shared, n: nat)
    ensures var (d', sh') := StepDec(ebs, d, sh);
            Alone(ebs, d, sh, n + 1) == Alone(ebs, d', sh', n)
  {
    hide StepDec;
    AloneThen(ebs, d, sh, 1, n);
    assert Alone(ebs, d, sh, 1) == StepDec(ebs, d, sh);
  }

  // Where an old script can be let in: the pool has room, someone else can make room, or
  // the decoder itself keeps a buffer.
  predicate LetsIn(sh: Shared, rs: seq<Receiver>, i: nat)
    requires i < |rs|
  {
    |sh.pool| < 12_500 || |rs| >= 2 || rs[i].ext
  }

  // Then there are streams and a schedule after which an old script with a 512-byte
  // capacity is in the pool while the application still refers to it.
  lemma StaleReachesPool(ebs: uint64, sh: Shared, rs: seq<Receiver>, i: nat)
    returns (streams: seq<bytes>, schedule: seq<nat>, k: nat)
    requires SharedOk(sh) && i < |rs| && !Clean(rs[i].stale) && LetsIn(sh, rs, i)
    ensures |streams| == |rs| && k < |rs[i].stale| && rs[i].stale[k].Pooled?
    ensures rs[i].stale[k].id in Run(ebs, Launch(sh, streams, rs), schedule).sh.pool
  {
    hide Run, CutMessage, OneInput;
    var stale := rs[i].stale;
    k := FirstPooled(stale);
    var cut := seq(|rs|, j requires 0 <= j < |rs| => CutMessage(rs[j].ext));
    if |sh.pool| < POOL_ITEMS {
      streams, schedule := cut, Again(i, k + 3);
      ReachesWithRoom(ebs, Launch(sh, streams, rs), i, rs[i].ext, stale, k);
      assert (sh.pool + [stale[k].id])[|sh.pool|] == stale[k].id;
    } else if |rs| >= 2 {
      var j := if i == 0 then 1 else 0;
      streams, schedule := cut[j := OneInput(rs[j].ext)], Again(j, 2) + Again(i, k + 3);
      ReachesAfterOther(ebs, Launch(sh, streams, rs), i, rs[i].ext, stale, k, j, rs[j]);
    } else {
      streams, schedule := cut[i := OneInput(true)], Again(i, k + 9);
      ReachesByItself(ebs, Launch(sh, streams, rs), i, stale, k);
    }
  }

  // ---------- A lone plain decoder on a full pool ----------

  // How often a schedule lets the only decoder move.
  function Moves(schedule: seq<nat>): nat {
    if schedule == [] then 0
    else Moves(schedule[..|schedule| - 1]) + (if schedule[|schedule| - 1] == 0 then 1 else 0)
  }

  lemma {:induction false} OnlyDecoder(ebs: uint64, d: Dec, sh: Shared, schedule: seq<nat>)
    ensures var (d', sh') := Alone(ebs, d, sh, Moves(schedule));
            Run(ebs, State(sh, [d]), schedule) == State(sh', [d'])
    decreases |schedule|
  {
    hide StepDec;
    if schedule != [] {
      OnlyDecoder(ebs, d, sh, schedule[..|schedule| - 1]);
    }
  }

  // The cells a decoder borrowed itself, while it gives cells back.
  function Own(e: Dec): seq<Cell> { if e.phase.Unwind? then e.phase.cells else [] }

  predicate BeforeOutputs(d: Dec) { d.phase.Start? || d.phase.Inputs? || d.phase.FillIn? || d.phase.EndIn? }

  // d does what e does on an empty receiver, and at the end gives the old scripts back.
  ghost predicate Follows(d: Dec, e: Dec, stale: seq<Cell>) {
    && !e.ext && e.stale == [] && e.spent == [] && d.spent == []
    && (|| (BeforeOutputs(e) && d == e.(stale := stale))
        || (AfterInputs(e) && d == e)
        || (d.phase.Failed? && e.phase.Failed?)
        || (d.phase.Unwind? && (e.phase.Unwind? || e.phase.Failed?) && d.phase.err == e.phase.err
            && exists j: nat :: OwnThenStale(d.phase.cells, Own(e), stale, j)))
  }

  predicate OwnThenStale(cells: seq<Cell>, own: seq<Cell>, stale: seq<Cell>, j: nat) {
    j <= |stale| && cells == own + stale[j..]
  }

  lemma NextGivenBack(cells: seq<Cell>, own: seq<Cell>, stale: seq<Cell>, j: nat)
    requires OwnThenStale(cells, own, stale, j)
    ensures own != [] ==> cells != [] && cells[0] == own[0] && OwnThenStale(cells[1..], own[1..], stale, j)
    ensures own == [] && cells != [] ==> j < |stale| && OwnThenStale(cells[1..], [], stale, j + 1)
  {
    if own != [] {
      assert cells[1..] == own[1..] + stale[j..];
    } else if cells != [] {
      assert cells[1..] == [] + stale[j + 1..];
    }
  }

  // Having given back all it borrowed, the decoder faces a full pool.
  predicate FullAtTheEnd(e: Dec, sh: Shared) {
    (e.phase.Unwind? && e.phase.cells == []) || e.phase.Failed? ==> |sh.pool| >= POOL_ITEMS
  }

  lemma AbortFollows(d: Dec, e: Dec, stale: seq<Cell>, err: Error, own: seq<Cell>)
    requires d.spent == [] && e.spent == [] && !e.ext && e.stale == []
    ensures Follows(Abort(d, err, own + stale), Abort(e, err, own), stale)
  {
    assert stale[0..] == stale;
    assert OwnThenStale(Abort(d, err, own + stale).phase.cells, Own(Abort(e, err, own)), stale, 0);
  }

  lemma FollowsBefore(ebs: uint64, d: Dec, e: Dec, stale: seq<Cell>, sh: Shared)
    requires Follows(d, e, stale) && BeforeOutputs(e) && d == e.(stale := stale)
    ensures var (d', sd) := StepDec(ebs, d, sh);
            var (e', se) := StepDec(ebs, e, sh);
            sd == se && Follows(d', e', stale)
  {
    hide TakeInputCount, TakeU32, TakeU64, TakeVarInt, TakeOutPoint, TakeN, MaxTxInPerMessage, MaxTxOutPerMessage;
    hide Borrow, Write, InCells;
    var cells := InCells(e.ins);
    var e' := StepDec(ebs, e, sh).0;
    assert cells + [] == cells;
    if e'.phase.Unwind? {
      match e.phase {
        case Inputs(_) => AbortFollows(d, e, stale, e'.phase.err, cells);
        case FillIn(_, _, c) =>
          assert [c] + (cells + stale) == [c] + cells + stale && [c] + (cells + []) == [c] + cells;
          AbortFollows(d, e, stale, e'.phase.err, [c] + cells);
        case EndIn(_, _, c) =>
          assert cells + [c] + [] == cells + [c];
          AbortFollows(d, e, stale, e'.phase.err, cells + [c]);
      }
    }
  }

  lemma FollowsUnwind(ebs: uint64, d: Dec, e: Dec, stale: seq<Cell>, sh: Shared)
    requires Follows(d, e, stale) && FullAtTheEnd(e, sh)
    requires d.phase.Unwind? && (e.phase.Unwind? || e.phase.Failed?) && d.phase.err == e.phase.err
    requires exists j: nat :: OwnThenStale(d.phase.cells, Own(e), stale, j)
    ensures var (d', sd) := StepDec(ebs, d, sh);
            var (e', se) := StepDec(ebs, e, sh);
            sd == se && Follows(d', e', stale)
  {
    hide OwnThenStale;
    var j: nat :| OwnThenStale(d.phase.cells, Own(e), stale, j);
    NextGivenBack(d.phase.cells, Own(e), stale, j);
    var d', e' := StepDec(ebs, d, sh).0, StepDec(ebs, e, sh).0;
    if Own(e) != [] {
      assert OwnThenStale(d'.phase.cells, Own(e'), stale, j);
    } else if d.phase.cells != [] {
      assert OwnThenStale(d'.phase.cells, Own(e'), stale, j + 1);
    }
  }

  lemma FollowsStep(ebs: uint64, d: Dec, e: Dec, stale: seq<Cell>, sh: Shared)
    requires Follows(d, e, stale) && FullAtTheEnd(e, sh) && ShapeOk(e)
    ensures var (d', sd) := StepDec(ebs, d, sh);
            var (e', se) := StepDec(ebs, e, sh);
            sd == se && Follows(d', e', stale)
  {
    if BeforeOutputs(e) && d == e.(stale := stale) {
      FollowsBefore(ebs, d, e, stale, sh);
    } else if d.phase.Unwind? && d != e {
      FollowsUnwind(ebs, d, e, stale, sh);
    } else if d == e {
      StaysAfterInputs(ebs, e, sh);
    }
  }

  predicate AfterInputs(d: Dec) { !BeforeOutputs(d) && !d.phase.Spent? && !d.phase.FillSpent? }

  // Once the inputs are behind, nothing brings them or the old scripts back.
  lemma StaysAfterInputs(ebs: uint64, e: Dec, sh: Shared)
    requires AfterInputs(e)
    ensures var e' := StepDec(ebs, e, sh).0;
            AfterInputs(e') && e'.ext == e.ext && e'.stale == e.stale && e'.spent == e.spent
  {
    hide TakeU32, TakeU64, TakeVarInt, TakeN, MaxMessagePayload, Borrow, Write, Content, Built, InCells, OutCells;
  }

  // ---------- The full pool stays full enough ----------

  // The pool and the buffers the decoder holds are together at least what the pool takes.
  predicate Full(e: Dec, sh: Shared) { |sh.pool| + |CellIds(Held(e))| >= POOL_ITEMS }

  function Single(e: Dec, sh: Shared): State { State(sh, [e]) }

  lemma SingleStep(ebs: uint64, e: Dec, sh: Shared)
    ensures Step(ebs, Single(e, sh), 0) == Single(StepDec(ebs, e, sh).0, StepDec(ebs, e, sh).1)
  {
    hide StepDec;
  }

  lemma SingleIds(e: Dec, sh: Shared, id: nat)
    ensures AllIds(Single(e, sh))[id] == multiset(sh.pool)[id] + CellIds(Held(e))[id]
  {
    hide CellIds, Held;
    assert [e][0] == e && [e][1..] == [];
    assert SumIds([e]) == CellIds(Held(e)) + SumIds([]);
  }

  lemma {:induction false} SameCount(a: multiset<nat>, b: multiset<nat>)
    requires forall id: nat :: a[id] == b[id]
    ensures |a| == |b|
    decreases |a|
  {
    if a == multiset{} {
      assert forall id: nat :: id !in b;
      assert b == multiset{};
    } else {
      var id: nat :| id in a;
      SameCount(a - multiset{id}, b - multiset{id});
    }
  }

  lemma FlowKeepsFull(e: Dec, sh: Shared, e': Dec, sh': Shared)
    requires Flow(e, sh, e', sh') && Full(e, sh)
    ensures Full(e', sh')
  {
    hide CellIds, Held;
    if !(MayDrop(e, sh) && sh'.pool == sh.pool) {
      var extra: multiset<nat> := if sh.made < sh'.made then multiset{sh.made} else multiset{};
      assert forall id: nat :: Places(e', sh', id) == Places(e, sh, id) + extra[id];
      SameCount(multiset(sh'.pool) + CellIds(Held(e')), multiset(sh.pool) + CellIds(Held(e)) + extra);
    }
  }

  lemma EmptyHandedFull(e: Dec, sh: Shared)
    requires Full(e, sh) && e.spent == []
    ensures FullAtTheEnd(e, sh)
  {
    if (e.phase.Unwind? && e.phase.cells == []) || e.phase.Failed? {
      assert Held(e) == [];
    }
  }

  // No step brings an old buffer back that is nowhere.
  lemma FlowBringsNothing(ebs: uint64, e: Dec, sh: Shared, id: nat)
    requires Ready(e, sh) && id < sh.made
    ensures var (e', sh') := StepDec(ebs, e, sh);
            AllIds(Single(e', sh'))[id] <= AllIds(Single(e, sh))[id]
  {
    hide StepDec, CellIds, Held, AllIds, SharedOk, Known, Clean, ShapeOk;
    var (e', sh') := StepDec(ebs, e, sh);
    StepFlow(ebs, e, sh);
    SingleIds(e, sh, id);
    SingleIds(e', sh', id);
    assert Places(e', sh', id) <= Places(e, sh, id);
  }

  lemma {:induction false} LoneFollows(ebs: uint64, d: Dec, e: Dec, stale: seq<Cell>, sh: Shared, n: nat)
    requires Follows(d, e, stale) && Inv(ebs, Single(e, sh)) && Full(e, sh)
    ensures var (d', sd) := Alone(ebs, d, sh, n);
            var (e', se) := Alone(ebs, e, sh, n);
            && sd == se && Follows(d', e', stale) && Inv(ebs, Single(e', se)) && Full(e', se) && sh.made <= se.made
            && forall id: nat :: id < sh.made ==> AllIds(Single(e', se))[id] <= AllIds(Single(e, sh))[id]
  {
    hide StepDec, Follows, Inv, Full, AllIds;
    if n > 0 {
      LoneFollows(ebs, d, e, stale, sh, n - 1);
      var (d1, s1) := Alone(ebs, d, sh, n - 1);
      var e1 := Alone(ebs, e, sh, n - 1).0;
      OneFollows(ebs, d1, e1, stale, s1);
    }
  }

  lemma OneFollows(ebs: uint64, d: Dec, e: Dec, stale: seq<Cell>, sh: Shared)
    requires Follows(d, e, stale) && Inv(ebs, Single(e, sh)) && Full(e, sh)
    ensures var (d', sd) := StepDec(ebs, d, sh);
            var (e', se) := StepDec(ebs, e, sh);
            && sd == se && Follows(d', e', stale) && Inv(ebs, Single(e', se)) && Full(e', se) && sh.made <= se.made
            && forall id: nat :: id < sh.made ==> AllIds(Single(e', se))[id] <= AllIds(Single(e, sh))[id]
  {
    hide StepDec, Full, AllIds, Good, SharedOk, Known, Exclusive, Clean, Flow, FullAtTheEnd;
    var st := Single(e, sh);
    var (e', se) := StepDec(ebs, e, sh);
    assert st.decs[0] == e;
    SingleStep(ebs, e, sh);
    StepInv(ebs, st, 0);
    StepMade(ebs, st, 0);
    StepFlow(ebs, e, sh);
    FlowKeepsFull(e, sh, e', se);
    EmptyHandedFull(e, sh);
    FollowsStep(ebs, d, e, stale, sh);
    forall id: nat | id < sh.made
      ensures AllIds(Single(e', se))[id] <= AllIds(st)[id]
    {
      FlowBringsNothing(ebs, e, sh, id);
    }
  }

  // The old scripts exist, each is in one place, and none is in the pool.
  ghost predicate StaleApart(sh: Shared, stale: seq<Cell>) {
    forall id: nat ::
      && multiset(sh.pool)[id] + CellIds(stale)[id] <= 1
      && (id in CellIds(stale) ==> id < sh.made)
  }

  lemma SuffixIds(stale: seq<Cell>, j: nat, id: nat)
    requires j <= |stale|
    ensures CellIds(stale[j..])[id] <= CellIds(stale)[id]
  {
    hide CellIds;
    CellIdsConcat(stale[..j], stale[j..]);
    assert stale[..j] + stale[j..] == stale;
  }

  // What d holds is what e holds and at most the old scripts.
  lemma FollowsHolds(d: Dec, e: Dec, stale: seq<Cell>, id: nat)
    requires Follows(d, e, stale)
    ensures CellIds(Held(d))[id] <= CellIds(Held(e))[id] + CellIds(stale)[id]
  {
    hide CellIds, InCells, OutCells;
    if d.phase.Unwind? && d != e {
      var j: nat :| OwnThenStale(d.phase.cells, Own(e), stale, j);
      CellIdsConcat(Own(e), stale[j..]);
      SuffixIds(stale, j, id);
      assert Held(d) == Own(e) + stale[j..] && Held(e) == Own(e);
    } else {
      assert Held(d) == Held(e);
    }
  }

  lemma FollowsSeparate(ebs: uint64, sh0: Shared, d: Dec, e: Dec, stale: seq<Cell>, sh: Shared)
    requires Follows(d, e, stale) && Inv(ebs, Single(e, sh)) && sh0.made <= sh.made && StaleApart(sh0, stale)
    requires forall id: nat :: id < sh0.made ==> AllIds(Single(e, sh))[id] <= multiset(sh0.pool)[id]
    ensures Separate(Single(d, sh), [Receiver(false, stale)])
  {
    hide CellIds, Held, Follows, AllIds, Good, Ready, SharedOk;
    forall id: nat
      ensures AllIds(Single(d, sh))[id] <= 1 && (id in AllIds(Single(d, sh)) ==> id < sh.made)
    {
      SingleIds(d, sh, id);
      SingleIds(e, sh, id);
      FollowsHolds(d, e, stale, id);
    }
    forall k | 0 <= k < |stale| && stale[k].Pooled?
      ensures stale[k].id !in sh.pool
    {
      CellIdsMember(stale, k);
      SingleIds(e, sh, stale[k].id);
      assert multiset(sh.pool)[stale[k].id] == 0;
    }
  }

  // On a full pool a lone plain decoder lets no old script in.
  lemma LonePlainSafe(ebs: uint64, sh: Shared, stream: bytes, stale: seq<Cell>, schedule: seq<nat>)
    requires PoolOk(sh) && |sh.pool| >= POOL_ITEMS && StaleApart(sh, stale)
    ensures Separate(Run(ebs, Launch(sh, [stream], [Receiver(false, stale)]), schedule), [Receiver(false, stale)])
  {
    hide StepDec, Run, Alone, Inv, AllIds, SharedOk, StaleApart, Separate;
    var d, e := Fresh(stream, false, stale), Fresh(stream, false, []);
    var n := Moves(schedule);
    assert Launch(sh, [stream], [Receiver(false, stale)]) == State(sh, [d]);
    OnlyDecoder(ebs, d, sh, schedule);
    assert Launch(sh, [stream], [Receiver(false, [])]) == Single(e, sh);
    LaunchInv(ebs, sh, [stream], [Receiver(false, [])]);
    LoneFollows(ebs, d, e, stale, sh, n);
    var (d', sh') := Alone(ebs, d, sh, n);
    forall id: nat
      ensures AllIds(Single(e, sh))[id] == multiset(sh.pool)[id]
    {
      SingleIds(e, sh, id);
      FreshHoldNothing();
    }
    FollowsSeparate(ebs, sh, d', Alone(ebs, e, sh, n).0, stale, sh');
  }

  // Old scripts that are not apart from the start are in two places once a decode fails.
  lemma NotApartFails(ebs: uint64, sh: Shared, stale: seq<Cell>)
    requires !StaleApart(sh, stale)
    ensures !Exclusive(Run(ebs, Launch(sh, [CutMessage(false)], [Receiver(false, stale)]), Again(0, 2)))
  {
    hide StepDec, Run, Alone, AllIds, CutMessage, CellIds;
    var d := Fresh(CutMessage(false), false, stale);
    var st := Launch(sh, [CutMessage(false)], [Receiver(false, stale)]);
    assert st == State(sh, [d]);
    AloneRun(ebs, st, 0, 2);
    CutUnwinds(ebs, false, stale, sh);
    var d' := Alone(ebs, d, sh, 2).0;
    assert Run(ebs, st, Again(0, 2)) == Single(d', sh);
    assert Held(d') == stale;
    var id: nat :| multiset(sh.pool)[id] + CellIds(stale)[id] > 1 || (id in CellIds(stale) && id >= sh.made);
    SingleIds(d', sh, id);
  }

  // ---------- Exactly when decoding into receivers is safe ----------

  predicate AllClean(rs: seq<Receiver>) { forall i :: 0 <= i < |rs| ==> Clean(rs[i].stale) }

  // Safe on every input and every schedule, whatever is in the pool: none of the old
  // output scripts has the capacity of a pool buffer, or there is one plain receiver, the
  // pool is full, and its old scripts are apart from the pool and from one another.
  lemma ReceiversExact(ebs: uint64, sh: Shared, rs: seq<Receiver>)
    requires PoolOk(sh)
    ensures ReceiversSafe(ebs, sh, rs)
       <==> || AllClean(rs)
            || (|sh.pool| >= 12_500 && |rs| == 1 && !rs[0].ext && StaleApart(sh, rs[0].stale))
  {
    hide Run, SharedOk, Exclusive, StaleApart;
    if AllClean(rs) {
      CleanSafe(ebs, sh, rs);
    } else {
      var i :| 0 <= i < |rs| && !Clean(rs[i].stale);
      if LetsIn(sh, rs, i) {
        var streams, schedule, k := StaleReachesPool(ebs, sh, rs, i);
        assert !Separate(Run(ebs, Launch(sh, streams, rs), schedule), rs);
      } else if StaleApart(sh, rs[0].stale) {
        OnePlainSafe(ebs, sh, rs);
      } else {
        assert rs == [Receiver(false, rs[0].stale)];
        NotApartFails(ebs, sh, rs[0].stale);
        assert !Separate(Run(ebs, Launch(sh, [CutMessage(false)], rs), Again(0, 2)), rs);
      }
    }
  }

  lemma CleanSafe(ebs: uint64, sh: Shared, rs: seq<Receiver>)
    requires PoolOk(sh) && AllClean(rs)
    ensures ReceiversSafe(ebs, sh, rs)
  {
    hide Run, SharedOk, Exclusive, OwnResult, Conserved, BackOrSpent;
    forall streams: seq<bytes>, schedule: seq<nat> | |streams| == |rs|
      ensures Separate(Run(ebs, Launch(sh, streams, rs), schedule), rs)
    {
      PoolSafe(ebs, sh, streams, rs, schedule);
    }
  }

  lemma OnePlainSafe(ebs: uint64, sh: Shared, rs: seq<Receiver>)
    requires PoolOk(sh) && |sh.pool| >= POOL_ITEMS && |rs| == 1 && !rs[0].ext && StaleApart(sh, rs[0].stale)
    ensures ReceiversSafe(ebs, sh, rs)
  {
    hide Run, SharedOk, Separate, StaleApart;
    var stale := rs[0].stale;
    assert rs == [Receiver(false, stale)];
    forall streams: seq<bytes>, schedule: seq<nat> | |streams| == |rs|
      ensures Separate(Run(ebs, Launch(sh, streams, rs), schedule), rs)
    {
      assert streams == [streams[0]];
      LonePlainSafe(ebs, sh, streams[0], stale, schedule);
    }
  }
}
