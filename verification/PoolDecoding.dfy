/**
 Decoding a single transaction through the script pool (bsvdecode in msg_tx.go):
 scripts are read into borrowed buffers, then moved into one contiguous buffer
 while the borrowed ones are handed back.
 */
module PoolDecoding {
  import opened Bytes
  import opened Parsing
  import opened VarInts
  import opened Repetition
  import opened Limits
  import opened Transactions
  import opened Streams
  import opened Memory
  import opened Arenas
  import opened TxMemory
  import opened ScriptPools
  import opened ArenaDecoding

  // ---------- The scripts of a message, in order ----------

  function InScripts(ms: seq<MemTxIn>): seq<Slice> {
    seq(|ms|, i requires 0 <= i < |ms| => ms[i].signatureScript)
  }

  function OutScripts(ms: seq<MemTxOut>): seq<Slice> {
    seq(|ms|, i requires 0 <= i < |ms| => ms[i].pkScript)
  }

  function InBytes(vs: seq<TxIn>): seq<bytes> {
    seq(|vs|, i requires 0 <= i < |vs| => vs[i].signatureScript)
  }

  function OutBytes(vs: seq<TxOut>): seq<bytes> {
    seq(|vs|, i requires 0 <= i < |vs| => vs[i].pkScript)
  }

  // The slices that are not nil: those whose buffer is still on loan.
  ghost function NonNil(ss: seq<Slice>): seq<Slice> {
    if ss == [] then []
    else if ss[0].Nil? then NonNil(ss[1..])
    else [ss[0]] + NonNil(ss[1..])
  }

  lemma {:induction false} NonNilAll(ss: seq<Slice>)
    requires forall i :: 0 <= i < |ss| ==> ss[i].Slice?
    ensures NonNil(ss) == ss
  {
    if ss != [] {
      NonNilAll(ss[1..]);
    }
  }

  lemma {:induction false} NonNilConcat(a: seq<Slice>, b: seq<Slice>)
    ensures NonNil(a + b) == NonNil(a) + NonNil(b)
  {
    if a == [] {
      assert a + b == b;
    } else {
      NonNilConcat(a[1..], b);
      assert (a + b)[1..] == a[1..] + b && (a + b)[0] == a[0];
    }
  }

  // returnScriptBuffers for one list of records: what is not nil is handed to the pool.
  // Every buffer that was borrowed goes back, and slices foreign to the pool are ignored.
  method ReturnAll(
    pool: Pool, ss: seq<Slice>,
    ghost base: map<Slice, bytes>, ghost rest: seq<Slice>, ghost foreign: bool, ghost ok: bool)
    requires ok ==>
      && pool.Valid() && OnLoan(base, pool.lent, if foreign then rest else NonNil(ss) + rest)
      && (foreign ==> Foreign(pool.lent, ss))
    modifies pool
    ensures ok ==> pool.Valid() && OnLoan(base, pool.lent, rest)
    ensures pool.free == Returned(old(pool.free), ss)
    ensures pool.repr == old(pool.repr)
  {
    hide Pool.Valid, OnLoan;
    for i := 0 to |ss|
      invariant ok ==> pool.Valid() && OnLoan(base, pool.lent, if foreign then rest else NonNil(ss[i..]) + rest)
      invariant ok && foreign ==> pool.lent == old(pool.lent)
      invariant pool.free == Returned(old(pool.free), ss[..i])
      invariant pool.repr == old(pool.repr)
    {
      ghost var held := NonNil(ss[i..]) + rest;
      assert ss[i..][1..] == ss[i + 1..];
      assert ss[..i + 1][..i] == ss[..i];
      if ss[i].Slice? {
        if ok && foreign {
          assert pool.lent - {ss[i]} == pool.lent;
        } else if ok {
          HeldOnLoan(base, pool.lent, held);
          FirstReturned(base, pool.lent, held);
          assert held[0] == ss[i] && held[1..] == NonNil(ss[i + 1..]) + rest;
        }
        pool.Return(ss[i]);
      }
    }
    assert NonNil(ss[|ss|..]) + rest == rest;
    assert ss[..|ss|] == ss;
  }

  lemma HeldOnLoan(base: map<Slice, bytes>, lent: map<Slice, bytes>, held: seq<Slice>)
    requires OnLoan(base, lent, held)
    ensures forall i :: 0 <= i < |held| ==> held[i] in lent
  {
  }

  // ---------- Concatenated scripts ----------

  function Same(b: bytes): bytes { b }

  function Concat(xs: seq<bytes>): bytes { EncMany(Same, xs) }

  lemma ConcatAppend(xs: seq<bytes>, x: bytes)
    ensures Concat(xs + [x]) == Concat(xs) + x
  {
    EncManyAppend(Same, xs, x);
  }

  // ---------- Reading into borrowed buffers ----------

  // Between two states at most the buffer s was borrowed.
  ghost predicate Added(before: map<Slice, bytes>, after: map<Slice, bytes>, s: Slice) {
    if s.Nil? then after == before
    else s !in before && s in after && after == before[s := after[s]]
  }

  lemma AddedOnLoan(
    base: map<Slice, bytes>, before: map<Slice, bytes>, after: map<Slice, bytes>, ss: seq<Slice>, s: Slice)
    requires OnLoan(base, before, NonNil(ss))
    requires Added(before, after, s)
    ensures OnLoan(base, after, NonNil(ss + [s]))
    ensures Extends(after, before)
  {
    hide OnLoan;
    NonNilConcat(ss, [s]);
    if s.Nil? {
      assert NonNil([s]) == [];
      assert NonNil(ss) + [] == NonNil(ss);
    } else {
      assert NonNil([s]) == [s];
      OneMoreHeld(base, before, NonNil(ss), s, after[s]);
    }
  }

  // The record holds the value and its script is in a borrowed buffer.
  ghost predicate InBorrowed(lent: map<Slice, bytes>, m: MemTxIn, v: TxIn) {
    InHolds(lent, m, v) && m.signatureScript.Slice? && m.signatureScript.len == |v.signatureScript|
  }

  ghost predicate OutBorrowed(lent: map<Slice, bytes>, m: MemTxOut, v: TxOut) {
    OutHolds(lent, m, v) && m.pkScript.Slice? && m.pkScript.len == |v.pkScript|
  }

  ghost predicate InsBorrowed(lent: map<Slice, bytes>, ms: seq<MemTxIn>, vs: seq<TxIn>) {
    |ms| == |vs| && forall i :: 0 <= i < |ms| ==> InBorrowed(lent, ms[i], vs[i])
  }

  ghost predicate OutsBorrowed(lent: map<Slice, bytes>, ms: seq<MemTxOut>, vs: seq<TxOut>) {
    |ms| == |vs| && forall i :: 0 <= i < |ms| ==> OutBorrowed(lent, ms[i], vs[i])
  }

  lemma InsBorrowedStep(
    before: map<Slice, bytes>, after: map<Slice, bytes>, ms: seq<MemTxIn>, vs: seq<TxIn>, m: MemTxIn, v: TxIn)
    requires Extends(after, before) && InsBorrowed(before, ms, vs)
    ensures InsBorrowed(after, ms, vs)
    ensures InBorrowed(after, m, v) ==> InsBorrowed(after, ms + [m], vs + [v])
  {
    forall i | 0 <= i < |ms|
      ensures InBorrowed(after, ms[i], vs[i])
    {
      assert InBorrowed(before, ms[i], vs[i]);
    }
  }

  lemma OutsBorrowedStep(
    before: map<Slice, bytes>, after: map<Slice, bytes>, ms: seq<MemTxOut>, vs: seq<TxOut>, m: MemTxOut, v: TxOut)
    requires Extends(after, before) && OutsBorrowed(before, ms, vs)
    ensures OutsBorrowed(after, ms, vs)
    ensures OutBorrowed(after, m, v) ==> OutsBorrowed(after, ms + [m], vs + [v])
  {
    forall i | 0 <= i < |ms|
      ensures OutBorrowed(after, ms[i], vs[i])
    {
      assert OutBorrowed(before, ms[i], vs[i]);
    }
  }

  lemma InScriptsAppend(ms: seq<MemTxIn>, vs: seq<TxIn>, m: MemTxIn, v: TxIn)
    ensures InScripts(ms + [m]) == InScripts(ms) + [m.signatureScript]
    ensures InBytes(vs + [v]) == InBytes(vs) + [v.signatureScript]
    ensures Concat(InBytes(vs + [v])) == Concat(InBytes(vs)) + v.signatureScript
  {
    ConcatAppend(InBytes(vs), v.signatureScript);
  }

  lemma OutScriptsAppend(ms: seq<MemTxOut>, vs: seq<TxOut>, m: MemTxOut, v: TxOut)
    ensures OutScripts(ms + [m]) == OutScripts(ms) + [m.pkScript]
    ensures OutBytes(vs + [v]) == OutBytes(vs) + [v.pkScript]
    ensures Concat(OutBytes(vs + [v])) == Concat(OutBytes(vs)) + v.pkScript
  {
    ConcatAppend(OutBytes(vs), v.pkScript);
  }

  method ReadTxIn(src: Source, pool: Pool, ebs: uint64) returns (m: MemTxIn, err: Outcome)
    requires pool.Valid() && src.Valid()
    modifies src, src.base, pool, pool.repr
    ensures pool.Valid() && src.Valid()
    ensures old(pool.repr) <= pool.repr && fresh(pool.repr - old(pool.repr))
    ensures Added(old(pool.lent), pool.lent, m.signatureScript)
    ensures var spec := TakeTxIn(ebs, src.View(), old(src.base.pos));
            && err == spec.Outcome() && src.base.pos == spec.next
            && (err.Success? ==> InBorrowed(pool.lent, m, spec.value))
  {
    hide TakeOutPoint, TakeVarBytes, TakeU32, MaxTxInPerMessage, Pool.Valid;
    m := MemTxIn(OutPoint(Zeros(32), 0), Nil, 0);
    var o := ReadOutPoint(src);
    if o.Fail? {
      return m, Failure(o.err);
    }
    m := m.(previousOutPoint := o.value);
    var s;
    s, err := ScriptPools.ReadScript(src, pool, MaxTxInPerMessage(ebs));
    m := m.(signatureScript := s);
    if err.Failure? {
      return;
    }
    var n := ReadU32(src);
    if n.Fail? {
      return m, Failure(n.err);
    }
    m := m.(sequence := n.value);
  }

  method ReadTxOut(src: Source, pool: Pool, ebs: uint64) returns (m: MemTxOut, err: Outcome)
    requires pool.Valid() && src.Valid()
    modifies src, src.base, pool, pool.repr
    ensures pool.Valid() && src.Valid()
    ensures old(pool.repr) <= pool.repr && fresh(pool.repr - old(pool.repr))
    ensures Added(old(pool.lent), pool.lent, m.pkScript)
    ensures var spec := TakeTxOut(ebs, src.View(), old(src.base.pos));
            && err == spec.Outcome() && src.base.pos == spec.next
            && (err.Success? ==> OutBorrowed(pool.lent, m, spec.value))
  {
    hide TakeVarBytes, TakeU64, MaxMessagePayload, Pool.Valid;
    m := MemTxOut(0, Nil);
    var v := ReadU64(src);
    if v.Fail? {
      return m, Failure(v.err);
    }
    m := m.(value := AsInt64(v.value));
    var s;
    s, err := ScriptPools.ReadScript(src, pool, MaxMessagePayload(ebs));
    m := m.(pkScript := s);
  }

  method ReadTxIns(msg: MsgTx, src: Source, pool: Pool, ebs: uint64, count: uint64) returns (err: Outcome, total: nat)
    requires pool.Valid() && src.Valid()
    modifies msg`txIn, src, src.base, pool, pool.repr
    ensures pool.Valid() && src.Valid()
    ensures old(pool.repr) <= pool.repr && fresh(pool.repr - old(pool.repr))
    ensures OnLoan(old(pool.lent), pool.lent, NonNil(InScripts(msg.txIn)))
    ensures var spec := TakeTxIns(ebs, src.View(), old(src.base.pos), count);
            && err == spec.Outcome() && src.base.pos == spec.next
            && (err.Success? ==>
                  InsBorrowed(pool.lent, msg.txIn, spec.value) && total == |Concat(InBytes(spec.value))|)
  {
    hide TakeTxIn, TakeTxIns, Pool.Valid, OnLoan, Concat, InsBorrowed, InBorrowed, InScripts, InBytes, Added;
    ghost var vals: seq<TxIn> := [];
    msg.txIn := [];
    total := 0;
    NoIns(pool.lent);
    for i := 0 to count
      invariant pool.Valid() && src.Valid()
      invariant old(pool.repr) <= pool.repr && fresh(pool.repr - old(pool.repr))
      invariant OnLoan(old(pool.lent), pool.lent, NonNil(InScripts(msg.txIn)))
      invariant TakeTxIns(ebs, src.View(), old(src.base.pos), i) == Ok(vals, src.base.pos)
      invariant InsBorrowed(pool.lent, msg.txIn, vals)
      invariant total == |Concat(InBytes(vals))|
    {
      ghost var before, spec := pool.lent, TakeTxIn(ebs, src.View(), src.base.pos);
      TakeTxInsStep(ebs, src.View(), old(src.base.pos), i, count);
      var m;
      m, err := ReadTxIn(src, pool, ebs);
      AddedOnLoan(old(pool.lent), before, pool.lent, InScripts(msg.txIn), m.signatureScript);
      InScriptsAppend(msg.txIn, vals, m, TxIn(m.previousOutPoint, [], 0));
      if err.Failure? {
        msg.txIn := msg.txIn + [m];
        return;
      }
      InsBorrowedStep(before, pool.lent, msg.txIn, vals, m, spec.value);
      InScriptsAppend(msg.txIn, vals, m, spec.value);
      BorrowedLength(pool.lent, m, spec.value);
      msg.txIn := msg.txIn + [m];
      vals := vals + [spec.value];
      total := total + m.signatureScript.Len();
    }
    err := Success;
  }

  lemma NoIns(lent: map<Slice, bytes>)
    ensures OnLoan(lent, lent, NonNil(InScripts([])))
    ensures InsBorrowed(lent, [], []) && Concat(InBytes([])) == []
  {
    NothingHeld(lent, lent);
  }

  lemma BorrowedLength(lent: map<Slice, bytes>, m: MemTxIn, v: TxIn)
    requires InBorrowed(lent, m, v)
    ensures m.signatureScript.Len() == |v.signatureScript|
  {
  }

  lemma NoOuts(lent: map<Slice, bytes>)
    ensures OutScripts([]) == [] && OutsBorrowed(lent, [], []) && Concat(OutBytes([])) == []
  {
  }

  lemma OutBorrowedLength(lent: map<Slice, bytes>, m: MemTxOut, v: TxOut)
    requires OutBorrowed(lent, m, v)
    ensures m.pkScript.Len() == |v.pkScript|
  {
  }

  // ins are the input scripts, already on loan when the outputs are read.
  method ReadTxOuts(
    msg: MsgTx, src: Source, pool: Pool, ebs: uint64, count: uint64,
    ghost base: map<Slice, bytes>, ghost ins: seq<Slice>)
    returns (err: Outcome, total: nat)
    requires pool.Valid() && src.Valid()
    requires OnLoan(base, pool.lent, NonNil(ins))
    modifies msg`txOut, src, src.base, pool, pool.repr
    ensures pool.Valid() && src.Valid()
    ensures old(pool.repr) <= pool.repr && fresh(pool.repr - old(pool.repr))
    ensures OnLoan(base, pool.lent, NonNil(ins + OutScripts(msg.txOut)))
    ensures Extends(pool.lent, old(pool.lent))
    ensures var spec := TakeTxOuts(ebs, src.View(), old(src.base.pos), count);
            && err == spec.Outcome() && src.base.pos == spec.next
            && (err.Success? ==>
                  OutsBorrowed(pool.lent, msg.txOut, spec.value) && total == |Concat(OutBytes(spec.value))|)
  {
    hide TakeTxOut, TakeTxOuts, Pool.Valid, OnLoan, Concat, OutsBorrowed, OutBorrowed, OutScripts, OutBytes, Added;
    ghost var vals: seq<TxOut> := [];
    msg.txOut := [];
    total := 0;
    NoOuts(pool.lent);
    assert ins + OutScripts(msg.txOut) == ins;
    for i := 0 to count
      invariant pool.Valid() && src.Valid()
      invariant old(pool.repr) <= pool.repr && fresh(pool.repr - old(pool.repr))
      invariant OnLoan(base, pool.lent, NonNil(ins + OutScripts(msg.txOut)))
      invariant Extends(pool.lent, old(pool.lent))
      invariant TakeTxOuts(ebs, src.View(), old(src.base.pos), i) == Ok(vals, src.base.pos)
      invariant OutsBorrowed(pool.lent, msg.txOut, vals)
      invariant total == |Concat(OutBytes(vals))|
    {
      ghost var before, spec := pool.lent, TakeTxOut(ebs, src.View(), src.base.pos);
      TakeTxOutsStep(ebs, src.View(), old(src.base.pos), i, count);
      var m;
      m, err := ReadTxOut(src, pool, ebs);
      AddedOnLoan(base, before, pool.lent, ins + OutScripts(msg.txOut), m.pkScript);
      OutScriptsAppend(msg.txOut, vals, m, TxOut(0, []));
      assert ins + OutScripts(msg.txOut) + [m.pkScript] == ins + (OutScripts(msg.txOut) + [m.pkScript]);
      if err.Failure? {
        msg.txOut := msg.txOut + [m];
        return;
      }
      OutsBorrowedStep(before, pool.lent, msg.txOut, vals, m, spec.value);
      OutScriptsAppend(msg.txOut, vals, m, spec.value);
      OutBorrowedLength(pool.lent, m, spec.value);
      msg.txOut := msg.txOut + [m];
      vals := vals + [spec.value];
      total := total + m.pkScript.Len();
    }
    err := Success;
  }

  // ---------- Consolidation ----------

  // The slices cut the array, one after another, into the pieces vals; capacity
  // equals length.
  ghost predicate Packed(ss: seq<Slice>, a: array<byte>, vals: seq<bytes>) {
    |ss| == |vals| && forall i :: 0 <= i < |ss| ==>
      ss[i] == Slice(a, |Concat(vals[..i])|, |vals[i]|, |vals[i]|)
  }

  // The borrowed buffers bufs hold vals.
  ghost predicate BuffersHold(lent: map<Slice, bytes>, bufs: seq<Slice>, vals: seq<bytes>) {
    |bufs| == |vals| && forall i :: 0 <= i < |bufs| ==>
      bufs[i].Slice? && bufs[i].len == |vals[i]| && bufs[i] in lent && lent[bufs[i]] == vals[i]
  }

  lemma PackedAppend(ss: seq<Slice>, a: array<byte>, vals: seq<bytes>, v: bytes)
    requires Packed(ss, a, vals)
    ensures Packed(ss + [Slice(a, |Concat(vals)|, |v|, |v|)], a, vals + [v])
  {
    assert (vals + [v])[..|vals|] == vals;
    assert forall i :: 0 <= i < |vals| ==> (vals + [v])[..i] == vals[..i];
  }

  lemma ConcatPrefix(vals: seq<bytes>, k: nat)
    requires k < |vals|
    ensures Concat(vals[..k + 1]) == Concat(vals[..k]) + vals[k]
    ensures |Concat(vals[..k + 1])| <= |Concat(vals)|
  {
    ConcatAppend(vals[..k], vals[k]);
    assert vals[..k + 1] == vals[..k] + [vals[k]];
    EncManySplit(Same, vals, k + 1);
  }

  // One step of the consolidating loops: copy, re-slice, hand the buffer back.
  method MoveScript(
    pool: Pool, scripts: array<byte>, offset: nat, buf: Slice,
    ghost base: map<Slice, bytes>, ghost rest: seq<Slice>, ghost vals: seq<bytes>, ghost k: nat)
    returns (s: Slice, end: nat)
    requires pool.Valid() && scripts !in pool.repr
    requires OnLoan(base, pool.lent, [buf] + rest)
    requires k < |vals| && scripts.Length == |Concat(vals)|
    requires BuffersHold(pool.lent, [buf] + rest, vals[k..])
    requires offset == |Concat(vals[..k])| <= scripts.Length && scripts[..offset] == Concat(vals[..k])
    modifies pool, scripts
    ensures pool.Valid() && pool.repr == old(pool.repr)
    ensures OnLoan(base, pool.lent, rest)
    ensures BuffersHold(pool.lent, rest, vals[k + 1..])
    ensures s == Slice(scripts, offset, |vals[k]|, |vals[k]|)
    ensures end == |Concat(vals[..k + 1])| <= scripts.Length && scripts[..end] == Concat(vals[..k + 1])
  {
    hide Concat;
    ConcatPrefix(vals, k);
    ghost var held := [buf] + rest;
    assert held[0] == buf && held[1..] == rest;
    BufferContents(pool, buf, vals[k]);
    var n := buf.len;
    forall i | 0 <= i < n {
      scripts[offset + i] := buf.arr[buf.off + i];
    }
    end := offset + n;
    assert scripts[..end] == Concat(vals[..k]) + vals[k];
    s := Slice(scripts, offset, n, n);
    FirstReturned(base, pool.lent, held);
    RestHold(base, pool.lent, held, vals[k..]);
    assert vals[k..][1..] == vals[k + 1..];
    pool.Return(buf);
  }

  lemma BufferContents(pool: Pool, buf: Slice, v: bytes)
    requires pool.Valid() && buf in pool.lent && pool.lent[buf] == v
    ensures Whole(buf) && buf.Contents() == v && buf.arr in pool.repr
  {
  }

  lemma RestHold(base: map<Slice, bytes>, lent: map<Slice, bytes>, held: seq<Slice>, vals: seq<bytes>)
    requires OnLoan(base, lent, held) && held != [] && BuffersHold(lent, held, vals)
    ensures BuffersHold(lent - {held[0]}, held[1..], vals[1..])
  {
  }

  // ---------- The decoder ----------

  // The message is t, its scripts packed into the array scripts: inputs first.
  ghost predicate Consolidated(msg: MsgTx, scripts: array<byte>, t: Tx)
    reads msg, scripts
  {
    && msg.version == t.version && msg.lockTime == t.lockTime
    && SameIns(msg.txIn, t.txIn) && SameOuts(msg.txOut, t.txOut)
    && Packed(InScripts(msg.txIn) + OutScripts(msg.txOut), scripts, InBytes(t.txIn) + OutBytes(t.txOut))
    && scripts[..] == Concat(InBytes(t.txIn) + OutBytes(t.txOut))
  }

  // Everything but the scripts agrees.
  ghost predicate SameIns(ms: seq<MemTxIn>, vs: seq<TxIn>) {
    |ms| == |vs| && forall i :: 0 <= i < |ms| ==>
      ms[i].previousOutPoint == vs[i].previousOutPoint && ms[i].sequence == vs[i].sequence
  }

  ghost predicate SameOuts(ms: seq<MemTxOut>, vs: seq<TxOut>) {
    |ms| == |vs| && forall i :: 0 <= i < |ms| ==> ms[i].value == vs[i].value
  }

  // The first |moved| records with their scripts replaced.
  ghost function MovedIns(ms: seq<MemTxIn>, moved: seq<Slice>): seq<MemTxIn>
    requires |moved| <= |ms|
  {
    seq(|ms|, i requires 0 <= i < |ms| => if i < |moved| then ms[i].(signatureScript := moved[i]) else ms[i])
  }

  ghost function MovedOuts(ms: seq<MemTxOut>, moved: seq<Slice>): seq<MemTxOut>
    requires |moved| <= |ms|
  {
    seq(|ms|, i requires 0 <= i < |ms| => if i < |moved| then ms[i].(pkScript := moved[i]) else ms[i])
  }

  method MoveIns(
    msg: MsgTx, pool: Pool, scripts: array<byte>,
    ghost base: map<Slice, bytes>, ghost rest: seq<Slice>, ghost vals: seq<bytes>)
    returns (offset: nat, ghost moved: seq<Slice>)
    requires pool.Valid() && scripts !in pool.repr
    requires OnLoan(base, pool.lent, InScripts(msg.txIn) + rest)
    requires BuffersHold(pool.lent, InScripts(msg.txIn) + rest, vals)
    requires scripts.Length == |Concat(vals)|
    modifies msg`txIn, pool, scripts
    ensures pool.Valid() && pool.repr == old(pool.repr)
    ensures |moved| == |msg.txIn| == |old(msg.txIn)| <= |vals|
    ensures msg.txIn == MovedIns(old(msg.txIn), moved)
    ensures Packed(moved, scripts, vals[..|moved|])
    ensures OnLoan(base, pool.lent, rest)
    ensures BuffersHold(pool.lent, rest, vals[|moved|..])
    ensures offset == |Concat(vals[..|moved|])| <= scripts.Length && scripts[..offset] == Concat(vals[..|moved|])
  {
    hide Pool.Valid, OnLoan, Concat, Packed, BuffersHold;
    offset := 0;
    moved := [];
    ghost var ins := old(msg.txIn);
    assert vals[..0] == [] && vals[0..] == vals && InScripts(ins)[0..] == InScripts(ins);
    NothingPacked(scripts);
    BuffersLength(pool.lent, InScripts(ins) + rest, vals);
    for i := 0 to |msg.txIn|
      invariant pool.Valid() && pool.repr == old(pool.repr)
      invariant |moved| == i && |msg.txIn| == |ins|
      invariant msg.txIn == MovedIns(ins, moved)
      invariant Packed(moved, scripts, vals[..i])
      invariant OnLoan(base, pool.lent, InScripts(ins)[i..] + rest)
      invariant BuffersHold(pool.lent, InScripts(ins)[i..] + rest, vals[i..])
      invariant offset == |Concat(vals[..i])| <= scripts.Length && scripts[..offset] == Concat(vals[..i])
    {
      var buf := msg.txIn[i].signatureScript;
      assert InScripts(ins)[i..] + rest == [buf] + (InScripts(ins)[i + 1..] + rest);
      PackedAppend(moved, scripts, vals[..i], vals[i]);
      assert vals[..i + 1] == vals[..i] + [vals[i]];
      var s;
      s, offset := MoveScript(pool, scripts, offset, buf, base, InScripts(ins)[i + 1..] + rest, vals, i);
      msg.txIn := msg.txIn[i := msg.txIn[i].(signatureScript := s)];
      moved := moved + [s];
    }
    assert InScripts(ins)[|ins|..] + rest == rest;
  }

  lemma NothingPacked(a: array<byte>)
    ensures Packed([], a, []) && Concat([]) == []
  {
  }

  lemma BuffersLength(lent: map<Slice, bytes>, bufs: seq<Slice>, vals: seq<bytes>)
    requires BuffersHold(lent, bufs, vals)
    ensures |bufs| == |vals|
  {
  }

  method MoveOuts(
    msg: MsgTx, pool: Pool, scripts: array<byte>, start: nat,
    ghost base: map<Slice, bytes>, ghost vals: seq<bytes>, ghost first: seq<Slice>)
    returns (offset: nat, ghost moved: seq<Slice>)
    requires pool.Valid() && scripts !in pool.repr
    requires |first| <= |vals| && Packed(first, scripts, vals[..|first|])
    requires OnLoan(base, pool.lent, OutScripts(msg.txOut))
    requires BuffersHold(pool.lent, OutScripts(msg.txOut), vals[|first|..])
    requires scripts.Length == |Concat(vals)|
    requires start == |Concat(vals[..|first|])| <= scripts.Length && scripts[..start] == Concat(vals[..|first|])
    modifies msg`txOut, pool, scripts
    ensures pool.Valid() && pool.repr == old(pool.repr)
    ensures |moved| == |msg.txOut| == |old(msg.txOut)|
    ensures msg.txOut == MovedOuts(old(msg.txOut), moved)
    ensures Packed(first + moved, scripts, vals)
    ensures pool.lent == base
    ensures offset == scripts.Length && scripts[..] == Concat(vals)
  {
    hide Pool.Valid, OnLoan, Concat, Packed, BuffersHold;
    offset := start;
    moved := [];
    ghost var outs, k := old(msg.txOut), |first|;
    assert OutScripts(outs)[0..] == OutScripts(outs) && first + moved == first;
    BuffersLength(pool.lent, OutScripts(outs), vals[k..]);
    for i := 0 to |msg.txOut|
      invariant pool.Valid() && pool.repr == old(pool.repr)
      invariant |moved| == i && |msg.txOut| == |outs|
      invariant msg.txOut == MovedOuts(outs, moved)
      invariant Packed(first + moved, scripts, vals[..k + i])
      invariant OnLoan(base, pool.lent, OutScripts(outs)[i..])
      invariant BuffersHold(pool.lent, OutScripts(outs)[i..], vals[k + i..])
      invariant offset == |Concat(vals[..k + i])| <= scripts.Length && scripts[..offset] == Concat(vals[..k + i])
    {
      var buf := msg.txOut[i].pkScript;
      assert OutScripts(outs)[i..] == [buf] + OutScripts(outs)[i + 1..];
      PackedAppend(first + moved, scripts, vals[..k + i], vals[k + i]);
      assert vals[..k + i + 1] == vals[..k + i] + [vals[k + i]];
      var s;
      s, offset := MoveScript(pool, scripts, offset, buf, base, OutScripts(outs)[i + 1..], vals, k + i);
      msg.txOut := msg.txOut[i := msg.txOut[i].(pkScript := s)];
      assert first + (moved + [s]) == first + moved + [s];
      moved := moved + [s];
    }
    assert vals[..k + |outs|] == vals;
    assert OutScripts(outs)[|outs|..] == [];
    NothingHeld(base, pool.lent);
    assert scripts[..scripts.Length] == scripts[..];
  }

  // returnScriptBuffers: afterwards nothing of this message is on loan, unless the outputs
  // are still the old ones of the receiver and the pool mistakes one for its own. The
  // output scripts are handed in last.
  method ReturnScriptBuffers(msg: MsgTx, pool: Pool, ghost base: map<Slice, bytes>, ghost oldOuts: bool)
    requires pool.Valid()
    requires OnLoan(base, pool.lent, NonNil(InScripts(msg.txIn) + if oldOuts then [] else OutScripts(msg.txOut)))
    modifies pool
    ensures !oldOuts || Foreign(base, OutScripts(msg.txOut)) ==> pool.Valid() && pool.lent == base
    ensures HandedInLast(pool.free, OutScripts(msg.txOut))
    ensures pool.repr == old(pool.repr)
  {
    hide Pool.Valid, OnLoan, Foreign, NonNil, Returned;
    ghost var ins, outs := InScripts(msg.txIn), OutScripts(msg.txOut);
    ghost var ok := !oldOuts || Foreign(base, outs);
    ReturnOrder(ins, outs);
    ReturnAll(pool, InScripts(msg.txIn), base, if oldOuts then [] else NonNil(outs), false, true);
    ghost var mid := pool.free;
    NothingHeld(base, pool.lent);
    ReturnAll(pool, OutScripts(msg.txOut), base, [], oldOuts, ok);
    NothingHeld(base, pool.lent);
    ReturnedExtends(mid, outs);
    assert pool.free[..|mid|] == mid;
  }

  // The queue is what its beginning became when the slices were handed in.
  predicate HandedInLast(free: seq<Slice>, ss: seq<Slice>) {
    exists k :: 0 <= k <= |free| && free == Returned(free[..k], ss)
  }

  lemma {:induction false} ReturnedExtends(before: seq<Slice>, ss: seq<Slice>)
    ensures before <= Returned(before, ss)
    decreases |ss|
  {
    if ss != [] {
      ReturnedExtends(before, ss[..|ss| - 1]);
    }
  }

  // A slice of a buffer's capacity that is handed in is in the queue, unless that is full.
  lemma {:induction false} TakenIn(before: seq<Slice>, ss: seq<Slice>, i: nat)
    requires i < |ss| && ss[i].Cap() == BUFFER_SIZE
    ensures ss[i] in Returned(before, ss) || |Returned(before, ss)| >= POOL_ITEMS
    decreases |ss|
  {
    var n := |ss| - 1;
    if i < n {
      assert ss[..n][i] == ss[i];
      TakenIn(before, ss[..n], i);
    }
  }

  lemma OldScriptTaken(free: seq<Slice>, ss: seq<Slice>, i: nat)
    requires HandedInLast(free, ss) && i < |ss| && ss[i].Cap() == 512
    ensures ss[i] in free || |free| >= 12_500
  {
    hide Returned;
    var k :| 0 <= k <= |free| && free == Returned(free[..k], ss);
    TakenIn(free[..k], ss, i);
  }

  lemma ReturnOrder(ins: seq<Slice>, outs: seq<Slice>)
    ensures NonNil(ins + outs) == NonNil(ins) + NonNil(outs)
    ensures ins + [] == ins && NonNil(ins) + [] == NonNil(ins) && NonNil(outs) + [] == NonNil(outs)
  {
    hide NonNil;
    NonNilConcat(ins, outs);
  }

  // What the reading phase has established when it ends without an error.
  lemma ReadyToMove(lent: map<Slice, bytes>, ms: seq<MemTxIn>, os: seq<MemTxOut>, vs: seq<TxIn>, ws: seq<TxOut>)
    requires InsBorrowed(lent, ms, vs) && OutsBorrowed(lent, os, ws)
    ensures BuffersHold(lent, InScripts(ms) + OutScripts(os), InBytes(vs) + OutBytes(ws))
    ensures NonNil(InScripts(ms) + OutScripts(os)) == InScripts(ms) + OutScripts(os)
    ensures SameIns(ms, vs) && SameOuts(os, ws)
    ensures |Concat(InBytes(vs) + OutBytes(ws))| == |Concat(InBytes(vs))| + |Concat(OutBytes(ws))|
  {
    hide NonNil, Concat;
    var ss := InScripts(ms) + OutScripts(os);
    forall i | 0 <= i < |ms|
      ensures InBorrowed(lent, ms[i], vs[i])
    {
    }
    forall i | 0 <= i < |os|
      ensures OutBorrowed(lent, os[i], ws[i])
    {
    }
    NonNilAll(ss);
    ConcatConcat(InBytes(vs), OutBytes(ws));
  }

  lemma ConcatConcat(a: seq<bytes>, b: seq<bytes>)
    ensures Concat(a + b) == Concat(a) + Concat(b)
  {
    EncManySplit(Same, a + b, |a|);
    assert (a + b)[..|a|] == a && (a + b)[|a|..] == b;
  }

  lemma MovedScripts(
    ms: seq<MemTxIn>, os: seq<MemTxOut>, first: seq<Slice>, second: seq<Slice>, vs: seq<TxIn>, ws: seq<TxOut>)
    requires |first| == |ms| && |second| == |os|
    requires SameIns(ms, vs) && SameOuts(os, ws)
    ensures InScripts(MovedIns(ms, first)) + OutScripts(MovedOuts(os, second)) == first + second
    ensures SameIns(MovedIns(ms, first), vs) && SameOuts(MovedOuts(os, second), ws)
  {
    assert InScripts(MovedIns(ms, first)) == first;
    assert OutScripts(MovedOuts(os, second)) == second;
  }

  // The single allocation and the two consolidating loops.
  method Consolidate(msg: MsgTx, pool: Pool, total: nat, ghost base: map<Slice, bytes>, ghost t: Tx)
    returns (scripts: array<byte>)
    requires pool.Valid()
    requires OnLoan(base, pool.lent, NonNil(InScripts(msg.txIn) + OutScripts(msg.txOut)))
    requires InsBorrowed(pool.lent, msg.txIn, t.txIn) && OutsBorrowed(pool.lent, msg.txOut, t.txOut)
    requires total == |Concat(InBytes(t.txIn))| + |Concat(OutBytes(t.txOut))|
    requires msg.version == t.version && msg.lockTime == t.lockTime
    modifies msg, pool
    ensures pool.Valid() && pool.repr == old(pool.repr)
    ensures pool.lent == base
    ensures fresh(scripts) && scripts !in pool.repr
    ensures Consolidated(msg, scripts, t)
  {
    hide Pool.Valid, OnLoan, Concat, Packed, BuffersHold, NonNil, InsBorrowed, OutsBorrowed, MovedIns, MovedOuts;
    ghost var vals := InBytes(t.txIn) + OutBytes(t.txOut);
    ReadyToMove(pool.lent, msg.txIn, msg.txOut, t.txIn, t.txOut);
    ghost var ins, outs := msg.txIn, msg.txOut;
    scripts := new byte[total](_ => 0);
    ghost var first, second;
    var offset;
    offset, first := MoveIns(msg, pool, scripts, base, OutScripts(msg.txOut), vals);
    offset, second := MoveOuts(msg, pool, scripts, offset, base, vals, first);
    MovedScripts(ins, outs, first, second, t.txIn, t.txOut);
  }

  // The output count is there and within its limit, so that the outputs are replaced.
  predicate OutputsBegin(ebs: uint64, s: bytes, p: nat) {
    TakeVarInt(s, p).Ok? && TakeVarInt(s, p).value <= MaxTxOutPerMessage(ebs)
  }

  // The decode fails after the inputs began and before the outputs are replaced.
  predicate GivesOldBack(ebs: uint64, s: bytes, p: nat) {
    var head := TakeCount(ebs, s, p);
    head.Ok? &&
    var ins := TakeTxIns(ebs, s, head.next, head.value);
    ins.Fail? || !OutputsBegin(ebs, s, ins.next)
  }

  // Decoding through the pool agrees with the parser in outcome and position, whatever
  // the receiver held before. On success the message is consolidated in a fresh array the
  // pool does not know. The loans end as they began, each borrowed buffer given back once
  // and the buffers lent to others untouched, unless the decode gives back old output
  // scripts of the receiver and the pool mistakes one of them for its own.
  method DecodeTx(msg: MsgTx, src: Source, pool: Pool, ebs: uint64) returns (err: Outcome, ghost scripts: array?<byte>)
    requires pool.Valid() && src.Valid()
    modifies msg, src, src.base, pool, pool.repr
    ensures src.Valid()
    ensures old(pool.repr) <= pool.repr && fresh(pool.repr - old(pool.repr))
    ensures
      || !GivesOldBack(ebs, src.View(), old(src.base.pos)) || old(Foreign(pool.lent, OutScripts(msg.txOut)))
      ==> pool.Valid() && pool.lent == old(pool.lent)
    ensures GivesOldBack(ebs, src.View(), old(src.base.pos)) ==>
              err.Failure? && HandedInLast(pool.free, old(OutScripts(msg.txOut)))
    ensures var spec := TakeTx(ebs, src.View(), old(src.base.pos));
            && err == spec.Outcome() && src.base.pos == spec.next
            && (err.Success? ==>
                  && scripts != null && fresh(scripts) && scripts !in pool.repr
                  && Consolidated(msg, scripts, spec.value))
  {
    hide TakeU32, TakeVarInt, TakeTxIns, TakeTail, TakeTx, MaxTxInPerMessage, Foreign, HandedInLast, OutputsBegin;
    hide Pool.Valid, OnLoan, InsBorrowed, InScripts, OutScripts, NonNil, Consolidated, Concat, InBytes, OutBytes;
    scripts := null;
    ghost var base := pool.lent;
    TakeTxSplit(ebs, src.View(), src.base.pos);
    var version := ReadU32(src);
    if version.Fail? {
      return Failure(version.err), null;
    }
    msg.version := AsInt32(version.value);
    var count := ReadVarInt(src);
    if count.Fail? {
      return Failure(count.err), null;
    }
    if count.value > MaxTxInPerMessage(ebs) {
      return Failure(TooManyInputs), null;
    }
    ghost var ins := TakeTxIns(ebs, src.View(), src.base.pos, count.value);
    var inSize;
    err, inSize := ReadTxIns(msg, src, pool, ebs, count.value);
    NoOutputsYet(msg.txIn);
    if err.Failure? {
      ReturnScriptBuffers(msg, pool, base, true);
      return;
    }
    err, scripts := DecodeTail(msg, src, pool, ebs, inSize, base, ins.value);
  }

  lemma NoOutputsYet(ms: seq<MemTxIn>)
    ensures InScripts(ms) + [] == InScripts(ms)
  {
  }

  // An empty receiver has nothing the pool could mistake for a buffer of its own.
  lemma EmptyReceiver(lent: map<Slice, bytes>)
    ensures Foreign(lent, OutScripts([]))
  {
  }

  // Outputs, lock time and consolidation, once the inputs ins have been read.
  method DecodeTail(
    msg: MsgTx, src: Source, pool: Pool, ebs: uint64, inSize: nat,
    ghost base: map<Slice, bytes>, ghost ins: seq<TxIn>)
    returns (err: Outcome, ghost scripts: array?<byte>)
    requires pool.Valid() && src.Valid()
    requires OnLoan(base, pool.lent, NonNil(InScripts(msg.txIn)))
    requires InsBorrowed(pool.lent, msg.txIn, ins) && inSize == |Concat(InBytes(ins))|
    modifies msg, src, src.base, pool, pool.repr
    ensures src.Valid()
    ensures old(pool.repr) <= pool.repr && fresh(pool.repr - old(pool.repr))
    ensures
      OutputsBegin(ebs, src.View(), old(src.base.pos)) || old(Foreign(base, OutScripts(msg.txOut)))
      ==> pool.Valid() && pool.lent == base
    ensures !OutputsBegin(ebs, src.View(), old(src.base.pos)) ==>
              err.Failure? && HandedInLast(pool.free, old(OutScripts(msg.txOut)))
    ensures var spec := TakeTail(ebs, src.View(), old(src.base.pos));
            && err == spec.Outcome() && src.base.pos == spec.next
            && (err.Success? ==>
                  && scripts != null && fresh(scripts) && scripts !in pool.repr
                  && Consolidated(msg, scripts, Tx(old(msg.version), ins, spec.value.0, spec.value.1)))
  {
    hide TakeU32, TakeVarInt, TakeTxOuts, MaxTxOutPerMessage, Foreign, HandedInLast;
    hide Pool.Valid, OnLoan, InsBorrowed, OutsBorrowed, InScripts, OutScripts, NonNil, Consolidated, Concat, InBytes;
    hide OutBytes;
    scripts := null;
    NoOutputsYet(msg.txIn);
    var count := ReadVarInt(src);
    if count.Fail? {
      ReturnScriptBuffers(msg, pool, base, true);
      return Failure(count.err), null;
    }
    if count.value > MaxTxOutPerMessage(ebs) {
      ReturnScriptBuffers(msg, pool, base, true);
      return Failure(TooManyOutputs), null;
    }
    ghost var before, outs := pool.lent, TakeTxOuts(ebs, src.View(), src.base.pos, count.value);
    var outSize;
    err, outSize := ReadTxOuts(msg, src, pool, ebs, count.value, base, InScripts(msg.txIn));
    if err.Failure? {
      ReturnScriptBuffers(msg, pool, base, false);
      return;
    }
    ghost var none := OutPoint(Zeros(32), 0);
    InsBorrowedStep(before, pool.lent, msg.txIn, ins, MemTxIn(none, Nil, 0), TxIn(none, [], 0));
    var lockTime := ReadU32(src);
    if lockTime.Fail? {
      ReturnScriptBuffers(msg, pool, base, false);
      return Failure(lockTime.err), null;
    }
    msg.lockTime := lockTime.value;
    scripts := Consolidate(msg, pool, inSize + outSize, base, Tx(msg.version, ins, outs.value, lockTime.value));
  }

  // What consolidation means for a reader of the message: every script slice has
  // capacity equal to length and its contents are the script.
  lemma ConsolidatedScripts(msg: MsgTx, scripts: array<byte>, t: Tx)
    requires Consolidated(msg, scripts, t)
    ensures |msg.txIn| == |t.txIn| && |msg.txOut| == |t.txOut|
    ensures forall i :: 0 <= i < |t.txIn| ==>
              var s := msg.txIn[i].signatureScript;
              s.Sound() && s.Cap() == s.Len() && s.Arrays() == {scripts} && s.Contents() == t.txIn[i].signatureScript
    ensures forall i :: 0 <= i < |t.txOut| ==>
              var s := msg.txOut[i].pkScript;
              s.Sound() && s.Cap() == s.Len() && s.Arrays() == {scripts} && s.Contents() == t.txOut[i].pkScript
  {
    var ss, vals := InScripts(msg.txIn) + OutScripts(msg.txOut), InBytes(t.txIn) + OutBytes(t.txOut);
    forall i | 0 <= i < |t.txIn|
      ensures var s := msg.txIn[i].signatureScript;
              s.Sound() && s.Cap() == s.Len() && s.Arrays() == {scripts} && s.Contents() == t.txIn[i].signatureScript
    {
      assert ss[i] == msg.txIn[i].signatureScript && vals[i] == t.txIn[i].signatureScript;
      PackedContents(ss, scripts, vals, i);
    }
    forall i | 0 <= i < |t.txOut|
      ensures var s := msg.txOut[i].pkScript;
              s.Sound() && s.Cap() == s.Len() && s.Arrays() == {scripts} && s.Contents() == t.txOut[i].pkScript
    {
      var j := |t.txIn| + i;
      assert ss[j] == msg.txOut[i].pkScript && vals[j] == t.txOut[i].pkScript;
      PackedContents(ss, scripts, vals, j);
    }
  }

  lemma PackedContents(ss: seq<Slice>, a: array<byte>, vals: seq<bytes>, i: nat)
    requires Packed(ss, a, vals) && a[..] == Concat(vals) && i < |ss|
    ensures ss[i].Sound() && ss[i].Cap() == ss[i].Len() && ss[i].Arrays() == {a} && ss[i].Contents() == vals[i]
  {
    EncManyElement(Same, vals, i);
    assert Has(a[..], |Concat(vals[..i])|, vals[i]);
  }
}
