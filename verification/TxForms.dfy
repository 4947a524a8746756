/**
 Plain and extended transactions side by side: what a decoder of either format makes of
 a stream, as a plain transaction and the outputs it spends. A plain message names no
 spent outputs.
 */
module TxForms {
  import opened Bytes
  import opened Parsing
  import opened Transactions
  import opened ExtendedTransactions

  datatype SpentOut = SpentOut(satoshis: uint64, script: bytes)

  datatype InputList = InputList(ins: seq<TxIn>, spent: seq<SpentOut>)

  datatype AnyTx = AnyTx(tx: Tx, spent: seq<SpentOut>)

  function SpentOuts(vs: seq<ExtTxIn>): seq<SpentOut> {
    seq(|vs|, i requires 0 <= i < |vs| => SpentOut(vs[i].previousTxSatoshis, vs[i].previousTxScript))
  }

  // ---------- The stages of either decoder ----------

  function TakeInputCount(ebs: uint64, ext: bool, s: bytes): (r: Parsed<uint64>)
    ensures r.Ok? ==> TakeU32(s, 0).Ok?
  {
    if ext then TakeExtCount(ebs, s, 0) else TakeCount(ebs, s, 0)
  }

  // One input, with the output it spends in the extended format.
  function TakeInput(ebs: uint64, ext: bool, s: bytes, p: nat): Parsed<InputList> {
    if ext then
      match TakeExtTxIn(ebs, s, p)
      case Fail(e, q) => Fail(e, q)
      case Ok(x, q) => Ok(InputList([x.Plain()], [SpentOut(x.previousTxSatoshis, x.previousTxScript)]), q)
    else
      match TakeTxIn(ebs, s, p)
      case Fail(e, q) => Fail(e, q)
      case Ok(x, q) => Ok(InputList([x], []), q)
  }

  function TakeInputs(ebs: uint64, ext: bool, s: bytes, p: nat, k: nat): (r: Parsed<InputList>)
    ensures k == 0 ==> r == Ok(InputList([], []), p)
    ensures r.Ok? ==> |r.value.ins| == k && |r.value.spent| == if ext then k else 0
  {
    assert PlainIns([]) == [] && SpentOuts([]) == [];
    if ext then
      match TakeExtTxIns(ebs, s, p, k)
      case Fail(e, q) => Fail(e, q)
      case Ok(xs, q) => Ok(InputList(PlainIns(xs), SpentOuts(xs)), q)
    else
      match TakeTxIns(ebs, s, p, k)
      case Fail(e, q) => Fail(e, q)
      case Ok(xs, q) => Ok(InputList(xs, []), q)
  }

  // The whole message, from the start of the stream.
  function TakeMessage(ebs: uint64, ext: bool, s: bytes): Parsed<AnyTx> {
    if ext then
      match TakeExtTx(ebs, s, 0)
      case Fail(e, q) => Fail(e, q)
      case Ok(t, q) => Ok(AnyTx(t.Plain(), SpentOuts(t.txIn)), q)
    else
      match TakeTx(ebs, s, 0)
      case Fail(e, q) => Fail(e, q)
      case Ok(t, q) => Ok(AnyTx(t, []), q)
  }

  // Nothing is lost by splitting an extended transaction this way.
  lemma {:induction false} MessageIsExtTx(t: ExtTx, u: ExtTx)
    requires t.Plain() == u.Plain() && SpentOuts(t.txIn) == SpentOuts(u.txIn)
    ensures t == u
  {
    assert |PlainIns(t.txIn)| == |PlainIns(u.txIn)|;
    forall i | 0 <= i < |t.txIn|
      ensures t.txIn[i] == u.txIn[i]
    {
      assert PlainIns(t.txIn)[i] == PlainIns(u.txIn)[i];
      assert SpentOuts(t.txIn)[i] == SpentOuts(u.txIn)[i];
    }
  }

  lemma TakeInputsStep(ebs: uint64, ext: bool, s: bytes, p: nat, i: nat, k: nat)
    requires i < k
    requires TakeInputs(ebs, ext, s, p, i).Ok?
    ensures var Ok(xs, q) := TakeInputs(ebs, ext, s, p, i);
            match TakeInput(ebs, ext, s, q)
            case Ok(x, t) => TakeInputs(ebs, ext, s, p, i + 1) == Ok(InputList(xs.ins + x.ins, xs.spent + x.spent), t)
            case Fail(e, t) => TakeInputs(ebs, ext, s, p, k) == Fail(e, t)
  {
    hide TakeTxIn, TakeExtTxIn, TakeTxIns, TakeExtTxIns;
    if ext {
      TakeExtTxInsStep(ebs, s, p, i, k);
      var Ok(xs, q) := TakeExtTxIns(ebs, s, p, i);
      if TakeExtTxIn(ebs, s, q).Ok? {
        var x := TakeExtTxIn(ebs, s, q).value;
        assert PlainIns(xs + [x]) == PlainIns(xs) + [x.Plain()];
        assert SpentOuts(xs + [x]) == SpentOuts(xs) + [SpentOut(x.previousTxSatoshis, x.previousTxScript)];
      }
    } else {
      TakeTxInsStep(ebs, s, p, i, k);
      var none: seq<SpentOut> := [];
      assert none + none == none;
    }
  }

  lemma TakeMessageSplit(ebs: uint64, ext: bool, s: bytes)
    ensures match TakeInputCount(ebs, ext, s)
            case Fail(e, q) => TakeMessage(ebs, ext, s) == Fail(e, q)
            case Ok(n, q) =>
              TakeU32(s, 0).Ok? &&
              match TakeInputs(ebs, ext, s, q, n)
              case Fail(e, t) => TakeMessage(ebs, ext, s) == Fail(e, t)
              case Ok(xs, t) =>
                match TakeTail(ebs, s, t)
                case Fail(e, u) => TakeMessage(ebs, ext, s) == Fail(e, u)
                case Ok((outs, l), u) =>
                  TakeMessage(ebs, ext, s) ==
                  Ok(AnyTx(Tx(AsInt32(TakeU32(s, 0).value), xs.ins, outs, l), xs.spent), u)
  {
    hide TakeU32, TakeCount, TakeExtCount, TakeTxIns, TakeExtTxIns, TakeTail, TakeTx, TakeExtTx;
    if ext {
      TakeExtTxSplit(ebs, s, 0);
    } else {
      TakeTxSplit(ebs, s, 0);
    }
  }
}
