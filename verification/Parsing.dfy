/**
 What reading from a byte stream yields: a value or an error kind, together with
 the stream position afterwards. A failed read has a position too, because the
 framing layer reports and relies on it.
 */
module Parsing {
  import opened Bytes

  // Error kinds; the texts of the source are not modelled.
  datatype Error =
    | Eof                  // io.EOF: nothing left
    | UnexpectedEof        // io.ErrUnexpectedEOF: cut short
    | NonCanonicalVarInt
    | TooManyInputs
    | TooManyOutputs
    | TooManyTransactions
    | ScriptTooLong
    | BadExtendedMarker
    | StringTooLong
    | UserAgentTooLong
    | NotABuffer           // a version message can only be read from a buffer
    | BytesTooLong
    | CommandTooLong
    | PayloadTooLarge      // over maxMessagePayload
    | OtherNetwork
    | InvalidCommand
    | UnhandledCommand
    | VersionNotStreamable
    | TypePayloadTooLarge  // over the message type's MaxPayloadLength
    | BadChecksum
    | OtherError(code: int) // whatever a decoder outside this model reports

  datatype Parsed<+T> = Ok(value: T, next: nat) | Fail(err: Error, next: nat) {
    // The same outcome seen from a stream with a more bytes in front.
    function Shift(a: nat): Parsed<T> {
      match this
      case Ok(v, n) => Ok(v, a + n)
      case Fail(e, n) => Fail(e, a + n)
    }

    function Outcome(): Outcome {
      match this
      case Ok(_, _) => Success
      case Fail(e, _) => Failure(e)
    }
  }

  // What a Go decoder returns: a nil error or an error.
  datatype Outcome = Success | Failure(err: Error)

  // The position never moves back and never leaves the stream.
  predicate Bounded<T>(r: Parsed<T>, s: bytes, p: nat) {
    p <= r.next && (p <= |s| ==> r.next <= |s|)
  }

  /** io.ReadFull for n bytes: all n, or everything that is left and an error. */
  function TakeN(s: bytes, p: nat, n: nat): (r: Parsed<bytes>)
    ensures Bounded(r, s, p)
    ensures r.Ok? ==> |r.value| == n && r.next == p + n
  {
    if n == 0 then Ok([], p)
    else if p + n <= |s| then Ok(s[p..p + n], p + n)
    else if p >= |s| then Fail(Eof, p)
    else Fail(UnexpectedEof, |s|)
  }

  lemma TakeNIff(s: bytes, p: nat, n: nat, b: bytes, q: nat)
    requires p <= |s|
    ensures TakeN(s, p, n) == Ok(b, q) <==> |b| == n && Has(s, p, b) && q == p + n
  {
  }

  lemma TakeNShift(s: bytes, a: nat, p: nat, n: nat)
    requires a <= |s|
    ensures TakeN(s, a + p, n) == TakeN(s[a..], p, n).Shift(a)
  {
    if a + p + n <= |s| {
      assert s[a..][p..p + n] == s[a + p..a + p + n];
    }
  }

  // ---------- Little-endian unsigned integers ----------

  function TakeUint(s: bytes, p: nat, n: nat): (r: Parsed<nat>)
    ensures Bounded(r, s, p)
    ensures r.Ok? ==> r.value < Pow256(n) && r.next == p + n
  {
    match TakeN(s, p, n)
    case Fail(e, q) => Fail(e, q)
    case Ok(b, q) => Ok(FromLE(b), q)
  }

  lemma TakeUintIff(s: bytes, p: nat, n: nat, v: nat, q: nat)
    requires p <= |s|
    ensures TakeUint(s, p, n) == Ok(v, q) <==> v < Pow256(n) && Has(s, p, LE(n, v)) && q == p + n
  {
    hide LE, FromLE, Pow256, Has, TakeN;
    TakeNIff(s, p, n, LE(n, v), p + n);
    var b := TakeN(s, p, n);
    if b.Ok? {
      LEOfFromLE(b.value);
    }
    if v < Pow256(n) {
      FromLEOfLE(n, v);
    }
  }

  lemma TakeUintShift(s: bytes, a: nat, p: nat, n: nat)
    requires a <= |s|
    ensures TakeUint(s, a + p, n) == TakeUint(s[a..], p, n).Shift(a)
  {
    TakeNShift(s, a, p, n);
  }

  function TakeU32(s: bytes, p: nat): (r: Parsed<uint32>)
    ensures Bounded(r, s, p)
    ensures r.Ok? ==> r.next == p + 4
  {
    Pow256Values();
    match TakeUint(s, p, 4)
    case Fail(e, q) => Fail(e, q)
    case Ok(v, q) => Ok(v, q)
  }

  function TakeU64(s: bytes, p: nat): (r: Parsed<uint64>)
    ensures Bounded(r, s, p)
    ensures r.Ok? ==> r.next == p + 8
  {
    Pow256Values();
    match TakeUint(s, p, 8)
    case Fail(e, q) => Fail(e, q)
    case Ok(v, q) => Ok(v, q)
  }

  function TakeHash(s: bytes, p: nat): (r: Parsed<Hash>)
    ensures Bounded(r, s, p)
    ensures r.Ok? ==> r.next == p + 32
  {
    match TakeN(s, p, 32)
    case Fail(e, q) => Fail(e, q)
    case Ok(v, q) => Ok(v, q)
  }

  lemma TakeU32Iff(s: bytes, p: nat, v: uint32, q: nat)
    requires p <= |s|
    ensures TakeU32(s, p) == Ok(v, q) <==> Has(s, p, LE(4, v)) && q == p + 4
  {
    Pow256Values();
    TakeUintIff(s, p, 4, v, q);
  }

  lemma TakeU64Iff(s: bytes, p: nat, v: uint64, q: nat)
    requires p <= |s|
    ensures TakeU64(s, p) == Ok(v, q) <==> Has(s, p, LE(8, v)) && q == p + 8
  {
    Pow256Values();
    TakeUintIff(s, p, 8, v, q);
  }
}
