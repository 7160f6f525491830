/** The key-management emulator (sections 5.2 and 5.3 of ETSI GS QKD 014 V1.1.1): keys are generated for
    one party, kept under their identifiers, and handed to the other party by identifier. */
module Kme {
  import opened Wrappers
  import opened Base64
  import opened Bytes

  datatype Key = Key(keyId: string, key: string)

  type KeyPool = map<string, seq<Byte>>

  datatype State = State(keySize: nat, keys: KeyPool, qber: real, keyRateBps: nat, forcedFailure: Option<string>)

  datatype KmeError = Unavailable(reason: string) | KeyNotAvailable(keyId: string)

  datatype ControlOp = SetQber(value: real) | SetKeyRate(rateBps: nat) | ForceFailure(reason: string) | ClearFailure

  /** One identifier and one buffer of key bytes, as the random sources yield them. */
  datatype Draw = Draw(id: string, bytes: seq<Byte>)

  const PRESEEDED: nat := 32
  const MAX_PER_REQUEST: nat := 128

  function Count(number: Option<nat>): (n: nat)
    ensures 1 <= n <= MAX_PER_REQUEST
  {
    if number.None? || number.value < 1 then 1
    else if number.value > MAX_PER_REQUEST then MAX_PER_REQUEST
    else number.value
  }

  function ByteLength(sizeBits: nat): nat {
    (sizeBits + 7) / 8
  }

  /** As many draws as asked for, of the right length. */
  predicate Fills(draws: seq<Draw>, count: nat, sizeBits: nat) {
    |draws| == count && forall d <- draws :: |d.bytes| == ByteLength(sizeBits)
  }

  function Pooled(keys: KeyPool, draws: seq<Draw>): KeyPool {
    if draws == [] then keys else
      var n := |draws| - 1;
      Pooled(keys, draws[..n])[draws[n].id := draws[n].bytes]
  }

  function Issued(draws: seq<Draw>): seq<Key> {
    seq(|draws|, i requires 0 <= i < |draws| => Key(draws[i].id, Encode(draws[i].bytes)))
  }

  function EncKeys(st: State, draws: seq<Draw>): (Result<seq<Key>, KmeError>, State) {
    if st.forcedFailure.Some? then (Err(Unavailable(st.forcedFailure.value)), st)
    else (Ok(Issued(draws)), st.(keys := Pooled(st.keys, draws)))
  }

  /** The position of the first identifier that is not pooled, or the number of them if all are. */
  function FirstUnknown(keys: KeyPool, ids: seq<string>): (n: nat)
    ensures n <= |ids| && forall i :: 0 <= i < n ==> ids[i] in keys
    ensures n < |ids| ==> ids[n] !in keys
  {
    if ids == [] then 0
    else if ids[0] !in keys then 0
    else 1 + FirstUnknown(keys, ids[1..])
  }

  /** The pooled keys under the identifiers asked for, in that order. */
  function Found(keys: KeyPool, ids: seq<string>): seq<Key>
    requires forall i :: 0 <= i < |ids| ==> ids[i] in keys
  {
    seq(|ids|, i requires 0 <= i < |ids| => Key(ids[i], Encode(keys[ids[i]])))
  }

  lemma {:induction false} FoundOneMore(keys: KeyPool, ids: seq<string>, n: nat)
    requires n < |ids| && forall i :: 0 <= i <= n ==> ids[i] in keys
    ensures Found(keys, ids[..n + 1]) == Found(keys, ids[..n]) + [Key(ids[n], Encode(keys[ids[n]]))]
  {
  }

  /** All or nothing: every key in the order asked, or the first identifier that is unknown. */
  function DecKeys(st: State, ids: seq<string>): Result<seq<Key>, KmeError> {
    if st.forcedFailure.Some? then Err(Unavailable(st.forcedFailure.value)) else
      var n := FirstUnknown(st.keys, ids);
      if n < |ids| then Err(KeyNotAvailable(ids[n])) else Ok(Found(st.keys, ids))
  }

  function Control(st: State, op: ControlOp): State {
    match op
    case SetQber(q) => st.(qber := if q < 0.0 then 0.0 else if q > 1.0 then 1.0 else q)
    case SetKeyRate(rate) => st.(keyRateBps := rate)
    case ForceFailure(reason) => st.(forcedFailure := Some(reason))
    case ClearFailure => st.(forcedFailure := None)
  }

  class Emulator {
    const keySize: nat
    var keys: KeyPool
    var qber: real
    var keyRateBps: nat
    var forcedFailure: Option<string>

    function Value(): State
      reads this
    {
      State(keySize, keys, qber, keyRateBps, forcedFailure)
    }

    constructor (keySize: nat, initialQber: real, initialKeyRateBps: nat, draws: seq<Draw>)
      requires Fills(draws, PRESEEDED, keySize)
      ensures Value() == State(keySize, Pooled(map[], draws), initialQber, initialKeyRateBps, None)
    {
      this.keySize, qber, keyRateBps, keys, forcedFailure := keySize, initialQber, initialKeyRateBps, map[], None;
      new;
      var _ := GenerateKeys(draws);
    }

    method GenerateKeys(draws: seq<Draw>) returns (out: seq<Key>)
      modifies this
      ensures out == Issued(draws) && Value() == old(Value()).(keys := Pooled(old(keys), draws))
    {
      out := [];
      for i := 0 to |draws|
        invariant out == Issued(draws[..i])
        invariant Value() == old(Value()).(keys := Pooled(old(keys), draws[..i]))
      {
        var d := draws[i];
        assert draws[..i + 1][..i] == draws[..i];
        var b64 := Base64Encode(d.bytes);
        keys := keys[d.id := d.bytes];
        out := out + [Key(d.id, b64)];
      }
      assert draws[..|draws|] == draws;
    }

    method HandleEncKeys(number: Option<nat>, size: Option<nat>, draws: seq<Draw>) returns (r: Result<seq<Key>, KmeError>)
      requires Fills(draws, Count(number), if size.Some? then size.value else keySize)
      modifies this
      ensures (r, Value()) == EncKeys(old(Value()), draws)
      ensures r.Ok? ==> |r.value| == Count(number)
    {
      if forcedFailure.Some? {
        return Err(Unavailable(forcedFailure.value));
      }
      var keys := GenerateKeys(draws);
      r := Ok(keys);
    }

    method HandleDecKeys(ids: seq<string>) returns (r: Result<seq<Key>, KmeError>)
      ensures r == DecKeys(Value(), ids)
    {
      if forcedFailure.Some? {
        return Err(Unavailable(forcedFailure.value));
      }
      var out: seq<Key> := [];
      for i := 0 to |ids|
        invariant forall j :: 0 <= j < i ==> ids[j] in keys
        invariant out == Found(keys, ids[..i])
      {
        if ids[i] !in keys {
          return Err(KeyNotAvailable(ids[i]));
        }
        var b64 := Base64Encode(keys[ids[i]]);
        FoundOneMore(keys, ids, i);
        out := out + [Key(ids[i], b64)];
      }
      assert ids[..|ids|] == ids;
      r := Ok(out);
    }

    method HandleControl(op: ControlOp)
      modifies this
      ensures Value() == Control(old(Value()), op)
    {
      match op {
        case SetQber(q) => qber := if q < 0.0 then 0.0 else if q > 1.0 then 1.0 else q;
        case SetKeyRate(rate) => keyRateBps := rate;
        case ForceFailure(reason) => forcedFailure := Some(reason);
        case ClearFailure => forcedFailure := None;
      }
    }
  }

  /// Runs.

  datatype Op = Enc(draws: seq<Draw>) | Dec(ids: seq<string>) | Ctl(op: ControlOp)

  /** Identifiers never seen before and different from each other, as random UUIDs are taken to be. */
  predicate FreshDraws(keys: KeyPool, draws: seq<Draw>) {
    && (forall i :: 0 <= i < |draws| ==> draws[i].id !in keys)
    && (forall i, j :: 0 <= i < j < |draws| ==> draws[i].id != draws[j].id)
  }

  function Next(st: State, op: Op): State {
    match op
    case Enc(draws) => EncKeys(st, draws).1
    case Dec(_) => st
    case Ctl(c) => Control(st, c)
  }

  function Run(st: State, ops: seq<Op>): State
    decreases |ops|
  {
    if ops == [] then st else Run(Next(st, ops[0]), ops[1..])
  }

  /** Nothing is drawn for a request that is refused. */
  predicate FreshRun(st: State, ops: seq<Op>)
    decreases |ops|
  {
    ops == [] ||
    (&& (ops[0].Enc? && st.forcedFailure.None? ==> FreshDraws(st.keys, ops[0].draws))
     && FreshRun(Next(st, ops[0]), ops[1..]))
  }

  /** The keys one operation returns to the party that asks for new ones, and those of a whole run. */
  function Returned(st: State, op: Op): seq<Key> {
    if op.Enc? && EncKeys(st, op.draws).0.Ok? then EncKeys(st, op.draws).0.value else []
  }

  function AllReturned(st: State, ops: seq<Op>): seq<Key>
    decreases |ops|
  {
    if ops == [] then [] else Returned(st, ops[0]) + AllReturned(Next(st, ops[0]), ops[1..])
  }

  ghost predicate Under(keys: seq<Key>, id: string) {
    exists k <- keys :: k.keyId == id
  }

  lemma {:induction false} PooledKeeps(keys: KeyPool, draws: seq<Draw>)
    requires FreshDraws(keys, draws)
    ensures forall k :: k in keys ==> k in Pooled(keys, draws) && Pooled(keys, draws)[k] == keys[k]
    ensures forall i :: 0 <= i < |draws| ==> draws[i].id in Pooled(keys, draws) && Pooled(keys, draws)[draws[i].id] == draws[i].bytes
    decreases |draws|
  {
    if draws != [] {
      var n := |draws| - 1;
      PooledKeeps(keys, draws[..n]);
      forall i | 0 <= i < n
        ensures draws[i].id in Pooled(keys, draws) && Pooled(keys, draws)[draws[i].id] == draws[i].bytes
      {
        assert draws[..n][i] == draws[i] && draws[i].id != draws[n].id;
      }
    }
  }

  /** No request and no control message ever loses or changes a key. */
  lemma {:induction false} KeysSurvive(st: State, ops: seq<Op>)
    requires FreshRun(st, ops)
    ensures forall k :: k in st.keys ==> k in Run(st, ops).keys && Run(st, ops).keys[k] == st.keys[k]
    decreases |ops|
  {
    if ops != [] {
      if ops[0].Enc? && st.forcedFailure.None? { PooledKeeps(st.keys, ops[0].draws); }
      KeysSurvive(Next(st, ops[0]), ops[1..]);
    }
  }

  lemma {:induction false} PooledIds(keys: KeyPool, draws: seq<Draw>, id: string)
    ensures id in Pooled(keys, draws) <==> id in keys || exists i :: 0 <= i < |draws| && draws[i].id == id
    decreases |draws|
  {
    if draws != [] {
      var n := |draws| - 1;
      PooledIds(keys, draws[..n], id);
      if i :| 0 <= i < |draws| && draws[i].id == id {
        assert i < n ==> draws[..n][i].id == id;
      }
      if i :| 0 <= i < n && draws[..n][i].id == id {
        assert draws[i].id == id;
      }
    }
  }

  /** One operation pools exactly what it returns. */
  lemma {:induction false} NextPools(st: State, op: Op, id: string)
    requires op.Enc? && st.forcedFailure.None? ==> FreshDraws(st.keys, op.draws)
    ensures id in Next(st, op).keys <==> id in st.keys || Under(Returned(st, op), id)
    ensures forall k <- Returned(st, op) :: k.keyId in Next(st, op).keys && Encode(Next(st, op).keys[k.keyId]) == k.key
  {
    if op.Enc? && st.forcedFailure.None? {
      var issued := Issued(op.draws);
      PooledIds(st.keys, op.draws, id);
      PooledKeeps(st.keys, op.draws);
      if i :| 0 <= i < |op.draws| && op.draws[i].id == id {
        assert issued[i] in issued && issued[i].keyId == id;
      }
    }
  }

  /** After any run the pool holds the keys it started with and those returned along it, unchanged. */
  lemma {:induction false} PoolIsAllReturned(st: State, ops: seq<Op>, id: string)
    requires FreshRun(st, ops)
    ensures id in Run(st, ops).keys <==> id in st.keys || Under(AllReturned(st, ops), id)
    ensures forall k <- AllReturned(st, ops) :: k.keyId in Run(st, ops).keys && Encode(Run(st, ops).keys[k.keyId]) == k.key
    decreases |ops|
  {
    if ops != [] {
      var (next, rest) := (Next(st, ops[0]), ops[1..]);
      NextPools(st, ops[0], id);
      PoolIsAllReturned(next, rest, id);
      KeysSurvive(next, rest);
      UnderJoined(Returned(st, ops[0]), AllReturned(next, rest), id);
    }
  }

  lemma {:induction false} UnderJoined(a: seq<Key>, b: seq<Key>, id: string)
    ensures Under(a + b, id) <==> Under(a, id) || Under(b, id)
  {
    if k :| k in a && k.keyId == id {
      assert k in a + b;
    }
    if k :| k in b && k.keyId == id {
      assert k in a + b;
    }
  }

  /** Over every run: while no failure is forced, the other party gets keys for exactly the identifiers
      that were pooled at the start or returned by some enc_keys request along the run, mixed and repeated
      as it likes, in the order it asks, each key the very one the first party was given. */
  lemma {:induction false} BothPartiesGetTheSameKeys(st: State, ops: seq<Op>, ids: seq<string>)
    requires FreshRun(st, ops) && Run(st, ops).forcedFailure.None?
    ensures var (given, dec) := (AllReturned(st, ops), DecKeys(Run(st, ops), ids));
      && (dec.Ok? <==> forall id <- ids :: id in st.keys || Under(given, id))
      && (dec.Ok? ==> |dec.value| == |ids|)
      && (dec.Ok? ==> forall j, k :: 0 <= j < |ids| && k in given && k.keyId == ids[j] ==> dec.value[j] == k)
      && (dec.Ok? ==> forall j :: 0 <= j < |ids| && ids[j] in st.keys ==>
            dec.value[j] == Key(ids[j], Encode(st.keys[ids[j]])))
  {
    var keys := Run(st, ops).keys;
    forall id
      ensures id in keys <==> id in st.keys || Under(AllReturned(st, ops), id)
    {
      PoolIsAllReturned(st, ops, id);
    }
    PoolIsAllReturned(st, ops, "");
    KeysSurvive(st, ops);
    DecodesIffPooled(Run(st, ops), ids);
  }

  lemma {:induction false} DecodesIffPooled(st: State, ids: seq<string>)
    requires st.forcedFailure.None?
    ensures DecKeys(st, ids).Ok? <==> forall id <- ids :: id in st.keys
  {
    var n := FirstUnknown(st.keys, ids);
    if n == |ids| {
      forall id <- ids
        ensures id in st.keys
      {
        var i :| 0 <= i < |ids| && ids[i] == id;
      }
    }
  }

  /** And what either party decodes is the bytes that were drawn, for sizes of any number of bits. */
  lemma {:induction false} KeysCarryTheDrawnBytes(draws: seq<Draw>, count: nat, sizeBits: nat, i: nat)
    requires Fills(draws, count, sizeBits) && i < count
    ensures Decode(Issued(draws)[i].key) == Some(draws[i].bytes)
    ensures sizeBits <= 8 * |draws[i].bytes| < sizeBits + 8
  {
    RoundTrip(draws[i].bytes);
    assert draws[i] in draws;
  }
}
