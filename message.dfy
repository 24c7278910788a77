/**
 * The message envelope: a message has an id taken from a module-wide counter,
 * a type, a response flag `isr` and a plain object of fields. On the wire it
 * is the codec's encoding of the object `{id, type, fields[, isr]}`; reading
 * a buffer back overwrites the envelope permissively.
 *
 * `Math.random()` is an oracle: each call is a `draw`, a real in [0, 1).
 */
module Message {
  import opened Values
  import Codec

  /** The keys of the wire object: "id", "type", "fields" and "isr". */
  const KeyId: Text := [0x69, 0x64]
  const KeyType: Text := [0x74, 0x79, 0x70, 0x65]
  const KeyFields: Text := [0x66, 0x69, 0x65, 0x6C, 0x64, 0x73]
  const KeyIsr: Text := [0x69, 0x73, 0x72]

  /** `Math.ceil`. */
  function Ceil(x: real): (r: int)
    ensures r as real - 1.0 < x <= r as real
  {
    -((-x).Floor)
  }

  // ---------------------------------------------------------------------------
  // The id counter

  /** `autoIncID`: the module-wide counter every construction takes its id from. */
  class IdCounter {
    var next: int

    /** `Math.ceil(Math.random() * 100000)`. */
    constructor (draw: real)
      requires 0.0 <= draw < 1.0
      ensures next == Ceil(draw * 100000.0) && 0 <= next <= 100000
    {
      next := Ceil(draw * 100000.0);
    }

    /** `autoIncID++`: the current value, and the counter moves on by one. */
    method Take() returns (id: int)
      modifies this
      ensures id == old(next) && next == old(next) + 1
    {
      id := next;
      next := next + 1;
    }
  }

  // ---------------------------------------------------------------------------
  // The envelope and its wire object

  /** What a message holds: `id`, `type` (here `kind`), `isr` and the entries of `fields`. */
  datatype Envelope = Envelope(id: Val, kind: Val, isr: Val, fields: seq<(Text, Val)>)

  /** The object `toBuffer` encodes: `{id, type, fields}`, and `isr` last when it is truthy. */
  function ToPack(e: Envelope): (r: Val)
    ensures r.Dict? && |r.entries| == if Truthy(e.isr) then 4 else 3
  {
    Dict([(KeyId, e.id), (KeyType, e.kind), (KeyFields, Dict(e.fields))] + if Truthy(e.isr) then [(KeyIsr, e.isr)] else [])
  }

  /** The wire object has the keys id, type, fields (and isr) in that order, each holding the envelope's value. */
  lemma PackLayout(e: Envelope)
    ensures ToPack(e).Dict? && DistinctKeys(ToPack(e).entries)
    ensures Keys(ToPack(e).entries) == [KeyId, KeyType, KeyFields] + if Truthy(e.isr) then [KeyIsr] else []
    ensures DictGet(ToPack(e).entries, KeyId) == e.id
    ensures DictGet(ToPack(e).entries, KeyType) == e.kind
    ensures DictGet(ToPack(e).entries, KeyFields) == Dict(e.fields)
    ensures DictGet(ToPack(e).entries, KeyIsr) == if Truthy(e.isr) then e.isr else Undef
  {
    PackKeys(e);
    var p := ToPack(e).entries;
    var ks := Keys(p);
    assert Keys(p[..1]) == [KeyId] && Keys(p[..2]) == [KeyId, KeyType] by {
      assert Keys(p[..1])[0] == p[0].0 && Keys(p[..2])[1] == p[1].0;
    }
    assert Keys(p[..3]) == [KeyId, KeyType, KeyFields] by {
      assert Keys(p[..3])[2] == p[2].0;
    }
    DictGetAt(p, KeyType, 1);
    DictGetAt(p, KeyFields, 2);
    if Truthy(e.isr) {
      DictGetAt(p, KeyIsr, 3);
    }
  }

  lemma PackKeys(e: Envelope)
    ensures ToPack(e).Dict? && DistinctKeys(ToPack(e).entries)
    ensures Keys(ToPack(e).entries) == [KeyId, KeyType, KeyFields] + if Truthy(e.isr) then [KeyIsr] else []
  {
    var p := ToPack(e).entries;
    var ks := Keys(p);
    var expected := [KeyId, KeyType, KeyFields] + if Truthy(e.isr) then [KeyIsr] else [];
    assert |ks| == |expected|;
    forall i | 0 <= i < |ks|
      ensures ks[i] == expected[i]
    {
      assert ks[i] == p[i].0;
    }
  }

  /** Why reading a buffer fails: the codec gives no value, or the value has no properties. */
  datatype MessageError = Malformed(error: Codec.DecodeError) | NotAnObject

  datatype Outcome = Absorbed(envelope: Envelope) | Rejected(error: MessageError)

  /** `pack.k` on a value that is neither undefined nor null. */
  function Get(pack: Val, k: Text): Val
    requires !pack.Undef? && !pack.Null?
  {
    Prop(pack, k).value
  }

  /**
   * `fromBuffer` once the buffer is decoded: `id`, `type` and `isr` are
   * replaced only by truthy values, and the entries of a truthy `fields` are
   * assigned over the existing fields. Reading a property of undefined or
   * null throws.
   */
  function Absorb(e: Envelope, pack: Val): (r: Outcome)
    ensures r.Rejected? <==> pack.Undef? || pack.Null?
    ensures r.Rejected? ==> r.error == NotAnObject
    ensures r.Absorbed? ==>
      && (Truthy(e.id) ==> Truthy(r.envelope.id))
      && (Truthy(e.kind) ==> Truthy(r.envelope.kind))
      && (Truthy(e.isr) ==> Truthy(r.envelope.isr))
      && |e.fields| <= |r.envelope.fields|
  {
    if pack.Undef? || pack.Null? then Rejected(NotAnObject)
    else
      var id, kind, isr, fields := Get(pack, KeyId), Get(pack, KeyType), Get(pack, KeyIsr), Get(pack, KeyFields);
      Absorbed(Envelope(
        if Truthy(id) then id else e.id,
        if Truthy(kind) then kind else e.kind,
        if Truthy(isr) then isr else e.isr,
        if Truthy(fields) then Assign(e.fields, OwnEntries(fields)) else e.fields))
  }

  /** `fromBuffer(buffer)`: decode, then absorb the decoded value. */
  function ReadBuffer(e: Envelope, buffer: seq<byte>): (r: Outcome)
    ensures r.Absorbed? ==> Codec.Dec(buffer, 0).Success?
    ensures r.Rejected? && r.error.Malformed? ==> Codec.Dec(buffer, 0) == Codec.Failure(r.error.error)
  {
    match Codec.ValueOf(Codec.Dec(buffer, 0))
    case Failure(err) => Rejected(Malformed(err))
    case Success(pack) => Absorb(e, pack)
  }

  /** Reading fails exactly when the codec fails or decodes undefined or null. */
  lemma ReadBufferFails(e: Envelope, buffer: seq<byte>)
    ensures ReadBuffer(e, buffer).Rejected? <==>
      Codec.Dec(buffer, 0).Failure? || Codec.Dec(buffer, 0).value.0 in {Undef, Null}
    ensures Codec.Dec(buffer, 0).Failure? ==> ReadBuffer(e, buffer) == Rejected(Malformed(Codec.Dec(buffer, 0).error))
  {
  }

  /** An object with none of the four keys leaves the envelope as it was. */
  lemma AbsentKeysKeep(e: Envelope, entries: seq<(Text, Val)>)
    requires KeyId !in Keys(entries) && KeyType !in Keys(entries)
    requires KeyIsr !in Keys(entries) && KeyFields !in Keys(entries)
    ensures Absorb(e, Dict(entries)) == Absorbed(e)
  {
  }

  /** Any value other than an object (a number, a string, an array...) has none of the keys either. */
  lemma NonObjectKeeps(e: Envelope, pack: Val)
    requires !pack.Undef? && !pack.Null? && !pack.Dict?
    ensures Absorb(e, pack) == Absorbed(e)
  {
  }

  /**
   * Decoded fields override: after absorbing a pack with truthy `fields`,
   * each key of those fields holds the decoded value and every other key
   * keeps the value it had. A `__proto__` key goes to the prototype setter
   * and is not copied.
   */
  lemma FieldsMerge(e: Envelope, pack: Val, k: Text)
    requires !pack.Undef? && !pack.Null? && Truthy(Get(pack, KeyFields))
    requires DistinctKeys(OwnEntries(Get(pack, KeyFields)))
    ensures Absorb(e, pack).Absorbed?
    ensures var source := OwnEntries(Get(pack, KeyFields));
      DictGet(Absorb(e, pack).envelope.fields, k) ==
        if k in Keys(source) && k != ProtoKey then DictGet(source, k) else DictGet(e.fields, k)
  {
    AssignGet(e.fields, OwnEntries(Get(pack, KeyFields)), k);
  }

  /** The envelope can be put on the wire and read back: codec-supported parts. */
  ghost predicate WireReady(e: Envelope) {
    Codec.Supported(e.id) && Codec.Supported(e.kind) && Codec.Supported(e.isr) && Codec.Supported(Dict(e.fields))
  }

  /**
   * Reading the bytes `toBuffer` writes from envelope `e` into envelope `r`:
   * `r` takes each truthy part of `e` and the fields of `e` assigned over its own.
   */
  lemma WireRoundTrip(r: Envelope, e: Envelope)
    requires WireReady(e)
    ensures ReadBuffer(r, Codec.Enc(ToPack(e))) == Absorbed(Envelope(
      if Truthy(e.id) then e.id else r.id,
      if Truthy(e.kind) then e.kind else r.kind,
      if Truthy(e.isr) then e.isr else r.isr,
      Assign(r.fields, e.fields)))
  {
    PackSupported(e);
    Codec.RoundTrip(ToPack(e));
    AbsorbPack(r, e);
  }

  lemma PackSupported(e: Envelope)
    requires WireReady(e)
    ensures Codec.Supported(ToPack(e))
  {
    PackLayout(e);
    KeysAscii();
    var p := ToPack(e).entries;
    assert p[0] == (KeyId, e.id) && p[1] == (KeyType, e.kind) && p[2] == (KeyFields, Dict(e.fields));
    assert |p| == 3 || p[3] == (KeyIsr, e.isr);
  }

  lemma KeysAscii()
    ensures IsAscii(KeyId) && IsAscii(KeyType) && IsAscii(KeyFields) && IsAscii(KeyIsr)
  {
  }

  /** Absorbing the wire object of `e`: each part through its own key. */
  lemma AbsorbPack(r: Envelope, e: Envelope)
    ensures Absorb(r, ToPack(e)) == Absorbed(Envelope(
      if Truthy(e.id) then e.id else r.id,
      if Truthy(e.kind) then e.kind else r.kind,
      if Truthy(e.isr) then e.isr else r.isr,
      Assign(r.fields, e.fields)))
  {
    PackLayout(e);
  }

  /**
   * A fresh receiver (no fields, `isr` false) reading a message with a
   * non-zero id, a non-empty type and a boolean `isr` reproduces it exactly.
   */
  lemma MessageRoundTrip(r: Envelope, e: Envelope)
    requires WireReady(e) && Truthy(e.id) && Truthy(e.kind) && e.isr.Bool?
    requires r.fields == [] && r.isr == Bool(false)
    ensures ReadBuffer(r, Codec.Enc(ToPack(e))) == Absorbed(e)
  {
    WireRoundTrip(r, e);
    assert ProtoKey !in Keys(e.fields);
    ShallowCopy(e.fields);
  }

  // ---------------------------------------------------------------------------
  // The message

  class HnetMessage {
    var id: Val
    var kind: Val
    var isr: Val
    /** The entries of the `fields` object, which `Object.assign` updates in place. */
    var fields: seq<(Text, Val)>

    function State(): Envelope
      reads this
    {
      Envelope(id, kind, isr, fields)
    }

    /**
     * `new HnetMessage(type, fields, isr)` with an object payload: the next
     * id, and a shallow copy of the payload's entries into empty fields
     * (`Object.assign` copies every key but `__proto__`).
     */
    constructor (counter: IdCounter, kind: Text, payload: seq<(Text, Val)>, isr: bool)
      modifies counter
      ensures counter.next == old(counter.next) + 1
      ensures State() == Envelope(Num(old(counter.next)), Str(kind), Bool(isr), Assign([], payload))
      ensures DistinctKeys(payload) ==> fields == Settable(payload)
      ensures DistinctKeys(payload) && ProtoKey !in Keys(payload) ==> fields == payload
    {
      this.kind := Str(kind);
      this.isr := Bool(isr);
      var n := counter.Take();
      id := Num(n);
      fields := Assign([], payload);
      if DistinctKeys(payload) {
        ShallowCopy(payload);
      }
    }

    /**
     * `new HnetMessage(type, buffer, isr)` with a byte buffer: a message with
     * the next id and empty fields that then reads the buffer. When reading
     * fails the construction throws, so no message is returned.
     */
    static method FromBytes(counter: IdCounter, kind: Text, buffer: seq<byte>, isr: bool) returns (m: Option<HnetMessage>)
      modifies counter
      ensures counter.next == old(counter.next) + 1
      ensures var start := Envelope(Num(old(counter.next)), Str(kind), Bool(isr), []);
        match ReadBuffer(start, buffer)
        case Absorbed(e) => m.Some? && fresh(m.value) && m.value.State() == e
        case Rejected(_) => m.None?
    {
      var message := new HnetMessage(counter, kind, [], isr);
      var error := message.FromBuffer(buffer);
      m := if error.None? then Some(message) else None;
    }

    /**
     * `fromBuffer(buffer)`: the envelope becomes what `ReadBuffer` says; on a
     * failure (the codec throws, or the decoded value is undefined or null)
     * nothing has been changed yet.
     */
    method FromBuffer(buffer: seq<byte>) returns (error: Option<MessageError>)
      modifies this
      ensures ReadBuffer(old(State()), buffer) == if error.None? then Absorbed(State()) else Rejected(error.value)
      ensures error.Some? ==> State() == old(State())
    {
      var pack := Codec.Decode(buffer);
      if pack.Failure? {
        return Some(Malformed(pack.error));
      }
      var p := pack.value;
      if p.Undef? || p.Null? {
        return Some(NotAnObject);
      }
      var v := Get(p, KeyId);
      if Truthy(v) {
        id := v;
      }
      v := Get(p, KeyType);
      if Truthy(v) {
        kind := v;
      }
      v := Get(p, KeyIsr);
      if Truthy(v) {
        isr := v;
      }
      v := Get(p, KeyFields);
      if Truthy(v) {
        fields := Assign(fields, OwnEntries(v));
      }
      error := None;
    }

    /** `toBuffer()`: the encoding of `{id, type, fields}`, with `isr` set on it when truthy. */
    method ToBuffer() returns (bytes: seq<byte>)
      ensures bytes == Codec.Enc(ToPack(State()))
    {
      var pack := [(KeyId, id), (KeyType, kind), (KeyFields, Dict(fields))];
      if Truthy(isr) {
        assert Keys(pack) == [KeyId, KeyType, KeyFields];
        DictSetKeys(pack, KeyIsr, isr);
        pack := DictSet(pack, KeyIsr, isr);
      } else {
        assert pack + [] == pack;
      }
      assert Dict(pack) == ToPack(State());
      var buffer := Codec.Encode(Dict(pack));
      bytes := buffer.Final();
    }
  }

  // ---------------------------------------------------------------------------
  // Random choices

  /** `Math.floor(draw * n)`: a position in a non-empty array of `n` elements. */
  function Position(draw: real, n: nat): (i: int)
    requires 0.0 <= draw < 1.0
    ensures n > 0 ==> 0 <= i < n
    ensures n == 0 ==> i == 0
  {
    assert 0.0 <= draw * n as real < n as real || n == 0;
    (draw * n as real).Floor
  }

  /** What `randomChoice` returns (None for `undefined`) and the array it leaves behind. */
  datatype Choice<T> = Choice(value: Option<T>, rest: seq<T>)

  /**
   * `randomChoice(arr, remove)`: the element at a random position; with
   * `remove` it is also spliced out of the array. An empty array gives
   * `undefined` and stays empty.
   */
  function RandomChoice<T>(arr: seq<T>, remove: bool, draw: real): (c: Choice<T>)
    requires 0.0 <= draw < 1.0
    ensures c.value.Some? <==> arr != []
    ensures c.value.Some? ==> c.value.value in arr
    ensures arr != [] ==> c.value == Some(arr[Position(draw, |arr|)])
    ensures !remove ==> c.rest == arr
    ensures remove && arr != [] ==>
      |c.rest| == |arr| - 1 && multiset(c.rest) + multiset{c.value.value} == multiset(arr)
    ensures remove && arr != [] ==>
      var i := Position(draw, |arr|);
      c.rest == arr[..i] + arr[i + 1..]
  {
    if arr == [] then Choice(None, arr)
    else
      var i := Position(draw, |arr|);
      if remove then
        assert arr == arr[..i] + [arr[i]] + arr[i + 1..];
        Choice(Some(arr[i]), arr[..i] + arr[i + 1..])
      else Choice(Some(arr[i]), arr)
  }

  /** Every element of a non-empty array is chosen by some draw: the draw `j / n` picks position `j`. */
  lemma ChoiceCovers<T>(arr: seq<T>, j: nat)
    requires j < |arr|
    ensures 0.0 <= j as real / |arr| as real < 1.0
    ensures RandomChoice(arr, false, j as real / |arr| as real).value == Some(arr[j])
  {
    DrawFor(j, |arr|);
  }

  /** The draw `j / n` is in [0, 1) and lands on position `j`. */
  lemma DrawFor(j: nat, n: nat)
    requires j < n
    ensures 0.0 <= j as real / n as real < 1.0
    ensures Position(j as real / n as real, n) == j
  {
    var d := j as real / n as real;
    assert d * n as real == j as real;
    if d >= 1.0 {
      assert false;
    }
    assert (j as real).Floor == j;
  }

  /** `HexChars`: the characters 0-9 and a-f. */
  const HexChars: Text := [0x30, 0x31, 0x32, 0x33, 0x34, 0x35, 0x36, 0x37, 0x38, 0x39, 0x61, 0x62, 0x63, 0x64, 0x65, 0x66]

  /** A draw for each character. */
  predicate Draws(draws: seq<real>) {
    forall k | 0 <= k < |draws| :: 0.0 <= draws[k] < 1.0
  }

  /** `randomHex(len)`: `len` random choices from `HexChars`, one draw each. */
  function RandomHex(len: nat, draws: seq<real>): (r: Text)
    requires |draws| == len && Draws(draws)
    ensures |r| == len && forall k | 0 <= k < len :: r[k] in HexChars
  {
    seq(len, k requires 0 <= k < len => RandomChoice(HexChars, false, draws[k]).value.value)
  }

  /** The position of a hex character in `HexChars`. */
  function HexIndex(c: CodeUnit): (i: nat)
    requires c in HexChars
    ensures i < |HexChars| && HexChars[i] == c
  {
    if c <= 0x39 then c as nat - 0x30 else c as nat - 0x61 + 10
  }

  /** The draw that picks a hex character. */
  function HexDraw(c: CodeUnit): real
    requires c in HexChars
  {
    HexIndex(c) as real / 16.0
  }

  lemma HexDrawPicks(c: CodeUnit)
    requires c in HexChars
    ensures 0.0 <= HexDraw(c) < 1.0
    ensures RandomChoice(HexChars, false, HexDraw(c)).value == Some(c)
  {
    var i := HexIndex(c);
    assert |HexChars| == 16;
    assert HexDraw(c) == i as real / |HexChars| as real;
    ChoiceCovers(HexChars, i);
  }

  /** Every hex text is what `randomHex` returns for some draws. */
  lemma HexCovers(t: Text)
    requires forall k | 0 <= k < |t| :: t[k] in HexChars
    ensures var draws := seq(|t|, k requires 0 <= k < |t| => HexDraw(t[k]));
      Draws(draws) && RandomHex(|t|, draws) == t
  {
    var draws := seq(|t|, k requires 0 <= k < |t| => HexDraw(t[k]));
    forall k | 0 <= k < |t|
      ensures 0.0 <= draws[k] < 1.0 && RandomChoice(HexChars, false, draws[k]).value == Some(t[k])
    {
      HexDrawPicks(t[k]);
    }
  }
}
