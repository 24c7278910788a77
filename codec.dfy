/**
 * The tagged binary codec ("BinJson") of src/codec.ts.
 *
 * Every value is one tag byte and an ASCII header, then a body:
 *   `u` undefined, `n` null, `b0`/`b1` boolean, `i<decimal>e` number,
 *   `I<decimal>e` bigint, `B<len>:<bytes>` byte array, `s<len>:<packed text>`,
 *   `a<count>:<elements>`, `d<count>:<key value ...>`.
 *
 * The wire format is stated by the pure functions `Pack`, `UnpackFrom`, `Enc`
 * and `Dec`; the source's imperative code (the transcoding loops, the growable
 * `ScalableArray`, the recursive encoder writing into it and the decoder
 * advancing a shared cursor) is proved against them.
 */
module Codec {
  import opened Values

  // TagCode
  const TagUndefined: byte := 0x75  // 'u'
  const TagNull: byte := 0x6E       // 'n'
  const TagBoolean: byte := 0x62    // 'b'
  const TagBytes: byte := 0x42      // 'B' (Uint8Array)
  const TagNumber: byte := 0x69     // 'i'
  const TagBigint: byte := 0x49     // 'I'
  const TagString: byte := 0x73     // 's'
  const TagObject: byte := 0x64     // 'd'
  const TagArray: byte := 0x61      // 'a'
  const TagEnd: byte := 0x65        // 'e'
  const TagColon: byte := 0x3A      // ':'
  const TagOne: byte := 0x31        // '1'

  /** The code unit of an ASCII byte. */
  function Unit(b: byte): CodeUnit {
    b as int as CodeUnit
  }

  // The bytes `stringToUint8Array` pushes for one code unit `c` (three for
  // `c > 0x7FF`, two for the rest outside 1..0x7F), in arithmetic: `c >> k`
  // is `c / 2^k`, `x & m` for `m = 2^k - 1` is `x % 2^k`, and `0xE0 | v` for
  // a six-bit `v` keeps bit 5 set, so it is `0xE0 + v % 0x20`.
  function Wide0(c: CodeUnit): byte { (0xE0 + (c as int / 0x1000) % 0x10) as byte }
  function Wide1(c: CodeUnit): byte { (0xE0 + (c as int / 0x40) % 0x20) as byte }
  function Wide2(c: CodeUnit): byte { (0xE0 + c as int % 0x20) as byte }
  function Mid0(c: CodeUnit): byte { (0xC0 + (c as int / 0x1000) % 0x20) as byte }
  function Mid1(c: CodeUnit): byte { (0x80 + c as int % 0x40) as byte }

  /** The bytes `stringToUint8Array` pushes for one code unit. */
  function PackUnit(c: CodeUnit): (r: seq<byte>)
    ensures 1 <= |r| <= 3
  {
    if 0x0001 <= c <= 0x007F then [c as int as byte]
    else if c > 0x07FF then [Wide0(c), Wide1(c), Wide2(c)]
    else [Mid0(c), Mid1(c)]
  }

  /** What `stringToUint8Array` returns. */
  function Pack(s: Text): seq<byte> {
    if s == [] then [] else PackUnit(s[0]) + Pack(s[1..])
  }

  /** A byte with bit 7 clear (`c1 & 0x80` is 0) is a code unit of its own. */
  predicate IsSingle(c1: byte) {
    c1 < 0x80
  }

  /** A lead byte with bit 5 clear (`c1 & 0x20` is 0) takes the two-byte branch. */
  predicate IsPair(c1: byte) {
    (c1 as int / 0x20) % 2 == 0
  }

  lemma SingleBits(c1: byte)
    ensures IsSingle(c1) <==> (c1 as bv8) & 0x80 == 0
  {
  }

  lemma PairBits(c1: byte)
    ensures IsPair(c1) <==> (c1 as bv8) & 0x20 == 0
  {
  }

  /** `(c1 & 0x1F) << 6 | (c2 & 0x3F)`, in arithmetic. */
  function Pair(c1: byte, c2: byte): CodeUnit {
    ((c1 as int % 0x20) * 0x40 + c2 as int % 0x40) as CodeUnit
  }

  /** `(c1 & 0x0F) << 12 | (c2 & 0x3F) << 6 | (c3 & 0x3F)`, in arithmetic. */
  function Triple(c1: byte, c2: byte, c3: byte): CodeUnit {
    ((c1 as int % 0x10) * 0x1000 + (c2 as int % 0x40) * 0x40 + c3 as int % 0x40) as CodeUnit
  }

  /**
   * What `uint8ArrayToString` returns. A byte with bit 7 clear is one code
   * unit. Any other byte starts a group of two bytes: the source reads its
   * second "byte" `c2` from the same index as the lead `c1`, so the byte
   * after the lead is ignored by the two-byte branch and serves as the third
   * byte `c3` of the three-byte branch (0 past the end).
   */
  function UnpackFrom(b: seq<byte>): Text {
    UnpackRange(b, 0, |b|)
  }

  /** What `uint8ArrayToString(b.subarray(i, j))` returns, read in place. */
  function UnpackRange(b: seq<byte>, i: nat, j: nat): (r: Text)
    requires j <= |b|
    decreases j - i
  {
    if i >= j then []
    else if IsSingle(b[i]) then [Unit(b[i])] + UnpackRange(b, i + 1, j)
    else
      var cs := if IsPair(b[i]) then Pair(b[i], b[i])
                else Triple(b[i], b[i], if i + 1 < j then b[i + 1] else 0);
      [cs] + UnpackRange(b, i + 2, j)
  }

  /** Each code unit read consumes at least one byte. */
  lemma {:induction false} UnpackLength(b: seq<byte>, i: nat, j: nat)
    requires j <= |b|
    ensures |UnpackRange(b, i, j)| <= if i <= j then j - i else 0
    decreases j - i
  {
    if i < j {
      if IsSingle(b[i]) {
        UnpackLength(b, i + 1, j);
      } else {
        UnpackLength(b, i + 2, j);
      }
    }
  }

  method StringToBytes(str: Text) returns (bytes: seq<byte>)
    ensures bytes == Pack(str)
  {
    var len := |str|;
    bytes := [];
    for i := 0 to len
      invariant bytes + Pack(str[i..]) == Pack(str)
    {
      PackStep(str, i, bytes);
      var c := str[i];
      if 0x0001 <= c <= 0x007F {
        bytes := bytes + [c as int as byte];
      } else if c > 0x07FF {
        bytes := bytes + [Wide0(c), Wide1(c), Wide2(c)];
      } else {
        bytes := bytes + [Mid0(c), Mid1(c)];
      }
    }
    assert bytes + Pack(str[len..]) == bytes + [];
  }

  lemma PackStep(s: Text, i: nat, done: seq<byte>)
    requires i < |s|
    ensures done + Pack(s[i..]) == (done + PackUnit(s[i])) + Pack(s[i + 1..])
  {
    assert s[i..][0] == s[i] && s[i..][1..] == s[i + 1..];
  }

  method BytesToString(b: seq<byte>) returns (str: Text)
    ensures str == UnpackFrom(b)
  {
    var len := |b|;
    str := [];
    var i := 0;
    while i < len
      invariant 0 <= i <= len + 1
      invariant str + UnpackRange(b, i, |b|) == UnpackFrom(b)
      decreases len + 1 - i
    {
      var c1 := b[i];
      if IsSingle(c1) {
        UnpackSingle(b, i, str);
        str := str + [Unit(c1)];
        i := i + 1;
      } else {
        var c2 := b[i];
        var cs;
        if IsPair(c1) {
          i := i + 1;
          cs := Pair(c1, c2);
        } else {
          i := i + 1;
          var c3 := if i < len then b[i] else 0;
          cs := Triple(c1, c2, c3);
        }
        UnpackGroup(b, i - 1, str);
        str := str + [cs];
        i := i + 1;
      }
    }
    assert str + UnpackRange(b, i, |b|) == str + [];
  }

  lemma UnpackSingle(b: seq<byte>, i: nat, done: Text)
    requires i < |b| && IsSingle(b[i])
    ensures done + UnpackRange(b, i, |b|) == (done + [Unit(b[i])]) + UnpackRange(b, i + 1, |b|)
  {
  }

  lemma UnpackGroup(b: seq<byte>, i: nat, done: Text)
    requires i < |b| && !IsSingle(b[i])
    ensures done + UnpackRange(b, i, |b|) ==
      (done + [if IsPair(b[i]) then Pair(b[i], b[i]) else Triple(b[i], b[i], if i + 1 < |b| then b[i + 1] else 0)])
      + UnpackRange(b, i + 2, |b|)
  {
  }

  // ---------------------------------------------------------------------------
  // Properties of the packing

  /** Bytes per code unit: 1 for 1..0x7F, 3 above 0x7FF, 2 otherwise (code 0 included). */
  lemma PackUnitWidth(c: CodeUnit)
    ensures |PackUnit(c)| == if 1 <= c <= 0x7F then 1 else if c > 0x7FF then 3 else 2
  {
  }

  lemma {:induction false} PackConcat(a: Text, b: Text)
    ensures Pack(a + b) == Pack(a) + Pack(b)
  {
    if a != [] {
      assert (a + b)[0] == a[0] && (a + b)[1..] == a[1..] + b;
      PackConcat(a[1..], b);
    } else {
      assert a + b == b;
    }
  }

  /** Every code unit packs to one, two or three bytes. */
  lemma {:induction false} PackLength(s: Text)
    ensures |s| <= |Pack(s)| <= 3 * |s|
  {
    if s != [] {
      PackLength(s[1..]);
    }
  }

  /** ASCII text packs to one byte per code unit, equal to the code. */
  lemma {:induction false} PackAscii(s: Text)
    requires IsAscii(s)
    ensures |Pack(s)| == |s|
    ensures forall i | 0 <= i < |s| :: Pack(s)[i] as int == s[i] as int
  {
    if s != [] {
      PackAscii(s[1..]);
      assert Pack(s) == [s[0] as int as byte] + Pack(s[1..]);
    }
  }

  /** Bytes equal to ASCII code units unpack to those code units. */
  lemma {:induction false} UnpackAscii(b: seq<byte>, q: nat, e: nat, s: Text, i: nat)
    requires IsAscii(s) && e == q + |s| <= |b| && i <= |s|
    requires forall j | 0 <= j < |s| :: b[q + j] as int == s[j] as int
    ensures UnpackRange(b, q + i, e) == s[i..]
    decreases |s| - i
  {
    if i < |s| {
      UnpackAscii(b, q, e, s, i + 1);
      assert b[q + i] as int == s[i] as int;
      assert s[i..] == [s[i]] + s[i + 1..];
    }
  }

  /** Packed ASCII text lying at `q` unpacks in place to the text. */
  lemma AtAscii(buf: seq<byte>, q: nat, s: Text)
    requires IsAscii(s) && At(buf, q, Pack(s))
    ensures |Pack(s)| == |s| && UnpackRange(buf, q, q + |s|) == s
  {
    PackAscii(s);
    UnpackAscii(buf, q, q + |s|, s, 0);
    assert s[0..] == s;
  }

  /** Packing then unpacking ASCII text gives the text back. */
  lemma AsciiRoundTrip(s: Text)
    requires IsAscii(s)
    ensures UnpackFrom(Pack(s)) == s
  {
    PackAscii(s);
    AtAscii(Pack(s), 0, s);
  }

  /** Unpacking depends only on the bytes read, wherever they lie. */
  lemma {:induction false} UnpackShift(b: seq<byte>, c: seq<byte>, off: nat, i: nat, j: nat)
    requires j <= |b| && j + off <= |c|
    requires forall k | i <= k < j :: b[k] == c[k + off]
    ensures UnpackRange(b, i, j) == UnpackRange(c, i + off, j + off)
    decreases j - i
  {
    if i < j {
      assert b[i] == c[i + off];
      if i + 1 < j {
        assert b[i + 1] == c[i + 1 + off];
      }
      UnpackShift(b, c, off, i + 1, j);
      UnpackShift(b, c, off, i + 2, j);
    }
  }

  /** `uint8ArrayToString(buffer.subarray(q, e))` is the unpacking of that range in place. */
  lemma UnpackSlice(buf: seq<byte>, q: nat, e: nat)
    requires q <= e <= |buf|
    ensures UnpackFrom(buf[q..e]) == UnpackRange(buf, q, e)
  {
    UnpackShift(buf[q..e], buf, q, 0, e - q);
  }

  /**
   * Outside ASCII the packing is lossy: U+00E9 takes the two-byte branch,
   * which keeps no bits of the code above bit 5 in its lead byte, and the
   * decoder rebuilds it from the lead byte alone, giving U+0000.
   */
  lemma NonAsciiIsLossy()
    ensures Pack([0xE9]) == [0xC0, 0xA9]
    ensures UnpackFrom([0xC0, 0xA9]) == [0x00]
  {
  }

  // ---------------------------------------------------------------------------
  // ScalableArray: a byte buffer that grows by 1024 bytes when it runs short

  const Chunk: nat := 1024

  class ScalableArray {
    var offset: nat
    /** The storage (the source calls this field `array`). */
    var store: array<byte>
    /** The bytes written so far: what `final()` returns. */
    ghost var Contents: seq<byte>
    ghost var Repr: set<object>

    ghost predicate Valid()
      reads this, Repr
    {
      Repr == {this, store} &&
      offset < store.Length &&
      Contents == store[..offset]
    }

    constructor ()
      ensures Valid() && fresh(Repr)
      ensures Contents == []
      ensures store.Length == Chunk
    {
      offset := 0;
      store := new byte[Chunk];
      Contents := [];
      new;
      Repr := {this, store};
    }

    /** Moves the bytes into a fresh array of `size` elements. */
    method Grow(size: nat)
      requires Valid() && store.Length <= size
      modifies this
      ensures Valid() && fresh(store) && store.Length == size
      ensures Repr == {this, store}
      ensures Contents == old(Contents) && offset == old(offset)
    {
      var grown := new byte[size];
      var i := 0;
      while i < store.Length
        invariant 0 <= i <= store.Length
        invariant forall j | 0 <= j < i :: grown[j] == store[j]
        modifies grown
      {
        grown[i] := store[i];
        i := i + 1;
      }
      assert grown[..offset] == store[..offset];
      store := grown;
      Repr := {this, store};
    }

    /** `append(Uint8Array)`: grows to `offset + len + 1024` when the bytes reach the end. */
    method Append(b: seq<byte>)
      requires Valid()
      modifies Repr
      ensures Valid() && fresh(Repr - old(Repr))
      ensures Contents == old(Contents) + b
    {
      if offset + |b| >= store.Length {
        Grow(offset + |b| + Chunk);
      }
      var k := 0;
      while k < |b|
        invariant 0 <= k <= |b|
        invariant Valid() && offset + |b| < store.Length
        invariant store[..offset + k] == Contents + b[..k]
        modifies store
      {
        store[offset + k] := b[k];
        k := k + 1;
        assert store[..offset + k] == store[..offset + k - 1] + [b[k - 1]];
        assert b[..k] == b[..k - 1] + [b[k - 1]];
      }
      assert b[..k] == b;
      offset := offset + |b|;
      Contents := Contents + b;
    }

    /** `append(string)`: the text is packed first. */
    method AppendText(s: Text)
      requires Valid()
      modifies Repr
      ensures Valid() && fresh(Repr - old(Repr))
      ensures Contents == old(Contents) + Pack(s)
    {
      var b := StringToBytes(s);
      Append(b);
    }

    /** `appendStringWithTag`: `s<byte length>:` and the packed text. */
    method AppendStringWithTag(s: Text)
      requires Valid()
      modifies Repr
      ensures Valid() && fresh(Repr - old(Repr))
      ensures Contents == old(Contents) + EncStr(s)
    {
      var b := StringToBytes(s);
      AppendText(Header(TagString, |b|, TagColon));
      Append(b);
      AppendAssoc(old(Contents), Pack(Header(TagString, |b|, TagColon)), b);
    }

    /** `appendTag`: one byte; grows to `offset + 1024` when it reaches the end. */
    method AppendTag(tag: byte)
      requires Valid()
      modifies Repr
      ensures Valid() && fresh(Repr - old(Repr))
      ensures Contents == old(Contents) + [tag]
    {
      if offset + 1 >= store.Length {
        Grow(offset + Chunk);
      }
      store[offset] := tag;
      assert store[..offset + 1] == store[..offset] + [tag];
      offset := offset + 1;
      Contents := Contents + [tag];
    }

    /** `final()`: the written prefix of the storage. */
    function Final(): (r: seq<byte>)
      reads this, Repr
      requires Valid()
      ensures r == Contents
      ensures |r| < store.Length
    {
      store[..offset]
    }
  }

  /** A header of the wire format: its tag, a decimal number and a separator. */
  function Header(tag: byte, n: int, sep: byte): Text {
    [Unit(tag)] + DecimalText(n) + [Unit(sep)]
  }

  // ---------------------------------------------------------------------------
  // Encoding

  function Flatten(parts: seq<seq<byte>>): seq<byte> {
    if parts == [] then [] else Flatten(parts[..|parts| - 1]) + parts[|parts| - 1]
  }

  /**
   * The bytes `encode` appends for a value. Functions and symbols append
   * nothing; an object appends the encoded key (a string) and the encoded
   * value of each own key in order.
   */
  function Enc(v: Val): seq<byte>
    decreases v, 1
  {
    match v
    case Undef => [TagUndefined]
    case Null => [TagNull]
    case Bool(b) => Pack([Unit(TagBoolean)] + DecimalText(if b then 1 else 0))
    case Num(n) => Pack(Header(TagNumber, n, TagEnd))
    case Big(n) => Pack(Header(TagBigint, n, TagEnd))
    case Bytes(bs) => Pack(Header(TagBytes, |bs|, TagColon)) + bs
    case Str(t) => EncStr(t)
    case Arr(items) => Pack(Header(TagArray, |items|, TagColon)) + Flatten(EncItems(v))
    case Dict(e) => Pack(Header(TagObject, |e|, TagColon)) + Flatten(EncEntries(v))
    case Func => []
    case Symbol => []
  }

  /** A string: `s`, the length of its packed bytes, `:` and the bytes. */
  function EncStr(t: Text): seq<byte> {
    Pack(Header(TagString, |Pack(t)|, TagColon)) + Pack(t)
  }

  function EncItems(v: Val): (parts: seq<seq<byte>>)
    requires v.Arr?
    ensures |parts| == |v.items|
    decreases v, 0
  {
    seq(|v.items|, i requires 0 <= i < |v.items| => Enc(v.items[i]))
  }

  function EncEntries(v: Val): (parts: seq<seq<byte>>)
    requires v.Dict?
    ensures |parts| == |v.entries|
    decreases v, 0
  {
    seq(|v.entries|, i requires 0 <= i < |v.entries| => EncStr(v.entries[i].0) + Enc(v.entries[i].1))
  }

  /** The tag byte that opens the encoding of a value; functions and symbols have none. */
  function KindTag(v: Val): Option<byte> {
    match v
    case Undef => Some(TagUndefined)
    case Null => Some(TagNull)
    case Bool(_) => Some(TagBoolean)
    case Num(_) => Some(TagNumber)
    case Big(_) => Some(TagBigint)
    case Bytes(_) => Some(TagBytes)
    case Str(_) => Some(TagString)
    case Arr(_) => Some(TagArray)
    case Dict(_) => Some(TagObject)
    case _ => None
  }

  /**
   * `encode` writes nothing for functions and symbols; every other value's
   * bytes open with the tag of its kind.
   */
  lemma EncTag(v: Val)
    ensures Enc(v) == [] <==> KindTag(v).None?
    ensures Enc(v) != [] ==> Enc(v)[0] == KindTag(v).value
  {
  }

  lemma AppendAssoc(a: seq<byte>, b: seq<byte>, c: seq<byte>)
    ensures (a + b) + c == a + (b + c)
  {
  }

  lemma FlattenStep(start: seq<byte>, parts: seq<seq<byte>>, i: nat)
    requires i < |parts|
    ensures start + Flatten(parts[..i + 1]) == (start + Flatten(parts[..i])) + parts[i]
  {
    assert parts[..i + 1][..i] == parts[..i];
  }

  /** `encode(object, out)`: appends the encoding of `v` to `buffer`. */
  method EncodeInto(v: Val, buffer: ScalableArray)
    requires buffer.Valid()
    modifies buffer.Repr
    ensures buffer.Valid() && fresh(buffer.Repr - old(buffer.Repr))
    ensures buffer.Contents == old(buffer.Contents) + Enc(v)
    decreases v, 2
  {
    match v {
      case Str(t) =>
        buffer.AppendStringWithTag(t);
      case Num(n) =>
        buffer.AppendText(Header(TagNumber, n, TagEnd));
      case Big(n) =>
        buffer.AppendText(Header(TagBigint, n, TagEnd));
      case Bool(b) =>
        buffer.AppendText([Unit(TagBoolean)] + DecimalText(if b then 1 else 0));
      case Undef =>
        buffer.AppendTag(TagUndefined);
      case Symbol =>
      case Null =>
        buffer.AppendTag(TagNull);
      case Arr(items) =>
        EncodeArray(v, buffer);
      case Bytes(bs) =>
        ghost var before := buffer.Contents;
        buffer.AppendText(Header(TagBytes, |bs|, TagColon));
        buffer.Append(bs);
        AppendAssoc(before, Pack(Header(TagBytes, |bs|, TagColon)), bs);
      case Dict(e) =>
        EncodeObject(v, buffer);
      case Func =>
    }
  }

  method EncodeArray(v: Val, buffer: ScalableArray)
    requires v.Arr? && buffer.Valid()
    modifies buffer.Repr
    ensures buffer.Valid() && fresh(buffer.Repr - old(buffer.Repr))
    ensures buffer.Contents == old(buffer.Contents) + Enc(v)
    decreases v, 1
  {
    var items := v.items;
    buffer.AppendText(Header(TagArray, |items|, TagColon));
    ghost var start := buffer.Contents;
    ghost var parts := EncItems(v);
    for i := 0 to |items|
      invariant buffer.Valid() && fresh(buffer.Repr - old(buffer.Repr))
      invariant buffer.Contents == start + Flatten(parts[..i])
    {
      FlattenStep(start, parts, i);
      EncodeInto(items[i], buffer);
    }
    assert parts[..|items|] == parts;
    EncArrShape(v);
    AppendAssoc(old(buffer.Contents), Pack(Header(TagArray, |items|, TagColon)), Flatten(parts));
  }

  method EncodeObject(v: Val, buffer: ScalableArray)
    requires v.Dict? && buffer.Valid()
    modifies buffer.Repr
    ensures buffer.Valid() && fresh(buffer.Repr - old(buffer.Repr))
    ensures buffer.Contents == old(buffer.Contents) + Enc(v)
    decreases v, 1
  {
    var e := v.entries;
    buffer.AppendText(Header(TagObject, |e|, TagColon));
    ghost var start := buffer.Contents;
    ghost var parts := EncEntries(v);
    for i := 0 to |e|
      invariant buffer.Valid() && fresh(buffer.Repr - old(buffer.Repr))
      invariant buffer.Contents == start + Flatten(parts[..i])
    {
      FlattenStep(start, parts, i);
      EncodeEntry(v, i, buffer);
    }
    assert parts[..|e|] == parts;
    EncDictShape(v);
    AppendAssoc(old(buffer.Contents), Pack(Header(TagObject, |e|, TagColon)), Flatten(parts));
  }

  /** One pass of the object loop: the key, then `value[key]`. */
  method EncodeEntry(v: Val, i: nat, buffer: ScalableArray)
    requires v.Dict? && i < |v.entries| && buffer.Valid()
    modifies buffer.Repr
    ensures buffer.Valid() && fresh(buffer.Repr - old(buffer.Repr))
    ensures buffer.Contents == old(buffer.Contents) + EncEntries(v)[i]
    decreases v, 0
  {
    var key := v.entries[i].0;
    var item := v.entries[i].1;
    assert EncEntries(v)[i] == EncStr(key) + Enc(item);
    ghost var before := buffer.Contents;
    buffer.AppendStringWithTag(key);
    EncodeInto(item, buffer);
    AppendAssoc(before, EncStr(key), Enc(item));
  }

  /** `encode(object)`: the encoding of `v` in a fresh buffer. */
  method Encode(v: Val) returns (buffer: ScalableArray)
    ensures fresh(buffer.Repr) && buffer.Valid()
    ensures buffer.Final() == Enc(v)
  {
    buffer := new ScalableArray();
    EncodeInto(v, buffer);
  }

  // ---------------------------------------------------------------------------
  // Decoding

  /**
   * Why `decode` gives no value. `UnknownTag` is the source's own throw; the
   * others stand for inputs on which the source's `indexOf`, `parseInt`,
   * `parseFloat` or `BigInt` do not see a well-formed header or body.
   */
  datatype DecodeError = UnknownTag | MissingDelimiter | BadLength | BadNumber | BadKey

  datatype Result<T> = Success(value: T) | Failure(error: DecodeError)

  /** `buffer.indexOf(x, from)`, None for -1. */
  function IndexOf(buf: seq<byte>, x: byte, from: nat): (r: Option<nat>)
    ensures r.Some? ==> from <= r.value < |buf|
    decreases |buf| - from
  {
    if from >= |buf| then None
    else if buf[from] == x then Some(from)
    else IndexOf(buf, x, from + 1)
  }

  /** `indexOf` finds the first occurrence at or after `from`, and -1 only when there is none. */
  lemma {:induction false} IndexOfFirst(buf: seq<byte>, x: byte, from: nat)
    ensures IndexOf(buf, x, from).Some? ==>
      var j := IndexOf(buf, x, from).value;
      buf[j] == x && forall i | from <= i < j :: buf[i] != x
    ensures IndexOf(buf, x, from).None? ==> forall i | from <= i < |buf| :: buf[i] != x
    decreases |buf| - from
  {
    if from < |buf| && buf[from] != x {
      IndexOfFirst(buf, x, from + 1);
    }
  }

  /** `buffer.subarray(i, j)` for `i <= j`: both ends are clamped to the length. */
  function Slice(buf: seq<byte>, i: nat, j: nat): (r: seq<byte>)
    requires i <= j
    ensures j <= |buf| ==> r == buf[i..j]
  {
    buf[Clamp(buf, i)..Clamp(buf, j)]
  }

  /** An end of `subarray`, clamped to the length. */
  function Clamp(buf: seq<byte>, i: nat): (r: nat)
    ensures r <= |buf| && (i <= |buf| ==> r == i)
  {
    if i < |buf| then i else |buf|
  }

  /** The distance to the end of the buffer; 0 once the cursor has passed it. */
  function Measure(buf: seq<byte>, pos: nat): nat {
    if pos < |buf| then |buf| - pos else 0
  }

  /**
   * A length header from `pos`: the digits before the next `:`, and the
   * index of that `:`.
   */
  function LengthAt(buf: seq<byte>, pos: nat): (r: Result<(nat, nat)>)
    ensures r.Success? ==> pos <= r.value.1 < |buf|
  {
    match IndexOf(buf, TagColon, pos)
    case None => Failure(MissingDelimiter)
    case Some(e) =>
      match ParseNat(UnpackRange(buf, pos, e))
      case None => Failure(BadLength)
      case Some(n) => Success((n, e))
  }

  /** A number or bigint body from `pos`: the integer before the next `e`, and the index of that `e`. */
  function IntegerAt(buf: seq<byte>, pos: nat): (r: Result<(int, nat)>)
    ensures r.Success? ==> pos <= r.value.1 < |buf|
  {
    match IndexOf(buf, TagEnd, pos)
    case None => Failure(MissingDelimiter)
    case Some(e) =>
      match ParseInteger(UnpackRange(buf, pos, e))
      case None => Failure(BadNumber)
      case Some(n) => Success((n, e))
  }

  /**
   * `decode(buffer, {pos})`: the value encoded at `pos` and the cursor after
   * it. The cursor of a string or byte array moves by the declared length
   * even when the buffer holds fewer bytes, as the source's does.
   */
  function Dec(buf: seq<byte>, pos: nat): (r: Result<(Val, nat)>)
    ensures r.Success? ==> pos < |buf| && pos < r.value.1
    decreases Measure(buf, pos), 0
  {
    if pos >= |buf| then Failure(UnknownTag)
    else
      var t := buf[pos];
      var p := pos + 1;
      if t == TagArray then DecArray(buf, p)
      else if t == TagBoolean then DecBoolean(buf, p)
      else if t == TagObject then DecObject(buf, p)
      else if t == TagNumber then DecNumber(buf, p)
      else if t == TagBigint then DecBigint(buf, p)
      else if t == TagNull then
        Success((Null, p))
      else if t == TagString then DecString(buf, p)
      else if t == TagBytes then DecBytes(buf, p)
      else if t == TagUndefined then
        Success((Undef, p))
      else
        Failure(UnknownTag)
  }

  /** The boolean branch: the byte after the tag is `1` for true (a read past the end is not `1`). */
  function DecBoolean(buf: seq<byte>, p: nat): (r: Result<(Val, nat)>)
    ensures r.Success? && r.value.1 == p + 1
  {
    Success((Bool(p < |buf| && buf[p] == TagOne), p + 1))
  }

  /** The number branch: the integer before the next `e`. */
  function DecNumber(buf: seq<byte>, p: nat): (r: Result<(Val, nat)>)
    ensures r.Success? ==> p < r.value.1
  {
    match IntegerAt(buf, p)
    case Failure(err) => Failure(err)
    case Success((n, e)) => Success((Num(n), e + 1))
  }

  /** The bigint branch, as the number branch. */
  function DecBigint(buf: seq<byte>, p: nat): (r: Result<(Val, nat)>)
    ensures r.Success? ==> p < r.value.1
  {
    match IntegerAt(buf, p)
    case Failure(err) => Failure(err)
    case Success((n, e)) => Success((Big(n), e + 1))
  }

  /** The string branch, from just after the tag: `size` packed bytes after the header. */
  function DecString(buf: seq<byte>, p: nat): (r: Result<(Val, nat)>)
    ensures r.Success? ==> p < r.value.1
  {
    match LengthAt(buf, p)
    case Failure(err) => Failure(err)
    case Success((size, e)) => Success((Str(UnpackRange(buf, Clamp(buf, e + 1), Clamp(buf, e + 1 + size))), e + size + 1))
  }

  /** The byte array branch, from just after the tag: `size` bytes after the header. */
  function DecBytes(buf: seq<byte>, p: nat): (r: Result<(Val, nat)>)
    ensures r.Success? ==> p < r.value.1
  {
    match LengthAt(buf, p)
    case Failure(err) => Failure(err)
    case Success((size, e)) => Success((Bytes(Slice(buf, e + 1, e + 1 + size)), e + size + 1))
  }

  /** The array branch, from just after the tag. */
  function DecArray(buf: seq<byte>, p: nat): (r: Result<(Val, nat)>)
    ensures r.Success? ==> p < r.value.1
    decreases Measure(buf, p), 2
  {
    match LengthAt(buf, p)
    case Failure(err) => Failure(err)
    case Success((size, e)) =>
      match DecItems(buf, e + 1, size, [])
      case Failure(err) => Failure(err)
      case Success((items, q)) => Success((Arr(items), q))
  }

  /** The object branch, from just after the tag. */
  function DecObject(buf: seq<byte>, p: nat): (r: Result<(Val, nat)>)
    ensures r.Success? ==> p < r.value.1
    decreases Measure(buf, p), 3
  {
    match LengthAt(buf, p)
    case Failure(err) => Failure(err)
    case Success((size, e)) =>
      match DecEntries(buf, e + 1, size, [])
      case Failure(err) => Failure(err)
      case Success((entries, q)) => Success((Dict(entries), q))
  }

  /** The array loop: `n` more elements from `pos`, after those in `acc`. */
  function DecItems(buf: seq<byte>, pos: nat, n: nat, acc: seq<Val>): (r: Result<(seq<Val>, nat)>)
    ensures r.Success? ==> pos <= r.value.1
    ensures r.Success? ==> |r.value.0| == |acc| + n && r.value.0[..|acc|] == acc
    decreases Measure(buf, pos), 1, n
  {
    if n == 0 then Success((acc, pos))
    else
      match Dec(buf, pos)
      case Failure(err) => Failure(err)
      case Success((v, q)) => DecItems(buf, q, n - 1, acc + [v])
  }

  /**
   * One pass of the object loop: `r[decode()] = decode()`. The key is
   * decoded, then its value, and the value is stored under the key's
   * property-key text.
   */
  function DecEntry(buf: seq<byte>, pos: nat, acc: seq<(Text, Val)>): (r: Result<(seq<(Text, Val)>, nat)>)
    ensures r.Success? ==> pos < |buf| && pos < r.value.1
    ensures r.Success? ==> |acc| <= |r.value.0| <= |acc| + 1
    decreases Measure(buf, pos), 1
  {
    match Dec(buf, pos)
    case Failure(err) => Failure(err)
    case Success((k, q)) =>
      match Dec(buf, q)
      case Failure(err) => Failure(err)
      case Success((v, q')) =>
        match PropertyKey(k)
        case None => Failure(BadKey)
        case Some(key) => Success((DictSet(acc, key, v), q'))
  }

  /** The object loop: `n` more entries from `pos` into `acc`. */
  function DecEntries(buf: seq<byte>, pos: nat, n: nat, acc: seq<(Text, Val)>): (r: Result<(seq<(Text, Val)>, nat)>)
    ensures r.Success? ==> pos <= r.value.1
    ensures r.Success? ==> |acc| <= |r.value.0| <= |acc| + n
    decreases Measure(buf, pos), 2, n
  {
    if n == 0 then Success((acc, pos))
    else
      match DecEntry(buf, pos, acc)
      case Failure(err) => Failure(err)
      case Success((acc', q)) => DecEntries(buf, q, n - 1, acc')
  }

  /** The value of a decoding result, without the cursor. */
  function ValueOf(r: Result<(Val, nat)>): Result<Val> {
    match r
    case Success((v, _)) => Success(v)
    case Failure(err) => Failure(err)
  }

  /** A decoder's outcome and final cursor agree with a specification result. */
  ghost predicate Agrees<T>(spec: Result<(T, nat)>, r: Result<T>, pos: nat) {
    match spec
    case Success((v, q)) => r == Success(v) && pos == q
    case Failure(err) => r == Failure(err)
  }

  /** The decoding context `{ pos }` shared by the recursive calls of `decode`. */
  class Cursor {
    var pos: nat

    constructor (pos: nat)
      ensures this.pos == pos
    {
      this.pos := pos;
    }
  }

  /** `decode(buffer, cxt)`: reads one value at `cxt.pos` and advances the cursor past it. */
  method DecodeAt(buffer: seq<byte>, cxt: Cursor) returns (r: Result<Val>)
    modifies cxt
    ensures Agrees(Dec(buffer, old(cxt.pos)), r, cxt.pos)
    decreases Measure(buffer, cxt.pos), 0
  {
    if cxt.pos >= |buffer| {
      // `buffer[pos]` is undefined, no branch matches and the source throws
      return Failure(UnknownTag);
    }
    var t := buffer[cxt.pos];
    Dispatch(buffer, cxt.pos);
    cxt.pos := cxt.pos + 1;
    if t == TagArray {
      r := DecodeArray(buffer, cxt);
    } else if t == TagBoolean {
      r := DecodeBoolean(buffer, cxt);
    } else if t == TagObject {
      r := DecodeObject(buffer, cxt);
    } else if t == TagNumber {
      r := DecodeNumber(buffer, cxt, false);
    } else if t == TagBigint {
      r := DecodeNumber(buffer, cxt, true);
    } else if t == TagNull {
      r := Success(Null);
    } else if t == TagString {
      r := DecodeString(buffer, cxt);
    } else if t == TagBytes {
      r := DecodeByteArray(buffer, cxt);
    } else if t == TagUndefined {
      r := Success(Undef);
    } else {
      r := Failure(UnknownTag);
    }
  }

  /** The boolean branch: `buffer[cxt.pos++] === TagCode.one`. */
  method DecodeBoolean(buffer: seq<byte>, cxt: Cursor) returns (r: Result<Val>)
    modifies cxt
    ensures Agrees(DecBoolean(buffer, old(cxt.pos)), r, cxt.pos)
  {
    var one := cxt.pos < |buffer| && buffer[cxt.pos] == TagOne;
    cxt.pos := cxt.pos + 1;
    r := Success(Bool(one));
  }

  /** The number branch, or the bigint branch when `big` holds: the text up to the next `e`. */
  method DecodeNumber(buffer: seq<byte>, cxt: Cursor, big: bool) returns (r: Result<Val>)
    modifies cxt
    ensures Agrees(if big then DecBigint(buffer, old(cxt.pos)) else DecNumber(buffer, old(cxt.pos)), r, cxt.pos)
  {
    var pose := IndexOf(buffer, TagEnd, cxt.pos);
    if pose.None? {
      return Failure(MissingDelimiter);
    }
    var pos := cxt.pos;
    cxt.pos := pose.value + 1;
    var text := BytesToString(buffer[pos..pose.value]);
    UnpackSlice(buffer, pos, pose.value);
    var n := ParseInteger(text);
    if n.None? {
      return Failure(BadNumber);
    }
    r := Success(if big then Big(n.value) else Num(n.value));
  }

  /** The string branch: the length header, then that many bytes unpacked. */
  method DecodeString(buffer: seq<byte>, cxt: Cursor) returns (r: Result<Val>)
    modifies cxt
    ensures Agrees(DecString(buffer, old(cxt.pos)), r, cxt.pos)
  {
    var pose := IndexOf(buffer, TagColon, cxt.pos);
    if pose.None? {
      return Failure(MissingDelimiter);
    }
    var header := BytesToString(buffer[cxt.pos..pose.value]);
    UnpackSlice(buffer, cxt.pos, pose.value);
    var size := ParseNat(header);
    if size.None? {
      return Failure(BadLength);
    }
    var pos := pose.value + 1;
    cxt.pos := pose.value + size.value + 1;
    var text := BytesToString(Slice(buffer, pos, pos + size.value));
    UnpackSlice(buffer, Clamp(buffer, pos), Clamp(buffer, pos + size.value));
    r := Success(Str(text));
  }

  /** The byte array branch: the length header, then a view of that many bytes. */
  method DecodeByteArray(buffer: seq<byte>, cxt: Cursor) returns (r: Result<Val>)
    modifies cxt
    ensures Agrees(DecBytes(buffer, old(cxt.pos)), r, cxt.pos)
  {
    var pose := IndexOf(buffer, TagColon, cxt.pos);
    if pose.None? {
      return Failure(MissingDelimiter);
    }
    var header := BytesToString(buffer[cxt.pos..pose.value]);
    UnpackSlice(buffer, cxt.pos, pose.value);
    var size := ParseNat(header);
    if size.None? {
      return Failure(BadLength);
    }
    var pos := pose.value + 1;
    cxt.pos := pose.value + size.value + 1;
    r := Success(Bytes(Slice(buffer, pos, pos + size.value)));
  }

  /**
   * The length header both container branches read: the digits from
   * `cxt.pos` to the next `:`. On success the cursor is just past the `:`.
   */
  method ReadLength(buffer: seq<byte>, cxt: Cursor) returns (r: Result<nat>)
    modifies cxt
    ensures match LengthAt(buffer, old(cxt.pos))
      case Success((n, e)) => r == Success(n) && cxt.pos == e + 1
      case Failure(err) => r == Failure(err)
  {
    var pose := IndexOf(buffer, TagColon, cxt.pos);
    if pose.None? {
      return Failure(MissingDelimiter);
    }
    var header := BytesToString(buffer[cxt.pos..pose.value]);
    UnpackSlice(buffer, cxt.pos, pose.value);
    var size := ParseNat(header);
    if size.None? {
      return Failure(BadLength);
    }
    cxt.pos := pose.value + 1;
    r := Success(size.value);
  }

  lemma DecItemsStep(buf: seq<byte>, p: nat, n: nat, acc: seq<Val>)
    requires n > 0
    ensures Dec(buf, p).Failure? ==> DecItems(buf, p, n, acc) == Failure(Dec(buf, p).error)
    ensures Dec(buf, p).Success? ==>
      DecItems(buf, p, n, acc) == DecItems(buf, Dec(buf, p).value.1, n - 1, acc + [Dec(buf, p).value.0])
  {
  }

  method DecodeArray(buffer: seq<byte>, cxt: Cursor) returns (r: Result<Val>)
    modifies cxt
    ensures Agrees(DecArray(buffer, old(cxt.pos)), r, cxt.pos)
    decreases Measure(buffer, cxt.pos), 3
  {
    var size := ReadLength(buffer, cxt);
    if size.Failure? {
      return Failure(size.error);
    }
    var items := DecodeItems(buffer, cxt, size.value);
    if items.Failure? {
      return Failure(items.error);
    }
    r := Success(Arr(items.value));
  }

  /** The array loop: `size` elements pushed in order. */
  method DecodeItems(buffer: seq<byte>, cxt: Cursor, size: nat) returns (r: Result<seq<Val>>)
    modifies cxt
    ensures Agrees(DecItems(buffer, old(cxt.pos), size, []), r, cxt.pos)
    decreases Measure(buffer, cxt.pos), 2
  {
    ghost var spec := DecItems(buffer, cxt.pos, size, []);
    var items: seq<Val> := [];
    var i := 0;
    while i < size
      invariant 0 <= i <= size
      invariant old(cxt.pos) <= cxt.pos
      invariant spec == DecItems(buffer, cxt.pos, size - i, items)
    {
      DecItemsStep(buffer, cxt.pos, size - i, items);
      ghost var p := cxt.pos;
      var item := DecodeAt(buffer, cxt);
      if item.Failure? {
        return Failure(item.error);
      }
      assert Dec(buffer, p) == Success((item.value, cxt.pos));
      items := items + [item.value];
      i := i + 1;
    }
    r := Success(items);
  }

  lemma DecEntriesStep(buf: seq<byte>, p: nat, n: nat, acc: seq<(Text, Val)>)
    requires n > 0
    ensures DecEntry(buf, p, acc).Failure? ==> DecEntries(buf, p, n, acc) == Failure(DecEntry(buf, p, acc).error)
    ensures DecEntry(buf, p, acc).Success? ==>
      DecEntries(buf, p, n, acc) == DecEntries(buf, DecEntry(buf, p, acc).value.1, n - 1, DecEntry(buf, p, acc).value.0)
  {
  }

  method DecodeObject(buffer: seq<byte>, cxt: Cursor) returns (r: Result<Val>)
    modifies cxt
    ensures Agrees(DecObject(buffer, old(cxt.pos)), r, cxt.pos)
    decreases Measure(buffer, cxt.pos), 3
  {
    var size := ReadLength(buffer, cxt);
    if size.Failure? {
      return Failure(size.error);
    }
    var entries := DecodeEntries(buffer, cxt, size.value);
    if entries.Failure? {
      return Failure(entries.error);
    }
    r := Success(Dict(entries.value));
  }

  /** The object loop: `size` entries assigned in order to a fresh object. */
  method DecodeEntries(buffer: seq<byte>, cxt: Cursor, size: nat) returns (r: Result<seq<(Text, Val)>>)
    modifies cxt
    ensures Agrees(DecEntries(buffer, old(cxt.pos), size, []), r, cxt.pos)
    decreases Measure(buffer, cxt.pos), 2
  {
    ghost var spec := DecEntries(buffer, cxt.pos, size, []);
    var entries: seq<(Text, Val)> := [];
    var i := 0;
    while i < size
      invariant 0 <= i <= size
      invariant old(cxt.pos) <= cxt.pos
      invariant spec == DecEntries(buffer, cxt.pos, size - i, entries)
    {
      DecEntriesStep(buffer, cxt.pos, size - i, entries);
      ghost var p := cxt.pos;
      var next := DecodeEntry(buffer, cxt, entries);
      if next.Failure? {
        return Failure(next.error);
      }
      assert DecEntry(buffer, p, entries) == Success((next.value, cxt.pos));
      entries := next.value;
      i := i + 1;
    }
    r := Success(entries);
  }

  /** `r[decode()] = decode()` on the entries decoded so far. */
  method DecodeEntry(buffer: seq<byte>, cxt: Cursor, entries: seq<(Text, Val)>) returns (r: Result<seq<(Text, Val)>>)
    modifies cxt
    ensures Agrees(DecEntry(buffer, old(cxt.pos), entries), r, cxt.pos)
    decreases Measure(buffer, cxt.pos), 1
  {
    var k := DecodeAt(buffer, cxt);
    if k.Failure? {
      return Failure(k.error);
    }
    var v := DecodeAt(buffer, cxt);
    if v.Failure? {
      return Failure(v.error);
    }
    var key := PropertyKey(k.value);
    if key.None? {
      return Failure(BadKey);
    }
    r := Success(DictSet(entries, key.value, v.value));
  }

  /** `decode(buffer)`: the value encoded at the start of `buffer`; trailing bytes are ignored. */
  method Decode(buffer: seq<byte>) returns (r: Result<Val>)
    ensures r == ValueOf(Dec(buffer, 0))
  {
    var cxt := new Cursor(0);
    r := DecodeAt(buffer, cxt);
  }

  // ---------------------------------------------------------------------------
  // Round trip: decoding an encoding gives the value back

  /** The largest integer a JavaScript number holds exactly (`Number.MAX_SAFE_INTEGER`). */
  const MaxSafe: int := 0x1F_FFFF_FFFF_FFFF

  /**
   * The values whose encoding decodes back to themselves: no functions or
   * symbols (dropped by the encoder), safe integers, ASCII strings and keys
   * (the text packing is lossy elsewhere), objects without repeated keys and
   * without an own `__proto__` key (which the decoder's `r[key] = value`
   * hands to the prototype setter).
   */
  ghost predicate Supported(v: Val)
    decreases v
  {
    match v
    case Func => false
    case Symbol => false
    case Num(n) => -MaxSafe <= n <= MaxSafe
    case Str(t) => IsAscii(t)
    case Arr(items) => forall i | 0 <= i < |items| :: Supported(items[i])
    case Dict(e) =>
      DistinctKeys(e) && forall i | 0 <= i < |e| :: IsAscii(e[i].0) && e[i].0 != ProtoKey && Supported(e[i].1)
    case _ => true
  }

  /** `x` lies in `buf` from index `p`. */
  ghost predicate At(buf: seq<byte>, p: nat, x: seq<byte>) {
    p + |x| <= |buf| && forall i | 0 <= i < |x| :: buf[p + i] == x[i]
  }

  lemma AtSplit(buf: seq<byte>, p: nat, x: seq<byte>, y: seq<byte>)
    requires At(buf, p, x + y)
    ensures At(buf, p, x) && At(buf, p + |x|, y)
  {
    forall i | 0 <= i < |x|
      ensures buf[p + i] == x[i]
    {
      assert (x + y)[i] == x[i];
    }
    forall i | 0 <= i < |y|
      ensures buf[p + |x| + i] == y[i]
    {
      assert (x + y)[|x| + i] == y[i];
    }
  }

  lemma {:induction false} FlattenCons(parts: seq<seq<byte>>)
    requires parts != []
    ensures Flatten(parts) == parts[0] + Flatten(parts[1..])
    decreases |parts|
  {
    if |parts| > 1 {
      var init, tail, last := parts[..|parts| - 1], parts[1..], parts[|parts| - 1];
      FlattenCons(init);
      assert Flatten(parts) == Flatten(init) + last;
      assert init[1..] == tail[..|tail| - 1] && tail[|tail| - 1] == last;
      assert Flatten(tail) == Flatten(init[1..]) + last;
      assert init[0] == parts[0];
      AppendAssoc(parts[0], Flatten(init[1..]), last);
    } else {
      assert parts[..0] == [] && parts[1..] == [];
    }
  }

  /** A header's packed bytes: the tag, the packed decimal text, the separator. */
  lemma PackHeader(tag: byte, n: int, sep: byte)
    requires 1 <= tag < 0x80 && 1 <= sep < 0x80
    ensures Pack(Header(tag, n, sep)) == [tag] + (Pack(DecimalText(n)) + [sep])
  {
    PackConcat([Unit(tag)] + DecimalText(n), [Unit(sep)]);
    PackConcat([Unit(tag)], DecimalText(n));
  }

  /** A packed header holds at least its tag and its separator. */
  lemma HeaderSize(tag: byte, n: int, sep: byte)
    requires 1 <= tag < 0x80 && 1 <= sep < 0x80
    ensures |Pack(Header(tag, n, sep))| >= 2
  {
    PackHeader(tag, n, sep);
  }

  /** The packed decimal text of an integer holds neither separator and unpacks to the text. */
  lemma PackedDecimal(n: int)
    ensures forall i | 0 <= i < |Pack(DecimalText(n))| :: Pack(DecimalText(n))[i] != TagColon && Pack(DecimalText(n))[i] != TagEnd
    ensures IsAscii(DecimalText(n))
  {
    var d := DecimalText(n);
    DecimalTextShape(n);
    PackAscii(d);
    forall i | 0 <= i < |Pack(d)|
      ensures Pack(d)[i] != TagColon && Pack(d)[i] != TagEnd
    {
      assert Pack(d)[i] as int == d[i] as int;
      assert IsDigit(d[i]) || d[i] == Minus;
    }
  }

  /** `indexOf(sep, q)` finds the separator `e` right after a body that does not contain it. */
  lemma FindSep(buf: seq<byte>, q: nat, body: seq<byte>, sep: byte, e: nat)
    requires e == q + |body| && At(buf, q, body + [sep])
    requires forall i | 0 <= i < |body| :: body[i] != sep
    ensures IndexOf(buf, sep, q) == Some(e)
  {
    AtSplit(buf, q, body, [sep]);
    assert buf[e + 0] == [sep][0];
    IndexOfFirst(buf, sep, q);
    forall j | q <= j < e
      ensures buf[j] != sep
    {
      assert buf[q + (j - q)] == body[j - q];
    }
  }

  /** A header at `p`: its tag, then decimal digits that `indexOf` ends at the separator `e`. */
  lemma HeaderDigits(buf: seq<byte>, p: nat, tag: byte, n: int, sep: byte, e: nat)
    requires 1 <= tag < 0x80 && (sep == TagColon || sep == TagEnd)
    requires e == p + |Pack(Header(tag, n, sep))| - 1 && At(buf, p, Pack(Header(tag, n, sep)))
    ensures p < e && buf[p] == tag
    ensures IndexOf(buf, sep, p + 1) == Some(e) && UnpackRange(buf, p + 1, e) == DecimalText(n)
  {
    var t := DecimalText(n);
    PackHeader(tag, n, sep);
    PackedDecimal(n);
    HeaderBytes(buf, p, tag, t, Pack(t), sep, e);
  }

  /** A tag, the packed text `t` holding no separator, and the separator, lying at `p`. */
  lemma HeaderBytes(buf: seq<byte>, p: nat, tag: byte, t: Text, d: seq<byte>, sep: byte, e: nat)
    requires d == Pack(t) && IsAscii(t) && forall i | 0 <= i < |d| :: d[i] != sep
    requires e == p + 1 + |d| && At(buf, p, [tag] + (d + [sep]))
    ensures p < e && buf[p] == tag
    ensures IndexOf(buf, sep, p + 1) == Some(e) && UnpackRange(buf, p + 1, e) == t
  {
    AtSplit(buf, p, [tag], d + [sep]);
    assert buf[p + 0] == [tag][0];
    FindSep(buf, p + 1, d, sep, e);
    AtSplit(buf, p + 1, d, [sep]);
    UnpackAt(buf, p + 1, t, e);
  }

  /** ASCII text packed at `q` and ending before `e` unpacks to itself. */
  lemma UnpackAt(buf: seq<byte>, q: nat, t: Text, e: nat)
    requires IsAscii(t) && At(buf, q, Pack(t)) && e == q + |Pack(t)|
    ensures e <= |buf| && UnpackRange(buf, q, e) == t
  {
    AtAscii(buf, q, t);
  }

  /** `subarray(i, j)` over bytes `x` lying at `b`. */
  lemma SliceAt(buf: seq<byte>, b: nat, x: seq<byte>, i: nat, j: nat)
    requires At(buf, b, x) && i == b && j == b + |x|
    ensures i <= j && Slice(buf, i, j) == x
  {
  }

  /** `LengthAt` from its parts: the next `:` at `e`, and the digits before it. */
  lemma LengthOf(buf: seq<byte>, q: nat, e: nat, t: Text, n: nat)
    requires IndexOf(buf, TagColon, q) == Some(e) && q <= e
    requires UnpackRange(buf, q, e) == t && ParseNat(t) == Some(n)
    ensures LengthAt(buf, q) == Success((n, e))
  {
  }

  /** `IntegerAt` from its parts, as `LengthOf`. */
  lemma IntegerOf(buf: seq<byte>, q: nat, e: nat, t: Text, n: int)
    requires IndexOf(buf, TagEnd, q) == Some(e) && q <= e
    requires UnpackRange(buf, q, e) == t && ParseInteger(t) == Some(n)
    ensures IntegerAt(buf, q) == Success((n, e))
  {
  }

  /** A length header at `p` reads back its number, with its `:` at `e`. */
  lemma LengthHeader(buf: seq<byte>, p: nat, tag: byte, n: nat, e: nat)
    requires 1 <= tag < 0x80 && e == p + |Pack(Header(tag, n, TagColon))| - 1
    requires At(buf, p, Pack(Header(tag, n, TagColon)))
    ensures p < e && buf[p] == tag
    ensures LengthAt(buf, p + 1) == Success((n, e))
  {
    HeaderDigits(buf, p, tag, n, TagColon, e);
    ParseNatDecimal(n);
    LengthOf(buf, p + 1, e, DecimalText(n), n);
  }

  /** A number or bigint header at `p` reads back its integer, with its `e` at `e`. */
  lemma IntegerBody(buf: seq<byte>, p: nat, tag: byte, n: int, e: nat)
    requires 1 <= tag < 0x80 && e == p + |Pack(Header(tag, n, TagEnd))| - 1
    requires At(buf, p, Pack(Header(tag, n, TagEnd)))
    ensures p < e && buf[p] == tag
    ensures IntegerAt(buf, p + 1) == Success((n, e))
  {
    HeaderDigits(buf, p, tag, n, TagEnd, e);
    ParseDecimalText(n);
    IntegerOf(buf, p + 1, e, DecimalText(n), n);
  }

  // The branches of `Dec`, each from its parts

  lemma StringBranch(buf: seq<byte>, p: nat, size: nat, e: nat, t: Text, q: nat)
    requires LengthAt(buf, p) == Success((size, e))
    requires q == e + size + 1 && UnpackRange(buf, Clamp(buf, e + 1), Clamp(buf, e + 1 + size)) == t
    ensures DecString(buf, p) == Success((Str(t), q))
  {
  }

  lemma BytesOf(buf: seq<byte>, p: nat, size: nat, e: nat, bs: seq<byte>, q: nat)
    requires p < |buf| && buf[p] == TagBytes && LengthAt(buf, p + 1) == Success((size, e))
    requires Slice(buf, e + 1, e + 1 + size) == bs && q == e + size + 1
    ensures Dec(buf, p) == Success((Bytes(bs), q))
  {
    BytesBranch(buf, p + 1, size, e, bs, q);
    Dispatch(buf, p);
  }

  lemma BytesBranch(buf: seq<byte>, p: nat, size: nat, e: nat, bs: seq<byte>, q: nat)
    requires LengthAt(buf, p) == Success((size, e))
    requires Slice(buf, e + 1, e + 1 + size) == bs && q == e + size + 1
    ensures DecBytes(buf, p) == Success((Bytes(bs), q))
  {
  }

  /** `decode` picks the branch of the tag byte. */
  lemma Dispatch(buf: seq<byte>, p: nat)
    requires p < |buf|
    ensures buf[p] == TagString ==> Dec(buf, p) == DecString(buf, p + 1)
    ensures buf[p] == TagBytes ==> Dec(buf, p) == DecBytes(buf, p + 1)
    ensures buf[p] == TagNumber ==> Dec(buf, p) == DecNumber(buf, p + 1)
    ensures buf[p] == TagBigint ==> Dec(buf, p) == DecBigint(buf, p + 1)
    ensures buf[p] == TagBoolean ==> Dec(buf, p) == DecBoolean(buf, p + 1)
    ensures buf[p] == TagArray ==> Dec(buf, p) == DecArray(buf, p + 1)
    ensures buf[p] == TagObject ==> Dec(buf, p) == DecObject(buf, p + 1)
  {
  }

  lemma NumOf(buf: seq<byte>, p: nat, n: int, e: nat, q: nat)
    requires p < |buf| && buf[p] == TagNumber && IntegerAt(buf, p + 1) == Success((n, e)) && q == e + 1
    ensures Dec(buf, p) == Success((Num(n), q))
  {
    Dispatch(buf, p);
  }

  lemma BigOf(buf: seq<byte>, p: nat, n: int, e: nat, q: nat)
    requires p < |buf| && buf[p] == TagBigint && IntegerAt(buf, p + 1) == Success((n, e)) && q == e + 1
    ensures Dec(buf, p) == Success((Big(n), q))
  {
    Dispatch(buf, p);
  }

  lemma BoolOf(buf: seq<byte>, p: nat, b: bool)
    requires p + 1 < |buf| && buf[p] == TagBoolean && buf[p + 1] == (if b then TagOne else 0x30)
    ensures Dec(buf, p) == Success((Bool(b), p + 2))
  {
    Dispatch(buf, p);
  }

  lemma TagOf(buf: seq<byte>, p: nat, v: Val)
    requires v.Undef? || v.Null?
    requires p < |buf| && buf[p] == (if v.Undef? then TagUndefined else TagNull)
    ensures Dec(buf, p) == Success((v, p + 1))
  {
  }

  // Each kind of value: where its bytes lie, then how they decode

  /** A string's encoding, wherever it lies, decodes to the string and the position after it. */
  lemma DecodeStr(t: Text, buf: seq<byte>, p: nat)
    requires IsAscii(t) && At(buf, p, EncStr(t))
    ensures Dec(buf, p) == Success((Str(t), p + |EncStr(t)|))
  {
    var h, d := Pack(Header(TagString, |Pack(t)|, TagColon)), Pack(t);
    LengthHead(buf, p, TagString, |d|, h, d);
    StrGlue(buf, p, t, |h|, d);
    Dispatch(buf, p);
  }

  /** A string tag with a length header of `hl` bytes in all, then the packed ASCII text: the string branch reads the text. */
  lemma StrGlue(buf: seq<byte>, p: nat, t: Text, hl: nat, d: seq<byte>)
    requires d == Pack(t) && IsAscii(t) && HeadAt(buf, p, TagString, |d|, hl, d)
    ensures p < |buf| && buf[p] == TagString && DecString(buf, p + 1) == Success((Str(t), p + hl + |d|))
  {
    var e: nat, b: nat, q': nat := p + hl - 1, p + hl, p + hl + |d|;
    assert LengthAt(buf, p + 1) == Success((|d|, e));
    UnpackAt(buf, b, t, q');
    StrBody(buf, p + 1, |d|, e, b, q', t);
  }

  /** The string branch over a length header ending at `e` and the `size` bytes from `b` to `q'`, which unpack to `t`. */
  lemma StrBody(buf: seq<byte>, q: nat, size: nat, e: nat, b: nat, q': nat, t: Text)
    requires LengthAt(buf, q) == Success((size, e)) && b == e + 1 && q' == b + size && q' <= |buf|
    requires UnpackRange(buf, b, q') == t
    ensures DecString(buf, q) == Success((Str(t), q'))
  {
    assert Clamp(buf, e + 1) == b && Clamp(buf, e + 1 + size) == q';
    StringBranch(buf, q, size, e, t, q');
  }

  lemma BytesLayout(bs: seq<byte>, buf: seq<byte>, p: nat, e: nat)
    requires At(buf, p, Enc(Bytes(bs)))
    requires e == p + |Pack(Header(TagBytes, |bs|, TagColon))| - 1
    ensures p < e && buf[p] == TagBytes && LengthAt(buf, p + 1) == Success((|bs|, e))
    ensures Slice(buf, e + 1, e + 1 + |bs|) == bs
    ensures |Enc(Bytes(bs))| == e + 1 + |bs| - p
  {
    var h := Pack(Header(TagBytes, |bs|, TagColon));
    AtSplit(buf, p, h, bs);
    LengthHeader(buf, p, TagBytes, |bs|, e);
    SliceAt(buf, p + |h|, bs, e + 1, e + 1 + |bs|);
  }

  lemma DecodeBytes(bs: seq<byte>, buf: seq<byte>, p: nat)
    requires At(buf, p, Enc(Bytes(bs)))
    ensures Dec(buf, p) == Success((Bytes(bs), p + |Enc(Bytes(bs))|))
  {
    HeaderSize(TagBytes, |bs|, TagColon);
    var e := p + |Pack(Header(TagBytes, |bs|, TagColon))| - 1;
    BytesLayout(bs, buf, p, e);
    BytesOf(buf, p, |bs|, e, bs, p + |Enc(Bytes(bs))|);
  }

  lemma BoolLayout(b: bool, buf: seq<byte>, p: nat)
    requires At(buf, p, Enc(Bool(b)))
    ensures p + 1 < |buf| && buf[p] == TagBoolean && buf[p + 1] == (if b then TagOne else 0x30)
    ensures |Enc(Bool(b))| == 2
  {
    var t := [Unit(TagBoolean)] + DecimalText(if b then 1 else 0);
    assert t == [0x62, if b then 0x31 else 0x30];
    PackAscii(t);
    assert buf[p] == Enc(Bool(b))[0] && buf[p + 1] == Enc(Bool(b))[1];
  }

  lemma DecodeBool(b: bool, buf: seq<byte>, p: nat)
    requires At(buf, p, Enc(Bool(b)))
    ensures Dec(buf, p) == Success((Bool(b), p + |Enc(Bool(b))|))
  {
    BoolLayout(b, buf, p);
    BoolOf(buf, p, b);
  }

  lemma NumLayout(v: Val, buf: seq<byte>, p: nat, e: nat)
    requires (v.Num? || v.Big?) && At(buf, p, Enc(v))
    requires e == p + |Enc(v)| - 1
    ensures p < e
    ensures v.Num? ==> buf[p] == TagNumber && IntegerAt(buf, p + 1) == Success((v.num, e))
    ensures v.Big? ==> buf[p] == TagBigint && IntegerAt(buf, p + 1) == Success((v.big, e))
  {
    if v.Num? {
      IntegerBody(buf, p, TagNumber, v.num, e);
    } else {
      IntegerBody(buf, p, TagBigint, v.big, e);
    }
  }

  lemma DecodeNum(v: Val, buf: seq<byte>, p: nat)
    requires (v.Num? || v.Big?) && At(buf, p, Enc(v))
    ensures Dec(buf, p) == Success((v, p + |Enc(v)|))
  {
    var e := p + |Enc(v)| - 1;
    NumLayout(v, buf, p, e);
    if v.Num? {
      NumOf(buf, p, v.num, e, p + |Enc(v)|);
    } else {
      BigOf(buf, p, v.big, e, p + |Enc(v)|);
    }
  }

  lemma DecodeTag(v: Val, buf: seq<byte>, p: nat)
    requires (v.Undef? || v.Null?) && At(buf, p, Enc(v))
    ensures Dec(buf, p) == Success((v, p + |Enc(v)|))
  {
    assert buf[p] == Enc(v)[0];
    TagOf(buf, p, v);
  }

  /**
   * The encoding of a supported value, wherever it lies in a buffer, decodes
   * to the value and leaves the cursor just after it.
   */
  lemma {:induction false} DecodeEncode(v: Val, buf: seq<byte>, p: nat)
    requires Supported(v) && At(buf, p, Enc(v))
    ensures Dec(buf, p) == Success((v, p + |Enc(v)|))
    decreases v, 2
  {
    match v
    case Undef => DecodeTag(v, buf, p);
    case Null => DecodeTag(v, buf, p);
    case Bool(b) => DecodeBool(b, buf, p);
    case Num(_) => DecodeNum(v, buf, p);
    case Big(_) => DecodeNum(v, buf, p);
    case Bytes(bs) => DecodeBytes(bs, buf, p);
    case Str(t) => DecodeStr(t, buf, p);
    case Arr(_) => DecodeArr(v, buf, p);
    case Dict(_) => DecodeDict(v, buf, p);
  }

  lemma {:induction false} DecodeArr(v: Val, buf: seq<byte>, p: nat)
    requires v.Arr? && Supported(v) && At(buf, p, Enc(v))
    ensures Dec(buf, p) == Success((v, p + |Enc(v)|))
    decreases v, 1
  {
    DecodeEachItem(v, buf);
    ArrFinish(v, buf, p);
  }

  lemma {:induction false} DecodeDict(v: Val, buf: seq<byte>, p: nat)
    requires v.Dict? && Supported(v) && At(buf, p, Enc(v))
    ensures Dec(buf, p) == Success((v, p + |Enc(v)|))
    decreases v, 1
  {
    DecodeEachEntry(v, buf);
    DictFinish(v, buf, p);
  }

  /** An encoded array decodes once each of its elements does. */
  lemma ArrFinish(v: Val, buf: seq<byte>, p: nat)
    requires v.Arr? && At(buf, p, Enc(v))
    requires ItemsDecode(buf, v.items, EncItems(v))
    ensures Dec(buf, p) == Success((v, p + |Enc(v)|))
  {
    var h, f := Pack(Header(TagArray, |v.items|, TagColon)), Flatten(EncItems(v));
    EncArrShape(v);
    LengthHead(buf, p, TagArray, |v.items|, h, f);
    ArrGlue(buf, p, v.items, EncItems(v), |h|, |Enc(v)|);
    assert Arr(v.items) == v;
  }

  /** An encoded object decodes once each of its entries does. */
  lemma DictFinish(v: Val, buf: seq<byte>, p: nat)
    requires v.Dict? && At(buf, p, Enc(v))
    requires EntriesDecode(buf, v.entries, EncEntries(v))
    ensures Dec(buf, p) == Success((v, p + |Enc(v)|))
  {
    var h, f := Pack(Header(TagObject, |v.entries|, TagColon)), Flatten(EncEntries(v));
    EncDictShape(v);
    LengthHead(buf, p, TagObject, |v.entries|, h, f);
    DictGlue(buf, p, v.entries, EncEntries(v), |h|, |Enc(v)|);
    assert Dict(v.entries) == v;
  }

  /** A tag at `p`, a length header reading back `n` that takes `hl` bytes with the tag, and `f` after it. */
  ghost predicate HeadAt(buf: seq<byte>, p: nat, tag: byte, n: nat, hl: nat, f: seq<byte>) {
    hl >= 2 && p < |buf| && buf[p] == tag && LengthAt(buf, p + 1) == Success((n, (p + hl - 1) as nat)) &&
    At(buf, p + hl, f)
  }

  /** A tag with a length header `h`, then `f`, lying at `p`: the header reads back `n` and `f` follows it. */
  lemma LengthHead(buf: seq<byte>, p: nat, tag: byte, n: nat, h: seq<byte>, f: seq<byte>)
    requires 1 <= tag < 0x80 && h == Pack(Header(tag, n, TagColon)) && At(buf, p, h + f)
    ensures HeadAt(buf, p, tag, n, |h|, f)
  {
    HeaderSize(tag, n, TagColon);
    AtSplit(buf, p, h, f);
    LengthHeader(buf, p, tag, n, p + |h| - 1);
  }

  /**
   * An array tag, a length header of `hl` bytes in all, and the encoded
   * elements after it, `total` bytes in all, decode to the array.
   */
  lemma ArrGlue(buf: seq<byte>, p: nat, items: seq<Val>, parts: seq<seq<byte>>, hl: nat, total: nat)
    requires |parts| == |items| && total == hl + |Flatten(parts)|
    requires HeadAt(buf, p, TagArray, |items|, hl, Flatten(parts))
    requires ItemsDecode(buf, items, parts)
    ensures Dec(buf, p) == Success((Arr(items), p + total))
  {
    ItemsAll(buf, items, parts, p + hl, p + total);
    ArrayOf(buf, p, |items|, p + hl, items, p + total);
  }

  /** The object counterpart of `ArrGlue`. */
  lemma DictGlue(buf: seq<byte>, p: nat, entries: seq<(Text, Val)>, parts: seq<seq<byte>>, hl: nat, total: nat)
    requires |parts| == |entries| && total == hl + |Flatten(parts)|
    requires HeadAt(buf, p, TagObject, |entries|, hl, Flatten(parts))
    requires EntriesDecode(buf, entries, parts)
    ensures Dec(buf, p) == Success((Dict(entries), p + total))
  {
    EntriesAll(buf, entries, parts, p + hl, p + total);
    ObjectOf(buf, p, |entries|, p + hl, entries, p + total);
  }

  lemma EncArrShape(v: Val)
    requires v.Arr?
    ensures Enc(v) == Pack(Header(TagArray, |v.items|, TagColon)) + Flatten(EncItems(v))
  {
  }

  lemma EncDictShape(v: Val)
    requires v.Dict?
    ensures Enc(v) == Pack(Header(TagObject, |v.entries|, TagColon)) + Flatten(EncEntries(v))
  {
  }

  /**
   * The array branch of `Dec` from its parts: the tag, a length header
   * ending just before `b`, and the loop from `b`.
   */
  lemma ArrayOf(buf: seq<byte>, p: nat, size: nat, b: nat, items: seq<Val>, q: nat)
    requires p < |buf| && buf[p] == TagArray && 1 <= b && LengthAt(buf, p + 1) == Success((size, b - 1))
    requires DecItems(buf, b, size, []) == Success((items, q))
    ensures Dec(buf, p) == Success((Arr(items), q))
  {
    var e: nat := b - 1;
    assert e + 1 == b;
  }

  /** The object branch of `Dec` from its parts, as `ArrayOf`. */
  lemma ObjectOf(buf: seq<byte>, p: nat, size: nat, b: nat, entries: seq<(Text, Val)>, q: nat)
    requires p < |buf| && buf[p] == TagObject && 1 <= b && LengthAt(buf, p + 1) == Success((size, b - 1))
    requires DecEntries(buf, b, size, []) == Success((entries, q))
    ensures Dec(buf, p) == Success((Dict(entries), q))
  {
    var e: nat := b - 1;
    assert e + 1 == b;
  }

  lemma ItemsAll(buf: seq<byte>, items: seq<Val>, parts: seq<seq<byte>>, q: nat, q': nat)
    requires |parts| == |items| && q' == q + |Flatten(parts)|
    requires ItemsDecode(buf, items, parts)
    requires At(buf, q, Flatten(parts))
    ensures DecItems(buf, q, |items|, []) == Success((items, q'))
  {
    assert parts[0..] == parts && items[..0] == [];
    ItemsLoop(buf, items, parts, 0, q);
  }

  lemma EntriesAll(buf: seq<byte>, entries: seq<(Text, Val)>, parts: seq<seq<byte>>, q: nat, q': nat)
    requires |parts| == |entries| && q' == q + |Flatten(parts)|
    requires EntriesDecode(buf, entries, parts)
    requires At(buf, q, Flatten(parts))
    ensures DecEntries(buf, q, |entries|, []) == Success((entries, q'))
  {
    assert parts[0..] == parts && entries[..0] == [];
    EntriesLoop(buf, entries, parts, 0, q);
  }

  /** Each encoded element, wherever it lies in the buffer, decodes to its element. */
  ghost predicate ItemsDecode(buf: seq<byte>, items: seq<Val>, parts: seq<seq<byte>>)
    requires |parts| == |items|
  {
    forall i, p: nat {:trigger At(buf, p, parts[i])} | 0 <= i < |items| && At(buf, p, parts[i]) ::
      Dec(buf, p).Success? && Dec(buf, p).value.0 == items[i] && Dec(buf, p).value.1 == p + |parts[i]|
  }

  /** Each encoded entry, wherever it lies in the buffer, decodes as one pass of the object loop. */
  ghost predicate EntriesDecode(buf: seq<byte>, entries: seq<(Text, Val)>, parts: seq<seq<byte>>)
    requires |parts| == |entries|
  {
    forall i, p: nat {:trigger At(buf, p, parts[i])} | 0 <= i < |entries| && At(buf, p, parts[i]) ::
      DecEntry(buf, p, entries[..i]).Success? && DecEntry(buf, p, entries[..i]).value.0 == entries[..i + 1] &&
      DecEntry(buf, p, entries[..i]).value.1 == p + |parts[i]|
  }

  /** Every element of an array decodes from wherever its encoding lies. */
  lemma DecodeEachItem(v: Val, buf: seq<byte>)
    requires v.Arr? && Supported(v)
    ensures ItemsDecode(buf, v.items, EncItems(v))
    decreases v, 0
  {
    forall i, p: nat | 0 <= i < |v.items| && At(buf, p, EncItems(v)[i])
      ensures Dec(buf, p).Success? && Dec(buf, p).value.0 == v.items[i] && Dec(buf, p).value.1 == p + |EncItems(v)[i]|
    {
      DecodeItemAt(v, i, buf, p);
    }
  }

  /** Element `k` of an array decodes from where its encoding lies. */
  lemma {:induction false} DecodeItemAt(v: Val, k: nat, buf: seq<byte>, q: nat)
    requires v.Arr? && Supported(v) && k < |v.items|
    requires At(buf, q, EncItems(v)[k])
    ensures Dec(buf, q).Success? && Dec(buf, q).value.0 == v.items[k] && Dec(buf, q).value.1 == q + |EncItems(v)[k]|
    decreases v, 0, 1
  {
    var item, part := v.items[k], EncItems(v)[k];
    assert part == Enc(item) && Supported(item);
    DecodeEncode(item, buf, q);
  }

  /** Every entry of an object decodes, as one pass of the object loop, from wherever its encoding lies. */
  lemma DecodeEachEntry(v: Val, buf: seq<byte>)
    requires v.Dict? && Supported(v)
    ensures EntriesDecode(buf, v.entries, EncEntries(v))
    decreases v, 0
  {
    forall i, p: nat | 0 <= i < |v.entries| && At(buf, p, EncEntries(v)[i])
      ensures DecEntry(buf, p, v.entries[..i]).Success? && DecEntry(buf, p, v.entries[..i]).value.0 == v.entries[..i + 1]
      ensures DecEntry(buf, p, v.entries[..i]).value.1 == p + |EncEntries(v)[i]|
    {
      DecodeEntryAt(v, i, buf, p);
    }
  }

  /** One pass of the object loop reads back entry `k`. */
  lemma {:induction false} DecodeEntryAt(v: Val, k: nat, buf: seq<byte>, q: nat)
    requires v.Dict? && Supported(v) && k < |v.entries|
    requires At(buf, q, EncEntries(v)[k])
    ensures DecEntry(buf, q, v.entries[..k]) == Success((v.entries[..k + 1], q + |EncEntries(v)[k]|))
    decreases v, 0, 1
  {
    EntryLayout(v, k, buf, q);
    SupportedEntry(v, k);
    DecodeKeyValue(v.entries[k].0, v.entries[k].1, v.entries[..k], v.entries[..k + 1],
      buf, q, |EncStr(v.entries[k].0)|, |Enc(v.entries[k].1)|);
  }

  /** A key and a value, each decoded where its encoding lies, stored by one pass of the object loop. */
  lemma {:induction false} DecodeKeyValue(key: Text, item: Val, acc: seq<(Text, Val)>, acc': seq<(Text, Val)>,
                                          buf: seq<byte>, q: nat, n1: nat, n2: nat)
    requires IsAscii(key) && key != ProtoKey && Supported(item) && acc' == DictSet(acc, key, item)
    requires n1 == |EncStr(key)| && n2 == |Enc(item)|
    requires At(buf, q, EncStr(key)) && At(buf, q + n1, Enc(item))
    ensures DecEntry(buf, q, acc) == Success((acc', q + n1 + n2))
    decreases item, 3
  {
    DecodeStr(key, buf, q);
    assert Dec(buf, q) == Success((Str(key), q + n1));
    DecodeEncode(item, buf, q + n1);
    assert Dec(buf, q + n1) == Success((item, q + n1 + n2));
    EntryGlue(buf, q, acc, key, item, n1, n2, acc');
  }

  /** One pass of the object loop from its parts: the key, the value, and the entry stored. */
  lemma EntryGlue(buf: seq<byte>, q: nat, acc: seq<(Text, Val)>, key: Text, item: Val, n1: nat, n2: nat,
                  acc': seq<(Text, Val)>)
    requires Dec(buf, q) == Success((Str(key), q + n1)) && Dec(buf, q + n1) == Success((item, q + n1 + n2))
    requires acc' == DictSet(acc, key, item)
    ensures DecEntry(buf, q, acc) == Success((acc', q + n1 + n2))
  {
  }

  /** An encoded entry in the buffer: the key as a string, then the value. */
  lemma EntryLayout(v: Val, k: nat, buf: seq<byte>, q: nat)
    requires v.Dict? && k < |v.entries| && At(buf, q, EncEntries(v)[k])
    ensures At(buf, q, EncStr(v.entries[k].0))
    ensures At(buf, q + |EncStr(v.entries[k].0)|, Enc(v.entries[k].1))
    ensures |EncEntries(v)[k]| == |EncStr(v.entries[k].0)| + |Enc(v.entries[k].1)|
  {
    assert EncEntries(v)[k] == EncStr(v.entries[k].0) + Enc(v.entries[k].1);
    AtSplit(buf, q, EncStr(v.entries[k].0), Enc(v.entries[k].1));
  }

  /** Entry `k` of a supported object: an ASCII key other than `__proto__` not seen before, and a supported value. */
  lemma SupportedEntry(v: Val, k: nat)
    requires v.Dict? && Supported(v) && k < |v.entries|
    ensures IsAscii(v.entries[k].0) && v.entries[k].0 != ProtoKey && Supported(v.entries[k].1)
    ensures DictSet(v.entries[..k], v.entries[k].0, v.entries[k].1) == v.entries[..k + 1]
  {
    var e := v.entries;
    assert e[k].0 !in Keys(e[..k]);
    DictSetKeys(e[..k], e[k].0, e[k].1);
    assert e[..k] + [e[k]] == e[..k + 1];
  }

  lemma FlattenFrom(parts: seq<seq<byte>>, k: nat)
    requires k < |parts|
    ensures Flatten(parts[k..]) == parts[k] + Flatten(parts[k + 1..])
  {
    FlattenCons(parts[k..]);
    assert parts[k..][1..] == parts[k + 1..];
  }

  /**
   * The array loop over encoded elements laid out one after another: when
   * each element decodes from wherever its encoding lies, the loop reads
   * them all back from index `k` on.
   */
  lemma {:induction false} ItemsLoop(buf: seq<byte>, items: seq<Val>, parts: seq<seq<byte>>, k: nat, q: nat)
    requires |parts| == |items| && k <= |items|
    requires ItemsDecode(buf, items, parts)
    requires At(buf, q, Flatten(parts[k..]))
    ensures DecItems(buf, q, |items| - k, items[..k]) == Success((items, q + |Flatten(parts[k..])|))
    decreases |items| - k
  {
    if k == |items| {
      assert items[..k] == items;
      assert parts[k..] == [];
    } else {
      var q' := q + |parts[k]|;
      FlattenFrom(parts, k);
      AtSplit(buf, q, parts[k], Flatten(parts[k + 1..]));
      assert items[..k] + [items[k]] == items[..k + 1];
      DecItemsNext(buf, q, |items| - k, items[..k], items[k], q');
      ItemsLoop(buf, items, parts, k + 1, q');
    }
  }

  /** The object loop over encoded entries laid out one after another, as `ItemsLoop` for arrays. */
  lemma {:induction false} EntriesLoop(buf: seq<byte>, entries: seq<(Text, Val)>, parts: seq<seq<byte>>, k: nat, q: nat)
    requires |parts| == |entries| && k <= |entries|
    requires EntriesDecode(buf, entries, parts)
    requires At(buf, q, Flatten(parts[k..]))
    ensures DecEntries(buf, q, |entries| - k, entries[..k]) == Success((entries, q + |Flatten(parts[k..])|))
    decreases |entries| - k
  {
    if k == |entries| {
      assert entries[..k] == entries;
      assert parts[k..] == [];
    } else {
      var q' := q + |parts[k]|;
      FlattenFrom(parts, k);
      AtSplit(buf, q, parts[k], Flatten(parts[k + 1..]));
      DecEntriesNext(buf, q, |entries| - k, entries[..k], entries[..k + 1], q');
      EntriesLoop(buf, entries, parts, k + 1, q');
    }
  }

  lemma DecItemsNext(buf: seq<byte>, p: nat, n: nat, acc: seq<Val>, v: Val, q: nat)
    requires n > 0 && Dec(buf, p) == Success((v, q))
    ensures DecItems(buf, p, n, acc) == DecItems(buf, q, n - 1, acc + [v])
  {
  }

  lemma DecEntriesNext(buf: seq<byte>, p: nat, n: nat, acc: seq<(Text, Val)>, acc': seq<(Text, Val)>, q: nat)
    requires n > 0 && DecEntry(buf, p, acc) == Success((acc', q))
    ensures DecEntries(buf, p, n, acc) == DecEntries(buf, q, n - 1, acc')
  {
  }

  /** `decode(encode(v).final())` is `v` for every supported value. */
  lemma RoundTrip(v: Val)
    requires Supported(v)
    ensures ValueOf(Dec(Enc(v), 0)) == Success(v)
  {
    assert Enc(v)[0..|Enc(v)|] == Enc(v);
    DecodeEncode(v, Enc(v), 0);
  }
  /**
   * An own `__proto__` key does not survive decoding: when the object loop
   * reads the key `__proto__` and a value, `r["__proto__"] = value` goes to
   * the prototype setter and the entries read so far stay as they are. So
   * `d1:s9:__proto__n` reads back as an object without keys.
   */
  lemma ProtoEntrySkipped(buf: seq<byte>, q: nat, acc: seq<(Text, Val)>, item: Val, q1: nat, q2: nat)
    requires Dec(buf, q) == Success((Str(ProtoKey), q1)) && Dec(buf, q1) == Success((item, q2))
    ensures DecEntry(buf, q, acc) == Success((acc, q2))
  {
  }

  /** Decoding `encode(v)` followed by anything stops exactly at the end of `encode(v)`. */
  lemma PrefixRoundTrip(v: Val, rest: seq<byte>)
    requires Supported(v)
    ensures Dec(Enc(v) + rest, 0) == Success((v, |Enc(v)|))
  {
    var buf := Enc(v) + rest;
    assert At(buf, 0, Enc(v)) by {
      forall i | 0 <= i < |Enc(v)|
        ensures buf[0 + i] == Enc(v)[i]
      {
      }
    }
    DecodeEncode(v, buf, 0);
  }

  /** The tags `decode` knows. */
  predicate IsTag(b: byte) {
    b == TagUndefined || b == TagNull || b == TagBoolean || b == TagBytes || b == TagNumber ||
    b == TagBigint || b == TagString || b == TagObject || b == TagArray
  }

  /** What `decode` reads is of the kind its tag byte names. */
  lemma DecKind(buf: seq<byte>, p: nat)
    ensures Dec(buf, p).Success? ==> p < |buf| && KindTag(Dec(buf, p).value.0) == Some(buf[p])
  {
  }

  /** A byte that is no tag, or a read past the end, is an unknown-tag failure. */
  lemma UnknownTagFails(buf: seq<byte>, p: nat)
    requires p >= |buf| || !IsTag(buf[p])
    ensures Dec(buf, p) == Failure(UnknownTag)
  {
  }

  /** After a boolean tag the value is true exactly when the next byte is `1`; the cursor moves past both bytes. */
  lemma BooleanDecode(buf: seq<byte>, p: nat)
    requires p < |buf| && buf[p] == TagBoolean
    ensures Dec(buf, p).Success? && Dec(buf, p).value.0.Bool? && Dec(buf, p).value.1 == p + 2
    ensures Dec(buf, p).value.0.b <==> p + 1 < |buf| && buf[p + 1] == TagOne
  {
  }
}
