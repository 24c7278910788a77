/**
 * The JavaScript vocabulary shared by the codec, the message envelope and the
 * discovery engine: bytes, UTF-16 code units, the universe of values the codec
 * carries, and the few operations of the JavaScript object model that the
 * source applies to decoded values (`o.k`, `o.k = v`, `Object.assign`, truthiness,
 * key conversion, decimal text of integers).
 */
module Values {

  newtype byte = b: int | 0 <= b < 0x100

  /** One UTF-16 code unit: what `String.prototype.charCodeAt` returns. */
  newtype CodeUnit = c: int | 0 <= c < 0x1_0000

  /** A JavaScript string is a sequence of code units (lone surrogates included). */
  type Text = seq<CodeUnit>

  datatype Option<T> = None | Some(value: T)

  /**
   * The values the codec sees. `Dict` is a plain object whose own keys are
   * listed in `Object.keys` order; `Func` and `Symbol` stand for the kinds the
   * encoder silently drops.
   */
  datatype Val =
    | Undef
    | Null
    | Bool(b: bool)
    | Num(num: int)
    | Big(big: int)
    | Bytes(bytes: seq<byte>)
    | Str(s: Text)
    | Arr(items: seq<Val>)
    | Dict(entries: seq<(Text, Val)>)
    | Func
    | Symbol

  // ---------------------------------------------------------------------------
  // Texts used by the model (code units written out; the comments give the text)

  const Minus: CodeUnit := 0x2D                      // '-'
  const TextTrue: Text := [0x74, 0x72, 0x75, 0x65]  // "true"
  const TextFalse: Text := [0x66, 0x61, 0x6C, 0x73, 0x65]  // "false"
  const TextNull: Text := [0x6E, 0x75, 0x6C, 0x6C]  // "null"
  const TextUndefined: Text := [0x75, 0x6E, 0x64, 0x65, 0x66, 0x69, 0x6E, 0x65, 0x64]  // "undefined"

  /** Printable ASCII without NUL: the code units the text packing keeps as one byte. */
  predicate IsAscii(t: Text) {
    forall i | 0 <= i < |t| :: 1 <= t[i] <= 0x7F
  }

  // ---------------------------------------------------------------------------
  // Decimal text of integers (`${n}` for a safe integer or a bigint) and its parsing

  predicate IsDigit(c: CodeUnit) {
    0x30 <= c <= 0x39
  }

  predicate AllDigits(t: Text) {
    forall i | 0 <= i < |t| :: IsDigit(t[i])
  }

  function DigitUnit(d: nat): (c: CodeUnit)
    requires d < 10
    ensures IsDigit(c) && c as int - 0x30 == d
  {
    (0x30 + d) as CodeUnit
  }

  /** Decimal digits of a natural number, without leading zeros (see `NatTextShape`). */
  function NatText(n: nat): Text {
    if n < 10 then [DigitUnit(n)] else NatText(n / 10) + [DigitUnit(n % 10)]
  }

  /** The text JavaScript gives an integer: an optional '-' and its digits (see `DecimalTextShape`). */
  function DecimalText(n: int): Text {
    if n < 0 then [Minus] + NatText(-n) else NatText(n)
  }

  lemma {:induction false} NatTextShape(n: nat)
    ensures |NatText(n)| > 0 && AllDigits(NatText(n))
    ensures |NatText(n)| > 1 ==> NatText(n)[0] != 0x30
  {
    if n >= 10 {
      NatTextShape(n / 10);
      var t := NatText(n);
      assert t == NatText(n / 10) + [DigitUnit(n % 10)];
      assert forall i | 0 <= i < |t| - 1 :: t[i] == NatText(n / 10)[i];
      if |NatText(n / 10)| == 1 {
        assert n / 10 != 0;
        assert NatText(n / 10) == [DigitUnit(n / 10)];
      }
    }
  }

  /** An integer's text is non-empty ASCII made of digits and at most a leading minus sign. */
  lemma DecimalTextShape(n: int)
    ensures |DecimalText(n)| > 0 && IsAscii(DecimalText(n))
    ensures forall i | 0 <= i < |DecimalText(n)| :: IsDigit(DecimalText(n)[i]) || DecimalText(n)[i] == Minus
  {
    NatTextShape(if n < 0 then -n else n);
  }

  /**
   * The value of the decimal digits `t[lo..k]` (leading zeros allowed);
   * None if one of those units is not a digit.
   */
  function DigitsValue(t: Text, lo: nat, k: nat): Option<nat>
    requires lo <= k <= |t|
    decreases k - lo
  {
    if k == lo then Some(0)
    else
      match DigitsValue(t, lo, k - 1)
      case None => None
      case Some(n) => if IsDigit(t[k - 1]) then Some(n * 10 + (t[k - 1] as int - 0x30)) else None
  }

  /** A length header: one or more decimal digits. */
  function ParseNat(t: Text): Option<nat> {
    if |t| > 0 then DigitsValue(t, 0, |t|) else None
  }

  /** An integer body: an optional '-' and one or more decimal digits. */
  function ParseInteger(t: Text): Option<int> {
    if |t| > 0 && t[0] == Minus then
      if |t| > 1 then
        match DigitsValue(t, 1, |t|)
        case Some(n) => Some(-(n as int))
        case None => None
      else None
    else
      match ParseNat(t)
      case Some(n) => Some(n)
      case None => None
  }

  /** The digits parse exactly when every unit is a digit. */
  lemma {:induction false} DigitsValueDefined(t: Text, lo: nat, k: nat)
    requires lo <= k <= |t|
    ensures DigitsValue(t, lo, k).Some? <==> forall i | lo <= i < k :: IsDigit(t[i])
    decreases k - lo
  {
    if k > lo {
      DigitsValueDefined(t, lo, k - 1);
    }
  }

  /** The value of a run of digits depends only on those digits, wherever they lie. */
  lemma {:induction false} DigitsShift(t: Text, u: Text, lo: nat, k: nat, off: nat)
    requires off <= lo <= k <= |t| && k - off <= |u|
    requires forall i | lo <= i < k :: t[i] == u[i - off]
    ensures DigitsValue(t, lo, k) == DigitsValue(u, lo - off, k - off)
    decreases k - lo
  {
    if k > lo {
      DigitsShift(t, u, lo, k - 1, off);
    }
  }

  lemma {:induction false} ParseNatText(n: nat)
    ensures ParseNat(NatText(n)) == Some(n)
  {
    var t := NatText(n);
    if n >= 10 {
      var u := NatText(n / 10);
      ParseNatText(n / 10);
      assert t == u + [DigitUnit(n % 10)];
      DigitsShift(t, u, 0, |u|, 0);
      assert DigitsValue(t, 0, |t| - 1) == Some(n / 10);
      assert t[|t| - 1] == DigitUnit(n % 10);
      assert (n / 10) * 10 + n % 10 == n;
    } else {
      assert t == [DigitUnit(n)];
      assert DigitsValue(t, 0, 0) == Some(0);
    }
  }

  /** Parsing the decimal text of an integer gives the integer back. */
  lemma ParseDecimalText(n: int)
    ensures ParseInteger(DecimalText(n)) == Some(n)
  {
    if n < 0 {
      ParseNegative(-n);
    } else {
      ParseNonNegative(n);
    }
  }

  /** A '-' and the digits of `m` parse to `-m`. */
  lemma ParseNegative(m: nat)
    ensures ParseInteger([Minus] + NatText(m)) == Some(-(m as int))
  {
    var u := NatText(m);
    var t := [Minus] + u;
    ParseNatText(m);
    NatTextShape(m);
    assert |t| > 1 && t[0] == Minus;
    DigitsShift(t, u, 1, |t|, 1);
    assert DigitsValue(t, 1, |t|) == Some(m);
  }

  /** The digits of `n`, which do not start with '-', parse to `n`. */
  lemma ParseNonNegative(n: nat)
    ensures ParseInteger(NatText(n)) == Some(n)
  {
    ParseNatText(n);
    NatTextShape(n);
    assert IsDigit(NatText(n)[0]);
  }

  /** A non-negative integer's text is its digits alone, so a length header parses back. */
  lemma ParseNatDecimal(n: nat)
    ensures ParseNat(DecimalText(n)) == Some(n)
  {
    ParseNatText(n);
  }

  // ---------------------------------------------------------------------------
  // Plain objects as ordered key/value lists

  function Keys(e: seq<(Text, Val)>): (ks: seq<Text>)
    ensures |ks| == |e| && forall i | 0 <= i < |e| :: ks[i] == e[i].0
  {
    if e == [] then [] else [e[0].0] + Keys(e[1..])
  }

  predicate DistinctKeys(e: seq<(Text, Val)>) {
    forall i, j | 0 <= i < j < |e| :: e[i].0 != e[j].0
  }

  /** `o[k]` on a plain object: the value under `k`, `undefined` when absent. */
  function DictGet(e: seq<(Text, Val)>, k: Text): (v: Val)
    ensures k !in Keys(e) ==> v == Undef
  {
    if e == [] then Undef
    else if e[0].0 == k then e[0].1
    else DictGet(e[1..], k)
  }

  /** `o[k]` is the value of the first entry with key `k`. */
  lemma {:induction false} DictGetAt(e: seq<(Text, Val)>, k: Text, i: nat)
    requires i < |e| && e[i].0 == k && k !in Keys(e[..i])
    ensures DictGet(e, k) == e[i].1
  {
    if i > 0 {
      assert Keys(e[..i])[0] == e[0].0;
      assert e[1..][..i - 1] == e[..i][1..];
      assert Keys(e[..i]) == [e[0].0] + Keys(e[..i][1..]);
      DictGetAt(e[1..], k, i - 1);
    }
  }

  /** "__proto__": the key whose assignment goes to the prototype setter of `Object.prototype`. */
  const ProtoKey: Text := [0x5F, 0x5F, 0x70, 0x72, 0x6F, 0x74, 0x6F, 0x5F, 0x5F]

  /**
   * `o[k] = v` on a plain object: an existing key keeps its position and takes
   * the new value, a new key goes last. `o["__proto__"] = v` invokes the
   * prototype setter instead and creates no own key, so the entries stay as
   * they are (the prototype it installs is not part of the model).
   */
  function DictSet(e: seq<(Text, Val)>, k: Text, v: Val): (r: seq<(Text, Val)>)
    ensures |e| <= |r| <= |e| + 1
  {
    if k == ProtoKey then e
    else if e == [] then [(k, v)]
    else if e[0].0 == k then [(k, v)] + e[1..]
    else [e[0]] + DictSet(e[1..], k, v)
  }

  /**
   * Setting `__proto__` leaves the entries; setting another present key keeps
   * the key order; setting another absent key appends it.
   */
  lemma {:induction false} DictSetKeys(e: seq<(Text, Val)>, k: Text, v: Val)
    ensures k == ProtoKey ==> DictSet(e, k, v) == e
    ensures k != ProtoKey && k in Keys(e) ==> Keys(DictSet(e, k, v)) == Keys(e)
    ensures k != ProtoKey && k !in Keys(e) ==> DictSet(e, k, v) == e + [(k, v)]
  {
    if k == ProtoKey {
    } else if e == [] {
    } else if e[0].0 == k {
      assert k in Keys(e) by { assert Keys(e)[0] == k; }
      assert DictSet(e, k, v)[1..] == e[1..];
    } else {
      var r := DictSet(e[1..], k, v);
      DictSetKeys(e[1..], k, v);
      assert Keys(e) == [e[0].0] + Keys(e[1..]);
      assert k in Keys(e) <==> k in Keys(e[1..]);
      assert DictSet(e, k, v) == [e[0]] + r;
      assert ([e[0]] + r)[1..] == r;
      assert Keys(DictSet(e, k, v)) == [e[0].0] + Keys(r);
      assert e == [e[0]] + e[1..];
    }
  }

  /** `Object.assign(target, source)` with `source` given by its own enumerable entries. */
  function Assign(target: seq<(Text, Val)>, source: seq<(Text, Val)>): (r: seq<(Text, Val)>)
    ensures |target| <= |r| <= |target| + |source|
    decreases |source|
  {
    if source == [] then target else Assign(DictSet(target, source[0].0, source[0].1), source[1..])
  }

  /**
   * The own enumerable entries `Object.assign` copies from a source value:
   * an object's entries, the indexed elements of a string, array or byte
   * array, nothing for the other kinds.
   */
  function OwnEntries(v: Val): (r: seq<(Text, Val)>)
    ensures !(v.Dict? || v.Str? || v.Arr? || v.Bytes?) ==> r == []
    ensures !v.Dict? ==> forall i | 0 <= i < |r| :: r[i].0 == DecimalText(i)
  {
    match v
    case Dict(e) => e
    case Str(s) => seq(|s|, i requires 0 <= i < |s| => (DecimalText(i), Str([s[i]])))
    case Arr(items) => seq(|items|, i requires 0 <= i < |items| => (DecimalText(i), items[i]))
    case Bytes(bs) => seq(|bs|, i requires 0 <= i < |bs| => (DecimalText(i), Num(bs[i] as int)))
    case _ => []
  }

  /** Truthiness as `if (x)` sees it. */
  predicate Truthy(v: Val)
    ensures v.Dict? || v.Arr? || v.Bytes? || v.Func? || v.Symbol? ==> Truthy(v)
    ensures !Truthy(v) <==> v in {Undef, Null, Bool(false), Num(0), Big(0), Str([])}
  {
    match v
    case Undef => false
    case Null => false
    case Bool(b) => b
    case Num(n) => n != 0
    case Big(n) => n != 0
    case Str(s) => s != []
    case _ => true
  }

  /**
   * Property read `v.k`: a TypeError (None) on `undefined` and `null`, the
   * entry of an object, and `undefined` for any other kind (no key used by the
   * source names a string index, `length` or a method).
   */
  function Prop(v: Val, k: Text): (r: Option<Val>)
    ensures r.None? <==> v.Undef? || v.Null?
  {
    match v
    case Undef => None
    case Null => None
    case Dict(e) => Some(DictGet(e, k))
    case _ => Some(Undef)
  }

  /**
   * The property key a value becomes in `o[v]`: strings are themselves,
   * numbers and bigints their decimal text, and the other primitives their
   * names; objects (whose string form the model does not follow) give None.
   */
  function PropertyKey(v: Val): (r: Option<Text>)
    ensures r.None? <==> v.Dict? || v.Arr? || v.Bytes? || v.Func? || v.Symbol?
    ensures v.Str? ==> r == Some(v.s)
  {
    match v
    case Str(s) => Some(s)
    case Num(n) => Some(DecimalText(n))
    case Big(n) => Some(DecimalText(n))
    case Bool(b) => Some(if b then TextTrue else TextFalse)
    case Undef => Some(TextUndefined)
    case Null => Some(TextNull)
    case _ => None
  }

  // ---------------------------------------------------------------------------
  // Properties of the object operations

  /** After `o[k] = v`, `o[k]` is `v` (unless `k` is `__proto__`) and every other key reads as before. */
  lemma {:induction false} DictSetGet(e: seq<(Text, Val)>, k: Text, v: Val, k': Text)
    ensures DictGet(DictSet(e, k, v), k') == if k' == k && k != ProtoKey then v else DictGet(e, k')
  {
    if k != ProtoKey && e != [] && e[0].0 != k {
      DictSetGet(e[1..], k, v, k');
    }
  }

  lemma {:induction false} DictSetDistinct(e: seq<(Text, Val)>, k: Text, v: Val)
    requires DistinctKeys(e)
    ensures DistinctKeys(DictSet(e, k, v))
  {
    if k == ProtoKey || e == [] {
    } else if e[0].0 == k {
      DistinctTail(e);
      DistinctCons((k, v), e[1..]);
    } else {
      DistinctTail(e);
      DictSetDistinct(e[1..], k, v);
      DictSetKeeps(e[0], e[1..], k, v);
    }
  }

  /** Setting a key other than `x`'s behind `x` leaves `x` the only entry with its key. */
  lemma DictSetKeeps(x: (Text, Val), t: seq<(Text, Val)>, k: Text, v: Val)
    requires k != ProtoKey && x.0 != k && x.0 !in Keys(t) && DistinctKeys(DictSet(t, k, v))
    ensures DistinctKeys(DictSet([x] + t, k, v))
  {
    var r := DictSet(t, k, v);
    assert ([x] + t)[1..] == t;
    assert DictSet([x] + t, k, v) == [x] + r;
    DictSetKeys(t, k, v);
    DistinctCons(x, r);
  }

  /** Without repeated keys, the first key does not recur and the rest has no repeats either. */
  lemma DistinctTail(e: seq<(Text, Val)>)
    requires e != [] && DistinctKeys(e)
    ensures DistinctKeys(e[1..]) && e[0].0 !in Keys(e[1..])
  {
    var t := e[1..];
    forall i, j | 0 <= i < j < |t|
      ensures t[i].0 != t[j].0
    {
      assert t[i] == e[i + 1] && t[j] == e[j + 1];
    }
    forall j | 0 <= j < |t|
      ensures Keys(t)[j] != e[0].0
    {
      assert t[j] == e[j + 1];
    }
  }

  /** A new key in front of entries without repeats keeps them without repeats. */
  lemma DistinctCons(x: (Text, Val), r: seq<(Text, Val)>)
    requires DistinctKeys(r) && x.0 !in Keys(r)
    ensures DistinctKeys([x] + r)
  {
    var s := [x] + r;
    forall i, j | 0 <= i < j < |s|
      ensures s[i].0 != s[j].0
    {
      assert s[j] == r[j - 1];
      if i == 0 {
        assert Keys(r)[j - 1] == r[j - 1].0;
      } else {
        assert s[i] == r[i - 1];
      }
    }
  }

  /** The entries of `source` that assignments turn into own keys: all but those keyed `__proto__`. */
  function Settable(source: seq<(Text, Val)>): (r: seq<(Text, Val)>)
    ensures ProtoKey !in Keys(r)
  {
    if source == [] then []
    else (if source[0].0 == ProtoKey then [] else [source[0]]) + Settable(source[1..])
  }

  /** Entries without a `__proto__` key are all settable. */
  lemma {:induction false} SettableAll(source: seq<(Text, Val)>)
    requires ProtoKey !in Keys(source)
    ensures Settable(source) == source
  {
    if source != [] {
      assert Keys(source) == [source[0].0] + Keys(source[1..]);
      SettableAll(source[1..]);
      assert source == [source[0]] + source[1..];
    }
  }

  /**
   * After `Object.assign(target, source)` every key of `source` other than
   * `__proto__` holds the source's value and every other key keeps the
   * target's value.
   */
  lemma {:induction false} AssignGet(target: seq<(Text, Val)>, source: seq<(Text, Val)>, k: Text)
    requires DistinctKeys(source)
    ensures DictGet(Assign(target, source), k) ==
      if k in Keys(source) && k != ProtoKey then DictGet(source, k) else DictGet(target, k)
    decreases |source|
  {
    if source != [] {
      var k0, v0 := source[0].0, source[0].1;
      assert k0 !in Keys(source[1..]);
      assert Keys(source) == [k0] + Keys(source[1..]);
      AssignGet(DictSet(target, k0, v0), source[1..], k);
      DictSetGet(target, k0, v0, k);
    }
  }

  /** Assigning keys new to the target appends the settable ones in order. */
  lemma {:induction false} AssignFresh(target: seq<(Text, Val)>, source: seq<(Text, Val)>)
    requires DistinctKeys(target + source)
    ensures Assign(target, source) == target + Settable(source)
    decreases |source|
  {
    if source != [] {
      var x, rest := source[0], source[1..];
      assert source == [x] + rest;
      AssignStep(target, x, rest);
      if x.0 == ProtoKey {
        DistinctSkip(target, x, rest);
        AssignFresh(target, rest);
        assert Assign(target, source) == target + Settable(rest);
        assert Settable(source) == Settable(rest);
      } else {
        AssignFresh(target + [x], rest);
        assert Assign(target, source) == (target + [x]) + Settable(rest);
        assert Settable(source) == [x] + Settable(rest);
        SeqAssoc(target, [x], Settable(rest));
      }
    }
  }

  /** The first pass of `Object.assign` with a key new to the target. */
  lemma AssignStep(target: seq<(Text, Val)>, x: (Text, Val), rest: seq<(Text, Val)>)
    requires DistinctKeys(target + ([x] + rest))
    ensures DistinctKeys(target + [x] + rest)
    ensures Assign(target, [x] + rest) == Assign(if x.0 == ProtoKey then target else target + [x], rest)
    ensures Settable([x] + rest) == (if x.0 == ProtoKey then [] else [x]) + Settable(rest)
  {
    var s := target + ([x] + rest);
    assert s == target + [x] + rest;
    forall i | 0 <= i < |target| ensures Keys(target)[i] != x.0 {
      assert s[i] == target[i] && s[|target|] == x;
    }
    DictSetKeys(target, x.0, x.1);
    assert ([x] + rest)[1..] == rest;
  }

  lemma SeqAssoc<T>(a: seq<T>, b: seq<T>, c: seq<T>)
    ensures (a + b) + c == a + (b + c)
  {
  }

  /** Dropping one entry keeps entries without repeated keys without repeats. */
  lemma DistinctSkip(a: seq<(Text, Val)>, x: (Text, Val), b: seq<(Text, Val)>)
    requires DistinctKeys(a + [x] + b)
    ensures DistinctKeys(a + b)
  {
    var s, t := a + [x] + b, a + b;
    forall i, j | 0 <= i < j < |t|
      ensures t[i].0 != t[j].0
    {
      var i', j' := if i < |a| then i else i + 1, if j < |a| then j else j + 1;
      assert t[i] == s[i'] && t[j] == s[j'];
    }
  }

  /**
   * Copying an object with distinct keys into an empty one reproduces its
   * settable entries (a shallow copy), all of them when none is `__proto__`.
   */
  lemma ShallowCopy(source: seq<(Text, Val)>)
    requires DistinctKeys(source)
    ensures Assign([], source) == Settable(source)
    ensures ProtoKey !in Keys(source) ==> Assign([], source) == source
  {
    assert [] + source == source;
    AssignFresh([], source);
    if ProtoKey !in Keys(source) {
      SettableAll(source);
    }
  }
}
