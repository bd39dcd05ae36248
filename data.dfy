// Form data as the JavaScript runtime holds it: JSON-like values navigated
// and updated by the min-dash helpers `get` and `set`, and copied by the
// JSON round trip `clone`.
module Data {
  import opened Wrappers
  import Text
  import Decimal

  /** One step of a value path: a property name or an array index. */
  datatype Seg = Key(name: string) | Index(i: nat)

  type Path = seq<Seg>

  datatype Value =
    | Undefined
    | Null
    | Bool(b: bool)
    | Num(n: Decimal.Decimal)
    | Str(s: string)
    | Arr(elems: seq<Value>)
    | Obj(props: map<string, Value>)

  predicate IsNil(v: Value) { v.Undefined? || v.Null? }

  /** JavaScript truthiness. */
  predicate Truthy(v: Value)
  {
    match v
    case Undefined => false
    case Null => false
    case Bool(b) => b
    case Num(n) => n.m != 0
    case Str(s) => s != ""
    case Arr(_) => true
    case Obj(_) => true
  }

  const EmptyObj: Value := Obj(map[])

  /** The property name a segment denotes on a plain object. */
  function SegKey(s: Seg): string
  {
    match s
    case Key(k) => k
    case Index(i) => Text.NatToString(i)
  }

  /**
   * The array element a segment denotes: a number, or a property name that
   * is the canonical text of one (`"0"` and `"12"`, not `"01"` or `"1.0"`).
   */
  function ArrayIndex(s: Seg): (r: Option<nat>)
    ensures s.Index? ==> r == Some(s.i)
    ensures r.Some? ==> SegKey(s) == Text.NatToString(r.value)
  {
    match s
    case Index(i) => Some(i)
    case Key(k) =>
      if Text.AllDigits(k) && Text.NatToString(Text.DigitsValue(k)) == k then Some(Text.DigitsValue(k)) else None
  }

  /** A segment addresses element `n` exactly when its property name is the text of `n`. */
  lemma ArrayIndexIff(s: Seg, n: nat)
    ensures ArrayIndex(s) == Some(n) <==> SegKey(s) == Text.NatToString(n)
  {
    Text.NatToStringDigits(n);
    if s.Index? && SegKey(s) == Text.NatToString(n) {
      Text.NatToStringInjective(s.i, n);
    }
  }

  /** `v[s]`; properties that do not exist read as undefined. */
  function Child(v: Value, s: Seg): Value
  {
    match v
    case Obj(m) => if SegKey(s) in m then m[SegKey(s)] else Undefined
    case Arr(es) => var i := ArrayIndex(s); if i.Some? && i.value < |es| then es[i.value] else Undefined
    case _ => Undefined
  }

  /** min-dash `get(v, p)`: walks `p`, reading undefined once a nil value is met. */
  function Get(v: Value, p: Path): (r: Value)
    ensures p == [] ==> r == v
    decreases |p|
  {
    if p == [] then v
    else if IsNil(v) then Undefined
    else Get(Child(v, p[0]), p[1..])
  }

  /** min-dash `get(v, p, d)`: the default replaces an undefined result. */
  function GetOr(v: Value, p: Path, d: Value): (r: Value)
    ensures Get(v, p).Undefined? ==> r == d
    ensures !Get(v, p).Undefined? ==> r == Get(v, p)
  {
    var r := Get(v, p); if r.Undefined? then d else r
  }

  /** `v` can hold a property named by `s` (an object, or an array indexed by number). */
  predicate Accepts(v: Value, s: Seg) { v.Obj? || (v.Arr? && ArrayIndex(s).Some?) }

  /** `n` holes, the slots `arr[i] = x` leaves when it writes past the end. */
  function Holes(n: nat): (r: seq<Value>)
    ensures |r| == n && forall i :: 0 <= i < n ==> r[i].Undefined?
  {
    if n == 0 then [] else [Undefined] + Holes(n - 1)
  }

  /**
   * `v[s] = x`, or `delete v[s]` when `x` is undefined. Writing into a
   * primitive, or a named property into an array, leaves `v` as it was.
   */
  function PutChild(v: Value, s: Seg, x: Value): (r: Value)
    ensures Accepts(v, s) ==> Child(r, s) == x
    ensures !Accepts(v, s) ==> r == v
    ensures r.Obj? == v.Obj? && r.Arr? == v.Arr? && (IsNil(r) <==> IsNil(v))
  {
    match v
    case Obj(m) => if x.Undefined? then Obj(m - {SegKey(s)}) else Obj(m[SegKey(s) := x])
    case Arr(es) =>
      var i := ArrayIndex(s);
      if i.None? then v
      else if i.value < |es| then Arr(es[i.value := x])
      else if x.Undefined? then v
      else Arr(es + Holes(i.value - |es|) + [x])
    case _ => v
  }

  /** A property name JavaScript's unary `+` turns into a number (not NaN). */
  predicate NumericKey(k: string)
  {
    var t := Text.Trim(k); t == "" || Decimal.ParseNumber(t).Some?
  }

  /** Text of decimal digits has no white space to trim. */
  lemma DigitsTrimmed(k: string)
    requires k != "" && Text.AllDigits(k)
    ensures Text.Trim(k) == k
  {
    hide Text.IsWhitespace;
    Text.DigitNotWhitespace(k[0]);
    Text.DigitNotWhitespace(k[|k| - 1]);
    assert Text.TrimStart(k) == k;
  }

  /** Text of decimal digits reads as a number. */
  lemma DigitsParse(k: string)
    requires k != "" && Text.AllDigits(k)
    ensures Decimal.ParseNumber(k).Some?
  {
    hide Decimal.ExpIndex, Decimal.Parse, Decimal.RadixDigits, Decimal.RadixValue, Decimal.FromInt, Text.DigitsValue;
    assert forall i :: 0 <= i < |k| ==> !Decimal.IsExpMark(k[i]);
    assert Decimal.ExpIndex(k) == -1;
    Decimal.ParseWhole(k);
    assert Text.IsDigit(k[0]) && (|k| >= 2 ==> Text.IsDigit(k[1]));
  }

  /** A property name that denotes an array element is a numeric key. */
  lemma IndexKeyNumeric(s: Seg)
    ensures s.Key? && ArrayIndex(s).Some? ==> NumericKey(s.name)
  {
    hide Text.NatToString, Text.AllDigits, Text.DigitsValue, Text.Trim, Decimal.ParseNumber;
    if s.Key? && ArrayIndex(s).Some? {
      var k := s.name;
      assert k == Text.NatToString(ArrayIndex(s).value);
      Text.NatToStringDigits(ArrayIndex(s).value);
      DigitsTrimmed(k);
      DigitsParse(k);
    }
  }

  /** The container min-dash `set` creates for a missing step: an array before a numeric key. */
  function NewContainer(next: Seg): (r: Value)
    ensures ArrayIndex(next).Some? ==> Accepts(r, next)
    ensures next.Key? && !NumericKey(next.name) ==> r == EmptyObj
  {
    IndexKeyNumeric(next);
    match next
    case Index(_) => Arr([])
    case Key(k) => if NumericKey(k) then Arr([]) else EmptyObj
  }

  /** The value `set` descends into below `c`: `c` itself, or a fresh container when `c` is nil. */
  function Filled(c: Value, next: Seg): Value
  {
    if IsNil(c) then NewContainer(next) else c
  }

  /**
   * min-dash `set(v, p, x)`: creates missing containers along `p` and writes
   * `x` at its end, deleting the property when `x` is undefined. An empty path
   * changes nothing.
   */
  function Set(v: Value, p: Path, x: Value): (r: Value)
    ensures r.Obj? == v.Obj? && r.Arr? == v.Arr? && (IsNil(r) <==> IsNil(v))
    decreases |p|
  {
    if p == [] then v
    else if |p| == 1 then PutChild(v, p[0], x)
    else PutChild(v, p[0], Set(Filled(Child(v, p[0]), p[1]), p[1..], x))
  }

  /** `set({}, ['a', '0'], 1)` creates an array under `a` and writes its first element. */
  lemma SetIndexKeyExample()
    ensures Set(EmptyObj, [Key("a"), Key("0")], Num(Decimal.FromInt(1))) == Obj(map["a" := Arr([Num(Decimal.FromInt(1))])])
  {
    hide Text.NatToString, Text.DigitsValue, Text.AllDigits, Text.Trim, Decimal.ParseNumber, Decimal.FromInt;
    var one := Num(Decimal.FromInt(1));
    ZeroKey();
    assert Filled(Child(EmptyObj, Key("a")), Key("0")) == Arr([]);
    assert Holes(0) == [];
    assert Set(Arr([]), [Key("0")], one) == Arr([one]);
  }

  /** The property name `"0"` denotes the first array element. */
  lemma ZeroKey()
    ensures ArrayIndex(Key("0")) == Some(0) && NumericKey("0")
  {
    assert Text.NatToString(Text.DigitsValue("0")) == "0";
    assert ArrayIndex(Key("0")) == Some(0);
    IndexKeyNumeric(Key("0"));
  }

  /** Every step of `p` lands in a container that accepts it once `set` has filled nil steps. */
  predicate Writable(v: Value, p: Path)
    decreases |p|
  {
    p != [] && Accepts(v, p[0]) && (|p| == 1 || Writable(Filled(Child(v, p[0]), p[1]), p[1..]))
  }

  /** After `set(v, p, undefined)` the path reads as undefined. */
  lemma {:induction false} GetSetUndefined(v: Value, p: Path)
    requires p != []
    ensures Get(Set(v, p, Undefined), p).Undefined?
    decreases |p|
  {
    if |p| > 1 {
      var c := Filled(Child(v, p[0]), p[1]);
      GetSetUndefined(c, p[1..]);
    }
  }

  /** After `set(v, p, x)` along a writable path, the path reads `x`. */
  lemma {:induction false} GetSetWritable(v: Value, p: Path, x: Value)
    requires Writable(v, p)
    ensures Get(Set(v, p, x), p) == x
    decreases |p|
  {
    if |p| > 1 {
      var c := Filled(Child(v, p[0]), p[1]);
      GetSetWritable(c, p[1..], x);
    }
  }

  /** One path is a prefix of the other. */
  predicate Related(p: Path, q: Path)
  {
    (|p| <= |q| && q[..|p|] == p) || (|q| <= |p| && p[..|q|] == q)
  }

  /** Paths that agree on their first step are related when their tails are. */
  lemma RelatedTail(p: Path, q: Path)
    requires p != [] && q != [] && p[0] == q[0]
    ensures Related(p[1..], q[1..]) ==> Related(p, q)
  {
    if |p| <= |q| && q[1..][..|p| - 1] == p[1..] {
      assert q[..|p|] == [q[0]] + q[1..][..|p| - 1];
    }
    if |q| <= |p| && p[1..][..|q| - 1] == q[1..] {
      assert p[..|q|] == [p[0]] + p[1..][..|q| - 1];
    }
  }

  lemma RelatedSingle(p: Path, q: Path)
    requires p != [] && q != [] && p[0] == q[0]
    ensures |p| == 1 || |q| == 1 ==> Related(p, q)
  {
    if |p| == 1 { assert q[..1] == p; }
    if |q| == 1 { assert p[..1] == q; }
  }

  /** Writing one property leaves every property of another name as it was. */
  lemma ChildPutOther(v: Value, s: Seg, t: Seg, x: Value)
    requires SegKey(s) != SegKey(t)
    ensures Child(PutChild(v, s, x), t) == Child(v, t)
  {
    hide ArrayIndex, Text.NatToString, Text.AllDigits, Text.DigitsValue, Holes;
    if v.Arr? && ArrayIndex(s).Some? && ArrayIndex(t).Some? {
      assert ArrayIndex(s).value != ArrayIndex(t).value;
    }
  }

  /**
   * `set` leaves every path that branches off `p` as it was: neither path
   * extends the other, and the two differ in a step of the same kind.
   */
  lemma {:induction false} GetSetElsewhere(v: Value, p: Path, q: Path, x: Value)
    requires !Related(p, q)
    requires forall i :: 0 <= i < |p| && i < |q| ==> p[i].Index? == q[i].Index?
    ensures Get(Set(v, p, x), q) == Get(v, q)
    decreases |p|
  {
    assert p != [] && q != [];
    var r := Set(v, p, x);
    if IsNil(v) {
    } else if SegKey(p[0]) != SegKey(q[0]) {
      if |p| == 1 {
        ChildPutOther(v, p[0], q[0], x);
      } else {
        ChildPutOther(v, p[0], q[0], Set(Filled(Child(v, p[0]), p[1]), p[1..], x));
      }
    } else {
      assert p[0] == q[0] by { SegKeyInjective(p[0], q[0]); }
      RelatedSingle(p, q);
      var c := Child(v, p[0]);
      var f := Filled(c, p[1]);
      RelatedTail(p, q);
      GetSetElsewhere(f, p[1..], q[1..], x);
      if Accepts(v, p[0]) {
        assert Child(r, q[0]) == Set(f, p[1..], x);
        if IsNil(c) {
          GetFresh(f, q[1..]);
          GetNil(c, q[1..]);
        }
      }
    }
  }

  /** The two kinds of step of a same-kind pair name different properties when they differ. */
  lemma SegKeyInjective(s: Seg, t: Seg)
    requires s.Index? == t.Index? && SegKey(s) == SegKey(t)
    ensures s == t
  {
    if s.Index? {
      Text.NatToStringInjective(s.i, t.i);
    }
  }

  /** A fresh container reads undefined everywhere below it. */
  lemma GetFresh(f: Value, q: Path)
    requires f == Arr([]) || f == EmptyObj
    requires q != []
    ensures Get(f, q).Undefined?
  {
    GetNil(Child(f, q[0]), q[1..]);
  }

  lemma GetNil(c: Value, q: Path)
    requires IsNil(c) || c.Undefined?
    requires c.Undefined? || q != []
    ensures Get(c, q).Undefined?
  {
  }

  /** min-dash `isObject(v) && Object.keys(v).length === 0`. */
  predicate IsEmptyObject(v: Value) { v.Obj? && |v.props| == 0 }

  /** An array that is empty or holds only undefined entries. */
  predicate IsEmptyArray(v: Value)
  {
    v.Arr? && forall i :: 0 <= i < |v.elems| ==> v.elems[i].Undefined?
  }

  /** `JSON.parse(JSON.stringify(v))`: undefined array entries become null, undefined properties vanish. */
  function Clone(v: Value): (r: Value)
    ensures v.Obj? ==> r.Obj? && r.props.Keys <= v.props.Keys
    ensures v.Arr? ==> r.Arr? && |r.elems| == |v.elems|
    ensures !v.Obj? && !v.Arr? ==> r == v
  {
    match v
    case Arr(es) => Arr(CloneElems(es))
    case Obj(m) => Obj(map k | k in m && !m[k].Undefined? :: Clone(m[k]))
    case _ => v
  }

  function CloneElems(es: seq<Value>): (r: seq<Value>)
    ensures |r| == |es|
    ensures forall i :: 0 <= i < |es| ==> r[i] == (if es[i].Undefined? then Null else Clone(es[i]))
  {
    if es == [] then []
    else [if es[0].Undefined? then Null else Clone(es[0])] + CloneElems(es[1..])
  }

  /** A value JSON can represent exactly: no undefined anywhere inside. */
  predicate Plain(v: Value)
  {
    match v
    case Arr(es) => forall i :: 0 <= i < |es| ==> !es[i].Undefined? && Plain(es[i])
    case Obj(m) => forall k :: k in m ==> !m[k].Undefined? && Plain(m[k])
    case _ => true
  }

  /** A clone is plain, and cloning a plain value changes nothing: `clone` is idempotent. */
  lemma {:induction false} ClonePlain(v: Value)
    ensures Plain(Clone(v))
    ensures Plain(v) ==> Clone(v) == v
    ensures Clone(Clone(v)) == Clone(v)
  {
    match v
    case Arr(es) =>
      forall i | 0 <= i < |es| ensures Plain(Clone(v).elems[i]) && (Plain(v) ==> Clone(v).elems[i] == es[i]) {
        if !es[i].Undefined? { ClonePlain(es[i]); }
      }
      ClonePlainIdem(Clone(v));
      if Plain(v) { assert Clone(v).elems == es; }
    case Obj(m) =>
      forall k | k in Clone(v).props ensures Plain(Clone(v).props[k]) && !Clone(v).props[k].Undefined? {
        ClonePlain(m[k]);
      }
      ClonePlainIdem(Clone(v));
      if Plain(v) {
        forall k | k in m ensures Clone(m[k]) == m[k] { ClonePlain(m[k]); }
        assert Clone(v).props == m;
      }
    case _ =>
  }

  lemma {:induction false} ClonePlainIdem(v: Value)
    requires Plain(v)
    ensures Clone(v) == v
  {
    match v
    case Arr(es) =>
      forall i | 0 <= i < |es| ensures Clone(es[i]) == es[i] { ClonePlainIdem(es[i]); }
      assert Clone(v).elems == es;
    case Obj(m) =>
      forall k | k in m ensures Clone(m[k]) == m[k] { ClonePlainIdem(m[k]); }
      assert Clone(v).props == m;
    case _ =>
  }

  /** min-dash `isObject`: a plain object (not an array, not null). */
  predicate IsObject(v: Value) { v.Obj? }

  /** `String(v)`. */
  function ToJsString(v: Value): string
  {
    match v
    case Undefined => "undefined"
    case Null => "null"
    case Bool(b) => if b then "true" else "false"
    case Num(n) => Decimal.ToString(n)
    case Str(s) => s
    case Arr(es) => JoinElems(es)
    case Obj(_) => "[object Object]"
  }

  /** `Array.prototype.join(',')`: nil entries print as empty strings. */
  function JoinElems(es: seq<Value>): string
  {
    if es == [] then ""
    else
      var head := if IsNil(es[0]) then "" else ToJsString(es[0]);
      if |es| == 1 then head else head + "," + JoinElems(es[1..])
  }

  /**
   * `Number(v)`, with None for NaN: a string is trimmed, an empty one is 0,
   * and otherwise it must be number syntax. An array goes through its
   * `join(',')`: empty it is 0, with two or more elements the comma makes
   * it NaN, and one element is read as its own text (`""` for null and
   * undefined, `"true"` or `"false"` for a boolean).
   */
  function ToNumber(v: Value): (r: Option<Decimal.Decimal>)
    ensures v.Num? ==> r == Some(v.n)
    ensures v.Undefined? || v.Obj? ==> r.None?
    ensures v == Arr([]) ==> r == Some(Decimal.FromInt(0))
    ensures v.Arr? && |v.elems| >= 2 ==> r.None?
    ensures v.Arr? && |v.elems| == 1 && v.elems[0].Num? ==> r == Some(v.elems[0].n)
  {
    match v
    case Undefined => None
    case Null => Some(Decimal.FromInt(0))
    case Bool(b) => Some(Decimal.FromInt(if b then 1 else 0))
    case Num(n) => Some(n)
    case Str(s) => var t := Text.Trim(s); if t != "" then Decimal.ParseNumber(t) else Some(Decimal.FromInt(0))
    case Arr(es) =>
      if es == [] then Some(Decimal.FromInt(0))
      else if |es| >= 2 then None
      else if es[0].Undefined? then Some(Decimal.FromInt(0))
      else if es[0].Bool? then None
      else ToNumber(es[0])
    case Obj(_) => None
  }
}
