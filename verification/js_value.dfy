/**
 * JavaScript values as the add-on receives them from other add-ons, from
 * parsed JSON and from the host: enough of JavaScript's `typeof`,
 * truthiness, `||`, `??`, `String(v)` and `Number(v)` to model the
 * normalisers that accept arbitrary input.
 */
module JsValue {
  import opened Text

  /** A JavaScript number: finite values are exact reals. */
  datatype JsNumber = Finite(value: real) | NaN | PosInfinity | NegInfinity

  /**
   * A JavaScript value. An object is the sequence of its own enumerable
   * entries in `Object.entries` order; a function is known only by its
   * identity, which is what the registries compare.
   */
  datatype Js =
    | Undefined
    | Null
    | Bool(b: bool)
    | Num(n: JsNumber)
    | Str(s: string)
    | Arr(items: seq<Js>)
    | Obj(entries: seq<(string, Js)>)
    | Func(id: nat)

  /** JavaScript truthiness. */
  predicate Truthy(v: Js)
  {
    match v
    case Undefined => false
    case Null => false
    case Bool(b) => b
    case Num(n) => !(n.NaN? || (n.Finite? && n.value == 0.0))
    case Str(s) => s != []
    case _ => true
  }

  /** `Number.isFinite(v)`. */
  predicate IsFiniteNumber(v: Js)
  {
    v.Num? && v.n.Finite?
  }

  /** `v && typeof v === "object"`: arrays and plain objects. */
  predicate IsObjectLike(v: Js)
  {
    v.Arr? || v.Obj?
  }

  /** `a || b`. */
  function Or(a: Js, b: Js): (r: Js)
    ensures Truthy(a) ==> r == a
    ensures !Truthy(a) ==> r == b
  {
    if Truthy(a) then a else b
  }

  /** `a ?? b`. */
  function Coalesce(a: Js, b: Js): (r: Js)
    ensures (a.Undefined? || a.Null?) ==> r == b
    ensures !(a.Undefined? || a.Null?) ==> r == a
  {
    if a.Undefined? || a.Null? then b else a
  }

  /** Value of the last own entry named `key`. */
  function LookupEntry(entries: seq<(string, Js)>, key: string): Js
  {
    if entries == [] then Undefined
    else if entries[|entries| - 1].0 == key then entries[|entries| - 1].1
    else LookupEntry(entries[..|entries| - 1], key)
  }

  predicate HasKey(entries: seq<(string, Js)>, key: string)
  {
    exists i :: 0 <= i < |entries| && entries[i].0 == key
  }

  /** A key that occurs once reads as the value it was given. */
  lemma {:induction false} LookupUnique(entries: seq<(string, Js)>, i: nat, key: string)
    requires i < |entries| && entries[i].0 == key
    requires forall j :: i < j < |entries| ==> entries[j].0 != key
    ensures LookupEntry(entries, key) == entries[i].1
    decreases |entries|
  {
    if i < |entries| - 1 {
      LookupUnique(entries[..|entries| - 1], i, key);
    }
  }

  /**
   * `Object.entries(v)`: an object's entries, an array's items under their
   * indexes, nothing for any other value.
   */
  function OwnEntries(v: Js): (r: seq<(string, Js)>)
    ensures v.Obj? ==> r == v.entries
  {
    match v
    case Obj(entries) => entries
    case Arr(items) => seq(|items|, i requires 0 <= i < |items| => (NatToString(i), items[i]))
    case _ => []
  }

  /** What a call into another add-on's function did: threw, or returned a value. */
  datatype Outcome = Threw | Returned(value: Js)

  /** Property read `v?.key`: undefined for anything that is not a plain object. */
  function Prop(v: Js, key: string): Js
  {
    if v.Obj? then LookupEntry(v.entries, key) else Undefined
  }

  /** `{ ...a, ...b }` on entry lists: later entries win on reads. */
  function Spread(a: Js, b: Js): (r: Js)
    ensures r.Obj?
    ensures forall k :: b.Obj? && HasKey(b.entries, k) ==> Prop(r, k) == Prop(b, k)
    ensures forall k :: !(b.Obj? && HasKey(b.entries, k)) ==> Prop(r, k) == Prop(a, k)
  {
    var ea := if a.Obj? then a.entries else [];
    var eb := if b.Obj? then b.entries else [];
    SpreadLookup(ea, eb);
    Obj(ea + eb)
  }

  /** Reads through `{ ...a, ...b }`: a key `b` holds comes from `b`, any other from `a`. */
  lemma SpreadLookup(ea: seq<(string, Js)>, eb: seq<(string, Js)>)
    ensures forall k :: HasKey(eb, k) ==> LookupEntry(ea + eb, k) == LookupEntry(eb, k)
    ensures forall k :: !HasKey(eb, k) ==> LookupEntry(ea + eb, k) == LookupEntry(ea, k)
  {
    forall k ensures (HasKey(eb, k) ==> LookupEntry(ea + eb, k) == LookupEntry(eb, k))
      && (!HasKey(eb, k) ==> LookupEntry(ea + eb, k) == LookupEntry(ea, k))
    {
      LookupAppend(ea, eb, k);
    }
  }

  lemma {:induction false} LookupAppend(ea: seq<(string, Js)>, eb: seq<(string, Js)>, k: string)
    ensures HasKey(eb, k) ==> LookupEntry(ea + eb, k) == LookupEntry(eb, k)
    ensures !HasKey(eb, k) ==> LookupEntry(ea + eb, k) == LookupEntry(ea, k)
    decreases |eb|
  {
    if eb == [] {
      assert ea + eb == ea;
    } else {
      var last := eb[|eb| - 1];
      var front := eb[..|eb| - 1];
      assert (ea + eb)[..|ea + eb| - 1] == ea + front;
      if last.0 != k {
        LookupAppend(ea, front, k);
        if HasKey(eb, k) {
          var i :| 0 <= i < |eb| && eb[i].0 == k;
          assert front[i].0 == k;
        }
      }
    }
  }

  lemma LookupMissing(entries: seq<(string, Js)>, k: string)
    requires !HasKey(entries, k)
    ensures LookupEntry(entries, k) == Undefined
  {
    if entries != [] {
      LookupMissing(entries[..|entries| - 1], k);
    }
  }

  // ---------------------------------------------------------------------------
  // String(v)
  // ---------------------------------------------------------------------------

  function Pow10(n: nat): (r: nat)
    ensures r >= 1
  {
    if n == 0 then 1 else 10 * Pow10(n - 1)
  }

  /** The first `count` decimal digits of a fraction `0 <= f < 1`. */
  function FractionDigits(f: real, count: nat): (r: string)
    requires 0.0 <= f < 1.0
    ensures |r| == count && AllDigits(r)
    decreases count
  {
    if count == 0 then []
    else
      var scaled := f * 10.0;
      var d := scaled.Floor;
      [DigitChar(d)] + FractionDigits(scaled - d as real, count - 1)
  }

  function DropTrailingZeros(s: string): (r: string)
    ensures |r| <= |s| && r == s[..|r|]
    ensures r == [] || r[|r| - 1] != '0'
  {
    if s != [] && s[|s| - 1] == '0' then DropTrailingZeros(s[..|s| - 1]) else s
  }

  /**
   * Text of a number: exact for integers and the non-finite values; for a
   * fraction, the decimal expansion cut after fifteen digits.
   */
  function NumberText(n: JsNumber): string
  {
    match n
    case NaN => "NaN"
    case PosInfinity => "Infinity"
    case NegInfinity => "-Infinity"
    case Finite(r) =>
      if r == r.Floor as real then IntToString(r.Floor)
      else
        var a := if r < 0.0 then -r else r;
        var whole := a.Floor;
        var digits := DropTrailingZeros(FractionDigits(a - whole as real, 15));
        (if r < 0.0 then "-" else "") + NatToString(whole) + (if digits == [] then "" else "." + digits)
  }

  /** `String(v)`. A function's source text is not modelled: it renders as "function". */
  function ToText(v: Js): string
  {
    match v
    case Undefined => "undefined"
    case Null => "null"
    case Bool(b) => if b then "true" else "false"
    case Num(n) => NumberText(n)
    case Str(s) => s
    case Arr(items) => JoinItems(items)
    case Obj(_) => "[object Object]"
    case Func(_) => "function"
  }

  /** `items.join(",")`, where `null` and `undefined` items render as empty text. */
  function JoinItems(items: seq<Js>): string
    decreases items
  {
    if items == [] then []
    else
      var head := if items[0].Undefined? || items[0].Null? then "" else ToText(items[0]);
      if |items| == 1 then head else head + "," + JoinItems(items[1..])
  }

  /** `String(v || "")`: the text of a truthy value, or empty text. */
  function CoerceText(v: Js): (r: string)
    ensures !Truthy(v) ==> r == []
    ensures v.Str? ==> r == v.s
  {
    if Truthy(v) then ToText(v) else []
  }

  // ---------------------------------------------------------------------------
  // Number(v)
  // ---------------------------------------------------------------------------

  /**
   * Numeric value of trimmed text: empty text is 0, `[+-]Infinity`, and
   * decimal literals `[+-]digits[.digits]` with at least one digit; all
   * other text (hexadecimal, exponents) is NaN in this model.
   */
  function ParseNumberText(t: string): JsNumber
  {
    if t == [] then Finite(0.0)
    else if t == "Infinity" || t == "+Infinity" then PosInfinity
    else if t == "-Infinity" then NegInfinity
    else
      var negative := t[0] == '-';
      var body := if t[0] == '-' || t[0] == '+' then t[1..] else t;
      var parts := Split(body, '.');
      if |parts| == 1 && parts[0] != [] && AllDigits(parts[0]) then
        var v := ParseNat(parts[0]) as real;
        Finite(if negative then -v else v)
      else if |parts| == 2 && (parts[0] != [] || parts[1] != []) && AllDigits(parts[0]) && AllDigits(parts[1]) then
        var v := ParseNat(parts[0]) as real + ParseNat(parts[1]) as real / Pow10(|parts[1]|) as real;
        Finite(if negative then -v else v)
      else NaN
  }

  /** `Number(v)`. Objects and functions convert to NaN; arrays through their text. */
  function ToNumber(v: Js): JsNumber
  {
    match v
    case Undefined => NaN
    case Null => Finite(0.0)
    case Bool(b) => Finite(if b then 1.0 else 0.0)
    case Num(n) => n
    case Str(s) => ParseNumberText(Trim(s))
    case Arr(_) => ParseNumberText(Trim(ToText(v)))
    case Obj(_) => NaN
    case Func(_) => NaN
  }

  lemma NumberOfNumber(n: JsNumber)
    ensures ToNumber(Num(n)) == n
  {
  }
}
