/**
 * The JSON-shaped values the program stores and reads back (settings, progress,
 * translation trees), with JavaScript's notion of a "falsy" value and its
 * property access on objects, strings and arrays.
 */
module JsValue {
  import opened Wrappers

  /** A parsed JSON value. Non-integer numbers are not part of this model. */
  datatype Value =
    | JNull
    | JBool(b: bool)
    | JNum(n: int)
    | JStr(s: string)
    | JArr(items: seq<Value>)
    | JObj(fields: map<string, Value>)

  /** JavaScript truthiness: `null`, `false`, `0` and `""` are falsy, every array and object is truthy. */
  predicate Truthy(v: Value) {
    match v
    case JNull => false
    case JBool(b) => b
    case JNum(n) => n != 0
    case JStr(s) => s != ""
    case JArr(_) => true
    case JObj(_) => true
  }

  /** Truthiness of a possibly-undefined value: `undefined` is falsy. */
  predicate TruthyOpt(v: Option<Value>) {
    v.Some? && Truthy(v.value)
  }

  /** The decimal digit for `d < 10`. */
  function DigitChar(d: nat): (c: char)
    requires d < 10
    ensures '0' <= c <= '9'
    ensures c as int - '0' as int == d
  {
    ('0' as int + d) as char
  }

  /** The canonical decimal spelling of `n`: the property name of index `n`. */
  function DecimalString(n: nat): (r: string)
    ensures |r| >= 1
    ensures |r| == 1 <==> n < 10
    ensures forall i :: 0 <= i < |r| ==> '0' <= r[i] <= '9'
  {
    if n < 10 then [DigitChar(n)] else DecimalString(n / 10) + [DigitChar(n % 10)]
  }

  /** Different indices have different names. */
  lemma {:induction false} DecimalStringInjective(a: nat, b: nat)
    ensures DecimalString(a) == DecimalString(b) ==> a == b
    decreases a
  {
    if DecimalString(a) == DecimalString(b) && a >= 10 && b >= 10 {
      var sa, sb := DecimalString(a), DecimalString(b);
      assert sa[|sa| - 1] == DigitChar(a % 10) && sb[|sb| - 1] == DigitChar(b % 10);
      assert sa[..|sa| - 1] == DecimalString(a / 10) && sb[..|sb| - 1] == DecimalString(b / 10);
      DecimalStringInjective(a / 10, b / 10);
    }
  }

  /** No two indices share a name. */
  lemma DecimalStringsDistinct()
    ensures forall a: nat, b: nat :: DecimalString(a) == DecimalString(b) ==> a == b
  {
    forall a: nat, b: nat ensures DecimalString(a) == DecimalString(b) ==> a == b {
      DecimalStringInjective(a, b);
    }
  }

  /** A name that does not start with a digit names no index. */
  lemma NotAnIndex(k: string)
    requires |k| > 0 && !('0' <= k[0] <= '9')
    ensures forall i: nat :: DecimalString(i) != k
  {
    forall i: nat ensures DecimalString(i) != k {
      assert '0' <= DecimalString(i)[0] <= '9';
    }
  }

  /** The index below `n` that the property name `k` denotes, if any. */
  function IndexKey(k: string, n: nat): (r: Option<nat>)
    ensures r.Some? ==> r.value < n && DecimalString(r.value) == k
    ensures r.None? <==> forall i :: 0 <= i < n ==> DecimalString(i) != k
    decreases n
  {
    if n == 0 then None
    else if DecimalString(n - 1) == k then Some(n - 1)
    else IndexKey(k, n - 1)
  }

  /** The name of each index below `n` denotes exactly that index. */
  lemma IndexKeysCanonical(n: nat)
    ensures forall i :: 0 <= i < n ==> IndexKey(DecimalString(i), n) == Some(i)
  {
    forall i | 0 <= i < n ensures IndexKey(DecimalString(i), n) == Some(i) {
      DecimalStringInjective(IndexKey(DecimalString(i), n).value, i);
    }
  }

  /** The characters of a string as one-character strings, the values its indices read. */
  function CharValues(s: string): seq<Value> {
    seq(|s|, i requires 0 <= i < |s| => JStr([s[i]]))
  }

  /**
   * Reading property `k` of an indexed value (a string's characters or an
   * array's elements): `length` gives the size, an index name the entry there,
   * and any other name `undefined`.
   */
  function IndexedMember(xs: seq<Value>, k: string): (r: Option<Value>)
    ensures k == "length" ==> r == Some(JNum(|xs|))
    ensures forall i :: 0 <= i < |xs| && DecimalString(i) == k ==> r == Some(xs[i])
    ensures k != "length" && (forall i :: 0 <= i < |xs| ==> DecimalString(i) != k) ==> r.None?
  {
    NotAnIndex("length");
    IndexKeysCanonical(|xs|);
    if k == "length" then Some(JNum(|xs|))
    else match IndexKey(k, |xs|)
      case None => None
      case Some(i) => Some(xs[i])
  }

  /**
   * The optional-chaining property access `v?.[k]` on own properties: an object
   * yields its property; a string yields the character at an index, and an array
   * the element, with `length` giving their size; `undefined`, `null`, booleans
   * and numbers yield `undefined`.
   */
  function Member(v: Option<Value>, k: string): (r: Option<Value>)
    ensures v.None? || v.value.JNull? || v.value.JBool? || v.value.JNum? ==> r.None?
    ensures v.Some? && v.value.JObj? ==> (r.Some? <==> k in v.value.fields)
                                         && (r.Some? ==> r.value == v.value.fields[k])
    ensures v.Some? && v.value.JStr? ==>
              && (k == "length" ==> r == Some(JNum(|v.value.s|)))
              && (forall i :: 0 <= i < |v.value.s| && DecimalString(i) == k ==> r == Some(JStr([v.value.s[i]])))
              && (k != "length" && (forall i :: 0 <= i < |v.value.s| ==> DecimalString(i) != k) ==> r.None?)
    ensures v.Some? && v.value.JArr? ==>
              && (k == "length" ==> r == Some(JNum(|v.value.items|)))
              && (forall i :: 0 <= i < |v.value.items| && DecimalString(i) == k ==> r == Some(v.value.items[i]))
              && (k != "length" && (forall i :: 0 <= i < |v.value.items| ==> DecimalString(i) != k) ==> r.None?)
    ensures r.Some? && !v.value.JObj? ==> k == "length" || (|k| > 0 && '0' <= k[0] <= '9')
  {
    match v
    case Some(JObj(fields)) => if k in fields then Some(fields[k]) else None
    case Some(JStr(s)) => IndexedMember(CharValues(s), k)
    case Some(JArr(xs)) => IndexedMember(xs, k)
    case _ => None
  }
}
