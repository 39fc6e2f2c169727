/**
 * Application settings: normalisation of a raw settings value (the lock-style
 * whitelist and its default), the value `saveAppSettings` stores and returns,
 * and what `getAppSettings` reads back.
 */
module AppSettings {
  import opened Wrappers
  import opened JsValue

  type Settings = map<string, Value>

  const LockStyleKey := "lockStyle"
  const ValidLockStyles: seq<string> := ["strict", "lenient", "easy"]
  const DefaultLockStyle := "lenient"

  /** `defaultAppSettings`. */
  const DefaultSettings: Settings := map[LockStyleKey := JStr(DefaultLockStyle)]

  /** The argument of `normalizeSettings`: omitted (`undefined`) or a value. */
  datatype RawSettings = Undefined | Given(v: Value)

  /** Normalisation either yields settings or throws a `TypeError` (reading a property of `null`). */
  datatype Outcome = Ok(settings: Settings) | TypeError

  predicate ValidLockStyle(v: Option<Value>) {
    v.Some? && v.value.JStr? && v.value.s in ValidLockStyles
  }

  /** The index names below `n`. */
  function IndexNames(n: nat): (r: set<string>)
    ensures forall i :: 0 <= i < n ==> DecimalString(i) in r
    ensures forall k :: k in r ==> IndexKey(k, n).Some?
  {
    set i | 0 <= i < n :: DecimalString(i)
  }

  /**
   * The own properties spreading an indexed sequence yields: exactly the index
   * names, each holding the entry at its index.
   */
  function IndexProperties(xs: seq<Value>): (r: Settings)
    ensures forall k :: k in r <==> IndexKey(k, |xs|).Some?
    ensures forall i :: 0 <= i < |xs| ==> DecimalString(i) in r && r[DecimalString(i)] == xs[i]
  {
    IndexKeysCanonical(|xs|);
    map k | k in IndexNames(|xs|) :: xs[IndexKey(k, |xs|).value]
  }

  /**
   * The own enumerable properties object spread copies out of a value: an
   * object's fields, a string's characters or an array's elements under their
   * index names, and nothing for a boolean or a number.
   */
  function OwnProperties(v: Value): (r: Settings)
    ensures v.JObj? ==> r == v.fields
    ensures v.JStr? ==> (forall k :: k in r <==> IndexKey(k, |v.s|).Some?)
                        && forall i :: 0 <= i < |v.s| ==> DecimalString(i) in r && r[DecimalString(i)] == JStr([v.s[i]])
    ensures v.JArr? ==> (forall k :: k in r <==> IndexKey(k, |v.items|).Some?)
                        && forall i :: 0 <= i < |v.items| ==> DecimalString(i) in r && r[DecimalString(i)] == v.items[i]
    ensures v.JNull? || v.JBool? || v.JNum? ==> r == map[]
  {
    match v
    case JObj(fields) => fields
    case JStr(s) => IndexProperties(CharValues(s))
    case JArr(xs) => IndexProperties(xs)
    case _ => map[]
  }

  /** Every own property spread copies is what reading that property gives. */
  lemma OwnPropertiesReadable(v: Value)
    ensures forall k :: k in OwnProperties(v) ==> Member(Some(v), k) == Some(OwnProperties(v)[k])
  {
    match v
    case JStr(s) => IndexPropertiesReadable(CharValues(s));
    case JArr(xs) => IndexPropertiesReadable(xs);
    case _ =>
  }

  /** Each index property is what reading that index gives. */
  lemma IndexPropertiesReadable(xs: seq<Value>)
    ensures forall k :: k in IndexProperties(xs) ==> IndexedMember(xs, k) == Some(IndexProperties(xs)[k])
  {
    forall k | k in IndexProperties(xs) ensures IndexedMember(xs, k) == Some(IndexProperties(xs)[k]) {
      var j := IndexKey(k, |xs|).value;
      assert DecimalString(j) == k;
    }
  }

  /** `rawSettings.lockStyle` for a non-null value: only an object can have it. */
  function LockStyleOf(v: Value): (r: Option<Value>)
    ensures r.Some? <==> v.JObj? && LockStyleKey in v.fields
    ensures r.Some? ==> r.value == v.fields[LockStyleKey]
  {
    NotAnIndex(LockStyleKey);
    Member(Some(v), LockStyleKey)
  }

  /** The lock style kept by normalisation: the given one when whitelisted, else the default. */
  function KeptLockStyle(v: Value): (r: Value)
    ensures r.JStr? && r.s in ValidLockStyles
    ensures ValidLockStyle(LockStyleOf(v)) ==> r == LockStyleOf(v).value
    ensures !ValidLockStyle(LockStyleOf(v)) ==> r == JStr(DefaultLockStyle)
  {
    if ValidLockStyle(LockStyleOf(v)) then LockStyleOf(v).value else JStr(DefaultLockStyle)
  }

  /** `{ ...defaultAppSettings, ...rawSettings, lockStyle }` for a non-null value. */
  function Normalized(v: Value): (r: Settings)
    ensures r.Keys == OwnProperties(v).Keys + {LockStyleKey}
    ensures r[LockStyleKey] == KeptLockStyle(v)
    ensures forall k :: k in OwnProperties(v) && k != LockStyleKey ==> r[k] == OwnProperties(v)[k]
  {
    var merged := DefaultSettings + OwnProperties(v);
    assert merged.Keys == OwnProperties(v).Keys + {LockStyleKey};
    merged[LockStyleKey := KeptLockStyle(v)]
  }

  /** `normalizeSettings(rawSettings = {})`. */
  function NormalizeSettings(raw: RawSettings): (r: Outcome)
    ensures r.TypeError? <==> raw == Given(JNull)
    ensures r.Ok? ==> LockStyleKey in r.settings
    ensures r.Ok? ==> r.settings[LockStyleKey].JStr? && r.settings[LockStyleKey].s in ValidLockStyles
    ensures raw.Given? && r.Ok? ==>
              r.settings[LockStyleKey] == if ValidLockStyle(LockStyleOf(raw.v)) then LockStyleOf(raw.v).value
                                          else JStr(DefaultLockStyle)
    ensures raw.Given? && r.Ok? ==>
              r.settings.Keys == OwnProperties(raw.v).Keys + {LockStyleKey}
              && forall k :: k in OwnProperties(raw.v) && k != LockStyleKey ==> r.settings[k] == OwnProperties(raw.v)[k]
    ensures raw.Undefined? ==> r == Ok(DefaultSettings)
  {
    match raw
    case Undefined => Ok(DefaultSettings)
    case Given(JNull) => TypeError
    case Given(v) => Ok(Normalized(v))
  }

  /** Normalising an already normalised settings object changes nothing. */
  lemma NormalizeIdempotent(raw: RawSettings)
    requires NormalizeSettings(raw).Ok?
    ensures NormalizeSettings(Given(JObj(NormalizeSettings(raw).settings))) == NormalizeSettings(raw)
  {
    var s := NormalizeSettings(raw).settings;
    assert LockStyleKey in s && ValidLockStyle(Some(s[LockStyleKey]));
    assert OwnProperties(JObj(s)) == s;
    assert KeptLockStyle(JObj(s)) == s[LockStyleKey];
    var again := Normalized(JObj(s));
    assert again.Keys == s.Keys;
    assert again == s;
  }

  /** `saveAppSettings(nextSettings)`: the value stored and returned (or the exception thrown). */
  function SaveAppSettings(next: RawSettings): (r: Outcome)
    ensures r.TypeError? <==> next == Given(JNull)
    ensures r.Ok? ==> LockStyleKey in r.settings && ValidLockStyle(Some(r.settings[LockStyleKey]))
    ensures r == NormalizeSettings(next)
  {
    NormalizeSettings(next)
  }

  /**
   * What storage holds under the settings key: nothing (or an empty string), text
   * that does not parse as JSON, or the parsed value.
   */
  datatype Stored = Absent | Unparsable | Parsed(value: Value)

  /** `getAppSettings()`: defaults unless the stored value parses and normalises. */
  function GetAppSettings(stored: Stored): (r: Settings)
    ensures LockStyleKey in r && ValidLockStyle(Some(r[LockStyleKey]))
    ensures stored.Absent? || stored.Unparsable? || stored == Parsed(JNull) ==> r == DefaultSettings
    ensures stored.Parsed? && stored.value != JNull ==> r == NormalizeSettings(Given(stored.value)).settings
  {
    match stored
    case Absent => DefaultSettings
    case Unparsable => DefaultSettings
    case Parsed(v) =>
      match NormalizeSettings(Given(v))
      case Ok(s) => s
      case TypeError => DefaultSettings
  }

  /**
   * Reading back what `saveAppSettings` stored (serialised and parsed again as an
   * object) yields exactly the value `saveAppSettings` returned.
   */
  lemma SaveThenGetRoundTrip(next: RawSettings)
    requires SaveAppSettings(next).Ok?
    ensures GetAppSettings(Parsed(JObj(SaveAppSettings(next).settings))) == SaveAppSettings(next).settings
  {
    NormalizeIdempotent(next);
  }
}
