/**
 * The language context: the choice of the initial language, the guarded
 * language switch, and the dotted-key lookup `t(key)` over the current
 * language's translation tree.
 */
module Language {
  import opened Wrappers
  import opened JsValue

  const SupportedLanguages: seq<string> := ["en", "et"]
  const DefaultLanguage := "en"

  /** The initial language: the saved one when it is supported, else the default. */
  function InitialLanguage(saved: Option<string>): (r: string)
    ensures r in SupportedLanguages
    ensures saved.Some? && saved.value in SupportedLanguages ==> r == saved.value
    ensures saved.None? || saved.value !in SupportedLanguages ==> r == DefaultLanguage
  {
    if saved.Some? && saved.value != "" && saved.value in SupportedLanguages then saved.value else DefaultLanguage
  }

  /** `changeLanguage(newLanguage)`: unsupported codes are ignored. */
  function ChangeLanguage(current: string, newLanguage: string): (r: string)
    ensures newLanguage in SupportedLanguages ==> r == newLanguage
    ensures newLanguage !in SupportedLanguages ==> r == current
  {
    if newLanguage in SupportedLanguages then newLanguage else current
  }

  /** The language stays supported across any sequence of change requests. */
  lemma {:induction false} LanguageAlwaysSupported(saved: Option<string>, requests: seq<string>)
    ensures ApplyChanges(InitialLanguage(saved), requests) in SupportedLanguages
  {
    ChangesKeepSupported(InitialLanguage(saved), requests);
  }

  function ApplyChanges(current: string, requests: seq<string>): string
    decreases |requests|
  {
    if |requests| == 0 then current else ApplyChanges(ChangeLanguage(current, requests[0]), requests[1..])
  }

  lemma {:induction false} ChangesKeepSupported(current: string, requests: seq<string>)
    requires current in SupportedLanguages
    ensures ApplyChanges(current, requests) in SupportedLanguages
    decreases |requests|
  {
    if |requests| > 0 {
      ChangesKeepSupported(ChangeLanguage(current, requests[0]), requests[1..]);
    }
  }

  /** Position of the first `sep` in `s`, if any. */
  function IndexOfChar(s: string, sep: char): (r: Option<nat>)
    ensures r.Some? ==> r.value < |s| && s[r.value] == sep && sep !in s[..r.value]
    ensures r.None? <==> sep !in s
  {
    if |s| == 0 then None
    else if s[0] == sep then Some(0)
    else match IndexOfChar(s[1..], sep)
      case None => None
      case Some(k) =>
        assert s[..k + 1] == [s[0]] + s[1..][..k];
        Some(k + 1)
  }

  /** `parts.join(sep)`. */
  function Join(parts: seq<string>, sep: char): string
    requires |parts| >= 1
  {
    if |parts| == 1 then parts[0] else parts[0] + [sep] + Join(parts[1..], sep)
  }

  /** `s.split(sep)` for a one-character separator: every piece, empty ones included. */
  function Split(s: string, sep: char): (r: seq<string>)
    ensures |r| >= 1
    ensures forall i :: 0 <= i < |r| ==> sep !in r[i]
    ensures Join(r, sep) == s
    decreases |s|
  {
    match IndexOfChar(s, sep)
    case None => [s]
    case Some(i) =>
      var rest := Split(s[i + 1..], sep);
      assert s == s[..i] + [sep] + s[i + 1..];
      [s[..i]] + rest
  }

  /** Splitting a joined sequence of separator-free pieces gives the pieces back. */
  lemma {:induction false} SplitJoin(parts: seq<string>, sep: char)
    requires |parts| >= 1
    requires forall i :: 0 <= i < |parts| ==> sep !in parts[i]
    ensures Split(Join(parts, sep), sep) == parts
    decreases |parts|
  {
    var s := Join(parts, sep);
    if |parts| == 1 {
      assert IndexOfChar(s, sep).None?;
    } else {
      var tail := Join(parts[1..], sep);
      assert s == parts[0] + [sep] + tail;
      var i := |parts[0]|;
      IndexOfCharAfterPrefix(parts[0], tail, sep);
      assert s[..i] == parts[0];
      assert s[i + 1..] == tail;
      SplitJoin(parts[1..], sep);
      assert Split(s, sep) == [s[..i]] + Split(s[i + 1..], sep);
      assert parts == [parts[0]] + parts[1..];
    }
  }

  lemma {:induction false} IndexOfCharAfterPrefix(p: string, t: string, sep: char)
    requires sep !in p
    ensures IndexOfChar(p + [sep] + t, sep) == Some(|p|)
    decreases |p|
  {
    if |p| > 0 {
      assert (p + [sep] + t)[1..] == p[1..] + [sep] + t;
      IndexOfCharAfterPrefix(p[1..], t, sep);
    }
  }

  /** Descends `tree` one key at a time with optional chaining (`value = value?.[k]`). */
  function Descend(tree: Option<Value>, keys: seq<string>): Option<Value>
    decreases |keys|
  {
    if |keys| == 0 then tree else Descend(Member(tree, keys[0]), keys[1..])
  }

  /** Once the walk hits `undefined` it stays there, without error. */
  lemma {:induction false} UndefinedStaysUndefined(keys: seq<string>)
    ensures Descend(None, keys) == None
    decreases |keys|
  {
    if |keys| > 0 {
      UndefinedStaysUndefined(keys[1..]);
    }
  }

  /** Descending along `a + b` is descending along `a`, then along `b`. */
  lemma {:induction false} DescendConcat(tree: Option<Value>, a: seq<string>, b: seq<string>)
    ensures Descend(tree, a + b) == Descend(Descend(tree, a), b)
    decreases |a|
  {
    if |a| > 0 {
      assert (a + b)[1..] == a[1..] + b;
      DescendConcat(Member(tree, a[0]), a[1..], b);
    } else {
      assert a + b == b;
    }
  }

  /** A segment missing at any depth makes the whole lookup `undefined`. */
  lemma MissingSegmentIsUndefined(tree: Option<Value>, keys: seq<string>, i: nat)
    requires i < |keys|
    requires Member(Descend(tree, keys[..i]), keys[i]).None?
    ensures Descend(tree, keys).None?
  {
    assert keys == keys[..i] + [keys[i]] + keys[i + 1..];
    DescendConcat(tree, keys[..i] + [keys[i]], keys[i + 1..]);
    DescendConcat(tree, keys[..i], [keys[i]]);
    UndefinedStaysUndefined(keys[i + 1..]);
  }

  /** The translation tree of a language code (`translations[language]`). */
  function TreeOf(translations: map<string, Value>, language: string): Option<Value>
  {
    if language in translations then Some(translations[language]) else None
  }

  /** `t(key)`: the value found by the dotted path, or the key itself when that value is falsy. */
  function Translate(translations: map<string, Value>, language: string, key: string): (r: Value)
    ensures var found := Descend(TreeOf(translations, language), Split(key, '.'));
            if TruthyOpt(found) then r == found.value else r == JStr(key)
  {
    var found := Descend(TreeOf(translations, language), Split(key, '.'));
    if TruthyOpt(found) then found.value else JStr(key)
  }

  /**
   * A key whose segments name a path to a non-empty string translates to that
   * string; if any segment is missing it translates to the key itself.
   */
  lemma TranslatePath(translations: map<string, Value>, language: string, segments: seq<string>)
    requires |segments| >= 1
    requires forall i :: 0 <= i < |segments| ==> '.' !in segments[i]
    ensures var found := Descend(TreeOf(translations, language), segments);
            Translate(translations, language, Join(segments, '.')) ==
              if TruthyOpt(found) then found.value else JStr(Join(segments, '.'))
  {
    SplitJoin(segments, '.');
  }

  /** `getCurrentLanguageName()`: the tree's `language` entry when truthy, else the code. */
  function CurrentLanguageName(translations: map<string, Value>, language: string): (r: Value)
    ensures TruthyOpt(Member(TreeOf(translations, language), "language")) ==>
              r == translations[language].fields["language"]
    ensures !TruthyOpt(Member(TreeOf(translations, language), "language")) ==> r == JStr(language)
  {
    var name := Member(TreeOf(translations, language), "language");
    if TruthyOpt(name) then name.value else JStr(language)
  }
}
