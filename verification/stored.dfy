/**
 * What the content script makes of the stored `rules` value: `loadRules`
 * reads it as `rules || []`, copies it and sorts it with a comparator that
 * reads `.pattern` of both arguments. The options page's import can store
 * any JSON array there, so the value is a JSON value, not a rule list.
 */
module Stored {
  import opened Wrappers
  import opened Import
  import opened Rules

  /** JavaScript truthiness of a parsed JSON value. */
  predicate Truthy(v: Json) {
    match v
    case JNull => false
    case JBool(b) => b
    case JNum(n) => n != 0
    case JStr(s) => s != []
    case JArr(_) => true
    case JObj(_) => true
  }

  /** A string-valued property of a stored element, or `''` when it is missing or not a string. */
  function TextField(v: Json, key: string): (s: string)
    ensures v.JObj? && Lookup(v.members, key).Some? && Lookup(v.members, key).value.JStr?
            ==> s == Lookup(v.members, key).value.s
    ensures !(v.JObj? && Lookup(v.members, key).Some? && Lookup(v.members, key).value.JStr?) ==> s == []
  {
    match ReadProp(v, key)
    case Value(JStr(s)) => s
    case _ => []
  }

  /** A flag property of a stored element: its truthiness, false when missing. */
  function FlagField(v: Json, key: string): (b: bool)
    ensures !v.JObj? ==> !b
  {
    match ReadProp(v, key)
    case Value(x) => Truthy(x)
    case _ => false
  }

  /**
   * A stored element as the engine reads it. An element that is not an
   * object has no pattern, so the walk's `rule?.pattern` test skips it.
   */
  function AsRule(v: Json): (r: Rule)
    ensures !v.JObj? ==> r.pattern == [] && !r.wholeWord && !r.caseSensitive
  {
    Rule(TextField(v, "pattern"), TextField(v, "replacement"), FlagField(v, "wholeWord"), FlagField(v, "caseSensitive"))
  }

  /** The elements of `rules || []`; only an array has any. */
  function StoredItems(store: Json): seq<Json> {
    if store.JArr? then store.items else []
  }

  function DecodeRules(items: seq<Json>): (rs: seq<Rule>)
    ensures |rs| == |items|
    ensures forall k | 0 <= k < |items| :: !items[k].JObj? ==> rs[k].pattern == []
  {
    seq(|items|, k requires 0 <= k < |items| => AsRule(items[k]))
  }

  /**
   * Whether `loadRules` throws. A truthy value that is not an array has no
   * `slice` and `sort` pair. An array of two or more elements has every
   * element passed to the comparator, which throws on `null.pattern`; a
   * single element is never compared.
   */
  predicate LoadThrows(store: Json) {
    if store.JArr? then |store.items| >= 2 && JNull in store.items
    else Truthy(store)
  }

  /** `loadRules`: the sorted rules, or nothing when it throws. */
  function LoadRules(store: Json): (r: Option<seq<Rule>>)
    ensures r.None? <==> LoadThrows(store)
    ensures r.Some? ==> multiset(r.value) == multiset(DecodeRules(StoredItems(store))) && SortedByLengthDesc(r.value)
  {
    if LoadThrows(store) then None else Some(SortByLength(DecodeRules(StoredItems(store))))
  }

  /** Every array the popup or the options page writes holds rule objects only. */
  predicate RuleObjects(items: seq<Json>) {
    forall k | 0 <= k < |items| :: items[k].JObj?
  }

  /** A stored array of rule objects always loads. */
  lemma RuleObjectsLoad(items: seq<Json>)
    requires RuleObjects(items)
    ensures !LoadThrows(JArr(items))
  {
  }

  /**
   * As written, the import stores `{"rules": [null, null]}` without looking
   * at the elements, and the next `loadRules` throws in the comparator.
   */
  lemma NullRulesImportBreaksLoad(store: Json)
    ensures var doc := JObj([("rules", JArr([JNull, JNull]))]);
      && ImportFile(store, Some(Parsed(doc))) == (JArr([JNull, JNull]), Imported)
      && LoadThrows(JArr([JNull, JNull]))
      && LoadRules(JArr([JNull, JNull])) == None
  {
    assert JArr([JNull, JNull]).items[0] == JNull;
  }

  // ---------------------------------------------------------------------------
  // The import with the elements checked
  // ---------------------------------------------------------------------------

  /**
   * The import handler with `Array.isArray(json.rules)` strengthened to
   * require every element to be an object; anything else is reported as
   * the wrong shape and storage is left alone.
   */
  function ImportFileChecked(store: Json, file: Option<Parsed>): (r: (Json, Outcome))
    ensures r.1 == Imported ==> r.0.JArr? && RuleObjects(r.0.items)
    ensures r.1 != Imported ==> r.0 == store
    ensures file.Some? && file.value.Parsed? && HasRuleArray(file.value.doc)
              && RuleObjects(ReadProp(file.value.doc, "rules").v.items)
            ==> r == ImportFile(store, file)
    ensures ImportFile(store, file).1 != Imported ==> r == ImportFile(store, file)
  {
    var plain := ImportFile(store, file);
    if plain.1 == Imported && !RuleObjects(plain.0.items) then (store, NotRuleList) else plain
  }

  /** With the elements checked, an import never leaves storage in a state `loadRules` throws on. */
  lemma CheckedImportKeepsLoadable(store: Json, file: Option<Parsed>)
    requires !LoadThrows(store)
    ensures !LoadThrows(ImportFileChecked(store, file).0)
    ensures LoadRules(ImportFileChecked(store, file).0).Some?
  {
    var r := ImportFileChecked(store, file);
    if r.1 == Imported {
      RuleObjectsLoad(r.0.items);
    }
  }
}
