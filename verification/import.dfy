/**
 * Export and import of the rule list on the options page. The file is
 * modelled after `JSON.parse`: the outcome is either a parse error or a JSON
 * value.
 */
module Import {
  import opened Wrappers

  /** A parsed JSON value. An object keeps its members in source order, duplicates included. */
  datatype Json =
    | JNull
    | JBool(b: bool)
    | JNum(n: int)
    | JStr(s: string)
    | JArr(items: seq<Json>)
    | JObj(members: seq<(string, Json)>)

  /** What `JSON.parse(text)` did with the chosen file. */
  datatype Parsed = ParseError | Parsed(doc: Json)

  /** What the import handler ends with. */
  datatype Outcome =
    | NoFile       // no file chosen: nothing happens
    | Imported     // the store now holds the document's `rules` array
    | NotRuleList  // "expected { "rules": [...] }"
    | InvalidFile  // "Invalid JSON file.": a parse error, or a property read that throws

  /** Reading a property `v.key`: it throws on `null`, and is undefined when absent. */
  datatype Read = Throws | Undefined | Value(v: Json)

  /** The value of member `key`: the last one wins, as `JSON.parse` keeps the last duplicate. */
  function Lookup(members: seq<(string, Json)>, key: string): (r: Option<Json>)
    ensures r.None? <==> forall k | 0 <= k < |members| :: members[k].0 != key
    ensures r.Some? ==> exists k | 0 <= k < |members| ::
      members[k] == (key, r.value) && forall j | k < j < |members| :: members[j].0 != key
  {
    if members == [] then None
    else
      var last := members[|members| - 1];
      if last.0 == key then Some(last.1)
      else Lookup(members[..|members| - 1], key)
  }

  /** `v.key` for a value `JSON.parse` can return: only objects carry their own members. */
  function ReadProp(v: Json, key: string): (r: Read)
    ensures r == Throws <==> v == JNull
    ensures r.Value? ==> v.JObj? && Lookup(v.members, key) == Some(r.v)
  {
    match v
    case JNull => Throws
    case JObj(ms) => (match Lookup(ms, key) case None => Undefined case Some(x) => Value(x))
    case _ => Undefined
  }

  /** The stored list is replaced only by an array found under `rules`. */
  predicate HasRuleArray(doc: Json) {
    ReadProp(doc, "rules").Value? && ReadProp(doc, "rules").v.JArr?
  }

  /**
   * The import handler: returns the new stored `rules` value and the outcome.
   * `store` is whatever the store held before.
   */
  function ImportFile(store: Json, file: Option<Parsed>): (r: (Json, Outcome))
    ensures r.1 == Imported <==> file.Some? && file.value.Parsed? && HasRuleArray(file.value.doc)
    ensures r.1 == Imported ==> r.0 == ReadProp(file.value.doc, "rules").v && r.0.JArr?
    ensures r.1 != Imported ==> r.0 == store
    ensures r.1 == InvalidFile <==> file == Some(ParseError) || file == Some(Parsed(JNull))
    ensures r.1 == NoFile <==> file.None?
  {
    match file
    case None => (store, NoFile)
    case Some(ParseError) => (store, InvalidFile)
    case Some(Parsed(doc)) =>
      match ReadProp(doc, "rules")
      case Throws => (store, InvalidFile)
      case Undefined => (store, NotRuleList)
      case Value(x) => if x.JArr? then (x, Imported) else (store, NotRuleList)
  }

  /** The export handler's document: `{ rules }`, with anything but an array written as `[]`. */
  function Export(store: Json): (doc: Json)
    ensures HasRuleArray(doc)
    ensures store.JArr? ==> ReadProp(doc, "rules") == Value(store)
  {
    JObj([("rules", if store.JArr? then store else JArr([]))])
  }

  /** Importing an exported file restores the exported list, whatever the store holds meanwhile. */
  lemma ExportImportRoundTrip(store: Json, other: Json)
    requires store.JArr?
    ensures ImportFile(other, Some(Parsed(Export(store)))) == (store, Imported)
  {
  }

  /** A `null` document, an array document and a string under `rules` are all refused. */
  lemma RejectedDocuments(store: Json)
    ensures ImportFile(store, Some(Parsed(JNull))) == (store, InvalidFile)
    ensures ImportFile(store, Some(Parsed(JArr([JObj([])])))) == (store, NotRuleList)
    ensures ImportFile(store, Some(Parsed(JObj([("rules", JStr("x"))])))) == (store, NotRuleList)
  {
  }

  /** With a repeated `rules` member the last one decides. */
  lemma LastDuplicateDecides(store: Json, xs: seq<Json>)
    ensures ImportFile(store, Some(Parsed(JObj([("rules", JArr(xs)), ("rules", JNull)])))) == (store, NotRuleList)
  {
  }
}
