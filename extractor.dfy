/**
 * The DepictionExtractor: `get_depiction_json` turns one decoded EntityFacts sheet
 * into the pair (depiction, GND identifier), or skips it.
 */
module Extractor {
  import opened PyStr
  import opened Json

  const ID_KEY := "@id"
  const DEPICTION_KEY := "depiction"
  const SLASH := '/'

  /** The tuple `(depiction_json, gnd_identifier)` handed to both content pipelines. */
  datatype DepictionTuple = DepictionTuple(depiction: Json, gndId: string)

  /**
   * `get_depiction_json` after `json.loads`: the sheet must have an `@id` whose last `/`
   * lies past index 0 (the GND identifier is what follows it) and a `depiction` field,
   * which is passed on untouched.
   */
  function GetDepictionJson(record: Json): (r: Outcome<DepictionTuple>)
    ensures r.Found? ==> record.JObject? && DEPICTION_KEY in record.fields
    ensures r.Found? ==> r.value.depiction == record.fields[DEPICTION_KEY]
    ensures r.Found? ==> ID_KEY in record.fields && record.fields[ID_KEY].JString?
    ensures r.Found? ==>
      exists head :: |head| > 0 && IsLastSplit(record.fields[ID_KEY].str, SLASH, head, r.value.gndId)
    ensures r.Found? ==> SLASH !in r.value.gndId
  {
    match Lookup(record, ID_KEY)
    case Skip => Skip
    case Raise(e) => Raise(e)
    case Found(idValue) =>
      match idValue
      case JString(sheetId) =>
        var k := RFind(sheetId, SLASH);
        if k > 0 then
          match Lookup(record, DEPICTION_KEY)
          case Skip => Skip
          case Raise(e) => Raise(e)
          case Found(depiction) =>
            RFindSplits(sheetId, SLASH);
            Found(DepictionTuple(depiction, sheetId[k + 1..]))
        else Skip
      case _ => Raise(AttributeError)
  }

  /**
   * For a sheet that is a JSON object, the three outcomes exactly: it raises when `@id`
   * is not a string (no `.rfind`), it yields a tuple when `@id` has a `/` past index 0
   * and `depiction` is present, and it skips in every other case.
   */
  lemma GetDepictionJsonOutcome(fields: map<string, Json>)
    ensures var r := GetDepictionJson(JObject(fields));
      && (r.Raise? <==> ID_KEY in fields && !fields[ID_KEY].JString?)
      && (r.Raise? ==> r.error == AttributeError)
      && (r.Found? <==>
            && ID_KEY in fields && fields[ID_KEY].JString?
            && OccursAfterStart(fields[ID_KEY].str, SLASH)
            && DEPICTION_KEY in fields)
  {
    if ID_KEY in fields && fields[ID_KEY].JString? {
      RFindPositive(fields[ID_KEY].str, SLASH);
    }
  }

  /** A sheet that is null, a bool or a number raises a TypeError at the very first test. */
  lemma ScalarSheetRaises(record: Json)
    requires record.JNull? || record.JBool? || record.JNumber?
    ensures GetDepictionJson(record) == Raise(TypeError)
  {
  }

  /** The identifier may be empty: exactly when `@id` ends in `/`. */
  lemma GndIdEmptyIff(fields: map<string, Json>, sheetId: string)
    requires ID_KEY in fields && fields[ID_KEY] == JString(sheetId)
    requires GetDepictionJson(JObject(fields)).Found?
    ensures |GetDepictionJson(JObject(fields)).value.gndId| == 0 <==> sheetId[|sheetId| - 1] == SLASH
  {
    var id := GetDepictionJson(JObject(fields)).value.gndId;
    var head :| |head| > 0 && IsLastSplit(sheetId, SLASH, head, id);
    assert sheetId[|sheetId| - 1] == if id == [] then SLASH else id[|id| - 1];
  }
}
