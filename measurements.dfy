/** MeasurementsController: a patient's measurements as stored document objects, as
    patient data, and as JSON. */
module Measurements {
  import opened Common
  import opened JsonModel

  const ControllerName := "measurements"
  const DateKey := "date"
  const AgeKey := "age"
  const TypeKey := "type"
  const SideKey := "side"
  const ValueKey := "value"
  const UnitKey := "unit"
  const SdKey := "sd"
  const PercentileKey := "percentile"
  const Armspan := "armspan"
  const Male := "M"
  const Female := "F"

  /** A java.util.Date, by its instant; equality is Date.equals. */
  type Date = int

  /** MeasurementEntry: every field may be null. */
  datatype MeasurementEntry = MeasurementEntry(
    date: Option<Date>,
    age: Option<string>,
    measurementType: Option<string>,
    side: Option<string>,
    value: Option<Double>,
    units: Option<string>)

  /** The fields of one PhenoTips.MeasurementClass object as the document hands them back. */
  datatype StoredObject = StoredObject(
    date: Option<Date>,
    age: Option<string>,
    measurementType: Option<string>,
    side: Option<string>,
    value: Option<Double>)

  /** A MeasurementHandler, by its name and unit; its numeric work is in Library. */
  datatype Handler = Handler(name: Option<string>, unit: Option<string>)

  /** The patient's measurement data; IndexedPatientData is the indexed kind. */
  datatype PatientData = PatientData(indexed: bool, items: seq<MeasurementEntry>)

  /** What the controller takes from libraries the model does not describe:
      SimpleDateFormat("yyyy-MM-dd") both ways (None: a ParseException), org.json's
      toString and number conversion of a non-null value, and a handler's standard
      deviation and percentile for a sex (true: male) and an entry. */
  datatype Library = Library(
    formatDate: Date -> string,
    parseDate: string -> Option<Date>,
    text: Json -> string,
    number: Json -> Double,
    standardDeviation: (Handler, bool, MeasurementEntry) -> Double,
    percentile: (Handler, bool, MeasurementEntry) -> Option<int>)

  /** The exceptions writeJSON lets through: a NullPointerException when no handler has the
      entry's type, and org.json's refusal of a non-finite value. */
  datatype Failure = NullHandler | JsonFailure(error: JsonError)

  /** StringUtils.isEmpty. */
  predicate IsEmpty(s: Option<string>) {
    s.None? || s.value == ""
  }

  /** Character.isWhitespace: the Unicode space, line and paragraph separators other than
      the non-breaking ones, and the ASCII controls U+0009 to U+000D and U+001C to U+001F. */
  predicate IsJavaWhitespace(c: char) {
    c == ' ' || c == '\U{1680}' || ('\U{2000}' <= c <= '\U{2006}') || ('\U{2008}' <= c <= '\U{200A}')
    || c == '\U{2028}' || c == '\U{2029}' || c == '\U{205F}' || c == '\U{3000}'
    || ('\U{0009}' <= c <= '\U{000D}') || ('\U{001C}' <= c <= '\U{001F}')
  }

  /** StringUtils.isBlank: null, empty or whitespace only. */
  predicate IsBlank(s: Option<string>) {
    s.None? || forall i :: 0 <= i < |s.value| ==> IsJavaWhitespace(s.value[i])
  }

  // ---------------------------------------------------------------------------
  // getHandler

  /** getHandler: the first handler whose name equals `name`, or null. */
  function GetHandler(name: string, handlers: seq<Handler>): (r: Option<Handler>)
    ensures r.Some? ==> r.value in handlers && r.value.name == Some(name)
    ensures r.None? <==> forall i :: 0 <= i < |handlers| ==> handlers[i].name != Some(name)
    decreases |handlers|
  {
    if handlers == [] then None
    else if handlers[0].name == Some(name) then Some(handlers[0])
    else GetHandler(name, handlers[1..])
  }

  /** When several handlers carry the name, the earliest one is returned. */
  lemma {:induction false} GetHandlerIsFirst(name: string, handlers: seq<Handler>, k: nat)
    requires k < |handlers| && handlers[k].name == Some(name)
    requires forall j :: 0 <= j < k ==> handlers[j].name != Some(name)
    ensures GetHandler(name, handlers) == Some(handlers[k])
    decreases k
  {
    if k > 0 {
      GetHandlerIsFirst(name, handlers[1..], k - 1);
    }
  }

  // ---------------------------------------------------------------------------
  // load

  /** What load makes of one object: nothing for a null object, for one with neither date
      nor age, for one with an empty type, or when no handler has its type (reading the
      null handler's unit throws, and the loop catches it); otherwise an entry whose units
      are the handler's. */
  function LoadedEntry(o: Option<StoredObject>, handlers: seq<Handler>): Option<MeasurementEntry> {
    match o
    case None => None
    case Some(obj) =>
      if obj.date.None? && IsEmpty(obj.age) then None
      else if IsEmpty(obj.measurementType) then None
      else
        match GetHandler(obj.measurementType.value, handlers)
        case None => None
        case Some(h) => Some(MeasurementEntry(obj.date, obj.age, obj.measurementType, obj.side, obj.value, h.unit))
  }

  /** LoadedEntry as one function value, so that the loop and its specification share it. */
  function LoadStep(handlers: seq<Handler>): Option<StoredObject> -> Option<MeasurementEntry> {
    o => LoadedEntry(o, handlers)
  }

  /** An entry load accepts and gives back unchanged. */
  predicate Loadable(e: MeasurementEntry, handlers: seq<Handler>) {
    (e.date.Some? || !IsEmpty(e.age))
    && !IsEmpty(e.measurementType)
    && GetHandler(e.measurementType.value, handlers).Some?
    && GetHandler(e.measurementType.value, handlers).value.unit == e.units
  }

  /** An object is kept exactly when it is non-null, has a date or an age, has a type, and
      some handler has that type; the entry copies its fields and takes the handler's unit. */
  lemma LoadedEntrySpec(o: Option<StoredObject>, handlers: seq<Handler>)
    ensures LoadedEntry(o, handlers).Some? <==>
              o.Some? && (o.value.date.Some? || !IsEmpty(o.value.age)) && !IsEmpty(o.value.measurementType)
              && GetHandler(o.value.measurementType.value, handlers).Some?
    ensures LoadedEntry(o, handlers).Some? ==>
              var e := LoadedEntry(o, handlers).value;
              e.date == o.value.date && e.age == o.value.age && e.measurementType == o.value.measurementType
              && e.side == o.value.side && e.value == o.value.value && Loadable(e, handlers)
  {
  }

  /** load: null when there is no object at all; otherwise the entries of the objects that
      are kept, in order. */
  function Load(objects: Option<seq<Option<StoredObject>>>, handlers: seq<Handler>): (r: Option<seq<MeasurementEntry>>)
    ensures r.None? <==> objects.None? || objects.value == []
  {
    if objects.None? || objects.value == [] then None
    else Some(FilterMap(LoadStep(handlers), objects.value))
  }

  /** Every loaded entry is loadable and comes from one of the objects; every object that
      passes the rules contributes its entry. */
  lemma LoadSpec(objects: seq<Option<StoredObject>>, handlers: seq<Handler>)
    requires objects != []
    ensures forall k :: 0 <= k < |Load(Some(objects), handlers).value| ==>
              Loadable(Load(Some(objects), handlers).value[k], handlers)
              && exists i :: 0 <= i < |objects| && LoadedEntry(objects[i], handlers) == Some(Load(Some(objects), handlers).value[k])
    ensures forall i :: 0 <= i < |objects| && LoadedEntry(objects[i], handlers).Some? ==>
              LoadedEntry(objects[i], handlers).value in Load(Some(objects), handlers).value
  {
    FilterMapMembers(LoadStep(handlers), objects);
    var r := Load(Some(objects), handlers).value;
    forall k | 0 <= k < |r| ensures Loadable(r[k], handlers) {
      var i :| 0 <= i < |objects| && LoadStep(handlers)(objects[i]) == Some(r[k]);
      LoadedEntrySpec(objects[i], handlers);
    }
  }

  /** The load loop. */
  method LoadMeasurements(objects: Option<seq<Option<StoredObject>>>, handlers: seq<Handler>)
    returns (r: Option<seq<MeasurementEntry>>)
    ensures r == Load(objects, handlers)
  {
    if objects.None? || objects.value == [] {
      return None;
    }
    var xs := objects.value;
    var result: seq<MeasurementEntry> := [];
    var i := 0;
    while i < |xs|
      invariant 0 <= i <= |xs|
      invariant result == FilterMap(LoadStep(handlers), xs[..i])
    {
      assert xs[..i + 1][..i] == xs[..i];
      var o := xs[i];
      if o.Some? {
        var obj := o.value;
        if !(obj.date.None? && IsEmpty(obj.age)) && !IsEmpty(obj.measurementType) {
          var handler := GetHandler(obj.measurementType.value, handlers);
          if handler.Some? {
            result := result + [MeasurementEntry(obj.date, obj.age, obj.measurementType, obj.side, obj.value, handler.value.unit)];
          }
        }
      }
      i := i + 1;
    }
    assert xs[..i] == xs;
    return Some(result);
  }

  // ---------------------------------------------------------------------------
  // save

  /** The object save creates for an entry: its date, age, type, side and value. */
  function StoredFor(e: MeasurementEntry): Option<StoredObject> {
    Some(StoredObject(e.date, e.age, e.measurementType, e.side, e.value))
  }

  /** The patient document's measurement objects. */
  class PatientDocument {
    var measurementObjects: seq<Option<StoredObject>>

    constructor (objects: seq<Option<StoredObject>>)
      ensures measurementObjects == objects
    {
      measurementObjects := objects;
    }

    /** save: only indexed data is written, and then every old object is removed and one
        object per entry is created, in order. Null data makes `isIndexed` throw, which the
        method catches before anything is removed. */
    method Save(data: Option<PatientData>)
      modifies this
      ensures data.None? || !data.value.indexed ==> measurementObjects == old(measurementObjects)
      ensures data.Some? && data.value.indexed ==> measurementObjects == Map(StoredFor, data.value.items)
    {
      if data.None? || !data.value.indexed {
        return;
      }
      var items := data.value.items;
      measurementObjects := [];
      var i := 0;
      while i < |items|
        invariant 0 <= i <= |items|
        invariant measurementObjects == Map(StoredFor, items[..i])
      {
        assert items[..i + 1][..i] == items[..i];
        measurementObjects := measurementObjects + [StoredFor(items[i])];
        i := i + 1;
      }
      assert items[..i] == items;
    }
  }

  /** Loading what save wrote gives the entries back, provided there is at least one and
      each is loadable (a date or an age, a type with a handler, that handler's unit). */
  lemma LoadAfterSave(items: seq<MeasurementEntry>, handlers: seq<Handler>)
    requires items != []
    requires forall k :: 0 <= k < |items| ==> Loadable(items[k], handlers)
    ensures Load(Some(Map(StoredFor, items)), handlers) == Some(items)
  {
    LoadAllAfterSave(items, handlers);
  }

  lemma {:induction false} LoadAllAfterSave(items: seq<MeasurementEntry>, handlers: seq<Handler>)
    requires forall k :: 0 <= k < |items| ==> Loadable(items[k], handlers)
    ensures FilterMap(LoadStep(handlers), Map(StoredFor, items)) == items
  {
    if items != [] {
      var init := items[..|items| - 1];
      var last := items[|items| - 1];
      LoadAllAfterSave(init, handlers);
      var stored := Map(StoredFor, items);
      assert stored[..|stored| - 1] == Map(StoredFor, init);
      assert LoadStep(handlers)(stored[|stored| - 1]) == Some(last);
      assert init + [last] == items;
    }
  }

  // ---------------------------------------------------------------------------
  // entryToJson, computeDependantInfo, writeJSON

  /** A string field for put: null stays null. */
  function StringOrNull(s: Option<string>): Json {
    if s.Some? then JString(s.value) else JNull
  }

  /** A Double field for put: null stays null. */
  function NumberOrNull(d: Option<Double>): Json {
    if d.Some? then JNumber(d.value) else JNull
  }

  /** A put on an object that may already have failed. */
  function PutThen(o: Result<map<string, Json>, JsonError>, key: string, v: Json): Result<map<string, Json>, JsonError> {
    match o
    case Err(e) => Err(e)
    case Ok(m) => Put(m, key, v)
  }

  /** entryToJson: the formatted date when there is one, then age and type, the side only
      when it is not blank, then value and unit; a null value puts nothing and a
      non-finite value makes the put throw. */
  function EntryToJson(e: MeasurementEntry, lib: Library): (r: Result<map<string, Json>, JsonError>)
    ensures r.Err? <==> e.value.Some? && !e.value.value.Finite?
  {
    var withDate: map<string, Json> := if e.date.Some? then map[DateKey := JString(lib.formatDate(e.date.value))] else map[];
    var withType := PutThen(Put(withDate, AgeKey, StringOrNull(e.age)), TypeKey, StringOrNull(e.measurementType));
    var withSide := if !IsBlank(e.side) then PutThen(withType, SideKey, JString(e.side.value)) else withType;
    PutThen(PutThen(withSide, ValueKey, NumberOrNull(e.value)), UnitKey, StringOrNull(e.units))
  }

  /** The keys entryToJson writes are six different strings. */
  lemma EntryKeysDistinct()
    ensures DateKey != AgeKey && DateKey != TypeKey && DateKey != SideKey && DateKey != ValueKey && DateKey != UnitKey
    ensures AgeKey != TypeKey && AgeKey != SideKey && AgeKey != ValueKey && AgeKey != UnitKey
    ensures TypeKey != SideKey && TypeKey != ValueKey && TypeKey != UnitKey
    ensures SideKey != ValueKey && SideKey != UnitKey && ValueKey != UnitKey
  {
    assert DateKey[0] == 'd' && AgeKey[0] == 'a' && TypeKey[0] == 't' && SideKey[0] == 's' && ValueKey[0] == 'v' && UnitKey[0] == 'u';
  }

  /** entryToJson writes the six keys at most. */
  lemma EntryToJsonKeys(e: MeasurementEntry, lib: Library)
    requires EntryToJson(e, lib).Ok?
    ensures EntryToJson(e, lib).value.Keys <= {DateKey, AgeKey, TypeKey, SideKey, ValueKey, UnitKey}
  {
  }

  /** entryToJson writes the date, formatted, exactly when there is one. */
  lemma EntryToJsonDate(e: MeasurementEntry, lib: Library)
    requires EntryToJson(e, lib).Ok?
    ensures var r := EntryToJson(e, lib).value;
            (DateKey in r <==> e.date.Some?)
            && (e.date.Some? ==> r[DateKey] == JString(lib.formatDate(e.date.value)))
  {
    EntryKeysDistinct();
  }

  /** entryToJson writes age and type exactly when they are not null. */
  lemma EntryToJsonAgeAndType(e: MeasurementEntry, lib: Library)
    requires EntryToJson(e, lib).Ok?
    ensures var r := EntryToJson(e, lib).value;
            (AgeKey in r <==> e.age.Some?)
            && (e.age.Some? ==> r[AgeKey] == JString(e.age.value))
            && (TypeKey in r <==> e.measurementType.Some?)
            && (e.measurementType.Some? ==> r[TypeKey] == JString(e.measurementType.value))
  {
    EntryKeysDistinct();
  }

  /** entryToJson writes the side exactly when it is not blank, and value and unit exactly
      when they are not null. */
  lemma EntryToJsonTail(e: MeasurementEntry, lib: Library)
    requires EntryToJson(e, lib).Ok?
    ensures var r := EntryToJson(e, lib).value;
            (SideKey in r <==> !IsBlank(e.side))
            && (!IsBlank(e.side) ==> r[SideKey] == JString(e.side.value))
            && (ValueKey in r <==> e.value.Some?)
            && (e.value.Some? ==> r[ValueKey] == JNumber(e.value.value))
            && (UnitKey in r <==> e.units.Some?)
            && (e.units.Some? ==> r[UnitKey] == JString(e.units.value))
  {
    EntryKeysDistinct();
  }

  /** computeDependantInfo: nothing unless age and type are not blank and there is a value;
      nothing for arm span or a sex other than "M"/"F"; otherwise the standard deviation
      ("" when infinite or NaN) and the percentile (null when the handler has none) of the
      handler named by the type, and a NullPointerException when there is no such handler. */
  function ComputeDependantInfo(e: MeasurementEntry, sex: Option<string>, handlers: seq<Handler>, lib: Library)
    : (r: Result<map<string, Json>, Failure>)
    ensures IsBlank(e.age) || IsBlank(e.measurementType) || e.value.None? ==> r == Ok(map[])
    ensures !IsBlank(e.measurementType) && (e.measurementType.value == Armspan || (sex != Some(Male) && sex != Some(Female)))
            ==> r == Ok(map[])
    ensures r.Err? <==>
              !IsBlank(e.age) && !IsBlank(e.measurementType) && e.value.Some?
              && e.measurementType.value != Armspan && (sex == Some(Male) || sex == Some(Female))
              && GetHandler(e.measurementType.value, handlers).None?
    ensures r.Ok? && r.value != map[] ==>
              r.value.Keys == {SdKey, PercentileKey}
              && (r.value[SdKey] == JString("") || (r.value[SdKey].JNumber? && r.value[SdKey].n.Finite?))
    ensures !IsBlank(e.age) && !IsBlank(e.measurementType) && e.value.Some?
            && e.measurementType.value != Armspan && (sex == Some(Male) || sex == Some(Female))
            && GetHandler(e.measurementType.value, handlers).Some? ==>
              var h := GetHandler(e.measurementType.value, handlers).value;
              var sd := lib.standardDeviation(h, sex == Some(Male), e);
              var percentile := lib.percentile(h, sex == Some(Male), e);
              r.Ok? && r.value.Keys == {SdKey, PercentileKey}
              && (r.value[SdKey] == JString("") <==> !sd.Finite?)
              && (sd.Finite? ==> r.value[SdKey] == JNumber(sd))
              && (r.value[PercentileKey] == JNull <==> percentile.None?)
              && (percentile.Some? ==> r.value[PercentileKey] == JNumber(Finite(percentile.value as real)))
  {
    if IsBlank(e.age) || IsBlank(e.measurementType) || e.value.None? then Ok(map[])
    else if e.measurementType.value != Armspan && (sex == Some(Male) || sex == Some(Female)) then
      match GetHandler(e.measurementType.value, handlers)
      case None => Err(NullHandler)
      case Some(h) =>
        var isMale := sex == Some(Male);
        var sd := lib.standardDeviation(h, isMale, e);
        var percentile := lib.percentile(h, isMale, e);
        Ok(map[SdKey := if sd.Finite? then JNumber(sd) else JString(""),
               PercentileKey := if percentile.Some? then JNumber(Finite(percentile.value as real)) else JNull])
    else Ok(map[])
  }

  /** The entry's JSON object after the dependant information is put into it. */
  function EntryWithInfo(e: MeasurementEntry, sex: Option<string>, handlers: seq<Handler>, lib: Library): Result<Json, Failure> {
    match EntryToJson(e, lib)
    case Err(error) => Err(JsonFailure(error))
    case Ok(o) =>
      match ComputeDependantInfo(e, sex, handlers, lib)
      case Err(f) => Err(f)
      case Ok(info) =>
        var withSd := if SdKey in info then PutThen(Ok(o), SdKey, info[SdKey]) else Ok(o);
        var withPercentile := if PercentileKey in info then PutThen(withSd, PercentileKey, info[PercentileKey]) else withSd;
        match withPercentile
        case Err(error) => Err(JsonFailure(error))
        case Ok(full) => Ok(JObject(full))
  }

  /** One step of the writeJSON loop. */
  function WriteStep(sex: Option<string>, handlers: seq<Handler>, lib: Library): MeasurementEntry -> Result<Json, Failure> {
    e => EntryWithInfo(e, sex, handlers, lib)
  }

  /** The JSON array of all entries; the first entry that fails stops the whole write. */
  function EntriesToJson(items: seq<MeasurementEntry>, sex: Option<string>, handlers: seq<Handler>, lib: Library)
    : Result<seq<Json>, Failure>
  {
    MapAll(WriteStep(sex, handlers, lib), items)
  }

  /** `arr` holds one object per entry of `items`, in order: each entry's JSON with its
      dependant information. */
  predicate EntriesWritten(arr: seq<Json>, items: seq<MeasurementEntry>, sex: Option<string>, handlers: seq<Handler>, lib: Library) {
    |arr| == |items| && forall i :: 0 <= i < |items| ==> Ok(arr[i]) == EntryWithInfo(items[i], sex, handlers, lib)
  }

  /** The array has one object per entry, in order, unless some entry fails. */
  lemma EntriesToJsonSpec(items: seq<MeasurementEntry>, sex: Option<string>, handlers: seq<Handler>, lib: Library)
    ensures EntriesToJson(items, sex, handlers, lib).Err? <==>
              exists i :: 0 <= i < |items| && EntryWithInfo(items[i], sex, handlers, lib).Err?
    ensures EntriesToJson(items, sex, handlers, lib).Ok? ==>
              |EntriesToJson(items, sex, handlers, lib).value| == |items|
              && forall i :: 0 <= i < |items| ==>
                   Ok(EntriesToJson(items, sex, handlers, lib).value[i]) == EntryWithInfo(items[i], sex, handlers, lib)
  {
    MapAllSpec(WriteStep(sex, handlers, lib), items);
  }

  /** writeJSON: nothing happens when the selected names leave out "measurements" or there
      is no data; otherwise the array of entries is put under "measurements" when it is not
      empty. A failing entry makes the whole call throw before the object is touched. */
  function WriteJson(selected: Option<seq<string>>, data: Option<PatientData>, json: map<string, Json>,
                     sex: Option<string>, handlers: seq<Handler>, lib: Library): Result<map<string, Json>, Failure>
  {
    if selected.Some? && ControllerName !in selected.value then Ok(json)
    else if data.None? then Ok(json)
    else
      match EntriesToJson(data.value.items, sex, handlers, lib)
      case Err(f) => Err(f)
      case Ok(arr) => if arr == [] then Ok(json) else Ok(json[ControllerName := JArray(arr)])
  }

  /** writeJSON leaves the object alone when the field is not selected, when there is no
      data and when there are no entries. Otherwise it fails exactly when some entry fails,
      and on success puts under "measurements" the array with one object per entry, in
      order, leaving every other key alone. */
  lemma WriteJsonSpec(selected: Option<seq<string>>, data: Option<PatientData>, json: map<string, Json>,
                      sex: Option<string>, handlers: seq<Handler>, lib: Library)
    ensures (selected.Some? && ControllerName !in selected.value) || data.None? || data.value.items == [] ==>
              WriteJson(selected, data, json, sex, handlers, lib) == Ok(json)
    ensures (selected.None? || ControllerName in selected.value) && data.Some? && data.value.items != [] ==>
              (WriteJson(selected, data, json, sex, handlers, lib).Err? <==>
                 exists i :: 0 <= i < |data.value.items| && EntryWithInfo(data.value.items[i], sex, handlers, lib).Err?)
    ensures (selected.None? || ControllerName in selected.value) && data.Some? && data.value.items != []
            && WriteJson(selected, data, json, sex, handlers, lib).Ok? ==>
              var r := WriteJson(selected, data, json, sex, handlers, lib).value;
              r.Keys == json.Keys + {ControllerName}
              && (forall k :: k in json && k != ControllerName ==> r[k] == json[k])
              && r[ControllerName].JArray?
              && EntriesWritten(r[ControllerName].items, data.value.items, sex, handlers, lib)
  {
    if data.Some? {
      EntriesToJsonSpec(data.value.items, sex, handlers, lib);
    }
  }

  /** The writeJSON loop. */
  method WriteMeasurementsJson(selected: Option<seq<string>>, data: Option<PatientData>, json: map<string, Json>,
                               sex: Option<string>, handlers: seq<Handler>, lib: Library)
    returns (r: Result<map<string, Json>, Failure>)
    ensures r == WriteJson(selected, data, json, sex, handlers, lib)
  {
    if (selected.Some? && ControllerName !in selected.value) || data.None? {
      return Ok(json);
    }
    var items := data.value.items;
    var result: seq<Json> := [];
    var i := 0;
    while i < |items|
      invariant 0 <= i <= |items|
      invariant EntriesToJson(items[..i], sex, handlers, lib) == Ok(result)
    {
      assert items[..i + 1][..i] == items[..i];
      var entry := EntryWithInfo(items[i], sex, handlers, lib);
      if entry.Err? {
        EntriesToJsonFailed(items, i, sex, handlers, lib);
        return Err(entry.error);
      }
      result := result + [entry.value];
      i := i + 1;
    }
    assert items[..i] == items;
    if result == [] {
      return Ok(json);
    }
    return Ok(json[ControllerName := JArray(result)]);
  }

  /** Once an entry fails, the whole array fails with that entry's failure. */
  lemma EntriesToJsonFailed(items: seq<MeasurementEntry>, i: nat, sex: Option<string>, handlers: seq<Handler>, lib: Library)
    requires i < |items| && EntriesToJson(items[..i], sex, handlers, lib).Ok?
    requires EntryWithInfo(items[i], sex, handlers, lib).Err?
    ensures EntriesToJson(items, sex, handlers, lib) == Err(EntryWithInfo(items[i], sex, handlers, lib).error)
  {
    MapAllFirstError(WriteStep(sex, handlers, lib), items, i);
  }

  // ---------------------------------------------------------------------------
  // jsonToEntry, isDuplicate, readJSON

  /** optString(key, null): null for a missing key or JSON null, the string itself, or the
      value's text. */
  function OptString(j: map<string, Json>, key: string, lib: Library): Option<string> {
    if key !in j || j[key] == JNull then None
    else match j[key]
      case JString(s) => Some(s)
      case other => Some(lib.text(other))
  }

  /** optDouble(key): NaN for a missing key or JSON null, otherwise the converted value. */
  function OptDouble(j: map<string, Json>, key: string, lib: Library): Double {
    if key !in j || j[key] == JNull then NaN else lib.number(j[key])
  }

  /** jsonToEntry on the i-th element of the array: an element that is not an object
      (optJSONObject gives null, and reading it throws) or whose date does not parse
      (ParseException) is skipped like one without a date, a type or a number value.
      Age, side and unit default to "". */
  function JsonToEntry(v: Json, lib: Library): (r: Option<MeasurementEntry>)
    ensures r.Some? ==>
              v.JObject? && r.value.date.Some? && r.value.measurementType.Some?
              && r.value.value.Some? && !r.value.value.value.NaN?
              && r.value.age.Some? && r.value.side.Some? && r.value.units.Some?
  {
    match v
    case JObject(j) =>
      var dateText := OptString(j, DateKey, lib);
      var date := if dateText.Some? then lib.parseDate(dateText.value) else None;
      var measurementType := OptString(j, TypeKey, lib);
      var value := OptDouble(j, ValueKey, lib);
      if date.Some? && measurementType.Some? && !value.NaN? then
        Some(MeasurementEntry(date, Some(OptString(j, AgeKey, lib).GetOr("")), measurementType,
                              Some(OptString(j, SideKey, lib).GetOr("")), Some(value),
                              Some(OptString(j, UnitKey, lib).GetOr(""))))
      else None
    case _ => None
  }

  function ReadStep(lib: Library): Json -> Option<MeasurementEntry> {
    v => JsonToEntry(v, lib)
  }

  /** Two entries are duplicates when date, type and side are equal. */
  predicate SameKey(a: MeasurementEntry, b: MeasurementEntry) {
    a.date == b.date && a.measurementType == b.measurementType && a.side == b.side
  }

  /** isDuplicate: some kept entry has the same date, type and side. */
  function IsDuplicate(m: MeasurementEntry, kept: seq<MeasurementEntry>): (r: bool)
    ensures r <==> exists k :: 0 <= k < |kept| && SameKey(kept[k], m)
    decreases |kept|
  {
    if kept == [] then false
    else if SameKey(kept[0], m) then true
    else
      assert forall k :: 0 < k < |kept| ==> kept[k] == kept[1..][k - 1];
      IsDuplicate(m, kept[1..])
  }

  /** The entries the readJSON loop keeps: each one unless an earlier kept entry has the
      same date, type and side. */
  function Dedup(ms: seq<MeasurementEntry>): seq<MeasurementEntry> {
    if ms == [] then []
    else
      var before := Dedup(ms[..|ms| - 1]);
      var m := ms[|ms| - 1];
      if IsDuplicate(m, before) then before else before + [m]
  }

  /** No two kept entries share date, type and side. */
  lemma {:induction false} DedupDistinct(ms: seq<MeasurementEntry>)
    ensures forall i, j :: 0 <= i < j < |Dedup(ms)| ==> !SameKey(Dedup(ms)[i], Dedup(ms)[j])
  {
    if ms != [] {
      var before := Dedup(ms[..|ms| - 1]);
      DedupDistinct(ms[..|ms| - 1]);
      var m := ms[|ms| - 1];
      if !IsDuplicate(m, before) {
        var r := before + [m];
        forall i, j | 0 <= i < j < |r| ensures !SameKey(r[i], r[j]) {
          if j == |before| {
            assert r[i] == before[i];
          } else {
            assert r[i] == before[i] && r[j] == before[j];
          }
        }
      }
    }
  }

  /** Every entry of `ms` has the date, type and side of some entry of `kept`. */
  predicate KeysCovered(ms: seq<MeasurementEntry>, kept: seq<MeasurementEntry>) {
    forall i :: 0 <= i < |ms| ==> exists k :: 0 <= k < |kept| && SameKey(kept[k], ms[i])
  }

  /** Every input entry's date, type and side are those of some kept entry. */
  lemma {:induction false} DedupComplete(ms: seq<MeasurementEntry>)
    ensures KeysCovered(ms, Dedup(ms))
  {
    if ms != [] {
      var init := ms[..|ms| - 1];
      var m := ms[|ms| - 1];
      DedupComplete(init);
      var before := Dedup(init);
      var r := Dedup(ms);
      forall i | 0 <= i < |ms| ensures exists k :: 0 <= k < |r| && SameKey(r[k], ms[i]) {
        if i == |ms| - 1 {
          if IsDuplicate(m, before) {
            var k :| 0 <= k < |before| && SameKey(before[k], m);
            assert r[k] == before[k];
          } else {
            assert r[|before|] == m;
          }
        } else {
          assert ms[i] == init[i];
          var k :| 0 <= k < |before| && SameKey(before[k], init[i]);
          assert r[k] == before[k];
        }
      }
    }
  }

  /** Each entry of `kept` is the first entry of `ms` with its date, type and side. */
  predicate FirstOccurrences(ms: seq<MeasurementEntry>, kept: seq<MeasurementEntry>) {
    forall k :: 0 <= k < |kept| ==> IsFirstOccurrence(ms, kept[k])
  }

  /** `m` is an entry of `ms` that no earlier entry shares date, type and side with. */
  predicate IsFirstOccurrence(ms: seq<MeasurementEntry>, m: MeasurementEntry) {
    exists i :: 0 <= i < |ms| && ms[i] == m && FirstWithKey(ms, i)
  }

  /** No entry before the i-th has its date, type and side. */
  predicate FirstWithKey(ms: seq<MeasurementEntry>, i: int)
    requires 0 <= i < |ms|
  {
    forall j :: 0 <= j < i ==> !SameKey(ms[j], ms[i])
  }

  /** First occurrences in a prefix stay first occurrences in the whole input. */
  lemma FirstOccurrencesInPrefix(ms: seq<MeasurementEntry>, n: nat, kept: seq<MeasurementEntry>)
    requires n <= |ms| && FirstOccurrences(ms[..n], kept)
    ensures FirstOccurrences(ms, kept)
  {
    forall k | 0 <= k < |kept| ensures IsFirstOccurrence(ms, kept[k]) {
      var i :| 0 <= i < n && ms[..n][i] == kept[k] && FirstWithKey(ms[..n], i);
      assert forall j :: 0 <= j <= i ==> ms[..n][j] == ms[j];
      assert ms[i] == kept[k] && FirstWithKey(ms, i);
    }
  }

  /** Appending the last entry, when none of the kept entries has its key, keeps the
      kept entries first occurrences. */
  lemma AppendFirstOccurrence(ms: seq<MeasurementEntry>, before: seq<MeasurementEntry>)
    requires ms != [] && KeysCovered(ms[..|ms| - 1], before) && FirstOccurrences(ms, before)
    requires !IsDuplicate(ms[|ms| - 1], before)
    ensures FirstOccurrences(ms, before + [ms[|ms| - 1]])
  {
    var init := ms[..|ms| - 1];
    var last := |ms| - 1;
    forall j | 0 <= j < last ensures !SameKey(ms[j], ms[last]) {
      assert ms[j] == init[j];
      var kk :| 0 <= kk < |before| && SameKey(before[kk], init[j]);
    }
    assert FirstWithKey(ms, last);
    var r := before + [ms[last]];
    forall k | 0 <= k < |r| ensures IsFirstOccurrence(ms, r[k]) {
      if k < |before| {
        assert r[k] == before[k];
      }
    }
  }

  /** Each kept entry is the first entry of the input with its date, type and side. */
  lemma {:induction false} DedupFirst(ms: seq<MeasurementEntry>)
    ensures FirstOccurrences(ms, Dedup(ms))
  {
    if ms != [] {
      var init := ms[..|ms| - 1];
      DedupFirst(init);
      FirstOccurrencesInPrefix(ms, |ms| - 1, Dedup(init));
      if !IsDuplicate(ms[|ms| - 1], Dedup(init)) {
        DedupComplete(init);
        AppendFirstOccurrence(ms, Dedup(init));
      }
    } else {
      assert Dedup(ms) == [];
    }
  }

  /** Reading more entries only appends: the entries kept from a prefix of the input are a
      prefix of those kept from the whole input, so the kept entries are in input order. */
  lemma {:induction false} DedupPrefix(ms: seq<MeasurementEntry>, n: nat)
    requires n <= |ms|
    ensures Dedup(ms[..n]) <= Dedup(ms)
    decreases |ms| - n
  {
    if n < |ms| {
      DedupPrefix(ms, n + 1);
      assert ms[..n + 1][..n] == ms[..n];
    } else {
      assert ms[..n] == ms;
    }
  }

  /** readJSON: null when the object is null, has no "measurements" value, that value is
      not an array (reading its length throws, and the method catches it), the array is
      empty, or no entry survives; otherwise the kept entries. */
  function ReadJson(json: Option<map<string, Json>>, lib: Library): (r: Option<seq<MeasurementEntry>>)
    ensures r.Some? ==> r.value != []
  {
    if json.None? || ControllerName !in json.value then None
    else
      match json.value[ControllerName]
      case JArray(items) =>
        if items == [] then None
        else
          var kept := Dedup(FilterMap(ReadStep(lib), items));
          if kept == [] then None else Some(kept)
      case _ => None
  }

  /** Every entry the readJSON loop keeps was read from the array, so it has a date, a
      type and a number value. */
  lemma KeptEntriesAreComplete(items: seq<Json>, lib: Library)
    ensures forall k :: 0 <= k < |Dedup(FilterMap(ReadStep(lib), items))| ==>
              var m := Dedup(FilterMap(ReadStep(lib), items))[k];
              m.date.Some? && m.measurementType.Some? && m.value.Some? && !m.value.value.NaN?
  {
    var parsed := FilterMap(ReadStep(lib), items);
    FilterMapMembers(ReadStep(lib), items);
    DedupFirst(parsed);
    var r := Dedup(parsed);
    forall k | 0 <= k < |r|
      ensures r[k].date.Some? && r[k].measurementType.Some? && r[k].value.Some? && !r[k].value.value.NaN?
    {
      assert IsFirstOccurrence(parsed, r[k]);
      var p :| 0 <= p < |parsed| && parsed[p] == r[k] && FirstWithKey(parsed, p);
      var i :| 0 <= i < |items| && ReadStep(lib)(items[i]) == Some(parsed[p]);
    }
  }

  /** readJSON gives null without an array under "measurements"; what it gives otherwise
      are entries with a date, a type and a number value, no two sharing date, type and
      side. */
  lemma ReadJsonSpec(json: Option<map<string, Json>>, lib: Library)
    ensures json.None? || ControllerName !in json.value || !json.value[ControllerName].JArray? ==> ReadJson(json, lib).None?
    ensures ReadJson(json, lib).Some? ==>
              var r := ReadJson(json, lib).value;
              (forall k :: 0 <= k < |r| ==>
                 r[k].date.Some? && r[k].measurementType.Some? && r[k].value.Some? && !r[k].value.value.NaN?)
              && (forall i, j :: 0 <= i < j < |r| ==> !SameKey(r[i], r[j]))
  {
    if ReadJson(json, lib).Some? {
      var items := json.value[ControllerName].items;
      KeptEntriesAreComplete(items, lib);
      DedupDistinct(FilterMap(ReadStep(lib), items));
    }
  }

  /** Only an empty input keeps no entry. */
  lemma DedupEmpty(ms: seq<MeasurementEntry>)
    ensures Dedup(ms) == [] <==> ms == []
  {
    if ms != [] {
      DedupComplete(ms);
      assert KeysCovered(ms, Dedup(ms));
      var k :| 0 <= k < |Dedup(ms)| && SameKey(Dedup(ms)[k], ms[0]);
    }
  }

  /** Given an array under "measurements", readJSON gives null exactly when no element of
      it is read as an entry; an empty array is the case without elements. */
  lemma ReadJsonNullIff(json: map<string, Json>, lib: Library)
    requires ControllerName in json && json[ControllerName].JArray?
    ensures var items := json[ControllerName].items;
            ReadJson(Some(json), lib).None? <==> forall i :: 0 <= i < |items| ==> ReadStep(lib)(items[i]).None?
  {
    var items := json[ControllerName].items;
    FilterMapEmpty(ReadStep(lib), items);
    DedupEmpty(FilterMap(ReadStep(lib), items));
  }

  /** The readJSON loop. */
  method ReadMeasurementsJson(json: Option<map<string, Json>>, lib: Library) returns (r: Option<seq<MeasurementEntry>>)
    ensures r == ReadJson(json, lib)
  {
    if json.None? || ControllerName !in json.value || !json.value[ControllerName].JArray? {
      return None;
    }
    var entries := json.value[ControllerName].items;
    if entries == [] {
      return None;
    }
    var measurements: seq<MeasurementEntry> := [];
    var i := 0;
    while i < |entries|
      invariant 0 <= i <= |entries|
      invariant measurements == Dedup(FilterMap(ReadStep(lib), entries[..i]))
    {
      assert entries[..i + 1][..i] == entries[..i];
      var measurement := JsonToEntry(entries[i], lib);
      if measurement.Some? && !IsDuplicate(measurement.value, measurements) {
        measurements := measurements + [measurement.value];
      }
      i := i + 1;
    }
    assert entries[..i] == entries;
    if measurements == [] {
      return None;
    }
    return Some(measurements);
  }
}
