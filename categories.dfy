/** `extract_category`: turns the raw `categories` cell of a record into the
    list of display names stored in `flattened_categories`. */
module Categories {
  import opened Wrappers
  import opened Frame

  /** `category_map.get(id, default)`: the mapped name when `id` is an
      integer key of the map, otherwise `default`. */
  function MapGet(catMap: map<int, string>, id: Value, default: Value): (v: Value)
    ensures id.Int? && id.i in catMap ==> v == Str(catMap[id.i])
    ensures !(id.Int? && id.i in catMap) ==> v == default
  {
    if id.Int? && id.i in catMap then Str(catMap[id.i]) else default
  }

  /** One element of the list comprehension: `category_map.get(item['id'],
      item['category'])`. Both subscripts are evaluated before the lookup,
      so an item without a `'category'` key raises even when its id is
      mapped, and an item that is not a dict raises `TypeError`. */
  function ResolveItem(catMap: map<int, string>, item: Item): (r: Result<Value, PyError>)
    ensures item.NonDict? ==> r == Failure(TypeError)
    ensures item.Dict? && "id" !in item.fields ==> r == Failure(KeyError("id"))
    ensures item.Dict? && "id" in item.fields && "category" !in item.fields ==> r == Failure(KeyError("category"))
    ensures r.Success? <==> item.Dict? && "id" in item.fields && "category" in item.fields
    ensures r.Success? ==> r.value == MapGet(catMap, item.fields["id"], item.fields["category"])
  {
    match item
    case NonDict => Failure(TypeError)
    case Dict(f) =>
      if "id" !in f then Failure(KeyError("id"))
      else if "category" !in f then Failure(KeyError("category"))
      else Success(MapGet(catMap, f["id"], f["category"]))
  }

  /** The list comprehension over a parsed list: one name per item, in item
      order, nothing dropped or merged; the first item that raises aborts it
      with that item's exception. */
  function ResolveAll(catMap: map<int, string>, items: seq<Item>): (r: Result<seq<Value>, PyError>)
    ensures r.Success? <==> forall i :: 0 <= i < |items| ==> ResolveItem(catMap, items[i]).Success?
    ensures r.Success? ==> |r.value| == |items|
    ensures r.Success? ==> forall i :: 0 <= i < |items| ==> r.value[i] == ResolveItem(catMap, items[i]).value
    ensures r.Failure? ==> exists i :: 0 <= i < |items| && ResolveItem(catMap, items[i]) == Failure(r.error)
                                 && forall j :: 0 <= j < i ==> ResolveItem(catMap, items[j]).Success?
  {
    if items == [] then Success([])
    else
      var head :- ResolveItem(catMap, items[0]);
      var tail :- ResolveAll(catMap, items[1..]);
      Success([head] + tail)
  }

  /** The object `extract_category` holds after its `try` block: a string is
      replaced by what `ast.literal_eval` returns for it; `None` means the
      parser raised and the function already returned `None`. */
  function Literal(parse: string -> Option<PyObject>, cell: PyObject): Option<PyObject>
  {
    if cell.PyStr? then parse(cell.s) else Some(cell)
  }

  /** `extract_category(cat_list)`. `parse` stands for `ast.literal_eval`,
      `None` for a parse that raised. */
  function ExtractCategory(catMap: map<int, string>, parse: string -> Option<PyObject>, cell: PyObject)
    : (r: Result<Names, PyError>)
    // a string the parser rejects gives None: the parser's exception never escapes
    ensures cell.PyStr? && parse(cell.s).None? ==> r == Success(None)
    // None, NaN, numbers and other non-list objects give None
    ensures cell.PyOther? ==> r == Success(None)
    // so does a string that parses to something other than a list
    ensures cell.PyStr? && parse(cell.s).Some? && !parse(cell.s).value.PyList? ==> r == Success(None)
    // a list (given or parsed) gives one name per item, in order
    ensures Literal(parse, cell).Some? && Literal(parse, cell).value.PyList? ==>
              var items := Literal(parse, cell).value.items;
              && (r.Success? <==> ResolveAll(catMap, items).Success?)
              && (r.Success? ==> r.value == Some(ResolveAll(catMap, items).value))
              && (r.Failure? ==> r.error == ResolveAll(catMap, items).error)
    // an exception escapes only from resolving the items of a list
    ensures r.Failure? ==> Literal(parse, cell).Some? && Literal(parse, cell).value.PyList?
  {
    match Literal(parse, cell)
    case None => Success(None)
    case Some(obj) =>
      if obj.PyList? then
        var names :- ResolveAll(catMap, obj.items);
        Success(Some(names))
      else Success(None)
  }

  /** `df['categories'].apply(extract_category)`: the new column, one cell per
      record, or the exception raised by the first record that raises. */
  function ExtractColumn(catMap: map<int, string>, parse: string -> Option<PyObject>, records: seq<Record>)
    : (r: Result<seq<Names>, PyError>)
    ensures r.Success? <==>
              forall i :: 0 <= i < |records| ==> ExtractCategory(catMap, parse, records[i].categories).Success?
    ensures r.Success? ==> |r.value| == |records|
    ensures r.Success? ==> forall i :: 0 <= i < |records| ==>
              r.value[i] == ExtractCategory(catMap, parse, records[i].categories).value
    ensures r.Failure? ==>
              exists i :: (&& 0 <= i < |records|
                           && ExtractCategory(catMap, parse, records[i].categories) == Failure(r.error)
                           && forall j :: 0 <= j < i ==> ExtractCategory(catMap, parse, records[j].categories).Success?)
  {
    if records == [] then Success([])
    else
      var head :- ExtractCategory(catMap, parse, records[0].categories);
      var tail :- ExtractColumn(catMap, parse, records[1..]);
      Success([head] + tail)
  }
}
