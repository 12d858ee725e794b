/** Cell values of the task and shelf tables, the column schemas with their
    required Python types (model.py:37-50), and the `isinstance` test that
    `edit_task` and `edit_shelf` apply. */
module Values {
  import opened Ids

  /** A value as it can sit in a table cell or arrive as a keyword
      argument. Floats (`value`) and timestamps (`due`) are abstracted to
      integers. */
  datatype Value =
    | VNone
    | VStr(s: string)
    | VInt(i: int)
    | VBool(b: bool)
    | VNum(x: int)
    | VTime(t: int)

  /** The Python type a column requires. */
  datatype Kind = KStr | KInt | KTime | KBool | KNum

  /** `isinstance(v, kind)`. A bool is an instance of int, as in Python. */
  predicate IsInstance(v: Value, k: Kind)
  {
    match k
    case KStr => v.VStr?
    case KInt => v.VInt? || v.VBool?
    case KTime => v.VTime?
    case KBool => v.VBool?
    case KNum => v.VNum?
  }

  /** The type's `__name__`. */
  function TypeName(k: Kind): string
  {
    match k
    case KStr => "str"
    case KInt => "int"
    case KTime => "Timestamp"
    case KBool => "bool"
    case KNum => "float"
  }

  /** Python truthiness, as used by `if self.shelfdf.at[...]` and `not`. */
  predicate Truthy(v: Value)
  {
    match v
    case VNone => false
    case VStr(s) => s != ""
    case VInt(i) => i != 0
    case VBool(b) => b
    case VNum(x) => x != 0
    case VTime(_) => true
  }

  /** A column schema: names in order with their types. */
  type Schema = seq<(string, Kind)>

  const TaskColumns: Schema := [("label", KStr), ("seen", KInt), ("due", KTime), ("completed", KBool), ("value", KNum)]
  const ShelfColumns: Schema := [("title", KStr), ("seen", KInt), ("is_filter", KBool), ("filter_string", KStr), ("is_sorter", KBool), ("sorter_string", KStr)]

  /** The type a schema requires of `key`, if `key` is a column. */
  function KindOf(schema: Schema, key: string): (r: Option<Kind>)
    ensures r.Some? <==> exists i :: 0 <= i < |schema| && schema[i].0 == key
    ensures r.Some? ==> exists i :: 0 <= i < |schema| && schema[i] == (key, r.value)
  {
    if schema == [] then None
    else if schema[0].0 == key then Some(schema[0].1)
    else
      var r := KindOf(schema[1..], key);
      assert forall i :: 1 <= i < |schema| ==> schema[i] == schema[1..][i - 1];
      r
  }

  /** A row of a table, without its `seen` count (kept with the graph). */
  type Record = map<string, Value>

  /** A cell of a row; an unset cell reads as `None`. */
  function Field(r: Record, key: string): Value
  {
    if key in r then r[key] else VNone
  }

  /** The row `create_empty_task` writes (model.py:110-114). */
  const EmptyTask: Record := map["label" := VStr("///"), "due" := VNone, "completed" := VBool(false), "value" := VNum(0)]

  /** The row `create_empty_shelf` writes (model.py:123-128). */
  const EmptyShelf: Record := map["title" := VStr("///"), "is_filter" := VBool(false), "filter_string" := VStr(""), "is_sorter" := VBool(false), "sorter_string" := VStr("")]
}
