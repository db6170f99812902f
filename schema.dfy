/** Values of a label record, field descriptors and the labeler's configuration
    (main.py reads them from config.json and from the labels file). */
module Schema {

  datatype Option<+T> = None | Some(value: T)

  datatype Result<+T, +E> = Success(value: T) | Failure(error: E)

  /** A value in a label record: a submitted form string, or the boolean that
      checkbox coercion writes. */
  datatype Value = Str(s: string) | Bool(b: bool)

  /** One image's label record: field name to value. */
  type Record = map<string, Value>

  /** The label store: image file name to that image's record. */
  type Store = map<string, Record>

  /** Python truthiness of a stored value: "" and False are false, everything else true. */
  predicate Truthy(v: Value)
  {
    match v
    case Str(s) => s != ""
    case Bool(b) => b
  }

  /** What an f-string substitutes for a value, i.e. `str(v)`. */
  function Display(v: Value): string
  {
    match v
    case Str(s) => s
    case Bool(b) => if b then "True" else "False"
  }

  /** A field descriptor from the `keys` array of the configuration. `type`,
      `title` and `options` may be absent from the JSON object. */
  datatype Field = Field(name: string, kind: Option<string>, title: Option<string>, options: Option<seq<string>>)

  /** `key.get("type", "str")` */
  function Kind(key: Field): string
  {
    match key.kind
    case Some(k) => k
    case None => "str"
  }

  /** `key.get("title", key["name"])` */
  function Title(key: Field): string
  {
    match key.title
    case Some(t) => t
    case None => key.name
  }

  /** `data.get(name, "")` */
  function Stored(data: Record, name: string): Value
  {
    if name in data then data[name] else Str("")
  }

  predicate IsCheckbox(key: Field)
  {
    Kind(key) == "checkbox"
  }

  /** Names of the fields declared as checkboxes. */
  function CheckboxNames(keys: seq<Field>): set<string>
  {
    set i | 0 <= i < |keys| && IsCheckbox(keys[i]) :: keys[i].name
  }

  /** The uniqueness of field names that the configuration is meant to have. */
  predicate UniqueNames(keys: seq<Field>)
  {
    forall i, j :: 0 <= i < j < |keys| ==> keys[i].name != keys[j].name
  }

  /** The part of config.json the core reads: `title`, `sampling` and `keys`. */
  datatype Config = Config(title: Option<string>, sampling: Option<string>, keys: seq<Field>)

  const DefaultTitle: string := "Key-value data extraction labeler"

  /** `config.get("title", ...)` */
  function PageHeading(config: Config): string
  {
    match config.title
    case Some(t) => t
    case None => DefaultTitle
  }

  /** Only the exact string "random" selects random sampling; anything else,
      and an absent key, is sequential. */
  predicate RandomSampling(config: Config)
  {
    config.sampling == Some("random")
  }
}
