/** The catalog entries the overview table is built from, and the few
    JavaScript value rules the table code leans on: a missing field is
    `undefined`, `a || b` picks the first truthy operand, and a template
    literal renders `undefined` as the text "undefined". */
module Catalog {

  datatype Option<T> = None | Some(value: T)
  {
    function GetOr(default: T): T
    {
      match this
      case Some(v) => v
      case None => default
    }
  }

  /** A string field is truthy when it is present and not empty. */
  predicate Truthy(s: Option<string>)
  {
    s.Some? && s.value != ""
  }

  /** `a || b` on two string fields. */
  function Or(a: Option<string>, b: Option<string>): (r: Option<string>)
    ensures Truthy(r) <==> Truthy(a) || Truthy(b)
    ensures Truthy(a) ==> r == a
    ensures !Truthy(a) ==> r == b
  {
    if Truthy(a) then a else b
  }

  /** `${s}` inside a template literal. */
  function Interpolate(s: Option<string>): (r: string)
    ensures s.Some? ==> r == s.value
    ensures s.None? ==> r == "undefined"
  {
    match s
    case Some(v) => v
    case None => "undefined"
  }

  /** One entry of `api.subItems`, as `Object.entries` yields it: its key and its value. */
  datatype SubEntry = SubEntry(key: string, item: SubItem)

  datatype SubItem = SubItem(
    title: Option<string>,
    versions: Option<seq<string>>,
    url: Option<string>,
    apiName: Option<string>)

  /** The `api` part of a catalog entry. */
  datatype Api = Api(
    versions: Option<seq<string>>,
    url: Option<string>,
    apiName: Option<string>,
    subItems: Option<seq<SubEntry>>)

  datatype SubApp = SubApp(title: Option<string>, id: Option<string>)

  /** The `frontend` part of a catalog entry; array elements may be missing too. */
  datatype Frontend = Frontend(
    title: Option<string>,
    paths: Option<seq<Option<string>>>,
    subApps: Option<seq<SubApp>>)

  /** One catalog entry: one primary row of the table. */
  datatype Entry = Entry(
    title: Option<string>,
    appName: Option<string>,
    version: Option<string>,
    apiName: Option<string>,
    frontend: Option<Frontend>,
    api: Api)

  /** The property names a column can sort on. `Blank` is the empty name at
      position 0 of the column table, which no entry has. */
  datatype SortKey = Blank | Title | AppName | Version | ApiName

  /** The entry's property called `key`. */
  function Field(e: Entry, key: SortKey): Option<string>
  {
    match key
    case Blank => None
    case Title => e.title
    case AppName => e.appName
    case Version => e.version
    case ApiName => e.apiName
  }

  /** `indexToKey[index]`, fed to a parameter whose default is `'title'`:
      an index outside the table reads `undefined`, so the default applies. */
  function IndexToKey(index: int): (k: SortKey)
    ensures index == 0 <==> k == Blank
    ensures index == 2 <==> k == AppName
    ensures index == 3 <==> k == Version
    ensures k != ApiName
  {
    if index == 0 then Blank
    else if index == 2 then AppName
    else if index == 3 then Version
    else Title
  }
}
