/**
 * Configuration field lookups as the executors and the template expansion write them:
 * `config.fields.find(({ field, type }) => field === name && type === kind)`, then `?.value`.
 */
module NodeConfigs {
  import opened Types

  /** The `type` tag of a configuration field. */
  datatype FieldKind = StringKind | PathKind | OptionsKind

  function KindOf(f: ConfigField): FieldKind {
    match f
    case StringField(_, _) => StringKind
    case PathField(_, _) => PathKind
    case OptionsField(_, _) => OptionsKind
  }

  predicate Matches(f: ConfigField, name: string, kind: FieldKind) {
    f.field == name && KindOf(f) == kind
  }

  /** `find`: the first field with that name and kind. */
  function FindField(fields: seq<ConfigField>, name: string, kind: FieldKind): (r: Option<nat>)
    ensures r.Some? ==> r.value < |fields| && Matches(fields[r.value], name, kind)
    ensures r.Some? ==> forall j | 0 <= j < r.value :: !Matches(fields[j], name, kind)
    ensures r.None? ==> forall j | 0 <= j < |fields| :: !Matches(fields[j], name, kind)
  {
    if fields == [] then None
    else if Matches(fields[0], name, kind) then Some(0)
    else
      match FindField(fields[1..], name, kind)
      case None => None
      case Some(i) => Some(i + 1)
  }

  /** `find(...)?.value` for a string or path field: absent when there is no such field or it has no value. */
  function FieldValue(fields: seq<ConfigField>, name: string, kind: FieldKind): (r: Option<string>)
    requires kind != OptionsKind
    ensures r.Some? <==> FindField(fields, name, kind).Some? && fields[FindField(fields, name, kind).value].value.Some?
    ensures r.Some? ==> r == fields[FindField(fields, name, kind).value].value
  {
    match FindField(fields, name, kind)
    case None => None
    case Some(i) => fields[i].value
  }
}
