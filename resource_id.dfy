/**
 * ResourceId: a 16-bit numeric or a string resource identifier, the key of
 * every level of the resource tree; and the predefined resource types.
 */
module ResourceIds {
  import opened Bytes
  import opened Results
  import opened Text

  datatype ResourceId = ResourceId(numericalId: Option<uint16>, stringId: Option<Str>)

  /** `new ResourceId(ushort)`, also the implicit conversion from ushort. */
  function Numeric(n: uint16): (r: ResourceId)
    ensures r.numericalId == Some(n) && r.stringId.None?
  {
    ResourceId(Some(n), None)
  }

  /** `new ResourceId(string)`, also the implicit conversion from string. */
  function Named(s: Str): (r: ResourceId)
    ensures r.numericalId.None? && r.stringId == Some(s)
  {
    ResourceId(None, Some(s))
  }

  /** The `default(ResourceId)` value, which neither constructor builds. */
  const NO_ID: ResourceId := ResourceId(None, None)

  /** `ToString`: the decimal digits of a numeric id, a string id itself, else the empty string. */
  function ToString(id: ResourceId): (r: Str)
  {
    if id.numericalId.Some? then Decimal(id.numericalId.value)
    else if id.stringId.Some? then id.stringId.value
    else []
  }

  /** A numeric id prints as digits that parse back to it, a string id as itself, the default as "". */
  lemma ToStringSpec(n: uint16, s: Str)
    ensures forall i | 0 <= i < |ToString(Numeric(n))| :: IsDigit(ToString(Numeric(n))[i])
    ensures ParseDecimal(ToString(Numeric(n))) == n
    ensures ToString(Named(s)) == s
    ensures ToString(NO_ID) == []
  {
    ParseDecimalOfDecimal(n);
  }

  /** `Equals`: both components compare equal, strings ordinally (so case-sensitively). */
  predicate Equals(a: ResourceId, b: ResourceId)
  {
    a.numericalId == b.numericalId && a.stringId == b.stringId
  }

  /**
   * The override compares exactly the two fields, number and string, so it is
   * value equality, and a dictionary keyed by ResourceId (the directory's
   * `Entries`, the diff's keys) may be modelled as a map keyed by the value;
   * a number never equals a string.
   */
  lemma EqualsIsIdentity(a: ResourceId, b: ResourceId, n: uint16, m: uint16, s: Str, t: Str)
    ensures Equals(a, b) <==> a == b
    ensures !Equals(Numeric(n), Named(s))
    ensures Equals(Numeric(n), Numeric(m)) <==> n == m
    ensures Equals(Named(s), Named(t)) <==> s == t
  {
  }

  /** The predefined resource types (RT_*). */
  datatype ResourceType =
    | Cursor | Bitmap | Icon | Menu | Dialog | String | FontDir | Font | Accelerator | RcData
    | MessageTable | GroupCursor | GroupIcon | Version | DlgInclude | PlugPlay | Vxd | AniCursor
    | AniIcon | Html | Manifest
  {
    /** The enum's underlying value. */
    function Code(): uint16
    {
      match this
      case Cursor => 1 case Bitmap => 2 case Icon => 3 case Menu => 4 case Dialog => 5
      case String => 6 case FontDir => 7 case Font => 8 case Accelerator => 9 case RcData => 10
      case MessageTable => 11 case GroupCursor => 12 case GroupIcon => 14 case Version => 16
      case DlgInclude => 17 case PlugPlay => 19 case Vxd => 20 case AniCursor => 21 case AniIcon => 22
      case Html => 23 case Manifest => 24
    }
  }

  /** The implicit conversion from ResourceType: the numeric id `(ushort)type`. */
  function OfType(t: ResourceType): (r: ResourceId)
    ensures r == Numeric(t.Code())
  {
    Numeric(t.Code())
  }

  /** Distinct types convert to distinct ids, and the group types sit 11 above their members. */
  lemma TypeIdsDistinct(t: ResourceType, u: ResourceType)
    ensures OfType(t) == OfType(u) <==> t == u
    ensures OfType(GroupCursor) == Numeric(Cursor.Code() + 11)
    ensures OfType(GroupIcon) == Numeric(Icon.Code() + 11)
  {
  }
}
