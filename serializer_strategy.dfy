/**
 * `GitHubSerializerStrategy`, the naming and scalar-conversion strategy the
 * serializer hands to the underlying JSON library. Reflection is replaced by
 * explicit descriptions of the object being written: its type's full name and
 * its cached list of property getters. `Uri.TryCreate` is a parameter, and
 * what the library's own decoder would return is left symbolic.
 */
module GitHubSerializerStrategy {
  import opened Wrappers
  import opened Chars
  import opened StringExtensions

  // ---------------------------------------------------------------------
  // Values, types and the shapes of results
  // ---------------------------------------------------------------------

  /** A CLR value as the strategy sees it: `null`, a string, or some other object. */
  datatype Value = Null | Str(s: string) | Number(n: int) | Boolean(b: bool) | Object(id: nat)

  /**
   * One entry of the type's getter cache: the property name and its getter
   * delegate, `None` when the delegate is null and otherwise the value the
   * delegate returns for the instance being serialized.
   */
  datatype Getter = Getter(name: string, delegate: Option<Value>)

  /** An object handed to the strategy: its runtime type's `FullName` (which may be null) and that type's getters. */
  datatype Instance = Instance(typeFullName: Option<string>, getters: seq<Getter>)

  /** One key/value pair of the JSON object being built. */
  datatype Field = Field(key: string, value: Value)

  /** The three ways `TrySerializeUnknownTypes` can end. */
  datatype SerializeOutcome =
    | ArgumentNullException           // the input reference was null
    | NotSerialized                   // returned false, output null
    | Serialized(obj: seq<Field>)     // returned true, output the JSON object

  /** The target types the decoder distinguishes. */
  datatype ClrType =
    | UriType
    | EnumType(members: seq<string>)  // member names, in the order the runtime searches them
    | NullableType(underlying: ClrType)
    | OtherType(fullName: string)

  /** A parsed URI, as `Uri.TryCreate` hands it back. */
  datatype Uri = Uri(originalString: string)

  /** What `DeserializeObject` returns, or the exception it throws. */
  datatype Decoded =
    | UriValue(uri: Uri)
    | EnumMember(member: string)
    | BaseDecoded(value: Value, target: ClrType)       // whatever the library's own decoder returns
    | EnumParseError(text: string, target: ClrType)    // `ArgumentException` from `Enum.Parse`

  // ---------------------------------------------------------------------
  // Names
  // ---------------------------------------------------------------------

  /** `MapClrMemberNameToJsonFieldName`: the wire name is the member name in Ruby case. */
  function MapClrMemberNameToJsonFieldName(clrPropertyName: string): (jsonFieldName: string)
    ensures jsonFieldName == ToLowerInvariant(Underscored(clrPropertyName))
    ensures NoUpper(jsonFieldName)
    ensures |jsonFieldName| == |clrPropertyName| + |Cuts(clrPropertyName)|
  {
    WordCount(clrPropertyName);
    ToRubyCase(clrPropertyName)
  }

  // ---------------------------------------------------------------------
  // Unknown types
  // ---------------------------------------------------------------------

  /** The fields written for the getters `g`, in order: one per non-null delegate, `null` values included. */
  function FieldsOf(g: seq<Getter>): seq<Field> {
    if g == [] then []
    else
      match g[0].delegate
      case None => FieldsOf(g[1..])
      case Some(v) => [Field(MapClrMemberNameToJsonFieldName(g[0].name), v)] + FieldsOf(g[1..])
  }

  /** The number of getters whose delegate is not null. */
  function DelegateCount(g: seq<Getter>): nat {
    if g == [] then 0 else (if g[0].delegate.Some? then 1 else 0) + DelegateCount(g[1..])
  }

  /**
   * `TrySerializeUnknownTypes`: a null input throws, a type without a full
   * name declines, and otherwise every getter with a delegate adds the
   * renamed property and its value (also when that value is null).
   */
  method TrySerializeUnknownTypes(input: Option<Instance>) returns (outcome: SerializeOutcome)
    ensures input.None? <==> outcome.ArgumentNullException?
    ensures outcome.NotSerialized? <==> input.Some? && input.value.typeFullName.None?
    ensures outcome.Serialized? ==> outcome.obj == FieldsOf(input.value.getters)
  {
    if input.None? {
      return ArgumentNullException;
    }
    var instance := input.value;
    if instance.typeFullName.None? {
      return NotSerialized;
    }
    var getters := instance.getters;
    var obj: seq<Field> := [];
    for k := 0 to |getters|
      invariant obj + FieldsOf(getters[k..]) == FieldsOf(getters)
    {
      assert getters[k..][1..] == getters[k + 1..];
      var getter := getters[k];
      if getter.delegate.Some? {
        var value := getter.delegate.value;
        obj := obj + [Field(MapClrMemberNameToJsonFieldName(getter.name), value)];
      }
    }
    return Serialized(obj);
  }

  /**
   * A field is written exactly when some getter has a delegate returning that
   * value and the field's key is that getter's name in Ruby case.
   */
  lemma {:induction false} FieldsOfMembership(g: seq<Getter>, key: string, v: Value)
    ensures Field(key, v) in FieldsOf(g) <==>
      exists j :: 0 <= j < |g| && g[j].delegate == Some(v) && key == ToRubyCase(g[j].name)
  {
    if g != [] {
      FieldsOfMembership(g[1..], key, v);
      if Field(key, v) in FieldsOf(g) && !(g[0].delegate == Some(v) && key == ToRubyCase(g[0].name)) {
        assert Field(key, v) in FieldsOf(g[1..]);
        var j :| 0 <= j < |g[1..]| && g[1..][j].delegate == Some(v) && key == ToRubyCase(g[1..][j].name);
        assert g[j + 1] == g[1..][j];
      }
      if exists j :: 0 <= j < |g| && g[j].delegate == Some(v) && key == ToRubyCase(g[j].name) {
        var j :| 0 <= j < |g| && g[j].delegate == Some(v) && key == ToRubyCase(g[j].name);
        if j > 0 {
          assert g[1..][j - 1] == g[j];
        }
      }
    }
  }

  /** Exactly one field is written per getter with a non-null delegate. */
  lemma {:induction false} FieldsOfCount(g: seq<Getter>)
    ensures |FieldsOf(g)| == DelegateCount(g)
  {
    if g != [] {
      FieldsOfCount(g[1..]);
    }
  }

  /** Null property values are written, not skipped. */
  lemma NullsKept(g: seq<Getter>, j: nat)
    requires j < |g| && g[j].delegate == Some(Null)
    ensures Field(ToRubyCase(g[j].name), Null) in FieldsOf(g)
  {
    FieldsOfMembership(g, ToRubyCase(g[j].name), Null);
  }

  /** Every key written is lower case. */
  lemma FieldKeysLowerCase(g: seq<Getter>, f: Field)
    requires f in FieldsOf(g)
    ensures NoUpper(f.key)
  {
    FieldsOfMembership(g, f.key, f.value);
  }

  /** An object with `Id = "5"` and `LastReadAt = null` is written with both keys, the null one included. */
  lemma NotificationExample()
    ensures FieldsOf([Getter("Id", Some(Str("5"))), Getter("LastReadAt", Some(Null))])
         == [Field("id", Str("5")), Field("last_read_at", Null)]
  {
    var g := [Getter("Id", Some(Str("5"))), Getter("LastReadAt", Some(Null))];
    RubyCaseId();
    RubyCaseLastReadAt();
    assert g[1..][1..] == [];
    assert FieldsOf(g[1..]) == [Field("last_read_at", Null)];
  }

  // ---------------------------------------------------------------------
  // Enums
  // ---------------------------------------------------------------------

  /** `SerializeEnum`: an enum value is written as its member name in lower case, never as a number. */
  function SerializeEnum(memberName: string): (wire: string)
    ensures NoUpper(wire)
    ensures |wire| == |memberName|
    ensures EqualsIgnoreCase(wire, memberName)
  {
    LowerIdempotent(memberName);
    ToLowerInvariant(memberName)
  }

  /** `string.Replace("-", "")`: every `-` removed, everything else kept in order. */
  function StripDashes(s: string): (r: string)
    ensures '-' !in r
    ensures '-' !in s ==> r == s
    ensures |r| <= |s|
    ensures multiset(r) == multiset(s)['-' := 0]
  {
    if s == [] then []
    else
      assert s == [s[0]] + s[1..];
      (if s[0] == '-' then [] else [s[0]]) + StripDashes(s[1..])
  }

  /** Removing dashes works piece by piece. */
  lemma {:induction false} StripDashesAppend(a: string, b: string)
    ensures StripDashes(a + b) == StripDashes(a) + StripDashes(b)
  {
    if a != [] {
      var head := if a[0] == '-' then [] else [a[0]];
      assert (a + b)[0] == a[0] && (a + b)[1..] == a[1..] + b;
      assert StripDashes(a + b) == head + StripDashes(a[1..] + b);
      assert StripDashes(a) == head + StripDashes(a[1..]);
      StripDashesAppend(a[1..], b);
    } else {
      assert a + b == b;
    }
  }

  /**
   * `Enum.Parse(type, text, ignoreCase: true)` on a member name: the first
   * member equal to `text` ignoring case, or `None` when there is none.
   */
  function ParseEnumIgnoreCase(members: seq<string>, text: string): (r: Option<string>)
    ensures r.None? <==> forall k :: 0 <= k < |members| ==> !EqualsIgnoreCase(members[k], text)
    ensures r.Some? ==>
      exists k :: 0 <= k < |members| && members[k] == r.value
        && EqualsIgnoreCase(r.value, text)
        && (forall j :: 0 <= j < k ==> !EqualsIgnoreCase(members[j], text))
  {
    if members == [] then None
    else if EqualsIgnoreCase(members[0], text) then Some(members[0])
    else
      var rest := ParseEnumIgnoreCase(members[1..], text);
      assert forall k :: 1 <= k < |members| ==> members[k] == members[1..][k - 1];
      rest
  }

  /** No two member names of the enum are equal ignoring case. */
  predicate CaseInsensitivelyDistinct(members: seq<string>) {
    forall i, j :: 0 <= i < j < |members| ==> !EqualsIgnoreCase(members[i], members[j])
  }

  // ---------------------------------------------------------------------
  // Decoding
  // ---------------------------------------------------------------------

  /**
   * `DeserializeObject`: a string is tried as a URI (for a URI target), then
   * as an enum name with every `-` removed (for an enum target), then as the
   * name of the underlying enum without removing `-` (for a nullable-enum
   * target); everything else goes to the library's decoder.
   */
  function DeserializeObject(value: Value, target: ClrType, tryCreateUri: string -> Option<Uri>): (r: Decoded)
    ensures !value.Str? ==> r == BaseDecoded(value, target)
    ensures r.UriValue? <==> target.UriType? && value.Str? && tryCreateUri(value.s).Some?
    ensures r.UriValue? ==> tryCreateUri(value.s) == Some(r.uri)
    ensures r.EnumParseError? ==>
      value.Str? && (target.EnumType? || (target.NullableType? && target.underlying.EnumType?))
    ensures r.EnumMember? && target.EnumType? ==>
      value.Str? && r.member in target.members && EqualsIgnoreCase(r.member, StripDashes(value.s))
    ensures r.EnumMember? && !target.EnumType? ==>
      value.Str? && target.NullableType? && target.underlying.EnumType?
      && r.member in target.underlying.members && EqualsIgnoreCase(r.member, value.s)
    ensures value.Str? && target.EnumType? ==>
      (r.EnumParseError? <==> forall k :: 0 <= k < |target.members| ==> !EqualsIgnoreCase(target.members[k], StripDashes(value.s)))
      && (r.EnumMember? <==> !r.EnumParseError?)
      && (r.EnumMember? ==> ParseEnumIgnoreCase(target.members, StripDashes(value.s)) == Some(r.member))
      && (r.EnumParseError? ==> r == EnumParseError(StripDashes(value.s), target))
    ensures value.Str? && target.NullableType? && target.underlying.EnumType? ==>
      (r.EnumParseError? <==> forall k :: 0 <= k < |target.underlying.members| ==> !EqualsIgnoreCase(target.underlying.members[k], value.s))
      && (r.EnumMember? <==> !r.EnumParseError?)
      && (r.EnumMember? ==> ParseEnumIgnoreCase(target.underlying.members, value.s) == Some(r.member))
      && (r.EnumParseError? ==> r == EnumParseError(value.s, target.underlying))
    ensures (value.Str? && !(target.UriType? && tryCreateUri(value.s).Some?) && !target.EnumType?
             && !(target.NullableType? && target.underlying.EnumType?)) ==>
      r == BaseDecoded(value, target)
  {
    match value
    case Str(s) =>
      if target.UriType? && tryCreateUri(s).Some? then
        UriValue(tryCreateUri(s).value)
      else if target.EnumType? then
        var stripped := StripDashes(s);
        match ParseEnumIgnoreCase(target.members, stripped)
        case Some(m) => EnumMember(m)
        case None => EnumParseError(stripped, target)
      else if target.NullableType? && target.underlying.EnumType? then
        match ParseEnumIgnoreCase(target.underlying.members, s)
        case Some(m) => EnumMember(m)
        case None => EnumParseError(s, target.underlying)
      else
        BaseDecoded(value, target)
    case _ => BaseDecoded(value, target)
  }

  /** A string a URI target cannot parse falls through to the library's decoder instead of throwing. */
  lemma UriFallsThrough(s: string, tryCreateUri: string -> Option<Uri>)
    requires tryCreateUri(s).None?
    ensures DeserializeObject(Str(s), UriType, tryCreateUri) == BaseDecoded(Str(s), UriType)
  {
  }

  /**
   * Enum round trip: a member written by `SerializeEnum` reads back as the
   * same member, both into the enum and into its nullable form, provided the
   * member names differ ignoring case (a C# member name never holds a `-`).
   */
  lemma EnumRoundTrip(members: seq<string>, k: nat, tryCreateUri: string -> Option<Uri>)
    requires k < |members| && '-' !in members[k]
    requires CaseInsensitivelyDistinct(members)
    ensures DeserializeObject(Str(SerializeEnum(members[k])), EnumType(members), tryCreateUri)
         == EnumMember(members[k])
    ensures DeserializeObject(Str(SerializeEnum(members[k])), NullableType(EnumType(members)), tryCreateUri)
         == EnumMember(members[k])
  {
    var wire := SerializeEnum(members[k]);
    LowerKeepsDashes(members[k]);
    assert StripDashes(wire) == wire;
    var r := ParseEnumIgnoreCase(members, wire);
    assert EqualsIgnoreCase(members[k], wire);
    var i :| 0 <= i < |members| && members[i] == r.value && EqualsIgnoreCase(r.value, wire)
      && forall j :: 0 <= j < i ==> !EqualsIgnoreCase(members[j], wire);
    assert EqualsIgnoreCase(members[i], members[k]);
    assert i == k;
  }

  /** Into an enum, `-` in the incoming string makes no difference. */
  lemma EnumIgnoresDashes(s: string, members: seq<string>, tryCreateUri: string -> Option<Uri>)
    ensures DeserializeObject(Str(s), EnumType(members), tryCreateUri)
         == DeserializeObject(Str(StripDashes(s)), EnumType(members), tryCreateUri)
  {
    assert StripDashes(StripDashes(s)) == StripDashes(s);
  }

  /**
   * The two enum paths differ: a string holding a `-` that names a member
   * once the dashes are gone reads as that member into the enum, but into
   * the nullable form of the same enum the `-` is kept, no member name
   * matches, and the parse throws.
   */
  lemma DashAsymmetry(s: string, members: seq<string>, tryCreateUri: string -> Option<Uri>)
    requires '-' in s
    requires forall k :: 0 <= k < |members| ==> '-' !in members[k]
    requires exists k :: 0 <= k < |members| && EqualsIgnoreCase(members[k], StripDashes(s))
    ensures DeserializeObject(Str(s), EnumType(members), tryCreateUri).EnumMember?
    ensures forall k :: (0 <= k < |members| && EqualsIgnoreCase(members[k], StripDashes(s))
                         && (forall j :: 0 <= j < k ==> !EqualsIgnoreCase(members[j], StripDashes(s)))) ==>
      DeserializeObject(Str(s), EnumType(members), tryCreateUri) == EnumMember(members[k])
    ensures DeserializeObject(Str(s), NullableType(EnumType(members)), tryCreateUri)
         == EnumParseError(s, EnumType(members))
  {
    forall k | 0 <= k < |members|
      ensures !EqualsIgnoreCase(members[k], s)
    {
      LowerKeepsDashes(members[k]);
      LowerKeepsDashes(s);
    }
  }
}
