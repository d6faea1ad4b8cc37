# GitHubSharp JSON naming and scalar-conversion strategy, in Dafny

GitHubSharp is a typed client for GitHub's REST API. Its only non-trivial
logic is the shim in `SimpleJsonSerializer.cs` that sits between the C# models
and the generic SimpleJson library:

* `StringExtensions.SplitUpperCase` cuts a PascalCase member name into words at
  its capitals, and `ToRubyCase` joins those words with `_` and lower-cases the
  result, so `LastReadAt` becomes `last_read_at` on the wire;
* `GitHubSerializerStrategy` uses that mapping for every property name. It
  writes objects of unknown types as key/value objects with renamed keys, null
  values included. It writes enums as their lower-cased member names. When it
  decodes a string it tries a URI, then an enum name with every `-` removed,
  then a nullable enum name without removing `-`.

The model has four modules:

* `Wrappers` (`wrappers.dfy`): `Option`, used for .NET references that may be null.
* `Chars` (`chars.dfy`): `char.IsUpper`, `char.IsWhiteSpace`, `char.MinValue` and
  `ToLowerInvariant`. They are exact for U+0000..U+00FF.
* `StringExtensions` (`string_extensions.dfy`): the word splitter and the Ruby-case name.
  - The splitter is a method with a loop, as in the source. It is proved equal
    to the specification function `Words`.
  - `Cuts` lists the cut positions. `Boundaries` and `Underscored` are
    independent descriptions of the words and of the wire name.
* `GitHubSerializerStrategy` (`serializer_strategy.dfy`): the four overrides.
  - Reflection is replaced by an `Instance`: its type's `FullName` and its
    cached getters. Each getter is a property name plus a delegate, which is
    either null or the value it returns for this instance.
  - `Uri.TryCreate` is a function parameter.
  - The library's own decoder, `base.DeserializeObject`, stays symbolic as
    `BaseDecoded(value, type)`.
  - Exceptions are result constructors: `ArgumentNullException` and `EnumParseError`.

A position `i` of a name is a *cut* when `1 <= i`, the character at `i` is
upper case, and the splitter's `previousChar` is not white space. Because
`previousChar` starts as `char.MinValue` and is updated only at the end of each
step, at `i = 1` it is still `MinValue`. The first character is therefore never
consulted: `" B"` splits into `" "` and `"B"`, while `"  B"` stays one word.

## Model

| member | source | states |
|---|---|---|
| `Chars.ToLowerChar` | SimpleJsonSerializer.cs:16 | the invariant lower-case of a character is never upper case, changes exactly the upper-case characters, and maps `-` and `_` only to themselves |
| `Chars.ToLowerInvariant` | SimpleJsonSerializer.cs:16 | lower-casing a string keeps its length and leaves no upper-case character |
| `StringExtensions.SplitUpperCase` | SimpleJsonSerializer.cs:19-39 | the loop yields exactly `Words(source)`; the words glued together give `source` back, and there is one word more than there are cut positions |
| `StringExtensions.ToRubyCase` | SimpleJsonSerializer.cs:14-17 | the wire name is the member name with `_` put before every cut position, then lower-cased; it has no upper-case character and its length is the name's length plus the word count minus one |
| `StringExtensions.CutsExact` | SimpleJsonSerializer.cs:26-33 | the cut list holds exactly the positions where a word starts, in strictly increasing order |
| `StringExtensions.FirstCutIgnoresFirstChar` | SimpleJsonSerializer.cs:23-34 | position 1 is a cut exactly when it is upper case, whatever the first character is; from position 2 on, the previous character must also not be white space |
| `StringExtensions.WordsAreSlices` | SimpleJsonSerializer.cs:21-38 | word `k` is the slice of the name from boundary `k` to boundary `k+1`, where the boundaries are 0, every cut position and the length |
| `StringExtensions.WordsCoverSource` | SimpleJsonSerializer.cs:21-38 | the words cover the name with no gaps or overlaps: concatenated they give it back, also for the empty name (one empty word) |
| `StringExtensions.WordCount` | SimpleJsonSerializer.cs:26-38 | the number of words is one more than the number of cut positions |
| `StringExtensions.WordShape` | SimpleJsonSerializer.cs:26-32 | the first word is non-empty when the name is; every later word is non-empty and starts with an upper-case character |
| `StringExtensions.JoinedWordsAreUnderscored` | SimpleJsonSerializer.cs:16 | joining the words with `_` is the same as inserting `_` before every cut position |
| `StringExtensions.UnderscoredLength` | SimpleJsonSerializer.cs:16 | inserting the underscores lengthens the name by exactly the number of cut positions |
| `StringExtensions.RubyCaseExamples` | SimpleJsonSerializer.cs:14-17 | `Id` → `id`, `LastReadAt` → `last_read_at`, `PerPage` → `per_page`, `HTMLUrl` → `h_t_m_l_url` (not acronym-aware), and the empty name → the empty name |
| `StringExtensions.WhiteSpaceExamples` | SimpleJsonSerializer.cs:23-34 | `" B"` splits into `" "` and `"B"`, `"  B"` stays one word, and the empty string gives one empty word |
| `GitHubSerializerStrategy.MapClrMemberNameToJsonFieldName` | SimpleJsonSerializer.cs:58-61 | the JSON field name is the member name with `_` before every cut, lower-cased; it has no upper-case character and is longer by the number of cuts |
| `GitHubSerializerStrategy.TrySerializeUnknownTypes` | SimpleJsonSerializer.cs:65-87 | a null input (and only that) throws `ArgumentNullException`; a type whose `FullName` is null (and only that) returns false with no output; otherwise the output is `FieldsOf(getters)`, built by the loop over the getters |
| `GitHubSerializerStrategy.FieldsOfMembership` | SimpleJsonSerializer.cs:74-83 | a field `(key, value)` is written if and only if some getter has a non-null delegate returning `value` and `key` is that getter's name in Ruby case |
| `GitHubSerializerStrategy.FieldsOfCount` | SimpleJsonSerializer.cs:74-84 | exactly one field is written per getter whose delegate is not null |
| `GitHubSerializerStrategy.NullsKept` | SimpleJsonSerializer.cs:78-82 | a property whose value is null is still written, under its Ruby-case key, with value null |
| `GitHubSerializerStrategy.FieldKeysLowerCase` | SimpleJsonSerializer.cs:82 | every key written has no upper-case character |
| `GitHubSerializerStrategy.NotificationExample` | SimpleJsonSerializer.cs:72-86 | getters `Id = "5"` and `LastReadAt = null` give the fields `"id": "5"` and `"last_read_at": null`, in that order |
| `GitHubSerializerStrategy.SerializeEnum` | SimpleJsonSerializer.cs:91-94 | an enum is written as its member name lower-cased: no upper-case character, the same length, equal to the name ignoring case |
| `GitHubSerializerStrategy.StripDashes` | SimpleJsonSerializer.cs:113-114 | the result holds exactly the input's characters other than `-` (same multiset with every `-` removed), so it holds no `-`, is no longer than the input, and is the input itself when the input has no `-` |
| `GitHubSerializerStrategy.StripDashesAppend` | SimpleJsonSerializer.cs:114 | removing `-` from a concatenation is removing it from each part, so the kept characters stay in their order |
| `GitHubSerializerStrategy.ParseEnumIgnoreCase` | SimpleJsonSerializer.cs:115 | the parse fails exactly when no member equals the text ignoring case; otherwise it returns the first member that does |
| `GitHubSerializerStrategy.DeserializeObject` | SimpleJsonSerializer.cs:97-129 | non-strings go to the library decoder; a URI is returned exactly for a URI target whose string parses, and is the parsed one; for an enum target the string without `-` is parsed and the call throws exactly when no member equals it ignoring case, otherwise it returns the first member that does; for a nullable-enum target the same holds for the string as is, against the underlying enum's members; every other string goes to the library decoder; only enum and nullable-enum targets can throw |
| `GitHubSerializerStrategy.UriFallsThrough` | SimpleJsonSerializer.cs:102-109 | a string a URI target cannot parse goes to the library decoder instead of throwing |
| `GitHubSerializerStrategy.EnumRoundTrip` | SimpleJsonSerializer.cs:91-124 | an enum member written by `SerializeEnum` decodes back to the same member, into the enum and into its nullable form, when the member names differ ignoring case |
| `GitHubSerializerStrategy.EnumIgnoresDashes` | SimpleJsonSerializer.cs:111-116 | into an enum, a string decodes the same as the string with its `-` removed |
| `GitHubSerializerStrategy.DashAsymmetry` | SimpleJsonSerializer.cs:111-125 | a string holding `-` that names a member once the `-` are removed decodes to the first such member of the enum (so `private-repo` reads as `PrivateRepo`), but throws for the nullable form of the same enum |

## Left out

- `GitHubSharp/Controllers/NotificationsController.cs`: one-line URL builders over an HTTP layer that is not part of this model.
- `SimpleJsonSerializer.Serialize` / `Deserialize` (SimpleJsonSerializer.cs:46-54): they only hand the strategy to the SimpleJson library, whose walk over objects and JSON text is not part of this model.
- `base.DeserializeObject` is kept symbolic (`BaseDecoded`). `JsonObject` is modelled as an ordered list of fields, and the exception `JsonObject.Add` throws when two properties map to the same key is not modelled.
- The process-wide getter cache (`GetCache`) and reflection (`GetType`, `FullName`, the getter delegates) are replaced by the explicit `Instance` description. The cache only saves time and changes no result.
- `Chars.IsUpper`, `Chars.IsWhiteSpace`, `Chars.ToLowerChar`: exact for U+0000..U+00FF only. Characters above that range count as neither upper case nor white space and are not changed by lower-casing. So the "no upper-case character" claims for `ToRubyCase`, `MapClrMemberNameToJsonFieldName` and `SerializeEnum` hold in .NET only for upper-case characters that have a lower-case mapping (U+2102 `ℂ` is upper case and `ToLowerInvariant` leaves it). A model `char` is a Unicode scalar value, not a UTF-16 code unit, so positions and lengths differ from .NET's for text above U+FFFF.
- `Chars.EqualsIgnoreCase`: compares lower-case forms, not .NET's ordinal upper-case comparison; the two differ only for characters outside U+0000..U+00FF.
- `GitHubSerializerStrategy.ParseEnumIgnoreCase`: only the name match is modelled. `Enum.Parse` also trims white space and accepts numbers and comma-separated flag lists. The member list is taken in the order the runtime searches it.
- `GitHubSerializerStrategy.SerializeEnum` takes the member name, which is what `Enum.ToString` returns for a defined value. Values with no name, and flag combinations, are not modelled.
- `Uri.TryCreate` (RFC 3986 generic syntax) is a parameter `string -> Option<Uri>`. So the claim that a parsed URI's string form equals the input is not modelled.
