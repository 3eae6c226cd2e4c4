# flet-secure-storage, modelled in Dafny

flet-secure-storage is a Flet service, `SecureStorage`, that forwards
key-value calls to the native flutter_secure_storage plugin. This project
models the parts that decide what reaches the plugin:

- the input validators in `_helpers.py`: `parse_str`, `parse_bool`,
  `parse_enum`, `parse_int` and `add_prefix`;
- the Android, Web and Windows option records and their `options()`
  wire mappings;
- the iOS, macOS and Linux records, which have no fields and always
  serialise to `{}`;
- the facade itself:
  - the prefix and separator normalisation in `__init__`;
  - `_validate_key` and the prefixing of every keyed call;
  - `set`, `get`, `contains_key`, `remove` and `clear`;
  - the `get_keys` filter;
  - the `before_update` pass that turns each platform options record into
    its wire mapping.

Python values are a tagged `Value` datatype. An exception is a `Result`
error: TypeError, ValueError, AttributeError, or SecureStorageKeyError
naming the offending attribute.

The plugin's storage is an insertion-ordered dict (`Store`), served the
way the repository's test double serves it (`Channel`). The facade's
keyed calls are pure functions from a store to the store afterwards and
the reply.

Modules, one per file:

| file | module | models |
|---|---|---|
| results.dfy | Results | exceptions, `Option`, `Result` |
| text.dfy | Text | `str.strip()`, `str.lower()`, `startswith`, `isspace` |
| values.dfy | Values | Python values, enum classes, wire mappings |
| helpers.dfy | Helpers | `_helpers.py` |
| wire.dfy | Wire | a dict display whose values may raise |
| android.dfy | Android | `android_options.py` |
| web.dfy | Web | `web_options.py` |
| windows.dfy | Windows | `windows_options.py` |
| descriptors.dfy | Descriptors | the six platform records and their `options()` |
| store.dfy | Store | the plugin's dict |
| channel.dfy | Channel | the method channel as the test double answers it |
| secure_storage.dfy | SecureStorage | `secure_storage.py` |

Two places where the package's own docstrings or messages suggest one
exception and the code raises another; the model follows the code:

- `_validate_key` raises ValueError, not TypeError, for a key that is not
  a string (secure_storage.py:135-136). The tests expect exactly that for
  `set`, `get`, `contains_key` and `remove` with the key `123`
  (tests/flet_secure_storage/test_secure_storage.py:38-60).
- The before_update docstring says it "raises TypeError" for an options
  attribute that is not a dataclass instance with an `options()` method
  (secure_storage.py:98-99). The code raises SecureStorageKeyError, a
  ValueError subclass, in all three such cases (secure_storage.py:115-130).

## Model

| member | source | states |
|---|---|---|
| Helpers.TokenSetsDisjoint | src/flet_secure_storage/_helpers.py:4-5 | No string is both a true token and a false token. |
| Helpers.ParseStr | src/flet_secure_storage/_helpers.py:19-21 | A str gives its stripped form: a slice of the input with only whitespace outside it and none at its ends. Any other value, a bool included, is a TypeError. |
| Helpers.ParseBool | src/flet_secure_storage/_helpers.py:40-64 | None gives None and a bool gives itself. A str gives True exactly when its lower-cased, stripped form is a true token, and False exactly when it is a false token. A str that is neither is a ValueError. Every other value is a TypeError. |
| Helpers.ParseBoolIgnoresPadding | src/flet_secure_storage/_helpers.py:46-51 | Whitespace padding on either side never changes how a string is read. |
| Helpers.ParseBoolIgnoresCase | src/flet_secure_storage/_helpers.py:46-51 | Lower-casing a string first never changes how it is read. |
| Helpers.ParseBoolAcceptsTokens | src/flet_secure_storage/_helpers.py:46-51 | Every token, in any letter case and with any padding, reads as the boolean of its own set. |
| Helpers.TokensAreTrimmed | src/flet_secure_storage/_helpers.py:4-5 | No token has surrounding whitespace. |
| Helpers.ParseEnum | src/flet_secure_storage/_helpers.py:88-101 | A member of the enum gives its name, an alias resolved to the member it stands for. A str naming a member gives the name `enum_type[s].name` gives: its own name, or for an alias the name of the first member with the same value. A str naming none is a ValueError. Anything else, a member of another enum included, is a TypeError. An accepted value always names a member. |
| Helpers.CanonicalIsMember | src/flet_secure_storage/_helpers.py:92-93 | Resolving a member name, alias or not, gives a member name. |
| Helpers.CanonicalOfUnique | src/flet_secure_storage/_helpers.py:92-93 | In an enum whose values are all distinct there are no aliases, so every name resolves to itself. |
| Helpers.CanonicalTwice | src/flet_secure_storage/_helpers.py:92-93 | The name an alias resolves to is no alias: resolving twice is resolving once. |
| Helpers.ParseEnumIdempotent | src/flet_secure_storage/_helpers.py:88-97 | For an enum that declares each name once, as Python requires, parsing the emitted name again gives the same name. |
| Helpers.ParseInt | src/flet_secure_storage/_helpers.py:155-169 | None and "" give None; an int gives itself; a bool gives 1 or 0. Any other str is accepted exactly when, once stripped, it is an optionally signed run of digits, and then gives the integer that numeral denotes ("007" and "+5" included). A blank string is a ValueError, and so is any other rejected string. Any other value is a TypeError. |
| Helpers.DigitsLeadingZero | src/flet_secure_storage/_helpers.py:161-163 | A leading zero does not change the value of a run of digits. |
| Helpers.ParseIntZeroPadded | src/flet_secure_storage/_helpers.py:161-163 | A zero-padded numeral such as "007" is read as the number it pads. |
| Helpers.FormatNatDigits | src/flet_secure_storage/_helpers.py:161-163 | The decimal text of a natural number is a non-empty run of digits whose value is that number. |
| Helpers.FormatIntIsNumeral | src/flet_secure_storage/_helpers.py:161-163 | The decimal text of any integer is a trimmed numeral worth that integer. |
| Helpers.ParseIntRoundTrip | src/flet_secure_storage/_helpers.py:161-163 | Parsing the decimal text of any integer, with any whitespace padding, gives back that integer. |
| Helpers.AddPrefix | src/flet_secure_storage/_helpers.py:184-186 | The result starts with the prefix and ends with the key. An empty prefix leaves the key alone. Otherwise the result is exactly prefix, separator and key in that order, the separator sitting right after the prefix. |
| Helpers.AddPrefixInjective | src/flet_secure_storage/_helpers.py:184-186 | Distinct keys stay distinct once prefixed. |
| Text.StripLeftFacts | src/flet_secure_storage/_helpers.py:20 | lstrip keeps a suffix, cuts only whitespace, and stops at a non-space character. |
| Text.StripRightFacts | src/flet_secure_storage/_helpers.py:20 | rstrip keeps a prefix, cuts only whitespace, and stops at a non-space character. |
| Text.StripMeaning | src/flet_secure_storage/_helpers.py:20 | strip() keeps exactly the slice between the leading and trailing whitespace. It keeps nothing only for an all-whitespace string. |
| Text.StripOfTrimmed | src/flet_secure_storage/_helpers.py:20 | strip() leaves a string without surrounding whitespace unchanged. |
| Text.StripIgnoresPadding | src/flet_secure_storage/_helpers.py:20 | Extra whitespace on either side does not change what strip() keeps. |
| Text.StripLeftSkips | src/flet_secure_storage/_helpers.py:20 | Leading whitespace is skipped by lstrip. |
| Text.StripRightSkips | src/flet_secure_storage/_helpers.py:20 | Trailing whitespace is skipped by rstrip. |
| Text.StripPaddedRight | src/flet_secure_storage/_helpers.py:20 | Trailing whitespace does not change what strip() keeps. |
| Text.LowerAppend | src/flet_secure_storage/_helpers.py:47 | lower() distributes over concatenation. |
| Text.LowerKeepsSpace | src/flet_secure_storage/_helpers.py:47 | lower() leaves whitespace alone. |
| Text.LowerTwice | src/flet_secure_storage/_helpers.py:47 | lower() is idempotent. |
| Wire.Collect | src/flet_secure_storage/options/android_options.py:162-177 | A dict display evaluates to a mapping over its keys exactly when every item evaluates. Otherwise it raises the exception of its first failing item. |
| Wire.CollectLookup | src/flet_secure_storage/options/android_options.py:162-177 | With distinct keys, every key maps to its own item's value. |
| Android.CipherValuesAreNames | src/flet_secure_storage/options/android_options.py:26-43 | Every cipher member's value equals its name. |
| Android.CiphersUnique | src/flet_secure_storage/options/android_options.py:9-43 | Both `@unique` cipher enums have distinct values and distinct names. |
| Android.CipherNamesResolveToThemselves | src/flet_secure_storage/options/android_options.py:9-43 | The cipher enums have no aliases, so parse_enum gives back the very name it is handed. |
| Android.PostInit | src/flet_secure_storage/options/android_options.py:134-145 | An unset deprecated flag becomes False with no warning. A set flag is kept and warns. No other field changes. |
| Android.BoolField | src/flet_secure_storage/options/android_options.py:163-166 | A boolean-like field is accepted exactly when parse_bool accepts it, and emits the boolean parse_bool reads. |
| Android.EnumField | src/flet_secure_storage/options/android_options.py:167-172 | A cipher field is accepted exactly when parse_enum accepts it, and emits the name of the member it denotes, an alias resolved. |
| Android.TextField | src/flet_secure_storage/options/android_options.py:173-176 | A string field is accepted exactly when it is a str, and emits its stripped text. |
| Android.FieldsOkExactlyWhenSerializable | src/flet_secure_storage/options/android_options.py:160-177 | Every validator accepts its field exactly when the record is serialisable. Rejections are type or value errors. |
| Android.Options | src/flet_secure_storage/options/android_options.py:160-177 | options() succeeds exactly when every field validates, over exactly the ten wire keys. It fails only with a type or value error. |
| Android.OptionsFirstError | src/flet_secure_storage/options/android_options.py:162-177 | A failing options() raises the error of the first rejected field, in display order. |
| Android.OptionsAt | src/flet_secure_storage/options/android_options.py:162-177 | Each wire key carries the output of its own field's validator. |
| Android.OptionsContents | src/flet_secure_storage/options/android_options.py:160-177 | Field by field: the deprecated flag is a bool, never None; the other flags read as parse_bool reads them; the ciphers become the names of the members they denote; the strings are stripped. |
| Android.PostInitKeepsOptions | src/flet_secure_storage/options/android_options.py:160-161 | Re-resolving the deprecated flag inside options() after construction changes nothing. |
| Android.DefaultOptions | src/flet_secure_storage/options/android_options.py:119-132 | The default record constructs without a warning and serialises to the documented default mapping. |
| Android.BoolFieldIdempotent | src/flet_secure_storage/options/android_options.py:163-166 | Re-validating an emitted flag gives the same flag. |
| Android.EnumFieldIdempotent | src/flet_secure_storage/options/android_options.py:167-172 | For an enum that declares each name once, re-validating an emitted cipher name gives the same name. |
| Android.TextFieldIdempotent | src/flet_secure_storage/options/android_options.py:173-176 | Re-validating an emitted string gives the same string. |
| Android.OptionsReserialize | src/flet_secure_storage/options/android_options.py:160-177 | The record read back from a wire mapping serialises to that same mapping. |
| Web.Options | src/flet_secure_storage/options/web_options.py:26-39 | The mapping has exactly the five wire keys. |
| Web.FromWireOptions | src/flet_secure_storage/options/web_options.py:33-39 | Every field travels unchanged: the record is recovered from its mapping. |
| Web.OptionsFromWire | src/flet_secure_storage/options/web_options.py:33-39 | Every mapping over exactly the five keys is the wire form of the record read back from it. |
| Web.DefaultOptions | src/flet_secure_storage/options/web_options.py:20-24 | The default record's mapping carries the documented defaults. |
| Windows.Options | src/flet_secure_storage/options/windows_options.py:19-28 | The mapping has exactly the one wire key. |
| Windows.FromWireOptions | src/flet_secure_storage/options/windows_options.py:26-28 | The flag travels unchanged. |
| Windows.OptionsFromWire | src/flet_secure_storage/options/windows_options.py:26-28 | Every one-key mapping is the wire form of the record read back from it. |
| Windows.DefaultOptions | src/flet_secure_storage/options/windows_options.py:17 | The default record's mapping is the flag False. |
| Descriptors.Options | src/flet_secure_storage/secure_storage.py:125-127 | Only the Android record's options() can fail, exactly when it is not serialisable, with a type or value error. A success has exactly that platform's wire keys; iOS, macOS and Linux have none. |
| Store.Lookup | tests/test_secure_storage.py:17-18 | get answers exactly when the key is present, with a value stored under it. In a dict with unique keys, that is the key's only value. |
| Store.Put | tests/test_secure_storage.py:13-16 | Storing keeps a present key in its place and appends a new key last. No existing key moves. |
| Store.LookupPut | tests/test_secure_storage.py:13-18 | After storing, the key reads the new value and every other key reads what it did. |
| Store.PutUnique | tests/test_secure_storage.py:13-16 | Storing keeps every key at most once. |
| Store.Delete | tests/test_secure_storage.py:21-23 | pop leaves no item with that key and never grows the dict. |
| Store.DeleteKeepsOrder | tests/test_secure_storage.py:21-23 | pop of an absent key changes nothing. In a dict with unique keys, pop removes exactly the item with that key and keeps the others in their order. |
| Store.LookupDelete | tests/test_secure_storage.py:17-23 | After pop the key is absent and every other key reads what it did. |
| Store.DeleteUnique | tests/test_secure_storage.py:21-23 | pop keeps every key at most once. |
| Channel.Answer | tests/test_secure_storage.py:12-29 | get answers the stored value of the key, or None; contains_key answers whether the key is stored; get_keys answers every item. These three leave the store alone. set stores the value under the key, remove pops the key, clear empties the store, and all three answer True. |
| Channel.AnswerKeepsUnique | tests/test_secure_storage.py:12-29 | No call ever stores a key twice. |
| SecureStorage.New | src/flet_secure_storage/secure_storage.py:52-91 | Construction raises exactly when the prefix is neither None nor a str, or when a non-blank prefix comes with a separator that is neither None nor a str. It then raises TypeError. Otherwise: None gives the empty prefix; a str is stripped; a non-empty prefix keeps the separator verbatim (None gives ""); an empty prefix drops the separator; every None platform argument gets its default record. Leaving prefix_separator out passes DefaultSeparator, ".". |
| SecureStorage.NormalPrefix | src/flet_secure_storage/secure_storage.py:64-70 | None is empty, a str is stripped (empty exactly when blank), anything else is a TypeError. A prefix without surrounding whitespace is kept as it is. |
| SecureStorage.NormalSeparator | src/flet_secure_storage/secure_storage.py:76-82 | None is empty, a str is kept verbatim, anything else is a TypeError. |
| SecureStorage.ValidateKey | src/flet_secure_storage/secure_storage.py:134-138 | A key passes exactly when it is a str that is not all whitespace, and goes on unstripped. Otherwise it is a ValueError. |
| SecureStorage.KeyCall | src/flet_secure_storage/secure_storage.py:140-201 | A keyed call raises ValueError exactly when its key is invalid, before any call reaches the plugin. Otherwise it sends the prefixed key and returns the plugin's answer. |
| SecureStorage.Clear | src/flet_secure_storage/secure_storage.py:236-244 | clear() empties the store and answers True. |
| SecureStorage.SetThenGet | tests/test_secure_storage.py:51-60 | set answers True, and a following get of the same key returns the value set. |
| SecureStorage.SetThenContains | tests/test_secure_storage.py:65-68 | After set, contains_key of the same key is True. |
| SecureStorage.SetKeepsOtherKeys | src/flet_secure_storage/secure_storage.py:140-171 | set of one key does not change what get returns for any other key. |
| SecureStorage.RemoveThenContains | tests/test_secure_storage.py:74-77 | After remove, contains_key of that key is False. |
| SecureStorage.RemoveKeepsOtherKeys | src/flet_secure_storage/secure_storage.py:188-201 | remove of one key does not change what get returns for any other key. |
| SecureStorage.ClearThenContains | src/flet_secure_storage/secure_storage.py:236-244 | After clear, contains_key is False for every valid key, and the store stays empty. |
| SecureStorage.BlankKeyRejected | src/flet_secure_storage/secure_storage.py:137-138 | A blank key raises ValueError on every keyed call, whatever the store. |
| SecureStorage.NamedPrefixKeys | tests/flet_secure_storage/test_prefix.py:72-127 | A facade with a trimmed, non-empty prefix stores every key as prefix, separator and key, the separator verbatim. |
| SecureStorage.DefaultSeparatorKeys | src/flet_secure_storage/secure_storage.py:53-83 | A facade built with a non-empty prefix and no prefix_separator argument stores every key as prefix, ".", key. |
| SecureStorage.BlankPrefixKeys | tests/flet_secure_storage/test_prefix.py:11-70 | A facade with no prefix, or an empty or blank one, stores every key unchanged, whatever separator was passed. |
| SecureStorage.EffectiveFilter | src/flet_secure_storage/secure_storage.py:216-224 | A filter with no strip() method (any value other than None or a str, bytes-like values aside) is exactly what gives AttributeError. The effective filter always starts with the prefix. A missing or blank filter collapses to the bare prefix, and so does the prefix spelled with or without its separator. Any other string is prefixed like a key. |
| SecureStorage.FormatMatching | src/flet_secure_storage/secure_storage.py:230-234 | The listing is never longer than the reply. |
| SecureStorage.FormatMatchingAppend | src/flet_secure_storage/secure_storage.py:230-234 | The listing of a longer reply extends the listing of its first part. |
| SecureStorage.FormatMatchingMembers | src/flet_secure_storage/secure_storage.py:230-234 | A string is listed exactly when some reply item whose key starts with the filter formats to it as key, colon, value. |
| SecureStorage.FormatMatchingAll | src/flet_secure_storage/secure_storage.py:230-234 | When every key matches, every item is listed, in reply order. |
| SecureStorage.GetKeys | src/flet_secure_storage/secure_storage.py:203-234 | get_keys raises AttributeError, before any call to the plugin, exactly when the filter has no strip() method (any value other than None or a str, bytes-like values aside). Otherwise it lists the store's items under the effective filter. |
| SecureStorage.FilterSelectsKeys | src/flet_secure_storage/secure_storage.py:224-234 | A filter that does not collapse selects, among this facade's keys, exactly those whose user key starts with the filter. |
| SecureStorage.CollapsedFilterSelectsOwnKeys | src/flet_secure_storage/secure_storage.py:216-222 | A missing or collapsing filter lists every key this facade writes. |
| SecureStorage.CollapsedFilterAdmitsLongerPrefix | src/flet_secure_storage/secure_storage.py:218-222 | With prefix "app" and separator ".", get_keys() also lists a key "apple.x" that this facade never writes. |
| SecureStorage.SetThenGetKeys | tests/test_secure_storage.py:83-85 | On the default facade, a key just set is listed with its value by any filter it starts with. |
| SecureStorage.NormalizeSlot | src/flet_secure_storage/secure_storage.py:111-132 | None and a mapping stay. An options record becomes its wire mapping, or raises what its options() raises. Anything else raises SecureStorageKeyError naming the attribute. A success is always settled. |
| SecureStorage.NormalizeFrom | src/flet_secure_storage/secure_storage.py:103-132 | The pass from an attribute on succeeds exactly when every step does, and replaces each attribute with its step's result. Otherwise it stops at the first failing step, with that step's error: the earlier attributes are replaced, that one and the later ones untouched. |
| SecureStorage.BeforeUpdate | src/flet_secure_storage/secure_storage.py:93-132 | before_update succeeds exactly when every attribute normalises, and then settles all six. A failure stops at the first rejected attribute in visiting order, with its error, keeping the earlier replacements and leaving the rest untouched. |
| SecureStorage.NormalizeSettled | src/flet_secure_storage/secure_storage.py:111-113 | A pass over settled attributes changes nothing and raises nothing. |
| SecureStorage.BeforeUpdateIdempotent | src/flet_secure_storage/secure_storage.py:93-132 | Once before_update has succeeded, running it again changes nothing and raises nothing. |
| SecureStorage.DefaultsUpdate | src/flet_secure_storage/secure_storage.py:84-132 | On a facade built with no platform arguments, before_update succeeds and the Android attribute becomes the documented default mapping. |

## Findings

| source | as written | input that shows it | evidently intended | confidence | as-written member | corrected member |
|---|---|---|---|---|---|---|
| tests/test_secure_storage.py:94 | test_clear asserts that `contains_key("")` is False after clear | any parameter of test_clear: `_validate_key("")` raises ValueError before the call is made | contains_key of a valid key (the one just set) is False after clear | not executed | SecureStorage.BlankKeyRejected | SecureStorage.ClearThenContains |

## Left out

- parse_dt (_helpers.py:104-135) is not modelled. It depends on Python's datetime ISO 8601 parser, and no option record in this model calls it.
- Text.Lower: only ASCII letters are lower-cased. The full Unicode mapping is not modelled. The token sets are ASCII, and the only non-ASCII characters that lower-case into ASCII are U+0130 and U+212A.
- Helpers.ParseInt: the numeral grammar is an optionally signed run of ASCII digits. Python's int() also accepts underscores between digits and non-ASCII decimal digits; those strings are rejected here.
- Helpers.ParseEnumIdempotent and Android.EnumFieldIdempotent require an enum that declares each name once. Python refuses to build any other Enum class, and the model's EnumType does not enforce it.
- Helpers.ParseEnum: the check that enum_type is an Enum class (_helpers.py:85-86) is not modelled. The option records only ever pass their own cipher enums.
- Messages carried by the exceptions are not modelled; only the exception class is.
- The deprecation warning of AndroidOptions.__post_init__ is a boolean in the result, not a call into the warnings module.
- AndroidOptions.biometric() does nothing and is not modelled.
- SecureStorage.EffectiveFilter / SecureStorage.GetKeys: the `Value` variant VOther stands for an object with no strip() method, and bytes or bytearray filters are not modelled. Those have a strip(), so in the source they raise no AttributeError. With a prefix, add_prefix formats the filter into a str such as "app.b'x'" and get_keys lists under it. Without a prefix, the bytes filter reaches `startswith` and raises TypeError on the first stored key, or gives `[]` for an empty store.
- Android.Options: options() first writes False back into an unset deprecated flag (android_options.py:160-161), and then validates. Android.Options is pure instead. The write changes what the record serialises to only when the flag is None at that moment. That happens for a record built without __post_init__, or for a constructed record whose flag was later set back to None. Android.PostInitKeepsOptions shows that the write changes nothing for a freshly constructed record. If options() then raises inside before_update, Python leaves the record in its attribute with the flag now False. SecureStorage.BeforeUpdate leaves the record with the flag still None.
- The async transport (`_invoke_method`) is not modelled. Neither are the Flet Service base class (`super().__init__()`, `super().before_update()`) or the control registration. The plugin's side is the in-memory dict the tests use.
- Values stored through set() are strings; the source accepts any value, and the test double stores it as is.
- The fields of the Apple records (AppleOptions, IOSOptions, MacOsOptions) and of LinuxOptions are not modelled: there are none, and options() returns `{}`.
- before_update reads each attribute with `getattr(..., None)`. In the model the attribute always exists, and a deleted one is not modelled. The run-time dataclass and HasOptions protocol checks are the Slot variants NotADataclass, WithoutOptions and NonMappingOptions.
- Web.Options and Windows.Options: their contracts give only the key sets. That every field travels unchanged is stated by Web.FromWireOptions and Windows.FromWireOptions.
- The test scenarios of test_prefix.py are stated for every prefix, separator and key rather than for the literal values the tests use.
