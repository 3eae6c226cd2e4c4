/** Android options: the record with its defaults, the construction-time
    handling of the deprecated encrypted_shared_preferences flag, and the
    ten-key wire mapping, every field of which goes through a validator. */
module Android {
  import opened Results
  import opened Text
  import opened Values
  import opened Helpers
  import opened Wire

  /** Algorithm used to encrypt the secret key. */
  const KeyCipherAlgorithm: EnumType :=
    EnumType("KeyCipherAlgorithm", [
      Member("RSA_ECB_PKCS1Padding", "RSA_ECB_PKCS1Padding"),
      Member("RSA_ECB_OAEPwithSHA_256andMGF1Padding", "RSA_ECB_OAEPwithSHA_256andMGF1Padding"),
      Member("AES_GCM_NoPadding", "AES_GCM_NoPadding")
    ])

  /** Algorithm used to encrypt stored data. */
  const StorageCipherAlgorithm: EnumType :=
    EnumType("StorageCipherAlgorithm", [
      Member("AES_CBC_PKCS7Padding", "AES_CBC_PKCS7Padding"),
      Member("AES_GCM_NoPadding", "AES_GCM_NoPadding")
    ])

  /** Every cipher member's value is its own name, so the emitted name is
      also the member's value. */
  lemma CipherValuesAreNames()
    ensures forall m :: m in KeyCipherAlgorithm.members ==> m.value == m.name
    ensures forall m :: m in StorageCipherAlgorithm.members ==> m.value == m.name
  {
  }

  /** Both cipher enums are `@unique` and, as Python requires, declare
      every name once. */
  lemma CiphersUnique()
    ensures KeyCipherAlgorithm.UniqueValues() && KeyCipherAlgorithm.UniqueNames()
    ensures StorageCipherAlgorithm.UniqueValues() && StorageCipherAlgorithm.UniqueNames()
  {
  }

  /** The cipher enums have no aliases, so parse_enum gives back the very
      name it is handed. */
  lemma CipherNamesResolveToThemselves(n: string)
    ensures KeyCipherAlgorithm.Canonical(n) == n
    ensures StorageCipherAlgorithm.Canonical(n) == n
  {
    CiphersUnique();
    CanonicalOfUnique(KeyCipherAlgorithm, n);
    CanonicalOfUnique(StorageCipherAlgorithm, n);
  }

  datatype AndroidOptions = AndroidOptions(
    encryptedSharedPreferences: Value,
    resetOnError: Value,
    migrateOnAlgorithmChange: Value,
    enforceBiometrics: Value,
    keyCipherAlgorithm: Value,
    storageCipherAlgorithm: Value,
    sharedPreferencesName: Value,
    preferencesKeyPrefix: Value,
    biometricPromptTitle: Value,
    biometricPromptSubtitle: Value)

  const DefaultPromptTitle: string := "Authenticate to access"
  const DefaultPromptSubtitle: string := "Use biometrics or device credentials"

  /** The field defaults, as the record holds them before construction
      finishes: the deprecated flag is still unset. */
  const Defaults: AndroidOptions :=
    AndroidOptions(
      VNone,
      VBool(true),
      VBool(true),
      VBool(false),
      VMember(KeyCipherAlgorithm, "RSA_ECB_OAEPwithSHA_256andMGF1Padding"),
      VMember(StorageCipherAlgorithm, "AES_GCM_NoPadding"),
      VStr(""),
      VStr(""),
      VStr(DefaultPromptTitle),
      VStr(DefaultPromptSubtitle))

  /** An unset deprecated flag reads as false. */
  function ResolveDeprecated(a: AndroidOptions): AndroidOptions {
    if a.encryptedSharedPreferences.VNone?
    then a.(encryptedSharedPreferences := VBool(false))
    else a
  }

  /** A record once construction has finished, and whether it emitted the
      (non-fatal) deprecation warning. */
  datatype Constructed = Constructed(options: AndroidOptions, deprecationWarning: bool)

  /** Construction: an unset deprecated flag becomes false; an explicitly
      set one is kept and only warns. */
  function PostInit(a: AndroidOptions): (c: Constructed)
    ensures a.encryptedSharedPreferences.VNone? ==> c.options.encryptedSharedPreferences == VBool(false)
    ensures !a.encryptedSharedPreferences.VNone? ==> c.options.encryptedSharedPreferences == a.encryptedSharedPreferences
    ensures c.options.(encryptedSharedPreferences := a.encryptedSharedPreferences) == a
    ensures c.deprecationWarning <==> !a.encryptedSharedPreferences.VNone?
  {
    Constructed(ResolveDeprecated(a), !a.encryptedSharedPreferences.VNone?)
  }

  // ------------------------------------------------------------ the wire keys

  const EncryptedSharedPreferences: string := "encryptedSharedPreferences"
  const ResetOnError: string := "resetOnError"
  const MigrateOnAlgorithmChange: string := "migrateOnAlgorithmChange"
  const EnforceBiometrics: string := "enforceBiometrics"
  const KeyCipher: string := "keyCipherAlgorithm"
  const StorageCipher: string := "storageCipherAlgorithm"
  const SharedPreferencesName: string := "sharedPreferencesName"
  const PreferencesKeyPrefix: string := "preferencesKeyPrefix"
  const BiometricPromptTitle: string := "biometricPromptTitle"
  const BiometricPromptSubtitle: string := "biometricPromptSubtitle"

  const WireKeys: set<string> := {
    EncryptedSharedPreferences, ResetOnError, MigrateOnAlgorithmChange,
    EnforceBiometrics, KeyCipher, StorageCipher, SharedPreferencesName,
    PreferencesKeyPrefix, BiometricPromptTitle, BiometricPromptSubtitle
  }

  // ------------------------------------------- what each field may hold, and emits

  /** A value parse_bool accepts. */
  predicate BoolLike(v: Value) {
    v.VNone? || v.VBool? || (v.VStr? && BoolToken(v.s) in TrueStrings + FalseStrings)
  }

  /** A value parse_enum accepts for `t`. */
  predicate EnumLike(v: Value, t: EnumType) {
    (v.VMember? && v.owner == t) || (v.VStr? && t.HasMember(v.s))
  }

  /** The wire value a boolean-like field is read as. */
  predicate ReadsAsBool(field: Value, wire: Value) {
    match field
    case VNone => wire == VNone
    case VBool(b) => wire == VBool(b)
    case VStr(s) => wire == VBool(BoolToken(s) in TrueStrings)
    case _ => false
  }

  /** The wire value an enum field of `t` is read as: the name of the
      member it denotes, an alias resolved. */
  predicate ReadsAsName(field: Value, t: EnumType, wire: Value) {
    match field
    case VMember(_, name) => wire == VStr(t.Canonical(name))
    case VStr(s) => wire == VStr(t.Canonical(s))
    case _ => false
  }

  /** The wire value a string field is read as: its stripped text. */
  ghost predicate ReadsAsText(field: Value, wire: Value) {
    field.VStr? && wire.VStr? && IsStripOf(wire.s, field.s) && Trimmed(wire.s)
  }

  /** Every field holds something its validator accepts. */
  predicate Serializable(a: AndroidOptions) {
    && BoolLike(a.encryptedSharedPreferences)
    && BoolLike(a.resetOnError)
    && BoolLike(a.migrateOnAlgorithmChange)
    && BoolLike(a.enforceBiometrics)
    && EnumLike(a.keyCipherAlgorithm, KeyCipherAlgorithm)
    && EnumLike(a.storageCipherAlgorithm, StorageCipherAlgorithm)
    && a.sharedPreferencesName.VStr?
    && a.preferencesKeyPrefix.VStr?
    && a.biometricPromptTitle.VStr?
    && a.biometricPromptSubtitle.VStr?
  }

  function BoolWire(b: Option<bool>): Value {
    match b
    case None => VNone
    case Some(x) => VBool(x)
  }

  /** A boolean-like field through parse_bool. */
  function BoolField(v: Value): (r: Result<Value>)
    ensures r.Ok? <==> BoolLike(v)
    ensures r.Ok? ==> ReadsAsBool(v, r.value)
    ensures r.Err? ==> r.error == TypeError || r.error == ValueError
  {
    TokenSetsDisjoint();
    var b :- ParseBool(v);
    Ok(BoolWire(b))
  }

  /** An enum field through parse_enum. */
  function EnumField(v: Value, t: EnumType): (r: Result<Value>)
    ensures r.Ok? <==> EnumLike(v, t)
    ensures r.Ok? ==> ReadsAsName(v, t, r.value)
    ensures r.Ok? && WellFormed(v) ==> r.value.VStr? && t.HasMember(r.value.s)
    ensures r.Err? ==> r.error == TypeError || r.error == ValueError
  {
    var name :- ParseEnum(v, t);
    Ok(VStr(name))
  }

  /** A string field through parse_str. */
  function TextField(v: Value): (r: Result<Value>)
    ensures r.Ok? <==> v.VStr?
    ensures r.Ok? ==> ReadsAsText(v, r.value)
    ensures r.Err? ==> r.error == TypeError
  {
    var s :- ParseStr(v);
    Ok(VStr(s))
  }

  /** The keys of the dict display options() returns, in display order. */
  const WireKeyList: seq<string> := [
    EncryptedSharedPreferences, ResetOnError, MigrateOnAlgorithmChange,
    EnforceBiometrics, KeyCipher, StorageCipher, SharedPreferencesName,
    PreferencesKeyPrefix, BiometricPromptTitle, BiometricPromptSubtitle
  ]

  /** Whether field `i` of the display holds something its validator accepts. */
  predicate FieldAccepted(a: AndroidOptions, i: int) {
    if i == 0 then BoolLike(ResolveDeprecated(a).encryptedSharedPreferences)
    else if i == 1 then BoolLike(a.resetOnError)
    else if i == 2 then BoolLike(a.migrateOnAlgorithmChange)
    else if i == 3 then BoolLike(a.enforceBiometrics)
    else if i == 4 then EnumLike(a.keyCipherAlgorithm, KeyCipherAlgorithm)
    else if i == 5 then EnumLike(a.storageCipherAlgorithm, StorageCipherAlgorithm)
    else if i == 6 then a.sharedPreferencesName.VStr?
    else if i == 7 then a.preferencesKeyPrefix.VStr?
    else if i == 8 then a.biometricPromptTitle.VStr?
    else a.biometricPromptSubtitle.VStr?
  }

  /** The value of item `i` of that display, through its validator. */
  function FieldResult(a: AndroidOptions, i: int): (r: Result<Value>)
    requires 0 <= i < 10
    ensures r.Ok? <==> FieldAccepted(a, i)
    ensures r.Err? ==> r.error == TypeError || r.error == ValueError
  {
    if i == 0 then BoolField(ResolveDeprecated(a).encryptedSharedPreferences)
    else if i == 1 then BoolField(a.resetOnError)
    else if i == 2 then BoolField(a.migrateOnAlgorithmChange)
    else if i == 3 then BoolField(a.enforceBiometrics)
    else if i == 4 then EnumField(a.keyCipherAlgorithm, KeyCipherAlgorithm)
    else if i == 5 then EnumField(a.storageCipherAlgorithm, StorageCipherAlgorithm)
    else if i == 6 then TextField(a.sharedPreferencesName)
    else if i == 7 then TextField(a.preferencesKeyPrefix)
    else if i == 8 then TextField(a.biometricPromptTitle)
    else TextField(a.biometricPromptSubtitle)
  }

  /** The values of the display, in display order. */
  function FieldResults(a: AndroidOptions): (rs: seq<Result<Value>>)
    ensures |rs| == 10
    ensures forall i :: 0 <= i < 10 ==> rs[i] == FieldResult(a, i)
  {
    seq(10, i requires 0 <= i < 10 => FieldResult(a, i))
  }

  lemma WireKeyListFacts()
    ensures |WireKeyList| == 10
    ensures (set i | 0 <= i < |WireKeyList| :: WireKeyList[i]) == WireKeys
    ensures forall i, j :: 0 <= i < j < |WireKeyList| ==> WireKeyList[i] != WireKeyList[j]
  {
    var ks := WireKeyList;
    forall k | k in WireKeys
      ensures k in (set i | 0 <= i < |ks| :: ks[i])
    {
      if k == EncryptedSharedPreferences { assert ks[0] == k; }
      else if k == ResetOnError { assert ks[1] == k; }
      else if k == MigrateOnAlgorithmChange { assert ks[2] == k; }
      else if k == EnforceBiometrics { assert ks[3] == k; }
      else if k == KeyCipher { assert ks[4] == k; }
      else if k == StorageCipher { assert ks[5] == k; }
      else if k == SharedPreferencesName { assert ks[6] == k; }
      else if k == PreferencesKeyPrefix { assert ks[7] == k; }
      else if k == BiometricPromptTitle { assert ks[8] == k; }
      else { assert ks[9] == k; }
    }
  }

  /** The validators accept every field exactly when the record is
      serialisable, and reject only with a type or a value error. */
  lemma FieldsOkExactlyWhenSerializable(a: AndroidOptions)
    ensures (forall i :: 0 <= i < |FieldResults(a)| ==> FieldResults(a)[i].Ok?) <==> Serializable(a)
    ensures forall i :: 0 <= i < |FieldResults(a)| && FieldResults(a)[i].Err? ==>
      FieldResults(a)[i].error == TypeError || FieldResults(a)[i].error == ValueError
  {
    var rs := FieldResults(a);
    if forall i :: 0 <= i < 10 ==> rs[i].Ok? {
      assert rs[0].Ok? && rs[1].Ok? && rs[2].Ok? && rs[3].Ok? && rs[4].Ok?;
      assert rs[5].Ok? && rs[6].Ok? && rs[7].Ok? && rs[8].Ok? && rs[9].Ok?;
      assert FieldAccepted(a, 0) && FieldAccepted(a, 1) && FieldAccepted(a, 2);
      assert FieldAccepted(a, 3) && FieldAccepted(a, 4) && FieldAccepted(a, 5);
      assert FieldAccepted(a, 6) && FieldAccepted(a, 7) && FieldAccepted(a, 8);
      assert FieldAccepted(a, 9);
    }
    if Serializable(a) {
      forall i | 0 <= i < 10
        ensures rs[i].Ok?
      {
        assert FieldAccepted(a, i);
      }
    }
  }

  /** The wire mapping. The fields are validated in the order the mapping
      lists them, so the first field a validator rejects decides the error. */
  function Options(a: AndroidOptions): (r: Result<WireMap>)
    ensures r.Ok? <==> Serializable(a)
    ensures r.Ok? ==> r.value.Keys == WireKeys
    ensures r.Err? ==> r.error == TypeError || r.error == ValueError
  {
    var rs := FieldResults(a);
    FieldsOkExactlyWhenSerializable(a);
    WireKeyListFacts();
    ZipFacts(WireKeyList, rs);
    Collect(Zip(WireKeyList, rs))
  }

  /** Each wire key carries the outcome of its own validator. */
  lemma OptionsAt(a: AndroidOptions, i: int)
    requires Options(a).Ok? && 0 <= i < |WireKeyList|
    ensures WireKeyList[i] in Options(a).value
    ensures Options(a).value[WireKeyList[i]] == FieldResults(a)[i].value
  {
    var rs := FieldResults(a);
    WireKeyListFacts();
    ZipFacts(WireKeyList, rs);
    CollectLookup(Zip(WireKeyList, rs), i);
  }

  /** A failing options() raises the error of the first field, in display
      order, whose validator rejects it. */
  lemma OptionsFirstError(a: AndroidOptions)
    requires Options(a).Err?
    ensures exists i :: (
      && 0 <= i < 10 && FieldResults(a)[i].Err?
      && (forall j :: 0 <= j < i ==> FieldResults(a)[j].Ok?)
      && Options(a).error == FieldResults(a)[i].error)
  {
    var rs := FieldResults(a);
    var e := Zip(WireKeyList, rs);
    ZipFacts(WireKeyList, rs);
    var i :| FirstFailure(e, i) && Collect(e).error == e[i].1.error;
    assert forall j :: 0 <= j < i ==> e[j].1 == rs[j];
  }

  /** What a successful options() emits, field by field: the deprecated
      flag as a boolean, never None; the four boolean-like fields as
      parse_bool reads them; the two ciphers as member names; the four
      strings stripped. */
  lemma OptionsContents(a: AndroidOptions)
    requires Options(a).Ok?
    ensures Options(a).value[EncryptedSharedPreferences].VBool?
    ensures ReadsAsBool(ResolveDeprecated(a).encryptedSharedPreferences, Options(a).value[EncryptedSharedPreferences])
    ensures ReadsAsBool(a.resetOnError, Options(a).value[ResetOnError])
    ensures ReadsAsBool(a.migrateOnAlgorithmChange, Options(a).value[MigrateOnAlgorithmChange])
    ensures ReadsAsBool(a.enforceBiometrics, Options(a).value[EnforceBiometrics])
    ensures ReadsAsName(a.keyCipherAlgorithm, KeyCipherAlgorithm, Options(a).value[KeyCipher])
    ensures ReadsAsName(a.storageCipherAlgorithm, StorageCipherAlgorithm, Options(a).value[StorageCipher])
    ensures ReadsAsText(a.sharedPreferencesName, Options(a).value[SharedPreferencesName])
    ensures ReadsAsText(a.preferencesKeyPrefix, Options(a).value[PreferencesKeyPrefix])
    ensures ReadsAsText(a.biometricPromptTitle, Options(a).value[BiometricPromptTitle])
    ensures ReadsAsText(a.biometricPromptSubtitle, Options(a).value[BiometricPromptSubtitle])
  {
    FieldsOkExactlyWhenSerializable(a);
    var rs := FieldResults(a);
    assert rs[0].Ok? && rs[1].Ok? && rs[2].Ok? && rs[3].Ok? && rs[4].Ok?;
    assert rs[5].Ok? && rs[6].Ok? && rs[7].Ok? && rs[8].Ok? && rs[9].Ok?;
    OptionsAt(a, 0);
    OptionsAt(a, 1);
    OptionsAt(a, 2);
    OptionsAt(a, 3);
    OptionsAt(a, 4);
    OptionsAt(a, 5);
    OptionsAt(a, 6);
    OptionsAt(a, 7);
    OptionsAt(a, 8);
    OptionsAt(a, 9);
  }

  /** The construction-time coercion of the deprecated flag is the one
      options() applies, so constructing a record never changes what it
      serialises to. */
  lemma PostInitKeepsOptions(a: AndroidOptions)
    ensures Options(PostInit(a).options) == Options(a)
  {
    assert ResolveDeprecated(ResolveDeprecated(a)) == ResolveDeprecated(a);
    assert FieldResults(PostInit(a).options) == FieldResults(a);
  }

  /** The wire mapping the default record serialises to. */
  const DefaultWire: WireMap := map[
    EncryptedSharedPreferences := VBool(false),
    ResetOnError := VBool(true),
    MigrateOnAlgorithmChange := VBool(true),
    EnforceBiometrics := VBool(false),
    KeyCipher := VStr("RSA_ECB_OAEPwithSHA_256andMGF1Padding"),
    StorageCipher := VStr("AES_GCM_NoPadding"),
    SharedPreferencesName := VStr(""),
    PreferencesKeyPrefix := VStr(""),
    BiometricPromptTitle := VStr(DefaultPromptTitle),
    BiometricPromptSubtitle := VStr(DefaultPromptSubtitle)
  ]

  /** The values of the default wire mapping, in display order. */
  const DefaultValues: seq<Value> := [
    VBool(false), VBool(true), VBool(true), VBool(false),
    VStr("RSA_ECB_OAEPwithSHA_256andMGF1Padding"), VStr("AES_GCM_NoPadding"),
    VStr(""), VStr(""), VStr(DefaultPromptTitle), VStr(DefaultPromptSubtitle)
  ]

  lemma DefaultFieldAt(i: int)
    requires 0 <= i < 10
    ensures FieldResult(Defaults, i) == Ok(DefaultValues[i])
  {
    if i < 4 {
      DefaultFlagAt(i);
    } else if i < 6 {
      DefaultCipherAt(i);
    } else {
      DefaultTextAt(i);
    }
  }

  lemma DefaultFlagAt(i: int)
    requires 0 <= i < 4
    ensures FieldResult(Defaults, i) == Ok(DefaultValues[i])
  {
  }

  lemma DefaultCipherAt(i: int)
    requires 4 <= i < 6
    ensures FieldResult(Defaults, i) == Ok(DefaultValues[i])
  {
  }

  lemma DefaultTextAt(i: int)
    requires 6 <= i < 10
    ensures FieldResult(Defaults, i) == Ok(DefaultValues[i])
  {
    if i < 8 {
      assert DefaultValues[i] == VStr("");
      TextFieldKeepsTrimmed("");
    } else if i == 8 {
      PromptsTrimmed();
      assert DefaultValues[i] == VStr(DefaultPromptTitle);
      TextFieldKeepsTrimmed(DefaultPromptTitle);
    } else {
      PromptsTrimmed();
      assert DefaultValues[i] == VStr(DefaultPromptSubtitle);
      TextFieldKeepsTrimmed(DefaultPromptSubtitle);
    }
  }

  lemma PromptsTrimmed()
    ensures Trimmed(DefaultPromptTitle) && Trimmed(DefaultPromptSubtitle)
  {
  }

  /** A string without surrounding whitespace passes parse_str unchanged. */
  lemma TextFieldKeepsTrimmed(s: string)
    requires Trimmed(s)
    ensures TextField(VStr(s)) == Ok(VStr(s))
  {
    StripOfTrimmed(s);
  }

  lemma DefaultWireAt(i: int)
    requires 0 <= i < 10
    ensures WireKeyList[i] in DefaultWire
    ensures DefaultWire[WireKeyList[i]] == DefaultValues[i]
  {
    if i < 5 {
      assert i == 0 || i == 1 || i == 2 || i == 3 || i == 4;
    } else {
      assert i == 5 || i == 6 || i == 7 || i == 8 || i == 9;
    }
  }

  lemma DefaultsSerializable()
    ensures Options(Defaults).Ok?
  {
    var rs := FieldResults(Defaults);
    forall i | 0 <= i < 10
      ensures rs[i].Ok?
    {
      DefaultFieldAt(i);
    }
    FieldsOkExactlyWhenSerializable(Defaults);
  }

  lemma DefaultKey(k: string)
    requires Options(Defaults).Ok? && k in WireKeys
    ensures k in DefaultWire && Options(Defaults).value[k] == DefaultWire[k]
  {
    WireKeyListFacts();
    var i :| 0 <= i < |WireKeyList| && WireKeyList[i] == k;
    OptionsAt(Defaults, i);
    DefaultFieldAt(i);
    DefaultWireAt(i);
  }

  /** The default record, constructed without the deprecated flag, warns
      nothing and serialises to the documented defaults. */
  lemma DefaultOptions()
    ensures !PostInit(Defaults).deprecationWarning
    ensures Options(PostInit(Defaults).options) == Ok(DefaultWire)
  {
    PostInitKeepsOptions(Defaults);
    DefaultsSerializeTo();
  }

  lemma DefaultsSerializeTo()
    ensures Options(Defaults) == Ok(DefaultWire)
  {
    DefaultsSerializable();
    var m := Options(Defaults).value;
    forall k | k in WireKeys
      ensures k in DefaultWire && m[k] == DefaultWire[k]
    {
      DefaultKey(k);
    }
    DefaultWireKeys();
    assert m == DefaultWire;
  }

  lemma DefaultWireKeys()
    ensures DefaultWire.Keys == WireKeys
  {
  }

  /** The record a wire mapping describes, field for field. */
  function FromWire(m: WireMap): AndroidOptions
    requires WireKeys <= m.Keys
  {
    AndroidOptions(
      m[EncryptedSharedPreferences], m[ResetOnError], m[MigrateOnAlgorithmChange],
      m[EnforceBiometrics], m[KeyCipher], m[StorageCipher], m[SharedPreferencesName],
      m[PreferencesKeyPrefix], m[BiometricPromptTitle], m[BiometricPromptSubtitle])
  }

  /** Each validator is idempotent: what it emits, it accepts unchanged. */
  lemma BoolFieldIdempotent(v: Value)
    requires BoolField(v).Ok?
    ensures BoolField(BoolField(v).value) == BoolField(v)
  {
  }

  lemma EnumFieldIdempotent(v: Value, t: EnumType)
    requires WellFormed(v) && EnumField(v, t).Ok? && t.UniqueNames()
    ensures EnumField(EnumField(v, t).value, t) == EnumField(v, t)
  {
    ParseEnumIdempotent(v, t);
  }

  lemma TextFieldIdempotent(v: Value)
    requires TextField(v).Ok?
    ensures TextField(TextField(v).value) == TextField(v)
  {
    TextFieldKeepsTrimmed(TextField(v).value.s);
  }

  /** Field `i` of the record read back validates to what field `i` of the
      original did. */
  lemma ReserializeAt(a: AndroidOptions, i: int)
    requires Options(a).Ok? && 0 <= i < 10
    requires WellFormed(a.keyCipherAlgorithm) && WellFormed(a.storageCipherAlgorithm)
    ensures WireKeys <= Options(a).value.Keys
    ensures FieldResult(FromWire(Options(a).value), i) == FieldResult(a, i)
  {
    var m := Options(a).value;
    OptionsAt(a, i);
    FieldsOkExactlyWhenSerializable(a);
    assert FieldResults(a)[i].Ok?;
    if i < 4 {
      ReserializeFlagAt(a, m, i);
    } else if i < 6 {
      ReserializeCipherAt(a, m, i);
    } else {
      ReserializeTextAt(a, m, i);
    }
  }

  lemma ReserializeFlagAt(a: AndroidOptions, m: WireMap, i: int)
    requires 0 <= i < 4 && WireKeys <= m.Keys
    requires FieldResult(a, i).Ok? && m[WireKeyList[i]] == FieldResult(a, i).value
    ensures FieldResult(FromWire(m), i) == FieldResult(a, i)
  {
    var b := FromWire(m);
    if i == 0 {
      BoolFieldIdempotent(ResolveDeprecated(a).encryptedSharedPreferences);
      assert ResolveDeprecated(b) == b;
    } else if i == 1 {
      BoolFieldIdempotent(a.resetOnError);
    } else if i == 2 {
      BoolFieldIdempotent(a.migrateOnAlgorithmChange);
    } else {
      BoolFieldIdempotent(a.enforceBiometrics);
    }
  }

  lemma ReserializeCipherAt(a: AndroidOptions, m: WireMap, i: int)
    requires 4 <= i < 6 && WireKeys <= m.Keys
    requires WellFormed(a.keyCipherAlgorithm) && WellFormed(a.storageCipherAlgorithm)
    requires FieldResult(a, i).Ok? && m[WireKeyList[i]] == FieldResult(a, i).value
    ensures FieldResult(FromWire(m), i) == FieldResult(a, i)
  {
    CiphersUnique();
    if i == 4 {
      EnumFieldIdempotent(a.keyCipherAlgorithm, KeyCipherAlgorithm);
    } else {
      EnumFieldIdempotent(a.storageCipherAlgorithm, StorageCipherAlgorithm);
    }
  }

  lemma ReserializeTextAt(a: AndroidOptions, m: WireMap, i: int)
    requires 6 <= i < 10 && WireKeys <= m.Keys
    requires FieldResult(a, i).Ok? && m[WireKeyList[i]] == FieldResult(a, i).value
    ensures FieldResult(FromWire(m), i) == FieldResult(a, i)
  {
    if i == 6 {
      TextFieldIdempotent(a.sharedPreferencesName);
    } else if i == 7 {
      TextFieldIdempotent(a.preferencesKeyPrefix);
    } else if i == 8 {
      TextFieldIdempotent(a.biometricPromptTitle);
    } else {
      TextFieldIdempotent(a.biometricPromptSubtitle);
    }
  }

  /** Serialisation is stable: the record read back from a wire mapping
      serialises to that same mapping. */
  lemma OptionsReserialize(a: AndroidOptions)
    requires Options(a).Ok?
    requires WellFormed(a.keyCipherAlgorithm) && WellFormed(a.storageCipherAlgorithm)
    ensures WireKeys <= Options(a).value.Keys
    ensures Options(FromWire(Options(a).value)) == Options(a)
  {
    var b := FromWire(Options(a).value);
    forall i | 0 <= i < 10
      ensures FieldResult(b, i) == FieldResult(a, i)
    {
      ReserializeAt(a, i);
    }
    assert FieldResults(b) == FieldResults(a);
  }
}
