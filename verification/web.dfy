/** Web options: five fields with defaults, passed to the plugin as they
    are, with no validation. */
module Web {
  import opened Values

  datatype WebOptions = WebOptions(
    dbName: Value,
    publicKey: Value,
    wrapKey: Value,
    wrapKeyIv: Value,
    useSessionStorage: Value)

  const Defaults: WebOptions :=
    WebOptions(VStr("FletEncryptedStorage"), VStr("FletSecureStorage"), VStr(""), VStr(""), VBool(false))

  const DbName: string := "dbName"
  const PublicKey: string := "publicKey"
  const WrapKey: string := "wrapKey"
  const WrapKeyIv: string := "wrapKeyIv"
  const UseSessionStorage: string := "useSessionStorage"

  const WireKeys: set<string> := {DbName, PublicKey, WrapKey, WrapKeyIv, UseSessionStorage}

  /** The wire mapping: exactly the five keys, each carrying its field
      unchanged. */
  function Options(w: WebOptions): (m: WireMap)
    ensures m.Keys == WireKeys
  {
    map[
      DbName := w.dbName,
      PublicKey := w.publicKey,
      WrapKey := w.wrapKey,
      WrapKeyIv := w.wrapKeyIv,
      UseSessionStorage := w.useSessionStorage
    ]
  }

  /** The record a wire mapping describes, field for field. */
  function FromWire(m: WireMap): WebOptions
    requires WireKeys <= m.Keys
  {
    WebOptions(m[DbName], m[PublicKey], m[WrapKey], m[WrapKeyIv], m[UseSessionStorage])
  }

  /** Nothing is lost on the way out: the record is recovered from its
      wire mapping, so every field travels unchanged. */
  lemma FromWireOptions(w: WebOptions)
    ensures FromWire(Options(w)) == w
  {
  }

  /** Every mapping over exactly the five keys is the wire form of some
      record, namely the one read back from it. */
  lemma {:induction false} OptionsFromWire(m: WireMap)
    requires m.Keys == WireKeys
    ensures Options(FromWire(m)) == m
  {
    var r := Options(FromWire(m));
    forall k | k in m
      ensures r[k] == m[k]
    {
      assert k == DbName || k == PublicKey || k == WrapKey || k == WrapKeyIv || k == UseSessionStorage;
    }
  }

  /** The default record's wire mapping. */
  lemma DefaultOptions()
    ensures Options(Defaults)[DbName] == VStr("FletEncryptedStorage")
    ensures Options(Defaults)[PublicKey] == VStr("FletSecureStorage")
    ensures Options(Defaults)[WrapKey] == VStr("")
    ensures Options(Defaults)[WrapKeyIv] == VStr("")
    ensures Options(Defaults)[UseSessionStorage] == VBool(false)
  {
  }
}
