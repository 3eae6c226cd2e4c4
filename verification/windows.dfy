/** Windows options: a single flag, passed to the plugin as it is. */
module Windows {
  import opened Values

  datatype WindowsOptions = WindowsOptions(useBackwardCompatibility: Value)

  const Defaults: WindowsOptions := WindowsOptions(VBool(false))

  const UseBackwardCompatibility: string := "useBackwardCompatibility"

  /** The wire mapping: exactly one key, carrying the flag unchanged. */
  function Options(w: WindowsOptions): (m: WireMap)
    ensures m.Keys == {UseBackwardCompatibility}
  {
    map[UseBackwardCompatibility := w.useBackwardCompatibility]
  }

  function FromWire(m: WireMap): WindowsOptions
    requires UseBackwardCompatibility in m
  {
    WindowsOptions(m[UseBackwardCompatibility])
  }

  /** The flag travels unchanged: it is recovered from the wire mapping. */
  lemma FromWireOptions(w: WindowsOptions)
    ensures FromWire(Options(w)) == w
  {
  }

  /** Every one-key mapping over that key is the wire form of the record
      read back from it. */
  lemma OptionsFromWire(m: WireMap)
    requires m.Keys == {UseBackwardCompatibility}
    ensures Options(FromWire(m)) == m
  {
  }

  lemma DefaultOptions()
    ensures Options(Defaults) == map[UseBackwardCompatibility := VBool(false)]
  {
  }
}
