/** The six platform option records a storage facade holds, and what each
    serialises to. The Apple records (iOS, macOS) and the Linux record have
    no fields and always serialise to the empty mapping. */
module Descriptors {
  import opened Results
  import opened Values
  import Android
  import Web
  import Windows

  datatype Descriptor =
    | ForIOS
    | ForAndroid(android: Android.AndroidOptions)
    | ForLinux
    | ForWindows(windows: Windows.WindowsOptions)
    | ForWeb(web: Web.WebOptions)
    | ForMacOS

  /** The wire keys a platform record emits. */
  function KeysFor(d: Descriptor): set<string> {
    match d
    case ForAndroid(_) => Android.WireKeys
    case ForWindows(_) => {Windows.UseBackwardCompatibility}
    case ForWeb(_) => Web.WireKeys
    case _ => {}
  }

  /** A record's options(): only the Android record can fail, and it fails
      exactly when one of its fields does not validate. */
  function Options(d: Descriptor): (r: Result<WireMap>)
    ensures r.Err? <==> d.ForAndroid? && !Android.Serializable(d.android)
    ensures r.Err? ==> r.error == TypeError || r.error == ValueError
    ensures r.Ok? ==> r.value.Keys == KeysFor(d)
  {
    match d
    case ForAndroid(a) => Android.Options(a)
    case ForWindows(w) => Ok(Windows.Options(w))
    case ForWeb(w) => Ok(Web.Options(w))
    case _ => Ok(map[])
  }
}
