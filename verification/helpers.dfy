/** The input validators shared by the option records and the key prefixing
    rule of the storage facade. */
module Helpers {
  import opened Results
  import opened Text
  import opened Values

  /** The strings parse_bool reads as true, once lower-cased and stripped. */
  const TrueStrings: set<string> := {"true", "t", "1", "y", "yes"}

  /** The strings parse_bool reads as false, once lower-cased and stripped. */
  const FalseStrings: set<string> := {"false", "f", "0", "n", "no"}

  /** No token is both true and false, so parse_bool is well defined. */
  lemma TokenSetsDisjoint()
    ensures TrueStrings !! FalseStrings
  {
  }

  // ---------------------------------------------------------------- parse_str

  /** A string comes back stripped; anything else (a bool included) is a
      type error. */
  function ParseStr(v: Value): (r: Result<string>)
    ensures r.Ok? <==> v.VStr?
    ensures r.Err? ==> r.error == TypeError
    ensures r.Ok? ==> IsStripOf(r.value, v.s) && Trimmed(r.value)
  {
    if v.VStr? then StripMeaning(v.s); Ok(Strip(v.s)) else Err(TypeError)
  }

  // --------------------------------------------------------------- parse_bool

  /** What parse_bool compares with the token sets: the lower-cased, stripped text. */
  function BoolToken(s: string): string {
    Strip(Lower(s))
  }

  function ParseBool(v: Value): (r: Result<Option<bool>>)
    ensures v.VNone? ==> r == Ok(None)
    ensures v.VBool? ==> r == Ok(Some(v.b))
    ensures v.VStr? ==> (r == Ok(Some(true)) <==> BoolToken(v.s) in TrueStrings)
    ensures v.VStr? ==> (r == Ok(Some(false)) <==> BoolToken(v.s) in FalseStrings)
    ensures v.VStr? ==> (r == Err(ValueError) <==> BoolToken(v.s) !in TrueStrings + FalseStrings)
    ensures !(v.VNone? || v.VBool? || v.VStr?) ==> r == Err(TypeError)
  {
    match v
    case VNone => Ok(None)
    case VBool(b) => Ok(Some(b))
    case VStr(s) =>
      var t := BoolToken(s);
      TokenSetsDisjoint();
      if t in TrueStrings then Ok(Some(true))
      else if t in FalseStrings then Ok(Some(false))
      else Err(ValueError)
    case _ => Err(TypeError)
  }

  /** Surrounding whitespace never changes how a boolean string is read. */
  lemma ParseBoolIgnoresPadding(lead: string, s: string, trail: string)
    requires AllSpace(lead) && AllSpace(trail)
    ensures ParseBool(VStr(lead + s + trail)) == ParseBool(VStr(s))
  {
    LowerAppend(lead + s, trail);
    LowerAppend(lead, s);
    LowerKeepsSpace(lead);
    LowerKeepsSpace(trail);
    StripIgnoresPadding(lead, Lower(s), trail);
  }

  /** Letter case never changes how a boolean string is read. */
  lemma ParseBoolIgnoresCase(s: string)
    ensures ParseBool(VStr(Lower(s))) == ParseBool(VStr(s))
  {
    LowerTwice(s);
  }

  /** Every token of either set, in any letter case and with any padding,
      reads as the boolean of its set. */
  lemma ParseBoolAcceptsTokens(lead: string, s: string, trail: string)
    requires AllSpace(lead) && AllSpace(trail)
    requires Lower(s) in TrueStrings + FalseStrings
    ensures ParseBool(VStr(lead + s + trail)) == Ok(Some(Lower(s) in TrueStrings))
  {
    ParseBoolIgnoresPadding(lead, s, trail);
    ParseBoolIgnoresCase(s);
    TokensAreTrimmed(Lower(s));
    StripOfTrimmed(Lower(s));
    LowerTwice(s);
    assert BoolToken(Lower(s)) == Lower(s);
    TokenSetsDisjoint();
  }

  lemma TokensAreTrimmed(t: string)
    requires t in TrueStrings + FalseStrings
    ensures Trimmed(t)
  {
  }

  // --------------------------------------------------------------- parse_enum

  /** A member of `t` gives its name, a string naming a member of `t` gives
      the name of the member it looks up (an alias gives the name of the
      member it stands for), an unknown name is a value error and anything
      else (a member of another enum included) is a type error. */
  function ParseEnum(v: Value, t: EnumType): (r: Result<string>)
    ensures v.VMember? && v.owner == t ==> r == Ok(t.Canonical(v.name))
    ensures v.VStr? ==> (r.Ok? <==> t.HasMember(v.s))
    ensures v.VStr? && r.Ok? ==> r.value == t.Canonical(v.s)
    ensures v.VStr? && r.Err? ==> r.error == ValueError
    ensures !v.VStr? && !(v.VMember? && v.owner == t) ==> r == Err(TypeError)
    ensures WellFormed(v) && r.Ok? ==> t.HasMember(r.value)
  {
    match v
    case VMember(owner, name) =>
      if owner == t then CanonicalIsMember(t, name); Ok(t.Canonical(name)) else Err(TypeError)
    case VStr(s) =>
      if t.HasMember(s) then CanonicalIsMember(t, s); Ok(t.Canonical(s)) else Err(ValueError)
    case _ => Err(TypeError)
  }

  /** The name a member name resolves to is itself a member's name. */
  lemma CanonicalIsMember(t: EnumType, n: string)
    ensures t.HasMember(n) ==> t.HasMember(t.Canonical(n))
  {
    if t.HasMember(n) {
      var j := FirstValued(t.members, t.members[FirstNamed(t.members, n)].value);
      assert t.members[j].name == t.Canonical(n);
    }
  }

  /** In an enum whose members all have distinct values there are no
      aliases: every name resolves to itself. */
  lemma {:induction false} CanonicalOfUnique(t: EnumType, n: string)
    requires t.UniqueValues()
    ensures t.Canonical(n) == n
  {
    if t.HasMember(n) {
      var k := FirstNamed(t.members, n);
      var j := FirstValued(t.members, t.members[k].value);
      assert j == k;
    }
  }

  /** Resolving twice is resolving once: the name an alias resolves to is
      no alias. */
  lemma {:induction false} CanonicalTwice(t: EnumType, n: string)
    requires t.UniqueNames()
    ensures t.Canonical(t.Canonical(n)) == t.Canonical(n)
  {
    if t.HasMember(n) {
      var ms := t.members;
      var j := FirstValued(ms, ms[FirstNamed(ms, n)].value);
      var c := ms[j].name;
      assert t.HasMember(c);
      assert FirstNamed(ms, c) == j;
    }
  }

  /** Parsing the emitted name again gives the same name. */
  lemma ParseEnumIdempotent(v: Value, t: EnumType)
    requires WellFormed(v) && ParseEnum(v, t).Ok? && t.UniqueNames()
    ensures ParseEnum(VStr(ParseEnum(v, t).value), t) == ParseEnum(v, t)
  {
    var n := if v.VStr? then v.s else v.name;
    CanonicalTwice(t, n);
  }

  // ---------------------------------------------------------------- parse_int

  predicate IsDigit(c: char) {
    '0' <= c <= '9'
  }

  predicate AllDigits(s: string) {
    forall k :: 0 <= k < |s| ==> IsDigit(s[k])
  }

  /** An optionally signed, non-empty run of decimal digits. */
  predicate IsNumeral(t: string) {
    if |t| > 0 && (t[0] == '+' || t[0] == '-') then |t| > 1 && AllDigits(t[1..])
    else |t| > 0 && AllDigits(t)
  }

  function DigitsValue(ds: string): nat
    requires AllDigits(ds)
  {
    if ds == [] then 0
    else 10 * DigitsValue(ds[..|ds| - 1]) + (ds[|ds| - 1] as int - '0' as int)
  }

  /** A leading zero does not change the value of a run of digits, so
      "007" is worth what "7" is. */
  lemma {:induction false} DigitsLeadingZero(ds: string)
    requires AllDigits(ds)
    ensures AllDigits("0" + ds) && DigitsValue("0" + ds) == DigitsValue(ds)
  {
    var zs := "0" + ds;
    assert AllDigits(zs) by {
      forall k | 0 <= k < |zs|
        ensures IsDigit(zs[k])
      {
        if k > 0 { assert zs[k] == ds[k - 1]; }
      }
    }
    if ds != [] {
      var init := ds[..|ds| - 1];
      assert zs[..|zs| - 1] == "0" + init;
      assert zs[|zs| - 1] == ds[|ds| - 1];
      DigitsLeadingZero(init);
    } else {
      assert zs[..|zs| - 1] == [];
    }
  }

  function NumeralValue(t: string): int
    requires IsNumeral(t)
  {
    if t[0] == '-' then 0 - DigitsValue(t[1..])
    else if t[0] == '+' then DigitsValue(t[1..])
    else DigitsValue(t)
  }

  /** None and the empty string give None; an int (a bool is one in Python)
      comes back as it is; a string is read as a numeral once stripped. */
  function ParseInt(v: Value): (r: Result<Option<int>>)
    ensures v.VNone? || v == VStr("") ==> r == Ok(None)
    ensures v.VInt? ==> r == Ok(Some(v.i))
    ensures v.VBool? ==> r == Ok(Some(if v.b then 1 else 0))
    ensures v.VStr? && v.s != "" ==> (r.Ok? <==> IsNumeral(Strip(v.s)))
    ensures v.VStr? && v.s != "" && r.Ok? ==> r.value.Some?
    ensures v.VStr? && v.s != "" && r.Ok? ==>
      IsNumeral(Strip(v.s)) && r.value == Some(NumeralValue(Strip(v.s)))
    ensures v.VStr? && r.Err? ==> r.error == ValueError
    ensures v.VStr? && v.s != "" && AllSpace(v.s) ==> r == Err(ValueError)
    ensures v.VMember? || v.VOther? ==> r == Err(TypeError)
  {
    if v.VNone? || v == VStr("") then Ok(None)
    else match v
      case VInt(i) => Ok(Some(i))
      case VBool(b) => Ok(Some(if b then 1 else 0))
      case VStr(s) =>
        var t := Strip(s);
        StripMeaning(s);
        if IsNumeral(t) then Ok(Some(NumeralValue(t))) else Err(ValueError)
      case _ => Err(TypeError)
  }

  function DigitChar(d: nat): char
    requires d < 10
  {
    ('0' as int + d) as char
  }

  /** The decimal text of `n`, as Python's str(int) writes it. */
  function FormatNat(n: nat): string {
    if n < 10 then [DigitChar(n)] else FormatNat(n / 10) + [DigitChar(n % 10)]
  }

  function FormatInt(n: int): string {
    if n < 0 then "-" + FormatNat(-n) else FormatNat(n)
  }

  lemma {:induction false} FormatNatDigits(n: nat)
    ensures |FormatNat(n)| > 0 && AllDigits(FormatNat(n))
    ensures DigitsValue(FormatNat(n)) == n
  {
    if n >= 10 {
      FormatNatDigits(n / 10);
      var s := FormatNat(n);
      assert s[..|s| - 1] == FormatNat(n / 10);
    }
  }

  /** Reading back the decimal text of any integer, with any whitespace
      padding, gives that integer. */
  lemma ParseIntRoundTrip(lead: string, n: int, trail: string)
    requires AllSpace(lead) && AllSpace(trail)
    ensures ParseInt(VStr(lead + FormatInt(n) + trail)) == Ok(Some(n))
  {
    var t := FormatInt(n);
    var u := lead + t + trail;
    FormatIntIsNumeral(n);
    StripOfTrimmed(t);
    StripIgnoresPadding(lead, t, trail);
    assert Strip(u) == t;
    assert u != "";
  }

  /** A zero-padded numeral such as "007" is read as the number it pads. */
  lemma ParseIntZeroPadded(n: nat)
    ensures ParseInt(VStr("0" + FormatNat(n))) == Ok(Some(n))
  {
    var ds := FormatNat(n);
    var t := "0" + ds;
    FormatNatDigits(n);
    DigitsLeadingZero(ds);
    assert IsDigit(t[0]) && IsDigit(t[|t| - 1]);
    StripOfTrimmed(t);
    assert t != "" && IsNumeral(t) && NumeralValue(t) == n;
  }

  lemma FormatIntIsNumeral(n: int)
    ensures IsNumeral(FormatInt(n)) && Trimmed(FormatInt(n))
    ensures NumeralValue(FormatInt(n)) == n
  {
    var t := FormatInt(n);
    if n < 0 {
      FormatNatDigits(-n);
      assert t[1..] == FormatNat(-n);
      assert IsDigit(t[|t| - 1]);
    } else {
      FormatNatDigits(n);
      assert IsDigit(t[0]) && IsDigit(t[|t| - 1]);
    }
  }

  // --------------------------------------------------------------- add_prefix

  /** An empty prefix leaves the key as it is; otherwise the key follows the
      prefix and the separator. */
  function AddPrefix(prefix: string, separator: string, key: string): (r: string)
    ensures EndsWith(r, key)
    ensures StartsWith(r, prefix)
    ensures prefix == "" ==> r == key
    ensures prefix != "" ==> |r| == |prefix| + |separator| + |key|
    ensures prefix != "" ==> r[|prefix|..|prefix| + |separator|] == separator
  {
    if prefix == "" then key else prefix + separator + key
  }

  /** Distinct keys stay distinct once prefixed. */
  lemma AddPrefixInjective(prefix: string, separator: string, k1: string, k2: string)
    requires AddPrefix(prefix, separator, k1) == AddPrefix(prefix, separator, k2)
    ensures k1 == k2
  {
    var r := AddPrefix(prefix, separator, k1);
    assert k1 == r[|r| - |k1|..];
    assert k2 == r[|r| - |k2|..];
  }
}
