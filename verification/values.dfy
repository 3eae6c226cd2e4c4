/** The dynamically typed Python values that reach the package's validators,
    enum types, and the wire mappings sent to the native plugin. */
module Values {

  /** One member of a Python `Enum`: its name and its value. */
  datatype Member = Member(name: string, value: string)

  /** A Python `Enum` class, identified by its name and its members in
      declaration order. */
  datatype EnumType = EnumType(name: string, members: seq<Member>) {

    /** `name` names a member: `EnumType[name]` succeeds. */
    predicate HasMember(n: string) {
      exists k :: 0 <= k < |members| && members[k].name == n
    }

    /** No two members share a name; Python refuses to build such a class. */
    predicate UniqueNames() {
      forall i, j :: 0 <= i < j < |members| ==> members[i].name != members[j].name
    }

    /** No two members share a value, as `@unique` demands. */
    predicate UniqueValues() {
      forall i, j :: 0 <= i < j < |members| ==> members[i].value != members[j].value
    }

    /** `EnumType[n].name`: a name declared after a member with the same
        value is an alias, and resolves to that first member's name. A name
        that is no member's is left as it is. */
    function Canonical(n: string): string {
      if HasMember(n) then
        var k := FirstNamed(members, n);
        members[FirstValued(members, members[k].value)].name
      else n
    }
  }

  /** The position of the first member called `n`. */
  function FirstNamed(ms: seq<Member>, n: string): (k: nat)
    requires exists i :: 0 <= i < |ms| && ms[i].name == n
    ensures k < |ms| && ms[k].name == n
    ensures forall j :: 0 <= j < k ==> ms[j].name != n
  {
    if ms[0].name == n then 0
    else
      assert exists i :: 0 <= i < |ms[1..]| && ms[1..][i].name == n by {
        var i :| 0 <= i < |ms| && ms[i].name == n;
        assert ms[1..][i - 1] == ms[i];
      }
      1 + FirstNamed(ms[1..], n)
  }

  /** The position of the first member whose value is `v`. */
  function FirstValued(ms: seq<Member>, v: string): (k: nat)
    requires exists i :: 0 <= i < |ms| && ms[i].value == v
    ensures k < |ms| && ms[k].value == v
    ensures forall j :: 0 <= j < k ==> ms[j].value != v
  {
    if ms[0].value == v then 0
    else
      assert exists i :: 0 <= i < |ms[1..]| && ms[1..][i].value == v by {
        var i :| 0 <= i < |ms| && ms[i].value == v;
        assert ms[1..][i - 1] == ms[i];
      }
      1 + FirstValued(ms[1..], v)
  }

  /** A Python value as far as the validators distinguish it. */
  datatype Value =
    | VNone
    | VBool(b: bool)
    | VStr(s: string)
    | VInt(i: int)
      /** The member called `name` of the enum class `owner`. */
    | VMember(owner: EnumType, name: string)
      /** Any other object that is not a str and has no strip() method (a
          float, a list, a class, ...). Bytes-like objects are not modelled. */
    | VOther

  /** An enum member value really belongs to its class. */
  predicate WellFormed(v: Value) {
    v.VMember? ==> v.owner.HasMember(v.name)
  }

  /** The mapping of wire field names to values sent to the plugin. */
  type WireMap = map<string, Value>
}
