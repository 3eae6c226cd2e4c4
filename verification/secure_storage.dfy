/** The storage facade: construction-time normalisation of the key prefix
    and separator, key validation, the prefixed key every keyed call sends,
    the get_keys filter, and the before_update pass that turns each
    platform options record into its wire mapping. */
module SecureStorage {
  import opened Results
  import opened Text
  import opened Values
  import opened Helpers
  import opened Store
  import opened Channel
  import opened Descriptors
  import Android
  import Web
  import Windows

  // ------------------------------------------------------------ the facade

  /** What a platform options attribute holds. */
  datatype Slot =
    | Unset
    | Wire(wire: WireMap)
    | Record(descriptor: Descriptor)
      /** Any object that is not a dataclass instance (a class included). */
    | NotADataclass
      /** A dataclass instance without an options() method. */
    | WithoutOptions
      /** A dataclass instance whose options() returns no mapping. */
    | NonMappingOptions

  /** The six platform attributes, in the order before_update visits them. */
  const SlotNames: seq<string> :=
    ["i_options", "a_options", "l_options", "w_options", "web_options", "m_options"]

  /** The record each attribute gets when the constructor is passed None. */
  const DefaultDescriptors: seq<Descriptor> := [
    ForIOS,
    ForAndroid(Android.PostInit(Android.Defaults).options),
    ForLinux,
    ForWindows(Windows.Defaults),
    ForWeb(Web.Defaults),
    ForMacOS
  ]

  datatype Storage = Storage(prefix: string, separator: string, slots: seq<Slot>)

  /** What construction guarantees: six slots, a prefix without surrounding
      whitespace, and no separator without a prefix. */
  predicate Valid(s: Storage) {
    && |s.slots| == 6
    && Trimmed(s.prefix)
    && (s.prefix == "" ==> s.separator == "")
  }

  /** The constructor. `separator` is the prefix_separator argument (a
      caller who leaves it out passes DefaultSeparator); `args` are the six
      platform arguments, Unset standing for None. The prefix is checked
      before the separator, and a separator is not looked at when the
      prefix is empty. */
  function New(prefix: Value, separator: Value, args: seq<Slot>): (r: Result<Storage>)
    requires |args| == 6
    ensures r.Err? <==>
      || !(prefix.VNone? || prefix.VStr?)
      || (prefix.VStr? && !AllSpace(prefix.s) && !(separator.VNone? || separator.VStr?))
    ensures r.Err? ==> r.error == TypeError
    ensures r.Ok? ==> Valid(r.value)
    ensures r.Ok? && prefix.VNone? ==> r.value.prefix == ""
    ensures r.Ok? && prefix.VStr? ==> IsStripOf(r.value.prefix, prefix.s)
    ensures r.Ok? && r.value.prefix != "" ==>
      r.value.separator == if separator.VStr? then separator.s else ""
    ensures r.Ok? ==> NormalPrefix(prefix) == Ok(r.value.prefix)
    ensures r.Ok? ==> |r.value.slots| == 6 && forall i :: 0 <= i < 6 ==>
      r.value.slots[i] == if args[i].Unset? then Record(DefaultDescriptors[i]) else args[i]
  {
    var p :- NormalPrefix(prefix);
    var sep :- if p == "" then Ok("") else NormalSeparator(separator);
    StripMeaning("");
    Ok(Storage(p, sep, InitSlots(args)))
  }

  /** The separator a caller gets by not passing prefix_separator at all. */
  const DefaultSeparator: Value := VStr(".")

  /** No platform argument passed. */
  const NoArgs: seq<Slot> := [Unset, Unset, Unset, Unset, Unset, Unset]

  /** Every platform argument passed as None gets its default record;
      anything else is kept as it is, unchecked. */
  function InitSlots(args: seq<Slot>): (slots: seq<Slot>)
    requires |args| == 6
    ensures |slots| == 6
    ensures forall i :: 0 <= i < 6 ==>
      slots[i] == if args[i].Unset? then Record(DefaultDescriptors[i]) else args[i]
  {
    seq(6, i requires 0 <= i < 6 => if args[i].Unset? then Record(DefaultDescriptors[i]) else args[i])
  }

  /** A None prefix is empty; a string one is stripped; anything else raises. */
  function NormalPrefix(prefix: Value): (r: Result<string>)
    ensures r.Ok? <==> prefix.VNone? || prefix.VStr?
    ensures r.Err? ==> r.error == TypeError
    ensures r.Ok? ==> Trimmed(r.value)
    ensures r.Ok? && prefix.VNone? ==> r.value == ""
    ensures r.Ok? && prefix.VStr? ==> IsStripOf(r.value, prefix.s) && (r.value == "" <==> AllSpace(prefix.s))
    ensures prefix.VStr? && Trimmed(prefix.s) ==> r == Ok(prefix.s)
  {
    match prefix
    case VNone => Ok("")
    case VStr(t) => StripMeaning(t); if Trimmed(t) then StripOfTrimmed(t); Ok(Strip(t)) else Ok(Strip(t))
    case _ => Err(TypeError)
  }

  /** A None (or empty) separator is empty; any other string is kept
      verbatim; anything else raises. */
  function NormalSeparator(separator: Value): (r: Result<string>)
    ensures r.Ok? <==> separator.VNone? || separator.VStr?
    ensures r.Err? ==> r.error == TypeError
    ensures r.Ok? ==> r.value == if separator.VStr? then separator.s else ""
  {
    match separator
    case VNone => Ok("")
    case VStr(t) => Ok(t)
    case _ => Err(TypeError)
  }

  // ---------------------------------------------------------------- keys

  /** A key must be a string with something besides whitespace in it (a
      non-string is a value error too); a valid key goes on unstripped. */
  function ValidateKey(key: Value): (r: Result<string>)
    ensures r.Ok? <==> key.VStr? && !AllSpace(key.s)
    ensures r.Ok? ==> r.value == key.s
    ensures r.Err? ==> r.error == ValueError
  {
    if !key.VStr? then Err(ValueError)
    else
      StripMeaning(key.s);
      if Strip(key.s) == "" then Err(ValueError) else Ok(key.s)
  }

  /** The key the plugin sees for a user key. */
  function StorageKey(s: Storage, key: string): string {
    AddPrefix(s.prefix, s.separator, key)
  }

  /** The four keyed operations: set, get, contains_key and remove. */
  datatype KeyOp = SetOp(value: string) | GetOp | ContainsKeyOp | RemoveOp

  function RequestFor(op: KeyOp, key: string): Request {
    match op
    case SetOp(v) => SetReq(key, v)
    case GetOp => GetReq(key)
    case ContainsKeyOp => ContainsKeyReq(key)
    case RemoveOp => RemoveReq(key)
  }

  /** A keyed operation: an invalid key raises before any call is made;
      a valid one is sent prefixed, and the plugin's answer comes back. */
  function KeyCall(s: Storage, store: Dict, op: KeyOp, key: Value): (r: Result<Answered>)
    ensures r.Ok? <==> key.VStr? && !AllSpace(key.s)
    ensures r.Err? ==> r.error == ValueError
    ensures r.Ok? ==> r.value == Answer(store, RequestFor(op, StorageKey(s, key.s)))
  {
    var k :- ValidateKey(key);
    Ok(Answer(store, RequestFor(op, StorageKey(s, k))))
  }

  /** clear(): no key, nothing to validate. */
  function Clear(store: Dict): (a: Answered)
    ensures a.store == [] && a.reply == Flag(true)
  {
    Answer(store, ClearReq)
  }

  /** What set(k, v) then get(k) sees. */
  lemma SetThenGet(s: Storage, store: Dict, key: Value, v: string)
    requires KeyCall(s, store, SetOp(v), key).Ok?
    ensures KeyCall(s, store, SetOp(v), key).value.reply == Flag(true)
    ensures KeyCall(s, KeyCall(s, store, SetOp(v), key).value.store, GetOp, key).value.reply == Text(Some(v))
  {
    var k := StorageKey(s, key.s);
    LookupPut(store, k, v, k);
  }

  /** set(k, v) then contains_key(k) is true. */
  lemma SetThenContains(s: Storage, store: Dict, key: Value, v: string)
    requires KeyCall(s, store, SetOp(v), key).Ok?
    ensures KeyCall(s, KeyCall(s, store, SetOp(v), key).value.store, ContainsKeyOp, key).value.reply == Flag(true)
  {
    var k := StorageKey(s, key.s);
    LookupPut(store, k, v, k);
  }

  /** set(k1, v) leaves what get returns for every other key k2 alone. */
  lemma SetKeepsOtherKeys(s: Storage, store: Dict, k1: Value, v: string, k2: Value)
    requires KeyCall(s, store, SetOp(v), k1).Ok? && KeyCall(s, store, GetOp, k2).Ok?
    requires k1 != k2
    ensures KeyCall(s, KeyCall(s, store, SetOp(v), k1).value.store, GetOp, k2).value.reply
         == KeyCall(s, store, GetOp, k2).value.reply
  {
    var p1 := StorageKey(s, k1.s);
    var p2 := StorageKey(s, k2.s);
    assert p1 != p2 by {
      if p1 == p2 {
        AddPrefixInjective(s.prefix, s.separator, k1.s, k2.s);
      }
    }
    var after := Put(store, p1, v);
    assert KeyCall(s, store, SetOp(v), k1).value.store == after;
    assert KeyCall(s, after, GetOp, k2) == Ok(Answered(after, Text(Lookup(after, p2))));
    assert KeyCall(s, store, GetOp, k2) == Ok(Answered(store, Text(Lookup(store, p2))));
    LookupPut(store, p1, v, p2);
    assert Lookup(after, p2) == Lookup(store, p2);
  }

  /** remove(k) then contains_key(k) is false. */
  lemma RemoveThenContains(s: Storage, store: Dict, key: Value)
    requires KeyCall(s, store, RemoveOp, key).Ok?
    ensures KeyCall(s, KeyCall(s, store, RemoveOp, key).value.store, ContainsKeyOp, key).value.reply == Flag(false)
  {
    var p := StorageKey(s, key.s);
    var after := Delete(store, p);
    assert RequestFor(RemoveOp, p) == RemoveReq(p);
    assert Answer(store, RemoveReq(p)).store == after;
    assert KeyCall(s, store, RemoveOp, key).value.store == after;
    assert RequestFor(ContainsKeyOp, p) == ContainsKeyReq(p);
    assert KeyCall(s, after, ContainsKeyOp, key).value.reply == Flag(HasKey(after, p));
  }

  /** remove(k) leaves every other key's value alone. */
  lemma RemoveKeepsOtherKeys(s: Storage, store: Dict, k1: Value, k2: Value)
    requires KeyCall(s, store, RemoveOp, k1).Ok? && KeyCall(s, store, GetOp, k2).Ok?
    requires k1 != k2
    ensures KeyCall(s, KeyCall(s, store, RemoveOp, k1).value.store, GetOp, k2).value.reply
         == KeyCall(s, store, GetOp, k2).value.reply
  {
    var p1 := StorageKey(s, k1.s);
    var p2 := StorageKey(s, k2.s);
    assert p1 != p2 by {
      if p1 == p2 {
        AddPrefixInjective(s.prefix, s.separator, k1.s, k2.s);
      }
    }
    var after := Delete(store, p1);
    assert RequestFor(RemoveOp, p1) == RemoveReq(p1);
    assert Answer(store, RemoveReq(p1)).store == after;
    assert KeyCall(s, store, RemoveOp, k1).value.store == after;
    assert KeyCall(s, after, GetOp, k2) == Ok(Answered(after, Text(Lookup(after, p2))));
    assert KeyCall(s, store, GetOp, k2) == Ok(Answered(store, Text(Lookup(store, p2))));
    LookupDelete(store, p1, p2);
    assert Lookup(after, p2) == Lookup(store, p2);
  }

  /** After clear(), contains_key is false for every valid key. */
  lemma ClearThenContains(s: Storage, store: Dict, key: Value)
    requires ValidateKey(key).Ok?
    ensures KeyCall(s, Clear(store).store, ContainsKeyOp, key) == Ok(Answered([], Flag(false)))
  {
    var p := StorageKey(s, key.s);
    assert RequestFor(ContainsKeyOp, p) == ContainsKeyReq(p);
    assert !HasKey([], p);
  }

  /** A blank key never reaches the plugin, on any operation. */
  lemma BlankKeyRejected(s: Storage, store: Dict, op: KeyOp, key: string)
    requires AllSpace(key)
    ensures KeyCall(s, store, op, VStr(key)) == Err(ValueError)
  {
  }

  /** A facade built with a prefix that has no surrounding whitespace
      stores every key as prefix, separator, key, the separator verbatim. */
  lemma NamedPrefixKeys(p: string, sep: Value, args: seq<Slot>, key: string)
    requires Trimmed(p) && p != "" && |args| == 6
    requires sep.VNone? || sep.VStr?
    ensures New(VStr(p), sep, args).Ok?
    ensures StorageKey(New(VStr(p), sep, args).value, key)
         == p + (if sep.VStr? then sep.s else "") + key
  {
    StripOfTrimmed(p);
  }

  /** A facade built with a prefix and no prefix_separator argument joins
      prefix and key with a dot: prefix "net.example" stores "k" as
      "net.example.k". */
  lemma DefaultSeparatorKeys(p: string, args: seq<Slot>, key: string)
    requires Trimmed(p) && p != "" && |args| == 6
    ensures New(VStr(p), DefaultSeparator, args).Ok?
    ensures StorageKey(New(VStr(p), DefaultSeparator, args).value, key) == p + "." + key
  {
    NamedPrefixKeys(p, DefaultSeparator, args, key);
  }

  /** A facade built with no prefix, or an empty or blank one, stores every
      key as it is, whatever separator was passed. */
  lemma BlankPrefixKeys(p: Value, sep: Value, args: seq<Slot>, key: string)
    requires p.VNone? || (p.VStr? && AllSpace(p.s))
    requires |args| == 6
    ensures New(p, sep, args).Ok?
    ensures StorageKey(New(p, sep, args).value, key) == key
  {
  }

  // ------------------------------------------------------------ get_keys

  /** The filter get_keys matches raw keys against. A missing or blank
      filter, or one that spells the facade prefix with or without its
      separator, collapses to the bare prefix; any other string is prefixed
      like a key. A filter with no strip() raises AttributeError. */
  function EffectiveFilter(s: Storage, filter: Value): (r: Result<string>)
    ensures r.Err? <==> !(filter.VNone? || filter.VStr?)
    ensures r.Err? ==> r.error == AttributeError
    ensures r.Ok? ==> StartsWith(r.value, s.prefix)
    ensures filter.VNone? || (filter.VStr? && AllSpace(filter.s)) ==> r == Ok(s.prefix)
    ensures filter == VStr(s.prefix) || filter == VStr(s.prefix + s.separator) ==> r == Ok(s.prefix)
    ensures filter.VStr? && !AllSpace(filter.s) && filter.s != s.prefix && filter.s != s.prefix + s.separator
      ==> r == Ok(StorageKey(s, filter.s))
  {
    match filter
    case VNone => Ok(s.prefix)
    case VStr(f) =>
      StripMeaning(f);
      if Strip(f) == "" then Ok(s.prefix)
      else if f == s.prefix || f == s.prefix + s.separator then Ok(s.prefix)
      else Ok(StorageKey(s, f))
    case _ => Err(AttributeError)
  }

  /** One listed entry: the raw key, a colon, the value. */
  function Format(e: Entry): string {
    e.0 + ":" + e.1
  }

  /** The reply's entries whose raw key starts with `filter`, formatted, in
      reply order. */
  function FormatMatching(items: Dict, filter: string): (r: seq<string>)
    ensures |r| <= |items|
  {
    if items == [] then []
    else
      (if StartsWith(items[0].0, filter) then [Format(items[0])] else [])
      + FormatMatching(items[1..], filter)
  }

  /** Listing distributes over the reply: the entries of a longer reply
      are listed after those of its first part. */
  lemma {:induction false} FormatMatchingAppend(a: Dict, b: Dict, filter: string)
    ensures FormatMatching(a + b, filter) == FormatMatching(a, filter) + FormatMatching(b, filter)
  {
    if a != [] {
      assert (a + b)[1..] == a[1..] + b;
      FormatMatchingAppend(a[1..], b, filter);
    } else {
      assert a + b == b;
    }
  }

  /** An entry is listed exactly when some reply item matching the filter
      formats to it. */
  lemma {:induction false} FormatMatchingMembers(items: Dict, filter: string, x: string)
    ensures x in FormatMatching(items, filter) <==>
      exists i :: 0 <= i < |items| && StartsWith(items[i].0, filter) && x == Format(items[i])
  {
    if items != [] {
      var tail := items[1..];
      FormatMatchingMembers(tail, filter, x);
      if x in FormatMatching(tail, filter) {
        var i :| 0 <= i < |tail| && StartsWith(tail[i].0, filter) && x == Format(tail[i]);
        assert items[i + 1] == tail[i];
      }
      if exists i :: 0 <= i < |items| && StartsWith(items[i].0, filter) && x == Format(items[i]) {
        var i :| 0 <= i < |items| && StartsWith(items[i].0, filter) && x == Format(items[i]);
        if i > 0 {
          assert tail[i - 1] == items[i];
        }
      }
    }
  }

  /** When every raw key matches, every item is listed, in order. */
  lemma {:induction false} FormatMatchingAll(items: Dict, filter: string)
    requires forall i :: 0 <= i < |items| ==> StartsWith(items[i].0, filter)
    ensures |FormatMatching(items, filter)| == |items|
    ensures forall i :: 0 <= i < |items| ==> FormatMatching(items, filter)[i] == Format(items[i])
  {
    if items != [] {
      var tail := items[1..];
      assert forall i :: 0 <= i < |tail| ==> tail[i] == items[i + 1];
      FormatMatchingAll(tail, filter);
    }
  }

  /** get_keys(filter): asks the plugin for every item and lists those under
      the effective filter. Nothing in the store changes. */
  function GetKeys(s: Storage, store: Dict, filter: Value): (r: Result<seq<string>>)
    ensures r.Ok? <==> filter.VNone? || filter.VStr?
    ensures r.Err? ==> r.error == AttributeError
    ensures r.Ok? ==> r.value == FormatMatching(store, EffectiveFilter(s, filter).value)
  {
    var f :- EffectiveFilter(s, filter);
    var a := Answer(store, GetKeysReq);
    Ok(FormatMatching(a.reply.items, f))
  }

  /** Appending the prefixed forms of two keys, one starts with the other
      exactly when the keys do. */
  lemma StartsWithCommon(c: string, a: string, b: string)
    ensures StartsWith(c + a, c + b) <==> StartsWith(a, b)
  {
    if StartsWith(a, b) {
      assert (c + a)[..|c + b|] == c + a[..|b|];
    }
    if StartsWith(c + a, c + b) {
      assert a[..|b|] == (c + a)[..|c + b|][|c|..];
    }
  }

  /** A filter that does not collapse selects, among the keys this facade
      writes, exactly those whose user key starts with the filter. */
  lemma FilterSelectsKeys(s: Storage, f: string, key: string)
    requires !AllSpace(f) && f != s.prefix && f != s.prefix + s.separator
    ensures StartsWith(StorageKey(s, key), EffectiveFilter(s, VStr(f)).value) <==> StartsWith(key, f)
  {
    if s.prefix != "" {
      assert s.prefix + s.separator + key == (s.prefix + s.separator) + key;
      assert s.prefix + s.separator + f == (s.prefix + s.separator) + f;
      StartsWithCommon(s.prefix + s.separator, key, f);
    }
  }

  /** With no filter (or a collapsing one) every key this facade writes is
      listed. */
  lemma CollapsedFilterSelectsOwnKeys(s: Storage, filter: Value, key: string)
    requires filter.VNone? || filter.VStr?
    requires EffectiveFilter(s, filter) == Ok(s.prefix)
    ensures StartsWith(StorageKey(s, key), EffectiveFilter(s, filter).value)
  {
  }

  /** The collapsed filter is only the bare prefix, so it also lists the
      keys of a facade whose prefix merely starts with this one: with
      prefix "app" and separator ".", get_keys() lists "apple.x". */
  lemma CollapsedFilterAdmitsLongerPrefix(s: Storage, v: string)
    requires s.prefix == "app" && s.separator == "."
    ensures GetKeys(s, [("apple.x", v)], VNone) == Ok(["apple.x:" + v])
  {
    var items := [("apple.x", v)];
    assert EffectiveFilter(s, VNone) == Ok("app");
    assert StartsWith(items[0].0, "app");
    assert items[1..] == [];
    assert FormatMatching(items, "app") == [Format(items[0])];
    assert "apple.x" + ":" == "apple.x:";
  }

  /** The get_keys test case: a key set on the default facade is listed,
      with its value, by any filter the key starts with. */
  lemma SetThenGetKeys(s: Storage, key: string, v: string, f: string)
    requires s.prefix == "" && s.separator == ""
    requires !AllSpace(key) && !AllSpace(f) && StartsWith(key, f)
    ensures KeyCall(s, [], SetOp(v), VStr(key)).Ok?
    ensures GetKeys(s, KeyCall(s, [], SetOp(v), VStr(key)).value.store, VStr(f)) == Ok([key + ":" + v])
  {
    var items: Dict := [(key, v)];
    assert StorageKey(s, key) == key;
    assert Put([], key, v) == items;
    assert KeyCall(s, [], SetOp(v), VStr(key)).value.store == items;
    assert EffectiveFilter(s, VStr(f)) == Ok(f);
    assert items[1..] == [];
    assert FormatMatching(items, f) == [Format(items[0])];
  }

  // -------------------------------------------------------- before_update

  /** A slot before_update leaves alone: None, or already a mapping. */
  predicate Settled(slot: Slot) {
    slot.Unset? || slot.Wire?
  }

  /** What before_update does with one attribute: a settled slot stays; an
      options record becomes its wire mapping, or its options() raises;
      anything else is rejected under the attribute's name. */
  function NormalizeSlot(slot: Slot, name: string): (r: Result<Slot>)
    ensures Settled(slot) ==> r == Ok(slot)
    ensures r.Ok? ==> Settled(r.value)
    ensures slot.Record? ==> (r.Ok? <==> Descriptors.Options(slot.descriptor).Ok?)
    ensures slot.Record? && r.Ok? ==> r.value == Wire(Descriptors.Options(slot.descriptor).value)
    ensures slot.Record? && r.Err? ==> r.error == TypeError || r.error == ValueError
    ensures !Settled(slot) && !slot.Record? ==> r == Err(SecureStorageKeyError(name))
  {
    match slot
    case Unset => Ok(slot)
    case Wire(_) => Ok(slot)
    case Record(d) =>
      var m :- Descriptors.Options(d);
      Ok(Wire(m))
    case _ => Err(SecureStorageKeyError(name))
  }

  /** The attributes after the pass, and the exception that ended it, if
      any. The pass assigns as it goes, so a failure keeps the earlier
      replacements. */
  datatype UpdateOutcome = UpdateOutcome(slots: seq<Slot>, failure: Option<Error>)

  /** What normalising each attribute on its own gives. */
  function Steps(slots: seq<Slot>): (steps: seq<Result<Slot>>)
    requires |slots| == 6
    ensures |steps| == 6
    ensures forall j :: 0 <= j < 6 ==> steps[j] == NormalizeSlot(slots[j], SlotNames[j])
  {
    seq(6, j requires 0 <= j < 6 => NormalizeSlot(slots[j], SlotNames[j]))
  }

  /** Step `i` is the first, from `from` on, that raises. */
  predicate FirstRejected(steps: seq<Result<Slot>>, from: nat, i: nat) {
    && from <= i < |steps|
    && steps[i].Err?
    && forall j :: from <= j < i ==> steps[j].Ok?
  }

  /** The pass over the attributes from `i` on, given what each step
      gives; attributes before `i` are left as they are. */
  function NormalizeFrom(slots: seq<Slot>, steps: seq<Result<Slot>>, i: nat): (r: UpdateOutcome)
    requires |slots| == |steps| && i <= |slots|
    ensures |r.slots| == |slots|
    ensures forall j :: 0 <= j < i ==> r.slots[j] == slots[j]
    ensures r.failure.None? <==> forall j :: i <= j < |steps| ==> steps[j].Ok?
    ensures r.failure.None? ==> forall j :: i <= j < |steps| ==> steps[j] == Ok(r.slots[j])
    ensures r.failure.Some? ==> exists f: nat :: (
      && FirstRejected(steps, i, f)
      && r.failure.value == steps[f].error
      && (forall j :: i <= j < f ==> steps[j] == Ok(r.slots[j]))
      && (forall j :: f <= j < |slots| ==> r.slots[j] == slots[j]))
    decreases |slots| - i
  {
    if i == |slots| then UpdateOutcome(slots, None)
    else if steps[i].Err? then
      assert FirstRejected(steps, i, i);
      UpdateOutcome(slots, Some(steps[i].error))
    else
      var rest := NormalizeFrom(slots, steps, i + 1);
      UpdateOutcome(rest.slots[i := steps[i].value], rest.failure)
  }

  /** before_update: every platform attribute, in order. The attributes
      before the first one that raises are replaced; it and those after
      it are not. */
  function BeforeUpdate(s: Storage): (r: UpdateOutcome)
    requires |s.slots| == 6
    ensures |r.slots| == 6
    ensures r.failure.None? <==> forall j :: 0 <= j < 6 ==> NormalizeSlot(s.slots[j], SlotNames[j]).Ok?
    ensures r.failure.None? ==> forall j :: 0 <= j < 6 ==>
      Settled(r.slots[j]) && NormalizeSlot(s.slots[j], SlotNames[j]) == Ok(r.slots[j])
    ensures r.failure.Some? ==> exists f: nat :: (
      && FirstRejected(Steps(s.slots), 0, f)
      && r.failure.value == NormalizeSlot(s.slots[f], SlotNames[f]).error
      && (forall j :: 0 <= j < f ==> Settled(r.slots[j]) && NormalizeSlot(s.slots[j], SlotNames[j]) == Ok(r.slots[j]))
      && (forall j :: f <= j < 6 ==> r.slots[j] == s.slots[j]))
  {
    var steps := Steps(s.slots);
    var r := NormalizeFrom(s.slots, steps, 0);
    assert forall j :: 0 <= j < 6 ==> steps[j] == NormalizeSlot(s.slots[j], SlotNames[j]);
    r
  }

  /** A pass over settled slots changes nothing. */
  lemma {:induction false} NormalizeSettled(slots: seq<Slot>, i: nat)
    requires |slots| == 6 && i <= 6
    requires forall j :: i <= j < 6 ==> Settled(slots[j])
    ensures NormalizeFrom(slots, Steps(slots), i) == UpdateOutcome(slots, None)
    decreases 6 - i
  {
    if i < 6 {
      assert slots[i := slots[i]] == slots;
      NormalizeSettled(slots, i + 1);
    }
  }

  /** before_update is idempotent: once it has succeeded, running it again
      changes nothing and raises nothing. */
  lemma BeforeUpdateIdempotent(s: Storage)
    requires Valid(s) && BeforeUpdate(s).failure.None?
    ensures Valid(s.(slots := BeforeUpdate(s).slots))
    ensures BeforeUpdate(s.(slots := BeforeUpdate(s).slots)) == BeforeUpdate(s)
  {
    NormalizeSettled(BeforeUpdate(s).slots, 0);
    assert BeforeUpdate(s.(slots := BeforeUpdate(s).slots)) == NormalizeFrom(BeforeUpdate(s).slots, Steps(BeforeUpdate(s).slots), 0);
  }

  /** Every default record serialises. */
  lemma DefaultSlotSettles(j: int)
    requires 0 <= j < 6
    ensures NormalizeSlot(Record(DefaultDescriptors[j]), SlotNames[j]).Ok?
    ensures j == 1 ==> NormalizeSlot(Record(DefaultDescriptors[j]), SlotNames[j]) == Ok(Wire(Android.DefaultWire))
  {
    if j == 1 {
      Android.DefaultOptions();
    }
  }

  /** On a freshly built facade with no platform arguments, before_update
      succeeds, and the Android attribute becomes the default wire mapping. */
  lemma DefaultsUpdate(s: Storage)
    requires Valid(s) && s.slots == InitSlots(NoArgs)
    ensures BeforeUpdate(s).failure.None?
    ensures BeforeUpdate(s).slots[1] == Wire(Android.DefaultWire)
  {
    forall j | 0 <= j < 6
      ensures NormalizeSlot(s.slots[j], SlotNames[j]).Ok?
    {
      DefaultSlotSettles(j);
    }
    DefaultSlotSettles(1);
  }
}
