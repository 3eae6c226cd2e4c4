/** The method channel to the native plugin, as the test doubles answer it:
    every call is served from one insertion-ordered dict. */
module Channel {
  import opened Results
  import opened Store

  /** A call on the channel: the method name and its arguments. */
  datatype Request =
    | SetReq(key: string, value: string)
    | GetReq(key: string)
    | ContainsKeyReq(key: string)
    | RemoveReq(key: string)
    | GetKeysReq
    | ClearReq

  datatype Reply =
    | Flag(flag: bool)
    | Text(text: Option<string>)
    | Items(items: Dict)

  /** The store after the call, and the call's return value. */
  datatype Answered = Answered(store: Dict, reply: Reply)

  /** How the double serves each call: set stores and answers true, get
      and contains_key read, remove pops quietly, get_keys hands back a
      copy of every item, clear empties the store. */
  function Answer(store: Dict, req: Request): (a: Answered)
    ensures req.GetReq? || req.ContainsKeyReq? || req.GetKeysReq? ==> a.store == store
    ensures req.SetReq? || req.RemoveReq? || req.ClearReq? ==> a.reply == Flag(true)
    ensures req.GetReq? ==> a.reply == Text(Lookup(store, req.key))
    ensures req.ContainsKeyReq? ==> a.reply == Flag(HasKey(store, req.key))
    ensures req.GetKeysReq? ==> a.reply == Items(store)
    ensures req.SetReq? ==> a.store == Put(store, req.key, req.value)
    ensures req.RemoveReq? ==> a.store == Delete(store, req.key)
    ensures req.ClearReq? ==> a.store == []
  {
    match req
    case SetReq(k, v) => Answered(Put(store, k, v), Flag(true))
    case GetReq(k) => Answered(store, Text(Lookup(store, k)))
    case ContainsKeyReq(k) => Answered(store, Flag(HasKey(store, k)))
    case RemoveReq(k) => Answered(Delete(store, k), Flag(true))
    case GetKeysReq => Answered(store, Items(store))
    case ClearReq => Answered([], Flag(true))
  }

  /** No call ever stores a key twice, so the store stays a dict. */
  lemma AnswerKeepsUnique(store: Dict, req: Request)
    requires Unique(store)
    ensures Unique(Answer(store, req).store)
  {
    match req
    case SetReq(k, v) => PutUnique(store, k, v);
    case RemoveReq(k) => DeleteUnique(store, k);
    case _ =>
  }
}
