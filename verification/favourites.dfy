/** The favourites slice: the signed-in user's saved countries, cached from
    the remote `favourites` table, and the three asynchronous operations
    (fetch, add, remove) that keep the cache in step with the table.

    Each operation first obtains the current session; the row-store call
    it then makes is not modelled, only its settled result, which is an
    input. An operation's effect on the state is one `pending` action
    followed by one `fulfilled` or `rejected` action. */
module Favourites {
  import opened Domain
  import opened Seqs

  /** The message every operation rejects with when there is no usable session. */
  const NoSessionMessage := "No valid authentication session found"

  /** A row of the `favourites` table. */
  datatype Favourite = Favourite(
    id: string,
    userId: string,
    countryName: string,
    countryData: Country,
    createdAt: string
  )

  datatype State = State(favourites: seq<Favourite>, loading: bool, error: Option<string>)

  const InitialState := State([], false, None)

  datatype Op = FetchOp | AddOp | RemoveOp

  /** The actions the three thunks dispatch. A fulfilled action carries
      the thunk's return value; a rejected one the error message handed to
      `rejectWithValue`. */
  datatype Action =
    | Pending(op: Op)
    | FetchFulfilled(rows: seq<Favourite>)
    | AddFulfilled(row: Favourite)
    | RemoveFulfilled(name: string)
    | Rejected(op: Op, message: string)

  /** The favourites that a removal of `name` keeps. */
  function WithoutName(favs: seq<Favourite>, name: string): (r: seq<Favourite>)
    ensures Subsequence(r, favs)
    ensures forall i :: 0 <= i < |r| ==> r[i].countryName != name
    ensures forall i :: 0 <= i < |favs| && favs[i].countryName != name ==>
      multiset(r)[favs[i]] == multiset(favs)[favs[i]]
  {
    Filter(favs, (f: Favourite) => f.countryName != name)
  }

  /** The slice reducer: one action in, the next state out. */
  function Reduce(s: State, a: Action): (r: State)
    // pending: loading, error cleared, list untouched
    ensures a.Pending? ==> r.loading && r.error == None && r.favourites == s.favourites
    // every settled action ends loading
    ensures !a.Pending? ==> !r.loading
    // only `pending` and `rejected` touch `error`
    ensures (a.FetchFulfilled? || a.AddFulfilled? || a.RemoveFulfilled?) ==> r.error == s.error
    // rejected: error is the payload, list untouched
    ensures a.Rejected? ==> r.error == Some(a.message) && r.favourites == s.favourites
    // fetch: wholesale replacement
    ensures a.FetchFulfilled? ==> r.favourites == a.rows
    // add: old list is a prefix, exactly one entry appended, no dedupe
    ensures a.AddFulfilled? ==>
      |r.favourites| == |s.favourites| + 1
      && r.favourites[..|s.favourites|] == s.favourites
      && r.favourites[|s.favourites|] == a.row
    // remove: only entries with another name survive, in their original order
    ensures a.RemoveFulfilled? ==>
      Subsequence(r.favourites, s.favourites)
      && (forall i :: 0 <= i < |r.favourites| ==> r.favourites[i].countryName != a.name)
      && (forall i :: 0 <= i < |s.favourites| && s.favourites[i].countryName != a.name ==>
            multiset(r.favourites)[s.favourites[i]] == multiset(s.favourites)[s.favourites[i]])
  {
    match a
    case Pending(_) => s.(loading := true, error := None)
    case FetchFulfilled(rows) => s.(favourites := rows, loading := false)
    case AddFulfilled(row) => s.(favourites := s.favourites + [row], loading := false)
    case RemoveFulfilled(name) => s.(favourites := WithoutName(s.favourites, name), loading := false)
    case Rejected(_, message) => s.(loading := false, error := Some(message))
  }

  /** The operation an action belongs to. */
  function OpOf(a: Action): Op
  {
    match a
    case Pending(op) => op
    case FetchFulfilled(_) => FetchOp
    case AddFulfilled(_) => AddOp
    case RemoveFulfilled(_) => RemoveOp
    case Rejected(op, _) => op
  }

  // ---------------------------------------------------------------------
  // Session precondition and thunks

  datatype Session = Session(userId: string, accessToken: Option<string>)

  /** What `auth.getSession()` came to: an answer (a session or none, and
      whether it reported an error), or an exception, thrown by the call
      itself or by loading the client module, with its message. */
  datatype SessionReply =
    | Answered(session: Option<Session>, failed: bool)
    | Threw(message: string)

  /** `getCurrentSession`: a thrown exception keeps its own message; any
      reported error, a missing session or a missing or empty access token
      all become the one fixed message. */
  function CurrentSession(reply: SessionReply): (r: Result<Session>)
    ensures r.Ok? <==> reply.Answered? && !reply.failed && reply.session.Some?
                       && Truthy(reply.session.value.accessToken)
    ensures r.Ok? ==> Some(r.value) == reply.session
    ensures r.Err? && reply.Answered? ==> r.message == NoSessionMessage
    ensures reply.Threw? ==> r == Err(reply.message)
  {
    match reply
    case Threw(m) => Err(m)
    case Answered(session, failed) =>
      if failed || session.None? || !Truthy(session.value.accessToken) then
        Err(NoSessionMessage)
      else
        Ok(session.value)
  }

  /** The row sent by `addFavourite`. */
  datatype NewRow = NewRow(userId: string, countryName: string, countryData: Country)

  /** The row-store call a thunk makes, scoped to the session's user. */
  datatype Request =
    | SelectByUser(userId: string)
    | Insert(row: NewRow)
    | DeleteByName(userId: string, countryName: string)

  /** What running a thunk amounts to: the row-store call it issued, if it
      got that far, and the settling action it dispatched. */
  datatype Outcome = Outcome(request: Option<Request>, action: Action)

  /** `fetchFavourites`; `reply` is the select's result, whose `data` may be null. */
  function FetchFavourites(session: SessionReply, reply: Result<Option<seq<Favourite>>>): (o: Outcome)
    ensures CurrentSession(session).Err? ==>
      o == Outcome(None, Rejected(FetchOp, CurrentSession(session).message))
    ensures CurrentSession(session).Ok? ==>
      o.request == Some(SelectByUser(CurrentSession(session).value.userId))
    ensures CurrentSession(session).Ok? && reply.Ok? ==>
      o.action == FetchFulfilled(if reply.value.Some? then reply.value.value else [])
    ensures CurrentSession(session).Ok? && reply.Err? ==> o.action == Rejected(FetchOp, reply.message)
  {
    match CurrentSession(session)
    case Err(m) => Outcome(None, Rejected(FetchOp, m))
    case Ok(sess) =>
      var request := Some(SelectByUser(sess.userId));
      match reply
      case Err(m) => Outcome(request, Rejected(FetchOp, m))
      case Ok(data) => Outcome(request, FetchFulfilled(if data.Some? then data.value else []))
  }

  /** `addFavourite(country)`; `reply` is the inserted row the store returns. */
  function AddFavourite(country: Country, session: SessionReply, reply: Result<Favourite>): (o: Outcome)
    ensures CurrentSession(session).Err? ==>
      o == Outcome(None, Rejected(AddOp, CurrentSession(session).message))
    ensures CurrentSession(session).Ok? ==>
      o.request == Some(Insert(NewRow(CurrentSession(session).value.userId, country.common, country)))
    ensures CurrentSession(session).Ok? && reply.Ok? ==> o.action == AddFulfilled(reply.value)
    ensures CurrentSession(session).Ok? && reply.Err? ==> o.action == Rejected(AddOp, reply.message)
  {
    match CurrentSession(session)
    case Err(m) => Outcome(None, Rejected(AddOp, m))
    case Ok(sess) =>
      var request := Some(Insert(NewRow(sess.userId, country.common, country)));
      match reply
      case Err(m) => Outcome(request, Rejected(AddOp, m))
      case Ok(row) => Outcome(request, AddFulfilled(row))
  }

  /** `removeFavourite(name)`; `deleteError` is the delete's error, if any.
      A delete that matched no row is still a success. */
  function RemoveFavourite(name: string, session: SessionReply, deleteError: Option<string>): (o: Outcome)
    ensures CurrentSession(session).Err? ==>
      o == Outcome(None, Rejected(RemoveOp, CurrentSession(session).message))
    ensures CurrentSession(session).Ok? ==>
      o.request == Some(DeleteByName(CurrentSession(session).value.userId, name))
    ensures CurrentSession(session).Ok? && deleteError.None? ==> o.action == RemoveFulfilled(name)
    ensures CurrentSession(session).Ok? && deleteError.Some? ==>
      o.action == Rejected(RemoveOp, deleteError.value)
  {
    match CurrentSession(session)
    case Err(m) => Outcome(None, Rejected(RemoveOp, m))
    case Ok(sess) =>
      var request := Some(DeleteByName(sess.userId, name));
      match deleteError
      case Some(m) => Outcome(request, Rejected(RemoveOp, m))
      case None => Outcome(request, RemoveFulfilled(name))
  }

  /** Dispatching a thunk: its `pending` action, then its settling action. */
  function Dispatch(s: State, o: Outcome): (r: State)
    requires !o.action.Pending?
    ensures !r.loading
    ensures o.action.Rejected? ==> r.favourites == s.favourites && r.error == Some(o.action.message)
    ensures !o.action.Rejected? ==> r.error == None
  {
    Reduce(Reduce(s, Pending(OpOf(o.action))), o.action)
  }

  // ---------------------------------------------------------------------
  // Properties relating several operations

  /** Without a usable session every operation rejects with the session
      check's message (the fixed one unless `getSession` threw), contacts
      no row store, and leaves the list as it was, whatever the row store
      would have answered. */
  lemma NoSessionRejectsAll(s: State, session: SessionReply, country: Country, name: string,
                            rows: Result<Option<seq<Favourite>>>, row: Result<Favourite>,
                            deleteError: Option<string>)
    requires CurrentSession(session).Err?
    ensures var msg := if session.Threw? then session.message else NoSessionMessage;
      var os := [FetchFavourites(session, rows), AddFavourite(country, session, row),
                 RemoveFavourite(name, session, deleteError)];
      forall k :: 0 <= k < |os| ==>
        os[k].request == None
        && os[k].action.Rejected? && os[k].action.message == msg
        && Dispatch(s, os[k]).favourites == s.favourites
        && Dispatch(s, os[k]).error == Some(msg)
  {
  }

  /** Removing a name nobody has saved changes neither the list nor `error`. */
  lemma {:induction false} RemoveAbsentIsNoOp(s: State, name: string)
    requires forall i :: 0 <= i < |s.favourites| ==> s.favourites[i].countryName != name
    ensures Reduce(s, RemoveFulfilled(name)) == s.(loading := false)
  {
    FilterKeepsAll(s.favourites, (f: Favourite) => f.countryName != name);
  }

  /** Add then remove of the same country, both fulfilled: the list comes
      back exactly when no earlier entry carried that name; otherwise those
      earlier entries are gone as well. The inserted row carries the
      country's common name, as `addFavourite` builds it. */
  lemma {:induction false} AddThenRemove(s: State, row: Favourite, country: Country)
    requires row.countryName == country.common
    ensures var after := Reduce(Reduce(s, AddFulfilled(row)), RemoveFulfilled(country.common));
      after.favourites == WithoutName(s.favourites, country.common)
      && (after.favourites == s.favourites <==>
          forall i :: 0 <= i < |s.favourites| ==> s.favourites[i].countryName != country.common)
  {
    var name := country.common;
    FilterSnoc(s.favourites, row, (f: Favourite) => f.countryName != name);
    var after := Reduce(Reduce(s, AddFulfilled(row)), RemoveFulfilled(name));
    assert after.favourites == WithoutName(s.favourites, name);
    if forall i :: 0 <= i < |s.favourites| ==> s.favourites[i].countryName != name {
      FilterKeepsAll(s.favourites, (f: Favourite) => f.countryName != name);
    } else {
      var i :| 0 <= i < |s.favourites| && s.favourites[i].countryName == name;
      assert WithoutName(s.favourites, name) != s.favourites;
    }
  }
}
