/** The heart-shaped button on a country card: whether the country is a
    favourite, what a click dispatches, and when the button is shown and
    enabled. */
module FavouriteButton {
  import opened Domain
  import opened Favourites

  /** Some saved entry carries the country's common name. */
  function IsFavourite(favs: seq<Favourite>, country: Country): (r: bool)
    ensures r <==> exists i :: 0 <= i < |favs| && favs[i].countryName == country.common
  {
    if |favs| == 0 then false
    else favs[0].countryName == country.common || IsFavourite(favs[1..], country)
  }

  /** What a click asks for. */
  datatype Intent = RemoveIntent(name: string) | AddIntent(country: Country)

  /** `toggleFavourite`: remove by common name when saved, otherwise add
      the whole country. */
  function ToggleIntent(favs: seq<Favourite>, country: Country): (i: Intent)
    ensures i.RemoveIntent? <==> IsFavourite(favs, country)
    ensures i.RemoveIntent? ==> i.name == country.common
    ensures i.AddIntent? ==> i.country == country
  {
    if IsFavourite(favs, country) then RemoveIntent(country.common) else AddIntent(country)
  }

  /** The rendered button: its icon is filled and its colour "error" for a
      favourite, outlined and "primary" otherwise. */
  datatype Button = Button(disabled: bool, filled: bool, color: string, tooltip: string)

  /** Nothing is rendered without a signed-in user; the button is disabled
      while any favourites operation is loading. */
  function Render(signedIn: bool, s: State, country: Country): (r: Option<Button>)
    ensures r.None? <==> !signedIn
    ensures r.Some? ==> r.value.disabled == s.loading
    ensures r.Some? ==> (r.value.filled <==> IsFavourite(s.favourites, country))
    ensures r.Some? ==> r.value.color == (if r.value.filled then "error" else "primary")
    ensures r.Some? ==>
      r.value.tooltip == (if r.value.filled then "Remove from favourites" else "Add to favourites")
  {
    if !signedIn then None
    else
      var fav := IsFavourite(s.favourites, country);
      Some(Button(
        s.loading,
        fav,
        if fav then "error" else "primary",
        if fav then "Remove from favourites" else "Add to favourites"))
  }

  /** What a click on the button dispatches: nothing when the button is
      absent or disabled, otherwise the toggle. */
  function Click(signedIn: bool, s: State, country: Country): (r: Option<Intent>)
    ensures r.Some? <==> signedIn && !s.loading
    ensures r.Some? ==> r.value == ToggleIntent(s.favourites, country)
  {
    if signedIn && !s.loading then Some(ToggleIntent(s.favourites, country)) else None
  }

  /** Running the thunk a toggle intent names, given the session and the
      row store's answers: without a session nothing reaches the row store;
      otherwise a removal deletes the user's row with that name and an
      addition inserts the user's row for the country. */
  function RunIntent(i: Intent, session: SessionReply, inserted: Result<Favourite>,
                     deleteError: Option<string>): (o: Outcome)
    ensures CurrentSession(session).Err? ==>
      o.request == None
      && o.action == Rejected(if i.RemoveIntent? then RemoveOp else AddOp, CurrentSession(session).message)
    ensures CurrentSession(session).Ok? && i.RemoveIntent? ==>
      var uid := CurrentSession(session).value.userId;
      && o.request == Some(DeleteByName(uid, i.name))
      && o.action == (if deleteError.None? then RemoveFulfilled(i.name) else Rejected(RemoveOp, deleteError.value))
    ensures CurrentSession(session).Ok? && i.AddIntent? ==>
      var uid := CurrentSession(session).value.userId;
      && o.request == Some(Insert(NewRow(uid, i.country.common, i.country)))
      && o.action == (if inserted.Ok? then AddFulfilled(inserted.value) else Rejected(AddOp, inserted.message))
  {
    match i
    case RemoveIntent(name) => RemoveFavourite(name, session, deleteError)
    case AddIntent(c) => AddFavourite(c, session, inserted)
  }

  /** The button can be clicked exactly when it is shown and enabled. */
  lemma ClickMatchesButton(signedIn: bool, s: State, country: Country)
    ensures Click(signedIn, s, country).Some? <==>
      Render(signedIn, s, country).Some? && !Render(signedIn, s, country).value.disabled
  {
  }

  /** What a click sends to the row store: nothing without a session;
      otherwise a delete of the user's row named after the country when it
      is a favourite, and an insert of the user's row for the whole
      country when it is not. */
  lemma ClickRequest(signedIn: bool, s: State, country: Country, session: SessionReply,
                     inserted: Result<Favourite>, deleteError: Option<string>)
    requires Click(signedIn, s, country).Some?
    ensures var o := RunIntent(Click(signedIn, s, country).value, session, inserted, deleteError);
      && (CurrentSession(session).Err? ==> o.request == None)
      && (CurrentSession(session).Ok? ==>
            var uid := CurrentSession(session).value.userId;
            o.request == if IsFavourite(s.favourites, country) then Some(DeleteByName(uid, country.common))
                         else Some(Insert(NewRow(uid, country.common, country))))
  {
  }

  /** A toggle that settles as fulfilled flips whether the country is a
      favourite: a removal filters every entry with the name, and an
      insertion whose returned row carries the country's common name (as
      the row `addFavourite` builds does) appends a match. A rejected
      toggle leaves the list, and so the answer, as it was. */
  lemma {:induction false} ToggleFlips(s: State, country: Country, session: SessionReply,
                                       inserted: Result<Favourite>, deleteError: Option<string>)
    requires inserted.Ok? ==> inserted.value.countryName == country.common
    ensures var o := RunIntent(ToggleIntent(s.favourites, country), session, inserted, deleteError);
      var after := Dispatch(s, o);
      && (o.action.Rejected? ==> after.favourites == s.favourites)
      && (!o.action.Rejected? ==>
            IsFavourite(after.favourites, country) == !IsFavourite(s.favourites, country))
  {
    var o := RunIntent(ToggleIntent(s.favourites, country), session, inserted, deleteError);
    var after := Dispatch(s, o);
    if !o.action.Rejected? {
      if IsFavourite(s.favourites, country) {
        assert o.action == RemoveFulfilled(country.common);
        assert !IsFavourite(after.favourites, country);
      } else {
        assert o.action == AddFulfilled(inserted.value);
        var n := |s.favourites|;
        assert after.favourites[n].countryName == country.common;
        assert IsFavourite(after.favourites, country);
      }
    }
  }
}
