/**
 * auth.ts: the signed-in user kept under two keys in either localStorage
 * ("remember me") or sessionStorage, looked up in localStorage first.
 *
 * The lookups read only the stores' contents, so they are functions of the
 * two maps; the writers are methods on the two Store objects.
 */
module Auth {
  import opened Wrappers
  import opened Schema
  import opened Text
  import opened WebStorage
  import opened Unique

  const CURRENT_USER_KEY := "swaasth_buddy_current_user"
  const USER_ID_KEY := "swaasth_buddy_user_id"
  const AUTH_REQUIRED := "Authentication required"

  function Item(m: map<string, Stored>, k: string): (r: Option<Stored>)
    ensures r.Some? <==> k in m
    ensures r.Some? ==> r.value == m[k]
  {
    if k in m then Some(m[k]) else None
  }

  /** `localStorage.getItem(k)`, and when that is falsy `sessionStorage.getItem(k)`. */
  function Lookup(local: map<string, Stored>, session: map<string, Stored>, k: string): (r: Option<Stored>)
    ensures Truthy(Item(local, k)) ==> r == Item(local, k)
    ensures !Truthy(Item(local, k)) ==> r == Item(session, k)
  {
    if Truthy(Item(local, k)) then Item(local, k) else Item(session, k)
  }

  /**
   * `getCurrentUser`: the parsed document under the user key, or None when
   * neither store holds a non-empty text or the text is not JSON (the parse
   * error is caught).
   */
  function GetCurrentUser(local: map<string, Stored>, session: map<string, Stored>): (u: Option<Stored>)
    ensures u.Some? <==> Truthy(Lookup(local, session, CURRENT_USER_KEY)) && !Lookup(local, session, CURRENT_USER_KEY).value.Raw?
    ensures u.Some? ==> u == Lookup(local, session, CURRENT_USER_KEY)
  {
    var t := Lookup(local, session, CURRENT_USER_KEY);
    if !Truthy(t) || t.value.Raw? then None else t
  }

  /**
   * `getCurrentUserId`: `parseInt` of the text under the id key; a JSON
   * document starts with `{` and parses to NaN, here None.
   */
  function GetCurrentUserId(local: map<string, Stored>, session: map<string, Stored>): (id: Option<int>)
    ensures id.Some? ==> Truthy(Lookup(local, session, USER_ID_KEY)) && Lookup(local, session, USER_ID_KEY).value.Raw?
    ensures id.Some? ==> id == ParseInt(Lookup(local, session, USER_ID_KEY).value.text)
    ensures Truthy(Lookup(local, session, USER_ID_KEY)) && Lookup(local, session, USER_ID_KEY).value.Raw?
      ==> id == ParseInt(Lookup(local, session, USER_ID_KEY).value.text)
    ensures !Truthy(Lookup(local, session, USER_ID_KEY)) ==> id.None?
  {
    var t := Lookup(local, session, USER_ID_KEY);
    if !Truthy(t) then None
    else match t.value
      case Raw(s) => ParseInt(s)
      case _ => None
  }

  predicate IsAuthenticated(local: map<string, Stored>, session: map<string, Stored>) {
    GetCurrentUser(local, session).Some?
  }

  /** `user?.isPremium || false`. */
  function IsPremiumUser(local: map<string, Stored>, session: map<string, Stored>): (premium: bool)
    ensures !IsAuthenticated(local, session) ==> !premium
    ensures premium <==> exists u: User :: GetCurrentUser(local, session) == Some(UserDoc(u)) && u.isPremium
  {
    var u := GetCurrentUser(local, session);
    if u.Some? && u.value.UserDoc? then
      assert u == Some(UserDoc(u.value.user));
      u.value.user.isPremium
    else false
  }

  /** `requireAuth`: fails with "Authentication required" exactly when there is no current user. */
  function RequireAuth(local: map<string, Stored>, session: map<string, Stored>): (r: Result<Stored, string>)
    ensures r.Failure? <==> !IsAuthenticated(local, session)
    ensures r.Failure? ==> r.error == AUTH_REQUIRED
    ensures r.Success? ==> Some(r.value) == GetCurrentUser(local, session)
  {
    var u := GetCurrentUser(local, session);
    if u.None? then Failure(AUTH_REQUIRED) else Success(u.value)
  }

  /** What `setCurrentUser` leaves in the chosen store. */
  predicate Holds(m: map<string, Stored>, user: User) {
    && CURRENT_USER_KEY in m && m[CURRENT_USER_KEY] == UserDoc(user)
    && USER_ID_KEY in m && m[USER_ID_KEY] == Raw(NatToString(user.id))
  }

  /** Neither key is present. */
  predicate Cleared(m: map<string, Stored>) {
    CURRENT_USER_KEY !in m && USER_ID_KEY !in m
  }

  /** The chosen store after `setCurrentUser`'s two writes. */
  function Signed(m: map<string, Stored>, user: User): map<string, Stored> {
    m[CURRENT_USER_KEY := UserDoc(user)][USER_ID_KEY := Raw(NatToString(user.id))]
  }

  /** The two writes land on different keys, so both survive. */
  lemma SignedHolds(m: map<string, Stored>, user: User)
    ensures Holds(Signed(m, user), user)
    ensures forall k :: k != CURRENT_USER_KEY && k != USER_ID_KEY ==> Item(Signed(m, user), k) == Item(m, k)
  {
    assert CURRENT_USER_KEY[14] != USER_ID_KEY[14];
  }

  /** Removing the keys one at a time is removing both. */
  lemma RemoveBoth(m: map<string, Stored>)
    ensures m - {CURRENT_USER_KEY} - {USER_ID_KEY} == m - {CURRENT_USER_KEY, USER_ID_KEY}
    ensures Cleared(m - {CURRENT_USER_KEY, USER_ID_KEY})
  {
  }

  /**
   * The round trip: whichever store the user was written to, with the other
   * store cleared, the lookups give back the user and the user's id.
   */
  lemma SignedInUserIsFound(local: map<string, Stored>, session: map<string, Stored>, user: User)
    requires (Holds(local, user) && Cleared(session)) || (Cleared(local) && Holds(session, user))
    ensures GetCurrentUser(local, session) == Some(UserDoc(user))
    ensures GetCurrentUserId(local, session) == Some(user.id)
    ensures IsAuthenticated(local, session)
  {
    ParseIntOfNatToString(user.id, "");
    assert NatToString(user.id) + "" == NatToString(user.id);
    assert NatToString(user.id) != "";
  }

  /** A non-empty user text in localStorage decides the lookup whatever sessionStorage holds. */
  lemma LocalIsPreferred(local: map<string, Stored>, session: map<string, Stored>, other: map<string, Stored>)
    requires Truthy(Item(local, CURRENT_USER_KEY)) && Truthy(Item(local, USER_ID_KEY))
    ensures GetCurrentUser(local, session) == GetCurrentUser(local, other)
    ensures GetCurrentUserId(local, session) == GetCurrentUserId(local, other)
  {
  }

  /**
   * Where the current user comes from: the localStorage document when that
   * store holds one, and otherwise exactly what sessionStorage alone gives.
   */
  lemma CurrentUserSource(local: map<string, Stored>, session: map<string, Stored>)
    ensures GetCurrentUser(local, session).Some? ==>
      GetCurrentUser(local, session) == Item(local, CURRENT_USER_KEY)
      || (!Truthy(Item(local, CURRENT_USER_KEY)) && GetCurrentUser(local, session) == Item(session, CURRENT_USER_KEY))
    ensures Item(local, CURRENT_USER_KEY).Some? && !Item(local, CURRENT_USER_KEY).value.Raw?
      ==> GetCurrentUser(local, session) == Item(local, CURRENT_USER_KEY)
    ensures !Truthy(Item(local, CURRENT_USER_KEY)) ==> GetCurrentUser(local, session) == GetCurrentUser(map[], session)
    ensures GetCurrentUser(local, session).Some? ==> !GetCurrentUser(local, session).value.Raw?
  {
  }

  /** With both keys gone from both stores nobody is signed in. */
  lemma ClearedMeansSignedOut(local: map<string, Stored>, session: map<string, Stored>)
    requires Cleared(local) && Cleared(session)
    ensures !IsAuthenticated(local, session)
    ensures GetCurrentUserId(local, session).None?
    ensures !IsPremiumUser(local, session)
    ensures RequireAuth(local, session) == Failure(AUTH_REQUIRED)
  {
  }

  /**
   * `setCurrentUser`: both keys go out of the other store, then the user's
   * JSON and the decimal id go into the chosen one; other keys are untouched.
   */
  method SetCurrentUser(local: Store, session: Store, user: User, rememberMe: bool)
    requires local != session && local.Valid() && session.Valid()
    modifies local, session
    ensures local.Valid() && session.Valid()
    ensures rememberMe ==> local.items == Signed(old(local.items), user) && session.items == old(session.items) - {CURRENT_USER_KEY, USER_ID_KEY}
    ensures !rememberMe ==> session.items == Signed(old(session.items), user) && local.items == old(local.items) - {CURRENT_USER_KEY, USER_ID_KEY}
    ensures var chosen, other := if rememberMe then local else session, if rememberMe then session else local;
      && chosen.keys == Appended(Appended(old(chosen.keys), CURRENT_USER_KEY), USER_ID_KEY)
      && other.keys == Without(Without(old(other.keys), CURRENT_USER_KEY), USER_ID_KEY)
    ensures GetCurrentUser(local.items, session.items) == Some(UserDoc(user))
    ensures GetCurrentUserId(local.items, session.items) == Some(user.id)
  {
    var chosen, other := if rememberMe then local else session, if rememberMe then session else local;
    RemoveBoth(other.items);
    SignedHolds(chosen.items, user);
    other.RemoveItem(CURRENT_USER_KEY);
    other.RemoveItem(USER_ID_KEY);
    chosen.SetItem(CURRENT_USER_KEY, UserDoc(user));
    chosen.SetItem(USER_ID_KEY, Raw(NatToString(user.id)));
    SignedInUserIsFound(local.items, session.items, user);
  }

  /** `clearCurrentUser`: four removals, after which nobody is signed in. */
  method ClearCurrentUser(local: Store, session: Store)
    requires local != session && local.Valid() && session.Valid()
    modifies local, session
    ensures local.Valid() && session.Valid()
    ensures local.items == old(local.items) - {CURRENT_USER_KEY, USER_ID_KEY}
    ensures session.items == old(session.items) - {CURRENT_USER_KEY, USER_ID_KEY}
    ensures local.keys == Without(Without(old(local.keys), CURRENT_USER_KEY), USER_ID_KEY)
    ensures session.keys == Without(Without(old(session.keys), CURRENT_USER_KEY), USER_ID_KEY)
    ensures !IsAuthenticated(local.items, session.items)
    ensures GetCurrentUserId(local.items, session.items).None?
  {
    RemoveBoth(local.items);
    RemoveBoth(session.items);
    local.RemoveItem(CURRENT_USER_KEY);
    local.RemoveItem(USER_ID_KEY);
    session.RemoveItem(CURRENT_USER_KEY);
    session.RemoveItem(USER_ID_KEY);
    ClearedMeansSignedOut(local.items, session.items);
  }
}
