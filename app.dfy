/**
 The decision logic of the user endpoints of app.py: which status code and
 which payload each handler answers with, given its query parameters and the
 registry. Serialisation and routing are not modelled.
 */
module App {
  import opened Wrappers
  import opened Users

  /** The JSON bodies the handlers produce. `null` fields are `None`. */
  datatype Payload =
    | Message(text: string)
    | UserList(users: seq<string>, total: int)
    | UserInfo(name: string, displayName: string, status: Option<string>, createdAt: Option<string>)

  datatype Response = Response(status: int, payload: Payload)

  const MissingParameters := Response(400, Message("Missing parameters"))
  const UserNotFound := Response(404, Message("User not found"))
  const NameInUse := Response(409, Message("This name is already in use"))
  const UserAdded := Response(201, Message("User successfully added"))

  /** Python truthiness of `request.args.get(p)`: absent and empty both count as missing. */
  predicate Present(p: Option<string>)
  {
    p.Some? && p.value != ""
  }

  /**
   The only modelled part of `datetime_from_unix`: the 400 answer for a missing
   or empty `timestamp`. `None` means the handler goes on to the calendar
   conversion, which is not part of this model.
   */
  function FromUnixGuard(timestamp: Option<string>): (r: Option<Response>)
    ensures r.Some? <==> !Present(timestamp)
    ensures r.Some? ==> r.value.status == 400 && r.value.payload == Message("Missing parameters")
  {
    if !Present(timestamp) then Some(MissingParameters) else None
  }

  /** `users_get_all`: every stored name once, with `total` the number of users. */
  function UsersGetAll(reg: Registry): (r: Response)
    reads reg
    requires reg.Valid()
    ensures r.status == 200 && r.payload.UserList?
    ensures r.payload.total == |r.payload.users| == |reg.users|
    ensures NoDuplicates(r.payload.users)
    ensures forall k :: k in r.payload.users <==> k in reg.users
  {
    var users := reg.GetUsers();
    Response(200, UserList(users, |users|))
  }

  /**
   `user_get`: 400 without a non-empty `name`, before the registry is looked
   at; 404 when no user has that name up to case; otherwise 200 with the
   lower-cased name, the stored display name and two fields that are always null.
   */
  function UserGet(reg: Registry, name: Option<string>): (r: Response)
    reads reg
    requires reg.Valid()
    ensures !Present(name) ==> r == MissingParameters
    ensures Present(name) && Lower(name.value) !in reg.users ==> r == UserNotFound
    ensures Present(name) && Lower(name.value) in reg.users ==>
      r == Response(200, UserInfo(Lower(name.value), reg.users[Lower(name.value)].displayName, None, None))
    ensures r.status == 200 ==> Lower(r.payload.displayName) == r.payload.name
  {
    if !Present(name) then MissingParameters
    else
      match reg.GetUser(name.value)
      case None => UserNotFound
      case Some(user) => Response(200, UserInfo(Lower(name.value), user.displayName, user.status, user.createdAt))
  }

  /**
   `user_add`: 400 unless both parameters are non-empty, 409 when the name is
   taken up to case, 201 after storing the new user. Only the 201 answer
   changes the registry.
   */
  method UserAdd(reg: Registry, name: Option<string>, password: Option<string>) returns (r: Response)
    requires reg.Valid()
    modifies reg
    ensures reg.Valid()
    ensures r.status != 201 ==> reg.users == old(reg.users) && reg.order == old(reg.order)
    ensures !Present(name) || !Present(password) ==> r == MissingParameters
    ensures Present(name) && Present(password) ==>
      (r == NameInUse <==> Lower(name.value) in old(reg.users))
    ensures r == UserAdded <==>
      Present(name) && Present(password) && Lower(name.value) !in old(reg.users)
    ensures r == UserAdded ==>
      reg.users == old(reg.users)[Lower(name.value) := NewRecord(name.value, password.value)] &&
      reg.order == old(reg.order) + [Lower(name.value)]
  {
    if !Present(name) || !Present(password) {
      return MissingParameters;
    }
    var ok := reg.AddUser(name.value, password.value);
    if !ok {
      return NameInUse;
    }
    r := UserAdded;
  }

  /**
   The end-to-end exchange: adding Carol succeeds, looking up "carol" then
   answers with the original casing, and adding a case variant is refused.
   */
  method CarolScenario() returns (added: Response, found: Response, again: Response)
    ensures added == UserAdded
    ensures found == Response(200, UserInfo("carol", "Carol", None, None))
    ensures again == NameInUse
  {
    var reg := new Registry();
    added := UserAdd(reg, Some("Carol"), Some("secret"));
    assert Lower("Carol") == "carol" == Lower("carol") == Lower("CAROL");
    found := UserGet(reg, Some("carol"));
    again := UserAdd(reg, Some("CAROL"), Some("other"));
  }
}
