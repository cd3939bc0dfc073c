/**
 The five `/users` route handlers. Each takes the current list and its request data and
 gives back the HTTP result together with the list as it stands afterwards.
 */
module Handlers {

  import opened Optional
  import opened Unchecked
  import opened Users
  import Decimal

  /** The `Results.*` values the handlers produce. */
  datatype Response =
    | Created(location: string, user: User)
    | Ok(user: User)
    | OkList(users: seq<User>)
    | NotFound
    | NoContent

  datatype Step = Step(response: Response, store: Store)

  const UsersPrefix: string := "/users/"

  /** The Location header `/users/{Id}` of a created record. */
  function Location(id: Int32): (loc: string)
    ensures |loc| > |UsersPrefix| && loc[..|UsersPrefix|] == UsersPrefix
    ensures Decimal.Parse(loc[|UsersPrefix|..]) == Some(id)
    ensures Decimal.IsCanonical(loc[|UsersPrefix|..])
  {
    var digits := Decimal.Show(id);
    var loc := UsersPrefix + digits;
    assert loc[|UsersPrefix|..] == digits;
    loc
  }

  /** `s'` is `s` with the Name, Email and Age of entry `k` taken from `body`, and nothing else changed. */
  predicate Overwritten(s: Store, s': Store, k: int, body: User) {
    && |s'| == |s|
    && 0 <= k < |s|
    && s'[k].id == s[k].id
    && s'[k].name == body.name
    && s'[k].email == body.email
    && s'[k].age == body.age
    && forall j :: 0 <= j < |s| && j != k ==> s'[j] == s[j]
  }

  /** POST /users: the client's Id is replaced by the next free one and the record is appended. */
  function Create(s: Store, body: User): (r: Step)
    ensures r.response.Created?
    ensures |r.store| == |s| + 1 && r.store[..|s|] == s
    ensures r.store[|s|] == r.response.user
    ensures r.response.user.id == NextId(s)
    ensures r.response.user.name == body.name
    ensures r.response.user.email == body.email
    ensures r.response.user.age == body.age
    ensures r.response.location == Location(r.response.user.id)
    ensures NoIdOverflow(s) ==> !HasId(s, r.response.user.id)
  {
    var user := body.(id := NextId(s));
    var s' := s + [user];
    assert s'[..|s|] == s;
    Step(Created(Location(user.id), user), s')
  }

  /** GET /users: the whole list, in order. */
  function GetAll(s: Store): (r: Step)
    ensures r.store == s
    ensures r.response.OkList? && r.response.users == s
  {
    Step(OkList(s), s)
  }

  /** GET /users/{id}: the first record carrying `id`, if any. */
  function GetById(s: Store, id: Int32): (r: Step)
    ensures r.store == s
    ensures r.response.Ok? || r.response.NotFound?
    ensures r.response.NotFound? <==> !HasId(s, id)
    ensures r.response.Ok? ==> exists k :: IsFirstMatch(s, id, k) && r.response.user == s[k]
  {
    match FindFirst(s, id)
    case None => Step(NotFound, s)
    case Some(k) => Step(Ok(s[k]), s)
  }

  /** PUT /users/{id}: overwrite Name, Email and Age of the first record carrying `id`, unchecked. */
  function Update(s: Store, id: Int32, body: User): (r: Step)
    ensures !HasId(s, id) ==> r == Step(NotFound, s)
    ensures HasId(s, id) ==> r.response.Ok? && |r.store| == |s|
    ensures HasId(s, id) ==>
      exists k :: IsFirstMatch(s, id, k) && Overwritten(s, r.store, k, body) && r.response.user == r.store[k]
  {
    match FindFirst(s, id)
    case None => Step(NotFound, s)
    case Some(k) =>
      var user := s[k].(name := body.name, email := body.email, age := body.age);
      Step(Ok(user), s[k := user])
  }

  /** DELETE /users/{id}: remove the first record carrying `id`. */
  function Delete(s: Store, id: Int32): (r: Step)
    ensures !HasId(s, id) ==> r == Step(NotFound, s)
    ensures HasId(s, id) ==> r.response.NoContent? && |r.store| == |s| - 1
    ensures HasId(s, id) ==> exists k :: IsFirstMatch(s, id, k) && r.store == s[..k] + s[k + 1..]
  {
    match FindFirst(s, id)
    case None => Step(NotFound, s)
    case Some(k) => Step(NoContent, s[..k] + s[k + 1..])
  }

  /** One request to one of the five `/users` routes, after model binding. */
  datatype Request =
    | PostUser(body: User)
    | GetUsers
    | GetUser(id: Int32)
    | PutUser(id: Int32, body: User)
    | DeleteUser(id: Int32)

  /** Dispatch a request to its handler. */
  function Handle(s: Store, req: Request): (r: Step)
    ensures req.GetUsers? || req.GetUser? ==> r.store == s
    ensures req.PostUser? <==> r.response.Created?
    ensures req.GetUsers? <==> r.response.OkList?
  {
    match req
    case PostUser(body) => Create(s, body)
    case GetUsers => GetAll(s)
    case GetUser(id) => GetById(s, id)
    case PutUser(id, body) => Update(s, id, body)
    case DeleteUser(id) => Delete(s, id)
  }

  /** The list after serving `reqs` one after another, starting from `s`. */
  function Run(s: Store, reqs: seq<Request>): (s': Store)
    ensures |s'| <= |s| + |reqs|
    decreases |reqs|
  {
    if |reqs| == 0 then s else Run(Handle(s, reqs[0]).store, reqs[1..])
  }
}
