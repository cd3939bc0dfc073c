/**
 The user record and the in-memory list that holds them: the list order is insertion
 order, and the get, update and delete handlers look a record up by the first entry
 carrying the Id.
 */
module Users {

  import opened Optional
  import opened Unchecked

  /** `Name` and `Email` are nullable strings; `Id` and `Age` are C# `int`s. */
  datatype User = User(id: Int32, name: Option<string>, email: Option<string>, age: Int32)

  type Store = seq<User>

  /** The two records the service starts with. */
  const Seed: Store := [
    User(1, Some("Alice"), Some("alice@example.com"), 25),
    User(2, Some("Bob"), Some("bob@example.com"), 30)
  ]

  predicate HasId(s: Store, id: int) {
    exists i :: 0 <= i < |s| && s[i].id == id
  }

  /** No two entries of the store share an Id. */
  predicate UniqueIds(s: Store) {
    forall i, j :: 0 <= i < |s| && 0 <= j < |s| && i != j ==> s[i].id != s[j].id
  }

  /** `k` is the position `FirstOrDefault(u => u.Id == id)` stops at. */
  predicate IsFirstMatch(s: Store, id: int, k: int) {
    && 0 <= k < |s|
    && s[k].id == id
    && forall j :: 0 <= j < k ==> s[j].id != id
  }

  /** The position of the first record with Id `id`, scanning from the front. */
  function FindFirst(s: Store, id: int): (r: Option<nat>)
    ensures r.Some? ==> IsFirstMatch(s, id, r.value)
    ensures r.None? <==> !HasId(s, id)
  {
    if |s| == 0 then None
    else if s[0].id == id then Some(0)
    else match FindFirst(s[1..], id)
      case None =>
        assert forall i :: 1 <= i < |s| ==> s[i] == s[1..][i - 1];
        None
      case Some(k) => Some(k + 1)
  }

  /** `Max(u => u.Id)`: a left-to-right fold keeping the larger Id. */
  function MaxId(s: Store): (m: Int32)
    requires |s| > 0
    ensures HasId(s, m)
    ensures forall i :: 0 <= i < |s| ==> s[i].id <= m
    decreases |s|
  {
    if |s| == 1 then s[0].id
    else
      var m := MaxId(s[..|s| - 1]);
      assert forall i :: 0 <= i < |s| - 1 ==> s[..|s| - 1][i] == s[i];
      if s[|s| - 1].id > m then s[|s| - 1].id else m
  }

  /** `Max + 1` cannot wrap around. */
  predicate NoIdOverflow(s: Store) {
    |s| == 0 || MaxId(s) < MaxInt32
  }

  /** `users.Any() ? users.Max(u => u.Id) + 1 : 1`, with C#'s unchecked `+`. */
  function NextId(s: Store): (id: Int32)
    ensures |s| == 0 ==> id == 1
    ensures |s| > 0 && MaxId(s) < MaxInt32 ==> id == MaxId(s) + 1
    ensures NoIdOverflow(s) ==> forall i :: 0 <= i < |s| ==> s[i].id < id
    ensures !NoIdOverflow(s) ==> id == MinInt32
  {
    if |s| == 0 then 1 else Add(MaxId(s), 1)
  }
}
