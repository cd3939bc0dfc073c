/**
 Properties of the handlers taken together: Id assignment, Id uniqueness, frame
 conditions, and how one request is seen by the next.
 */
module Properties {

  import opened Optional
  import opened Unchecked
  import opened Users
  import opened Handlers

  /** Every Id in the store lies in 1..bound. */
  predicate IdsWithin(s: Store, bound: int) {
    forall i :: 0 <= i < |s| ==> 1 <= s[i].id <= bound
  }

  lemma FirstMatchIsUnique(s: Store, id: int, k: int, k': int)
    requires IsFirstMatch(s, id, k) && IsFirstMatch(s, id, k')
    ensures k == k'
  {
  }

  // ----- Create -----

  /** The Id a client puts in the body never reaches the store. */
  lemma CreateIgnoresClientId(s: Store, body: User, body': User)
    requires body.name == body'.name && body.email == body'.email && body.age == body'.age
    ensures Create(s, body) == Create(s, body')
  {
  }

  /** From the seeded list, the first create is given Id 3 and location /users/3. */
  lemma FirstCreateFromSeed(body: User)
    ensures Create(Seed, body).response == Created("/users/3", body.(id := 3))
  {
    assert MaxId(Seed) == 2;
    assert Decimal.Show(3) == "3";
  }

  lemma {:induction false} CreatePreservesUniqueIds(s: Store, body: User)
    requires UniqueIds(s) && NoIdOverflow(s)
    ensures UniqueIds(Create(s, body).store)
  {
    var r := Create(s, body);
    forall i, j | 0 <= i < |r.store| && 0 <= j < |r.store| && i != j
      ensures r.store[i].id != r.store[j].id
    {
      if i < |s| && j < |s| {
        assert r.store[i] == r.store[..|s|][i] == s[i];
        assert r.store[j] == r.store[..|s|][j] == s[j];
      } else if i < |s| {
        assert r.store[i] == r.store[..|s|][i] == s[i];
      } else {
        assert r.store[j] == r.store[..|s|][j] == s[j];
      }
    }
  }

  /** Without the overflow guard, unchecked `Max + 1` can hand out an Id already in use. */
  lemma CreateAtMaxIdWrapsToDuplicate(body: User)
    ensures var s := [User(MaxInt32, None, None, 0), User(MinInt32, None, None, 0)];
      UniqueIds(s) && !NoIdOverflow(s) && Create(s, body).response.user.id == MinInt32
      && !UniqueIds(Create(s, body).store)
  {
    var s := [User(MaxInt32, None, None, 0), User(MinInt32, None, None, 0)];
    assert MaxId(s) == MaxInt32;
    var s' := Create(s, body).store;
    assert s'[1].id == s'[2].id;
  }

  /** Following the Location header of a create finds the created record. */
  lemma GetAfterCreate(s: Store, body: User)
    requires NoIdOverflow(s)
    ensures var r := Create(s, body);
      GetById(r.store, r.response.user.id).response == Ok(r.response.user)
  {
    var r := Create(s, body);
    var u := r.response.user;
    var g := GetById(r.store, u.id);
    assert IsFirstMatch(r.store, u.id, |s|) by {
      forall j | 0 <= j < |s| ensures r.store[j].id != u.id {
        assert r.store[j] == r.store[..|s|][j] == s[j];
      }
    }
    var k :| IsFirstMatch(r.store, u.id, k) && g.response.user == r.store[k];
    FirstMatchIsUnique(r.store, u.id, k, |s|);
  }

  // ----- Update -----

  /** An update never changes any Id, so it keeps Ids unique. */
  lemma UpdatePreservesUniqueIds(s: Store, id: Int32, body: User)
    requires UniqueIds(s)
    ensures var s' := Update(s, id, body).store;
      |s'| == |s| && (forall i :: 0 <= i < |s| ==> s'[i].id == s[i].id) && UniqueIds(s')
  {
  }

  /** Reading an updated record gives back the supplied Name, Email and Age. */
  lemma GetAfterUpdate(s: Store, id: Int32, body: User)
    requires HasId(s, id)
    ensures var r := Update(s, id, body);
      GetById(r.store, id).response == r.response
      && r.response.user == User(id, body.name, body.email, body.age)
  {
    var r := Update(s, id, body);
    var k :| IsFirstMatch(s, id, k) && Overwritten(s, r.store, k, body) && r.response.user == r.store[k];
    assert IsFirstMatch(r.store, id, k);
    var g := GetById(r.store, id);
    var k' :| IsFirstMatch(r.store, id, k') && g.response.user == r.store[k'];
    FirstMatchIsUnique(r.store, id, k, k');
  }

  // ----- Delete -----

  /** Cutting position `k` out of a sequence keeps both sides and loses exactly `s[k]`. */
  lemma CutOutOne(s: Store, k: int)
    requires 0 <= k < |s|
    ensures var s' := s[..k] + s[k + 1..];
      s'[..k] == s[..k] && s'[k..] == s[k + 1..] && multiset(s') + multiset{s[k]} == multiset(s)
  {
    var s' := s[..k] + s[k + 1..];
    assert s == s[..k] + [s[k]] + s[k + 1..];
    assert s'[..k] == s[..k];
    assert s'[k..] == s[k + 1..];
  }

  /** Delete takes out exactly one record, the first with the Id, and keeps the rest in order. */
  lemma DeleteRemovesOneRecord(s: Store, id: Int32)
    requires HasId(s, id)
    ensures var k := FindFirst(s, id).value;
      var s' := Delete(s, id).store;
      && s'[..k] == s[..k]
      && s'[k..] == s[k + 1..]
      && multiset(s') + multiset{s[k]} == multiset(s)
  {
    var k := FindFirst(s, id).value;
    var s' := Delete(s, id).store;
    assert s' == s[..k] + s[k + 1..];
    CutOutOne(s, k);
  }

  lemma DeletePreservesUniqueIds(s: Store, id: Int32)
    requires UniqueIds(s)
    ensures UniqueIds(Delete(s, id).store)
  {
    if HasId(s, id) {
      var s' := Delete(s, id).store;
      var k :| IsFirstMatch(s, id, k) && s' == s[..k] + s[k + 1..];
      forall i | 0 <= i < |s'| ensures s'[i] == s[if i < k then i else i + 1] { }
    }
  }

  /** With unique Ids, a deleted Id cannot be found any more. */
  lemma GetAfterDelete(s: Store, id: Int32)
    requires UniqueIds(s)
    ensures GetById(Delete(s, id).store, id).response == NotFound
  {
    var s' := Delete(s, id).store;
    if HasId(s, id) {
      var k :| IsFirstMatch(s, id, k) && s' == s[..k] + s[k + 1..];
      forall i | 0 <= i < |s'| ensures s'[i].id != id {
        assert s'[i] == s[if i < k then i else i + 1];
      }
    }
  }

  /** Deleting the record with the largest Id leaves only smaller Ids behind. */
  lemma DeleteMaxLowersBound(s: Store)
    requires |s| > 0 && UniqueIds(s) && IdsWithin(s, MaxId(s))
    ensures IdsWithin(Delete(s, MaxId(s)).store, MaxId(s) - 1)
  {
    var m := MaxId(s);
    var s' := Delete(s, m).store;
    var k :| IsFirstMatch(s, m, k) && s' == s[..k] + s[k + 1..];
    forall i | 0 <= i < |s'| ensures 1 <= s'[i].id <= m - 1 {
      var i0 := if i < k then i else i + 1;
      assert s'[i] == s[i0];
    }
  }

  /** When every Id is in 1..bound, the next Id is at most bound + 1, and is exactly that when bound is held. */
  lemma NextIdWithin(s: Store, bound: int)
    requires IdsWithin(s, bound) && 0 <= bound < MaxInt32
    ensures NextId(s) <= bound + 1
    ensures NextId(s) == bound + 1 <==> HasId(s, bound) || bound == 0
  {
    if |s| > 0 {
      var j :| 0 <= j < |s| && s[j].id == MaxId(s);
      assert 1 <= s[0].id <= bound;
    }
  }

  /**
   After the record with the largest Id is deleted, the next create is given an Id no
   larger than the deleted one; it is that very Id exactly when the Id just below is
   still held, or the deleted Id was 1.
   */
  lemma DeleteMaxThenCreate(s: Store, m: Int32, s': Store)
    requires |s| > 0 && UniqueIds(s) && IdsWithin(s, MaxId(s))
    requires m == MaxId(s) && s' == Delete(s, m).store
    ensures NextId(s') <= m
    ensures NextId(s') == m <==> HasId(s', m - 1) || m == 1
  {
    DeleteMaxLowersBound(s);
    assert 1 <= s[0].id <= m;
    NextIdWithin(s', m - 1);
  }

  /** On the seeded list: DELETE /users/2, then POST, hands out Id 2 again. */
  lemma SeedDeleteThenCreateReusesId(body: User)
    ensures Create(Delete(Seed, 2).store, body).response.user.id == 2
  {
    assert MaxId(Seed) == 2;
    assert Delete(Seed, 2).store == [Seed[0]];
  }

  /** Ids are not handed out monotonically: deleting 5 from Ids {1, 5} makes the next create return 2. */
  lemma DeleteMaxCanLowerNextId(body: User)
    ensures var s := [User(1, None, None, 0), User(5, None, None, 0)];
      Create(Delete(s, 5).store, body).response.user.id == 2
  {
    var s := [User(1, None, None, 0), User(5, None, None, 0)];
    assert FindFirst(s, 5) == Some(1);
    assert Delete(s, 5).store == [s[0]];
  }

  // ----- Whole request sequences -----

  /** Reads change nothing, so dropping them from a request sequence gives the same list. */
  lemma {:induction false} ReadsDoNotAffectLaterRequests(s: Store, read: Request, reqs: seq<Request>)
    requires read.GetUsers? || read.GetUser?
    ensures Run(s, [read] + reqs) == Run(s, reqs)
  {
    assert ([read] + reqs)[1..] == reqs;
  }

  /** Each surviving record of a delete is one of the records before it. */
  lemma DeleteKeepsRecords(s: Store, id: Int32)
    ensures var s' := Delete(s, id).store;
      forall i :: 0 <= i < |s'| ==> exists j :: 0 <= j < |s| && s'[i] == s[j]
  {
    var s' := Delete(s, id).store;
    if HasId(s, id) {
      var k :| IsFirstMatch(s, id, k) && s' == s[..k] + s[k + 1..];
      forall i | 0 <= i < |s'| ensures exists j :: 0 <= j < |s| && s'[i] == s[j] {
        assert s'[i] == s[if i < k then i else i + 1];
      }
    } else {
      forall i | 0 <= i < |s'| ensures exists j :: 0 <= j < |s| && s'[i] == s[j] {
        assert s'[i] == s[i];
      }
    }
  }

  lemma CreateKeepsIdsBounded(s: Store, body: User, bound: int)
    requires UniqueIds(s) && IdsWithin(s, bound) && 0 <= bound < MaxInt32
    ensures UniqueIds(Create(s, body).store) && IdsWithin(Create(s, body).store, bound + 1)
  {
    assert NoIdOverflow(s);
    CreatePreservesUniqueIds(s, body);
    var s' := Create(s, body).store;
    forall i | 0 <= i < |s'| ensures 1 <= s'[i].id <= bound + 1 {
      if i < |s| { assert s'[i] == s'[..|s|][i] == s[i]; }
    }
  }

  lemma HandleKeepsIdsBounded(s: Store, req: Request, bound: int)
    requires UniqueIds(s) && IdsWithin(s, bound) && 0 <= bound < MaxInt32
    ensures UniqueIds(Handle(s, req).store) && IdsWithin(Handle(s, req).store, bound + 1)
  {
    match req
    case PostUser(body) =>
      CreateKeepsIdsBounded(s, body, bound);
    case GetUsers =>
    case GetUser(id) =>
    case PutUser(id, body) =>
      UpdatePreservesUniqueIds(s, id, body);
    case DeleteUser(id) =>
      DeletePreservesUniqueIds(s, id);
      DeleteKeepsRecords(s, id);
  }

  lemma {:induction false} RunKeepsIdsUnique(s: Store, reqs: seq<Request>, bound: int)
    requires UniqueIds(s) && IdsWithin(s, bound) && 0 <= bound && bound + |reqs| <= MaxInt32
    ensures UniqueIds(Run(s, reqs)) && IdsWithin(Run(s, reqs), bound + |reqs|)
    decreases |reqs|
  {
    if |reqs| > 0 {
      HandleKeepsIdsBounded(s, reqs[0], bound);
      RunKeepsIdsUnique(Handle(s, reqs[0]).store, reqs[1..], bound + 1);
    }
  }

  /**
   Starting from the seeded list, any run of fewer than 2^31 - 2 requests leaves the
   Ids unique and positive: no create can reach the wrap-around.
   */
  lemma SeededRunKeepsIdsUnique(reqs: seq<Request>)
    requires |reqs| <= MaxInt32 - 2
    ensures UniqueIds(Run(Seed, reqs))
    ensures IdsWithin(Run(Seed, reqs), 2 + |reqs|)
  {
    RunKeepsIdsUnique(Seed, reqs, 2);
  }
}
