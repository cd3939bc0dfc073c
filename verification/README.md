# UserManagementAPI user store, in Dafny

A model of the in-memory user service in `UserManagementAPI/Program.cs`. The service keeps a
`List<User>` that starts with two records, Alice (Id 1) and Bob (Id 2). Five route handlers
work on that list:

- `POST /users` gives the posted user the Id `Max(Id) + 1`, or 1 when the list is empty, and
  appends it.
- `GET /users` returns the list.
- `GET /users/{id}` returns the first record with that Id, or NotFound.
- `PUT /users/{id}` overwrites Name, Email and Age of the first record with that Id, or returns
  NotFound.
- `DELETE /users/{id}` removes the first record with that Id, or returns NotFound.

The model is functional. The list is a `seq<User>`. Each handler is a function from the list and
its request data to a `Step`, which holds the HTTP result and the list as it stands afterwards.
`Request` and `Handle` dispatch one request, and `Run` serves a sequence of requests in order.

Files:

- `optional.dfy`: `Option`, standing in for a nullable reference.
- `unchecked.dfy`: the C# `int` range and the unchecked (wrapping) `+`.
- `decimal.dfy`: the decimal rendering of an `int` used in the Location header, and its inverse.
- `users.dfy`: the `User` record, the seeded list, first-match lookup, `Max(Id)` and the next Id.
- `handlers.dfy`: the result type, the five handlers, request dispatch and request sequences.
- `properties.dfy`: the properties that relate handlers to each other.

The handlers do no validation. Create and Update copy whatever Name, Email and Age arrive,
nulls included. Create always overwrites the client's Id. There is no token, logging or
exception middleware.

## Model

| member | source | states |
|---|---|---|
| Unchecked.Add | UserManagementAPI/Program.cs:16 | C#'s unchecked `int` addition: the true sum when it fits, otherwise the sum shifted by 2^32 back into range |
| Users.FindFirst | UserManagementAPI/Program.cs:30 | `FirstOrDefault(u => u.Id == id)`: the position of the first record with that Id and no earlier one; None exactly when no record has the Id |
| Users.MaxId | UserManagementAPI/Program.cs:16 | `Max(u => u.Id)` on a non-empty list: an Id that occurs in the list, and no record has a larger one |
| Users.NextId | UserManagementAPI/Program.cs:16 | the assigned Id is 1 on an empty list, otherwise max Id + 1; below the overflow point it exceeds every Id present; at `int.MaxValue` it wraps to `int.MinValue` |
| Decimal.ShowNat | UserManagementAPI/Program.cs:18 | a natural number is rendered as digits with no leading zero, and reading the digits back gives the number |
| Decimal.Show | UserManagementAPI/Program.cs:18 | an `int` in the Location header reads back as the same `int`, is written canonically (no leading zero, no "-0"), and begins with a digit exactly when it is non-negative |
| Decimal.CanonicalIsShown | UserManagementAPI/Program.cs:18 | any canonical text that reads as `n` is exactly `Show(n)`, so the rendering is fully determined |
| Handlers.Location | UserManagementAPI/Program.cs:18 | the Location header is `/users/` followed by the canonical decimal text of the new record's Id |
| Handlers.Create | UserManagementAPI/Program.cs:14-19 | result is Created; exactly one record is appended; earlier records are unchanged and in order; Name, Email and Age are copied verbatim; the Id is the next Id; without overflow the new Id was not in use |
| Handlers.GetAll | UserManagementAPI/Program.cs:22-25 | result is OkList with the whole list in insertion order; the list is not modified |
| Handlers.GetById | UserManagementAPI/Program.cs:28-32 | result is Ok with the first record carrying the Id, or NotFound exactly when no record carries it; the list is not modified |
| Handlers.Update | UserManagementAPI/Program.cs:35-45 | an absent Id gives NotFound with the list untouched; otherwise the first match gets the supplied Name, Email and Age, keeps its Id and position, every other record and the length stay unchanged, and the result is Ok with the updated record |
| Handlers.Delete | UserManagementAPI/Program.cs:48-55 | an absent Id gives NotFound with the list untouched; otherwise exactly the first match is cut out, the length drops by one, the rest keep their order, and the result is NoContent |
| Handlers.Handle | UserManagementAPI/Program.cs:14-55 | the two GET routes never change the list; only POST answers Created and only GET /users answers with a list |
| Properties.CreateIgnoresClientId | UserManagementAPI/Program.cs:16 | two posted bodies that differ only in their Id give the same result and the same list |
| Properties.FirstCreateFromSeed | UserManagementAPI/Program.cs:7-18 | from the seeded list, the first create gives Id 3 and location `/users/3`, with the posted fields |
| Properties.CreatePreservesUniqueIds | UserManagementAPI/Program.cs:16-17 | if Ids are pairwise distinct and max Id + 1 does not overflow, they are still distinct after a create |
| Properties.CreateAtMaxIdWrapsToDuplicate | UserManagementAPI/Program.cs:16 | a list holding `int.MaxValue` and `int.MinValue` as Ids gets the new Id `int.MinValue`, so the wrap breaks uniqueness |
| Properties.GetAfterCreate | UserManagementAPI/Program.cs:16-31 | without overflow, a get by the created Id returns exactly the created record |
| Properties.UpdatePreservesUniqueIds | UserManagementAPI/Program.cs:40-42 | an update keeps every position's Id and the length, so distinct Ids stay distinct |
| Properties.GetAfterUpdate | UserManagementAPI/Program.cs:37-44 | after updating a present Id, a get by that Id returns the update's result, which holds that Id and the supplied Name, Email and Age |
| Properties.DeleteRemovesOneRecord | UserManagementAPI/Program.cs:50-53 | delete leaves the records before the first match as they were, shifts the records after it down by one, and the multiset of records loses exactly that one |
| Properties.DeletePreservesUniqueIds | UserManagementAPI/Program.cs:53 | distinct Ids stay distinct after a delete |
| Properties.GetAfterDelete | UserManagementAPI/Program.cs:30-53 | with unique Ids, a get by an Id that was just deleted gives NotFound |
| Properties.DeleteMaxThenCreate | UserManagementAPI/Program.cs:16-53 | with unique positive Ids, after deleting the record with the largest Id the next create's Id is at most that Id, and equals it exactly when the Id just below it is still held or it was 1 |
| Properties.DeleteMaxCanLowerNextId | UserManagementAPI/Program.cs:16-53 | deleting Id 5 from Ids {1, 5} makes the next create return 2, so Ids are not monotonic |
| Properties.SeedDeleteThenCreateReusesId | UserManagementAPI/Program.cs:7-53 | from the seeded list, deleting Id 2 and then creating hands out Id 2 again |
| Properties.ReadsDoNotAffectLaterRequests | UserManagementAPI/Program.cs:22-31 | a GET placed before any request sequence leaves the final list unchanged |
| Properties.RunKeepsIdsUnique | UserManagementAPI/Program.cs:14-55 | if Ids are unique and within 1..b, then after n requests with b + n at most `int.MaxValue` they are still unique and within 1..b+n |
| Properties.SeededRunKeepsIdsUnique | UserManagementAPI/Program.cs:7-55 | from the seeded list, any sequence of up to 2^31 - 3 requests leaves the Ids unique and within 1..2+n, so the wrap is never reached |

## Left out

- ASP.NET hosting, routing, JSON model binding and `app.Run` are framework plumbing. The handlers receive already-bound values. A request the binder rejects, such as a missing body or a non-numeric `{id}`, never reaches a handler and is not modelled.
- The `GET /` endpoint that answers "Hello World!" is not modelled. It does not touch the store.
- Field validation, bearer-token authentication, and logging or exception-handling middleware are not modelled, because the code has none of them.
- Concurrent requests racing on the shared list, for example two creates computing the same Id, are not modelled. The model serves requests one at a time.
- Reference aliasing is not modelled. The source mutates the stored `User` object in place and returns that same object. The model replaces the list entry with a new value. `List.Remove` removes the object `FirstOrDefault` found, which is the first record with the Id, so the model cuts out exactly that position.
- Decimal.Show: renders Ids the way the invariant culture does, with ASCII digits and a `-` sign. A culture with a different negative sign is not modelled. Negative Ids arise only after the wrap-around.
- Decimal.Parse: accepts only an optional `-` followed by digits, and has no `int` range check. It is the inverse used to state what the Location header names. It is not a model of ASP.NET's route-value parsing, which also accepts a `+` sign and whitespace and rejects values outside the `int` range.
