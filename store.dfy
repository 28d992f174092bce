/** The profile store behind the create, list, read, update, delete and
    match endpoints. The database is one map from id to stored row, plus the
    order in which the rows come back from an unordered query. */
module Store {
  import opened Schemas
  import opened Sequences
  import opened EmailFormat
  import opened Matching

  /** The three ways a request fails. */
  datatype Error = InvalidEmail | DuplicateEmail | NotFound

  datatype Result<T> = Ok(value: T) | Err(error: Error)

  /** No two stored profiles share an email. */
  ghost predicate EmailsUnique(m: map<Id, Record>)
  {
    forall a, b :: a in m && b in m && a != b ==> m[a].email != m[b].email
  }

  /** Every stored profile's email passes the format check. */
  ghost predicate EmailsWellFormed(m: map<Id, Record>)
  {
    forall x :: x in m ==> ValidateEmail(m[x].email)
  }

  /** Some stored profile holds `email`. */
  predicate EmailInUse(m: map<Id, Record>, email: string)
    ensures EmailInUse(m, email) <==> email in (set x | x in m :: m[x].email)
  {
    exists x :: x in m && m[x].email == email
  }

  /** Some stored profile other than `id` holds `email`. */
  predicate EmailInUseByOther(m: map<Id, Record>, email: string, id: Id)
    ensures EmailInUseByOther(m, email, id) <==> EmailInUse(m - {id}, email)
    ensures id !in m ==> (EmailInUseByOther(m, email, id) <==> EmailInUse(m, email))
  {
    var held := exists x :: x in m && x != id && m[x].email == email;
    assert held ==> EmailInUse(m - {id}, email) by {
      if held {
        var x :| x in m && x != id && m[x].email == email;
        assert x in m - {id};
      }
    }
    held
  }

  /** The row a creation request stores: its fields, with interests joined. */
  function NewRecord(u: UserCreate): (r: Record)
    ensures r.name == u.name && r.age == u.age && r.gender == u.gender
    ensures r.email == u.email && r.city == u.city
    ensures r.interests == Join(u.interests)
    ensures |u.interests| >= 1 && (forall t :: t in u.interests ==> Delimiter !in t) ==>
      Split(r.interests) == u.interests
  {
    if |u.interests| >= 1 && (forall t :: t in u.interests ==> Delimiter !in t) then
      SplitOfJoin(u.interests);
      Record(u.name, u.age, u.gender, u.email, u.city, Join(u.interests))
    else
      Record(u.name, u.age, u.gender, u.email, u.city, Join(u.interests))
  }

  /** The row after an update: each supplied field overwrites the stored one,
      supplied interests are joined first; absent fields are kept. */
  function ApplyUpdate(r: Record, u: UserUpdate): (n: Record)
    ensures n.name == (if u.name.Some? then u.name.value else r.name)
    ensures n.age == (if u.age.Some? then u.age.value else r.age)
    ensures n.gender == (if u.gender.Some? then u.gender.value else r.gender)
    ensures n.email == (if u.email.Some? then u.email.value else r.email)
    ensures n.city == (if u.city.Some? then u.city.value else r.city)
    ensures u.interests.None? ==> n.interests == r.interests
    ensures u.interests.Some? ==> n.interests == Join(u.interests.value)
    ensures u == NoChanges ==> n == r
  {
    Record(
      if u.name.Some? then u.name.value else r.name,
      if u.age.Some? then u.age.value else r.age,
      if u.gender.Some? then u.gender.value else r.gender,
      if u.email.Some? then u.email.value else r.email,
      if u.city.Some? then u.city.value else r.city,
      if u.interests.Some? then Join(u.interests.value) else r.interests)
  }

  /** `s` without `id`, the rest in their order. */
  function Without(s: seq<Id>, id: Id): (r: seq<Id>)
    ensures |r| <= |s|
    ensures forall x :: x in r <==> x in s && x != id
    ensures SubsequenceOf(r, s)
    ensures Distinct(s) ==> Distinct(r)
  {
    if |s| == 0 then []
    else
      var rest := Without(s[1..], id);
      assert forall x :: x in s <==> x == s[0] || x in s[1..];
      if s[0] == id then rest
      else
        assert ([s[0]] + rest)[1..] == rest;
        assert Distinct(s) ==> s[0] !in s[1..];
        [s[0]] + rest
  }

  /** `OFFSET skip LIMIT limit` over the rows in `s`. */
  function Page(s: seq<Id>, skip: nat, limit: nat): (r: seq<Id>)
    ensures |r| == if skip >= |s| then 0 else if limit <= |s| - skip then limit else |s| - skip
    ensures forall k :: 0 <= k < |r| ==> r[k] == s[skip + k]
  {
    if skip >= |s| then []
    else if limit <= |s| - skip then s[skip..skip + limit]
    else s[skip..]
  }

  /** The response views of the rows `ids`, in that order. */
  function Views(ids: seq<Id>, m: map<Id, Record>): (r: seq<User>)
    requires forall x :: x in ids ==> x in m
    ensures |r| == |ids|
    ensures forall k :: 0 <= k < |ids| ==> r[k] == ToUser(ids[k], m[ids[k]])
    ensures forall v :: v in r ==> v.id in ids && v == ToUser(v.id, m[v.id])
    ensures Distinct(ids) ==> forall i, j :: 0 <= i < j < |r| ==> r[i].id != r[j].id
  {
    if |ids| == 0 then []
    else [ToUser(ids[0], m[ids[0]])] + Views(ids[1..], m)
  }

  /** The views of a page are the views of the rows at positions `skip` on. */
  lemma PagedViews(s: seq<Id>, m: map<Id, Record>, skip: nat, limit: nat)
    requires forall x :: x in s ==> x in m
    ensures forall x :: x in Page(s, skip, limit) ==> x in m
    ensures forall k :: 0 <= k < |Page(s, skip, limit)| ==>
      s[skip + k] in m && Views(Page(s, skip, limit), m)[k] == ToUser(s[skip + k], m[s[skip + k]])
  {
    var ids := Page(s, skip, limit);
    forall x | x in ids
      ensures x in m
    {
      var k :| 0 <= k < |ids| && ids[k] == x;
      assert x == s[skip + k];
    }
  }

  /** Supplied interests read back as given when they are a nonempty list of
      delimiter-free tokens. */
  lemma UpdatedInterestsReadBack(r: Record, u: UserUpdate)
    ensures u.interests.Some? && |u.interests.value| >= 1 &&
            (forall t :: t in u.interests.value ==> Delimiter !in t) ==>
            ToUser(0, ApplyUpdate(r, u)).interests == u.interests.value
  {
    if u.interests.Some? && |u.interests.value| >= 1 &&
       (forall t :: t in u.interests.value ==> Delimiter !in t) {
      SplitOfJoin(u.interests.value);
    }
  }

  /** An update body that sets no field leaves the row as it was. */
  lemma EmptyUpdateChangesNothing(r: Record)
    ensures ApplyUpdate(r, NoChanges) == r
  {
  }

  /** A created profile reads back with the interests it was created with, as
      long as they are a nonempty list of delimiter-free tokens. */
  lemma CreatedInterestsReadBack(id: Id, u: UserCreate)
    requires |u.interests| >= 1
    requires forall t :: t in u.interests ==> Delimiter !in t
    ensures ToUser(id, NewRecord(u)) == User(id, u.name, u.age, u.gender, u.email, u.city, u.interests)
  {
    SplitOfJoin(u.interests);
  }

  /** A profile's own email never counts as held by another profile, so an
      update may set the email a profile already has. */
  lemma OwnEmailNotInUseByOther(m: map<Id, Record>, id: Id)
    requires EmailsUnique(m) && id in m
    ensures !EmailInUseByOther(m, m[id].email, id)
  {
  }

  /** Storing a row under a new id keeps emails unique when its email is unused. */
  lemma InsertKeepsEmailsUnique(m: map<Id, Record>, id: Id, r: Record)
    requires EmailsUnique(m) && id !in m && !EmailInUse(m, r.email)
    ensures EmailsUnique(m[id := r])
  {
  }

  /** Updating a row keeps emails unique when the new email, if any, is held by no other row. */
  lemma UpdateKeepsEmailsUnique(m: map<Id, Record>, id: Id, u: UserUpdate)
    requires EmailsUnique(m) && id in m
    requires u.email.Some? ==> !EmailInUseByOther(m, u.email.value, id)
    ensures EmailsUnique(m[id := ApplyUpdate(m[id], u)])
  {
    var n := m[id := ApplyUpdate(m[id], u)];
    forall a, b | a in n && b in n && a != b
      ensures n[a].email != n[b].email
    {
      if a == id || b == id {
        var other := if a == id then b else a;
        assert other in m && other != id;
        if u.email.None? {
          assert n[id].email == m[id].email;
        } else {
          assert m[other].email != u.email.value;
        }
      }
    }
  }

  /** Storing a row with a well-formed email keeps every stored email well formed. */
  lemma InsertKeepsEmailsWellFormed(m: map<Id, Record>, id: Id, r: Record)
    requires EmailsWellFormed(m) && ValidateEmail(r.email)
    ensures EmailsWellFormed(m[id := r])
  {
  }

  /** Updating a row keeps every stored email well formed when the new email, if any, is. */
  lemma UpdateKeepsEmailsWellFormed(m: map<Id, Record>, id: Id, u: UserUpdate)
    requires EmailsWellFormed(m) && id in m
    requires u.email.Some? ==> ValidateEmail(u.email.value)
    ensures EmailsWellFormed(m[id := ApplyUpdate(m[id], u)])
  {
  }

  class ProfileStore {
    var records: map<Id, Record>
    /** The order in which an unordered query returns the rows: insertion order. */
    var order: seq<Id>
    /** Strictly above every id issued so far; the next id to hand out. */
    var nextId: Id

    ghost predicate Valid()
      reads this
    {
      && Distinct(order)
      && (forall x :: x in records <==> x in order)
      && (forall x :: x in records ==> x < nextId)
      && EmailsUnique(records)
      && EmailsWellFormed(records)
    }

    constructor ()
      ensures Valid()
      ensures records == map[] && order == []
    {
      records := map[];
      order := [];
      nextId := 1;
    }

    /** `create_user`: validate the email, refuse one already stored, then
        store the row with its interests joined under a fresh id. */
    method CreateUser(u: UserCreate) returns (res: Result<User>)
      requires Valid()
      modifies this
      ensures Valid()
      ensures !ValidateEmail(u.email) ==> res == Err(InvalidEmail)
      ensures ValidateEmail(u.email) && EmailInUse(old(records), u.email) ==> res == Err(DuplicateEmail)
      ensures res.Err? ==> unchanged(this)
      ensures ValidateEmail(u.email) && !EmailInUse(old(records), u.email) ==>
        && res.Ok?
        && res.value.id !in old(records)
        && records == old(records)[res.value.id := NewRecord(u)]
        && order == old(order) + [res.value.id]
        && res.value == ToUser(res.value.id, NewRecord(u))
    {
      if !ValidateEmail(u.email) {
        return Err(InvalidEmail);
      }
      if EmailInUse(records, u.email) {
        return Err(DuplicateEmail);
      }
      var id := nextId;
      var row := NewRecord(u);
      InsertKeepsEmailsUnique(records, id, row);
      InsertKeepsEmailsWellFormed(records, id, row);
      records := records[id := row];
      order := order + [id];
      nextId := nextId + 1;
      res := Ok(ToUser(id, row));
    }

    /** `read_users`: the rows from position `skip` on, at most `limit` of them, in row order. */
    method ReadUsers(skip: nat := 0, limit: nat := 10) returns (users: seq<User>)
      requires Valid()
      ensures |users| == if skip >= |order| then 0
                         else if limit <= |order| - skip then limit else |order| - skip
      ensures forall k :: 0 <= k < |users| ==>
        order[skip + k] in records && users[k] == ToUser(order[skip + k], records[order[skip + k]])
    {
      assert forall x :: x in order ==> x in records;
      PagedViews(order, records, skip, limit);
      users := Views(Page(order, skip, limit), records);
    }

    /** `read_user`: the profile stored under `id`, or NotFound. */
    method ReadUser(id: Id) returns (res: Result<User>)
      requires Valid()
      ensures id in records ==> res == Ok(ToUser(id, records[id]))
      ensures id !in records ==> res == Err(NotFound)
    {
      if id !in records {
        return Err(NotFound);
      }
      res := Ok(ToUser(id, records[id]));
    }

    /** `update_user`: NotFound for an unknown id; a supplied email must be
        well formed and held by no other profile; then the supplied fields
        overwrite the stored ones. */
    method UpdateUser(id: Id, u: UserUpdate) returns (res: Result<User>)
      requires Valid()
      modifies this
      ensures Valid()
      ensures id !in old(records) ==> res == Err(NotFound)
      ensures id in old(records) && u.email.Some? && !ValidateEmail(u.email.value) ==>
        res == Err(InvalidEmail)
      ensures id in old(records) && u.email.Some? && ValidateEmail(u.email.value) &&
              EmailInUseByOther(old(records), u.email.value, id) ==>
        res == Err(DuplicateEmail)
      ensures res.Err? ==> unchanged(this)
      ensures id in old(records) &&
              (u.email.Some? ==> ValidateEmail(u.email.value) &&
                                 !EmailInUseByOther(old(records), u.email.value, id)) ==>
        && res.Ok?
        && records == old(records)[id := ApplyUpdate(old(records)[id], u)]
        && order == old(order)
        && res.value == ToUser(id, records[id])
    {
      if id !in records {
        return Err(NotFound);
      }
      if u.email.Some? {
        if !ValidateEmail(u.email.value) {
          return Err(InvalidEmail);
        }
        if EmailInUseByOther(records, u.email.value, id) {
          return Err(DuplicateEmail);
        }
      }
      var row := ApplyUpdate(records[id], u);
      UpdateKeepsEmailsUnique(records, id, u);
      UpdateKeepsEmailsWellFormed(records, id, u);
      records := records[id := row];
      res := Ok(ToUser(id, row));
    }

    /** `delete_user`: NotFound for an unknown id; otherwise remove that row
        and return what it held. */
    method DeleteUser(id: Id) returns (res: Result<User>)
      requires Valid()
      modifies this
      ensures Valid()
      ensures id !in old(records) ==> res == Err(NotFound) && unchanged(this)
      ensures id in old(records) ==>
        && res == Ok(ToUser(id, old(records)[id]))
        && records == old(records) - {id}
        && order == Without(old(order), id)
      ensures id !in records
    {
      if id !in records {
        return Err(NotFound);
      }
      res := Ok(ToUser(id, records[id]));
      records := records - {id};
      order := Without(order, id);
    }

    /** `find_matches`: NotFound for an unknown id; otherwise exactly the
        stored profiles that pass the filter against the subject's row. */
    method FindMatches(id: Id) returns (res: Result<seq<User>>)
      requires Valid()
      ensures id !in records <==> res == Err(NotFound)
      ensures res.Ok? ==> forall u :: u in res.value ==>
        && u.id in records
        && u == ToUser(u.id, records[u.id])
        && IsMatch(records[id], records[u.id])
        && u.id != id
      ensures res.Ok? ==> forall x :: x in records && IsMatch(records[id], records[x]) ==>
        ToUser(x, records[x]) in res.value
      ensures res.Ok? ==> forall i, j :: 0 <= i < j < |res.value| ==> res.value[i].id != res.value[j].id
      ensures res.Ok? ==> res.value == Views(MatchingIds(order, records, records[id]), records)
    {
      if id !in records {
        return Err(NotFound);
      }
      var subject := records[id];
      var ids := MatchingIds(order, records, subject);
      var users := Views(ids, records);
      NeverMatchesItself(subject);
      assert Distinct(ids);
      forall x | x in records && IsMatch(subject, records[x])
        ensures ToUser(x, records[x]) in users
      {
        var k :| 0 <= k < |ids| && ids[k] == x;
        assert users[k] == ToUser(x, records[x]);
      }
      res := Ok(users);
    }
  }
}
