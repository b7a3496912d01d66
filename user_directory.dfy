/**
 * The user routes: create-or-update keyed by the trimmed contact number, lookup by
 * contact, and the count of distinct contacts.
 */
module UserDirectory {
  import opened Wrappers
  import opened Models
  import Text

  ghost predicate UniqueIds(s: seq<User>) {
    forall i, j :: 0 <= i < j < |s| ==> s[i].id != s[j].id
  }

  /** The unique index on `contact`. */
  ghost predicate UniqueContacts(s: seq<User>) {
    forall i, j :: 0 <= i < j < |s| ==> s[i].contact != s[j].contact
  }

  /** `User.findOne({ contact })`: the position of the user with exactly this contact. */
  function FindContact(s: seq<User>, contact: string): (r: Option<nat>)
    ensures r.Some? ==> r.value < |s| && s[r.value].contact == contact
    ensures r.None? ==> forall k :: 0 <= k < |s| ==> s[k].contact != contact
  {
    if s == [] then None
    else if s[0].contact == contact then Some(0)
    else match FindContact(s[1..], contact)
         case None => None
         case Some(k) => Some(k + 1)
  }

  /** There is no user with this id. */
  predicate FreshId(s: seq<User>, id: nat) {
    forall k :: 0 <= k < |s| ==> s[k].id != id
  }

  /** `User.distinct("contact")`. */
  function Contacts(s: seq<User>): (r: set<string>)
    ensures forall c :: c in r <==> exists k :: 0 <= k < |s| && s[k].contact == c
  {
    if s == [] then {}
    else
      var rest := Contacts(s[1..]);
      assert forall k :: 1 <= k < |s| ==> s[k] == s[1..][k - 1];
      {s[0].contact} + rest
  }

  /** Distinct contacts are never more than users, and as many under the unique index. */
  lemma {:induction false} ContactCount(s: seq<User>)
    ensures |Contacts(s)| <= |s|
    ensures UniqueContacts(s) ==> |Contacts(s)| == |s|
  {
    if s != [] {
      ContactCount(s[1..]);
      var rest := Contacts(s[1..]);
      assert Contacts(s) == {s[0].contact} + rest;
      if UniqueContacts(s) {
        assert UniqueContacts(s[1..]) by {
          forall i, j | 0 <= i < j < |s[1..]| ensures s[1..][i].contact != s[1..][j].contact {
            assert s[1..][i] == s[i + 1] && s[1..][j] == s[j + 1];
          }
        }
        assert s[0].contact !in rest;
      }
    }
  }

  /** Every stored user passes the schema. */
  ghost predicate AllValid(s: seq<User>) {
    forall k :: 0 <= k < |s| ==> ValidUser(s[k])
  }

  /** Replacing a user by one with the same id and contact keeps the collection valid. */
  lemma UpdateKeepsValid(s: seq<User>, k: int, u: User)
    requires UniqueIds(s) && UniqueContacts(s) && AllValid(s)
    requires 0 <= k < |s| && u.id == s[k].id && u.contact == s[k].contact && ValidUser(u)
    ensures UniqueIds(s[k := u]) && UniqueContacts(s[k := u]) && AllValid(s[k := u])
  {
  }

  /** Adding a valid user under a fresh id and an absent contact keeps the collection valid. */
  lemma AppendKeepsValid(s: seq<User>, u: User)
    requires UniqueIds(s) && UniqueContacts(s) && AllValid(s)
    requires FreshId(s, u.id) && FindContact(s, u.contact).None? && ValidUser(u)
    ensures UniqueIds(s + [u]) && UniqueContacts(s + [u]) && AllValid(s + [u])
  {
    assert forall j :: 0 <= j < |s| ==> (s + [u])[j] == s[j];
  }

  datatype UserError = ContactRequired | NameAndAddressRequired

  /** What the user routes answer. */
  datatype UserResult =
    | Updated(user: User)
    | Created(user: User)
    | Found(user: User)
    | All(users: seq<User>)
    | BadRequest(reason: UserError)
    | NotFound
    | ServerError

  /** The `users` collection. */
  class Users {
    var rows: seq<User>

    ghost predicate Valid()
      reads this
    {
      && UniqueIds(rows)
      && UniqueContacts(rows)
      && AllValid(rows)
    }

    constructor ()
      ensures Valid() && rows == []
    {
      rows := [];
    }

    /**
     * `POST /`: a missing or empty contact is refused.  A user found by the trimmed
     * contact has `numberOfPersons` replaced when one is given and `name` and
     * `address` when non-empty.  Otherwise both `name` and `address` are needed, and a
     * new user is added under the trimmed contact, 1 person unless given; a contact
     * that trims to nothing fails the schema.
     */
    method Upsert(name: Option<string>, address: Option<string>, contact: Option<string>,
                  numberOfPersons: Option<int>, id: nat) returns (r: UserResult)
      requires Valid() && FreshId(rows, id)
      modifies this
      ensures Valid()
      ensures !Truthy(contact) ==> r == BadRequest(ContactRequired) && rows == old(rows)
      ensures Truthy(contact) && FindContact(old(rows), Text.Trim(contact.value)).Some? ==>
                var k := FindContact(old(rows), Text.Trim(contact.value)).value;
                var u := old(rows)[k];
                var u' := u.(numberOfPersons := numberOfPersons.GetOr(u.numberOfPersons),
                             name := if Truthy(name) then name.value else u.name,
                             address := if Truthy(address) then address.value else u.address);
                r == Updated(u') && rows == old(rows)[k := u']
      ensures Truthy(contact) && FindContact(old(rows), Text.Trim(contact.value)).None? ==>
                if !Truthy(name) || !Truthy(address) then
                  r == BadRequest(NameAndAddressRequired) && rows == old(rows)
                else if Text.Trim(contact.value) == [] then
                  r == ServerError && rows == old(rows)
                else
                  var u := User(id, name.value, Text.Trim(contact.value), address.value, numberOfPersons.GetOr(1));
                  r == Created(u) && rows == old(rows) + [u]
    {
      if !Truthy(contact) {
        return BadRequest(ContactRequired);
      }
      var trimmed := Text.Trim(contact.value);
      var found := FindContact(rows, trimmed);
      if found.Some? {
        var k := found.value;
        var u := rows[k];
        u := u.(numberOfPersons := numberOfPersons.GetOr(u.numberOfPersons));
        if Truthy(name) {
          u := u.(name := name.value);
        }
        if Truthy(address) {
          u := u.(address := address.value);
        }
        UpdateKeepsValid(rows, k, u);
        rows := rows[k := u];
        return Updated(u);
      }
      if !Truthy(name) || !Truthy(address) {
        return BadRequest(NameAndAddressRequired);
      }
      if trimmed == [] {
        return ServerError;
      }
      var u := User(id, name.value, trimmed, address.value, numberOfPersons.GetOr(1));
      AppendKeepsValid(rows, u);
      rows := rows + [u];
      r := Created(u);
    }

    /**
     * `GET /`: with a non-empty contact, the user with that contact or 404; otherwise
     * all users.  The schema's `trim` setter also applies to the query filter, so the
     * contact is looked up trimmed.
     */
    function Get(contact: Option<string>): (r: UserResult)
      reads this
      ensures !Truthy(contact) ==> r == All(rows)
      ensures Truthy(contact) ==>
                (r.Found? <==> exists k :: 0 <= k < |rows| && rows[k].contact == Text.Trim(contact.value))
      ensures Truthy(contact) ==> r.Found? || r == NotFound
      ensures r.Found? ==> r.user in rows && r.user.contact == Text.Trim(contact.value)
    {
      if !Truthy(contact) then All(rows)
      else match FindContact(rows, Text.Trim(contact.value))
           case None => NotFound
           case Some(k) => Found(rows[k])
    }

    /** `GET /count/unique-contacts` and `GET /count/unique`: the number of distinct contacts. */
    function UniqueContactCount(): (n: nat)
      reads this
      ensures n <= |rows|
      ensures Valid() ==> n == |rows|
    {
      ContactCount(rows);
      |Contacts(rows)|
    }
  }

  /** POST and GET agree: after an upsert, looking up the trimmed contact finds that user. */
  lemma UpsertThenGet(s: seq<User>, u: User, k: int)
    requires UniqueContacts(s) && 0 <= k < |s| && u.contact == s[k].contact
    ensures FindContact(s[k := u], u.contact) == Some(k)
  {
    var t := s[k := u];
    var f := FindContact(t, u.contact);
    assert t[k].contact == u.contact;
  }
}
