/**
 * The user directory behind IUserRepository, as the MySQL implementation
 * (UserMySQLRepository) behaves: a table of users keyed by id with a unique
 * email column, listed newest first. The database compares ids and emails
 * under its case-insensitive collation, so the table is keyed by the
 * collation key of each id and emails are unique up to case.
 */
module UserStore {
  import opened Wrappers
  import Roles
  import opened Passwords
  import opened Pagination
  import opened Collation

  /** User ids are opaque strings (UUIDs generated by the database). */
  type Id = string

  /** A stored user row (IUser); creation and update timestamps are not modelled. */
  datatype User = User(id: Id, name: string, email: string, password: PasswordHash, role: Roles.Role)

  /** A user row read without its password column. */
  datatype PublicUser = PublicUser(id: Id, name: string, email: string, role: Roles.Role)

  function Public(u: User): PublicUser {
    PublicUser(u.id, u.name, u.email, u.role)
  }

  /** CreateUserParams. */
  datatype CreateUserParams = CreateUserParams(name: string, email: string, password: PasswordHash, role: Roles.Role)

  /** UpdateUserParams: every field is optional. */
  datatype UpdateUserParams = UpdateUserParams(name: Option<string>, email: Option<string>, role: Option<Roles.Role>)

  /** The row after an update that sets exactly the fields present in `p`. */
  function Patched(u: User, p: UpdateUserParams): (r: User)
    ensures r.id == u.id && r.password == u.password
    ensures r.name == (if p.name.Some? then p.name.value else u.name)
    ensures r.email == (if p.email.Some? then p.email.value else u.email)
    ensures r.role == (if p.role.Some? then p.role.value else u.role)
  {
    User(
      u.id,
      if p.name.Some? then p.name.value else u.name,
      if p.email.Some? then p.email.value else u.email,
      u.password,
      if p.role.Some? then p.role.value else u.role)
  }

  /** Applying the same update twice changes nothing more than applying it once. */
  lemma PatchIsIdempotent(u: User, p: UpdateUserParams)
    ensures Patched(Patched(u, p), p) == Patched(u, p)
  {
  }

  /** An update with no fields leaves the row as it was. */
  lemma EmptyPatchIsIdentity(u: User)
    ensures Patched(u, UpdateUserParams(None, None, None)) == u
  {
  }

  /** A write the database refuses (a unique or primary key violation). */
  datatype StoreError = DuplicateEntry

  /** The unique index on the email column, under the collation. */
  ghost predicate EmailsUnique(users: map<Id, User>) {
    forall a, b :: a in users && b in users && Key(users[a].email) == Key(users[b].email) ==> a == b
  }

  /** Some row holds an email the collation finds equal to `email`. */
  ghost predicate EmailTaken(users: map<Id, User>, email: string) {
    exists k :: k in users && Key(users[k].email) == Key(email)
  }

  /** Every row is stored under the key of its own id. */
  ghost predicate KeyedById(users: map<Id, User>) {
    forall k :: k in users ==> Key(users[k].id) == k
  }

  /** The row the lookup by email finds, if any. */
  ghost function OwnerOf(users: map<Id, User>, email: string): (r: Option<User>)
    requires KeyedById(users)
    ensures r.Some? <==> EmailTaken(users, email)
    ensures r.Some? ==> Key(r.value.id) in users && users[Key(r.value.id)] == r.value && Key(r.value.email) == Key(email)
  {
    if EmailTaken(users, email) then
      var k :| k in users && Key(users[k].email) == Key(email);
      Some(users[k])
    else None
  }

  /** Spellings of one email that differ only in case find the same row. */
  lemma OwnerIgnoresCase(users: map<Id, User>, e1: string, e2: string)
    requires KeyedById(users) && EmailsUnique(users)
    requires Key(e1) == Key(e2)
    ensures EmailTaken(users, e1) <==> EmailTaken(users, e2)
    ensures OwnerOf(users, e1) == OwnerOf(users, e2)
  {
    if EmailTaken(users, e1) {
      var a, b := OwnerOf(users, e1).value, OwnerOf(users, e2).value;
      assert Key(a.email) == Key(b.email);
    }
  }

  /** The row with id `id`, matched under the collation, without its password. */
  function ById(users: map<Id, User>, id: Id): (r: Option<PublicUser>)
    ensures r.Some? <==> Key(id) in users
    ensures r.Some? ==> r.value == Public(users[Key(id)])
  {
    if Key(id) in users then Some(Public(users[Key(id)])) else None
  }

  /** An update of row `id` would give it an email another row already holds. */
  ghost predicate EmailClash(users: map<Id, User>, id: Id, p: UpdateUserParams) {
    p.email.Some? && exists k :: k in users && k != Key(id) && Key(users[k].email) == Key(p.email.value)
  }

  predicate Distinct(s: seq<Id>) {
    forall i, j :: 0 <= i < j < |s| ==> s[i] != s[j]
  }

  /** `s` with every occurrence of `x` removed. */
  function Without(s: seq<Id>, x: Id): (r: seq<Id>)
    ensures forall y :: y in r <==> y in s && y != x
    ensures Distinct(s) ==> Distinct(r)
  {
    if s == [] then []
    else
      DistinctTail(s);
      if s[0] == x then Without(s[1..], x)
      else [s[0]] + Without(s[1..], x)
  }

  lemma DistinctTail(s: seq<Id>)
    requires s != []
    ensures Distinct(s) ==> s[0] !in s[1..] && Distinct(s[1..])
  {
    if Distinct(s) {
      forall k | 0 <= k < |s[1..]|
        ensures s[1..][k] != s[0]
      {
        assert s[1..][k] == s[k + 1];
      }
    }
  }

  /** Removing an id that does not occur changes nothing. */
  lemma {:induction false} WithoutAbsent(s: seq<Id>, x: Id)
    requires x !in s
    ensures Without(s, x) == s
  {
    if s != [] {
      WithoutAbsent(s[1..], x);
      assert [s[0]] + s[1..] == s;
    }
  }

  /**
   * Removing the id at index `i` of a repeat-free order drops exactly that
   * entry and keeps the others in their order.
   */
  lemma {:induction false} WithoutAt(s: seq<Id>, i: nat)
    requires Distinct(s)
    requires i < |s|
    ensures Without(s, s[i]) == s[..i] + s[i + 1..]
  {
    DistinctTail(s);
    if i == 0 {
      WithoutAbsent(s[1..], s[0]);
    } else {
      assert s[1..][i - 1] == s[i];
      WithoutAt(s[1..], i - 1);
      assert s[..i] == [s[0]] + s[1..][..i - 1];
      assert s[i + 1..] == s[1..][i..];
    }
  }

  /** The rows in listing order, without passwords. */
  function ListingOf(users: map<Id, User>, order: seq<Id>): (l: seq<PublicUser>)
    requires forall id :: id in order ==> id in users
    ensures |l| == |order|
    ensures forall i :: 0 <= i < |l| ==> l[i] == Public(users[order[i]])
  {
    seq(|order|, i requires 0 <= i < |order| => Public(users[order[i]]))
  }

  /** The table's invariant: rows are keyed by their ids, emails are unique, and the listing order holds every key once. */
  ghost predicate Consistent(users: map<Id, User>, order: seq<Id>) {
    && KeyedById(users)
    && EmailsUnique(users)
    && (forall id :: id in order <==> id in users)
    && Distinct(order)
  }

  /** Inserting a row puts it first in the listing and leaves the rest of the listing as it was. */
  lemma {:induction false} ListingAfterInsert(users: map<Id, User>, order: seq<Id>, u: User)
    requires Consistent(users, order)
    requires Key(u.id) !in users
    ensures forall id :: id in [Key(u.id)] + order ==> id in users[Key(u.id) := u]
    ensures ListingOf(users[Key(u.id) := u], [Key(u.id)] + order) == [Public(u)] + ListingOf(users, order)
  {
    var after := ListingOf(users[Key(u.id) := u], [Key(u.id)] + order);
    var before := [Public(u)] + ListingOf(users, order);
    assert |after| == |before|;
    forall i | 0 <= i < |after|
      ensures after[i] == before[i]
    {
      if i > 0 {
        assert ([Key(u.id)] + order)[i] == order[i - 1];
      }
    }
  }

  /**
   * Deleting the row at index `i` of the listing drops that one entry and
   * leaves every other entry where it was relative to the rest.
   */
  lemma {:induction false} ListingAfterDelete(users: map<Id, User>, order: seq<Id>, i: nat)
    requires Consistent(users, order)
    requires i < |order|
    ensures ListingOf(users - {order[i]}, Without(order, order[i]))
         == ListingOf(users, order)[..i] + ListingOf(users, order)[i + 1..]
  {
    WithoutAt(order, i);
    var before := ListingOf(users, order);
    var after := ListingOf(users - {order[i]}, Without(order, order[i]));
    var rest := order[..i] + order[i + 1..];
    forall j | 0 <= j < |after|
      ensures after[j] == (before[..i] + before[i + 1..])[j]
    {
      if j < i {
        assert rest[j] == order[j];
      } else {
        assert rest[j] == order[j + 1];
      }
    }
  }

  /** The listing entry at index `a` is the row keyed by `order[a]`. */
  lemma ListingIdAt(users: map<Id, User>, order: seq<Id>, a: nat)
    requires Consistent(users, order)
    requires a < |order|
    ensures Key(ListingOf(users, order)[a].id) == order[a]
  {
  }

  /**
   * Under the fixed listing order, two different pages of one listing
   * share no user: their ids differ even under the collation.
   */
  lemma {:induction false} PagesShareNoIds(users: map<Id, User>, order: seq<Id>, limit: nat, p1: nat, p2: nat)
    requires Consistent(users, order)
    requires limit >= 1 && p1 >= 1 && p2 >= 1 && p1 != p2
    ensures var listing := ListingOf(users, order);
      forall i, j :: 0 <= i < |Paginate(listing, limit, p1).data| && 0 <= j < |Paginate(listing, limit, p2).data| ==>
        Key(Paginate(listing, limit, p1).data[i].id) != Key(Paginate(listing, limit, p2).data[j].id)
  {
    var listing := ListingOf(users, order);
    var d1, d2 := Paginate(listing, limit, p1).data, Paginate(listing, limit, p2).data;
    forall i, j | 0 <= i < |d1| && 0 <= j < |d2|
      ensures Key(d1[i].id) != Key(d2[j].id)
    {
      PageRangesDisjoint(limit, p1, p2, i, j);
      var a, b := Offset(limit, p1) + i, Offset(limit, p2) + j;
      ListingIdAt(users, order, a);
      ListingIdAt(users, order, b);
    }
  }

  /** UserMySQLRepository over its table. */
  class UserMySQLRepository {
    var users: map<Id, User>
    /** Row keys newest first: the createdAt-descending order of findAll. */
    var order: seq<Id>

    ghost predicate Valid()
      reads this
    {
      Consistent(users, order)
    }

    constructor ()
      ensures Valid() && users == map[] && order == []
    {
      users := map[];
      order := [];
    }

    /** createUser: insert a row; the database refuses a taken id or email. */
    method CreateUser(id: Id, data: CreateUserParams) returns (r: Result<User, StoreError>)
      requires Valid()
      modifies this
      ensures Valid()
      ensures r.Success? <==> Key(id) !in old(users) && !EmailTaken(old(users), data.email)
      ensures r.Success? ==>
        && r.value == User(id, data.name, data.email, data.password, data.role)
        && users == old(users)[Key(id) := r.value]
        && order == [Key(id)] + old(order)
      ensures r.Failure? ==> users == old(users) && order == old(order)
    {
      if Key(id) in users || exists k :: k in users && Key(users[k].email) == Key(data.email) {
        return Failure(DuplicateEntry);
      }
      var u := User(id, data.name, data.email, data.password, data.role);
      users := users[Key(id) := u];
      order := [Key(id)] + order;
      r := Success(u);
    }

    /** findUserByEmail: the row with that email, in any case, password included. */
    method FindUserByEmail(email: string) returns (r: Option<User>)
      requires Valid()
      ensures r == OwnerOf(users, email)
    {
      if exists k :: k in users && Key(users[k].email) == Key(email) {
        var k :| k in users && Key(users[k].email) == Key(email);
        r := Some(users[k]);
      } else {
        r := None;
      }
    }

    /** findUserById: the row with that id, in any case, without the password column. */
    method FindUserById(id: Id) returns (r: Option<PublicUser>)
      requires Valid()
      ensures r == ById(users, id)
      ensures r.Some? <==> Key(id) in users
      ensures r.Some? ==> Key(r.value.id) == Key(id)
    {
      r := if Key(id) in users then Some(Public(users[Key(id)])) else None;
    }

    /** findAll: one page of the newest-first listing, with its metadata. */
    method FindAll(limit: nat, page: nat) returns (r: Paginated<PublicUser>)
      requires Valid()
      requires limit >= 1 && page >= 1
      ensures r == Paginate(ListingOf(users, order), limit, page)
    {
      r := Paginate(ListingOf(users, order), limit, page);
    }

    /** deleteUser: remove the row with that id, in any case, if there is one. */
    method DeleteUser(id: Id)
      requires Valid()
      modifies this
      ensures Valid()
      ensures users == old(users) - {Key(id)}
      ensures order == Without(old(order), Key(id))
    {
      users := users - {Key(id)};
      order := Without(order, Key(id));
    }

    /**
     * updateUser: set the given fields of that row, then read it back.
     * No row matches a missing id; the unique index refuses an email held,
     * in any case, by another row.
     */
    method UpdateUser(id: Id, data: UpdateUserParams) returns (r: Result<Option<PublicUser>, StoreError>)
      requires Valid()
      modifies this
      ensures Valid()
      ensures order == old(order)
      ensures Key(id) !in old(users) ==> r == Success(None) && users == old(users)
      ensures Key(id) in old(users) && EmailClash(old(users), id, data) ==>
        r == Failure(DuplicateEntry) && users == old(users)
      ensures Key(id) in old(users) && !EmailClash(old(users), id, data) ==>
        && users == old(users)[Key(id) := Patched(old(users)[Key(id)], data)]
        && r == Success(Some(Public(users[Key(id)])))
    {
      var key := Key(id);
      if key !in users {
        return Success(None);
      }
      if data.email.Some? && exists k :: k in users && k != key && Key(users[k].email) == Key(data.email.value) {
        return Failure(DuplicateEntry);
      }
      users := users[key := Patched(users[key], data)];
      var read := FindUserById(id);
      r := Success(read);
    }
  }
}
