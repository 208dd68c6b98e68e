/**
 * The user table behind the credential service: an in-memory table of user
 * rows with insertion, first-match lookup by column values, and in-place update
 * of named columns.
 */
module UserTable {
  import opened Wrappers

  /** A value given for a column; `NoneV` is Python's None, stored as SQL NULL. */
  datatype Value = IntV(i: int) | StrV(s: string) | NoneV

  /** One row of the `users` table. */
  datatype User = User(id: int, email: string, hashedPassword: string,
                       sessionId: Option<string>, resetToken: Option<string>)

  /** What the table operations raise. */
  datatype DbError = NoResultFound | InvalidRequestError | ValueError(attribute: string)

  predicate IsColumn(name: string) {
    name == "id" || name == "email" || name == "hashed_password" || name == "session_id" || name == "reset_token"
  }

  function OptionValue(o: Option<string>): (v: Value)
    ensures v == NoneV <==> o.None?
  {
    if o.None? then NoneV else StrV(o.value)
  }

  /** The value stored in a named column. */
  function Column(u: User, name: string): Value
    requires IsColumn(name)
  {
    match name
    case "id" => IntV(u.id)
    case "email" => StrV(u.email)
    case "hashed_password" => StrV(u.hashedPassword)
    case "session_id" => OptionValue(u.sessionId)
    case _ => OptionValue(u.resetToken)
  }

  predicate AllColumns(kwargs: seq<(string, Value)>) {
    forall i :: 0 <= i < |kwargs| ==> IsColumn(kwargs[i].0)
  }

  /**
   * A row matches the filters when every named column holds the given value. As in
   * SQL, a filter value of None selects rows whose column is NULL.
   */
  predicate Matches(u: User, filters: seq<(string, Value)>)
    requires AllColumns(filters)
  {
    forall i :: 0 <= i < |filters| ==> Column(u, filters[i].0) == filters[i].1
  }

  /** The index of the first matching row, in table order. */
  function FirstMatch(users: seq<User>, filters: seq<(string, Value)>): (k: Option<nat>)
    requires AllColumns(filters)
    ensures k.Some? ==> k.value < |users| && Matches(users[k.value], filters)
    ensures k.Some? ==> forall j :: 0 <= j < k.value ==> !Matches(users[j], filters)
    ensures k.None? ==> forall j :: 0 <= j < |users| ==> !Matches(users[j], filters)
  {
    if users == [] then None
    else if Matches(users[0], filters) then Some(0)
    else
      var k := FirstMatch(users[1..], filters);
      if k.None? then None else Some(k.value + 1)
  }

  /**
   * `find_user_by`: InvalidRequestError when a filter names no column of the
   * table, otherwise the first matching row, or NoResultFound when none matches.
   */
  function FindUserBy(users: seq<User>, filters: seq<(string, Value)>): (r: Result<User, DbError>)
    ensures r == Failure(InvalidRequestError) <==> !AllColumns(filters)
    ensures r == Failure(NoResultFound) <==>
              AllColumns(filters) && forall j :: 0 <= j < |users| ==> !Matches(users[j], filters)
    ensures r.Success? ==> AllColumns(filters) && FirstMatch(users, filters).Some?
                           && r.value == users[FirstMatch(users, filters).value]
  {
    if !AllColumns(filters) then Failure(InvalidRequestError)
    else match FirstMatch(users, filters)
      case None => Failure(NoResultFound)
      case Some(k) => Success(users[k])
  }

  /** The value fits the column's type; other names accept anything (they are refused anyway). */
  predicate Fits(name: string, v: Value) {
    (name == "id" ==> v.IntV?) &&
    (name == "email" || name == "hashed_password" ==> v.StrV?) &&
    (name == "session_id" || name == "reset_token" ==> !v.IntV?)
  }

  predicate WellTyped(kwargs: seq<(string, Value)>) {
    forall i :: 0 <= i < |kwargs| ==> Fits(kwargs[i].0, kwargs[i].1)
  }

  /** Keyword arguments never repeat a name. */
  predicate DistinctKeys(kwargs: seq<(string, Value)>) {
    forall i, j :: 0 <= i < j < |kwargs| ==> kwargs[i].0 != kwargs[j].0
  }

  function Names(kwargs: seq<(string, Value)>): set<string> {
    set i | 0 <= i < |kwargs| :: kwargs[i].0
  }

  /** `setattr` on one column. */
  function SetColumn(u: User, name: string, v: Value): (r: User)
    requires IsColumn(name) && Fits(name, v)
    ensures Column(r, name) == v
    ensures forall n :: IsColumn(n) && n != name ==> Column(r, n) == Column(u, n)
  {
    match name
    case "id" => u.(id := v.i)
    case "email" => u.(email := v.s)
    case "hashed_password" => u.(hashedPassword := v.s)
    case "session_id" => u.(sessionId := if v.NoneV? then None else Some(v.s))
    case _ => u.(resetToken := if v.NoneV? then None else Some(v.s))
  }

  /**
   * The loop of `update_user` on one row: the keyword arguments in order, each
   * naming a column set on the row, stopping with ValueError at the first name
   * that is not a column (the assignments before it stay made).
   */
  function ApplyUpdates(u: User, kwargs: seq<(string, Value)>): (r: (User, Option<DbError>))
    requires WellTyped(kwargs)
    ensures r.1.None? <==> AllColumns(kwargs)
    ensures r.1.Some? ==> exists i :: 0 <= i < |kwargs| && r.1.value == ValueError(kwargs[i].0) && !IsColumn(kwargs[i].0)
    ensures forall n :: IsColumn(n) && n !in Names(kwargs) ==> Column(r.0, n) == Column(u, n)
    decreases |kwargs|
  {
    if kwargs == [] then (u, None)
    else if !IsColumn(kwargs[0].0) then (u, Some(ValueError(kwargs[0].0)))
    else
      var r := ApplyUpdates(SetColumn(u, kwargs[0].0, kwargs[0].1), kwargs[1..]);
      assert forall i :: 1 <= i < |kwargs| ==> kwargs[1..][i - 1] == kwargs[i];
      assert Names(kwargs) == {kwargs[0].0} + Names(kwargs[1..]);
      r
  }

  /** With distinct names and no bad name, every named column ends up holding its given value. */
  lemma {:induction false} ApplyUpdatesSetsEveryColumn(u: User, kwargs: seq<(string, Value)>)
    requires WellTyped(kwargs) && DistinctKeys(kwargs) && AllColumns(kwargs)
    ensures forall i :: 0 <= i < |kwargs| ==> Column(ApplyUpdates(u, kwargs).0, kwargs[i].0) == kwargs[i].1
    decreases |kwargs|
  {
    if kwargs != [] {
      var rest := kwargs[1..];
      var v := SetColumn(u, kwargs[0].0, kwargs[0].1);
      assert forall i :: 1 <= i < |kwargs| ==> rest[i - 1] == kwargs[i];
      ApplyUpdatesSetsEveryColumn(v, rest);
      assert forall i :: 0 <= i < |rest| ==> rest[i].0 != kwargs[0].0;
      assert kwargs[0].0 !in Names(rest);
    }
  }

  /**
   * Processing stops at the first bad name: the row is as if only the names
   * before it had been given, and the error names it.
   */
  lemma {:induction false} ApplyUpdatesStopsAtFirstBadName(u: User, kwargs: seq<(string, Value)>, k: nat)
    requires WellTyped(kwargs)
    requires k < |kwargs| && !IsColumn(kwargs[k].0) && AllColumns(kwargs[..k])
    ensures ApplyUpdates(u, kwargs) == (ApplyUpdates(u, kwargs[..k]).0, Some(ValueError(kwargs[k].0)))
    decreases k
  {
    if k > 0 {
      var rest := kwargs[1..];
      assert rest[..k - 1] == kwargs[..k][1..];
      assert kwargs[0] == kwargs[..k][0];
      assert rest[k - 1] == kwargs[k];
      ApplyUpdatesStopsAtFirstBadName(SetColumn(u, kwargs[0].0, kwargs[0].1), rest, k - 1);
    }
  }

  predicate DistinctIds(users: seq<User>) {
    forall i, j :: 0 <= i < j < |users| ==> users[i].id != users[j].id
  }

  /** An id no row holds, or the id of the row being updated. */
  predicate IdAvailable(users: seq<User>, userId: int, id: int) {
    id == userId || forall j :: 0 <= j < |users| ==> users[j].id != id
  }

  /** A new value for the primary key keeps it unique, as the schema demands. */
  predicate KeepsIdsDistinct(users: seq<User>, userId: int, kwargs: seq<(string, Value)>) {
    forall i :: 0 <= i < |kwargs| && kwargs[i].0 == "id" ==> kwargs[i].1.IntV? && IdAvailable(users, userId, kwargs[i].1.i)
  }

  /** The largest id in a non-empty table. */
  function MaxId(users: seq<User>): (m: int)
    requires users != []
    ensures forall j :: 0 <= j < |users| ==> users[j].id <= m
    ensures exists j :: 0 <= j < |users| && users[j].id == m
  {
    if |users| == 1 then users[0].id
    else
      var m := MaxId(users[1..]);
      assert forall j :: 1 <= j < |users| ==> users[j] == users[1..][j - 1];
      if users[0].id > m then users[0].id else m
  }

  /** The id the database gives the next row: 1 in an empty table, one past the largest otherwise. */
  function NextId(users: seq<User>): (id: int)
    ensures forall j :: 0 <= j < |users| ==> users[j].id < id
    ensures users == [] ==> id == 1
    ensures users != [] ==> exists j :: 0 <= j < |users| && users[j].id == id - 1
  {
    if users == [] then 1 else MaxId(users) + 1
  }

  /** A single filter selects the rows whose column holds the value. */
  lemma SingleFilter(u: User, name: string, v: Value)
    requires IsColumn(name)
    ensures Matches(u, [(name, v)]) <==> Column(u, name) == v
  {
    assert [(name, v)][0] == (name, v);
  }

  /** The row whose id is `id` is found by an id filter when ids are unique. */
  lemma FindById(users: seq<User>, k: nat)
    requires DistinctIds(users) && k < |users|
    ensures FirstMatch(users, [("id", IntV(users[k].id))]) == Some(k)
    ensures FindUserBy(users, [("id", IntV(users[k].id))]) == Success(users[k])
  {
    var filters := [("id", IntV(users[k].id))];
    SingleFilter(users[k], "id", IntV(users[k].id));
    var m := FirstMatch(users, filters).value;
    SingleFilter(users[m], "id", IntV(users[k].id));
    assert users[m].id == users[k].id;
    assert m == k;
  }

  /** Updating one column sets it and raises nothing. */
  lemma UpdateOneColumn(u: User, name: string, v: Value)
    requires IsColumn(name) && Fits(name, v)
    ensures ApplyUpdates(u, [(name, v)]) == (SetColumn(u, name, v), None)
  {
    assert [(name, v)][1..] == [];
  }

  /** Updating two columns sets the first, then the second, and raises nothing. */
  lemma UpdateTwoColumns(u: User, name1: string, v1: Value, name2: string, v2: Value)
    requires IsColumn(name1) && Fits(name1, v1) && IsColumn(name2) && Fits(name2, v2)
    ensures ApplyUpdates(u, [(name1, v1), (name2, v2)]) == (SetColumn(SetColumn(u, name1, v1), name2, v2), None)
  {
    assert [(name1, v1), (name2, v2)][1..] == [(name2, v2)];
    UpdateOneColumn(SetColumn(u, name1, v1), name2, v2);
  }

  /** One step of the update loop: a column name is set, then the rest are processed. */
  lemma ApplyUpdatesStep(u: User, kwargs: seq<(string, Value)>)
    requires WellTyped(kwargs) && kwargs != [] && IsColumn(kwargs[0].0)
    ensures ApplyUpdates(u, kwargs) == ApplyUpdates(SetColumn(u, kwargs[0].0, kwargs[0].1), kwargs[1..])
  {
  }

  /** One pass of `update_user`'s loop on a column name: ids stay unique and the remaining updates still lead to the same row. */
  lemma UpdateStep(users: seq<User>, orig: seq<User>, k: nat, userId: int, kwargs: seq<(string, Value)>, i: nat)
    requires i < |kwargs| && IsColumn(kwargs[i].0) && WellTyped(kwargs) && KeepsIdsDistinct(orig, userId, kwargs)
    requires DistinctIds(users) && DistinctIds(orig)
    requires k < |users| == |orig| && orig[k].id == userId
    requires forall j :: 0 <= j < |users| && j != k ==> users[j] == orig[j]
    requires ApplyUpdates(users[k], kwargs[i..]) == ApplyUpdates(orig[k], kwargs)
    ensures var next := users[k := SetColumn(users[k], kwargs[i].0, kwargs[i].1)];
      DistinctIds(next) && ApplyUpdates(next[k], kwargs[i + 1..]) == ApplyUpdates(orig[k], kwargs)
  {
    var (name, value) := kwargs[i];
    assert kwargs[i..][0] == kwargs[i] && kwargs[i..][1..] == kwargs[i + 1..];
    assert Fits(name, value);
    assert name == "id" ==> IdAvailable(orig, userId, value.i);
    SetColumnKeepsIdsDistinct(users, orig, k, userId, name, value);
    ApplyUpdatesStep(users[k], kwargs[i..]);
  }

  /** Setting one column of row `k` keeps ids unique, given that a new id is available. */
  lemma SetColumnKeepsIdsDistinct(users: seq<User>, orig: seq<User>, k: nat, userId: int, name: string, value: Value)
    requires DistinctIds(users) && DistinctIds(orig)
    requires k < |users| == |orig| && orig[k].id == userId
    requires forall j :: 0 <= j < |users| && j != k ==> users[j] == orig[j]
    requires IsColumn(name) && Fits(name, value)
    requires name == "id" ==> IdAvailable(orig, userId, value.i)
    ensures DistinctIds(users[k := SetColumn(users[k], name, value)])
  {
    var after := users[k := SetColumn(users[k], name, value)];
    if name == "id" {
      forall j | 0 <= j < |after| && j != k
        ensures after[j].id != after[k].id
      {
        assert after[j] == orig[j];
      }
    } else {
      assert Column(after[k], "id") == Column(users[k], "id");
    }
  }

  class DB {
    var users: seq<User>

    ghost predicate Valid()
      reads this
    {
      DistinctIds(users)
    }

    /** A new database starts with an empty table. */
    constructor ()
      ensures Valid() && users == []
    {
      users := [];
    }

    /** `add_user`: appends one new row with a fresh id and returns it; the other rows stay as they were. */
    method AddUser(email: string, hashedPassword: string) returns (user: User)
      requires Valid()
      modifies this
      ensures Valid()
      ensures user == User(NextId(old(users)), email, hashedPassword, None, None)
      ensures users == old(users) + [user]
    {
      user := User(NextId(users), email, hashedPassword, None, None);
      users := users + [user];
    }

    /**
     * `update_user`: NoResultFound when no row has `userId`; otherwise the named
     * columns of that one row are set in order, stopping with ValueError at the
     * first name that is not a column. No other row changes.
     */
    method UpdateUser(userId: int, kwargs: seq<(string, Value)>) returns (error: Option<DbError>)
      requires Valid()
      requires DistinctKeys(kwargs) && WellTyped(kwargs) && KeepsIdsDistinct(users, userId, kwargs)
      modifies this
      ensures Valid()
      ensures FindUserBy(old(users), [("id", IntV(userId))]).Failure? ==>
                error == Some(NoResultFound) && users == old(users)
      ensures FindUserBy(old(users), [("id", IntV(userId))]).Success? ==>
                var k := FirstMatch(old(users), [("id", IntV(userId))]).value;
                var (row, failure) := ApplyUpdates(old(users)[k], kwargs);
                users == old(users)[k := row] && error == failure
    {
      var filters := [("id", IntV(userId))];
      var found := FindUserBy(users, filters);
      if found.Failure? {
        return Some(NoResultFound);
      }
      var k := FirstMatch(users, filters).value;
      assert users[k].id == userId by {
        assert Column(users[k], filters[0].0) == filters[0].1;
      }
      var i := 0;
      while i < |kwargs|
        invariant 0 <= i <= |kwargs|
        invariant |users| == |old(users)|
        invariant forall j :: 0 <= j < |users| && j != k ==> users[j] == old(users)[j]
        invariant ApplyUpdates(users[k], kwargs[i..]) == ApplyUpdates(old(users)[k], kwargs)
        invariant DistinctIds(users)
      {
        var (name, value) := kwargs[i];
        assert kwargs[i..][0] == kwargs[i] && kwargs[i..][1..] == kwargs[i + 1..];
        if !IsColumn(name) {
          assert users == old(users)[k := users[k]];
          return Some(ValueError(name));
        }
        UpdateStep(users, old(users), k, userId, kwargs, i);
        users := users[k := SetColumn(users[k], name, value)];
        i := i + 1;
      }
      assert users == old(users)[k := users[k]];
      return None;
    }
  }
}
