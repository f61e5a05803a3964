/**
 * The logic of `UserRepository` that does not depend on the database: the id list
 * of a `where userId in (...)` query, the assembly of the `loadNames` result from
 * the rows the query found, and the rewrite `deleteUser` applies to a user record
 * before storing it.
 */
module UserRepository {
  import opened JavaLang
  import opened IdStrings

  /** The fields of a user record that `deleteUser` reads or writes. */
  class User {
    var username: string
    var password: string
    var email: string
    /** What `isDeleted()` reports. */
    var deleted: bool

    constructor (username: string, password: string, email: string, deleted: bool)
      ensures this.username == username && this.password == password
      ensures this.email == email && this.deleted == deleted
    {
      this.username := username;
      this.password := password;
      this.email := email;
      this.deleted := deleted;
    }
  }

  /** `s.replace(from, to)`: every `from` in `s` becomes `to`, every other character stays. */
  function Replace(s: string, from: char, to: char): (r: string)
    ensures |r| == |s|
    ensures forall i :: 0 <= i < |s| ==> r[i] == if s[i] == from then to else s[i]
  {
    if s == [] then []
    else [if s[0] == from then to else s[0]] + Replace(s[1..], from, to)
  }

  /** The e-mail address a deleted user keeps: every '@' turned into '#', nothing else changed. */
  function DisabledEmail(email: string): (d: string)
    ensures |d| == |email| && '@' !in d
    ensures forall i :: 0 <= i < |email| && email[i] != '@' ==> d[i] == email[i]
  {
    Replace(email, '@', '#')
  }

  /**
   * A disabled address cannot receive mail (it has no '@'), disabling twice changes
   * nothing more, and an address that had no '#' can be read back from it.
   */
  lemma DisabledEmailProperties(email: string)
    ensures |DisabledEmail(email)| == |email| && '@' !in DisabledEmail(email)
    ensures DisabledEmail(DisabledEmail(email)) == DisabledEmail(email)
    ensures '#' !in email ==> Replace(DisabledEmail(email), '#', '@') == email
  {
    var d := DisabledEmail(email);
    assert forall i :: 0 <= i < |d| ==> d[i] != '@';
  }

  /**
   * `genIdString(userIds)`: appends each id in turn, preceded by a comma whenever
   * the text built so far is non-empty.
   */
  method GenIdString(userIds: array<int32>) returns (ids: string)
    ensures ids == IdList(userIds[..])
  {
    ids := "";
    var i := 0;
    while i < userIds.Length
      invariant 0 <= i <= userIds.Length
      invariant ids == IdList(userIds[..i])
    {
      assert userIds[..i + 1] == userIds[..i] + [userIds[i]];
      assert Renderings(userIds[..i + 1]) == Renderings(userIds[..i]) + [Decimal(userIds[i])];
      JoinSnoc(Renderings(userIds[..i]), Decimal(userIds[i]));
      JoinEmpty(Renderings(userIds[..i]));
      if |ids| > 0 {
        ids := ids + ",";
      }
      ids := ids + Decimal(userIds[i]);
      i := i + 1;
    }
    assert userIds[..i] == userIds[..];
  }

  /** `map.get(id)` on the rows the query found: the name, or null when there is no row. */
  function Lookup(found: map<int32, string>, id: int32): Option<string>
  {
    if id in found then Some(found[id]) else None
  }

  /** The query `loadNames` runs for the ids and the column. */
  function NamesQuery(column: string, ids: string): (q: string)
    ensures |q| > |ids| && q[|q| - |ids| - 1..] == ids + ")"
  {
    "select userId, " + column + " from users where userId in (" + ids + ")"
  }

  /**
   * `loadNames(userIds, column)`. With no ids it returns an empty array and runs no
   * query. Otherwise it runs the query for the id list, and `found` stands for the
   * map its rows filled (id to column value); entry `i` of the result is the value
   * for `userIds[i]`, or null when no row had that id.
   */
  method LoadNames(userIds: array<int32>, column: string, found: map<int32, string>)
    returns (result: array<Option<string>>, query: Option<string>)
    ensures fresh(result)
    ensures userIds.Length == 0 <==> query == None
    ensures query.Some? ==> query.value == NamesQuery(column, IdList(userIds[..]))
    ensures result.Length == userIds.Length
    ensures forall i :: 0 <= i < result.Length ==> result[i] == Lookup(found, userIds[i])
    ensures forall i, j :: 0 <= i < j < result.Length && userIds[i] == userIds[j] ==> result[i] == result[j]
  {
    if userIds.Length == 0 {
      result := new Option<string>[0];
      return result, None;
    }
    var ids := GenIdString(userIds);
    query := Some(NamesQuery(column, ids));
    result := NamesFound(userIds, found);
  }

  /** The result array of `loadNames`, filled entry by entry from the rows found. */
  method NamesFound(userIds: array<int32>, found: map<int32, string>)
    returns (result: array<Option<string>>)
    ensures fresh(result)
    ensures result.Length == userIds.Length
    ensures forall i :: 0 <= i < result.Length ==> result[i] == Lookup(found, userIds[i])
  {
    result := new Option<string>[userIds.Length];
    var i := 0;
    while i < result.Length
      invariant 0 <= i <= result.Length
      invariant forall j :: 0 <= j < i ==> result[j] == Lookup(found, userIds[j])
      modifies result
    {
      result[i] := Lookup(found, userIds[i]);
      i := i + 1;
    }
  }

  /**
   * `deleteUser(user)`. A user that is already deleted is left alone. Otherwise the
   * password becomes empty, so that no password matches it, and the e-mail address
   * is disabled; `renamed` stands for the user name the rename retries settled on
   * against the database.
   */
  method DeleteUser(user: User, renamed: string)
    modifies user
    ensures old(user.deleted) ==> unchanged(user)
    ensures !old(user.deleted) ==>
      && user.password == ""
      && user.email == DisabledEmail(old(user.email))
      && user.username == renamed
      && user.deleted == old(user.deleted)
  {
    if user.deleted {
      return;
    }
    user.password := "";
    user.email := DisabledEmail(user.email);
    user.username := renamed;
  }
}
