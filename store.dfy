/**
 * The MongoDB `users` collection as the core uses it: documents addressed by
 * `user_id` (a map from user_id to document) and looked up by `username`.
 */
module Store {
  import opened Wrappers
  import opened Models

  /** Every document sits under its own user_id, and no two documents share a username. */
  ghost predicate WellFormed(docs: map<string, User>) {
    && (forall id :: id in docs ==> docs[id].userId == id)
    && (forall a, b :: a in docs && b in docs && docs[a].username == docs[b].username ==> a == b)
  }

  /** Every document holds both a current access token and a current refresh token. */
  ghost predicate HoldsPairs(docs: map<string, User>) {
    forall id :: id in docs ==> docs[id].token.Some? && docs[id].refreshToken.Some?
  }

  /** Whether document `id` matches the filter `{"username": name}`; a nil name matches no stored document. */
  predicate NameMatches(docs: map<string, User>, id: string, name: Option<string>)
    requires id in docs
  {
    name == Some(docs[id].username)
  }

  /** `CountDocuments(ctx, {"username": name})`. */
  function CountByUsername(docs: map<string, User>, name: Option<string>): (n: nat)
    ensures n > 0 <==> exists id :: id in docs && NameMatches(docs, id, name)
  {
    var matching := set id | id in docs && NameMatches(docs, id, name);
    assert (exists id :: id in docs && NameMatches(docs, id, name)) ==> |matching| > 0 by {
      if exists id :: id in docs && NameMatches(docs, id, name) {
        var id :| id in docs && NameMatches(docs, id, name);
        assert id in matching;
      }
    }
    |matching|
  }

  /** In a well-formed collection a username is counted at most once. */
  lemma CountAtMostOne(docs: map<string, User>, name: Option<string>)
    requires WellFormed(docs)
    ensures CountByUsername(docs, name) <= 1
  {
    var matching := set id | id in docs && NameMatches(docs, id, name);
    if |matching| > 0 {
      var id :| id in matching;
      assert matching == {id};
    }
  }

  /** `FindOne(ctx, {"user_id": id})`. */
  function FindByUserId(docs: map<string, User>, id: string): (r: Option<User>)
    ensures r.Some? <==> id in docs
    ensures r.Some? ==> r.value == docs[id]
  {
    if id in docs then Some(docs[id]) else None
  }

  /** `FindOne(ctx, {"username": name})`: some document with that username, if there is one. */
  ghost function FindByUsername(docs: map<string, User>, name: Option<string>): (r: Option<User>)
    ensures r.None? <==> CountByUsername(docs, name) == 0
    ensures r.Some? ==> Some(r.value.username) == name
    ensures r.Some? && WellFormed(docs) ==> r.value.userId in docs && docs[r.value.userId] == r.value
  {
    if exists id :: id in docs && NameMatches(docs, id, name) then
      var id :| id in docs && NameMatches(docs, id, name);
      Some(docs[id])
    else None
  }

  /** In a well-formed collection the username lookup finds the one document with that name. */
  lemma FindByUsernameUnique(docs: map<string, User>, name: Option<string>, id: string)
    requires WellFormed(docs) && id in docs && NameMatches(docs, id, name)
    ensures FindByUsername(docs, name) == Some(docs[id])
  {
    var found := FindByUsername(docs, name).value;
    assert docs[found.userId].username == docs[id].username;
  }

  /** The collection itself; `docs` is what the database holds. */
  class UsersCollection {
    var docs: map<string, User>

    ghost predicate Valid()
      reads this
    {
      WellFormed(docs) && HoldsPairs(docs)
    }

    constructor ()
      ensures Valid() && docs == map[]
    {
      docs := map[];
    }
  }
}
