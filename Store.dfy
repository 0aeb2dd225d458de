/**
 * The SQLite file behind app.py as one object: the `users` table (username is
 * the primary key, the password column holds a digest) and the append-only
 * `history` table. The digest (SHA-256 of the password, as a hex string) is a
 * deterministic function supplied when the store is created; nothing else is
 * assumed of it, in particular not that it is injective.
 */
module Persistence {
  import opened History

  class Store {
    /** `hashlib.sha256(password.encode()).hexdigest()`, left abstract. */
    const digest: string -> string
    /** Table `users`: username to stored password digest. */
    var users: map<string, string>
    /** Table `history`, in insertion order. */
    var history: seq<Row>

    /**
     * Every stored password value is the digest of some password. This is an
     * invariant that `AddUser` and `SaveHistory` preserve; no other contract
     * draws a consequence from it, and it says nothing when `digest` reaches
     * every string (the identity, say).
     */
    ghost predicate Valid()
      reads this
    {
      forall u :: u in users ==> exists p :: digest(p) == users[u]
    }

    /** `init_db`: both tables exist and start empty. */
    constructor (digest: string -> string)
      ensures Valid()
      ensures this.digest == digest && users == map[] && history == []
    {
      this.digest := digest;
      users := map[];
      history := [];
    }

    /**
     * `add_user`: registers the user with the digest of the password, unless
     * the username is taken, in which case nothing changes and the result is false.
     */
    method AddUser(username: string, password: string) returns (created: bool)
      requires Valid()
      modifies this
      ensures Valid()
      ensures created <==> username !in old(users)
      ensures created ==> users == old(users)[username := digest(password)]
      ensures !created ==> users == old(users)
      ensures history == old(history)
    {
      var hashed := digest(password);
      if username in users {
        created := false;
      } else {
        users := users[username := hashed];
        created := true;
      }
    }

    /**
     * `check_user`: true exactly when a row holds this username together with
     * the digest of this password; an unknown user and a wrong password both give false.
     */
    method CheckUser(username: string, password: string) returns (ok: bool)
      ensures ok <==> username in users && users[username] == digest(password)
    {
      var hashed := digest(password);
      ok := username in users && users[username] == hashed;
    }

    /** `save_history`: appends one row with the score as `str(score)`; accounts are untouched. */
    method SaveHistory(username: string, feature: string, score: ScoreArg, details: string)
      requires Valid()
      modifies this
      ensures Valid()
      ensures history == old(history) + [Row(username, feature, ToStr(score), details)]
      ensures users == old(users)
    {
      history := history + [Row(username, feature, ToStr(score), details)];
    }

    /** `get_history`: the user's rows as `(feature, score, details)`, oldest first. */
    method GetHistory(username: string) returns (entries: seq<Entry>)
      ensures entries == HistoryFor(history, username)
    {
      entries := HistoryFor(history, username);
    }
  }

  /** Signing up with a fresh username and then logging in with the same password succeeds. */
  method SignUpThenLogIn(store: Store, username: string, password: string)
    returns (created: bool, loggedIn: bool)
    requires store.Valid()
    modifies store
    ensures store.Valid()
    ensures created <==> username !in old(store.users)
    ensures created ==> loggedIn
    ensures !created ==> (loggedIn <==> old(store.users)[username] == store.digest(password))
  {
    created := store.AddUser(username, password);
    loggedIn := store.CheckUser(username, password);
  }

  /** After saving a result, the user's history ends with it and keeps everything before. */
  method SaveThenView(store: Store, username: string, feature: string, score: ScoreArg, details: string)
    returns (entries: seq<Entry>)
    requires store.Valid()
    modifies store
    ensures store.Valid()
    ensures entries == HistoryFor(old(store.history), username) + [Entry(feature, ToStr(score), details)]
  {
    store.SaveHistory(username, feature, score, details);
    HistoryForAppend(old(store.history), Row(username, feature, ToStr(score), details), username);
    entries := store.GetHistory(username);
  }
}
