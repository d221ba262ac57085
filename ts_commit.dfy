/**
 * typescript/src/commit.ts: the commit and user records built from a GitHub
 * push payload, and `Commit.summary()`.
 */
module TsCommit {
  import opened Wrappers
  import opened Lines

  /** A JavaScript object read by key; a missing key reads as `undefined`. */
  type JsObject = map<string, string>

  function Get(data: JsObject, key: string): (v: Option<string>)
    ensures v.Some? <==> key in data
    ensures v.Some? ==> v.value == data[key]
  {
    if key in data then Some(data[key]) else None
  }

  datatype User = User(email: Option<string>, name: Option<string>, username: Option<string>)

  /** `new User(data)`: each field is the payload's value for its key, or undefined. */
  function NewUser(data: JsObject): (u: User)
    ensures u.email.Some? <==> "email" in data
    ensures u.name.Some? <==> "name" in data
    ensures u.username.Some? <==> "username" in data
    ensures u.email.Some? ==> u.email.value == data["email"]
    ensures u.name.Some? ==> u.name.value == data["name"]
    ensures u.username.Some? ==> u.username.value == data["username"]
  {
    User(Get(data, "email"), Get(data, "name"), Get(data, "username"))
  }

  /**
   * The commit object of a push payload. `author` and `committer` must be
   * objects (`new User(undefined)` throws); the other keys may be missing.
   */
  datatype CommitPayload = CommitPayload(
    author: JsObject, committer: JsObject,
    distinct: Option<bool>, id: Option<string>, message: Option<string>)

  datatype Commit = Commit(author: User, committer: User, distinct: bool, hexsha: string, message: Option<string>)

  /** `new Commit(payload, sha)`. */
  function NewCommit(payload: CommitPayload, sha: string): (c: Commit)
    ensures c.author == NewUser(payload.author) && c.committer == NewUser(payload.committer)
    ensures c.distinct <==> payload.distinct == Some(true)
    ensures payload.id.Some? ==> c.hexsha == payload.id.value
    ensures payload.id.None? ==> c.hexsha == sha
    ensures c.message == payload.message
  {
    Commit(NewUser(payload.author), NewUser(payload.committer),
           payload.distinct.GetOr(false), payload.id.GetOr(sha), payload.message)
  }

  /** `summary()`: '' without a message, otherwise the first line. */
  function Summary(c: Commit): (s: string)
    ensures '\n' !in s
    ensures c.message.None? ==> s == ""
    ensures c.message.Some? ==> s <= c.message.value
    ensures c.message.Some? && |s| < |c.message.value| ==> c.message.value[|s|] == '\n'
  {
    match c.message
    case None => ""
    case Some(m) => FirstLine(m)
  }
}
