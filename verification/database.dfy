/** The database schema (three tables: users, posts, comments) as an immutable
    in-memory store. Each table is the sequence of its rows in rowid order, which is the
    order an unordered `SELECT` returns them in. */
module Database {
  import opened Wrappers
  import opened Errors
  import opened PasswordHasher

  datatype UserRow = UserRow(id: int, email: string, password: PasswordHash)

  /** `user_id` is declared NOT NULL, but the post routes never write it. */
  datatype PostRow = PostRow(id: int, body: string, userId: Option<int>)

  datatype CommentRow = CommentRow(id: int, body: string, postId: int, userId: Option<int>)

  datatype Store = Store(users: seq<UserRow>, posts: seq<PostRow>, comments: seq<CommentRow>)

  /** The effect of a route: the store afterwards and the response or raised exception. */
  datatype Transition<+T> = Transition(store: Store, response: Result<T, Error>)

  function UserId(u: UserRow): int { u.id }
  function PostId(p: PostRow): int { p.id }
  function CommentId(c: CommentRow): int { c.id }

  /** The id column of a table, in table order. */
  function Ids<R>(rows: seq<R>, id: R -> int): (ids: seq<int>)
    ensures |ids| == |rows| && forall i :: 0 <= i < |rows| ==> ids[i] == id(rows[i])
  {
    seq(|rows|, i requires 0 <= i < |rows| => id(rows[i]))
  }

  /** The largest id of a non-empty table. */
  function MaxId(ids: seq<int>): (m: int)
    requires |ids| > 0
    ensures m in ids
    ensures forall i :: 0 <= i < |ids| ==> ids[i] <= m
  {
    if |ids| == 1 then ids[0]
    else
      var rest := MaxId(ids[1..]);
      if ids[0] >= rest then ids[0] else rest
  }

  /** The id SQLite gives a new row of an INTEGER PRIMARY KEY table: one more than the
      largest id present, or 1 for an empty table. It is larger than every existing id. */
  function NextRowId(ids: seq<int>): (n: int)
    ensures forall i :: 0 <= i < |ids| ==> ids[i] < n
    ensures |ids| == 0 ==> n == 1
    ensures |ids| > 0 ==> n - 1 in ids
  {
    if |ids| == 0 then 1 else MaxId(ids) + 1
  }

  /** The next row id is larger than the id of every row already in the table. */
  lemma BelowNextRowId<R>(rows: seq<R>, id: R -> int)
    ensures forall r :: r in rows ==> id(r) < NextRowId(Ids(rows, id))
  {
    var ids := Ids(rows, id);
    forall r | r in rows ensures id(r) < NextRowId(ids) {
      var i :| 0 <= i < |rows| && rows[i] == r;
      assert ids[i] == id(r);
    }
  }

  /** Row ids strictly increase along the table, so they are unique. */
  predicate Ascending(ids: seq<int>)
  {
    forall i, j :: 0 <= i < j < |ids| ==> ids[i] < ids[j]
  }

  /** The UNIQUE constraint on `users.email`. */
  predicate UniqueEmails(users: seq<UserRow>)
  {
    forall i, j :: 0 <= i < j < |users| ==> users[i].email != users[j].email
  }

  /** Every comment belongs to a post that exists. */
  predicate CommentsReferencePosts(s: Store)
  {
    forall c :: c in s.comments ==> exists p :: p in s.posts && p.id == c.postId
  }

  /** The invariant every route preserves. */
  predicate WellFormed(s: Store)
  {
    && Ascending(Ids(s.users, UserId))
    && Ascending(Ids(s.posts, PostId))
    && Ascending(Ids(s.comments, CommentId))
    && UniqueEmails(s.users)
    && CommentsReferencePosts(s)
  }

  /** `INSERT INTO users (email, password)`: the store rejects a duplicate email with
      an integrity error; otherwise the row is appended under the next rowid. */
  function InsertUser(users: seq<UserRow>, email: string, password: PasswordHash)
    : (r: Result<seq<UserRow>, Error>)
    ensures r.Err? <==> exists u :: u in users && u.email == email
    ensures r.Err? ==> r.error == UniqueEmailViolation
    ensures r.Ok? ==>
      && |r.value| == |users| + 1
      && r.value[..|users|] == users
      && r.value[|users|].email == email
      && r.value[|users|].password == password
      && forall u :: u in users ==> u.id < r.value[|users|].id
    ensures r.Ok? && UniqueEmails(users) ==> UniqueEmails(r.value)
    ensures r.Ok? && Ascending(Ids(users, UserId)) ==> Ascending(Ids(r.value, UserId))
  {
    if exists u :: u in users && u.email == email then Err(UniqueEmailViolation)
    else
      var row := UserRow(NextRowId(Ids(users, UserId)), email, password);
      BelowNextRowId(users, UserId);
      var users' := users + [row];
      assert users'[..|users|] == users;
      assert Ids(users', UserId) == Ids(users, UserId) + [row.id];
      Ok(users')
  }
}
