/** The interpreter's state and what one command line does to it, as
    functions: the roster with its follow lists, the posts (newest first) and
    the output log; the four commands `post`, `follow`, `read` and `wall`; and
    `Step`, the dispatch of one line. The `Engine` class in module `Kata` runs
    the same operations on mutable fields and is proved against these. */
module Social {
  import opened Text
  import opened Age

  datatype User = User(name: string, follows: seq<string>)

  /** A post by `name`, stamped with the clock reading `time` in milliseconds. */
  datatype Post = Post(name: string, content: string, time: int)

  /** The `type` of a log entry; the echo of a command line has none. */
  datatype LineType = Untyped | CommandType | PostType | ErrorType

  datatype LogEntry = LogEntry(kind: LineType, entry: string)

  datatype State = State(users: seq<User>, posts: seq<Post>, log: seq<LogEntry>)

  /** The state after one line, and whether the handler ran to its end
      (`false` when `wall` throws on an unknown name). */
  datatype StepResult = StepResult(state: State, completed: bool)

  const PostDelimiter := " -> "
  const FollowDelimiter := " follows "
  const WallMarker := " wall"

  const Roster: seq<string> := ["Alice", "Bob", "Charlie"]

  const Greeting := LogEntry(CommandType, "Welcome to Kata Social Network")

  function InitialUsers(): seq<User> {
    [User("Alice", []), User("Bob", []), User("Charlie", [])]
  }

  function Initial(): State {
    State(InitialUsers(), [], [Greeting])
  }

  function Echo(command: string): LogEntry {
    LogEntry(Untyped, "> " + command)
  }

  function Names(users: seq<User>): seq<string> {
    seq(|users|, i requires 0 <= i < |users| => users[i].name)
  }

  /** `users.some(user => user.name === name)` */
  predicate IsUser(users: seq<User>, name: string)
    ensures IsUser(users, name) <==> name in Names(users)
  {
    assert forall i :: 0 <= i < |users| ==> Names(users)[i] == users[i].name;
    exists i | 0 <= i < |users| :: users[i].name == name
  }

  /** `users.filter(user => user.name === name)[0]` */
  function FindUser(users: seq<User>, name: string): (r: Option<User>)
    ensures r.Some? <==> IsUser(users, name)
    ensures r.Some? ==> r.value in users && r.value.name == name
    ensures forall i :: 0 <= i < |users| && users[i].name == name && r.Some? && r.value != users[i] ==>
      exists j :: 0 <= j < i && users[j] == r.value
  {
    if users == [] then None
    else if users[0].name == name then Some(users[0])
    else
      var r := FindUser(users[1..], name);
      assert IsUser(users[1..], name) <==> IsUser(users, name) by {
        if IsUser(users, name) {
          var i :| 0 <= i < |users| && users[i].name == name;
          assert users[1..][i - 1].name == name;
        }
      }
      assert forall i :: 1 <= i < |users| ==> users[i] == users[1..][i - 1];
      r
  }

  // ---------- post: src/App.js:44-56 ----------

  /** The new posts and the new log lines of `post(command)`. */
  function PostEffect(users: seq<User>, posts: seq<Post>, command: string, now: int): (r: (seq<Post>, seq<LogEntry>))
    ensures || (r.0 == posts && |r.1| == 1 && r.1[0].kind == ErrorType)
            || (r.1 == [] && |r.0| == |posts| + 1 && r.0[1..] == posts)
    ensures r.1 == [] ==> var p := r.0[0];
      && p.time == now && IsUser(users, p.name)
      && |p.content| > 0 && NoLineTerminators(p.content)
      && p.name + PostDelimiter + p.content <= command
  {
    var (name, content) := SplitCapture(command, PostDelimiter);
    if IsUser(users, name) && content.Some? then
      ([Post(name, content.value, now)] + posts, [])
    else
      (posts, [LogEntry(ErrorType, "> " + name + " cannot posts.")])
  }

  // ---------- follow: src/App.js:58-80 ----------

  /** One element of `users.map(...)` in a valid follow. */
  function Followed(user: User, name: string, target: string): User {
    if user.name == name && target !in user.follows then User(user.name, user.follows + [target]) else user
  }

  /** The roster after `name` follows `target`. */
  function FollowUsers(users: seq<User>, name: string, target: string): (r: seq<User>)
    ensures Names(r) == Names(users)
    ensures forall i :: 0 <= i < |users| && users[i].name != name ==> r[i] == users[i]
    ensures forall i :: 0 <= i < |users| && users[i].name == name ==>
      target in r[i].follows && users[i].follows <= r[i].follows &&
      forall x :: x in r[i].follows ==> x in users[i].follows || x == target
  {
    seq(|users|, i requires 0 <= i < |users| => Followed(users[i], name, target))
  }

  /** The new roster and the new log lines of `follow(command)`. */
  function FollowEffect(users: seq<User>, command: string): (r: (seq<User>, seq<LogEntry>))
    ensures Names(r.0) == Names(users)
    ensures forall i :: 0 <= i < |users| ==> users[i].follows <= r.0[i].follows
    ensures r.1 == [] || (r.0 == users && |r.1| == 1 && r.1[0].kind == ErrorType)
    ensures r.1 == [] ==> var (name, target) := SplitCapture(command, FollowDelimiter);
      && target.Some? && name != target.value && IsUser(users, name) && IsUser(users, target.value)
      && forall i :: 0 <= i < |users| && users[i].name == name ==> target.value in r.0[i].follows
  {
    var (name, target) := SplitCapture(command, FollowDelimiter);
    if target.Some? && name != target.value && IsUser(users, name) && IsUser(users, target.value) then
      (FollowUsers(users, name, target.value), [])
    else
      (users, [LogEntry(ErrorType, "> " + name + " or " + TemplateText(target) + " doesn't exists.")])
  }

  // ---------- read: src/App.js:82-103 ----------

  function ReadLine(p: Post, now: int): LogEntry {
    LogEntry(PostType, "> " + p.content + " (" + TemplateText(ReadableTimeDiff(p.time, now)) + ")")
  }

  /** The lines the `posts.forEach` loop of `read(user)` pushes, in the order of `posts`. */
  function ReadLines(posts: seq<Post>, user: string, now: int): (r: seq<LogEntry>)
    ensures |r| <= |posts|
  {
    if posts == [] then []
    else
      var last := posts[|posts| - 1];
      ReadLines(posts[..|posts| - 1], user, now) + if last.name == user then [ReadLine(last, now)] else []
  }

  function ReadEffect(posts: seq<Post>, user: string, now: int): (r: seq<LogEntry>)
    ensures 0 < |r| <= |posts| || r == [LogEntry(ErrorType, "> " + user + " has no posts")]
  {
    var lines := ReadLines(posts, user, now);
    if |lines| > 0 then lines else [LogEntry(ErrorType, "> " + user + " has no posts")]
  }

  // ---------- wall: src/App.js:105-130 ----------

  predicate OnWall(p: Post, userName: string, follows: seq<string>) {
    p.name == userName || p.name in follows
  }

  function WallLine(p: Post, now: int): LogEntry {
    LogEntry(PostType, "> " + p.name + " - " + p.content + " (" + TemplateText(ReadableTimeDiff(p.time, now)) + ")")
  }

  /** The lines the `posts.forEach` loop of `wall(command)` pushes, in the order of `posts`. */
  function WallLines(posts: seq<Post>, userName: string, follows: seq<string>, now: int): (r: seq<LogEntry>)
    ensures |r| <= |posts|
  {
    if posts == [] then []
    else
      var last := posts[|posts| - 1];
      WallLines(posts[..|posts| - 1], userName, follows, now) +
        if OnWall(last, userName, follows) then [WallLine(last, now)] else []
  }

  /** The new log lines of `wall(command)`; `None` when the first token names
      no user and the lookup of its `follows` throws. */
  function WallEffect(users: seq<User>, posts: seq<Post>, command: string, now: int): (r: Option<seq<LogEntry>>)
    ensures r.Some? <==> IsUser(users, FirstToken(command))
    ensures r.Some? ==> 0 < |r.value| <= |posts| || r.value == [LogEntry(ErrorType, "> No posts")]
  {
    var userName := FirstToken(command);
    match FindUser(users, userName)
    case None => None
    case Some(user) =>
      var lines := WallLines(posts, userName, user.follows, now);
      Some(if |lines| > 0 then lines else [LogEntry(ErrorType, "> No posts")])
  }

  // ---------- handleEnter: src/App.js:23-42 ----------

  /** One line entered: echo it, then run the first handler whose marker the line holds. */
  function Step(s: State, command: string, now: int): (r: StepResult)
    ensures |r.state.log| > |s.log| && r.state.log[..|s.log| + 1] == s.log + [Echo(command)]
    ensures Names(r.state.users) == Names(s.users)
    ensures r.state.posts == s.posts || (|r.state.posts| > 0 && r.state.posts[1..] == s.posts)
    ensures !r.completed ==> r.state == State(s.users, s.posts, s.log + [Echo(command)])
  {
    var echoed := s.log + [Echo(command)];
    if Contains(command, PostDelimiter) then
      var (posts, lines) := PostEffect(s.users, s.posts, command, now);
      StepResult(State(s.users, posts, echoed + lines), true)
    else if Contains(command, FollowDelimiter) then
      var (users, lines) := FollowEffect(s.users, command);
      StepResult(State(users, s.posts, echoed + lines), true)
    else if Contains(command, WallMarker) then
      match WallEffect(s.users, s.posts, command, now)
      case None => StepResult(State(s.users, s.posts, echoed), false)
      case Some(lines) => StepResult(State(s.users, s.posts, echoed + lines), true)
    else if IsUser(s.users, command) then
      StepResult(State(s.users, s.posts, echoed + ReadEffect(s.posts, command, now)), true)
    else
      StepResult(State(s.users, s.posts, echoed), true)
  }

  // ---------- the invariant every line keeps ----------

  ghost predicate NoDuplicates(s: seq<string>) {
    forall i, j :: 0 <= i < j < |s| ==> s[i] != s[j]
  }

  /** No user follows themself, twice, or anyone outside the roster. */
  ghost predicate FollowsWellFormed(users: seq<User>) {
    forall i :: 0 <= i < |users| ==>
      && users[i].name !in users[i].follows
      && NoDuplicates(users[i].follows)
      && forall n :: n in users[i].follows ==> IsUser(users, n)
  }

  ghost predicate Inv(users: seq<User>, posts: seq<Post>) {
    && Names(users) == Roster
    && FollowsWellFormed(users)
    && forall p :: p in posts ==> IsUser(users, p.name) && |p.content| > 0
  }
}
