/** The interpreter as the component holds it: three pieces of state that
    each handler updates in place, and `Enter`, the handler of one submitted
    line. Every method is proved to do what module `Social` says. */
module Kata {
  import opened Text
  import opened Social
  import opened Properties

  class Engine {
    var users: seq<User>
    var posts: seq<Post>
    var log: seq<LogEntry>

    ghost predicate Valid()
      reads this
    {
      Inv(users, posts)
    }

    ghost function Snapshot(): State
      reads this
    {
      State(users, posts, log)
    }

    /** The roster of three users with no follows, no posts and the greeting. */
    constructor ()
      ensures Valid()
      ensures Snapshot() == Initial()
    {
      users := InitialUsers();
      posts := [];
      log := [Greeting];
    }

    /** Enter pressed on `command` at clock reading `now`: echo the line, then
        dispatch on its markers. `completed` is false when the wall handler
        throws; the echo is then the only change. */
    method Enter(command: string, now: int) returns (completed: bool)
      requires Valid()
      modifies this
      ensures Valid()
      ensures Step(old(Snapshot()), command, now) == StepResult(Snapshot(), completed)
      ensures |log| > |old(log)| && log[..|old(log)|] == old(log) && log[|old(log)|] == Echo(command)
    {
      ghost var s := Snapshot();
      ghost var r := Step(s, command, now);
      StepKeepsInv(s, command, now);
      log := log + [Echo(command)];
      completed := true;
      if Contains(command, PostDelimiter) {
        PostMessage(command, now);
        assert r == StepResult(Snapshot(), true);
      } else if Contains(command, FollowDelimiter) {
        FollowUser(command);
        assert r == StepResult(Snapshot(), true);
      } else if Contains(command, WallMarker) {
        completed := ShowWall(command, now);
        assert r == StepResult(Snapshot(), completed);
      } else if IsUser(users, command) {
        ReadUser(command, now);
        assert r == StepResult(Snapshot(), true);
      }
    }

    /** `post(command)`: split at the first `" -> "` that has text after it;
        a roster author gets the post prepended, anyone else an error line. */
    method PostMessage(command: string, now: int)
      requires Valid() && Contains(command, PostDelimiter)
      modifies this`posts, this`log
      ensures Valid()
      ensures posts == PostEffect(users, old(posts), command, now).0
      ensures log == old(log) + PostEffect(users, old(posts), command, now).1
    {
      var (name, content) := SplitCapture(command, PostDelimiter);
      if IsUser(users, name) {
        if content.None? {
          UnsplitPostLineIsNoUser(users, command);
          assert false;
        }
        posts := [Post(name, content.value, now)] + posts;
      } else {
        log := log + [LogEntry(ErrorType, "> " + name + " cannot posts.")];
      }
    }

    /** `follow(command)`: split at the first `" follows "` that has text
        after it; two different roster names give the follow, anything else
        an error line. */
    method FollowUser(command: string)
      requires Valid()
      modifies this`users, this`log
      ensures Valid()
      ensures users == FollowEffect(old(users), command).0
      ensures log == old(log) + FollowEffect(old(users), command).1
    {
      var (name, target) := SplitCapture(command, FollowDelimiter);
      if target.Some? && name != target.value && IsUser(users, name) && IsUser(users, target.value) {
        FollowKeepsWellFormed(users, name, target.value);
        users := FollowUsers(users, name, target.value);
      } else {
        log := log + [LogEntry(ErrorType, "> " + name + " or " + TemplateText(target) + " doesn't exists.")];
      }
    }

    /** `read(user)`: one line per post by `user`, in the order of `posts`,
        or the error line when there is none. */
    method ReadUser(user: string, now: int)
      requires Valid()
      modifies this`log
      ensures Valid()
      ensures log == old(log) + ReadEffect(posts, user, now)
    {
      var ps := posts;
      var newLogLines := [];
      var i := 0;
      while i < |ps|
        invariant 0 <= i <= |ps|
        invariant newLogLines == ReadLines(ps[..i], user, now)
      {
        assert ps[..i + 1][..i] == ps[..i] && ps[..i + 1][i] == ps[i];
        if ps[i].name == user {
          newLogLines := newLogLines + [ReadLine(ps[i], now)];
        }
        i := i + 1;
      }
      assert ps[..i] == ps;
      if |newLogLines| > 0 {
        log := log + newLogLines;
      } else {
        log := log + [LogEntry(ErrorType, "> " + user + " has no posts")];
      }
    }

    /** `wall(command)`: the first token is the user; one line per post by
        them or by someone they follow, in the order of `posts`, or the error
        line when there is none. Returns false, changing nothing, where the
        source throws because the token names no user. */
    method ShowWall(command: string, now: int) returns (completed: bool)
      requires Valid()
      modifies this`log
      ensures Valid()
      ensures completed <==> WallEffect(users, posts, command, now).Some?
      ensures log == old(log) + if completed then WallEffect(users, posts, command, now).value else []
    {
      var userName := FirstToken(command);
      var found := FindUser(users, userName);
      if found.None? {
        return false;
      }
      var follows := found.value.follows;
      var ps := posts;
      var newLogLines := [];
      var i := 0;
      while i < |ps|
        invariant 0 <= i <= |ps|
        invariant newLogLines == WallLines(ps[..i], userName, follows, now)
      {
        assert ps[..i + 1][..i] == ps[..i] && ps[..i + 1][i] == ps[i];
        if ps[i].name == userName || ps[i].name in follows {
          newLogLines := newLogLines + [WallLine(ps[i], now)];
        }
        i := i + 1;
      }
      assert ps[..i] == ps;
      if |newLogLines| > 0 {
        log := log + newLogLines;
      } else {
        log := log + [LogEntry(ErrorType, "> No posts")];
      }
      completed := true;
    }
  }
}
