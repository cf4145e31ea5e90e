/** Concrete sessions from the initial state, and concrete ages. */
module Scenarios {
  import opened Text
  import opened Age
  import opened Social
  import opened Properties

  lemma InitialInv()
    ensures Inv(Initial().users, Initial().posts)
  {
    assert Names(InitialUsers()) == Roster;
  }

  /** The state after `a -> content` from the start. */
  function Posted(a: string, content: string, t0: int): State {
    State(InitialUsers(), [Post(a, content, t0)], [Greeting, Echo(a + PostDelimiter + content)])
  }

  lemma FirstPost(a: string, content: string, t0: int)
    requires a in Roster && |content| > 0 && NoLineTerminators(content)
    ensures Step(Initial(), a + PostDelimiter + content, t0) == StepResult(Posted(a, content, t0), true)
  {
    InitialInv();
    PostByRosterName(Initial(), a, content, t0);
  }

  /** In the initial roster, `b` following `a` gives `b` the record following exactly `a`. */
  lemma FollowedFromStart(a: string, b: string) returns (i: nat)
    requires a in Roster && b in Roster && a != b
    ensures i < |InitialUsers()| && InitialUsers()[i].name == b
    ensures FollowUsers(InitialUsers(), b, a)[i] == User(b, [a])
  {
    i :| 0 <= i < |Roster| && Roster[i] == b;
    assert Names(InitialUsers())[i] == b;
    assert Followed(InitialUsers()[i], b, a) == User(b, [a]);
  }

  /** After `b follows a`, user `b` follows exactly `a`. */
  lemma ThenFollow(s: State, a: string, b: string, t1: int) returns (i: nat)
    requires s.users == InitialUsers() && forall p :: p in s.posts ==> p.name in Roster && |p.content| > 0
    requires a in Roster && b in Roster && a != b
    ensures var r := Step(s, b + FollowDelimiter + a, t1).state;
      && i < |r.users| && r.users[i] == User(b, [a]) && r.posts == s.posts
      && Inv(r.users, r.posts)
  {
    assert Names(InitialUsers()) == Roster;
    forall p | p in s.posts
      ensures IsUser(s.users, p.name)
    {
      RosterUsers(s.users, p.name);
    }
    FollowByRosterNames(s, b, a, t1);
    StepKeepsInv(s, b + FollowDelimiter + a, t1);
    i := FollowedFromStart(a, b);
  }

  /** `b wall` when `b` follows just `a` and the only post is by `a`. */
  lemma WallOfSoleFollow(s: State, i: nat, a: string, b: string, content: string, t0: int, t2: int)
    requires Inv(s.users, s.posts) && i < |s.users| && s.users[i] == User(b, [a])
    requires s.posts == [Post(a, content, t0)]
    ensures var r := Step(s, b + WallMarker, t2);
      r.completed && r.state.log == s.log + [Echo(b + WallMarker), WallLine(Post(a, content, t0), t2)]
  {
    var p := Post(a, content, t0);
    var lines := WallLines(s.posts, b, [a], t2);
    assert lines == [WallLine(p, t2)] by {
      assert s.posts[..0] == [] && s.posts[0] == p;
      assert OnWall(p, b, [a]);
      assert WallLines([], b, [a], t2) == [];
    }
    assert b + WallMarker + "" == b + WallMarker;
    assert Names(s.users)[i] == b;
    RosterNamesArePlain(b);
    GluedWallLineHasNoOtherMarker(b, "");
    WallLineDispatch(b, "");
    WallOfRosterUser(s, i, b + WallMarker, t2);
  }

  /** `a -> content`, `b follows a`, `b wall` from the start, for two
      different roster names: the wall shows exactly `a`'s post, no error. */
  lemma PostFollowWall(a: string, b: string, content: string, t0: int, t1: int, t2: int)
    requires a in Roster && b in Roster && a != b
    requires |content| > 0 && NoLineTerminators(content)
    ensures var s1 := Step(Initial(), a + PostDelimiter + content, t0).state;
      var s2 := Step(s1, b + FollowDelimiter + a, t1).state;
      var r := Step(s2, b + WallMarker, t2);
      && r.completed
      && r.state.log == s2.log + [Echo(b + WallMarker), WallLine(Post(a, content, t0), t2)]
  {
    FirstPost(a, content, t0);
    var s1 := Posted(a, content, t0);
    var i := ThenFollow(s1, a, b, t1);
    var s2 := Step(s1, b + FollowDelimiter + a, t1).state;
    WallOfSoleFollow(s2, i, a, b, content, t0, t2);
  }

  /** No age below half a second, nor for a post stamped after the reading. */
  lemma AgeUndefined()
    ensures ReadableTimeDiff(0, 499) == None
    ensures ReadableTimeDiff(1000, 0) == None
  {
  }

  /** The decimal text of 59. */
  lemma FiftyNine()
    ensures NatToString(59) == "59"
  {
    assert NatToString(59) == NatToString(5) + [DigitChar(9)];
  }

  lemma AgeSeconds()
    ensures ReadableTimeDiff(0, 500) == Some("1 second ago")
    ensures ReadableTimeDiff(0, 59_499) == Some("59 seconds ago")
  {
    assert RoundedSeconds(500) == 1;
    assert NatToString(1) == "1";
    assert "1" + " second ago" == "1 second ago";
    assert RoundedSeconds(59_499) == 59;
    FiftyNine();
    assert "59" + " seconds ago" == "59 seconds ago";
  }

  /** From 59.5 seconds on, total minutes. */
  lemma AgeMinutes()
    ensures ReadableTimeDiff(0, 59_500) == Some("1 minute ago")
    ensures ReadableTimeDiff(0, 3_599_499) == Some("59 minutes ago")
  {
    assert RoundedSeconds(59_500) == 60;
    assert NatToString(1) == "1";
    assert "1" + " minute ago" == "1 minute ago";
    assert RoundedSeconds(3_599_499) == 3599;
    FiftyNine();
    assert "59" + " minutes ago" == "59 minutes ago";
  }

  /** From 59 minutes 59.5 seconds on, whole hours. */
  lemma AgeHours()
    ensures ReadableTimeDiff(0, 3_599_500) == Some("1 hour ago")
    ensures ReadableTimeDiff(0, 7_200_000) == Some("2 hours ago")
  {
    assert NatToString(1) == "1";
    assert NatToString(2) == "2";
    assert "1" + " hour ago" == "1 hour ago";
    assert "2" + " hours ago" == "2 hours ago";
  }
}
