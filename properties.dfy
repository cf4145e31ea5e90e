/** What the commands of module `Social` guarantee: the read and wall scans
    keep the order of `posts` and select exactly the right posts, following is
    idempotent and only grows a follow list, every line keeps the invariant,
    and each kind of line is dispatched to its handler with the expected
    outcome. */
module Properties {
  import opened Text
  import opened Social

  // ---------- the roster ----------

  /** Roster names are single words with no `>`, on one line. */
  lemma RosterNamesArePlain(n: string)
    requires n in Roster
    ensures |n| > 0 && ' ' !in n && '>' !in n && NoLineTerminators(n)
  {
  }

  lemma RosterUsers(users: seq<User>, n: string)
    requires Names(users) == Roster
    ensures IsUser(users, n) <==> n in Roster
  {
  }

  /** Under the invariant a name picks out one user, and the lookup of `wall` finds that one. */
  lemma FindRosterUser(users: seq<User>, i: nat)
    requires Names(users) == Roster && i < |users|
    ensures FindUser(users, users[i].name) == Some(users[i])
  {
    var r := FindUser(users, users[i].name);
    assert Names(users)[i] == users[i].name;
    assert IsUser(users, users[i].name);
    var j :| 0 <= j < |users| && users[j] == r.value;
    assert Names(users)[j] == users[i].name;
  }

  /** A line holding `" -> "` contains `>`, so it is never a roster name: when
      the post regex does not split it, the whole line fails the author test. */
  lemma UnsplitPostLineIsNoUser(users: seq<User>, command: string)
    requires Names(users) == Roster && Contains(command, PostDelimiter)
    ensures !IsUser(users, command)
  {
    ContainsChar(command, PostDelimiter, 2);
    if IsUser(users, command) {
      RosterUsers(users, command);
      RosterNamesArePlain(command);
    }
  }

  // ---------- read: the scan over posts ----------

  lemma {:induction false} ReadLinesConcat(a: seq<Post>, b: seq<Post>, user: string, now: int)
    ensures ReadLines(a + b, user, now) == ReadLines(a, user, now) + ReadLines(b, user, now)
    decreases |b|
  {
    if b == [] {
      assert a + b == a;
    } else {
      var b' := b[..|b| - 1];
      assert (a + b)[..|a + b| - 1] == a + b';
      assert (a + b)[|a + b| - 1] == b[|b| - 1];
      ReadLinesConcat(a, b', user, now);
    }
  }

  /** Read emits a line for a post exactly when its author is `user`. */
  lemma {:induction false} ReadLinesSelect(posts: seq<Post>, user: string, now: int)
    ensures forall l :: l in ReadLines(posts, user, now) ==>
      exists p :: p in posts && p.name == user && l == ReadLine(p, now)
    ensures forall p :: p in posts && p.name == user ==> ReadLine(p, now) in ReadLines(posts, user, now)
    ensures ReadLines(posts, user, now) == [] <==> forall p :: p in posts ==> p.name != user
    decreases |posts|
  {
    if posts != [] {
      var init := posts[..|posts| - 1];
      var last := posts[|posts| - 1];
      assert posts == init + [last];
      ReadLinesSelect(init, user, now);
      forall p | p in posts
        ensures p in init || p == last
      {
      }
    }
  }

  /** A post made by `p.name` is the first line its author's read shows;
      older posts follow in their old order. */
  lemma ReadShowsNewestFirst(p: Post, posts: seq<Post>, now: int)
    ensures ReadLines([p] + posts, p.name, now) == [ReadLine(p, now)] + ReadLines(posts, p.name, now)
  {
    ReadLinesConcat([p], posts, p.name, now);
    assert [p][..0] == [];
  }

  /** Every line read emits has the type `post`. */
  lemma {:induction false} ReadLinesArePosts(posts: seq<Post>, user: string, now: int)
    ensures forall l :: l in ReadLines(posts, user, now) ==> l.kind == PostType
    decreases |posts|
  {
    if posts != [] {
      ReadLinesArePosts(posts[..|posts| - 1], user, now);
    }
  }

  // ---------- wall: the scan over posts ----------

  lemma {:induction false} WallLinesConcat(a: seq<Post>, b: seq<Post>, userName: string, follows: seq<string>, now: int)
    ensures WallLines(a + b, userName, follows, now) == WallLines(a, userName, follows, now) + WallLines(b, userName, follows, now)
    decreases |b|
  {
    if b == [] {
      assert a + b == a;
    } else {
      var b' := b[..|b| - 1];
      assert (a + b)[..|a + b| - 1] == a + b';
      assert (a + b)[|a + b| - 1] == b[|b| - 1];
      WallLinesConcat(a, b', userName, follows, now);
    }
  }

  /** Wall emits a line for a post exactly when it is by the user or by someone they follow. */
  lemma {:induction false} WallLinesSelect(posts: seq<Post>, userName: string, follows: seq<string>, now: int)
    ensures forall l :: l in WallLines(posts, userName, follows, now) ==>
      exists p :: p in posts && OnWall(p, userName, follows) && l == WallLine(p, now)
    ensures forall p :: p in posts && OnWall(p, userName, follows) ==> WallLine(p, now) in WallLines(posts, userName, follows, now)
    ensures WallLines(posts, userName, follows, now) == [] <==> forall p :: p in posts ==> !OnWall(p, userName, follows)
    decreases |posts|
  {
    if posts != [] {
      var init := posts[..|posts| - 1];
      var last := posts[|posts| - 1];
      assert posts == init + [last];
      WallLinesSelect(init, userName, follows, now);
      forall p | p in posts
        ensures p in init || p == last
      {
      }
    }
  }

  /** Every line wall emits has the type `post`. */
  lemma {:induction false} WallLinesArePosts(posts: seq<Post>, userName: string, follows: seq<string>, now: int)
    ensures forall l :: l in WallLines(posts, userName, follows, now) ==> l.kind == PostType
    decreases |posts|
  {
    if posts != [] {
      WallLinesArePosts(posts[..|posts| - 1], userName, follows, now);
    }
  }

  /** A new post by anyone on the wall comes first on it. */
  lemma WallShowsNewestFirst(p: Post, posts: seq<Post>, userName: string, follows: seq<string>, now: int)
    requires OnWall(p, userName, follows)
    ensures WallLines([p] + posts, userName, follows, now) == [WallLine(p, now)] + WallLines(posts, userName, follows, now)
  {
    WallLinesConcat([p], posts, userName, follows, now);
    assert [p][..0] == [];
  }

  // ---------- follow ----------

  lemma FollowIdempotent(users: seq<User>, name: string, target: string)
    ensures FollowUsers(FollowUsers(users, name, target), name, target) == FollowUsers(users, name, target)
  {
    var once := FollowUsers(users, name, target);
    var twice := FollowUsers(once, name, target);
    forall i | 0 <= i < |users|
      ensures twice[i] == once[i]
    {
      assert Names(once)[i] == Names(users)[i];
    }
  }

  lemma {:induction false} NoDuplicatesOnce(s: seq<string>, x: string)
    requires NoDuplicates(s) && x in s
    ensures multiset(s)[x] == 1
    decreases |s|
  {
    var init := s[..|s| - 1];
    assert s == init + [s[|s| - 1]];
    if s[|s| - 1] == x {
      assert x !in init;
    } else {
      NoDuplicatesOnce(init, x);
    }
  }

  /** After `name` follows `target`, `target` is in `name`'s list exactly once. */
  lemma FollowListsTargetOnce(users: seq<User>, name: string, target: string, i: nat)
    requires i < |users| && users[i].name == name && NoDuplicates(users[i].follows)
    ensures NoDuplicates(FollowUsers(users, name, target)[i].follows)
    ensures multiset(FollowUsers(users, name, target)[i].follows)[target] == 1
  {
    var f := FollowUsers(users, name, target)[i].follows;
    if target !in users[i].follows {
      assert f == users[i].follows + [target];
    }
    NoDuplicatesOnce(f, target);
  }

  lemma FollowKeepsWellFormed(users: seq<User>, name: string, target: string)
    requires FollowsWellFormed(users) && name != target && IsUser(users, target)
    ensures FollowsWellFormed(FollowUsers(users, name, target))
  {
    var r := FollowUsers(users, name, target);
    forall n
      ensures IsUser(r, n) <==> IsUser(users, n)
    {
    }
    forall i | 0 <= i < |r|
      ensures r[i].name !in r[i].follows && NoDuplicates(r[i].follows)
    {
      assert Names(r)[i] == Names(users)[i];
      if users[i].name == name {
        FollowListsTargetOnce(users, name, target, i);
      }
    }
  }

  // ---------- one line ----------

  /** Every line keeps the invariant: roster names fixed, follow lists
      well formed, every post by a roster name with non-empty content. */
  lemma StepKeepsInv(s: State, command: string, now: int)
    requires Inv(s.users, s.posts)
    ensures Inv(Step(s, command, now).state.users, Step(s, command, now).state.posts)
  {
    var r := Step(s, command, now).state;
    if Contains(command, PostDelimiter) {
      assert r.users == s.users;
    } else if Contains(command, FollowDelimiter) {
      var (name, target) := SplitCapture(command, FollowDelimiter);
      if target.Some? && name != target.value && IsUser(s.users, name) && IsUser(s.users, target.value) {
        FollowKeepsWellFormed(s.users, name, target.value);
        forall p | p in s.posts
          ensures IsUser(r.users, p.name)
        {
        }
      }
    }
  }

  /** A line holding `" -> "` goes to `post`, whatever else it holds. */
  lemma PostTakesPrecedence(s: State, command: string, now: int)
    requires Contains(command, PostDelimiter)
    ensures var r := Step(s, command, now);
      && r.completed
      && r.state.users == s.users
      && (r.state.posts, r.state.log) == (PostEffect(s.users, s.posts, command, now).0,
                                          s.log + [Echo(command)] + PostEffect(s.users, s.posts, command, now).1)
  {
  }

  /** A line that passes none of the four tests changes nothing but the log, which gains only the echo. */
  lemma UnrecognizedLineOnlyEchoes(s: State, command: string, now: int)
    requires !Contains(command, PostDelimiter) && !Contains(command, FollowDelimiter)
    requires !Contains(command, WallMarker) && !IsUser(s.users, command)
    ensures Step(s, command, now) == StepResult(State(s.users, s.posts, s.log + [Echo(command)]), true)
  {
  }

  /** `name -> content` by a roster name prepends exactly one post holding all
      of `content`, later `" -> "` included, and logs only the echo. */
  lemma PostByRosterName(s: State, name: string, content: string, now: int)
    requires Inv(s.users, s.posts) && name in Roster
    requires |content| > 0 && NoLineTerminators(content)
    ensures var command := name + PostDelimiter + content;
      Step(s, command, now) ==
        StepResult(State(s.users, [Post(name, content, now)] + s.posts, s.log + [Echo(command)]), true)
  {
    var command := name + PostDelimiter + content;
    assert command[|name|..|name| + 4] == PostDelimiter;
    assert OccursAt(command, PostDelimiter, |name|);
    RosterNamesArePlain(name);
    SplitJoin(name, PostDelimiter, content);
    RosterUsers(s.users, name);
  }

  /** A post whose author is not a roster name changes no post and logs one error. */
  lemma PostByStranger(s: State, command: string, now: int)
    requires Contains(command, PostDelimiter)
    requires !IsUser(s.users, SplitCapture(command, PostDelimiter).0)
    ensures Step(s, command, now) ==
      StepResult(State(s.users, s.posts, s.log + [Echo(command),
        LogEntry(ErrorType, "> " + SplitCapture(command, PostDelimiter).0 + " cannot posts.")]), true)
  {
  }

  /** `name -> content` by a single-word name outside the roster changes no
      post and logs `> name cannot posts.`. */
  lemma PostByNonRosterName(s: State, name: string, content: string, now: int)
    requires Names(s.users) == Roster && name !in Roster && ' ' !in name
    requires |content| > 0 && NoLineTerminators(content)
    ensures var command := name + PostDelimiter + content;
      Step(s, command, now) ==
        StepResult(State(s.users, s.posts, s.log + [Echo(command),
          LogEntry(ErrorType, "> " + name + " cannot posts.")]), true)
  {
    var command := name + PostDelimiter + content;
    assert command[|name|..|name| + 4] == PostDelimiter;
    assert OccursAt(command, PostDelimiter, |name|);
    SplitJoin(name, PostDelimiter, content);
    RosterUsers(s.users, name);
  }

  /** `name -> ` with nothing after the arrow does not split: the whole
      line is taken as the author and quoted in the error. */
  lemma PostWithEmptyContent(s: State, name: string, now: int)
    requires Names(s.users) == Roster && ' ' !in name
    ensures var command := name + PostDelimiter;
      Step(s, command, now) ==
        StepResult(State(s.users, s.posts, s.log + [Echo(command),
          LogEntry(ErrorType, "> " + command + " cannot posts.")]), true)
  {
    var command := name + PostDelimiter;
    assert command[|name|..] == PostDelimiter;
    assert OccursAt(command, PostDelimiter, |name|);
    forall k | OccursAt(command, PostDelimiter, k)
      ensures !CaptureAt(command, PostDelimiter, k)
    {
      assert command[k] == command[k..k + 4][0] == ' ';
      assert k >= |name|;
    }
    UnsplitPostLineIsNoUser(s.users, command);
  }

  /** `name follows target` between two different roster names adds the
      follow and logs only the echo. */
  lemma FollowByRosterNames(s: State, name: string, target: string, now: int)
    requires Inv(s.users, s.posts) && name in Roster && target in Roster && name != target
    ensures var command := name + FollowDelimiter + target;
      Step(s, command, now) ==
        StepResult(State(FollowUsers(s.users, name, target), s.posts, s.log + [Echo(command)]), true)
  {
    var command := name + FollowDelimiter + target;
    RosterNamesArePlain(name);
    RosterNamesArePlain(target);
    assert '>' !in FollowDelimiter;
    if Contains(command, PostDelimiter) {
      ContainsChar(command, PostDelimiter, 2);
      assert false;
    }
    assert command[|name|..|name| + 9] == FollowDelimiter;
    assert OccursAt(command, FollowDelimiter, |name|);
    SplitJoin(name, FollowDelimiter, target);
    RosterUsers(s.users, name);
    RosterUsers(s.users, target);
  }

  /** A follow that names no pair of distinct roster users changes nobody and logs one error. */
  lemma FollowRejected(s: State, command: string, now: int)
    requires !Contains(command, PostDelimiter) && Contains(command, FollowDelimiter)
    requires var (name, target) := SplitCapture(command, FollowDelimiter);
      !(target.Some? && name != target.value && IsUser(s.users, name) && IsUser(s.users, target.value))
    ensures Step(s, command, now) ==
      StepResult(State(s.users, s.posts, s.log + [Echo(command),
        LogEntry(ErrorType, "> " + SplitCapture(command, FollowDelimiter).0 + " or " +
          TemplateText(SplitCapture(command, FollowDelimiter).1) + " doesn't exists.")]), true)
  {
  }

  /** In `a follows a` with a space-free `a`, the only spaces are the two
      around `follows`. */
  lemma SpacesOfSelfFollow(a: string)
    requires ' ' !in a
    ensures var command := a + FollowDelimiter + a;
      forall k :: 0 <= k < |command| && command[k] == ' ' ==> k == |a| || k == |a| + 8
  {
    var command := a + FollowDelimiter + a;
    forall k | |a| <= k < |a| + 9
      ensures command[k] == FollowDelimiter[k - |a|]
    {
    }
  }

  /** Two spaces three apart, as `" -> "` needs, do not occur in `a follows a`. */
  lemma SelfFollowHasNoPostMarker(a: string)
    requires ' ' !in a
    ensures !Contains(a + FollowDelimiter + a, PostDelimiter)
  {
    var command := a + FollowDelimiter + a;
    if Contains(command, PostDelimiter) {
      var i :| 0 <= i <= |command| - 4 && OccursAt(command, PostDelimiter, i);
      assert command[i] == command[i..i + 4][0] == ' ';
      assert command[i + 3] == command[i..i + 4][3] == ' ';
      SpacesOfSelfFollow(a);
      assert false;
    }
  }

  /** `a follows a` is refused for every single-word name, in the roster or not. */
  lemma SelfFollowRejected(s: State, a: string, now: int)
    requires |a| > 0 && ' ' !in a && NoLineTerminators(a)
    ensures var command := a + FollowDelimiter + a;
      Step(s, command, now) ==
        StepResult(State(s.users, s.posts, s.log + [Echo(command),
          LogEntry(ErrorType, "> " + a + " or " + a + " doesn't exists.")]), true)
  {
    var command := a + FollowDelimiter + a;
    SelfFollowHasNoPostMarker(a);
    assert command[|a|..|a| + 9] == FollowDelimiter;
    assert OccursAt(command, FollowDelimiter, |a|);
    SplitJoin(a, FollowDelimiter, a);
  }

  /** Entering the same follow line twice leaves the roster as entering it once. */
  lemma FollowTwiceIsFollowOnce(s: State, command: string, t1: int, t2: int)
    ensures var once := Step(s, command, t1).state;
      Step(once, command, t2).state.users == once.users
  {
    var once := Step(s, command, t1).state;
    if !Contains(command, PostDelimiter) && Contains(command, FollowDelimiter) {
      var (name, target) := SplitCapture(command, FollowDelimiter);
      if target.Some? && name != target.value && IsUser(s.users, name) && IsUser(s.users, target.value) {
        FollowIdempotent(s.users, name, target.value);
      }
    }
  }

  /** Follow lists only grow. */
  lemma StepGrowsFollows(s: State, command: string, now: int, i: nat)
    requires i < |s.users|
    ensures var r := Step(s, command, now).state;
      i < |r.users| && s.users[i].follows <= r.users[i].follows
  {
    var r := Step(s, command, now).state;
    assert |Names(r.users)| == |Names(s.users)|;
  }

  /** A roster name on its own line reads that user's posts, newest first. */
  lemma ReadByRosterName(s: State, name: string, now: int)
    requires Inv(s.users, s.posts) && name in Roster
    ensures Step(s, name, now) ==
      StepResult(State(s.users, s.posts, s.log + [Echo(name)] + ReadEffect(s.posts, name, now)), true)
  {
    RosterNamesArePlain(name);
    if Contains(name, PostDelimiter) {
      ContainsChar(name, PostDelimiter, 0);
    }
    if Contains(name, FollowDelimiter) {
      ContainsChar(name, FollowDelimiter, 0);
    }
    if Contains(name, WallMarker) {
      ContainsChar(name, WallMarker, 0);
    }
    RosterUsers(s.users, name);
  }

  /** `name wall…` with a single-word `name` holds the wall marker, and the
      wall handler takes `name` as the user. */
  lemma WallLineDispatch(name: string, rest: string)
    requires ' ' !in name
    ensures var command := name + WallMarker + rest;
      Contains(command, WallMarker) && FirstToken(command) == name
  {
    var tail := WallMarker + rest;
    var command := name + tail;
    assert name + WallMarker + rest == command;
    assert command[|name|..|name| + 5] == WallMarker;
    assert OccursAt(command, WallMarker, |name|);
    FirstTokenOfWord(name, tail);
  }

  /** Text glued to the marker, as in `Alice wallpaper`, adds no post or
      follow marker: the line's only space is followed by `w`. */
  lemma GluedWallLineHasNoOtherMarker(name: string, rest: string)
    requires ' ' !in name && ' ' !in rest
    ensures var command := name + WallMarker + rest;
      !Contains(command, PostDelimiter) && !Contains(command, FollowDelimiter)
  {
    var command := name + WallMarker + rest;
    assert forall k :: 0 <= k < |command| && command[k] == ' ' ==> k == |name|;
    assert command[|name| + 1] == 'w';
    SoleSpaceExcludes(command, |name|, PostDelimiter);
    SoleSpaceExcludes(command, |name|, FollowDelimiter);
  }

  /** A line holding the wall marker but no post or follow marker, whose
      first token is the roster user at index `i`, shows their own posts and
      those of everyone they follow, newest first. `WallLineDispatch` gives
      these conditions for `name wall…`. */
  lemma WallOfRosterUser(s: State, i: nat, command: string, now: int)
    requires Inv(s.users, s.posts) && i < |s.users|
    requires !Contains(command, PostDelimiter) && !Contains(command, FollowDelimiter)
    requires Contains(command, WallMarker) && FirstToken(command) == s.users[i].name
    ensures var lines := WallLines(s.posts, s.users[i].name, s.users[i].follows, now);
      Step(s, command, now) ==
        StepResult(State(s.users, s.posts, s.log + [Echo(command)] +
          if |lines| > 0 then lines else [LogEntry(ErrorType, "> No posts")]), true)
  {
    FindRosterUser(s.users, i);
  }

  /** A line holding the wall marker but no post or follow marker, whose
      first token names no roster user: the lookup of the token's follows
      throws, so only the echo is logged and the line does not complete. */
  lemma WallOfNonRosterNameThrows(s: State, command: string, now: int)
    requires Names(s.users) == Roster && FirstToken(command) !in Roster
    requires !Contains(command, PostDelimiter) && !Contains(command, FollowDelimiter)
    requires Contains(command, WallMarker)
    ensures Step(s, command, now) == StepResult(State(s.users, s.posts, s.log + [Echo(command)]), false)
  {
    RosterUsers(s.users, FirstToken(command));
  }

  /** A roster user with no posts yet who posts `content` then reads their
      own name sees exactly one line, holding that content. */
  lemma ReadAfterFirstPost(s: State, name: string, content: string, t: int, now: int)
    requires Inv(s.users, s.posts) && name in Roster
    requires |content| > 0 && NoLineTerminators(content)
    requires forall p :: p in s.posts ==> p.name != name
    ensures var posted := Step(s, name + PostDelimiter + content, t).state;
      var r := Step(posted, name, now);
      r.completed && r.state.log == posted.log + [Echo(name), ReadLine(Post(name, content, t), now)]
  {
    var command := name + PostDelimiter + content;
    var post := Post(name, content, t);
    PostByRosterName(s, name, content, t);
    var posted := Step(s, command, t).state;
    assert posted == State(s.users, [post] + s.posts, s.log + [Echo(command)]);
    StepKeepsInv(s, command, t);
    ReadByRosterName(posted, name, now);
    assert ReadEffect(posted.posts, name, now) == [ReadLine(post, now)] by {
      ReadShowsNewestFirst(post, s.posts, now);
      ReadLinesSelect(s.posts, name, now);
      assert ReadLines(s.posts, name, now) == [];
    }
  }
}
