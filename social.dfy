/** The follower network of question2Graph.py: user profiles with a privacy setting,
    and a directed "follows" graph kept as an adjacency list per user. */
module Social {
  import opened Wrappers

  /** The network holds at most this many users. */
  const MaxUsers: nat := 10

  /** A user profile. `privacy` is taken as already lower-cased. */
  datatype Person = Person(username: string, name: string, gender: string, biography: string := "", privacy: string := "public")

  /** The profile shows only username and name. */
  predicate Hidden(p: Person, forceView: bool) {
    p.privacy == "private" && !forceView
  }

  function UpperAscii(c: char): char {
    if 'a' <= c <= 'z' then (c as int - 32) as char else c
  }

  function LowerAscii(c: char): char {
    if 'A' <= c <= 'Z' then (c as int + 32) as char else c
  }

  /** `str.capitalize` on ASCII text: first letter upper case, the rest lower case. */
  function Capitalize(s: string): (r: string)
    ensures |r| == |s|
    ensures s != [] ==> r[0] == UpperAscii(s[0])
    ensures forall i :: 0 < i < |s| ==> r[i] == LowerAscii(s[i])
  {
    if s == [] then [] else [UpperAscii(s[0])] + seq(|s| - 1, i requires 0 <= i < |s| - 1 => LowerAscii(s[i + 1]))
  }

  /** Some line of the profile starts with `tag`. */
  predicate Shows(lines: seq<string>, tag: string) {
    exists i :: 0 <= i < |lines| && tag <= lines[i]
  }

  /** `displayProfile(force_view)`, as its lines (the source joins them with newlines). */
  function DisplayProfile(p: Person, forceView: bool := false): (lines: seq<string>)
    ensures |lines| >= 3
    ensures lines[0] == "Username: " + p.username && lines[1] == "Name: " + p.name
    ensures Hidden(p, forceView) ==> |lines| == 3 && lines[2] == "Profile is private."
    ensures !Hidden(p, forceView) ==> (|lines| == 5 && lines[2] == "Gender: " + p.gender
                                       && lines[3] == "Biography: " + p.biography
                                       && lines[4] == "Privacy: " + Capitalize(p.privacy))
  {
    if Hidden(p, forceView) then
      ["Username: " + p.username, "Name: " + p.name, "Profile is private."]
    else
      ["Username: " + p.username, "Name: " + p.name, "Gender: " + p.gender,
       "Biography: " + p.biography, "Privacy: " + Capitalize(p.privacy)]
  }

  lemma NotPrefix(tag: string, line: string)
    requires tag != [] && line != [] && tag[0] != line[0]
    ensures !(tag <= line)
  {
  }

  /** Gender and biography are shown exactly when the profile is public or the view is
      forced; the username and the name are always shown. */
  lemma DisplayProfileHides(p: Person, forceView: bool)
    ensures Shows(DisplayProfile(p, forceView), "Gender: ") <==> !Hidden(p, forceView)
    ensures Shows(DisplayProfile(p, forceView), "Biography: ") <==> !Hidden(p, forceView)
    ensures Shows(DisplayProfile(p, forceView), "Username: ") && Shows(DisplayProfile(p, forceView), "Name: ")
  {
    var lines := DisplayProfile(p, forceView);
    assert "Username: " <= lines[0] && "Name: " <= lines[1];
    if Hidden(p, forceView) {
      forall i | 0 <= i < |lines|
        ensures !("Gender: " <= lines[i]) && !("Biography: " <= lines[i])
      {
        NotPrefix("Gender: ", lines[i]);
        NotPrefix("Biography: ", lines[i]);
      }
    } else {
      assert "Gender: " <= lines[2] && "Biography: " <= lines[3];
    }
  }

  /** A forced view shows every field, whatever the privacy setting. */
  lemma ForcedViewShowsAll(p: Person)
    ensures |DisplayProfile(p, true)| == 5
    ensures DisplayProfile(p, true)[2] == "Gender: " + p.gender
    ensures DisplayProfile(p, true)[3] == "Biography: " + p.biography
    ensures DisplayProfile(p, true)[4] == "Privacy: " + Capitalize(p.privacy)
  {
  }

  predicate NoDuplicates(s: seq<string>) {
    forall i, j :: 0 <= i < j < |s| ==> s[i] != s[j]
  }

  function IndexOf(s: seq<string>, x: string): (i: nat)
    requires x in s
    ensures i < |s| && s[i] == x && x !in s[..i]
  {
    if s[0] == x then 0 else 1 + IndexOf(s[1..], x)
  }

  /** `list.remove(x)`: the first occurrence of `x` is deleted and the other elements
      keep their order. */
  function RemoveFirst(s: seq<string>, x: string): (r: seq<string>)
    requires x in s
    ensures |r| == |s| - 1
    ensures multiset(r) == multiset(s) - multiset{x}
    ensures exists i :: 0 <= i < |s| && s[i] == x && x !in s[..i] && r == s[..i] + s[i + 1..]
  {
    var i := IndexOf(s, x);
    assert s == s[..i] + [x] + s[i + 1..];
    s[..i] + s[i + 1..]
  }

  /** Removing from a list without duplicates leaves one without duplicates and without
      the removed element. */
  lemma RemoveFirstNoDuplicates(s: seq<string>, x: string)
    requires x in s && NoDuplicates(s)
    ensures NoDuplicates(RemoveFirst(s, x))
    ensures x !in RemoveFirst(s, x)
    ensures forall y :: y in RemoveFirst(s, x) <==> y in s && y != x
  {
    var i := IndexOf(s, x);
    var r := RemoveFirst(s, x);
    assert r == s[..i] + s[i + 1..];
    forall k | 0 <= k < |r|
      ensures r[k] == s[if k < i then k else k + 1] && r[k] != x
    {
    }
    forall y | y in s && y != x
      ensures y in r
    {
      var k :| 0 <= k < |s| && s[k] == y;
      assert r[if k < i then k else k - 1] == y;
    }
  }

  /** Following then unfollowing someone not yet followed gives the list back. */
  lemma {:induction false} RemoveAppended(s: seq<string>, x: string)
    requires x !in s
    ensures RemoveFirst(s + [x], x) == s
  {
    var i := IndexOf(s + [x], x);
    assert i == |s|;
    assert (s + [x])[..i] == s;
  }

  /** The adjacency lists after `a` follows `b`: `b` goes to the end of `a`'s list,
      and the users and every other list stay as they were. */
  function FollowEdge(following: map<string, seq<string>>, a: string, b: string): (r: map<string, seq<string>>)
    requires a in following
    ensures r.Keys == following.Keys
    ensures r[a] == following[a] + [b]
    ensures forall c :: c in following && c != a ==> r[c] == following[c]
  {
    following[a := following[a] + [b]]
  }

  /** The adjacency lists after `a` stops following `b`: the first `b` in `a`'s list
      is removed, and the users and every other list stay as they were. */
  function UnfollowEdge(following: map<string, seq<string>>, a: string, b: string): (r: map<string, seq<string>>)
    requires a in following && b in following[a]
    ensures r.Keys == following.Keys
    ensures |r[a]| == |following[a]| - 1
    ensures r[a] == RemoveFirst(following[a], b)
    ensures forall c :: c in following && c != a ==> r[c] == following[c]
  {
    following[a := RemoveFirst(following[a], b)]
  }

  /** Round trip: unfollowing undoes a follow of someone not yet followed. */
  lemma FollowUnfollow(following: map<string, seq<string>>, a: string, b: string)
    requires a in following && b !in following[a]
    ensures b in FollowEdge(following, a, b)[a]
    ensures UnfollowEdge(FollowEdge(following, a, b), a, b) == following
  {
    RemoveAppended(following[a], b);
  }

  /** The users among `order` whose list contains `u`, in the order of `order`. */
  function FollowersAmong(order: seq<string>, following: map<string, seq<string>>, u: string): (r: seq<string>)
    requires forall j :: 0 <= j < |order| ==> order[j] in following
    ensures forall v :: v in r <==> v in order && u in following[v]
  {
    if order == [] then []
    else
      var v := order[|order| - 1];
      var prev := order[..|order| - 1];
      FollowersAmong(prev, following, u) + (if u in following[v] then [v] else [])
  }

  /** Each follower is listed once when the users are distinct. */
  lemma {:induction false} FollowersDistinct(order: seq<string>, following: map<string, seq<string>>, u: string)
    requires forall j :: 0 <= j < |order| ==> order[j] in following
    requires NoDuplicates(order)
    ensures NoDuplicates(FollowersAmong(order, following, u))
  {
    if order != [] {
      var prev := order[..|order| - 1];
      FollowersDistinct(prev, following, u);
      assert order[|order| - 1] !in prev;
    }
  }

  lemma FollowersStep(order: seq<string>, following: map<string, seq<string>>, u: string, k: nat)
    requires forall j :: 0 <= j < |order| ==> order[j] in following
    requires k < |order|
    ensures FollowersAmong(order[..k + 1], following, u)
         == FollowersAmong(order[..k], following, u) + (if u in following[order[k]] then [order[k]] else [])
  {
    assert order[..k + 1][..k] == order[..k];
  }

  /** The graph invariant: at most `MaxUsers` users, each stored under its own
      username; one following list per user, without duplicates and naming only
      users; `order` lists every user once. */
  ghost predicate GraphInvariant(users: map<string, Person>, following: map<string, seq<string>>, order: seq<string>) {
    && |users| <= MaxUsers
    && following.Keys == users.Keys
    && (forall u :: u in users ==> users[u].username == u)
    && (forall u :: u in following ==> NoDuplicates(following[u]))
    && (forall u, v :: u in following && v in following[u] ==> v in users)
    && NoDuplicates(order)
    && (forall u :: u in order <==> u in users)
  }

  /** Adding a new user, while there is room, with an empty following list keeps the
      invariant. */
  lemma AddKeepsInvariant(users: map<string, Person>, following: map<string, seq<string>>, order: seq<string>, p: Person)
    requires GraphInvariant(users, following, order)
    requires p.username !in users && |users| < MaxUsers
    ensures GraphInvariant(users[p.username := p], following[p.username := []], order + [p.username])
  {
  }

  /** A follow between two users that are not yet linked keeps the invariant. */
  lemma FollowKeepsInvariant(users: map<string, Person>, following: map<string, seq<string>>, order: seq<string>, a: string, b: string)
    requires GraphInvariant(users, following, order)
    requires a in users && b in users && b !in following[a]
    ensures GraphInvariant(users, FollowEdge(following, a, b), order)
  {
  }

  /** Removing an edge keeps the invariant. */
  lemma UnfollowKeepsInvariant(users: map<string, Person>, following: map<string, seq<string>>, order: seq<string>, a: string, b: string)
    requires GraphInvariant(users, following, order)
    requires a in users && b in following[a]
    ensures GraphInvariant(users, UnfollowEdge(following, a, b), order)
  {
    RemoveFirstNoDuplicates(following[a], b);
  }

  /** In a network, the followers of `u` listed in user order are exactly the users
      whose list names `u`, each once. */
  lemma FollowersExactly(users: map<string, Person>, following: map<string, seq<string>>, order: seq<string>, u: string)
    requires GraphInvariant(users, following, order)
    ensures forall j :: 0 <= j < |order| ==> order[j] in following
    ensures forall v :: v in FollowersAmong(order, following, u) <==> v in users && u in following[v]
    ensures NoDuplicates(FollowersAmong(order, following, u))
  {
    FollowersDistinct(order, following, u);
  }

  /** What `listFollowers` reports. */
  datatype FollowersReport = UserNotFound | NoFollowers | Followers(usernames: seq<string>)

  /** What `follow` reports. */
  datatype FollowOutcome = Followed | AlreadyFollowing | UnknownUser

  /** The network. `order` is the insertion order of the two dictionaries, which
      receive their keys together. */
  class SocialGraph {
    var users: map<string, Person>
    var following: map<string, seq<string>>
    var order: seq<string>

    ghost predicate Valid()
      reads this
    {
      GraphInvariant(users, following, order)
    }

    /** `SocialGraph()`: no users, no edges. */
    constructor ()
      ensures Valid()
      ensures users == map[] && following == map[] && order == []
    {
      users := map[];
      following := map[];
      order := [];
    }

    /** `addUser(person)`: added, with an empty following list, exactly when the
        username is new and fewer than `MaxUsers` users exist. */
    method AddUser(p: Person) returns (added: bool)
      requires Valid()
      modifies this
      ensures Valid()
      ensures added <==> p.username !in old(users) && |old(users)| < MaxUsers
      ensures added ==> (users == old(users)[p.username := p]
                         && following == old(following)[p.username := []]
                         && order == old(order) + [p.username])
      ensures !added ==> users == old(users) && following == old(following) && order == old(order)
    {
      added := p.username !in users && |users| < MaxUsers;
      if added {
        AddKeepsInvariant(users, following, order, p);
        users := users[p.username := p];
        following := following[p.username := []];
        order := order + [p.username];
      }
    }

    /** `follow(follower, followee)`. */
    method Follow(a: string, b: string) returns (outcome: FollowOutcome)
      requires Valid()
      modifies this`following
      ensures Valid()
      ensures outcome == UnknownUser <==> a !in users || b !in users
      ensures outcome == AlreadyFollowing <==> a in users && b in users && b in old(following)[a]
      ensures outcome == Followed ==> following == FollowEdge(old(following), a, b)
      ensures outcome != Followed ==> following == old(following)
    {
      if a in users && b in users {
        if b !in following[a] {
          FollowKeepsInvariant(users, following, order, a, b);
          following := FollowEdge(following, a, b);
          outcome := Followed;
        } else {
          outcome := AlreadyFollowing;
        }
      } else {
        outcome := UnknownUser;
      }
    }

    /** `unfollow(follower, followee)`; the list of an unknown follower is never read. */
    method Unfollow(a: string, b: string) returns (done: bool)
      requires Valid()
      modifies this`following
      ensures Valid()
      ensures done <==> a in users && b in old(following)[a]
      ensures done ==> following == UnfollowEdge(old(following), a, b)
      ensures !done ==> following == old(following)
    {
      done := a in users && b in following[a];
      if done {
        UnfollowKeepsInvariant(users, following, order, a, b);
        following := UnfollowEdge(following, a, b);
      }
    }

    /** `viewProfile(username)`: the full profile, privacy ignored. */
    function ViewProfile(username: string): (r: Option<seq<string>>)
      reads this
      ensures r.Some? <==> username in users
      ensures r.Some? ==> r.value == DisplayProfile(users[username], true)
      ensures r.Some? ==> (|r.value| == 5 && r.value[0] == "Username: " + users[username].username
                           && r.value[1] == "Name: " + users[username].name
                           && r.value[2] == "Gender: " + users[username].gender
                           && r.value[3] == "Biography: " + users[username].biography
                           && r.value[4] == "Privacy: " + Capitalize(users[username].privacy))
    {
      if username in users then
        ForcedViewShowsAll(users[username]);
        Some(DisplayProfile(users[username], true))
      else None
    }

    /** `listFollowers(username)`: the loop over all users with the `found` flag. */
    method ListFollowers(u: string) returns (report: FollowersReport)
      requires Valid()
      ensures report == UserNotFound <==> u !in users
      ensures report == NoFollowers <==> u in users && (forall v :: v in users ==> u !in following[v])
      ensures report.Followers? ==> report.usernames == FollowersAmong(order, following, u)
      ensures report.Followers? ==> NoDuplicates(report.usernames)
      ensures report.Followers? ==> forall v :: v in report.usernames <==> v in users && u in following[v]
    {
      if u !in users {
        return UserNotFound;
      }
      FollowersExactly(users, following, order, u);
      var acc: seq<string> := [];
      var found := false;
      for k := 0 to |order|
        invariant acc == FollowersAmong(order[..k], following, u)
        invariant found <==> acc != []
      {
        FollowersStep(order, following, u, k);
        if u in following[order[k]] {
          acc := acc + [order[k]];
          found := true;
        }
      }
      assert order[..|order|] == order;
      if !found {
        forall v | v in users
          ensures u !in following[v]
        {
          assert v !in acc;
        }
        report := NoFollowers;
      } else {
        assert acc[0] in acc;
        report := Followers(acc);
      }
    }
  }
}
