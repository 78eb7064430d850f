/** The store's read side and derived values as functions of its tables'
    contents (each table's values in insertion order): the panel filter and
    sort, contributor counting and listing, vote lookups, and the challenge
    projections. The class in Storage reads its state through these. */
module Queries {
  import opened Wrappers
  import opened Schema
  import opened JsArray

  // ---------------------------------------------------------------- panels

  /** `panels.filter(panel => panel.challengeId === challengeId)`. */
  function PanelsFor(ps: seq<Panel>, challengeId: int): (r: seq<Panel>)
    ensures |r| <= |ps|
    ensures forall i :: 0 <= i < |r| ==> r[i].challengeId == challengeId
  {
    if ps == [] then []
    else
      var init := PanelsFor(ps[..|ps| - 1], challengeId);
      var last := ps[|ps| - 1];
      assert ps == ps[..|ps| - 1] + [last];
      if last.challengeId == challengeId then init + [last] else init
  }

  /** The filter keeps exactly the panels of the challenge. */
  lemma {:induction false} PanelsForMembers(ps: seq<Panel>, challengeId: int)
    ensures forall p :: p in PanelsFor(ps, challengeId) <==> p in ps && p.challengeId == challengeId
  {
    if ps != [] {
      var init := ps[..|ps| - 1];
      PanelsForMembers(init, challengeId);
      assert ps == init + [ps[|ps| - 1]];
    }
  }

  lemma PanelsForAppend(ps: seq<Panel>, p: Panel, challengeId: int)
    ensures PanelsFor(ps + [p], challengeId)
         == PanelsFor(ps, challengeId) + (if p.challengeId == challengeId then [p] else [])
  {
    assert (ps + [p])[..|ps|] == ps;
  }

  lemma {:induction false} PanelsForNone(ps: seq<Panel>, challengeId: int)
    requires forall i :: 0 <= i < |ps| ==> ps[i].challengeId != challengeId
    ensures PanelsFor(ps, challengeId) == []
  {
    if ps != [] {
      PanelsForNone(ps[..|ps| - 1], challengeId);
    }
  }

  /** Each panel's position is one more than the number of panels stored
      before it for the same challenge: what createPanel assigns. */
  ghost predicate PositionsSequential(ps: seq<Panel>)
  {
    ps == [] ||
      var init := ps[..|ps| - 1];
      var last := ps[|ps| - 1];
      PositionsSequential(init) && last.position == |PanelsFor(init, last.challengeId)| + 1
  }

  lemma PositionsSequentialAppend(ps: seq<Panel>, p: Panel)
    requires PositionsSequential(ps)
    requires p.position == |PanelsFor(ps, p.challengeId)| + 1
    ensures PositionsSequential(ps + [p])
  {
    assert (ps + [p])[..|ps|] == ps;
  }

  /** The positions of one challenge's panels, in creation order, are exactly 1..N. */
  lemma {:induction false} PositionsRunOneToN(ps: seq<Panel>, challengeId: int)
    requires PositionsSequential(ps)
    ensures forall j :: 0 <= j < |PanelsFor(ps, challengeId)| ==> PanelsFor(ps, challengeId)[j].position == j + 1
  {
    if ps != [] {
      var init := ps[..|ps| - 1];
      PositionsRunOneToN(init, challengeId);
      PanelsForAppend(init, ps[|ps| - 1], challengeId);
      assert init + [ps[|ps| - 1]] == ps;
    }
  }

  /** Two panel lists that differ at most in their vote counts. */
  ghost predicate VotesOnlyChanged(a: seq<Panel>, b: seq<Panel>)
  {
    |a| == |b| && forall i :: 0 <= i < |a| ==> b[i] == a[i].(votes := b[i].votes)
  }

  lemma {:induction false} VotesOnlyChangedFilter(a: seq<Panel>, b: seq<Panel>, challengeId: int)
    requires VotesOnlyChanged(a, b)
    ensures VotesOnlyChanged(PanelsFor(a, challengeId), PanelsFor(b, challengeId))
  {
    if a != [] {
      var n := |a| - 1;
      assert VotesOnlyChanged(a[..n], b[..n]);
      VotesOnlyChangedFilter(a[..n], b[..n], challengeId);
    }
  }

  lemma {:induction false} VotesOnlyChangedPositions(a: seq<Panel>, b: seq<Panel>)
    requires VotesOnlyChanged(a, b) && PositionsSequential(a)
    ensures PositionsSequential(b)
  {
    if a != [] {
      var n := |a| - 1;
      assert VotesOnlyChanged(a[..n], b[..n]);
      VotesOnlyChangedPositions(a[..n], b[..n]);
      VotesOnlyChangedFilter(a[..n], b[..n], a[n].challengeId);
    }
  }

  // ---------------------------------------------------------------- sorting

  ghost predicate SortedByPosition(ps: seq<Panel>)
  {
    forall i, j :: 0 <= i < j < |ps| ==> ps[i].position <= ps[j].position
  }

  /** Puts p after every element whose position is not larger than its own,
      so equal positions keep their order. */
  function InsertByPosition(sorted: seq<Panel>, p: Panel): (r: seq<Panel>)
    requires SortedByPosition(sorted)
    ensures SortedByPosition(r)
    ensures multiset(r) == multiset(sorted) + multiset{p}
    ensures |r| == |sorted| + 1
  {
    if sorted == [] then [p]
    else
      var init, last := sorted[..|sorted| - 1], sorted[|sorted| - 1];
      assert sorted == init + [last];
      if last.position <= p.position then sorted + [p]
      else
        var r' := InsertByPosition(init, p);
        forall x | x in r' ensures x.position <= last.position {
          assert x in multiset(r');
          if x != p {
            assert x in multiset(init);
          }
        }
        r' + [last]
  }

  /** `sort((a, b) => a.position - b.position)`: a stable sort by position. */
  function SortByPosition(ps: seq<Panel>): (r: seq<Panel>)
    ensures SortedByPosition(r)
    ensures multiset(r) == multiset(ps)
    ensures |r| == |ps|
  {
    if ps == [] then []
    else
      assert ps == ps[..|ps| - 1] + [ps[|ps| - 1]];
      InsertByPosition(SortByPosition(ps[..|ps| - 1]), ps[|ps| - 1])
  }

  lemma {:induction false} SortOfSortedIsIdentity(ps: seq<Panel>)
    requires SortedByPosition(ps)
    ensures SortByPosition(ps) == ps
  {
    if ps != [] {
      var init, last := ps[..|ps| - 1], ps[|ps| - 1];
      assert SortedByPosition(init);
      SortOfSortedIsIdentity(init);
      InsertAfterLast(init, last);
      assert init + [last] == ps;
      assert SortByPosition(ps) == InsertByPosition(SortByPosition(init), last);
    }
  }

  lemma InsertAfterLast(sorted: seq<Panel>, p: Panel)
    requires SortedByPosition(sorted)
    requires sorted != [] ==> sorted[|sorted| - 1].position <= p.position
    ensures InsertByPosition(sorted, p) == sorted + [p]
  {
  }

  /** getPanelsByChallenge: the challenge's panels sorted by position. */
  function PanelsByChallenge(ps: seq<Panel>, challengeId: int): (r: seq<Panel>)
    ensures SortedByPosition(r)
    ensures multiset(r) == multiset(PanelsFor(ps, challengeId))
  {
    SortByPosition(PanelsFor(ps, challengeId))
  }

  /** Exactly the panels of that challenge, sorted by position; in a store
      whose positions were assigned by createPanel this is creation order. */
  lemma PanelsByChallengeSpec(ps: seq<Panel>, challengeId: int)
    ensures SortedByPosition(PanelsByChallenge(ps, challengeId))
    ensures multiset(PanelsByChallenge(ps, challengeId)) == multiset(PanelsFor(ps, challengeId))
    ensures PositionsSequential(ps) ==> PanelsByChallenge(ps, challengeId) == PanelsFor(ps, challengeId)
    ensures PositionsSequential(ps) ==>
      forall j :: 0 <= j < |PanelsFor(ps, challengeId)| ==> PanelsFor(ps, challengeId)[j].position == j + 1
  {
    if PositionsSequential(ps) {
      PositionsRunOneToN(ps, challengeId);
      SortOfSortedIsIdentity(PanelsFor(ps, challengeId));
    }
  }

  // ---------------------------------------------------------------- contributors

  /** The distinct author ids of a list of panels. */
  function AuthorIds(ps: seq<Panel>): set<int>
  {
    if ps == [] then {} else {ps[0].userId} + AuthorIds(ps[1..])
  }

  /** An id is an author id exactly when some panel carries it. */
  lemma {:induction false} AuthorIdsMembers(ps: seq<Panel>, u: int)
    ensures u in AuthorIds(ps) <==> exists i :: 0 <= i < |ps| && ps[i].userId == u
  {
    if ps != [] {
      AuthorIdsMembers(ps[1..], u);
      if u in AuthorIds(ps[1..]) {
        var j :| 0 <= j < |ps[1..]| && ps[1..][j].userId == u;
        assert ps[j + 1].userId == u;
      }
      if exists i :: 0 <= i < |ps| && ps[i].userId == u {
        var i :| 0 <= i < |ps| && ps[i].userId == u;
        if i > 0 {
          assert ps[1..][i - 1].userId == u;
        }
      }
    }
  }

  /** Author ids all lie in any set holding every panel's author. */
  lemma {:induction false} AuthorIdsWithin(ps: seq<Panel>, ids: set<int>)
    requires forall i :: 0 <= i < |ps| ==> ps[i].userId in ids
    ensures AuthorIds(ps) <= ids
  {
    if ps != [] {
      AuthorIdsWithin(ps[1..], ids);
    }
  }

  /** countUniqueContributors as a number: at most one per panel of the
      challenge, and zero exactly when it has no panels. */
  function ContributorCount(ps: seq<Panel>, challengeId: int): (count: nat)
    ensures count <= |PanelsFor(ps, challengeId)|
    ensures count == 0 <==> PanelsFor(ps, challengeId) == []
  {
    AuthorIdsSize(PanelsFor(ps, challengeId));
    |AuthorIds(PanelsFor(ps, challengeId))|
  }

  /** No more author ids than panels, and none only for no panels. */
  lemma {:induction false} AuthorIdsSize(ps: seq<Panel>)
    ensures |AuthorIds(ps)| <= |ps|
    ensures AuthorIds(ps) == {} <==> ps == []
  {
    if ps != [] {
      AuthorIdsSize(ps[1..]);
      assert ps[0].userId in AuthorIds(ps);
    }
  }

  /** The walk of getUniqueContributors from a given set of already seen ids:
      an id is recorded as seen the first time, and its username is listed
      only when the user exists. */
  function ContributorNames(ps: seq<Panel>, users: map<int, User>, seen: set<int>): (names: seq<string>)
    ensures |names| <= |ps|
    ensures AuthorIds(ps) <= seen ==> names == []
  {
    if ps == [] then []
    else if ps[0].userId in seen then ContributorNames(ps[1..], users, seen)
    else
      var u := ps[0].userId;
      (if u in users then [users[u].username] else []) + ContributorNames(ps[1..], users, seen + {u})
  }

  /** The distinct author ids in order of first appearance, built from the
      last panel backwards. */
  function FirstAppearances(ps: seq<Panel>): (ids: seq<int>)
    ensures forall u :: u in ids <==> u in AuthorIds(ps)
  {
    if ps == [] then []
    else
      var init := ps[..|ps| - 1];
      var last := ps[|ps| - 1];
      var prev := FirstAppearances(init);
      assert AuthorIds(ps) == AuthorIds(init) + {last.userId} by {
        AuthorIdsAppend(init, last);
        assert init + [last] == ps;
      }
      if last.userId in prev then prev else prev + [last.userId]
  }

  lemma {:induction false} AuthorIdsAppend(ps: seq<Panel>, p: Panel)
    ensures AuthorIds(ps + [p]) == AuthorIds(ps) + {p.userId}
  {
    if ps != [] {
      assert (ps + [p])[1..] == ps[1..] + [p];
      AuthorIdsAppend(ps[1..], p);
    }
  }

  /** Each author appears once among the first appearances. */
  lemma {:induction false} FirstAppearancesDistinct(ps: seq<Panel>, i: nat, j: nat)
    requires i < j < |FirstAppearances(ps)|
    ensures FirstAppearances(ps)[i] != FirstAppearances(ps)[j]
  {
    var init := ps[..|ps| - 1];
    var prev := FirstAppearances(init);
    if j < |prev| {
      FirstAppearancesDistinct(init, i, j);
    } else {
      assert FirstAppearances(ps) == prev + [ps[|ps| - 1].userId];
      assert prev[i] in prev;
    }
  }

  /** The order of first appearance: for i < j, any panel by the j-th
      author is preceded by a panel of the i-th. */
  lemma {:induction false} FirstAppearancesOrdered(ps: seq<Panel>, i: nat, j: nat, k: nat)
    requires i < j < |FirstAppearances(ps)| && k < |ps| && ps[k].userId == FirstAppearances(ps)[j]
    ensures exists k' :: 0 <= k' < k && ps[k'].userId == FirstAppearances(ps)[i]
  {
    var init, last := ps[..|ps| - 1], ps[|ps| - 1];
    var prev, ids := FirstAppearances(init), FirstAppearances(ps);
    assert ids == prev || ids == prev + [last.userId];
    assert i < |prev| && ids[i] == prev[i];
    if j < |prev| {
      assert ids[j] == prev[j];
      var k0 := k;
      if k == |init| {
        assert prev[j] in prev;
        AuthorIdsMembers(init, prev[j]);
        k0 :| 0 <= k0 < |init| && init[k0].userId == prev[j];
      } else {
        assert init[k] == ps[k];
      }
      FirstAppearancesOrdered(init, i, j, k0);
      var k' :| 0 <= k' < k0 && init[k'].userId == prev[i];
      assert ps[k'] == init[k'];
    } else {
      assert ids == prev + [last.userId] && last.userId !in prev && ids[j] == last.userId;
      if k < |init| {
        assert init[k] == ps[k];
        AuthorIdsMembers(init, last.userId);
        assert false;
      }
      assert prev[i] in prev;
      AuthorIdsMembers(init, prev[i]);
      var k' :| 0 <= k' < |init| && init[k'].userId == prev[i];
      assert ps[k'] == init[k'];
    }
  }

  /** The usernames of the given ids, skipping ids with no user. */
  function UsernamesOf(ids: seq<int>, users: map<int, User>): seq<string>
  {
    if ids == [] then []
    else UsernamesOf(ids[..|ids| - 1], users)
         + (if ids[|ids| - 1] in users then [users[ids[|ids| - 1]].username] else [])
  }

  lemma {:induction false} UsernamesOfAppend(a: seq<int>, b: seq<int>, users: map<int, User>)
    ensures UsernamesOf(a + b, users) == UsernamesOf(a, users) + UsernamesOf(b, users)
  {
    if b == [] {
      assert a + b == a;
    } else {
      var b' := b[..|b| - 1];
      assert (a + b)[..|a + b| - 1] == a + b';
      UsernamesOfAppend(a, b', users);
    }
  }

  lemma {:induction false} ContributorNamesAppend(a: seq<Panel>, b: seq<Panel>, users: map<int, User>, seen: set<int>)
    ensures ContributorNames(a + b, users, seen)
         == ContributorNames(a, users, seen) + ContributorNames(b, users, seen + AuthorIds(a))
  {
    if a == [] {
      assert a + b == b;
      assert seen + AuthorIds(a) == seen;
    } else {
      assert (a + b)[1..] == a[1..] + b;
      var u := a[0].userId;
      if u in seen {
        ContributorNamesAppend(a[1..], b, users, seen);
        assert seen + AuthorIds(a) == seen + AuthorIds(a[1..]);
      } else {
        ContributorNamesAppend(a[1..], b, users, seen + {u});
        assert seen + {u} + AuthorIds(a[1..]) == seen + AuthorIds(a);
      }
    }
  }

  /** getUniqueContributors lists the username of each author once, in order of
      first appearance, leaving out authors with no user record. */
  lemma {:induction false} ContributorNamesInFirstAppearanceOrder(ps: seq<Panel>, users: map<int, User>)
    ensures ContributorNames(ps, users, {}) == UsernamesOf(FirstAppearances(ps), users)
  {
    if ps != [] {
      var init := ps[..|ps| - 1];
      var last := ps[|ps| - 1];
      assert ps == init + [last];
      ContributorNamesInFirstAppearanceOrder(init, users);
      ContributorNamesAppend(init, [last], users, {});
      var prev := FirstAppearances(init);
      if last.userId in prev {
        assert ContributorNames([last], users, AuthorIds(init)) == [];
      } else {
        UsernamesOfAppend(prev, [last.userId], users);
        assert UsernamesOf([last.userId], users) == ContributorNames([last], users, AuthorIds(init)) by {
          assert [last.userId][..0] == [];
          assert [last][1..] == [];
        }
      }
    }
  }

  /** The listed names number the distinct authors that have a user record,
      so with every author present, getUniqueContributors has exactly as many
      entries as countUniqueContributors counts. */
  lemma {:induction false} ContributorNamesCount(ps: seq<Panel>, users: map<int, User>, seen: set<int>)
    ensures |ContributorNames(ps, users, seen)| == |(AuthorIds(ps) - seen) * users.Keys|
  {
    if ps == [] {
      assert (AuthorIds(ps) - seen) * users.Keys == {};
    } else {
      var u := ps[0].userId;
      var tail := AuthorIds(ps[1..]);
      assert AuthorIds(ps) == {u} + tail;
      if u in seen {
        ContributorNamesCount(ps[1..], users, seen);
        assert AuthorIds(ps) - seen == tail - seen;
      } else {
        ContributorNamesCount(ps[1..], users, seen + {u});
        NewIdCount(tail, seen, u, users.Keys);
      }
    }
  }

  lemma NewIdCount(tail: set<int>, seen: set<int>, u: int, present: set<int>)
    requires u !in seen
    ensures |({u} + tail - seen) * present|
         == |(tail - (seen + {u})) * present| + (if u in present then 1 else 0)
  {
    var rest := (tail - (seen + {u})) * present;
    if u in present {
      assert ({u} + tail - seen) * present == rest + {u};
    } else {
      assert ({u} + tail - seen) * present == rest;
    }
  }

  lemma ContributorNamesMatchCount(ps: seq<Panel>, users: map<int, User>, challengeId: int)
    requires forall i :: 0 <= i < |ps| ==> ps[i].userId in users
    ensures |ContributorNames(PanelsFor(ps, challengeId), users, {})| == ContributorCount(ps, challengeId)
  {
    var fs := PanelsFor(ps, challengeId);
    PanelsForMembers(ps, challengeId);
    assert forall i :: 0 <= i < |fs| ==> fs[i].userId in users by {
      forall i | 0 <= i < |fs| ensures fs[i].userId in users {
        assert fs[i] in ps;
      }
    }
    ContributorNamesCount(fs, users, {});
    AuthorIdsWithin(fs, users.Keys);
    assert (AuthorIds(fs) - {}) * users.Keys == AuthorIds(fs);
  }

  lemma {:induction false} VotesOnlyChangedAuthors(a: seq<Panel>, b: seq<Panel>, users: map<int, User>, seen: set<int>)
    requires VotesOnlyChanged(a, b)
    ensures AuthorIds(a) == AuthorIds(b)
    ensures ContributorNames(a, users, seen) == ContributorNames(b, users, seen)
  {
    if a != [] {
      assert VotesOnlyChanged(a[1..], b[1..]);
      VotesOnlyChangedAuthors(a[1..], b[1..], users, seen);
      VotesOnlyChangedAuthors(a[1..], b[1..], users, seen + {a[0].userId});
    }
  }

  // ---------------------------------------------------------------- votes

  /** `votes.some(vote => vote.panelId === panelId && vote.userId === userId)`. */
  /** `some` over the votes; it holds exactly when the `find` scan for the
      pair stops somewhere. */
  function HasVoted(vs: seq<Vote>, panelId: int, userId: int): (voted: bool)
    ensures voted <==> FindIndex(vs, (v: Vote) => v.panelId == panelId && v.userId == userId).Some?
  {
    exists i :: 0 <= i < |vs| && vs[i].panelId == panelId && vs[i].userId == userId
  }

  /** No vote repeats the (panel, user) pair of an earlier one. */
  ghost predicate VotesUnique(vs: seq<Vote>)
  {
    vs == [] || (VotesUnique(vs[..|vs| - 1]) && !HasVoted(vs[..|vs| - 1], vs[|vs| - 1].panelId, vs[|vs| - 1].userId))
  }

  /** Hence no two votes share a (panel, user) pair. */
  lemma {:induction false} VotesUniqueAt(vs: seq<Vote>, i: nat, j: nat)
    requires VotesUnique(vs) && i < j < |vs|
    ensures vs[i].panelId != vs[j].panelId || vs[i].userId != vs[j].userId
  {
    var init := vs[..|vs| - 1];
    if j < |vs| - 1 {
      VotesUniqueAt(init, i, j);
    } else {
      assert vs[i] == init[i];
    }
  }

  /** The number of stored votes naming a panel. */
  function VoteCount(vs: seq<Vote>, panelId: int): nat
  {
    if vs == [] then 0
    else VoteCount(vs[..|vs| - 1], panelId) + (if vs[|vs| - 1].panelId == panelId then 1 else 0)
  }

  lemma {:induction false} VoteCountNone(vs: seq<Vote>, panelId: int)
    requires forall i :: 0 <= i < |vs| ==> vs[i].panelId != panelId
    ensures VoteCount(vs, panelId) == 0
  {
    if vs != [] {
      VoteCountNone(vs[..|vs| - 1], panelId);
    }
  }

  /** Adding a vote for a pair that has none keeps pairs unique and records the pair. */
  lemma VoteAppend(vs: seq<Vote>, v: Vote)
    requires VotesUnique(vs) && !HasVoted(vs, v.panelId, v.userId)
    ensures VotesUnique(vs + [v])
    ensures HasVoted(vs + [v], v.panelId, v.userId)
    ensures forall pid :: VoteCount(vs + [v], pid) == VoteCount(vs, pid) + (if v.panelId == pid then 1 else 0)
  {
    var ws := vs + [v];
    assert ws[..|ws| - 1] == vs;
    assert ws[|vs|] == v;
  }

  // ---------------------------------------------------------------- challenges

  predicate IsDailyActive(c: Challenge)
  {
    c.isDaily == Some(true) && c.status == "active"
  }

  /** `!challenge.isDaily`: absent and false both count as not daily. */
  predicate IsNotDaily(c: Challenge)
  {
    c.isDaily != Some(true)
  }

  predicate IsCompleted(c: Challenge)
  {
    c.status == "completed"
  }

  /** getDailyChallenge: the first challenge that is daily and "active". */
  function DailyChallenge(cs: seq<Challenge>): (r: Option<Challenge>)
    ensures r.None? <==> forall i :: 0 <= i < |cs| ==> !IsDailyActive(cs[i])
    ensures r.Some? ==> exists i :: 0 <= i < |cs| && cs[i] == r.value && IsDailyActive(cs[i])
                                    && forall j :: 0 <= j < i ==> !IsDailyActive(cs[j])
  {
    Find(cs, IsDailyActive)
  }

  /** getCommunityChallenge: the first challenge with that id whose isDaily is
      exactly false. */
  function CommunityChallengeById(cs: seq<Challenge>, id: int): (r: Option<Challenge>)
    ensures r.None? <==> forall i :: 0 <= i < |cs| ==> !(cs[i].id == id && cs[i].isDaily == Some(false))
    ensures r.Some? ==> exists i :: 0 <= i < |cs| && cs[i] == r.value && r.value.id == id && r.value.isDaily == Some(false)
                                    && forall j :: 0 <= j < i ==> !(cs[j].id == id && cs[j].isDaily == Some(false))
  {
    Find(cs, (c: Challenge) => c.id == id && c.isDaily == Some(false))
  }

  /** A challenge created without an isDaily flag shows among the community
      previews' candidates, but getCommunityChallenge never returns it. */
  lemma UnflaggedChallengeIsPreviewedButNotFound(cs: seq<Challenge>, k: nat)
    requires k < |cs| && cs[k].isDaily.None?
    ensures cs[k] in Filter(cs, IsNotDaily)
    ensures CommunityChallengeById(cs, cs[k].id) != Some(cs[k])
  {
  }

  /** The card shape: the listed fields carried over, and a cover that is
      the challenge's own when present and non-empty, else "". */
  function Preview(c: Challenge): (r: CommunityChallenge)
    ensures r.id == c.id && r.title == c.title && r.description == c.description
    ensures r.status == c.status && r.contributors == c.contributors && r.daysLeft == c.daysLeft
    ensures c.coverImage.Some? && c.coverImage.value != "" ==> r.coverImage == c.coverImage.value
    ensures c.coverImage.None? || c.coverImage.value == "" ==> r.coverImage == ""
  {
    CommunityChallenge(c.id, c.title, c.description, OrElse(c.coverImage, ""),
                       c.status, c.contributors, c.daysLeft)
  }

  /** getCommunityChallengePreviews: the first four non-daily challenges, in
      table order, projected. */
  function CommunityPreviews(cs: seq<Challenge>): (r: seq<CommunityChallenge>)
    ensures var m := MatchIndices(cs, IsNotDaily);
      && |r| == (if |m| < 4 then |m| else 4)
      && forall i :: 0 <= i < |r| ==> r[i] == Preview(cs[m[i]])
  {
    var picked := Take(Filter(cs, IsNotDaily), 4);
    FilterPicksMatches(cs, IsNotDaily);
    seq(|picked|, i requires 0 <= i < |picked| => Preview(picked[i]))
  }

  /** getUserByUsername: the first user with that username. */
  function UserByUsername(us: seq<User>, username: string): (r: Option<User>)
    ensures r.None? <==> forall i :: 0 <= i < |us| ==> us[i].username != username
    ensures r.Some? ==> exists i :: 0 <= i < |us| && us[i] == r.value && r.value.username == username
                                    && forall j :: 0 <= j < i ==> us[j].username != username
  {
    Find(us, (u: User) => u.username == username)
  }

  // ---------------------------------------------------------------- storyboards

  /** The completed-storyboard projection of a challenge whose panels are
      filed under challengeId. */
  function StoryboardOf(c: Challenge, challengeId: int, ps: seq<Panel>, users: map<int, User>): (r: CompletedStoryboard)
    ensures r.id == c.id && r.title == c.title && r.category == c.category
    ensures r.panelCount == |PanelsFor(ps, challengeId)|
    ensures r.completedAt == c.endedAt.GetOr(c.createdAt)
    ensures (forall i :: 0 <= i < |ps| ==> ps[i].userId in users) ==>
      |r.contributors| == ContributorCount(ps, challengeId)
    ensures r.contributors == UsernamesOf(FirstAppearances(PanelsFor(ps, challengeId)), users)
  {
    ContributorNamesInFirstAppearanceOrder(PanelsFor(ps, challengeId), users);
    assert (forall i :: 0 <= i < |ps| ==> ps[i].userId in users) ==>
      |ContributorNames(PanelsFor(ps, challengeId), users, {})| == ContributorCount(ps, challengeId) by {
      if forall i :: 0 <= i < |ps| ==> ps[i].userId in users {
        ContributorNamesMatchCount(ps, users, challengeId);
      }
    }
    var panels := PanelsByChallenge(ps, challengeId);
    CompletedStoryboard(
      c.id, c.title, c.category,
      if |panels| > 0 then panels[0].imageUrl else "",
      |panels|,
      if c.endedAt.Some? then c.endedAt.value else c.createdAt,
      ContributorNames(PanelsFor(ps, challengeId), users, {}))
  }

  /** The storyboard counts the panels actually stored, not the challenge's own
      panelCount field, and its cover is the first-created panel's image. */
  lemma StoryboardCountsStoredPanels(c: Challenge, challengeId: int, ps: seq<Panel>, users: map<int, User>)
    requires PositionsSequential(ps)
    ensures var s := StoryboardOf(c, challengeId, ps, users);
      && s.panelCount == |PanelsFor(ps, challengeId)|
      && s.coverImage == (if PanelsFor(ps, challengeId) == [] then "" else PanelsFor(ps, challengeId)[0].imageUrl)
      && (PanelsFor(ps, challengeId) != [] ==> PanelsFor(ps, challengeId)[0].position == 1)
      && s.completedAt == c.endedAt.GetOr(c.createdAt)
  {
    PanelsByChallengeSpec(ps, challengeId);
    PositionsRunOneToN(ps, challengeId);
  }

  /** The storyboard of each challenge, in order. */
  function Storyboards(cs: seq<Challenge>, ps: seq<Panel>, users: map<int, User>): (r: seq<CompletedStoryboard>)
    ensures |r| == |cs|
  {
    if cs == [] then []
    else
      var last := cs[|cs| - 1];
      Storyboards(cs[..|cs| - 1], ps, users) + [StoryboardOf(last, last.id, ps, users)]
  }

  /** One more challenge, one more storyboard at the end. */
  lemma StoryboardsGrow(cs: seq<Challenge>, i: nat, ps: seq<Panel>, users: map<int, User>)
    requires i < |cs|
    ensures Storyboards(cs[..i + 1], ps, users) == Storyboards(cs[..i], ps, users) + [StoryboardOf(cs[i], cs[i].id, ps, users)]
  {
    assert cs[..i + 1][..i] == cs[..i];
  }

  lemma {:induction false} StoryboardsAt(cs: seq<Challenge>, ps: seq<Panel>, users: map<int, User>, i: nat)
    requires i < |cs|
    ensures Storyboards(cs, ps, users)[i] == StoryboardOf(cs[i], cs[i].id, ps, users)
  {
    if i < |cs| - 1 {
      StoryboardsAt(cs[..|cs| - 1], ps, users, i);
    }
  }

  /** getCompletedStoryboards: the storyboards of the first three challenges
      whose status is exactly "completed", in table order. */
  function CompletedStoryboards(cs: seq<Challenge>, ps: seq<Panel>, users: map<int, User>): (r: seq<CompletedStoryboard>)
    ensures var picked := CompletedChallenges(cs);
      && |r| == |picked|
      && forall i :: 0 <= i < |r| ==> r[i] == StoryboardOf(picked[i], picked[i].id, ps, users)
  {
    var picked := CompletedChallenges(cs);
    var r := Storyboards(picked, ps, users);
    forall i | 0 <= i < |r|
      ensures r[i] == StoryboardOf(picked[i], picked[i].id, ps, users)
    {
      StoryboardsAt(picked, ps, users, i);
    }
    r
  }

  /** The first three challenges whose status is exactly "completed", in table
      order. */
  function CompletedChallenges(cs: seq<Challenge>): (r: seq<Challenge>)
    ensures var m := MatchIndices(cs, IsCompleted);
      && |r| == (if |m| < 3 then |m| else 3)
      && forall i :: 0 <= i < |r| ==> r[i] == cs[m[i]]
  {
    FilterPicksMatches(cs, IsCompleted);
    Take(Filter(cs, IsCompleted), 3)
  }
}
