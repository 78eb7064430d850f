/** MemStorage (server/storage.ts): four insertion-ordered tables and four id
    counters, updated in place by the create, update and vote operations,
    which also keep each challenge's panelCount and contributors and each
    panel's votes up to date. Every operation runs to completion before the
    next starts; the `Promise` wrapping of the source is left out.

    The invariants are stated on a `Tables` value (the store's fields taken
    together), and each state change is justified by a lemma about values. */
module Storage {
  import opened Wrappers
  import opened Schema
  import opened JsMap
  import opened JsArray
  import opened Queries

  const DefaultTimeRemaining := 24 * 60 * 60 * 1000
  const DefaultDaysLeft := 3
  const DefaultCreator := 1

  /** The store's state: its four tables and the next id of each kind. */
  datatype Tables = Tables(
    users: OrderedMap<User>,
    challenges: OrderedMap<Challenge>,
    panels: OrderedMap<Panel>,
    votes: OrderedMap<Vote>,
    nextUserId: int,
    nextChallengeId: int,
    nextPanelId: int,
    nextVoteId: int)
  {
    /** What every operation keeps: ids of users, panels and votes come from
        their counters and equal their keys; every panel names a stored
        challenge and user; positions are as createPanel assigns them; no
        (panel, user) pair has two votes. */
    ghost predicate Valid()
    {
      && users.Valid() && challenges.Valid() && panels.Valid() && votes.Valid()
      && 1 <= nextUserId && 1 <= nextChallengeId && 1 <= nextPanelId && 1 <= nextVoteId
      && UsersKeyed(users, nextUserId)
      && PanelsKeyed(panels, nextPanelId)
      && VotesKeyed(votes, nextVoteId)
      && PanelsReferToStored(panels, challenges, users)
      && PositionsSequential(panels.Values())
      && VotesUnique(votes.Values())
    }

    /** The derived challenge fields are accurate (see CountsAccurate). */
    ghost predicate DerivedStateAccurate()
      requires panels.Valid()
    {
      CountsAccurate(challenges, panels, nextChallengeId)
    }

    /** The panels' vote counts are exact (see TalliesExact). */
    ghost predicate VotesTallied()
      requires panels.Valid() && votes.Valid()
    {
      TalliesExact(panels, votes)
    }
  }

  ghost predicate UsersKeyed(users: OrderedMap<User>, next: int)
  {
    forall k :: k in users.entries ==> 1 <= k < next && users.entries[k].id == k
  }

  ghost predicate PanelsKeyed(panels: OrderedMap<Panel>, next: int)
  {
    forall k :: k in panels.entries ==> 1 <= k < next && panels.entries[k].id == k
  }

  ghost predicate VotesKeyed(votes: OrderedMap<Vote>, next: int)
  {
    forall k :: k in votes.entries ==> 1 <= k < next && votes.entries[k].id == k
  }

  ghost predicate PanelsReferToStored(panels: OrderedMap<Panel>, challenges: OrderedMap<Challenge>, users: OrderedMap<User>)
  {
    forall k :: k in panels.entries ==>
      panels.entries[k].challengeId in challenges.entries && panels.entries[k].userId in users.entries
  }

  /** Each challenge's id is its key and came from the counter, its
      panelCount is the number of its stored panels and its contributors the
      number of their distinct authors. An update that writes id, panelCount
      or contributors can break this; nothing else does. */
  ghost predicate CountsAccurate(challenges: OrderedMap<Challenge>, panels: OrderedMap<Panel>, next: int)
    requires panels.Valid()
  {
    forall k :: k in challenges.entries ==>
      && 1 <= k < next
      && challenges.entries[k].id == k
      && challenges.entries[k].panelCount == |PanelsFor(panels.Values(), k)|
      && challenges.entries[k].contributors == ContributorCount(panels.Values(), k)
  }

  /** Every vote names a stored panel and each panel's votes field counts
      the votes naming it. A vote for a panel id not (yet) stored breaks this. */
  ghost predicate TalliesExact(panels: OrderedMap<Panel>, votes: OrderedMap<Vote>)
    requires panels.Valid() && votes.Valid()
  {
    && (forall i :: 0 <= i < |votes.Values()| ==> votes.Values()[i].panelId in panels.entries)
    && (forall k :: k in panels.entries ==> panels.entries[k].votes == VoteCount(votes.Values(), k))
  }

  /** The challenge record createPanel writes back: one more panel, and its
      contributors recounted over the panels stored after the new one. */
  function WithPanelCounted(challenge: Challenge, panels: seq<Panel>): (r: Challenge)
    ensures r.panelCount == challenge.panelCount + 1
    ensures r.contributors == ContributorCount(panels, challenge.id)
    ensures r.(panelCount := challenge.panelCount, contributors := challenge.contributors) == challenge
  {
    challenge.(panelCount := challenge.panelCount + 1, contributors := ContributorCount(panels, challenge.id))
  }

  /** An update that leaves alone the fields the store derives. */
  predicate KeepsDerivedFields(data: ChallengePatch)
  {
    data.id.None? && data.panelCount.None? && data.contributors.None?
  }

  class MemStorage {
    var users: OrderedMap<User>
    var challenges: OrderedMap<Challenge>
    var panels: OrderedMap<Panel>
    var votes: OrderedMap<Vote>

    // the next id of each kind (`userId`, `challengeId`, `panelId`, `voteId` in the source)
    var nextUserId: int
    var nextChallengeId: int
    var nextPanelId: int
    var nextVoteId: int

    ghost function Snapshot(): Tables
      reads this
    {
      Tables(users, challenges, panels, votes, nextUserId, nextChallengeId, nextPanelId, nextVoteId)
    }

    ghost predicate Valid()
      reads this
    {
      Snapshot().Valid()
    }

    ghost predicate DerivedStateAccurate()
      reads this
      requires Valid()
    {
      Snapshot().DerivedStateAccurate()
    }

    ghost predicate VotesTallied()
      reads this
      requires Valid()
    {
      Snapshot().VotesTallied()
    }

    /** An empty store; the demo seeding of the source is not part of this model. */
    constructor ()
      ensures Valid() && DerivedStateAccurate() && VotesTallied()
      ensures users.Values() == [] && challenges.Values() == [] && panels.Values() == [] && votes.Values() == []
      ensures nextUserId == 1 && nextChallengeId == 1 && nextPanelId == 1 && nextVoteId == 1
    {
      users, challenges, panels, votes := Empty(), Empty(), Empty(), Empty();
      nextUserId, nextChallengeId, nextPanelId, nextVoteId := 1, 1, 1, 1;
    }

    // ------------------------------------------------------------ users

    /** getUser: in a valid store the user found under an id carries that id. */
    function GetUser(id: int): (r: Option<User>)
      reads this
      ensures r.Some? <==> id in users.entries
      ensures r.Some? ==> r.value == users.entries[id]
      ensures Valid() && r.Some? ==> r.value.id == id && r.value.id < nextUserId
    {
      users.Get(id)
    }

    /** getUserByUsername: the first user in insertion order with that
        username, and none exactly when no stored user has it. */
    function GetUserByUsername(username: string): (r: Option<User>)
      reads this
      requires users.Valid()
      ensures r.None? <==> forall k :: k in users.entries ==> users.entries[k].username != username
      ensures r.Some? ==> exists i :: 0 <= i < |users.order| && r.value == users.entries[users.order[i]]
                                      && r.value.username == username
                                      && forall j :: 0 <= j < i ==> users.entries[users.order[j]].username != username
    {
      AllValuesIffAllEntries(users, (u: User) => u.username != username);
      UserByUsername(users.Values(), username)
    }

    /** createUser: takes the next user id; an absent or empty avatar colour is
        replaced by the randomly chosen `randomColor`. */
    method CreateUser(insertUser: InsertUser, randomColor: string, now: Timestamp) returns (user: User)
      requires Valid()
      modifies this
      ensures Valid()
      ensures user == User(old(nextUserId), insertUser.username, insertUser.password,
                           OrElse(insertUser.avatarColor, randomColor), now)
      ensures Snapshot() == AddUser(old(Snapshot()), user)
      ensures users.Values() == old(users.Values()) + [user]
      ensures old(DerivedStateAccurate()) ==> DerivedStateAccurate()
      ensures old(VotesTallied()) ==> VotesTallied()
    {
      ghost var t := Snapshot();
      var id := nextUserId;
      nextUserId := nextUserId + 1;
      user := User(id, insertUser.username, insertUser.password, OrElse(insertUser.avatarColor, randomColor), now);
      users := users.Set(id, user);
      assert Snapshot() == AddUser(t, user);
      UserAdded(t, user);
    }

    // ------------------------------------------------------------ challenges

    /** getChallenge: with accurate derived fields the challenge found under
        an id carries that id and counts the panels stored for it. */
    function GetChallenge(id: int): (r: Option<Challenge>)
      reads this
      ensures r.Some? <==> id in challenges.entries
      ensures r.Some? ==> r.value == challenges.entries[id]
      ensures Valid() && DerivedStateAccurate() && r.Some? ==>
        r.value.id == id && r.value.panelCount == |PanelsFor(panels.Values(), id)|
    {
      challenges.Get(id)
    }

    /** getDailyChallenge: the first challenge in insertion order that is
        daily and "active"; none exactly when no stored challenge is. */
    function GetDailyChallenge(): (r: Option<Challenge>)
      reads this
      requires challenges.Valid()
      ensures r.None? <==> forall k :: k in challenges.entries ==> !IsDailyActive(challenges.entries[k])
      ensures r.Some? ==> exists i :: 0 <= i < |challenges.order| && r.value == challenges.entries[challenges.order[i]]
                                      && IsDailyActive(r.value)
                                      && forall j :: 0 <= j < i ==> !IsDailyActive(challenges.entries[challenges.order[j]])
    {
      AllValuesIffAllEntries(challenges, (c: Challenge) => !IsDailyActive(c));
      DailyChallenge(challenges.Values())
    }

    /** getCommunityChallenge: looks the id up by scanning, not by key, and
        accepts only a challenge whose isDaily is exactly false. */
    function GetCommunityChallenge(id: int): (r: Option<Challenge>)
      reads this
      requires challenges.Valid()
      ensures r.None? <==> forall k :: k in challenges.entries ==>
        !(challenges.entries[k].id == id && challenges.entries[k].isDaily == Some(false))
      ensures r.Some? ==> exists i :: 0 <= i < |challenges.order| && r.value == challenges.entries[challenges.order[i]]
                                      && r.value.id == id && r.value.isDaily == Some(false)
                                      && forall j :: 0 <= j < i ==>
                                           !(challenges.entries[challenges.order[j]].id == id
                                             && challenges.entries[challenges.order[j]].isDaily == Some(false))
      ensures Valid() && DerivedStateAccurate() && r.Some? ==> r == GetChallenge(id)
    {
      AllValuesIffAllEntries(challenges, (c: Challenge) => !(c.id == id && c.isDaily == Some(false)));
      var r := CommunityChallengeById(challenges.Values(), id);
      assert Valid() && DerivedStateAccurate() && r.Some? ==> r == GetChallenge(id) by {
        if Valid() && DerivedStateAccurate() && r.Some? {
          var i :| 0 <= i < |challenges.order| && r.value == challenges.Values()[i] && r.value.id == id;
          var k := challenges.order[i];
          assert k in challenges.entries && challenges.entries[k] == r.value;
          assert k == id;
        }
      }
      r
    }

    /** getCommunityChallengePreviews: previews of the first four non-daily
        challenges in insertion order. */
    function GetCommunityChallengePreviews(): (r: seq<CommunityChallenge>)
      reads this
      requires challenges.Valid()
      ensures var m := MatchIndices(challenges.Values(), IsNotDaily);
        && |r| == (if |m| < 4 then |m| else 4)
        && forall i :: 0 <= i < |r| ==> r[i] == Preview(challenges.entries[challenges.order[m[i]]])
    {
      CommunityPreviews(challenges.Values())
    }

    /** createChallenge: takes the next challenge id and forces the status,
        counters, time budget, end date, days left and creator, whatever the
        input carries. */
    method CreateChallenge(insertChallenge: InsertChallenge, now: Timestamp) returns (challenge: Challenge)
      requires Valid()
      modifies this
      ensures Valid()
      ensures challenge == Challenge(
        old(nextChallengeId), insertChallenge.title, insertChallenge.description, insertChallenge.tags,
        "active", insertChallenge.totalPanels, 0, 0, insertChallenge.coverImage, DefaultTimeRemaining,
        now, None, insertChallenge.isDaily, DefaultCreator, insertChallenge.category, DefaultDaysLeft)
      ensures Snapshot() == AddChallenge(old(Snapshot()), challenge)
      ensures old(DerivedStateAccurate()) ==> DerivedStateAccurate()
      ensures old(DerivedStateAccurate()) ==> challenges.Values() == old(challenges.Values()) + [challenge]
      ensures old(VotesTallied()) ==> VotesTallied()
    {
      ghost var t := Snapshot();
      var id := nextChallengeId;
      nextChallengeId := nextChallengeId + 1;
      challenge := Challenge(
        id, insertChallenge.title, insertChallenge.description, insertChallenge.tags,
        "active", insertChallenge.totalPanels, 0, 0, insertChallenge.coverImage, DefaultTimeRemaining,
        now, None, insertChallenge.isDaily, DefaultCreator, insertChallenge.category, DefaultDaysLeft);
      challenges := challenges.Set(id, challenge);
      assert Snapshot() == AddChallenge(t, challenge);
      ChallengeAdded(t, challenge);
    }

    /** updateChallenge: undefined for a missing id; otherwise the supplied
        fields overwrite the stored ones and the challenge keeps its slot. */
    method UpdateChallenge(id: int, data: ChallengePatch) returns (r: Option<Challenge>)
      requires Valid()
      modifies this
      ensures Valid()
      ensures id !in old(challenges.entries) ==> r == None && Snapshot() == old(Snapshot())
      ensures id in old(challenges.entries) ==>
        && r == Some(ApplyPatch(old(challenges.entries[id]), data))
        && Snapshot() == StoreChallenge(old(Snapshot()), id, r.value)
        && challenges.order == old(challenges.order)
      ensures old(DerivedStateAccurate()) && KeepsDerivedFields(data) ==> DerivedStateAccurate()
      ensures old(VotesTallied()) ==> VotesTallied()
    {
      ghost var t := Snapshot();
      var challenge := challenges.Get(id);
      if challenge.None? {
        return None;
      }
      var updated := ApplyPatch(challenge.value, data);
      challenges := challenges.Set(id, updated);
      assert Snapshot() == StoreChallenge(t, id, updated);
      ChallengeStored(t, id, updated);
      return Some(updated);
    }

    // ------------------------------------------------------------ panels

    /** getPanelsByChallenge: the challenge's panels sorted by position; in a
        valid store that is creation order, numbered 1..N. */
    function GetPanelsByChallenge(challengeId: int): (r: seq<Panel>)
      reads this
      requires panels.Valid()
      ensures SortedByPosition(r) && multiset(r) == multiset(PanelsFor(panels.Values(), challengeId))
      ensures Valid() ==> r == PanelsFor(panels.Values(), challengeId)
      ensures Valid() ==> forall j :: 0 <= j < |r| ==> r[j].position == j + 1
    {
      PanelsByChallengeSpec(panels.Values(), challengeId);
      PanelsByChallenge(panels.Values(), challengeId)
    }

    /** getPanel: in a valid store the panel found under an id carries that
        id and belongs to a stored challenge and a stored user. */
    function GetPanel(id: int): (r: Option<Panel>)
      reads this
      ensures r.Some? <==> id in panels.entries
      ensures r.Some? ==> r.value == panels.entries[id]
      ensures Valid() && r.Some? ==>
        r.value.id == id && r.value.challengeId in challenges.entries && r.value.userId in users.entries
    {
      panels.Get(id)
    }

    /** createPanel: the panel id is taken before the checks, so a failed call
        still uses one up. A missing challenge or user aborts with no panel
        stored. Otherwise the panel goes last with no votes, the next position
        of its challenge and its author's username, and the challenge stored
        under the record's own id gets panelCount + 1 and a recount of its
        contributors. */
    method CreatePanel(insertPanel: InsertPanel, userId: int, now: Timestamp) returns (r: Result<Panel, StoreError>)
      requires Valid()
      modifies this
      ensures Valid()
      ensures insertPanel.challengeId !in old(challenges.entries) ==> r == Failure(ChallengeNotFound)
      ensures insertPanel.challengeId in old(challenges.entries) && userId !in old(users.entries) ==>
        r == Failure(UserNotFound)
      ensures r.Failure? ==> Snapshot() == TakePanelId(old(Snapshot()))
      ensures insertPanel.challengeId in old(challenges.entries) && userId in old(users.entries) ==>
        r == Success(Panel(old(nextPanelId), insertPanel.challengeId, userId, insertPanel.prompt,
                           insertPanel.caption, insertPanel.imageUrl, 0,
                           |PanelsFor(old(panels.Values()), insertPanel.challengeId)| + 1,
                           now, old(users.entries[userId]).username))
      ensures r.Success? ==>
        && Snapshot() == PanelCreated(old(Snapshot()), r.value)
        && panels.Values() == old(panels.Values()) + [r.value]
      ensures old(DerivedStateAccurate()) ==> DerivedStateAccurate()
      ensures old(DerivedStateAccurate()) ==> challenges.order == old(challenges.order)
      ensures old(VotesTallied()) ==> VotesTallied()
    {
      ghost var t := Snapshot();
      var id := nextPanelId;
      nextPanelId := nextPanelId + 1;

      var challenge := challenges.Get(insertPanel.challengeId);
      if challenge.None? {
        PanelIdTaken(t);
        return Failure(ChallengeNotFound);
      }
      var user := users.Get(userId);
      if user.None? {
        PanelIdTaken(t);
        return Failure(UserNotFound);
      }

      var existingPanelsCount := |PanelsFor(panels.Values(), insertPanel.challengeId)|;
      var panel := Panel(id, insertPanel.challengeId, userId, insertPanel.prompt, insertPanel.caption,
                         insertPanel.imageUrl, 0, existingPanelsCount + 1, now, user.value.username);
      StorePanel(t, challenge.value, panel);
      PanelCreatedKeeps(t, panel);
      return Success(panel);
    }

    /** The writes of a createPanel call that passed its checks: the panel
        under the id already taken, then the recount of its challenge. */
    method StorePanel(ghost t: Tables, challenge: Challenge, panel: Panel)
      requires t.panels.Valid() && t.challenges.Valid() && Snapshot() == TakePanelId(t)
      requires panel.id == t.nextPanelId && panel.id !in t.panels.entries
      requires panel.challengeId in t.challenges.entries && challenge == t.challenges.entries[panel.challengeId]
      modifies this
      ensures Snapshot() == PanelCreated(t, panel)
    {
      panels := panels.Set(panel.id, panel);
      SetNewKeyAppends(t.panels, panel.id, panel);
      assert Snapshot() == AddPanel(t, panel);
      RecountChallenge(challenge);
    }

    /** The challenge update at the end of createPanel: one more panel, and the
        contributors recounted over the panels as they now stand. */
    method RecountChallenge(challenge: Challenge)
      requires challenges.Valid() && panels.Valid()
      modifies this
      ensures Snapshot() == StoreChallenge(old(Snapshot()), challenge.id, WithPanelCounted(challenge, old(panels.Values())))
    {
      var contributors := CountUniqueContributors(challenge.id);
      challenges := challenges.Set(challenge.id,
        challenge.(panelCount := challenge.panelCount + 1, contributors := contributors));
    }

    // ------------------------------------------------------------ votes

    /** hasUserVoted: scanning the votes in order finds the pair exactly when
        some stored vote has it. */
    function HasUserVoted(panelId: int, userId: int): (voted: bool)
      reads this
      requires votes.Valid()
      ensures voted <==> exists k :: k in votes.entries && votes.entries[k].panelId == panelId && votes.entries[k].userId == userId
    {
      var vs := votes.Values();
      assert HasVoted(vs, panelId, userId) ==>
        exists k :: k in votes.entries && votes.entries[k].panelId == panelId && votes.entries[k].userId == userId by {
        if HasVoted(vs, panelId, userId) {
          var i :| 0 <= i < |vs| && vs[i].panelId == panelId && vs[i].userId == userId;
          var k := votes.order[i];
          assert k in votes.entries && votes.entries[k] == vs[i];
        }
      }
      assert (exists k :: k in votes.entries && votes.entries[k].panelId == panelId && votes.entries[k].userId == userId) ==>
        HasVoted(vs, panelId, userId) by {
        if exists k :: k in votes.entries && votes.entries[k].panelId == panelId && votes.entries[k].userId == userId {
          var k :| k in votes.entries && votes.entries[k].panelId == panelId && votes.entries[k].userId == userId;
          var i := IndexOf(votes.order, k);
          assert vs[i] == votes.entries[k];
        }
      }
      HasVoted(vs, panelId, userId)
    }

    /** votePanel: rejects a second vote of a user for a panel before taking a
        vote id; otherwise stores the vote last and adds one to the panel's
        votes when the panel exists (a vote for a missing panel is stored all
        the same). */
    method VotePanel(insertVote: InsertVote, userId: int, now: Timestamp) returns (r: Result<Vote, StoreError>)
      requires Valid()
      modifies this
      ensures Valid()
      ensures r == Failure(AlreadyVoted) <==> HasVoted(old(votes.Values()), insertVote.panelId, userId)
      ensures r.Success? <==> !HasVoted(old(votes.Values()), insertVote.panelId, userId)
      ensures r.Failure? ==> Snapshot() == old(Snapshot())
      ensures r.Success? ==>
        && r.value == Vote(old(nextVoteId), insertVote.panelId, userId, now)
        && Snapshot() == VoteStored(old(Snapshot()), r.value)
        && votes.Values() == old(votes.Values()) + [r.value]
        && HasVoted(votes.Values(), insertVote.panelId, userId)
      ensures panels.order == old(panels.order)
      ensures old(DerivedStateAccurate()) ==> DerivedStateAccurate()
      ensures old(VotesTallied()) && (r.Failure? || insertVote.panelId in old(panels.entries)) ==> VotesTallied()
    {
      ghost var t := Snapshot();
      var alreadyVoted := HasUserVoted(insertVote.panelId, userId);
      if alreadyVoted {
        return Failure(AlreadyVoted);
      }

      var id := nextVoteId;
      nextVoteId := nextVoteId + 1;
      var vote := Vote(id, insertVote.panelId, userId, now);
      votes := votes.Set(id, vote);

      var panel := panels.Get(insertVote.panelId);
      if panel.Some? {
        var p := panel.value;
        assert p.id == insertVote.panelId && p.(votes := p.votes + 1) == OneMoreVote(p);
        panels := panels.Set(p.id, p.(votes := p.votes + 1));
        assert Snapshot() == CountVote(AddVote(t, vote), insertVote.panelId);
      } else {
        assert Snapshot() == AddVote(t, vote);
      }
      VoteStoredKeeps(t, vote);
      return Success(vote);
    }

    // ------------------------------------------------------------ contributors

    /** countUniqueContributors: collects the author ids of the challenge's
        panels into a set and returns its size. */
    method CountUniqueContributors(challengeId: int) returns (count: nat)
      requires panels.Valid()
      ensures count == ContributorCount(panels.Values(), challengeId)
    {
      var ps := PanelsFor(panels.Values(), challengeId);
      var contributorIds: set<int> := {};
      var i := 0;
      while i < |ps|
        invariant 0 <= i <= |ps|
        invariant contributorIds + AuthorIds(ps[i..]) == AuthorIds(ps)
      {
        assert ps[i..][1..] == ps[i + 1..];
        contributorIds := contributorIds + {ps[i].userId};
        i := i + 1;
      }
      assert ps[i..] == [];
      count := |contributorIds|;
    }

    /** getUniqueContributors: walks the challenge's panels in storage order,
        marking each author id as seen the first time and listing its username
        when the user exists. */
    method GetUniqueContributors(challengeId: int) returns (contributors: seq<string>)
      requires panels.Valid()
      ensures contributors == ContributorNames(PanelsFor(panels.Values(), challengeId), users.entries, {})
    {
      var ps := PanelsFor(panels.Values(), challengeId);
      ghost var byId := users.entries;
      contributors := [];
      var contributorIds: set<int> := {};
      var i := 0;
      while i < |ps|
        invariant 0 <= i <= |ps|
        invariant contributors + ContributorNames(ps[i..], byId, contributorIds) == ContributorNames(ps, byId, {})
      {
        ContributorNamesStep(ps, i, byId, contributorIds, contributors, ContributorNames(ps, byId, {}));
        var userId := ps[i].userId;
        if userId !in contributorIds {
          contributorIds := contributorIds + {userId};
          var user := users.Get(userId);
          if user.Some? {
            contributors := contributors + [user.value.username];
          }
        }
        i := i + 1;
      }
      assert ps[i..] == [];
    }

    // ------------------------------------------------------------ completed storyboards

    /** The projection both storyboard getters build: the cover is the image
        of the first panel in position order, the count is the number of
        stored panels, and the completion date falls back to the creation date.
        Panels and contributors are looked up under challengeId, while the id
        shown is the record's own. */
    method StoryboardFor(challenge: Challenge, challengeId: int) returns (storyboard: CompletedStoryboard)
      requires challenges.Valid() && panels.Valid()
      ensures storyboard == StoryboardOf(challenge, challengeId, panels.Values(), users.entries)
    {
      var ps := GetPanelsByChallenge(challengeId);
      var contributors := GetUniqueContributors(challengeId);
      storyboard := CompletedStoryboard(
        challenge.id, challenge.title, challenge.category,
        if |ps| > 0 then ps[0].imageUrl else "",
        |ps|,
        if challenge.endedAt.Some? then challenge.endedAt.value else challenge.createdAt,
        contributors);
    }

    /** getCompletedStoryboards: the storyboards of the first three challenges
        whose status is exactly "completed". */
    method GetCompletedStoryboards() returns (storyboards: seq<CompletedStoryboard>)
      requires challenges.Valid() && panels.Valid()
      ensures storyboards == CompletedStoryboards(challenges.Values(), panels.Values(), users.entries)
    {
      var completed := CompletedChallenges(challenges.Values());
      ghost var ps, byId := panels.Values(), users.entries;
      storyboards := [];
      var i := 0;
      while i < |completed|
        invariant 0 <= i <= |completed|
        invariant storyboards == Storyboards(completed[..i], ps, byId)
      {
        var storyboard := StoryboardFor(completed[i], completed[i].id);
        StoryboardsGrow(completed, i, ps, byId);
        storyboards := storyboards + [storyboard];
        i := i + 1;
      }
      assert completed[..i] == completed;
    }

    /** getCompletedStoryboard: undefined only for a missing id; the status is
        not checked. */
    method GetCompletedStoryboard(id: int) returns (r: Option<CompletedStoryboard>)
      requires challenges.Valid() && panels.Valid()
      ensures r.None? <==> id !in challenges.entries
      ensures r.Some? ==> r.value == StoryboardOf(challenges.entries[id], id, panels.Values(), users.entries)
    {
      var challenge := challenges.Get(id);
      if challenge.None? {
        return None;
      }
      var storyboard := StoryboardFor(challenge.value, id);
      return Some(storyboard);
    }
  }

  // ---------------------------------------------------------------- state changes on values

  /** createUser's write: the user under its id, and the counter moved on. */
  function AddUser(t: Tables, user: User): (r: Tables)
    requires t.users.Valid()
    ensures r == t.(users := r.users, nextUserId := t.nextUserId + 1)
    ensures r.users.Get(user.id) == Some(user)
    ensures forall k :: k != user.id ==> r.users.Get(k) == t.users.Get(k)
  {
    t.(users := t.users.Set(user.id, user), nextUserId := t.nextUserId + 1)
  }

  /** createChallenge's write. */
  function AddChallenge(t: Tables, challenge: Challenge): (r: Tables)
    requires t.challenges.Valid()
    ensures r == t.(challenges := r.challenges, nextChallengeId := t.nextChallengeId + 1)
    ensures r.challenges.Get(challenge.id) == Some(challenge)
    ensures forall k :: k != challenge.id ==> r.challenges.Get(k) == t.challenges.Get(k)
  {
    t.(challenges := t.challenges.Set(challenge.id, challenge), nextChallengeId := t.nextChallengeId + 1)
  }

  /** A challenge written under a key, as updateChallenge and createPanel do. */
  function StoreChallenge(t: Tables, key: int, challenge: Challenge): (r: Tables)
    requires t.challenges.Valid()
    ensures r == t.(challenges := r.challenges)
    ensures r.challenges.Get(key) == Some(challenge)
    ensures forall k :: k != key ==> r.challenges.Get(k) == t.challenges.Get(k)
  {
    t.(challenges := t.challenges.Set(key, challenge))
  }

  /** createPanel's first step, which a failed call also takes. */
  function TakePanelId(t: Tables): (r: Tables)
    ensures r.nextPanelId == t.nextPanelId + 1
    ensures r.(nextPanelId := t.nextPanelId) == t
  {
    t.(nextPanelId := t.nextPanelId + 1)
  }

  /** createPanel's panel write. */
  function AddPanel(t: Tables, panel: Panel): (r: Tables)
    requires t.panels.Valid()
    ensures r == t.(panels := r.panels, nextPanelId := t.nextPanelId + 1)
    ensures r.panels.Get(panel.id) == Some(panel)
    ensures forall k :: k != panel.id ==> r.panels.Get(k) == t.panels.Get(k)
  {
    t.(panels := t.panels.Set(panel.id, panel), nextPanelId := t.nextPanelId + 1)
  }

  /** votePanel's vote write. */
  function AddVote(t: Tables, vote: Vote): (r: Tables)
    requires t.votes.Valid()
    ensures r == t.(votes := r.votes, nextVoteId := t.nextVoteId + 1)
    ensures r.votes.Get(vote.id) == Some(vote)
    ensures forall k :: k != vote.id ==> r.votes.Get(k) == t.votes.Get(k)
  {
    t.(votes := t.votes.Set(vote.id, vote), nextVoteId := t.nextVoteId + 1)
  }

  /** votePanel's panel write: one more vote on a stored panel. */
  function CountVote(t: Tables, panelId: int): (r: Tables)
    requires t.panels.Valid() && panelId in t.panels.entries
    ensures r == t.(panels := r.panels)
    ensures r.panels.Get(panelId) == Some(OneMoreVote(t.panels.entries[panelId]))
    ensures forall k :: k != panelId ==> r.panels.Get(k) == t.panels.Get(k)
  {
    t.(panels := t.panels.Set(panelId, OneMoreVote(t.panels.entries[panelId])))
  }

  function OneMoreVote(panel: Panel): (r: Panel)
    ensures r.votes == panel.votes + 1
    ensures r.(votes := panel.votes) == panel
  {
    panel.(votes := panel.votes + 1)
  }

  /** createUser's write keeps the invariants, and the user goes last. */
  lemma UserAdded(t: Tables, user: User)
    requires t.Valid() && user.id == t.nextUserId
    ensures AddUser(t, user).Valid()
    ensures AddUser(t, user).users.Values() == t.users.Values() + [user]
    ensures t.DerivedStateAccurate() ==> AddUser(t, user).DerivedStateAccurate()
    ensures t.VotesTallied() ==> AddUser(t, user).VotesTallied()
  {
    SetNewKeyAppends(t.users, user.id, user);
  }

  /** createChallenge's write keeps the invariants; when the derived fields
      are accurate the new id is unused and has no panels, so the challenge
      goes last with accurate zero counts. */
  lemma ChallengeAdded(t: Tables, challenge: Challenge)
    requires t.Valid() && challenge.id == t.nextChallengeId
    requires challenge.panelCount == 0 && challenge.contributors == 0
    ensures AddChallenge(t, challenge).Valid()
    ensures t.DerivedStateAccurate() ==> AddChallenge(t, challenge).DerivedStateAccurate()
    ensures t.DerivedStateAccurate() ==> AddChallenge(t, challenge).challenges.Values() == t.challenges.Values() + [challenge]
    ensures t.VotesTallied() ==> AddChallenge(t, challenge).VotesTallied()
  {
    if t.DerivedStateAccurate() {
      SetNewKeyAppends(t.challenges, challenge.id, challenge);
      NoPanelsForFreshChallenge(t, challenge.id);
    }
  }

  /** A challenge key that is not stored has no panels filed under it. */
  lemma NoPanelsForFreshChallenge(t: Tables, id: int)
    requires t.Valid() && id !in t.challenges.entries
    ensures PanelsFor(t.panels.Values(), id) == []
    ensures ContributorCount(t.panels.Values(), id) == 0
  {
    var ps := t.panels.Values();
    forall i | 0 <= i < |ps| ensures ps[i].challengeId != id {
      var k := t.panels.order[i];
      assert k in t.panels.entries;
      assert ps[i] == t.panels.entries[k];
      assert t.panels.entries[k].challengeId in t.challenges.entries;
    }
    PanelsForNone(ps, id);
  }

  /** Writing a challenge keeps the invariants and the tallies; the derived
      fields stay accurate when a stored challenge is rewritten with the same
      id, panelCount and contributors. */
  lemma ChallengeStored(t: Tables, key: int, challenge: Challenge)
    requires t.Valid()
    ensures StoreChallenge(t, key, challenge).Valid()
    ensures t.VotesTallied() ==> StoreChallenge(t, key, challenge).VotesTallied()
    ensures key in t.challenges.entries ==> StoreChallenge(t, key, challenge).challenges.order == t.challenges.order
    ensures t.DerivedStateAccurate() && key in t.challenges.entries
            && challenge.id == key
            && challenge.panelCount == t.challenges.entries[key].panelCount
            && challenge.contributors == t.challenges.entries[key].contributors
            ==> StoreChallenge(t, key, challenge).DerivedStateAccurate()
  {
  }

  /** A panel id used up by a failed createPanel breaks nothing. */
  lemma PanelIdTaken(t: Tables)
    requires t.Valid()
    ensures TakePanelId(t).Valid()
    ensures t.DerivedStateAccurate() ==> TakePanelId(t).DerivedStateAccurate()
    ensures t.VotesTallied() ==> TakePanelId(t).VotesTallied()
  {
  }

  /** createPanel's panel write keeps the invariants, and the panel goes last. */
  lemma PanelAdded(t: Tables, panel: Panel)
    requires t.Valid() && panel.id == t.nextPanelId
    requires panel.challengeId in t.challenges.entries && panel.userId in t.users.entries
    requires panel.position == |PanelsFor(t.panels.Values(), panel.challengeId)| + 1
    ensures AddPanel(t, panel).Valid()
    ensures AddPanel(t, panel).panels.Values() == t.panels.Values() + [panel]
  {
    SetNewKeyAppends(t.panels, panel.id, panel);
    PositionsSequentialAppend(t.panels.Values(), panel);
  }

  /** No stored vote names the fresh panel id, so a panel with no votes keeps
      the tallies exact. */
  lemma PanelAddedTallied(t: Tables, panel: Panel)
    requires t.Valid() && panel.id == t.nextPanelId && panel.votes == 0
    requires t.VotesTallied() && AddPanel(t, panel).Valid()
    ensures AddPanel(t, panel).VotesTallied()
  {
    var vs := t.votes.Values();
    forall i | 0 <= i < |vs| ensures vs[i].panelId != panel.id {
      assert vs[i].panelId in t.panels.entries;
    }
    VoteCountNone(vs, panel.id);
  }

  /** createPanel's writes once both checks pass: the panel, then the
      challenge record written back under its own id with one more panel
      and its contributors recounted. */
  function PanelCreated(t: Tables, panel: Panel): (r: Tables)
    requires t.panels.Valid() && t.challenges.Valid() && panel.challengeId in t.challenges.entries
    ensures r == t.(panels := r.panels, challenges := r.challenges, nextPanelId := t.nextPanelId + 1)
    ensures r.panels.Get(panel.id) == Some(panel)
    ensures r.challenges.Get(t.challenges.entries[panel.challengeId].id)
         == Some(WithPanelCounted(t.challenges.entries[panel.challengeId], t.panels.Values() + [panel]))
  {
    StoreChallenge(AddPanel(t, panel), t.challenges.entries[panel.challengeId].id,
                   WithPanelCounted(t.challenges.entries[panel.challengeId], t.panels.Values() + [panel]))
  }

  /** With accurate derived fields before the panel write, the challenge
      record's id is the panel's challenge, which gets one more panel and a
      recount of its authors, so every count stays accurate. */
  lemma PanelCreatedAccurate(t: Tables, panel: Panel)
    requires t.panels.Valid() && t.challenges.Valid() && t.DerivedStateAccurate()
    requires panel.challengeId in t.challenges.entries
    requires AddPanel(t, panel).panels.Values() == t.panels.Values() + [panel]
    ensures PanelCreated(t, panel).DerivedStateAccurate()
  {
    var before := t.panels.Values();
    var t' := PanelCreated(t, panel);
    var updated := t'.challenges.entries[panel.challengeId];
    assert t'.panels.Values() == before + [panel];
    forall k | k in t'.challenges.entries
      ensures && 1 <= k < t'.nextChallengeId
              && t'.challenges.entries[k].id == k
              && t'.challenges.entries[k].panelCount == |PanelsFor(t'.panels.Values(), k)|
              && t'.challenges.entries[k].contributors == ContributorCount(t'.panels.Values(), k)
    {
      PanelsForAppend(before, panel, k);
      if k != panel.challengeId {
        assert t'.challenges.entries[k] == t.challenges.entries[k];
      }
    }
  }

  /** A created panel keeps the invariants and goes last; accurate derived
      fields stay accurate, with the challenge in its slot, and so do exact
      tallies. */
  lemma PanelCreatedKeeps(t: Tables, panel: Panel)
    requires t.Valid() && panel.id == t.nextPanelId && panel.votes == 0
    requires panel.challengeId in t.challenges.entries && panel.userId in t.users.entries
    requires panel.position == |PanelsFor(t.panels.Values(), panel.challengeId)| + 1
    ensures PanelCreated(t, panel).Valid()
    ensures PanelCreated(t, panel).panels.Values() == t.panels.Values() + [panel]
    ensures t.DerivedStateAccurate() ==>
      PanelCreated(t, panel).DerivedStateAccurate() && PanelCreated(t, panel).challenges.order == t.challenges.order
    ensures t.VotesTallied() ==> PanelCreated(t, panel).VotesTallied()
  {
    PanelAdded(t, panel);
    if t.VotesTallied() {
      PanelAddedTallied(t, panel);
    }
    var t1 := AddPanel(t, panel);
    var ch := t.challenges.entries[panel.challengeId];
    ChallengeStored(t1, ch.id, WithPanelCounted(ch, t.panels.Values() + [panel]));
    if t.DerivedStateAccurate() {
      PanelCreatedAccurate(t, panel);
      assert ch.id in t1.challenges.entries;
    }
  }

  /** votePanel's vote write keeps the invariants: the vote goes last, its
      pair is then recorded, and each panel's count of votes grows by one
      exactly for the panel it names. */
  lemma VoteAdded(t: Tables, vote: Vote)
    requires t.Valid() && vote.id == t.nextVoteId
    requires !HasVoted(t.votes.Values(), vote.panelId, vote.userId)
    ensures AddVote(t, vote).Valid()
    ensures AddVote(t, vote).votes.Values() == t.votes.Values() + [vote]
    ensures HasVoted(AddVote(t, vote).votes.Values(), vote.panelId, vote.userId)
    ensures forall k :: VoteCount(AddVote(t, vote).votes.Values(), k) == VoteCount(t.votes.Values(), k) + if k == vote.panelId then 1 else 0
    ensures t.DerivedStateAccurate() ==> AddVote(t, vote).DerivedStateAccurate()
  {
    SetNewKeyAppends(t.votes, vote.id, vote);
    VoteAppend(t.votes.Values(), vote);
  }

  /** votePanel's panel write changes only the voted panel's votes. */
  lemma VoteCountedOnly(t: Tables, panelId: int)
    requires t.panels.Valid() && panelId in t.panels.entries
    ensures CountVote(t, panelId).panels.order == t.panels.order
    ensures VotesOnlyChanged(t.panels.Values(), CountVote(t, panelId).panels.Values())
  {
    SetExistingKeyInPlace(t.panels, panelId, OneMoreVote(t.panels.entries[panelId]));
  }

  /** ... which changes nothing the invariants depend on. */
  lemma VoteCounted(t: Tables, panelId: int)
    requires t.Valid() && panelId in t.panels.entries
    requires VotesOnlyChanged(t.panels.Values(), CountVote(t, panelId).panels.Values())
    requires CountVote(t, panelId).panels.order == t.panels.order
    ensures CountVote(t, panelId).Valid()
  {
    VotesOnlyChangedPositions(t.panels.Values(), CountVote(t, panelId).panels.Values());
  }

  /** A vote changes no challenge's panel count or contributor count. */
  lemma VoteCountedAccurate(t: Tables, panelId: int)
    requires t.Valid() && t.DerivedStateAccurate() && panelId in t.panels.entries
    requires CountVote(t, panelId).Valid()
    requires VotesOnlyChanged(t.panels.Values(), CountVote(t, panelId).panels.Values())
    ensures CountVote(t, panelId).DerivedStateAccurate()
  {
    var before := t.panels.Values();
    var after := CountVote(t, panelId).panels.Values();
    forall k ensures |PanelsFor(after, k)| == |PanelsFor(before, k)|
                 && ContributorCount(after, k) == ContributorCount(before, k) {
      VotesOnlyChangedFilter(before, after, k);
      VotesOnlyChangedAuthors(PanelsFor(before, k), PanelsFor(after, k), map[], {});
    }
  }

  /** The vote and its panel's new count together keep the tallies exact. */
  lemma VoteTallied(t: Tables, vote: Vote)
    requires t.panels.Valid() && t.votes.Valid() && t.VotesTallied() && vote.panelId in t.panels.entries
    requires AddVote(t, vote).votes.Values() == t.votes.Values() + [vote]
    requires forall k :: VoteCount(AddVote(t, vote).votes.Values(), k) == VoteCount(t.votes.Values(), k) + if k == vote.panelId then 1 else 0
    ensures CountVote(AddVote(t, vote), vote.panelId).VotesTallied()
  {
    var t1 := AddVote(t, vote);
    var t2 := CountVote(t1, vote.panelId);
    var vs := t1.votes.Values();
    assert t2.votes == t1.votes;
    forall i | 0 <= i < |vs| ensures vs[i].panelId in t2.panels.entries {
      if i < |vs| - 1 {
        assert vs[i] == t.votes.Values()[i];
      }
    }
    forall k | k in t2.panels.entries ensures t2.panels.entries[k].votes == VoteCount(vs, k) {
      if k != vote.panelId {
        assert t2.panels.entries[k] == t.panels.entries[k];
      }
    }
  }

  /** votePanel's writes once the vote is accepted: the vote, then one more
      vote on its panel if that panel is stored. */
  function VoteStored(t: Tables, vote: Vote): (r: Tables)
    requires t.votes.Valid() && t.panels.Valid()
    ensures r == t.(votes := r.votes, panels := r.panels, nextVoteId := t.nextVoteId + 1)
    ensures r.votes.Get(vote.id) == Some(vote)
    ensures vote.panelId in t.panels.entries ==>
      r.panels.Get(vote.panelId) == Some(OneMoreVote(t.panels.entries[vote.panelId]))
    ensures vote.panelId !in t.panels.entries ==> r.panels == t.panels
  {
    if vote.panelId in t.panels.entries then CountVote(AddVote(t, vote), vote.panelId) else AddVote(t, vote)
  }

  /** An accepted vote keeps the invariants, goes last and records its pair;
      the tallies stay exact when the voted panel is stored. */
  lemma VoteStoredKeeps(t: Tables, vote: Vote)
    requires t.Valid() && vote.id == t.nextVoteId
    requires !HasVoted(t.votes.Values(), vote.panelId, vote.userId)
    ensures VoteStored(t, vote).Valid()
    ensures VoteStored(t, vote).votes.Values() == t.votes.Values() + [vote]
    ensures HasVoted(VoteStored(t, vote).votes.Values(), vote.panelId, vote.userId)
    ensures VoteStored(t, vote).panels.order == t.panels.order
    ensures t.DerivedStateAccurate() ==> VoteStored(t, vote).DerivedStateAccurate()
    ensures t.VotesTallied() && vote.panelId in t.panels.entries ==> VoteStored(t, vote).VotesTallied()
  {
    VoteAdded(t, vote);
    var t1 := AddVote(t, vote);
    if vote.panelId in t.panels.entries {
      VoteCountedOnly(t1, vote.panelId);
      VoteCounted(t1, vote.panelId);
      if t.DerivedStateAccurate() {
        VoteCountedAccurate(t1, vote.panelId);
      }
      if t.VotesTallied() {
        VoteTallied(t, vote);
      }
    }
  }

  /** One step of the contributor walk over panel i: the names listed so far
      plus the names still to come make up the whole list. */
  lemma ContributorNamesStep(ps: seq<Panel>, i: nat, users: map<int, User>, seen: set<int>,
                             listed: seq<string>, whole: seq<string>)
    requires i < |ps| && listed + ContributorNames(ps[i..], users, seen) == whole
    ensures ps[i].userId in seen ==> listed + ContributorNames(ps[i + 1..], users, seen) == whole
    ensures ps[i].userId !in seen && ps[i].userId in users ==>
      (listed + [users[ps[i].userId].username]) + ContributorNames(ps[i + 1..], users, seen + {ps[i].userId}) == whole
    ensures ps[i].userId !in seen && ps[i].userId !in users ==>
      listed + ContributorNames(ps[i + 1..], users, seen + {ps[i].userId}) == whole
  {
    assert ps[i..][1..] == ps[i + 1..];
    var u := ps[i].userId;
    if u !in seen {
      var rest := ContributorNames(ps[i + 1..], users, seen + {u});
      if u in users {
        assert listed + ([users[u].username] + rest) == (listed + [users[u].username]) + rest;
      } else {
        assert [] + rest == rest;
      }
    }
  }
}
