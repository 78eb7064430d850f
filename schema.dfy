/** The record shapes of shared/schema.ts as the in-memory store holds them.
    Timestamps are opaque millisecond counts; fields the insert schemas
    leave optional are `Option`s (`null` and `undefined` alike are `None`). */
module Schema {
  import opened Wrappers

  type Timestamp = int

  datatype User = User(
    id: int,
    username: string,
    password: string,
    avatarColor: string,
    createdAt: Timestamp)

  datatype InsertUser = InsertUser(username: string, password: string, avatarColor: Option<string>)

  datatype Challenge = Challenge(
    id: int,
    title: string,
    description: string,
    tags: seq<string>,
    status: string,
    totalPanels: Option<int>,
    panelCount: int,
    contributors: int,
    coverImage: Option<string>,
    timeRemaining: int,
    createdAt: Timestamp,
    endedAt: Option<Timestamp>,
    isDaily: Option<bool>,
    createdBy: int,
    category: string,
    daysLeft: int)

  datatype InsertChallenge = InsertChallenge(
    title: string,
    description: string,
    tags: seq<string>,
    totalPanels: Option<int>,
    coverImage: Option<string>,
    isDaily: Option<bool>,
    category: string)

  /** `Partial<Challenge>`: a field is `None` when the caller did not supply it. */
  datatype ChallengePatch = ChallengePatch(
    id: Option<int>,
    title: Option<string>,
    description: Option<string>,
    tags: Option<seq<string>>,
    status: Option<string>,
    totalPanels: Option<Option<int>>,
    panelCount: Option<int>,
    contributors: Option<int>,
    coverImage: Option<Option<string>>,
    timeRemaining: Option<int>,
    createdAt: Option<Timestamp>,
    endedAt: Option<Option<Timestamp>>,
    isDaily: Option<Option<bool>>,
    createdBy: Option<int>,
    category: Option<string>,
    daysLeft: Option<int>)

  datatype Panel = Panel(
    id: int,
    challengeId: int,
    userId: int,
    prompt: string,
    caption: Option<string>,
    imageUrl: string,
    votes: int,
    position: int,
    createdAt: Timestamp,
    username: string)

  datatype InsertPanel = InsertPanel(challengeId: int, prompt: string, caption: Option<string>, imageUrl: string)

  datatype Vote = Vote(id: int, panelId: int, userId: int, createdAt: Timestamp)

  datatype InsertVote = InsertVote(panelId: int)

  /** The summary shape of a community challenge card. */
  datatype CommunityChallenge = CommunityChallenge(
    id: int,
    title: string,
    description: string,
    coverImage: string,
    status: string,
    contributors: int,
    daysLeft: int)

  datatype CompletedStoryboard = CompletedStoryboard(
    id: int,
    title: string,
    category: string,
    coverImage: string,
    panelCount: int,
    completedAt: Timestamp,
    contributors: seq<string>)

  /** The errors createPanel and votePanel throw. */
  datatype StoreError = ChallengeNotFound | UserNotFound | AlreadyVoted

  function Message(e: StoreError): (m: string)
    ensures m == "Challenge not found" <==> e == ChallengeNotFound
    ensures m == "User not found" <==> e == UserNotFound
    ensures m == "User has already voted for this panel" <==> e == AlreadyVoted
  {
    assert "Challenge not found"[0] != "User not found"[0];
    assert "User not found"[5] != "User has already voted for this panel"[5];
    match e
    case ChallengeNotFound => "Challenge not found"
    case UserNotFound => "User not found"
    case AlreadyVoted => "User has already voted for this panel"
  }

  /** JavaScript `s || fallback` on an optional string: an absent or empty
      string gives the fallback. */
  function OrElse(s: Option<string>, fallback: string): (r: string)
    ensures s.Some? && s.value != "" ==> r == s.value
    ensures s.None? || s.value == "" ==> r == fallback
  {
    if s.Some? && s.value != "" then s.value else fallback
  }

  /** Every field the patch supplies already has that value in c. */
  predicate AlreadyHolds(c: Challenge, p: ChallengePatch)
  {
    && (p.id.Some? ==> p.id.value == c.id)
    && (p.title.Some? ==> p.title.value == c.title)
    && (p.description.Some? ==> p.description.value == c.description)
    && (p.tags.Some? ==> p.tags.value == c.tags)
    && (p.status.Some? ==> p.status.value == c.status)
    && (p.totalPanels.Some? ==> p.totalPanels.value == c.totalPanels)
    && (p.panelCount.Some? ==> p.panelCount.value == c.panelCount)
    && (p.contributors.Some? ==> p.contributors.value == c.contributors)
    && (p.coverImage.Some? ==> p.coverImage.value == c.coverImage)
    && (p.timeRemaining.Some? ==> p.timeRemaining.value == c.timeRemaining)
    && (p.createdAt.Some? ==> p.createdAt.value == c.createdAt)
    && (p.endedAt.Some? ==> p.endedAt.value == c.endedAt)
    && (p.isDaily.Some? ==> p.isDaily.value == c.isDaily)
    && (p.createdBy.Some? ==> p.createdBy.value == c.createdBy)
    && (p.category.Some? ==> p.category.value == c.category)
    && (p.daysLeft.Some? ==> p.daysLeft.value == c.daysLeft)
  }

  /** `{ ...challenge, ...data }`: every supplied field replaces the stored one.
      The record comes out unchanged exactly when each supplied value is the
      one already stored; the result holds every supplied value; and the
      derived fields survive a patch that does not supply them. */
  function ApplyPatch(c: Challenge, p: ChallengePatch): (r: Challenge)
    ensures r == c <==> AlreadyHolds(c, p)
    ensures AlreadyHolds(r, p)
    ensures p.id.None? && p.panelCount.None? && p.contributors.None? ==>
      r.id == c.id && r.panelCount == c.panelCount && r.contributors == c.contributors
  {
    Challenge(
      p.id.GetOr(c.id),
      p.title.GetOr(c.title),
      p.description.GetOr(c.description),
      p.tags.GetOr(c.tags),
      p.status.GetOr(c.status),
      p.totalPanels.GetOr(c.totalPanels),
      p.panelCount.GetOr(c.panelCount),
      p.contributors.GetOr(c.contributors),
      p.coverImage.GetOr(c.coverImage),
      p.timeRemaining.GetOr(c.timeRemaining),
      p.createdAt.GetOr(c.createdAt),
      p.endedAt.GetOr(c.endedAt),
      p.isDaily.GetOr(c.isDaily),
      p.createdBy.GetOr(c.createdBy),
      p.category.GetOr(c.category),
      p.daysLeft.GetOr(c.daysLeft))
  }

  /** `{ ...p, ...q }` on two partial records. */
  function MergePatches(p: ChallengePatch, q: ChallengePatch): ChallengePatch
  {
    ChallengePatch(
      if q.id.Some? then q.id else p.id,
      if q.title.Some? then q.title else p.title,
      if q.description.Some? then q.description else p.description,
      if q.tags.Some? then q.tags else p.tags,
      if q.status.Some? then q.status else p.status,
      if q.totalPanels.Some? then q.totalPanels else p.totalPanels,
      if q.panelCount.Some? then q.panelCount else p.panelCount,
      if q.contributors.Some? then q.contributors else p.contributors,
      if q.coverImage.Some? then q.coverImage else p.coverImage,
      if q.timeRemaining.Some? then q.timeRemaining else p.timeRemaining,
      if q.createdAt.Some? then q.createdAt else p.createdAt,
      if q.endedAt.Some? then q.endedAt else p.endedAt,
      if q.isDaily.Some? then q.isDaily else p.isDaily,
      if q.createdBy.Some? then q.createdBy else p.createdBy,
      if q.category.Some? then q.category else p.category,
      if q.daysLeft.Some? then q.daysLeft else p.daysLeft)
  }

  const EmptyPatch := ChallengePatch(None, None, None, None, None, None, None, None,
                                     None, None, None, None, None, None, None, None)

  /** Applying two updates in turn is applying their merge, and so a repeated
      update changes nothing more; the empty update changes nothing. */
  lemma PatchAlgebra(c: Challenge, p: ChallengePatch, q: ChallengePatch)
    ensures ApplyPatch(ApplyPatch(c, p), q) == ApplyPatch(c, MergePatches(p, q))
    ensures ApplyPatch(ApplyPatch(c, p), p) == ApplyPatch(c, p)
    ensures ApplyPatch(c, EmptyPatch) == c
  {
  }
}
