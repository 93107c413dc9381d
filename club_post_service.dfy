/** The club post service (src/server/services/clubPost.service.ts): who may read
    members-only posts, the list and single-post reads, and the guarded create, update
    and delete of a post. */
module ClubPostService {
  import opened Wrappers
  import opened Images
  import opened Tables

  /** One entry of `userContributingClubs` for the caller: the club's owner and, when the
      caller is one of its admins, the permissions of that admin row. */
  datatype UserClub = UserClub(ownerId: int, admin: Option<seq<AdminPermission>>)

  /** `userClub.admin?.permissions.includes(ClubAdminPermission.ManagePosts)`. */
  predicate HasManagePosts(userClub: UserClub)
  {
    userClub.admin.Some? && ManagePosts in userClub.admin.value
  }

  /** The entry for `clubId` that `userContributingClubs` hands back, if any. */
  function ContributingClub(contributing: map<int, UserClub>, clubId: int): (r: Option<UserClub>)
    ensures r.Some? <==> clubId in contributing
    ensures r.Some? ==> r.value == contributing[clubId]
  {
    if clubId in contributing then Some(contributing[clubId]) else None
  }

  /** `includeMembersOnlyContent` of the list (clubPost.service.ts:19-45): a moderator, or a
      signed-in viewer who owns the club, holds a membership or is one of its admins. */
  predicate ListShowsMembersOnly(clubs: map<int, Club>, clubId: int, userId: Option<int>, isModerator: bool)
  {
    isModerator
    || (Truthy(userId) && clubId in clubs
        && (userId.value == clubs[clubId].ownerId
            || userId.value in clubs[clubId].memberIds
            || userId.value in clubs[clubId].admins))
  }

  /** `includeMembersOnlyContent` of the single-post read (clubPost.service.ts:82-101): the
      same, except that being an admin does not count. */
  predicate PostShowsMembersOnly(clubs: map<int, Club>, clubId: int, userId: Option<int>, isModerator: bool)
  {
    isModerator
    || (Truthy(userId) && clubId in clubs
        && (userId.value == clubs[clubId].ownerId || userId.value in clubs[clubId].memberIds))
  }

  /** The posts of `clubId` the list filter lets through. */
  function ListedPosts(clubs: map<int, Club>, posts: map<int, Post>, clubId: int,
                       userId: Option<int>, isModerator: bool): (r: set<int>)
    ensures forall id :: id in r <==>
              id in posts && posts[id].clubId == clubId
              && (ListShowsMembersOnly(clubs, clubId, userId, isModerator) || !posts[id].fields.membersOnly)
  {
    set id | id in posts && posts[id].clubId == clubId
             && (ListShowsMembersOnly(clubs, clubId, userId, isModerator) || !posts[id].fields.membersOnly)
  }

  /** A post of greatest `createdAt` among `pool`. */
  method Newest(posts: map<int, Post>, pool: set<int>) returns (best: int)
    requires pool != {} && pool <= posts.Keys
    ensures best in pool
    ensures forall id :: id in pool ==> posts[id].createdAt <= posts[best].createdAt
  {
    best := Pick(pool);
    var rest := pool - {best};
    while rest != {}
      invariant rest <= pool && best in pool
      invariant forall id :: id in pool - rest ==> posts[id].createdAt <= posts[best].createdAt
      decreases |rest|
    {
      var id := Pick(rest);
      if posts[best].createdAt < posts[id].createdAt {
        best := id;
      }
      rest := rest - {id};
    }
  }

  /** `getAllClubPosts` (clubPost.service.ts:9-59) without the cursor: a signed-in viewer
      of a missing club gets `NotFound`; otherwise the result is `limit` of the listed
      posts, or all of them when there are fewer, newest first, and no listed post left
      out is newer than one returned. */
  method GetAllClubPosts(clubs: map<int, Club>, posts: map<int, Post>, clubId: int, limit: nat,
                         userId: Option<int>, isModerator: bool)
    returns (r: Result<seq<int>, ServiceError>)
    ensures r.Failure? <==> Truthy(userId) && clubId !in clubs
    ensures r.Failure? ==> r.error == NotFound
    ensures r.Success? ==>
              var listed := ListedPosts(clubs, posts, clubId, userId, isModerator);
              var ids := r.value;
              && (forall i :: 0 <= i < |ids| ==> ids[i] in listed)
              && (forall i, j :: 0 <= i < j < |ids| ==> ids[i] != ids[j])
              && (forall i, j :: 0 <= i < j < |ids| ==> posts[ids[j]].createdAt <= posts[ids[i]].createdAt)
              && |ids| == (if limit < |listed| then limit else |listed|)
              && (forall id, i :: id in listed && id !in ids && 0 <= i < |ids| ==>
                    posts[id].createdAt <= posts[ids[i]].createdAt)
  {
    if Truthy(userId) && clubId !in clubs {
      return Failure(NotFound);
    }
    var listed := ListedPosts(clubs, posts, clubId, userId, isModerator);
    var pool := listed;
    var ids: seq<int> := [];
    while |ids| < limit && pool != {}
      invariant pool <= listed
      invariant |pool| + |ids| == |listed|
      invariant |ids| <= limit
      invariant forall i :: 0 <= i < |ids| ==> ids[i] in listed && ids[i] !in pool
      invariant forall id :: id in listed && id !in pool ==> id in ids
      invariant forall i, j :: 0 <= i < j < |ids| ==> ids[i] != ids[j]
      invariant forall i, j :: 0 <= i < j < |ids| ==> posts[ids[j]].createdAt <= posts[ids[i]].createdAt
      invariant forall id, i :: id in pool && 0 <= i < |ids| ==> posts[id].createdAt <= posts[ids[i]].createdAt
      decreases |pool|
    {
      var best := Newest(posts, pool);
      ids := ids + [best];
      pool := pool - {best};
    }
    r := Success(ids);
  }

  /** `getClubPostById` (clubPost.service.ts:61-113): a missing post, or a missing club
      for a signed-in viewer, is `NotFound`; a members-only post the viewer may not see
      is refused; otherwise the post is returned. */
  function GetClubPostById(clubs: map<int, Club>, posts: map<int, Post>, id: int,
                           userId: Option<int>, isModerator: bool): (r: Result<Post, ServiceError>)
    ensures r.Success? ==> id in posts && r.value == posts[id]
    ensures r.Failure? && r.error == NotFound <==>
              id !in posts || (Truthy(userId) && posts[id].clubId !in clubs)
    ensures r.Failure? && r.error == Authorization <==>
              id in posts && (!Truthy(userId) || posts[id].clubId in clubs)
              && posts[id].fields.membersOnly
              && !PostShowsMembersOnly(clubs, posts[id].clubId, userId, isModerator)
    ensures r.Failure? ==> r.error in {NotFound, Authorization}
  {
    if id !in posts then Failure(NotFound)
    else
      var post := posts[id];
      if Truthy(userId) && post.clubId !in clubs then Failure(NotFound)
      else if post.fields.membersOnly && !PostShowsMembersOnly(clubs, post.clubId, userId, isModerator)
      then Failure(Authorization)
      else Success(post)
  }

  /** Whoever may read members-only posts one at a time may read them in the list. */
  lemma PostRuleImpliesListRule(clubs: map<int, Club>, clubId: int, userId: Option<int>, isModerator: bool)
    requires PostShowsMembersOnly(clubs, clubId, userId, isModerator)
    ensures ListShowsMembersOnly(clubs, clubId, userId, isModerator)
  {
  }

  /** A post the single read returns is one the list of its club can return. */
  lemma ReadablePostIsListed(clubs: map<int, Club>, posts: map<int, Post>, id: int,
                             userId: Option<int>, isModerator: bool)
    requires GetClubPostById(clubs, posts, id, userId, isModerator).Success?
    ensures id in ListedPosts(clubs, posts, posts[id].clubId, userId, isModerator)
  {
    var clubId := posts[id].clubId;
    if posts[id].fields.membersOnly {
      PostRuleImpliesListRule(clubs, clubId, userId, isModerator);
    }
  }

  /** A club admin who is neither owner, member nor moderator sees the members-only posts
      in the list but is refused each of them when fetching it by id. */
  lemma AdminSeesListButNotPost(clubs: map<int, Club>, posts: map<int, Post>, id: int, userId: int)
    requires userId != 0 && id in posts && posts[id].fields.membersOnly
    requires posts[id].clubId in clubs
    requires var club := clubs[posts[id].clubId];
             userId in club.admins && userId != club.ownerId && userId !in club.memberIds
    ensures id in ListedPosts(clubs, posts, posts[id].clubId, Some(userId), false)
    ensures GetClubPostById(clubs, posts, id, Some(userId), false) == Failure(Authorization)
  {
  }

  /** A post that is not members-only is returned to, and listed for, any viewer whose
      read does not fail on a missing club, an anonymous one included. */
  lemma PublicPostVisibleToAll(clubs: map<int, Club>, posts: map<int, Post>, id: int,
                               userId: Option<int>, isModerator: bool)
    requires id in posts && !posts[id].fields.membersOnly
    requires !Truthy(userId) || posts[id].clubId in clubs
    ensures GetClubPostById(clubs, posts, id, userId, isModerator) == Success(posts[id])
    ensures id in ListedPosts(clubs, posts, posts[id].clubId, userId, isModerator)
  {
  }

  /** An anonymous viewer who is not a moderator never gets a members-only post. */
  lemma AnonymousNeverSeesMembersOnly(clubs: map<int, Club>, posts: map<int, Post>, id: int, clubId: int)
    requires id in posts && posts[id].fields.membersOnly
    ensures GetClubPostById(clubs, posts, id, None, false) == Failure(Authorization)
    ensures id !in ListedPosts(clubs, posts, clubId, None, false)
  {
  }

  /** The submitted post without its cover image: `...input` of `upsertClubPost`. */
  datatype PostInput = PostInput(id: Option<int>, clubId: int, fields: PostFields)

  /** Who may edit an existing post (clubPost.service.ts:144-148): its author, a
      moderator, the club owner, or an admin with `ManagePosts`. */
  predicate MayEditPost(post: Post, userId: int, isModerator: bool, userClub: UserClub)
  {
    post.createdById == userId || isModerator || userClub.ownerId == userId || HasManagePosts(userClub)
  }

  /** Who may delete a post (clubPost.service.ts:204-209): the club owner, a moderator, or
      an admin with `ManagePosts`; being the author is not enough. */
  predicate MayDeletePost(userId: int, isModerator: bool, userClub: UserClub)
  {
    userClub.ownerId == userId || isModerator || HasManagePosts(userClub)
  }

  /** The guard steps of `upsertClubPost` (clubPost.service.ts:126-149). `userClub.userId`
      is read before the `!userClub` test, so a caller who contributes to no club fails with
      a runtime error whether or not they are a moderator. An update then needs the post to
      exist and the caller to be allowed to edit it. */
  function UpsertGuard(posts: map<int, Post>, input: PostInput, userId: int, isModerator: bool,
                       userClub: Option<UserClub>): (r: Outcome<ServiceError>)
    ensures r.Pass? <==>
              userClub.Some?
              && (Truthy(input.id) ==>
                    input.id.value in posts && MayEditPost(posts[input.id.value], userId, isModerator, userClub.value))
    ensures r == Fail(RuntimeFailure) <==> userClub.None?
    ensures r == Fail(NotFound) <==> userClub.Some? && Truthy(input.id) && input.id.value !in posts
    ensures r.Fail? ==> r.error in {RuntimeFailure, NotFound, Authorization}
  {
    if userClub.None? then Fail(RuntimeFailure)
    else if Truthy(input.id) then
      if input.id.value !in posts then Fail(NotFound)
      else if !MayEditPost(posts[input.id.value], userId, isModerator, userClub.value) then Fail(Authorization)
      else Pass
    else Pass
  }

  /** The guard steps of `deleteClubPost` (clubPost.service.ts:194-209): the post must
      exist; a caller without a contributing club is refused unless a moderator, and a
      moderator without one fails reading `userClub.userId`; otherwise the caller must be
      allowed to delete. */
  function DeleteGuard(posts: map<int, Post>, id: int, userId: int, isModerator: bool,
                       contributing: map<int, UserClub>): (r: Outcome<ServiceError>)
    ensures r.Pass? <==>
              id in posts && posts[id].clubId in contributing
              && MayDeletePost(userId, isModerator, contributing[posts[id].clubId])
    ensures r == Fail(RuntimeFailure) <==>
              id in posts && posts[id].clubId !in contributing && isModerator
    ensures r == Fail(NotFound) <==> id !in posts
    ensures r.Fail? ==> r.error in {RuntimeFailure, NotFound, Authorization}
  {
    if id !in posts then Fail(NotFound)
    else
      var userClub := ContributingClub(contributing, posts[id].clubId);
      if userClub.None? then (if isModerator then Fail(RuntimeFailure) else Fail(Authorization))
      else if !MayDeletePost(userId, isModerator, userClub.value) then Fail(Authorization)
      else Pass
  }

  /** Whoever may delete a post may also edit it in place. */
  lemma DeleteRightImpliesEditRight(posts: map<int, Post>, id: int, userId: int, isModerator: bool,
                                    contributing: map<int, UserClub>, fields: PostFields)
    requires DeleteGuard(posts, id, userId, isModerator, contributing).Pass?
    ensures id != 0 ==>
              UpsertGuard(posts, PostInput(Some(id), posts[id].clubId, fields), userId, isModerator,
                          ContributingClub(contributing, posts[id].clubId)).Pass?
  {
  }

  /** The author of a post who is not owner, moderator or a `ManagePosts` admin may edit
      the post but not delete it. */
  lemma AuthorMayEditButNotDelete(posts: map<int, Post>, id: int, userId: int,
                                  contributing: map<int, UserClub>, fields: PostFields)
    requires id != 0 && id in posts && posts[id].createdById == userId
    requires posts[id].clubId in contributing
    requires var uc := contributing[posts[id].clubId];
             uc.ownerId != userId && !HasManagePosts(uc)
    ensures UpsertGuard(posts, PostInput(Some(id), posts[id].clubId, fields), userId, false,
                        ContributingClub(contributing, posts[id].clubId)) == Pass
    ensures DeleteGuard(posts, id, userId, false, contributing) == Fail(Authorization)
  {
  }

  /** `upsertClubPost` (clubPost.service.ts:115-187). After the guard, a cover image given
      without a truthy id is stored under the club owner's user id. A truthy id updates
      that post with the submitted fields, keeping its author and creation time and
      writing the cover by the three-way rule. Otherwise a post authored by the caller is
      created at `now`, under an explicit id 0 when one was submitted and under the next
      id otherwise. The image row is not rolled back when the create fails. */
  method UpsertClubPost(db: Database, input: PostInput, coverImage: ImageInput, userId: int,
                        isModerator: bool, contributing: map<int, UserClub>, now: int)
    returns (r: Result<int, ServiceError>)
    requires db.Valid()
    modifies db`posts, db`nextPostId, db`images, db`nextImageId
    ensures db.Valid()
    ensures var guard := UpsertGuard(old(db.posts), input, userId, isModerator,
                                     ContributingClub(contributing, input.clubId));
            guard.Fail? ==> r == Failure(guard.error) && unchanged(db)
    ensures r.Failure? && r.error == UniqueViolation <==>
              UpsertGuard(old(db.posts), input, userId, isModerator,
                          ContributingClub(contributing, input.clubId)).Pass?
              && input.id == Some(0) && 0 in old(db.posts)
    ensures r.Failure? ==> db.posts == old(db.posts)
    ensures forall id :: id in old(db.images) ==> id in db.images && db.images[id] == old(db.images)[id]
    ensures forall id :: id in db.images && id !in old(db.images) ==>
              coverImage.Given? && input.clubId in contributing && db.images[id].userId == contributing[input.clubId].ownerId
              && db.images[id].url == coverImage.url
    ensures r.Success? && Truthy(input.id) ==>
              r.value == input.id.value && r.value in old(db.posts) && r.value in db.posts
    ensures r.Success? && Truthy(input.id) && r.value in old(db.posts) && r.value in db.posts ==>
              var prior := old(db.posts)[r.value];
              && db.posts == old(db.posts)[r.value := db.posts[r.value]]
              && db.posts[r.value].clubId == input.clubId
              && db.posts[r.value].fields == input.fields
              && db.posts[r.value].createdById == prior.createdById
              && db.posts[r.value].createdAt == prior.createdAt
              && ImageColumnAfter(db.posts[r.value].coverImageId, coverImage, prior.coverImageId,
                                  old(db.images), db.images)
    ensures r.Success? && !Truthy(input.id) ==>
              && r.value !in old(db.posts) && r.value in db.posts
              && (input.id == Some(0) ==> r.value == 0)
              && db.posts == old(db.posts)[r.value := db.posts[r.value]]
              && db.posts[r.value].clubId == input.clubId
              && db.posts[r.value].fields == input.fields
              && db.posts[r.value].createdById == userId
              && db.posts[r.value].createdAt == now
              && ImageColumnAfter(db.posts[r.value].coverImageId, coverImage, None, old(db.images), db.images)
  {
    var userClub := ContributingClub(contributing, input.clubId);
    var guard := UpsertGuard(db.posts, input, userId, isModerator, userClub);
    if guard.Fail? {
      return Failure(guard.error);
    }
    ghost var images0 := db.images;
    var covers := [coverImage];
    var created := db.CreateEntityImages(UploadUrls(covers, true), userClub.value.ownerId);

    if Truthy(input.id) {
      var id := input.id.value;
      var post := db.posts[id];
      ResolvedColumn(covers, true, coverImage, post.coverImageId, created, images0, db.images);
      var cover := ApplyKeyWrite(ResolveImageId(coverImage, created), post.coverImageId);
      db.posts := db.posts[id := Post(input.clubId, post.createdById, input.fields, cover, post.createdAt)];
      return Success(id);
    }
    ResolvedColumn(covers, true, coverImage, None, created, images0, db.images);
    var cover := ApplyKeyWrite(ResolveOnCreate(coverImage, created), None);
    var id;
    if input.id == Some(0) {
      if 0 in db.posts {
        return Failure(UniqueViolation);
      }
      id := 0;
    } else {
      id := db.nextPostId;
      db.nextPostId := db.nextPostId + 1;
    }
    db.posts := db.posts[id := Post(input.clubId, userId, input.fields, cover, now)];
    r := Success(id);
  }

  /** `deleteClubPost` (clubPost.service.ts:189-216): after the guard, the post is gone and
      nothing else changes. */
  method DeleteClubPost(db: Database, id: int, userId: int, isModerator: bool, contributing: map<int, UserClub>)
    returns (outcome: Outcome<ServiceError>)
    requires db.Valid()
    modifies db`posts
    ensures db.Valid()
    ensures outcome == DeleteGuard(old(db.posts), id, userId, isModerator, contributing)
    ensures outcome.Pass? ==> db.posts == map k | k in old(db.posts) && k != id :: old(db.posts)[k]
    ensures outcome.Fail? ==> db.posts == old(db.posts)
  {
    outcome := DeleteGuard(db.posts, id, userId, isModerator, contributing);
    if outcome.Pass? {
      db.posts := map k | k in db.posts && k != id :: db.posts[k];
    }
  }
}
