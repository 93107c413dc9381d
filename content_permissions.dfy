/** How the dialog's "Add Post" button (src/components/Club/ClubAddContent.tsx) lines up
    with the guard the server applies when the post is submitted
    (src/server/services/clubPost.service.ts). */
module ContentPermissions {
  import opened Wrappers
  import opened Tables
  import opened ClubPostService
  import opened ClubAddContent

  /** The contributor status the dialog would see for a viewer whose contributing-club
      entry for the club is `userClub`: owner when the entry names them as owner, admin
      when the entry carries an admin row, with that row's permissions. */
  function StatusFor(userId: int, isModerator: bool, userClub: Option<UserClub>): (s: ContributorStatus)
    ensures s.isModerator == isModerator
    ensures s.isOwner <==> userClub.Some? && userClub.value.ownerId == userId
    ensures ManagePosts in s.permissions <==> userClub.Some? && HasManagePosts(userClub.value)
  {
    match userClub
    case None => ContributorStatus(false, isModerator, false, [])
    case Some(uc) =>
      ContributorStatus(uc.ownerId == userId, isModerator, uc.admin.Some?,
                        if uc.admin.Some? then uc.admin.value else [])
  }

  /** Creating a post needs only a contributing club: the server never asks for
      `ManagePosts` on create. */
  lemma CreateNeedsOnlyAContributingClub(posts: map<int, Post>, clubId: int, fields: PostFields,
                                          userId: int, isModerator: bool,
                                          userClub: Option<UserClub>)
    ensures UpsertGuard(posts, PostInput(None, clubId, fields), userId, isModerator, userClub).Pass?
            <==> userClub.Some?
  {
  }

  /** Whoever the dialog shows "Add Post" to, and who contributes to the club, passes the
      server's create guard. */
  lemma ButtonShownImpliesCreateAccepted(posts: map<int, Post>, clubId: int, fields: PostFields,
                                         userId: int, isModerator: bool, userClub: Option<UserClub>)
    requires Render(StatusFor(userId, isModerator, userClub)).postButton
    requires userClub.Some?
    ensures UpsertGuard(posts, PostInput(None, clubId, fields), userId, isModerator, userClub) == Pass
  {
  }

  /** An admin without `ManagePosts` is not shown "Add Post", yet the server accepts the
      post when it is submitted. */
  lemma ServerAcceptsPostTheDialogHides(posts: map<int, Post>, clubId: int, fields: PostFields,
                                        userId: int, uc: UserClub)
    requires uc.ownerId != userId && uc.admin.Some? && ManagePosts !in uc.admin.value
    ensures !Render(StatusFor(userId, false, Some(uc))).postButton
    ensures Render(StatusFor(userId, false, Some(uc))).resourceButton
    ensures UpsertGuard(posts, PostInput(None, clubId, fields), userId, false, Some(uc)) == Pass
  {
  }

  /** A moderator who contributes to no club is shown "Add Post", but the server fails
      reading the missing club entry, for a create as for a delete. */
  lemma ModeratorWithoutClubFails(posts: map<int, Post>, input: PostInput, userId: int,
                                  contributing: map<int, UserClub>, id: int)
    requires input.clubId !in contributing
    requires id in posts && posts[id].clubId !in contributing
    ensures Render(StatusFor(userId, true, ContributingClub(contributing, input.clubId))).postButton
    ensures UpsertGuard(posts, input, userId, true, ContributingClub(contributing, input.clubId))
            == Fail(RuntimeFailure)
    ensures DeleteGuard(posts, id, userId, true, contributing) == Fail(RuntimeFailure)
  {
  }
}
