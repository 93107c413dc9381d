/** The "Add content to this club" dialog (src/components/Club/ClubAddContent.tsx): which
    of its two buttons, and whether its no-permission message, a viewer sees. */
module ClubAddContent {
  import opened Tables

  /** What `useClubContributorStatus` reports about the viewer for one club. */
  datatype ContributorStatus = ContributorStatus(
    isOwner: bool,
    isModerator: bool,
    isClubAdmin: bool,
    permissions: seq<AdminPermission>)

  /** `canCreatePosts` (ClubAddContent.tsx:27-28). */
  predicate CanCreatePosts(s: ContributorStatus)
  {
    s.isOwner || s.isModerator || ManagePosts in s.permissions
  }

  /** `canCreateResources` (ClubAddContent.tsx:30): moderators are not included. */
  predicate CanCreateResources(s: ContributorStatus)
  {
    s.isOwner || s.isClubAdmin
  }

  /** `noActions` (ClubAddContent.tsx:32). */
  predicate NoActions(s: ContributorStatus)
  {
    !CanCreatePosts(s) && !CanCreateResources(s)
  }

  /** What the dialog renders: the "Add Post" button, the "Resource" button and the
      no-permission message. */
  datatype AddContentView = AddContentView(postButton: bool, resourceButton: bool, noPermissionMessage: bool)

  /** The dialog body (ClubAddContent.tsx:34-83): the message shows exactly when neither
      button does. */
  function Render(s: ContributorStatus): (v: AddContentView)
    ensures v.postButton <==> CanCreatePosts(s)
    ensures v.resourceButton <==> CanCreateResources(s)
    ensures v.noPermissionMessage <==> !v.postButton && !v.resourceButton
  {
    AddContentView(CanCreatePosts(s), CanCreateResources(s), NoActions(s))
  }

  /** An owner sees both buttons and never the message. */
  lemma OwnerSeesBothButtons(s: ContributorStatus)
    requires s.isOwner
    ensures Render(s) == AddContentView(true, true, false)
  {
  }

  /** A moderator who is neither owner nor admin may add posts but not resources. */
  lemma ModeratorAddsPostsOnly(s: ContributorStatus)
    requires s.isModerator && !s.isOwner && !s.isClubAdmin
    ensures Render(s) == AddContentView(true, false, false)
  {
  }

  /** An admin without `ManagePosts`, neither owner nor moderator, may add resources only. */
  lemma AdminWithoutManagePostsAddsResourcesOnly(s: ContributorStatus)
    requires s.isClubAdmin && !s.isOwner && !s.isModerator && ManagePosts !in s.permissions
    ensures Render(s) == AddContentView(false, true, false)
  {
  }
}
