# Clubs: tiers, posts and their permissions, in Dafny

This project models the core of the clubs feature of the civitai code base:

- creating a club with its images and its membership tiers (`createClub`, `upsertClub`);
- the tier diff that deletes, creates and updates tiers in one call (`upsertClubTiers`);
- the rule that turns a submitted image into the value of a foreign-key column;
- reading club posts, one at a time or as a list, and who may see members-only posts;
- the guarded create, update and delete of a club post;
- the membership button a tier card offers its viewer (`ClubTierItem`);
- the "Add content" dialog's capabilities (`ClubAddContent`), and how they line up with
  the server's post guard.

Layout, one module per file:

- `wrappers.dfy` (`Wrappers`): `Option`, `Result` and `Outcome`. It also holds
  JavaScript truthiness of optional ids (`Truthy`: absent, `null` and `0` are falsy),
  a sequence filter, and a choice from a non-empty set.
- `images.dfy` (`Images`):
  - submitted images (`null`, `undefined`, or an upload that may carry an id);
  - which images are sent for creation;
  - the three-way rule (`null` clears the column, `undefined` keeps it, a number sets it);
  - the predicate `ImageColumnAfter`, which says what a column holds after a write.
- `tables.dfy` (`Tables`): the rows and the error kinds. It also holds the class
  `Database`, whose fields are the club, tier, post and image tables and their id
  sequences. `createEntityImages` is a method of the class: it stores one image per URL
  under fresh ids.
- `club_service.dfy` (`ClubService`): `UpsertTiers` gives, as a function of the old tier
  table, the table `upsertClubTiers` leaves behind, and the lemmas say what that means.
  The methods `UpsertClubTiers`, `CreateClub` and `UpsertClub` change the database in
  the order the service does, and they are proved to reach that function's result.
- `club_post_service.dfy` (`ClubPostService`): the two visibility rules, the list and
  single-post reads, and the guards of upsert and delete, as functions. The post table
  changes through the methods `UpsertClubPost` and `DeleteClubPost`.
- `club_tier_item.dfy` (`ClubTierItem`): the values derived from a membership and a
  tier, and the nested choice of control, as functions.
- `club_add_content.dfy` (`ClubAddContent`): the three capability predicates and what
  the dialog renders.
- `content_permissions.dfy` (`ContentPermissions`): lemmas relating the dialog's "Add
  Post" button to the server's guard.

Foreign calls become parameters or methods:

- `createEntityImages` is `Database.CreateEntityImages`.
- `userContributingClubs` is a map `contributing` from club id to the caller's entry
  (`UserClub`: the club owner and the caller's admin row, if any).
- `useClubContributorStatus` is a `ContributorStatus` value. `StatusFor` derives one
  from a `UserClub`.
- The clock is a `now` parameter.
- Dates are integers.

## Model

| member | source | states |
|---|---|---|
| Images.FindByUrl | src/server/services/club.service.ts:52 | `createdImages.find` by URL: the result is the first created record with that URL, and it is absent exactly when no record has it |
| Images.ResolveImageId | src/server/services/club.service.ts:48-65 | `null` clears the column, `undefined` keeps it, and an image with an id sets that id. Otherwise the id comes from a created record with the same URL, and exactly when one exists |
| Images.ResolveOnCreate | src/server/services/clubPost.service.ts:181 | the create form `image?.id ?? find(url)?.id` never clears. On a new, empty column it agrees with the three-way rule |
| Images.UploadUrls | src/server/services/club.service.ts:40 | the URLs sent to `createEntityImages` are those of the present images without a truthy id (club and post images) or without an id (tier covers), and no others |
| Images.UploadedImagesResolve | src/server/services/club.service.ts:132-148 | when the created records carry the uploaded URLs, every uploaded image without an id resolves to a created id |
| Images.ResolvedColumn | src/server/services/club.service.ts:44-66 | resolving against freshly stored records gives the column that `ImageColumnAfter` describes (cleared, kept, the given id, or a new image row with the submitted URL) |
| Images.ColumnSurvivesNewImages | src/server/services/club.service.ts:70-76 | a resolved column stays valid while later steps only add image rows |
| Tables.Database.CreateEntityImages | src/server/services/club.service.ts:38-42 | one new image row per URL, in order, owned by the given user, under distinct fresh ids. Rows already there are unchanged and no other row appears |
| ClubService.TiersToCreate | src/server/services/club.service.ts:141 | a submitted tier is created exactly when its id is absent or 0 |
| ClubService.TiersToUpdate | src/server/services/club.service.ts:154 | a submitted tier is updated exactly when it has an id, 0 included, so a tier with id 0 is in both sets |
| ClubService.UpsertTiers | src/server/services/club.service.ts:101-121 | the call fails with a bad request exactly when a tier named for deletion still has members |
| ClubService.CreateRowsFacts | src/server/services/club.service.ts:141-152 | the create step never overwrites a row and keeps the sequence above every id. The sequence advances by exactly the number of tiers that take a fresh id. The new ids are exactly that fresh range, plus 0 when a tier carries the id 0. Every new row belongs to the club and has no members |
| ClubService.CreateRowsAt | src/server/services/club.service.ts:141-152 | the i-th tier to create that takes a fresh id is written, as `createMany` builds its row, under the old next id plus the number of fresh ids taken before it. No later tier overwrites it |
| ClubService.UpdateRowsFacts | src/server/services/club.service.ts:154-173 | the update step keeps the ids and the member counts, and leaves unnamed rows unchanged. A row named by exactly one tier takes that tier's fields, the club id, and the cover given by the three-way rule |
| ClubService.UpsertRemovesDeletedTiers | src/server/services/club.service.ts:123-129 | after success, a deleted tier is gone. The one exception is id 0 recreated by a submitted tier with id 0, and any row under a deleted id is new and memberless |
| ClubService.UpsertKeepsUntouchedTiers | src/server/services/club.service.ts:86-174 | tiers neither deleted nor submitted are unchanged |
| ClubService.UpsertTierIds | src/server/services/club.service.ts:123-152 | after success, the ids are exactly the old ids not deleted, one fresh id per created tier that does not carry the id 0, and 0 when a submitted tier carries it. The sequence advances by exactly that count |
| ClubService.CreatedTierRow | src/server/services/club.service.ts:141-173 | after success, the i-th tier to create that takes a fresh id has a row at its position's fresh id that was not an old id. The row belongs to the club and has no members. When no submitted tier names that id, it is the row `createMany` wrote |
| ClubService.UpsertCreatesNewTiers | src/server/services/club.service.ts:141-152 | every submitted tier without an id gets its own new, memberless row of the club. Its fresh id grows strictly with its position, so two such tiers never share a row. When every submitted id lies below the old next id, the row is exactly the one `createMany` wrote |
| ClubService.UpsertUpdatesSubmittedTiers | src/server/services/club.service.ts:154-173 | a surviving tier named by id moves to the club and keeps its member count. When it is named once, it takes the submitted fields and the resolved cover |
| ClubService.NewTierCoversResolve | src/server/services/club.service.ts:132-148 | a new tier whose cover is an upload without an id gets a cover id |
| ClubService.TwoTierRoundTrip | src/server/services/club.service.ts:86-174 | with tiers 1 and 2, deleting 1, updating 2 and adding one leaves exactly tiers 2 and 3. If tier 1 had a member, the call fails |
| ClubService.DeleteTierRows | src/server/services/club.service.ts:101-130 | refuses exactly when a tier to delete has members, writing nothing. Otherwise it removes the named rows |
| ClubService.CreateTierRows | src/server/services/club.service.ts:141-152 | the tier table becomes `CreateRows` of the old one |
| ClubService.UpdateTierRows | src/server/services/club.service.ts:154-173 | the tier table becomes `UpdateRows` of the old one |
| ClubService.UpsertClubTiers | src/server/services/club.service.ts:86-174 | fails exactly when `UpsertTiers` does, writing nothing. Otherwise the tier table equals `UpsertTiers` of the old table. The new cover images carry the uploaded URLs and are fresh rows owned by the caller. Old image rows are unchanged, and every new image row is the caller's |
| ClubService.InsertClub | src/server/services/club.service.ts:38-67 | adds exactly one club row, under a new id, owned by the caller, with no members or admins. Its three image columns follow the three-way rule against the new image rows. Old image rows are unchanged, and every new one is the caller's |
| ClubService.CreateClub | src/server/services/club.service.ts:27-84 | in one transaction: a refusal restores clubs, tiers and images. Success adds exactly one club row owned by the caller, whose three image columns follow the three-way rule. Its tiers are `UpsertTiers` of the old table, applied with tier-cover records that carry the uploaded URLs and are fresh, stored rows owned by the caller. Old image rows are unchanged, and every new image row is the caller's |
| ClubService.UpsertClub | src/server/services/club.service.ts:14-25 | a truthy id changes nothing. Otherwise it creates the club, failing exactly when a tier to delete has members |
| ClubPostService.ContributingClub | src/server/services/clubPost.service.ts:126 | the caller's entry for the club, present exactly when the caller contributes to it |
| ClubPostService.ListedPosts | src/server/services/clubPost.service.ts:38-53 | the posts of the club the list lets through: all of them when members-only content is included, otherwise only those not members-only |
| ClubPostService.GetAllClubPosts | src/server/services/clubPost.service.ts:9-59 | `NotFound` exactly for a signed-in viewer of a missing club. Otherwise it returns distinct listed posts, newest first, `min(limit, count)` of them, and no listed post left out is newer than one returned |
| ClubPostService.GetClubPostById | src/server/services/clubPost.service.ts:61-113 | `NotFound` exactly for a missing post, or a missing club for a signed-in viewer. `Authorization` exactly for a members-only post the viewer may not see (admins count as outsiders). Otherwise the post itself |
| ClubPostService.PostRuleImpliesListRule | src/server/services/clubPost.service.ts:38-45 | whoever may see members-only content in the single read may see it in the list |
| ClubPostService.ReadablePostIsListed | src/server/services/clubPost.service.ts:96-112 | a post the single read returns is one the list of its club lets through |
| ClubPostService.AdminSeesListButNotPost | src/server/services/clubPost.service.ts:96-104 | a club admin who is not owner, member or moderator sees a members-only post in the list but is refused it by id |
| ClubPostService.PublicPostVisibleToAll | src/server/services/clubPost.service.ts:82-112 | a post that is not members-only is returned and listed for any viewer, an anonymous one included |
| ClubPostService.AnonymousNeverSeesMembersOnly | src/server/services/clubPost.service.ts:96-104 | an anonymous non-moderator is refused every members-only post and never gets one in a list |
| ClubPostService.UpsertGuard | src/server/services/clubPost.service.ts:126-149 | passes exactly for a caller with a contributing club who, on an update, names an existing post they may edit (author, moderator, owner or `ManagePosts` admin). No contributing club is a runtime failure, even for a moderator. A missing post is `NotFound` |
| ClubPostService.DeleteGuard | src/server/services/clubPost.service.ts:194-209 | passes exactly for an existing post whose club the caller contributes to, when they are owner, moderator or a `ManagePosts` admin. A moderator without a contributing club gets a runtime failure; a missing post gets `NotFound` |
| ClubPostService.DeleteRightImpliesEditRight | src/server/services/clubPost.service.ts:144-146 | whoever may delete a post may update it |
| ClubPostService.AuthorMayEditButNotDelete | src/server/services/clubPost.service.ts:144-209 | the author, with no other role, may update the post but is refused its deletion |
| ClubPostService.UpsertClubPost | src/server/services/clubPost.service.ts:115-187 | a failed guard changes nothing. A cover upload is stored under the club owner's id. An update keeps the author and creation time, and its cover follows the three-way rule. A create is authored by the caller at `now`, under id 0 when given (a clash is a unique violation) or a fresh id |
| ClubPostService.DeleteClubPost | src/server/services/clubPost.service.ts:189-216 | the outcome is `DeleteGuard`. On success exactly that post is removed, and otherwise nothing changes |
| ClubTierItem.RemainingSpots | src/components/Club/ClubTierItem.tsx:56-58 | absent exactly when the member limit is absent or 0. Otherwise never negative, at most a positive limit, and zero exactly when the tier is full |
| ClubTierItem.UpgradeAndDowngradeExclusive | src/components/Club/ClubTierItem.tsx:168-169 | never both an upgrade and a downgrade. Neither without a membership, on the current tier, or at an equal price; otherwise exactly one |
| ClubTierItem.CurrentTierHandler | src/components/Club/ClubTierItem.tsx:351-357 | update when a downgrade is pending, else restore when cancelled, else cancel |
| ClubTierItem.CurrentTierLabel | src/components/Club/ClubTierItem.tsx:360-364 | "until" the expiry when set, else the next billing date when a downgrade is pending, else no date |
| ClubTierItem.ChooseAction | src/components/Club/ClubTierItem.tsx:338-392 | the owner, and only the owner, gets no control. The current tier's button never joins, the Downgrade button appears only for a downgrade, and the Buzz button charges the tier's price |
| ClubTierItem.DowngradeTargetTakesPrecedence | src/components/Club/ClubTierItem.tsx:340-344 | the pending downgrade target shows the inert "Active on" button at the next billing date, even when it is also the current tier |
| ClubTierItem.CurrentTierButton | src/components/Club/ClubTierItem.tsx:344-371 | on the current tier: update, restore or cancel as the membership says. The restore hint shows exactly for a cancelled membership |
| ClubTierItem.DowngradeDisabledOnlyWhenFull | src/components/Club/ClubTierItem.tsx:372-382 | the Downgrade button's `disabled` prop is exactly `remainingSpots === 0`, that is the tier is full. Its `loading` prop is not modelled |
| ClubTierItem.BuzzButtonChoice | src/components/Club/ClubTierItem.tsx:383-391 | "Upgrade" with the update handler exactly for an upgrade, otherwise "Become a member" with join. Disabled exactly while a mutation is in flight or the tier is full |
| ClubTierItem.EqualPriceOffersJoin | src/components/Club/ClubTierItem.tsx:168-391 | a member of another tier at the same price, or a non-member, is offered to join |
| ClubTierItem.ConfirmUpdate | src/components/Club/ClubTierItem.tsx:189-257 | an upgrade is charged now. Any other change takes effect at the next billing date |
| ClubTierItem.UpdateFromDowngradeOrCurrentIsDeferred | src/components/Club/ClubTierItem.tsx:351-378 | the Downgrade button, and the current tier's button while a downgrade is pending, defer the change to the next billing date |
| ClubAddContent.Render | src/components/Club/ClubAddContent.tsx:27-80 | the post button shows exactly when the viewer can create posts, and the resource button exactly when they can create resources. The message shows exactly when neither button does |
| ClubAddContent.OwnerSeesBothButtons | src/components/Club/ClubAddContent.tsx:27-32 | an owner gets both buttons and no message |
| ClubAddContent.ModeratorAddsPostsOnly | src/components/Club/ClubAddContent.tsx:27-30 | a moderator who is neither owner nor admin may add posts but not resources |
| ClubAddContent.AdminWithoutManagePostsAddsResourcesOnly | src/components/Club/ClubAddContent.tsx:27-30 | an admin without `ManagePosts` may add resources only |
| ContentPermissions.StatusFor | src/components/Club/ClubAddContent.tsx:23-25 | the contributor status read from a contributing-club entry: owner exactly when the entry names the viewer as owner, and `ManagePosts` exactly when the admin row grants it |
| ContentPermissions.CreateNeedsOnlyAContributingClub | src/server/services/clubPost.service.ts:126-149 | the server's create guard passes exactly when the caller contributes to the club: it never asks for `ManagePosts` |
| ContentPermissions.ButtonShownImpliesCreateAccepted | src/components/Club/ClubAddContent.tsx:27-28 | whoever is shown "Add Post" and contributes to the club passes the server's create guard |
| ContentPermissions.ServerAcceptsPostTheDialogHides | src/components/Club/ClubAddContent.tsx:27-30 | an admin without `ManagePosts` is not shown "Add Post" (only "Resource"), yet the server accepts their post |
| ContentPermissions.ModeratorWithoutClubFails | src/server/services/clubPost.service.ts:126-209 | a moderator who contributes to no club is shown "Add Post", but the server fails with a runtime error on create and on delete |

## Left out

- Cursor pagination of the post list is not modelled. `GetAllClubPosts` returns the first page, and the order among posts with equal `createdAt` is left open, as the database leaves it.
- Prisma `select` projections, transaction `maxWait`/`timeout`, and the second read of the same post in `getClubPostById` are not modelled. Rows are whole values.
- `createEntityImages` is not modelled beyond its result. Its records carry the submitted URLs, in order, under fresh ids.
- `userContributingClubs` and `useClubContributorStatus` are inputs, not computed. `StatusFor` is an assumption about how the hook reads the contributing-club entry, because the hook's code is not part of this model.
- The `...tier` spread at club.service.ts:145 passes `id` and the `coverImage` object into `createMany`. `createMany` takes scalar columns only, so the call as written would be rejected for the `coverImage` field and create nothing. The model takes the evidently intended reading: each row gets the tier fields, the club id and the resolved cover id. A submitted id 0 is written as an explicit key, and it is skipped when it already exists (`skipDuplicates`).
- `updateMany` at club.service.ts:157-171 receives an array as its `data`, but Prisma's `updateMany` writes one data object to every row its `where` matches, and it does not accept an array. As written, the update step would be rejected, or at best every named row would get the same values. The model takes the evidently intended per-element reading: each element updates the row with that element's id, in order.
- Postgres sequences are not transactional, so `CreateClub` rolls back the tables but not the id sequences.
- Foreign keys are not checked: a post's or tier's club is not required to exist. Input validation by the request schemas is not modelled either.
- The update branch of `upsertClub` is an empty TODO. `UpsertClub` returns no result there and changes nothing.
- Membership mutations are not modelled: join, update, cancel, restore, the Buzz charge, and `calculateClubTierNextBillingDate`. Their bodies are not part of this model, and the card only chooses between them.
- Rendering is not modelled: modals, notifications, the Stripe payment-method dialog, `LoginPopover`, and date formatting.
- The `loading={updating}` prop of the card's buttons (ClubTierItem.tsx:341, 347, 374, 386) is not modelled. While a mutation is in flight it blocks clicks on every button, the Downgrade button included. `ChooseAction` records only the `disabled` prop.
- ClubService.UpsertCreatesNewTiers: the row a new tier gets is stated exactly only when every submitted id lies below the old next id. Otherwise a submitted id may name the new row, and the update step may rewrite it; its id, club and member count are still stated.
- ClubService.UpsertUpdatesSubmittedTiers: the final row is stated exactly only when one submitted tier carries that id. With duplicates the last one wins, and only the club id and member count are stated.
- ClubService.UpsertClub: states the outcome and the new club's owner. The full new state is the contract of `CreateClub`, which it calls.
