/** The rows the club services read and write, the error kinds they raise, and the
    database that holds the tables. Each table is a map from row id to row; every
    id sequence hands out ids above those already used. */
module Tables {
  import opened Wrappers
  import opened Images

  /** `throwBadRequestError`, `throwAuthorizationError`, the `NotFound` of
      `findUniqueOrThrow`, a unique-key violation, and the `TypeError` of reading a
      property of `undefined`. */
  datatype ServiceError = BadRequest | Authorization | NotFound | UniqueViolation | RuntimeFailure

  /** `ClubAdminPermission`; only `ManagePosts` is consulted by the core. */
  datatype AdminPermission = ManagePosts | OtherPermission(name: string)

  datatype ClubFields = ClubFields(name: string, description: string)

  /** A club row together with the two relations the post service reads from it:
      the users holding a membership and the admins with their permissions. */
  datatype Club = Club(
    ownerId: int,
    fields: ClubFields,
    avatarId: Option<int>,
    coverImageId: Option<int>,
    headerImageId: Option<int>,
    memberIds: set<int>,
    admins: map<int, seq<AdminPermission>>)

  datatype TierFields = TierFields(
    name: string,
    description: string,
    unitAmount: int,
    currency: string,
    memberLimit: Option<int>)

  /** A tier row with the number of memberships that point at it. */
  datatype Tier = Tier(clubId: int, fields: TierFields, coverImageId: Option<int>, memberCount: nat)

  datatype PostFields = PostFields(title: string, content: string, membersOnly: bool)

  datatype Post = Post(
    clubId: int,
    createdById: int,
    fields: PostFields,
    coverImageId: Option<int>,
    createdAt: int)

  class Database {
    var clubs: map<int, Club>
    var tiers: map<int, Tier>
    var posts: map<int, Post>
    var images: map<int, ImageRecord>
    var nextClubId: int
    var nextTierId: int
    var nextPostId: int
    var nextImageId: int

    /** Every id sequence is positive and above every id in its table; an image row
        is stored under its own id. */
    ghost predicate Valid()
      reads this
    {
      && 1 <= nextClubId && 1 <= nextTierId && 1 <= nextPostId && 1 <= nextImageId
      && (forall id :: id in clubs ==> id < nextClubId)
      && (forall id :: id in tiers ==> id < nextTierId)
      && (forall id :: id in posts ==> id < nextPostId)
      && (forall id :: id in images ==> id < nextImageId && images[id].id == id)
    }

    constructor ()
      ensures Valid()
      ensures clubs == map[] && tiers == map[] && posts == map[] && images == map[]
    {
      clubs, tiers, posts, images := map[], map[], map[], map[];
      nextClubId, nextTierId, nextPostId, nextImageId := 1, 1, 1, 1;
    }

    /** `createEntityImages`: one new image row per URL, owned by `userId`, each under a
        fresh id; the rows already there are kept. */
    method CreateEntityImages(urls: seq<string>, userId: int) returns (created: seq<ImageRecord>)
      requires Valid()
      modifies this`images, this`nextImageId
      ensures Valid()
      ensures CarriesUrls(created, urls)
      ensures forall i :: 0 <= i < |created| ==>
                created[i].userId == userId && created[i].id !in old(images)
                && created[i].id in images && images[created[i].id] == created[i]
      ensures forall i, j :: 0 <= i < j < |created| ==> created[i].id != created[j].id
      ensures forall id :: id in old(images) ==> id in images && images[id] == old(images)[id]
      ensures forall id :: id in images && id !in old(images) ==>
                exists i :: 0 <= i < |created| && created[i].id == id
      ensures forall id :: id in images && id !in old(images) ==> images[id].userId == userId
      ensures nextImageId >= old(nextImageId)
    {
      created := [];
      var i := 0;
      while i < |urls|
        invariant 0 <= i <= |urls| && |created| == i
        invariant Valid()
        invariant nextImageId == old(nextImageId) + i
        invariant forall k :: 0 <= k < i ==>
                    created[k] == ImageRecord(old(nextImageId) + k, urls[k], userId)
        invariant forall id :: id in old(images) ==> id in images && images[id] == old(images)[id]
        invariant forall k :: 0 <= k < i ==> created[k].id in images && images[created[k].id] == created[k]
        invariant forall id :: id in images && id !in old(images) ==>
                    old(nextImageId) <= id < nextImageId && images[id].userId == userId
      {
        var record := ImageRecord(nextImageId, urls[i], userId);
        images := images[nextImageId := record];
        created := created + [record];
        nextImageId := nextImageId + 1;
        i := i + 1;
      }
      forall id | id in images && id !in old(images)
        ensures exists k :: 0 <= k < |created| && created[k].id == id
      {
        assert created[id - old(nextImageId)].id == id;
      }
    }
  }
}
