/** Image references submitted with clubs, tiers and posts, and the rule that turns a
    reference into a foreign-key write (src/server/services/club.service.ts and
    src/server/services/clubPost.service.ts). */
module Images {
  import opened Wrappers

  /** A submitted image: JavaScript `null`, `undefined`, or an upload that may already
      carry the id of a persisted image. */
  datatype ImageInput = Null | Absent | Given(id: Option<int>, url: string)

  /** A persisted image row, as `createEntityImages` returns it. */
  datatype ImageRecord = ImageRecord(id: int, url: string, userId: int)

  /** What a write does to a foreign-key column: `null` clears it, `undefined` leaves it
      as it is, a number sets it. */
  datatype KeyWrite = Clear | Keep | SetTo(id: int)

  function ApplyKeyWrite(w: KeyWrite, current: Option<int>): Option<int>
  {
    match w
    case Clear => None
    case Keep => current
    case SetTo(id) => Some(id)
  }

  /** `created` carries the submitted URLs, one record per URL, in order. This is what
      `createEntityImages` promises about the records it returns. */
  ghost predicate CarriesUrls(created: seq<ImageRecord>, urls: seq<string>)
  {
    |created| == |urls| && forall i :: 0 <= i < |created| ==> created[i].url == urls[i]
  }

  /** `createdImages.find((i) => i.url === url)`: the first created image with that URL. */
  function FindByUrl(created: seq<ImageRecord>, url: string): (r: Option<ImageRecord>)
    ensures r.Some? ==> r.value in created && r.value.url == url
    ensures r.None? <==> forall im :: im in created ==> im.url != url
    ensures forall k :: 0 <= k < |created| && created[k].url == url
                        && (forall j :: 0 <= j < k ==> created[j].url != url)
                        ==> r == Some(created[k])
  {
    if created == [] then None
    else if created[0].url == url then Some(created[0])
    else
      var r := FindByUrl(created[1..], url);
      assert forall k :: 1 <= k < |created| ==> created[k] == created[1..][k - 1];
      r
  }

  /** The three-way rule (club.service.ts:48-65, 165-169; clubPost.service.ts:166-171):
      `null` clears, `undefined` leaves unset, an image with an id uses that id, and
      otherwise the newly created image with the same URL supplies the id. */
  function ResolveImageId(image: ImageInput, created: seq<ImageRecord>): (r: KeyWrite)
    ensures r.Clear? <==> image.Null?
    ensures image.Absent? ==> r.Keep?
    ensures image.Given? && image.id.Some? ==> r == SetTo(image.id.value)
    ensures image.Given? && image.id.None? ==>
              (r.SetTo? <==> exists im :: im in created && im.url == image.url)
    ensures image.Given? && image.id.None? && r.SetTo? ==>
              exists im :: im in created && im.url == image.url && im.id == r.id
  {
    match image
    case Null => Clear
    case Absent => Keep
    case Given(id, url) =>
      if id.Some? then SetTo(id.value)
      else
        match FindByUrl(created, url)
        case Some(im) => SetTo(im.id)
        case None => Keep
  }

  /** The rule as the create paths write it (club.service.ts:147-148,
      clubPost.service.ts:181): `image?.id ?? find(image?.url)?.id`, so `null` behaves
      like `undefined`. On a new row, whose column starts out empty, it agrees with the
      three-way rule. */
  function ResolveOnCreate(image: ImageInput, created: seq<ImageRecord>): (r: KeyWrite)
    ensures !r.Clear?
    ensures image.Given? ==> r == ResolveImageId(image, created)
    ensures ApplyKeyWrite(r, None) == ApplyKeyWrite(ResolveImageId(image, created), None)
  {
    if image.Given? then ResolveImageId(image, created) else Keep
  }

  /** Whether an image is sent to `createEntityImages`. Club images are filtered with
      `!i?.id` (club.service.ts:40) and post covers with `!coverImage.id`
      (clubPost.service.ts:152), so an id of 0 counts as new there; tier covers are
      filtered with `coverImage?.id === undefined` (club.service.ts:135), so it does not. */
  predicate SentForUpload(image: ImageInput, zeroIdIsNew: bool)
  {
    image.Given? && (if zeroIdIsNew then !Truthy(image.id) else image.id.None?)
  }

  /** The URLs handed to `createEntityImages`, in submission order. */
  function UploadUrls(images: seq<ImageInput>, zeroIdIsNew: bool): (urls: seq<string>)
    ensures |urls| <= |images|
    ensures forall img :: img in images && SentForUpload(img, zeroIdIsNew) ==> img.url in urls
    ensures forall u :: u in urls ==>
              exists img :: img in images && SentForUpload(img, zeroIdIsNew) && img.url == u
  {
    if images == [] then []
    else
      var rest := UploadUrls(images[1..], zeroIdIsNew);
      assert forall img :: img in images[1..] ==> img in images;
      if SentForUpload(images[0], zeroIdIsNew) then [images[0].url] + rest else rest
  }

  /** Every uploaded image without an id resolves to one of the records created for it:
      the fallback by URL never misses when the records carry the submitted URLs. */
  lemma UploadedImagesResolve(images: seq<ImageInput>, zeroIdIsNew: bool, created: seq<ImageRecord>)
    requires CarriesUrls(created, UploadUrls(images, zeroIdIsNew))
    ensures forall img :: img in images && img.Given? && img.id.None? ==>
              ResolveImageId(img, created).SetTo?
              && ApplyKeyWrite(ResolveOnCreate(img, created), None).Some?
  {
    var urls := UploadUrls(images, zeroIdIsNew);
    forall img | img in images && img.Given? && img.id.None?
      ensures ResolveImageId(img, created).SetTo?
    {
      assert SentForUpload(img, zeroIdIsNew);
      assert img.url in urls;
      var i :| 0 <= i < |urls| && urls[i] == img.url;
      assert created[i] in created && created[i].url == img.url;
    }
  }

  /** How an image column ends up after a write of `image` over `previous`: cleared for
      `null`, unchanged for `undefined`, the given id, or the id of a new image row
      (absent from `before`, present in `after`) carrying the submitted URL. */
  ghost predicate ImageColumnAfter(column: Option<int>, image: ImageInput, previous: Option<int>,
                                   before: map<int, ImageRecord>, after: map<int, ImageRecord>)
  {
    match image
    case Null => column.None?
    case Absent => column == previous
    case Given(id, url) =>
      if id.Some? then column == id
      else column.Some? && column.value !in before && column.value in after
           && after[column.value].url == url
  }

  /** Writing an image reference resolved against freshly stored records that carry the
      uploaded URLs gives the column `ImageColumnAfter` describes. */
  lemma ResolvedColumn(images: seq<ImageInput>, zeroIdIsNew: bool, image: ImageInput, previous: Option<int>,
                       created: seq<ImageRecord>, before: map<int, ImageRecord>, after: map<int, ImageRecord>)
    requires image in images
    requires CarriesUrls(created, UploadUrls(images, zeroIdIsNew))
    requires forall i :: 0 <= i < |created| ==>
               created[i].id !in before && created[i].id in after && after[created[i].id] == created[i]
    ensures ImageColumnAfter(ApplyKeyWrite(ResolveImageId(image, created), previous), image, previous, before, after)
  {
    UploadedImagesResolve(images, zeroIdIsNew, created);
    if image.Given? && image.id.None? {
      var w := ResolveImageId(image, created);
      var im :| im in created && im.url == image.url && im.id == w.id;
      var i :| 0 <= i < |created| && created[i] == im;
    }
  }

  /** A column stays as `ImageColumnAfter` describes it when later writes only add image rows. */
  lemma ColumnSurvivesNewImages(column: Option<int>, image: ImageInput, previous: Option<int>,
                                before: map<int, ImageRecord>, mid: map<int, ImageRecord>,
                                after: map<int, ImageRecord>)
    requires ImageColumnAfter(column, image, previous, before, mid)
    requires forall id :: id in mid ==> id in after && after[id] == mid[id]
    ensures ImageColumnAfter(column, image, previous, before, after)
  {
    if image.Given? && image.id.None? {
      var id := column.value;
      assert id in mid && mid[id].url == image.url;
      assert id in after && after[id] == mid[id];
    }
  }
}
