/** `tiktokDownloaderV2`: the tikdown.com JSON payload. The call succeeds
    only on an `api` object whose `status` is `OK`; every other field falls
    back to a default, and each media item is resolved through a second
    request whose failure is tolerated. */
module TikTokV2 {
  import opened Optional
  import opened FieldChain
  import opened Envelope
  import Counts

  /** `apiData.mediaStats`: each counter a JSON number, a string or absent */
  datatype MediaStats = MediaStats(
    likesCount: Counts.StatValue, commentsCount: Counts.StatValue,
    sharesCount: Counts.StatValue, viewsCount: Counts.StatValue)

  datatype UserInfo = UserInfo(name: Option<string>, username: Option<string>, userAvatar: Option<string>)

  /** The JSON answer of the secondary request for one media item */
  datatype FileData = FileData(fileUrl: Option<string>, quality: Option<string>, fileSize: Option<string>)

  /** One element of `apiData.mediaItems`, together with what its secondary
      request yields: `None` when that request throws */
  datatype RawItem = RawItem(
    itemType: Option<string>, mediaUrl: Option<string>,
    mediaQuality: Option<string>, mediaFileSize: Option<string>,
    fetched: Option<FileData>)

  datatype Api = Api(
    status: Option<string>,
    mediaStats: Option<MediaStats>,
    userInfo: Option<UserInfo>,
    title: Option<string>, description: Option<string>,
    previewUrl: Option<string>, imagePreviewUrl: Option<string>,
    mediaItems: Option<seq<RawItem>>)

  datatype MediaItem = MediaItem(itemType: string, fileUrl: string, quality: Option<string>, fileSize: Option<string>)

  datatype TikTokV2Result = TikTokV2Result(
    author: string, username: string, caption: string, avatar: string,
    likes: int, comments: int, shares: int, views: int,
    previewUrl: string, mediaItems: seq<MediaItem>)

  const NoData: string := "Failed to retrieve TikTok data from the response."

  /** `item.type || 'Video'` */
  function ItemType(item: RawItem): (t: string)
    ensures t != ""
    ensures Truthy(item.itemType) ==> t == item.itemType.value
  {
    if Truthy(item.itemType) then item.itemType.value else "Video"
  }

  /** An item type for which the secondary request is made */
  predicate Resolvable(t: string) {
    t == "Video" || t == "Music"
  }

  /** The asynchronous per-item mapping of `mediaItems` */
  function NormalizeItem(item: RawItem): (m: MediaItem)
    ensures m.itemType == ItemType(item)
    // images, unknown types and failed requests keep what the payload says
    ensures !Resolvable(m.itemType) || item.fetched.None? ==>
              m == MediaItem(m.itemType, OrEmpty(item.mediaUrl), NonEmpty(item.mediaQuality), NonEmpty(item.mediaFileSize))
    // a resolved item prefers the resolved link, and the payload's own
    // quality and size over the resolved ones
    ensures Resolvable(m.itemType) && item.fetched.Some? ==>
              && (Truthy(item.fetched.value.fileUrl) ==> m.fileUrl == item.fetched.value.fileUrl.value)
              && (!Truthy(item.fetched.value.fileUrl) ==> m.fileUrl == OrEmpty(item.mediaUrl))
              && (Truthy(item.mediaQuality) ==> m.quality == item.mediaQuality)
              && (!Truthy(item.mediaQuality) ==> m.quality == item.fetched.value.quality)
              && (Truthy(item.mediaFileSize) ==> m.fileSize == item.mediaFileSize)
              && (!Truthy(item.mediaFileSize) ==> m.fileSize == item.fetched.value.fileSize)
  {
    var t := ItemType(item);
    var mediaUrl := OrEmpty(item.mediaUrl);
    var quality := NonEmpty(item.mediaQuality);
    var fileSize := NonEmpty(item.mediaFileSize);
    if t != "Image" && Resolvable(t) && item.fetched.Some? then
      var fileData := item.fetched.value;
      MediaItem(t,
                if Truthy(fileData.fileUrl) then fileData.fileUrl.value else mediaUrl,
                if quality.Some? then quality else fileData.quality,
                if fileSize.Some? then fileSize else fileData.fileSize)
    else
      MediaItem(t, mediaUrl, quality, fileSize)
  }

  /** `Promise.all(rawMediaItems.map(...))`: one output per input, in order */
  function NormalizeItems(items: seq<RawItem>): (r: seq<MediaItem>)
    ensures |r| == |items|
    ensures forall i :: 0 <= i < |items| ==> r[i] == NormalizeItem(items[i])
    decreases |items|
  {
    if items == [] then [] else [NormalizeItem(items[0])] + NormalizeItems(items[1..])
  }

  /** An image item never depends on its secondary request */
  lemma ImageIgnoresFetch(item: RawItem, other: Option<FileData>)
    requires ItemType(item) == "Image"
    ensures NormalizeItem(item) == NormalizeItem(item.(fetched := other))
    ensures NormalizeItem(item).fileUrl == OrEmpty(item.mediaUrl)
  {
  }

  /** The `status === 'OK'` gate */
  predicate Accepted(api: Option<Api>) {
    api.Some? && api.value.status == Some("OK")
  }

  /** `apiData.mediaStats || {}`: a missing object has every counter absent */
  function Stats(api: Api): (s: MediaStats)
    ensures api.mediaStats.Some? ==> s == api.mediaStats.value
    ensures api.mediaStats.None? ==>
              s.likesCount.Absent? && s.commentsCount.Absent? && s.sharesCount.Absent? && s.viewsCount.Absent?
  {
    api.mediaStats.GetOr(MediaStats(Counts.Absent, Counts.Absent, Counts.Absent, Counts.Absent))
  }

  /** `apiData.userInfo || {}` */
  function User(api: Api): (u: UserInfo)
    ensures api.userInfo.Some? ==> u == api.userInfo.value
    ensures api.userInfo.None? ==> u.name.None? && u.username.None? && u.userAvatar.None?
  {
    api.userInfo.GetOr(UserInfo(None, None, None))
  }

  method TikTokDownloaderV2(response: Fetched<Option<Api>>) returns (r: Response<TikTokV2Result>)
    ensures r.creator == Creator
    ensures response.Threw? ==> r == Fail(Creator, Message(response.error))
    ensures response.Received? ==> (r.Ok? <==> Accepted(response.body))
    ensures response.Received? && r.Fail? ==> r.msg == NoData
    ensures r.Ok? ==>
              var api := response.body.value;
              && r.result.author == FirstNonEmpty([User(api).name, api.title])
              && r.result.username == OrEmpty(User(api).username)
              && r.result.caption == OrEmpty(api.description)
              && r.result.avatar == OrEmpty(User(api).userAvatar)
              && r.result.likes == Counts.CountV2(Stats(api).likesCount)
              && r.result.comments == Counts.CountV2(Stats(api).commentsCount)
              && r.result.shares == Counts.CountV2(Stats(api).sharesCount)
              && r.result.views == Counts.CountV2(Stats(api).viewsCount)
              && r.result.previewUrl == FirstNonEmpty([api.previewUrl, api.imagePreviewUrl])
              && r.result.mediaItems == NormalizeItems(api.mediaItems.GetOr([]))
  {
    if response.Threw? {
      return Caught(response.error);
    }
    var apiData := response.body;
    if apiData.None? || apiData.value.status != Some("OK") {
      return Fail(Creator, NoData);
    }
    var api := apiData.value;
    var mediaStats := Stats(api);

    var likes := 0;
    var comments := 0;
    var shares := 0;
    var views := 0;
    likes := Counts.CountV2(mediaStats.likesCount);
    comments := Counts.CountV2(mediaStats.commentsCount);
    shares := Counts.CountV2(mediaStats.sharesCount);
    views := Counts.CountV2(mediaStats.viewsCount);

    var userInfo := User(api);
    var mediaItems := NormalizeItems(api.mediaItems.GetOr([]));
    return Ok(Creator, TikTokV2Result(
      FirstNonEmpty([userInfo.name, api.title]),
      OrEmpty(userInfo.username),
      OrEmpty(api.description),
      OrEmpty(userInfo.userAvatar),
      likes, comments, shares, views,
      FirstNonEmpty([api.previewUrl, api.imagePreviewUrl]),
      mediaItems));
  }
}
