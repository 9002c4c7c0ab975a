/** `youtubeDownloader`: the snapany.com JSON payload. The first `video`
    and the first `audio` entry of `medias` are picked, and the video
    entry's formats become a quality-to-link dictionary. */
module YouTube {
  import opened Optional
  import opened FieldChain
  import opened Envelope

  datatype Format = Format(quality: string, videoUrl: string)

  datatype Media = Media(mediaType: string, previewUrl: Option<string>, resourceUrl: Option<string>,
                         formats: Option<seq<Format>>)

  datatype YouTubeData = YouTubeData(text: Option<string>, medias: seq<Media>)

  datatype YouTubeResult = YouTubeResult(
    title: Option<string>, thumbnail: Option<string>, downloadLinks: map<string, string>,
    video: Option<string>, audio: Option<string>, formats: seq<Format>)

  /** `medias.find(m => m.media_type === kind)` */
  function FindMedia(medias: seq<Media>, kind: string): (r: Option<Media>)
    ensures r.None? <==> forall i :: 0 <= i < |medias| ==> medias[i].mediaType != kind
    ensures r.Some? ==> exists i :: 0 <= i < |medias| && medias[i] == r.value
                                    && forall j :: 0 <= j < i ==> medias[j].mediaType != kind
    ensures r.Some? ==> r.value.mediaType == kind
    decreases |medias|
  {
    if medias == [] then None
    else if medias[0].mediaType == kind then Some(medias[0])
    else
      var r := FindMedia(medias[1..], kind);
      assert forall i :: 1 <= i < |medias| ==> medias[i] == medias[1..][i - 1];
      if r.Some? then
        var k :| 0 <= k < |medias[1..]| && medias[1..][k] == r.value
                 && forall j :: 0 <= j < k ==> medias[1..][j].mediaType != kind;
        assert medias[k + 1] == r.value;
        r
      else
        r
  }

  /** The dictionary key of a format: `${quality}p` */
  function QualityKey(f: Format): string {
    f.quality + "p"
  }

  /** `downloadLinks` after writing every format in order */
  function DownloadLinks(formats: seq<Format>): (r: map<string, string>)
    ensures forall k :: k in r ==> |k| > 0 && k[|k| - 1] == 'p'
    decreases |formats|
  {
    if formats == [] then map[]
    else
      var last := formats[|formats| - 1];
      DownloadLinks(formats[..|formats| - 1])[QualityKey(last) := last.videoUrl]
  }

  /** The keys are exactly the formats' quality keys */
  lemma {:induction false} DownloadLinksKeys(formats: seq<Format>)
    ensures forall k :: k in DownloadLinks(formats) <==> exists i :: 0 <= i < |formats| && QualityKey(formats[i]) == k
    decreases |formats|
  {
    if formats != [] {
      var init := formats[..|formats| - 1];
      DownloadLinksKeys(init);
      assert forall i :: 0 <= i < |init| ==> init[i] == formats[i];
    }
  }

  /** A key maps to the link of the last format carrying that quality: a
      later duplicate overwrites an earlier one */
  lemma {:induction false} DownloadLinksLastWins(formats: seq<Format>, i: nat)
    requires i < |formats|
    requires forall j :: i < j < |formats| ==> QualityKey(formats[j]) != QualityKey(formats[i])
    ensures QualityKey(formats[i]) in DownloadLinks(formats)
    ensures DownloadLinks(formats)[QualityKey(formats[i])] == formats[i].videoUrl
    decreases |formats|
  {
    if i < |formats| - 1 {
      var init := formats[..|formats| - 1];
      assert forall j :: i < j < |init| ==> init[j] == formats[j];
      DownloadLinksLastWins(init, i);
    }
  }

  /** The `forEach` loop writing one key per format */
  method BuildDownloadLinks(formats: seq<Format>) returns (downloadLinks: map<string, string>)
    ensures downloadLinks == DownloadLinks(formats)
  {
    downloadLinks := map[];
    var i := 0;
    while i < |formats|
      invariant 0 <= i <= |formats|
      invariant downloadLinks == DownloadLinks(formats[..i])
    {
      assert formats[..i + 1][..i] == formats[..i];
      var format := formats[i];
      downloadLinks := downloadLinks[QualityKey(format) := format.videoUrl];
      i := i + 1;
    }
    assert formats[..i] == formats;
  }

  /** `videoMedia?.formats || []` */
  function FormatsOf(m: Option<Media>): seq<Format> {
    if m.Some? && m.value.formats.Some? then m.value.formats.value else []
  }

  method YoutubeDownloader(response: Fetched<YouTubeData>) returns (r: Response<YouTubeResult>)
    ensures r.creator == Creator
    ensures response.Threw? ==> r == Fail(Creator, Message(response.error))
    ensures response.Received? ==> r.Ok?
    ensures r.Ok? ==>
              var data := response.body;
              var video := FindMedia(data.medias, "video");
              var audio := FindMedia(data.medias, "audio");
              && r.result.title == data.text
              && (r.result.thumbnail.Some? <==> video.Some? && Truthy(video.value.previewUrl))
              && (r.result.thumbnail.Some? ==> r.result.thumbnail == video.value.previewUrl)
              && (r.result.video.Some? <==> video.Some? && Truthy(video.value.resourceUrl))
              && (r.result.video.Some? ==> r.result.video == video.value.resourceUrl)
              && (r.result.audio.Some? <==> audio.Some? && Truthy(audio.value.resourceUrl))
              && (r.result.audio.Some? ==> r.result.audio == audio.value.resourceUrl)
              && r.result.formats == FormatsOf(video)
              && r.result.downloadLinks == DownloadLinks(FormatsOf(video))
  {
    if response.Threw? {
      return Caught(response.error);
    }
    var data := response.body;
    var videoMedia := FindMedia(data.medias, "video");
    var audioMedia := FindMedia(data.medias, "audio");

    var downloadLinks: map<string, string> := map[];
    if videoMedia.Some? && videoMedia.value.formats.Some? {
      downloadLinks := BuildDownloadLinks(videoMedia.value.formats.value);
    }
    var thumbnail := if videoMedia.Some? then NonEmpty(videoMedia.value.previewUrl) else None;
    var video := if videoMedia.Some? then NonEmpty(videoMedia.value.resourceUrl) else None;
    var audio := if audioMedia.Some? then NonEmpty(audioMedia.value.resourceUrl) else None;
    return Ok(Creator, YouTubeResult(data.text, thumbnail, downloadLinks, video, audio, FormatsOf(videoMedia)));
  }
}
