/** `tiktokDownloaderV1`: the ssstik.io result page. A page with carousel
    slides becomes an image post, any other page a video post whose link is
    taken from the first of three anchors that carries one. */
module TikTokV1 {
  import opened Optional
  import opened FieldChain
  import opened Envelope
  import JsText
  import Counts

  /** The selector results the extractor reads. Texts are `.text()` before
      trimming; `slides` holds the `a.download_link.slide` href of each
      `li.splide__slide`, in document order. */
  datatype SsstikPage = SsstikPage(
    authorText: string,              // h2
    avatarSrc: Option<string>,       // img.result_author [src]
    captionText: string,             // p.maintext
    likeText: string,
    commentText: string,
    shareText: string,
    musicHref: Option<string>,       // a.download_link.music [href]
    slides: seq<Option<string>>,
    withoutWatermarkHref: Option<string>,  // a.download_link.without_watermark [href]
    hdDirectUrl: Option<string>,           // a#hd_download [data-directurl]
    hdAltDirectUrl: Option<string>         // a.download_link.without_watermark_hd [data-directurl]
  )

  datatype TikTokMedia = Images(images: seq<string>) | Video(videoDownloadUrl: string) {
    /** The `type` field of the result */
    function Kind(): string {
      if Images? then "images" else "video"
    }
  }

  datatype TikTokV1Result = TikTokV1Result(
    author: string, caption: string, avatar: string,
    likes: int, comments: int, shares: int,
    media: TikTokMedia, audioDownloadUrl: string)

  const NoSlides: string := "Failed to extract carousel slides from response."
  const MissingData: string := "Failed to extract required TikTok data from response."

  /** The non-empty slide links, in document order */
  function SlideLinks(slides: seq<Option<string>>): (r: seq<string>)
    ensures |r| <= |slides|
    ensures forall i :: 0 <= i < |r| ==> r[i] != "" && Some(r[i]) in slides
    decreases |slides|
  {
    if slides == [] then []
    else
      var last := slides[|slides| - 1];
      SlideLinks(slides[..|slides| - 1]) + (if Truthy(last) then [last.value] else [])
  }

  /** Slide links of consecutive runs of slides concatenate */
  lemma {:induction false} SlideLinksAppend(a: seq<Option<string>>, b: seq<Option<string>>)
    ensures SlideLinks(a + b) == SlideLinks(a) + SlideLinks(b)
    decreases |b|
  {
    if b == [] {
      assert a + b == a;
    } else {
      var b' := b[..|b| - 1];
      assert (a + b)[..|a + b| - 1] == a + b';
      assert (a + b)[|a + b| - 1] == b[|b| - 1];
      SlideLinksAppend(a, b');
    }
  }

  /** A link is collected exactly when some slide carries it */
  lemma {:induction false} SlideLinksMembers(slides: seq<Option<string>>, x: string)
    ensures x in SlideLinks(slides) <==> x != "" && exists i :: 0 <= i < |slides| && slides[i] == Some(x)
    decreases |slides|
  {
    if slides != [] {
      var init := slides[..|slides| - 1];
      SlideLinksMembers(init, x);
      if exists i :: 0 <= i < |init| && init[i] == Some(x) {
        var i :| 0 <= i < |init| && init[i] == Some(x);
        assert slides[i] == Some(x);
      }
      if exists i :: 0 <= i < |slides| && slides[i] == Some(x) {
        var i :| 0 <= i < |slides| && slides[i] == Some(x);
        if i < |init| { assert init[i] == Some(x); }
      }
    }
  }

  /** No link at all exactly when every slide lacks one */
  lemma {:induction false} SlideLinksEmpty(slides: seq<Option<string>>)
    ensures SlideLinks(slides) == [] <==> forall i :: 0 <= i < |slides| ==> !Truthy(slides[i])
    decreases |slides|
  {
    if slides != [] {
      var init := slides[..|slides| - 1];
      SlideLinksEmpty(init);
      assert forall i :: 0 <= i < |init| ==> init[i] == slides[i];
    }
  }

  /** When every slide has a link, each is kept, in place */
  lemma {:induction false} SlideLinksAllPresent(slides: seq<Option<string>>)
    requires forall i :: 0 <= i < |slides| ==> Truthy(slides[i])
    ensures |SlideLinks(slides)| == |slides|
    ensures forall i :: 0 <= i < |slides| ==> slides[i] == Some(SlideLinks(slides)[i])
    decreases |slides|
  {
    if slides != [] {
      var init := slides[..|slides| - 1];
      assert forall i :: 0 <= i < |init| ==> init[i] == slides[i];
      SlideLinksAllPresent(init);
    }
  }

  /** The `slides.each` loop pushing every non-empty slide link */
  method CollectSlideLinks(slides: seq<Option<string>>) returns (images: seq<string>)
    ensures images == SlideLinks(slides)
  {
    images := [];
    var i := 0;
    while i < |slides|
      invariant 0 <= i <= |slides|
      invariant images == SlideLinks(slides[..i])
    {
      assert slides[..i + 1][..i] == slides[..i];
      var downloadLink := slides[i];
      if Truthy(downloadLink) {
        images := images + [downloadLink.value];
      }
      i := i + 1;
    }
    assert slides[..i] == slides;
  }

  /** The link of a video post: the watermark-free anchor, else either HD
      anchor's direct URL, else empty */
  function VideoLink(page: SsstikPage): (r: string)
    ensures r == "" <==> !Truthy(page.withoutWatermarkHref) && !Truthy(page.hdDirectUrl)
                         && !Truthy(page.hdAltDirectUrl)
  {
    var cands := [page.withoutWatermarkHref, page.hdDirectUrl, page.hdAltDirectUrl];
    assert cands[0] == page.withoutWatermarkHref && cands[1] == page.hdDirectUrl
           && cands[2] == page.hdAltDirectUrl;
    FirstNonEmpty(cands)
  }

  method TikTokDownloaderV1(response: Fetched<SsstikPage>) returns (r: Response<TikTokV1Result>)
    ensures r.creator == Creator
    ensures response.Threw? ==> r == Fail(Creator, Message(response.error))
    ensures response.Received? && response.body.slides != [] ==>
              (r.Fail? <==> forall i :: 0 <= i < |response.body.slides| ==> !Truthy(response.body.slides[i]))
              && (r.Fail? ==> r.msg == NoSlides)
              && (r.Ok? ==> r.result.media == Images(SlideLinks(response.body.slides)))
    ensures response.Received? && response.body.slides == [] ==>
              (r.Fail? <==> JsText.Trim(response.body.authorText) == ""
                            || JsText.Trim(response.body.captionText) == ""
                            || VideoLink(response.body) == "")
              && (r.Fail? ==> r.msg == MissingData)
              && (r.Ok? ==> r.result.media == Video(VideoLink(response.body)))
    ensures r.Ok? ==>
              var page := response.body;
              && r.result.author == JsText.Trim(page.authorText)
              && r.result.caption == JsText.Trim(page.captionText)
              && r.result.avatar == OrEmpty(page.avatarSrc)
              && r.result.likes == Counts.CountV1(page.likeText)
              && r.result.comments == Counts.CountV1(page.commentText)
              && r.result.shares == Counts.CountV1(page.shareText)
              && r.result.audioDownloadUrl == OrEmpty(page.musicHref)
  {
    if response.Threw? {
      return Caught(response.error);
    }
    var page := response.body;
    var author := JsText.Trim(page.authorText);
    var avatar := OrEmpty(page.avatarSrc);
    var caption := JsText.Trim(page.captionText);

    var likes := 0;
    var comments := 0;
    var shares := 0;
    likes := Counts.CountV1(page.likeText);
    comments := Counts.CountV1(page.commentText);
    shares := Counts.CountV1(page.shareText);

    var audioDownloadUrl := OrEmpty(page.musicHref);
    if |page.slides| > 0 {
      var images := CollectSlideLinks(page.slides);
      SlideLinksEmpty(page.slides);
      if |images| == 0 {
        return Fail(Creator, NoSlides);
      }
      return Ok(Creator, TikTokV1Result(author, caption, avatar, likes, comments, shares,
                                        Images(images), audioDownloadUrl));
    } else {
      var videoDownloadUrl := VideoLink(page);
      if author == "" || caption == "" || videoDownloadUrl == "" {
        return Fail(Creator, MissingData);
      }
      return Ok(Creator, TikTokV1Result(author, caption, avatar, likes, comments, shares,
                                        Video(videoDownloadUrl), audioDownloadUrl));
    }
  }

  /** The video link falls back in the anchors' order: a later anchor is
      used only when every earlier one is missing or empty */
  lemma VideoLinkFallback(page: SsstikPage)
    ensures Truthy(page.withoutWatermarkHref) ==> VideoLink(page) == page.withoutWatermarkHref.value
    ensures !Truthy(page.withoutWatermarkHref) && Truthy(page.hdDirectUrl) ==>
              VideoLink(page) == page.hdDirectUrl.value
    ensures !Truthy(page.withoutWatermarkHref) && !Truthy(page.hdDirectUrl) ==>
              VideoLink(page) == OrEmpty(page.hdAltDirectUrl)
  {
    var cands := [page.withoutWatermarkHref, page.hdDirectUrl, page.hdAltDirectUrl];
    if Truthy(page.withoutWatermarkHref) {
      FirstNonEmptyPicksFirstTruthy(cands, 0);
    } else if Truthy(page.hdDirectUrl) {
      FirstNonEmptyPicksFirstTruthy(cands, 1);
    } else if Truthy(page.hdAltDirectUrl) {
      FirstNonEmptyPicksFirstTruthy(cands, 2);
    }
  }
}
