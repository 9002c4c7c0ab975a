/** `facebookDownloader`: reads the first `video source` and the first `img`
    of the returned page and succeeds when either one is there. */
module Facebook {
  import opened Optional
  import opened FieldChain
  import opened Envelope

  /** The `src` attributes of the first `video source` and the first `img` */
  datatype FacebookPage = FacebookPage(videoSrc: Option<string>, imageSrc: Option<string>)

  datatype FacebookResult = FacebookResult(thumbnail: string, videoUrl: string)

  const NoMedia: string := "No video or image found in the response."

  function FacebookDownloader(response: Fetched<FacebookPage>): (r: Response<FacebookResult>)
    ensures r.creator == Creator
    ensures response.Threw? ==> r == Fail(Creator, Message(response.error))
    ensures response.Received? ==>
              (r.Fail? <==> !Truthy(response.body.videoSrc) && !Truthy(response.body.imageSrc))
    ensures response.Received? && r.Fail? ==> r.msg == NoMedia
    ensures r.Ok? ==> r.result.videoUrl != "" || r.result.thumbnail != ""
    ensures r.Ok? ==> (r.result.videoUrl != "" <==> Truthy(response.body.videoSrc))
                      && (r.result.thumbnail != "" <==> Truthy(response.body.imageSrc))
    ensures r.Ok? && r.result.videoUrl != "" ==> r.result.videoUrl == response.body.videoSrc.value
    ensures r.Ok? && r.result.thumbnail != "" ==> r.result.thumbnail == response.body.imageSrc.value
  {
    match response
    case Threw(e) => Caught(e)
    case Received(page) =>
      if !Truthy(page.videoSrc) && !Truthy(page.imageSrc) then Fail(Creator, NoMedia)
      else Ok(Creator, FacebookResult(OrEmpty(page.imageSrc), OrEmpty(page.videoSrc)))
  }
}
