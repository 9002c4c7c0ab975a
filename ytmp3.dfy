/** `ytMp3Downloader`: a chain of three requests. The converter answers
    with the video's details and a slug; the converter's home page hands out
    session cookies; the slug's page, fetched with those cookies, holds the
    download link. Unlike the other extractors this one rejects its promise
    on failure, with a bare `Error` for the two checks it makes itself and
    with an envelope object for anything thrown along the way. */
module YtMp3 {
  import opened Optional
  import opened FieldChain
  import opened Envelope
  import JsText
  import Counts

  /** `data.info`; `view_count` is passed on untouched, whatever JSON
      scalar the converter sends (a number, or a string of digits) */
  datatype VideoInfo = VideoInfo(title: Option<string>, thumbnail: Option<string>,
                                 description: Option<string>, viewCount: Counts.StatValue)

  /** `data` of the converter's answer: `success`, then `data.info`,
      `data.slug` and `data.size` */
  datatype ConvertReply = ConvertReply(success: bool, info: VideoInfo, slug: string, size: int)

  datatype YtMp3Result = YtMp3Result(
    creator: string, status: bool,
    title: Option<string>, thumbnail: Option<string>, description: Option<string>,
    viewCount: Counts.StatValue, size: string, downloadUrl: string)

  /** A rejection value: `new Error(message)`, or the object built by the
      final `.catch`, whose `error` is the caught value's `message` */
  datatype Rejection = BareError(message: string) | ErrorEnvelope(creator: string, status: bool, error: Option<string>)

  datatype Outcome = Resolved(value: YtMp3Result) | Rejected(reason: Rejection)

  const FallbackCookies: string :=
    "PHPSESSID=fl86pmq4dqgh2835b32mdm7380; csrf_cookie_name=739e04fcc21050c61c5325b34f449659; lang=en"

  const PageHost: string := "https://ryin.info/"

  const ConvertFailed: string := "Failed to fetch video data"
  const NoDownloadLink: string := "Download link not found on page"

  /** The `name=value` part of a `set-cookie` entry: what precedes its
      first `;` */
  function CookiePair(entry: string): (p: string)
    ensures p <= entry && ';' !in p
    ensures |p| < |entry| ==> entry[|p|] == ';'
  {
    var p := JsText.Split(entry, ";")[0];
    assert ';' !in p by {
      forall j | 0 <= j < |p| ensures p[j] != ';' {
        assert !JsText.OccursAt(p, ";", j);
        assert p[j..j + 1] == [p[j]];
      }
    }
    if |p| < |entry| then
      assert JsText.OccursAt(entry, ";", |p|);
      p
    else
      p
  }

  function CookiePairs(entries: seq<string>): (r: seq<string>)
    ensures |r| == |entries|
    ensures forall i :: 0 <= i < |entries| ==> r[i] == CookiePair(entries[i])
    decreases |entries|
  {
    if entries == [] then [] else [CookiePair(entries[0])] + CookiePairs(entries[1..])
  }

  /** The `Cookie` header of the third request: the pairs of the
      `set-cookie` entries joined with `"; "` when that header was sent (an
      empty list gives the empty string), the fixed fallback otherwise */
  function CookieHeader(setCookie: Option<seq<string>>): (c: string)
    ensures setCookie.None? ==> c == FallbackCookies
    ensures setCookie == Some([]) ==> c == ""
  {
    match setCookie
    case None => FallbackCookies
    case Some(entries) => JsText.Join(CookiePairs(entries), "; ")
  }

  /** The header splits back into exactly one pair per `set-cookie` entry,
      each the entry cut at its first `;` */
  lemma CookieHeaderPairs(entries: seq<string>)
    requires entries != []
    ensures JsText.Split(CookieHeader(Some(entries)), "; ") == CookiePairs(entries)
  {
    var pairs := CookiePairs(entries);
    forall p | p in pairs ensures "; "[0] !in p {
      var i :| 0 <= i < |pairs| && pairs[i] == p;
      assert p == CookiePair(entries[i]);
    }
    JsText.SplitJoin(pairs, "; ");
  }

  /** The page that holds the download link */
  function PageUrl(slug: string): (u: string)
    ensures |u| == |PageHost| + |slug| && u[..|PageHost|] == PageHost && u[|PageHost|..] == slug
  {
    PageHost + slug
  }

  /** What the final `.catch` rejects with */
  function CatchAll(e: Thrown): (r: Rejection)
    ensures r.ErrorEnvelope? && r.creator == Creator && !r.status
    ensures r.error.Some? <==> e.ErrorObject?
    ensures e.ErrorObject? ==> r.error == Some(e.message)
  {
    ErrorEnvelope(Creator, false, if e.ErrorObject? then Some(e.message) else None)
  }

  /** The three hops. `home` is the second request (only its `set-cookie`
      header is read); `page(url, cookie)` is the third, answering with the
      `download-href` attribute of `#download-url`. */
  function YtMp3Downloader(convert: Fetched<ConvertReply>, home: Fetched<Option<seq<string>>>,
                           page: (string, string) -> Fetched<Option<string>>,
                           formatFileSize: int -> string): (r: Outcome)
    ensures convert.Threw? ==> r == Rejected(CatchAll(convert.error))
    // an unsuccessful conversion rejects with a bare error and stops the chain
    ensures convert.Received? && !convert.body.success ==> r == Rejected(BareError(ConvertFailed))
    ensures convert.Received? && convert.body.success && home.Threw? ==> r == Rejected(CatchAll(home.error))
    ensures convert.Received? && convert.body.success && home.Received? ==>
              var reply := convert.body;
              var answer := page(PageUrl(reply.slug), CookieHeader(home.body));
              && (answer.Threw? ==> r == Rejected(CatchAll(answer.error)))
              && (answer.Received? ==> (r.Resolved? <==> Truthy(answer.body)))
              && (answer.Received? && !Truthy(answer.body) ==> r == Rejected(BareError(NoDownloadLink)))
              && (r.Resolved? ==>
                    && r.value.creator == Creator && r.value.status
                    && r.value.downloadUrl == answer.body.value
                    && r.value.title == reply.info.title
                    && r.value.thumbnail == reply.info.thumbnail
                    && r.value.description == reply.info.description
                    && r.value.viewCount == reply.info.viewCount
                    && r.value.size == formatFileSize(reply.size))
  {
    match convert
    case Threw(e) => Rejected(CatchAll(e))
    case Received(reply) =>
      if !reply.success then Rejected(BareError(ConvertFailed))
      else
        match home
        case Threw(e) => Rejected(CatchAll(e))
        case Received(setCookie) =>
          var cookies := CookieHeader(setCookie);
          match page(PageUrl(reply.slug), cookies)
          case Threw(e) => Rejected(CatchAll(e))
          case Received(downloadHref) =>
            if !Truthy(downloadHref) then Rejected(BareError(NoDownloadLink))
            else
              var info := reply.info;
              Resolved(YtMp3Result(Creator, true, info.title, info.thumbnail, info.description,
                                   info.viewCount, formatFileSize(reply.size), downloadHref.value))
  }

  /** Resolution needs every hop to answer, and the link comes from the
      slug's page fetched with the header built from the second answer */
  lemma ResolvedThroughAllHops(convert: Fetched<ConvertReply>, home: Fetched<Option<seq<string>>>,
                               page: (string, string) -> Fetched<Option<string>>,
                               formatFileSize: int -> string)
    requires YtMp3Downloader(convert, home, page, formatFileSize).Resolved?
    ensures convert.Received? && convert.body.success && home.Received?
    ensures page(PageUrl(convert.body.slug), CookieHeader(home.body))
            == Received(Some(YtMp3Downloader(convert, home, page, formatFileSize).value.downloadUrl))
  {
  }
}
