/** `instagramDownloader`: every `.download-item` block of the snapinsta
    page that carries a download link becomes one media item, in document
    order; its link text or icon tells a video from an image. */
module Instagram {
  import opened Optional
  import opened FieldChain
  import opened Envelope
  import JsText

  /** One `.download-item`: its preview `src`, the `.download-media` href
      and untrimmed text, and how many `.icon-downvid` elements it holds */
  datatype Block = Block(previewSrc: Option<string>, downloadHref: Option<string>,
                         downloadText: string, videoIcons: nat)

  datatype MediaKind = VideoMedia | ImageMedia {
    function Name(): string {
      if VideoMedia? then "video" else "image"
    }
  }

  datatype InstagramMediaItem = InstagramMediaItem(kind: MediaKind, url: string, preview: Option<string>)

  const NoItems: string := "No media items found in the response."

  /** The link text mentions a video, in any ASCII case, or a video icon is
      present */
  predicate IsVideo(b: Block) {
    JsText.Contains(JsText.ToLower(JsText.Trim(b.downloadText)), "video") || b.videoIcons > 0
  }

  /** The item a block yields when it has a link */
  function ItemOf(b: Block): (m: InstagramMediaItem)
    requires Truthy(b.downloadHref)
    ensures m.url == b.downloadHref.value && m.url != ""
    ensures m.kind.VideoMedia? <==> IsVideo(b)
    ensures m.preview.Some? <==> Truthy(b.previewSrc)
    ensures m.preview.Some? ==> m.preview == b.previewSrc
  {
    InstagramMediaItem(if IsVideo(b) then VideoMedia else ImageMedia, b.downloadHref.value, NonEmpty(b.previewSrc))
  }

  /** The items of the blocks that have a link, in order */
  function MediaItems(blocks: seq<Block>): (r: seq<InstagramMediaItem>)
    ensures |r| <= |blocks|
    ensures forall i :: 0 <= i < |r| ==> r[i].url != ""
    decreases |blocks|
  {
    if blocks == [] then []
    else
      var last := blocks[|blocks| - 1];
      MediaItems(blocks[..|blocks| - 1]) + (if Truthy(last.downloadHref) then [ItemOf(last)] else [])
  }

  lemma {:induction false} MediaItemsAppend(a: seq<Block>, b: seq<Block>)
    ensures MediaItems(a + b) == MediaItems(a) + MediaItems(b)
    decreases |b|
  {
    if b == [] {
      assert a + b == a;
    } else {
      var b' := b[..|b| - 1];
      assert (a + b)[..|a + b| - 1] == a + b';
      assert (a + b)[|a + b| - 1] == b[|b| - 1];
      MediaItemsAppend(a, b');
    }
  }

  /** Every item comes from a block with a link and carries that block's
      classification; every block with a link contributes an item */
  lemma {:induction false} MediaItemsFromBlocks(blocks: seq<Block>)
    ensures forall m :: m in MediaItems(blocks) ==>
              exists i :: 0 <= i < |blocks| && Truthy(blocks[i].downloadHref) && m == ItemOf(blocks[i])
    ensures forall i :: 0 <= i < |blocks| && Truthy(blocks[i].downloadHref) ==> ItemOf(blocks[i]) in MediaItems(blocks)
    decreases |blocks|
  {
    if blocks != [] {
      var init := blocks[..|blocks| - 1];
      MediaItemsFromBlocks(init);
      assert forall i :: 0 <= i < |init| ==> init[i] == blocks[i];
    }
  }

  /** Nothing is emitted exactly when no block has a link */
  lemma {:induction false} MediaItemsEmpty(blocks: seq<Block>)
    ensures MediaItems(blocks) == [] <==> forall i :: 0 <= i < |blocks| ==> !Truthy(blocks[i].downloadHref)
    decreases |blocks|
  {
    if blocks != [] {
      var init := blocks[..|blocks| - 1];
      MediaItemsEmpty(init);
      assert forall i :: 0 <= i < |init| ==> init[i] == blocks[i];
    }
  }

  /** A link text that holds `video` written in any ASCII case classifies
      its block as a video */
  lemma VideoInAnyCase(b: Block, j: nat, w: string)
    requires JsText.OccursAt(JsText.Trim(b.downloadText), w, j)
    requires JsText.ToLower(w) == "video"
    ensures IsVideo(b)
  {
    var t := JsText.Trim(b.downloadText);
    var l := JsText.ToLower(t);
    assert l[j..j + |w|] == JsText.ToLower(t[j..j + |w|]);
    assert JsText.OccursAt(l, "video", j);
  }

  /** The `.each` loop pushing one item per block that has a link */
  method CollectMediaItems(blocks: seq<Block>) returns (downloadItems: seq<InstagramMediaItem>)
    ensures downloadItems == MediaItems(blocks)
  {
    downloadItems := [];
    var i := 0;
    while i < |blocks|
      invariant 0 <= i <= |blocks|
      invariant downloadItems == MediaItems(blocks[..i])
    {
      assert blocks[..i + 1][..i] == blocks[..i];
      var b := blocks[i];
      if Truthy(b.downloadHref) {
        downloadItems := downloadItems + [ItemOf(b)];
      }
      i := i + 1;
    }
    assert blocks[..i] == blocks;
  }

  method InstagramDownloader(response: Fetched<seq<Block>>) returns (r: Response<seq<InstagramMediaItem>>)
    ensures r.creator == Creator
    ensures response.Threw? ==> r == Fail(Creator, Message(response.error))
    ensures response.Received? ==>
              (r.Fail? <==> forall i :: 0 <= i < |response.body| ==> !Truthy(response.body[i].downloadHref))
    ensures response.Received? && r.Fail? ==> r.msg == NoItems
    ensures r.Ok? ==> r.result == MediaItems(response.body) && r.result != []
  {
    if response.Threw? {
      return Caught(response.error);
    }
    var downloadItems := CollectMediaItems(response.body);
    MediaItemsEmpty(response.body);
    if |downloadItems| == 0 {
      return Fail(Creator, NoItems);
    }
    return Ok(Creator, downloadItems);
  }
}
