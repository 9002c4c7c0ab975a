/** `sfileDownloader`: the sfile.mobi file page. Every field has a
    default, so a page that arrives always yields a result. */
module Sfile {
  import opened Optional
  import opened FieldChain
  import opened Envelope
  import opened JsText
  import JsNumber

  /** The `alt` of `.intro-container img`, the text of `div.list` and the
      `href` of `#download` */
  datatype SfilePage = SfilePage(introAlt: Option<string>, listText: string, downloadHref: Option<string>)

  datatype SfileResult = SfileResult(filename: string, mimetype: string, download: string)

  /** `text.split(' - ')[1]?.split('\\n')[0] || ''`: the second `" - "`
      piece, up to its first line break; empty when there is no `" - "` */
  function Mimetype(text: string): (m: string)
    ensures '\n' !in m
    ensures IndexOf(text, " - ").None? ==> m == ""
    ensures IndexOf(text, " - ").Some? ==>
              m == Before(Before(text[IndexOf(text, " - ").value + 3..], " - "), "\n")
  {
    var parts := Split(text, " - ");
    if |parts| >= 2 then
      SplitRest(text, " - ");
      var m := Split(parts[1], "\n")[0];
      assert '\n' !in m by {
        forall j | 0 <= j < |m| ensures m[j] != '\n' {
          assert !OccursAt(m, "\n", j);
          assert m[j..j + 1] == [m[j]];
        }
      }
      m
    else ""
  }

  /** No `" - "` inside `w` */
  predicate NoDash(w: string) {
    forall j :: 0 <= j < |w| ==> !OccursAt(w, " - ", j)
  }

  /** The first `" - "` of `a + " - " + rest` is the one after `a`, when
      `a` holds none and does not end in `" -"` */
  lemma SeparatorAfterLabel(a: string, rest: string)
    requires NoDash(a)
    requires !(|a| >= 2 && a[|a| - 2..] == " -")
    ensures Split(a + " - " + rest, " - ") == [a] + Split(rest, " - ")
  {
    var s := a + " - " + rest;
    assert OccursAt(s, " - ", |a|) by { assert s[|a|..|a| + 3] == " - "; }
    forall k | 0 <= k < |a| ensures !OccursAt(s, " - ", k) {
      if k + 3 <= |a| {
        assert s[k..k + 3] == a[k..k + 3];
        assert !OccursAt(a, " - ", k);
      } else if k == |a| - 2 {
        assert s[k..k + 2] == a[|a| - 2..];
        assert s[k..k + 3][..2] == s[k..k + 2];
      } else {
        assert s[k..k + 3][1] == s[k + 1] == ' ';
      }
    }
    assert IndexOf(s, " - ") == Some(|a|);
    assert s[..|a|] == a;
    assert s[|a| + 3..] == rest;
  }

  /** The first `" - "`-piece of a text that starts with a line holding no
      `" - "` extends past that line's break */
  lemma FirstPieceKeepsLine(b: string, c: string)
    requires NoDash(b)
    ensures exists d :: Split(b + "\n" + c, " - ")[0] == b + "\n" + d
  {
    var s := b + "\n" + c;
    match IndexOf(s, " - ")
    case None =>
      assert Split(s, " - ")[0] == b + "\n" + c;
    case Some(i) =>
      forall k | 0 <= k <= |b| ensures !OccursAt(s, " - ", k) {
        if k + 3 <= |b| {
          assert s[k..k + 3] == b[k..k + 3];
          assert !OccursAt(b, " - ", k);
        } else if k == |b| - 2 {
          assert s[k + 2] == '\n';
        } else if k == |b| - 1 {
          assert s[k + 1] == '\n';
        } else {
          assert s[k] == '\n';
        }
      }
      assert i > |b|;
      assert s[..i] == b + "\n" + c[..i - |b| - 1];
  }

  /** A listing `label - type` whose type ends its line yields the type */
  lemma MimetypeOfListing(a: string, b: string, c: string)
    requires NoDash(a) && !(|a| >= 2 && a[|a| - 2..] == " -")
    requires NoDash(b) && '\n' !in b
    ensures Mimetype(a + " - " + b + "\n" + c) == b
  {
    var rest := b + "\n" + c;
    SeparatorAfterLabel(a, rest);
    var parts := Split(a + " - " + rest, " - ");
    assert a + " - " + rest == a + " - " + b + "\n" + c;
    assert parts[1] == Split(rest, " - ")[0];
    FirstPieceKeepsLine(b, c);
    var d :| parts[1] == b + "\n" + d;
    SplitFirst(b, "\n", d);
  }

  /** `href + '&k=' + k`, or `''` without a link. The random `k` is an
      input: the source draws it uniformly from 10 to 15. */
  function DownloadLink(href: Option<string>, k: int): (r: string)
    requires 10 <= k <= 15
    ensures !Truthy(href) ==> r == ""
    ensures Truthy(href) ==> exists digits ::
              r == href.value + "&k=" + digits && |digits| == 2 && JsNumber.ParseInt(digits) == Some(k)
  {
    if Truthy(href) then
      var digits := JsNumber.Decimal(k);
      JsNumber.ParseIntDecimal(k);
      assert |digits| == 2;
      href.value + "&k=" + digits
    else ""
  }

  function SfileDownloader(response: Fetched<SfilePage>, k: int): (r: Response<SfileResult>)
    requires 10 <= k <= 15
    ensures r.creator == Creator
    ensures response.Threw? ==> r == Fail(Creator, Message(response.error))
    ensures response.Received? ==> r.Ok?
    ensures r.Ok? ==>
              && r.result.filename == OrEmpty(response.body.introAlt)
              && r.result.mimetype == Mimetype(response.body.listText)
              && r.result.download == DownloadLink(response.body.downloadHref, k)
  {
    match response
    case Threw(e) => Caught(e)
    case Received(page) =>
      Ok(Creator, SfileResult(OrEmpty(page.introAlt), Mimetype(page.listText), DownloadLink(page.downloadHref, k)))
  }
}
