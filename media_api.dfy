/**
 The media-id extraction and upload acceptance used by the media API tests:
 an upload answers with a content URI `mxc://<server>/<media-id>`, and the
 download call takes only the `<media-id>` part, obtained as the last
 `/`-separated segment of the URI.
 */
module MediaApi {
  import opened PathSplit

  /** The upload response: a single field carrying the content URI. */
  datatype ContentUri = ContentUri(content_uri: string)

  /** The error half of a completion: present only when the call failed.
      Only its presence matters here, so it carries just a message. */
  datatype ClientError = ClientError(message: string)

  /** Outcome of the upload validation. The two assertions run in
      order and the first failing one returns from the validation. */
  datatype Verdict = Accepted | ErrorReported(error: ClientError) | UriTooShort(length: nat)

  /** A content URI must be strictly longer than this to be accepted. */
  const MinUriLength: nat := 10

  /** The media id of an upload response: the last segment of the content
      URI split at every `/`. It holds no `/` and ends the URI; it is preceded
      by a `/` when the URI holds one, and is the whole URI (the empty one
      included) when it holds none, rather than a failure. */
  function GetMediaId(res: ContentUri): (id: string)
    ensures Separator !in id
    ensures |id| <= |res.content_uri| && res.content_uri[|res.content_uri| - |id|..] == id
    ensures Separator in res.content_uri ==>
      |id| < |res.content_uri| && res.content_uri[|res.content_uri| - |id| - 1] == Separator
    ensures Separator !in res.content_uri ==> id == res.content_uri
    ensures id == AfterLastSeparator(res.content_uri)
  {
    LastSegment(res.content_uri)
  }

  /** The upload validation run on every upload response: no error was
      reported, then the content URI is longer than ten characters (each
      `char` stands for one byte of the URI). */
  function ValidateUpload(res: ContentUri, err: Option<ClientError>): (v: Verdict)
    ensures v.Accepted? <==> err.None? && |res.content_uri| > MinUriLength
    ensures err.Some? ==> v == ErrorReported(err.value)
    ensures err.None? && !v.Accepted? ==> v == UriTooShort(|res.content_uri|)
  {
    match err
    case Some(e) => ErrorReported(e)
    case None =>
      if |res.content_uri| > MinUriLength then Accepted else UriTooShort(|res.content_uri|)
  }

  /** When the URI holds a `/`, the media id is exactly the text after the
      last one, and it starts right after that `/`. */
  lemma MediaIdAfterLastSeparator(res: ContentUri)
    requires Separator in res.content_uri
    ensures LastSeparator(res.content_uri).Some?
    ensures var uri := res.content_uri; var i := LastSeparator(uri).value;
      GetMediaId(res) == uri[i + 1..] && |uri| - |GetMediaId(res)| == i + 1
  {
    var uri := res.content_uri;
    var i := LastSeparator(uri).value;
    assert GetMediaId(res) == AfterLastSeparator(uri) == uri[i + 1..];
  }

  /** A URI ending in `/` has the empty media id. */
  lemma MediaIdOfTrailingSeparator(res: ContentUri)
    requires |res.content_uri| > 0 && res.content_uri[|res.content_uri| - 1] == Separator
    ensures GetMediaId(res) == []
  {
    LastSeparatorUnique(res.content_uri, |res.content_uri| - 1);
  }

  /** Extracting the media id from a media id changes nothing. */
  lemma MediaIdIdempotent(res: ContentUri)
    ensures GetMediaId(ContentUri(GetMediaId(res))) == GetMediaId(res)
  {
    var id := GetMediaId(res);
    assert Separator !in ContentUri(id).content_uri;
  }

  /** The content URI `<scheme>://<server>/<id>` yields `<id>` whenever the
      id itself holds no `/`, whatever the scheme and server contain. */
  lemma MediaIdOfContentUri(scheme: string, server: string, id: string)
    requires Separator !in id
    ensures GetMediaId(ContentUri(scheme + "://" + server + "/" + id)) == id
  {
    var prefix := scheme + "://" + server;
    assert prefix + "/" + id == prefix + [Separator] + id;
    SuffixIsLastSegment(prefix, id);
    LastSegmentIsAfterLastSeparator(prefix + [Separator] + id, id);
  }

  /** The scheme of content URIs issued by the home server. */
  const ContentScheme: string := "mxc"

  /** The upload response the tests expect from the server
      (`mxc://<server>/<id>`) passes the upload validation exactly when server
      and id together are longer than three characters, and its media id,
      the value given to the download call, is the id it was issued under. */
  lemma AcceptedUploadGivesDownloadId(server: string, id: string)
    requires Separator !in id
    ensures var res := ContentUri(ContentScheme + "://" + server + "/" + id);
      (ValidateUpload(res, None).Accepted? <==> |server| + |id| > 3) &&
      GetMediaId(res) == id
  {
    MediaIdOfContentUri(ContentScheme, server, id);
  }

  /** The upload validation does not demand a `/`: an eleven-character URI
      without one passes, and its media id is the whole URI. */
  lemma AcceptedUriWithoutSeparator()
    ensures var res := ContentUri("mxc:example");
      ValidateUpload(res, None).Accepted? && GetMediaId(res) == res.content_uri
  {
    var res := ContentUri("mxc:example");
    assert Separator !in res.content_uri;
  }
}
