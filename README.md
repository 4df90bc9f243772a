# Media id extraction and upload acceptance (mtxclient media API tests)

This project models the pure logic of the media API tests of mtxclient, a
Matrix client library. An upload answers with a content URI of the form
`mxc://<server>/<media-id>`. The download call takes the server and the bare
media id, so the tests extract the id as the last `/`-separated segment of the
URI (`get_media_id`). Every upload response first goes through a validation
check (`validate_upload`): no error, and a content URI longer than ten
characters.

- `split.dfy` (module `PathSplit`): `boost::split` on `'/'` with empty
  segments kept, as a recursive `Split`. `Join` is its inverse. `LastSeparator`
  and `AfterLastSeparator` give an independent reference definition of "the
  text after the last `/`".
- `media_api.dfy` (module `MediaApi`): the upload response (`ContentUri`),
  the optional client error, `GetMediaId`, `ValidateUpload`, and the
  properties the tests rely on.

A URI without a `/` is not rejected as malformed: `boost::split` returns a
single segment, and `back()` hands back the whole string. The model follows the
code (`GetMediaId`, `AcceptedUriWithoutSeparator`).

The URI is a `std::string`, so its `size()` counts bytes. In the model each
`char` of a string stands for one byte of it. Splitting on `/` is the same
either way, because the byte of `/` never occurs inside a multi-byte UTF-8
character.

## Model

| member | source | states |
|---|---|---|
| PathSplit.NoSeparatorCount | tests/media_api.cpp:25 | a string's separator count is zero exactly when it holds no `/` |
| PathSplit.Split | tests/media_api.cpp:25 | splitting at every `/` gives one more segment than there are `/`, no segment holds a `/`, and joining the segments with `/` gives the input back |
| PathSplit.SplitJoin | tests/media_api.cpp:25 | Split inverts Join: separator-free segments joined with `/` split back into exactly those segments |
| PathSplit.SplitWithoutSeparator | tests/media_api.cpp:25 | a string with no `/`, the empty one included, splits into the single segment that is the whole string |
| PathSplit.SplitAfterPrefix | tests/media_api.cpp:25 | a separator-free prefix followed by `/` becomes the first segment and the remainder is split on its own |
| PathSplit.LastSeparator | tests/media_api.cpp:27 | reference definition: returns the index of a `/` with no `/` after it, or none when the string holds no `/` |
| PathSplit.LastSeparatorUnique | tests/media_api.cpp:27 | a `/` with no `/` after it is the one LastSeparator finds, and the text after it is the reference last segment |
| PathSplit.LastSegmentIsAfterLastSeparator | tests/media_api.cpp:27 | a separator-free suffix preceded by `/` (or the whole string when it has no `/`) can only be the text after the last `/`: the last segment is unique |
| PathSplit.LastSegment | tests/media_api.cpp:25-27 | the last element of Split (`back()`, always present because Split never returns an empty sequence) is a separator-free suffix of the input, preceded by `/` unless the input has none, and equals the reference text after the last `/` |
| MediaApi.GetMediaId | tests/media_api.cpp:21-28 | the media id holds no `/`; it is a suffix of the content URI; when the URI holds a `/` the character before the id is `/`; when it holds none (the empty URI included) the id is the whole URI, not a failure; and it equals the reference text after the last `/` |
| MediaApi.ValidateUpload | tests/media_api.cpp:39-44 | the upload is accepted exactly when no error was reported and the URI is longer than ten characters; a reported error ends the check before the length is looked at |
| MediaApi.MediaIdAfterLastSeparator | tests/media_api.cpp:25-27 | when the URI holds a `/`, the last `/` exists at some index `i`, and the media id is exactly `uri[i + 1..]`, starting right after it |
| MediaApi.MediaIdOfTrailingSeparator | tests/media_api.cpp:25-27 | a URI ending in `/` yields the empty media id |
| MediaApi.MediaIdIdempotent | tests/media_api.cpp:25-27 | extracting the media id from a media id returns it unchanged |
| MediaApi.MediaIdOfContentUri | tests/media_api.cpp:25-27 | for `<scheme>://<server>/<id>` with no `/` in the id, the media id is `<id>`, whatever the scheme and server hold |
| MediaApi.AcceptedUploadGivesDownloadId | tests/media_api.cpp:59-62 | an error-free `mxc://<server>/<id>` response is accepted exactly when server and id together exceed three characters, and its media id, the value passed to download, is `<id>` |
| MediaApi.AcceptedUriWithoutSeparator | tests/media_api.cpp:42-43 | the upload validation does not require a `/`: an eleven-character URI without one is accepted and its media id is the whole URI |

## Left out

- `Client::login`, `upload`, `download` and `close`, with their completion callbacks (tests/media_api.cpp:48-76, 81-108, 113-141): asynchronous network calls against a live home server. `client.hpp` is not part of this model.
- The upload-then-download equalities of data, content type and filename (tests/media_api.cpp:67-71, 100-103, 132-136): properties of the server's storage, not of code here.
- `read_file` (tests/media_api.cpp:30-37): file I/O that loads test fixtures.
- The gtest harness: `ValidateUpload` returns a verdict in place of `ASSERT_FALSE`/`ASSERT_TRUE`. A failing assertion returns from `validate_upload` only. The completion callbacks reach the download call with `get_media_id(res)` whatever the validation found (tests/media_api.cpp:59-62, 92-95, 124-127).
- ValidateUpload: lengths count `char`s, and each `char` stands for one byte of the `std::string`. A URI given as Unicode characters is not re-encoded to UTF-8 bytes before its length is compared with 10.
- AcceptedUploadGivesDownloadId: "longer than three characters" counts `char`s, each standing for one byte of the `std::string`, as in `ValidateUpload`.
- `ClientError`: its definition is not part of this model. It is represented by a message only, since only its presence or absence matters.
- `boost::split` internals: only its result is modelled, a split at every `/` with empty segments kept.
