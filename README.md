# vid_load core, modelled in Dafny

`app.py` of vid_load is a Telegram bot behind a Flask webhook. A user sends a video link. The bot asks
yt-dlp for the video's formats and offers one button per usable resolution plus an "Audio Only" button.
It remembers the extracted info per user. When a button is pressed it downloads the chosen variant
under a per-chat file name, sends it back and deletes the local file.

This project models the deterministic core of that flow:

- `Formats` (`formats.dfy`): `filter_video_formats`. It keeps video-only MP4 streams whose height is in
  {360, 480, 720, 1080} and whose `filesize` or `filesize_approx` is truthy. It keeps one stream per
  height (the first one met wins), sorted by height, highest first. A kept stream without a
  `format_id` raises `KeyError`; the model returns `None` for that.
- `Choices` (`choices.dfy`): the keyboard built in `handle_link`. It has one callback payload
  `str(height)` per kept stream, then a single `"audio"` payload.
- `Download` (`download.dfy`): the output template `"{chat_id}_{id}.%(ext)s"` (`id` defaults to
  `"video"`), the yt-dlp format selector of each branch, the post-processing step, and the final
  file name (`.mp3` or `.mp4`).
- `Decimal` (`decimal.dfy`): Python's `str` on integers, including negative (group) chat ids.
- `Handlers` (`handlers.dfy`): the selection store and both handlers.
  - The store is `user_data['video_info']`, a map from user id to an optional info record.
  - The local disk is a set of file names.
  - `LinkStep` and `ButtonStep` give each handler's effect on that state and the calls it makes, in
    order. These are the chat calls and, for a press, the yt-dlp download call with its URL, format
    selector, output template and post-processing.
  - The class `Bot` holds the store and the files as fields. Its methods `HandleLink` and
    `HandleButton` follow the source statement by statement and are proved to agree with the two
    step functions.
  - The extractor, the downloader and the delivery call are parameters: a returned value or an
    exception. A download writes the template filled with an extension the downloader chooses.

Five behaviours of the code a reader might not expect; the model follows the code:

- When `extract_info` returns `None`, line 65 stores `None` before line 66 fails. So the store *is*
  written, and the next button press takes the "send the link again" path (`NoneLinkMakesNextPressStale`).
- The local file is removed only after a successful send (lines 136-137, 151-152). It is not removed
  on every exit path. After a failed send, or a video download that fell back to a non-MP4 stream,
  the file stays (`ButtonOutcome`, `FallbackStreamIsLeftBehind`).
- A successful download does not consume the stored record. The same button can be pressed again
  (`ButtonOutcome`).
- A `.mp4` left behind by an earlier failed send is picked up by the next video press of the same
  chat and video. If that press's download falls back to another container, the handler sends the old
  file, removes it and reports success, while the new file stays (`LeftoverFileIsSent`).
- In python-telegram-bot, `user_data` is kept per user, while file names use the chat id. The model
  keys the store by user id and names files by chat id.

## Model

| member | source | states |
|---|---|---|
| `Formats.FilterVideoFormats` | app.py:25-38 | The loop and sort return what `Ranked` (the filter stated as functions) gives. The result is None exactly when an admitted, first-at-its-height format lacks `format_id` (KeyError). Otherwise it is strictly descending by height, has at most 4 entries, every entry is built from the first admitted format at its height, and every such format is present. |
| `Formats.KeptCharacterized` | app.py:30-37 | The loop, described without the loop: it raises exactly on a first-at-its-height admitted format with no `format_id`. Otherwise the kept list holds exactly the first admitted format of each height, no two with the same height. |
| `Formats.RankedProperties` | app.py:25-38 | The filter's result: raises iff a needed `format_id` is missing. Otherwise it is strictly descending, has at most 4 entries and is sound and complete against the input. Every entry has an allowed height and a non-zero size, with `filesize` preferred over `filesize_approx`. |
| `Formats.SortByHeight` | app.py:38 | The sort returns a permutation of its input (same multiset, same heights), ordered by height, highest first; strictly so when the heights are distinct. |
| `Formats.UnsizedNeverAdmitted` | app.py:34-35 | A format whose `filesize` and `filesize_approx` are both missing or zero is never admitted. |
| `Formats.NoFormatsNoEntries` | app.py:66 | An empty or missing format list gives no video entries. |
| `Formats.FirstOfDuplicateHeightsWins` | app.py:35-38 | Input 720p "a", 480p "b", 720p "c" gives [720p "a", 480p "b"]: the later 720p stream does not replace the first. |
| `Choices.BuildChoices` | app.py:68-78 | The keyboard loop gives `str(height)` for each kept entry, in order, followed by `"audio"` last. |
| `Choices.ChoicePayloadsShape` | app.py:70-78 | The payload list is one longer than the entry list. `"audio"` is last and occurs exactly once. Every other payload is `str` of its entry's height and reads back as that height, and distinct heights give distinct payloads. |
| `Choices.NoEntriesOnlyAudio` | app.py:77-78 | With no kept formats, the keyboard is exactly `["audio"]`. |
| `Choices.HeightPayloadIsNotAudio` | app.py:75 | A height payload never equals `"audio"`, so it always takes the video branch. |
| `Decimal.NatToString` | app.py:75 | The digits of a natural number: non-empty, all decimal digits, no leading zero. |
| `Decimal.IntToString` | app.py:121 | `str(n)` is non-empty and made of digits, after a leading `-` exactly when n is negative. |
| `Decimal.IntToStringRoundTrip` | app.py:75 | Reading `str(n)` back as a decimal number (optional minus sign, digits most significant first) gives n. |
| `Decimal.NatToStringValue` | app.py:75 | The digits printed for a natural number read back as that number. |
| `Decimal.IntToStringInjective` | app.py:121 | Different integers give different `str` results. |
| `Decimal.IntToStringHasNoSeparator` | app.py:121 | `str(n)` contains no `_`, `%` or `.`. |
| `Download.BuildRequest` | app.py:119-147 | The request uses the stored URL and the template for (chat, id or `"video"`). For `"audio"` the selector is `bestaudio[ext=m4a]/bestaudio/best`. For every other choice the selector carries the payload verbatim as its height filter. It extracts MP3 for `"audio"` and merges into MP4 for any other choice. |
| `Download.FinalFilenameIsExpandedTemplate` | app.py:121-150 | The opened file name is the output template with `%(ext)s` replaced by `mp3` or `mp4`, provided the id contains no `%`. |
| `Download.TemplateInjective` | app.py:121 | Different (chat_id, id) pairs give different output templates. |
| `Download.FinalFilenameInjective` | app.py:135-150 | Different (chat_id, id, branch) triples give different final file names. |
| `Download.ExpandedTemplateName` | app.py:121-150 | When the id contains no `%`, the downloader choosing extension `ext` writes `{chat_id}_{id}.{ext}`. That is the file the handler opens exactly when `ext` is the expected `mp3` or `mp4`. |
| `Download.SelectorRoundTrip` | app.py:123-141 | The height filter read back from the selector is the payload itself. The audio selector carries no height filter. |
| `Download.SelectorInjective` | app.py:141 | Different payloads give different format selectors. |
| `Handlers.Bot.HandleLink` | app.py:51-98 | Moves the store and the chat calls exactly as `LinkStep` does. The files are untouched. A raised extraction leaves the store unchanged; a returned value (even None) overwrites this user's record. |
| `Handlers.Bot.HandleButton` | app.py:100-159 | Moves the store, the files and the calls (the download request included) exactly as `ButtonStep` does, and never changes the store. |
| `Handlers.LinkStoresInfo` | app.py:59-98 | A successful extraction replaces this user's record entirely and no other user's. The prompt appears exactly when the format list is not None and the filter does not raise. Otherwise the apology appears, and the record stays stored. |
| `Handlers.PromptChoices` | app.py:66-90 | The prompt offers at most five distinct payloads, with `"audio"` last. After the link is stored (a non-empty info), pressing the m-th button issues a download of the stored URL, into the per-chat template, whose height filter is exactly the m-th kept height (it reads back as that number), with an MP4 merge. Pressing the last button issues the audio selector with MP3 extraction. |
| `Handlers.RaisedLinkKeepsRecord` | app.py:92-98 | If extraction raises, the apology replaces "Analyzing link...". The earlier record survives, and a later press behaves as before. |
| `Handlers.NoneLinkMakesNextPressStale` | app.py:62-111 | If extraction returns None, the apology is shown and None is stored. The next press only asks for the link again. |
| `Handlers.NewLinkDiscardsOldRecord` | app.py:65 | After a new successful link, a press behaves the same whatever record was stored before. |
| `Handlers.StalePressAttemptsNothing` | app.py:103-111 | With no record, or a falsy one, a press answers the query and asks for the link again. Nothing is downloaded and the state is unchanged. |
| `Handlers.PressIssuesRequest` | app.py:114-147 | With a usable record, a press answers, announces the download with the stored title (default "video"), and then issues exactly one download. That download uses the stored URL, the template for the chat and stored id, and the selector and post-processing of the pressed payload. |
| `Handlers.PressedHeight` | app.py:138-147 | With a stored non-empty info, pressing the payload `str(h)` issues a download of the stored URL into the per-chat template. Its height filter reads back as h, and it merges into MP4. |
| `Handlers.PressesAreDistinguished` | app.py:123-147 | With a usable record, presses of two different payloads issue different download requests. |
| `Handlers.DeliverReplies` | app.py:131-159 | After the download call, the `try` block makes one or two more calls and no second download. It ends with "Download complete!" on success, and otherwise with exactly the download-error edit. |
| `Handlers.ButtonOutcome` | app.py:107-159 | A press never changes the store. "Download complete!" is reported exactly when, after the download, the expected file is on disk (just written, or left by an earlier failed send) and the send succeeded. Only then is that file removed. On every other path no file is removed. The last call is always complete, error or resend. With a usable record, the second call is the "Starting download" edit, the third is the one download call, built from the stored info and the payload, and every outcome other than success ends with exactly one download-error edit after it. Without a usable record, no download is issued. |
| `Handlers.ExpectedExtensionIsFound` | app.py:131-152 | When the id contains no `%` and the download writes the expected extension, the outcome depends on the send alone. The file is removed on success and left on failure. |
| `Handlers.FallbackStreamIsLeftBehind` | app.py:140-159 | When the id contains no `%` and no `.mp4` of the expected name is already on disk, a video download written under a non-`mp4` extension fails to open the `.mp4` name and reports the download error. The written file stays on disk. |
| `Handlers.LeftoverFileIsSent` | app.py:140-155 | When the id contains no `%` and a `.mp4` of the expected name is already on disk, a video download written under another extension still ends in success: the old file is sent and removed, and the new file stays. |

## Left out

- Flask routes, the webhook and handler registration (app.py:161-179), the `/start` reply (app.py:42-49), the token check and logging (app.py:8-21): HTTP and process plumbing with no logic of their own.
- yt-dlp itself: `extract_info` and `download` are abstract outcomes. The `quiet` and `skip_download` options are not modelled. Files a failed download may leave behind (partial files) are not modelled.
- Telegram calls other than the delivery always succeed in the model. A failing `send_message`, `edit_message_text` or `query.answer()` is not modelled. Neither is the URL filter of the message handler, nor `text.strip()`.
- The button labels, including the size in MB (floating-point division and formatting at app.py:72-73), and Markdown rendering. Only the callback payloads and the message texts are modelled.
- Opening the file for sending, and file handles that are never closed: the disk is only a set of names.
- Dictionary values of unexpected types: a height given as a float, or a key present with the value None for `title`, `id`, `webpage_url` or a format's `format_id`. Only a present-but-None `formats` list is modelled. Two of these change the outcome. A kept format holding `'format_id': None` does not raise in the code, which keeps the entry; the model raises and shows the apology. An info dictionary holding only `'webpage_url': None` is truthy in the code, which starts a download; the model reads it as `{}` and asks for the link again.
- `Download.FinalFilenameIsExpandedTemplate`: yt-dlp's template language is modelled only as far as `%(ext)s` is concerned, so the lemma requires that the video id contains no `%`.
- `Formats.SortByHeight`: stability of Python's sort is not stated. The kept heights are distinct, so it does not affect the result.
- Concurrency between chats: each event is one sequential step on the state.
