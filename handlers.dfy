/**
 * The two bot handlers and the per-user selection store they share:
 * `handle_link` resolves a link, stores the extracted info and offers the choices;
 * `button_handler` reads the stored info back, downloads the chosen variant and delivers it.
 * The extractor, the downloader and the delivery call are abstract outcomes given as parameters.
 */
module Handlers {
  import opened Optional
  import opened Decimal
  import opened Formats
  import opened Choices
  import opened Download

  /** The `formats` entry of the extracted info: absent, present but None, or a list. */
  datatype FormatList = Missing | Null | Listed(formats: seq<Format>)

  /**
   * The extracted info dictionary, as far as the handlers read it. `None` in a field means the
   * key is absent; a key present with the value None is not told apart from an absent one.
   */
  datatype Info = Info(
    webpageUrl: Option<string>,
    title: Option<string>,
    id: Option<string>,
    formats: FormatList,
    otherKeys: bool)  // the dictionary holds keys the handlers never read

  /** `{}`: the only info dictionary Python treats as false. */
  const EmptyInfo := Info(None, None, None, Missing, false)

  /** `if not info`: None or an empty dictionary fails the check. */
  predicate IsTruthy(stored: Option<Info>) {
    stored.Some? && stored.value != EmptyInfo
  }

  /** What `ydl.extract_info` did: returned an info (possibly None), or raised. */
  datatype Extraction = Extracted(result: Option<Info>) | ExtractionRaised

  /** What `ydl.download` did: wrote the output template with the extension it chose, or raised. */
  datatype DownloadOutcome = Wrote(ext: string) | DownloadRaised

  /** One call the handlers make on the chat, in order. */
  datatype Reply =
    | SendText(text: string)                         // bot.send_message
    | EditText(text: string)                         // edit_message_text without a keyboard
    | EditPrompt(text: string, payloads: seq<string>) // edit_message_text with the choice keyboard
    | AnswerQuery                                    // query.answer()
    | RunDownload(request: Request)                  // ydl.download([url]) under ydl_opts
    | SendAudio(file: string, title: string)         // bot.send_audio
    | SendVideo(file: string)                        // bot.send_video

  const AnalyzingText := "\U{1F50E} Analyzing link..."
  const LinkApologyText := "\U{274C} Sorry, I couldn't process that link. It might be private, invalid, or from an unsupported site."
  const ResendText := "Sorry, something went wrong. Please send the link again."
  const CompleteText := "\U{2705} Download complete!"
  const DownloadErrorText := "\U{274C} An error occurred during download. Please try again."

  function PromptText(title: string): string {
    "**" + title + "**\n\nPlease choose a format to download:"
  }

  function StartingText(title: string): string {
    "\U{2B07}\U{FE0F} Starting download for **" + title + "**...\n\nThis may take a moment."
  }

  /** The selection store (`user_data['video_info']` per user) and the files on local disk. */
  datatype State = State(userData: map<int, Option<Info>>, files: set<string>)

  /** `context.user_data.get('video_info')`. */
  function Stored(s: State, user: int): Option<Info> {
    if user in s.userData then s.userData[user] else None
  }

  /** `info.get('formats', [])` as the filter receives it; None when it is None, which the filter cannot iterate. */
  function FormatsOf(info: Info): Option<seq<Format>> {
    match info.formats
    case Missing => Some([])
    case Null => None
    case Listed(fs) => Some(fs)
  }

  /** The edit that replaces "Analyzing link..." once the info is stored. */
  function PromptOrApology(result: Option<Info>): Reply {
    match result
    case None => EditText(LinkApologyText)           // info.get raises on None
    case Some(info) =>
      match FormatsOf(info)
      case None => EditText(LinkApologyText)          // iterating None raises
      case Some(fs) =>
        match Ranked(fs)
        case None => EditText(LinkApologyText)        // fmt['format_id'] raises
        case Some(entries) => EditPrompt(PromptText(info.title.GetOr("this video")), ChoicePayloads(entries))
  }

  /** `handle_link` for `user`, given what the extractor did. */
  function LinkStep(s: State, user: int, x: Extraction): (State, seq<Reply>) {
    match x
    case ExtractionRaised => (s, [SendText(AnalyzingText), EditText(LinkApologyText)])
    case Extracted(result) =>
      (s.(userData := s.userData[user := result]), [SendText(AnalyzingText), PromptOrApology(result)])
  }

  /** The name `button_handler` opens after the download. */
  function ExpectedFile(chat: int, info: Info, choice: string): string {
    FinalFilename(chat, info.id.GetOr("video"), KindOf(choice))
  }

  /** The file the downloader wrote: the output template filled with the extension it chose. */
  function WrittenFile(chat: int, info: Info, choice: string, ext: string): string {
    Expand(BuildRequest(chat, info.webpageUrl, info.id, choice).outtmpl, ext)
  }

  /** The `try` block of `button_handler`: download, open, send, remove. */
  function Deliver(s: State, chat: int, info: Info, choice: string, dl: DownloadOutcome, delivered: bool): (State, seq<Reply>) {
    match dl
    case DownloadRaised => (s, [EditText(DownloadErrorText)])
    case Wrote(ext) =>
      var files := s.files + {WrittenFile(chat, info, choice, ext)};
      var final := ExpectedFile(chat, info, choice);
      if final !in files || !delivered then
        (s.(files := files), [EditText(DownloadErrorText)])
      else
        var sent := if KindOf(choice) == Audio then SendAudio(final, info.title.GetOr("video")) else SendVideo(final);
        (s.(files := files - {final}), [sent, EditText(CompleteText)])
  }

  /** `button_handler` for a press of `choice` by `user` in `chat`. */
  function ButtonStep(s: State, user: int, chat: int, choice: string, dl: DownloadOutcome, delivered: bool): (State, seq<Reply>) {
    var stored := Stored(s, user);
    if !IsTruthy(stored) then (s, [AnswerQuery, EditText(ResendText)])
    else
      var info := stored.value;
      var d := Deliver(s, chat, info, choice, dl, delivered);
      var request := BuildRequest(chat, info.webpageUrl, info.id, choice);
      (d.0, [AnswerQuery, EditText(StartingText(info.title.GetOr("video"))), RunDownload(request)] + d.1)
  }

  /** The bot process: the store and the local files, updated in place by the two handlers. */
  class Bot {
    var userData: map<int, Option<Info>>
    var files: set<string>

    function Snapshot(): State
      reads this
    {
      State(userData, files)
    }

    constructor ()
      ensures Snapshot() == State(map[], {})
    {
      userData := map[];
      files := {};
    }

    method HandleLink(user: int, x: Extraction) returns (replies: seq<Reply>)
      modifies this
      ensures (Snapshot(), replies) == LinkStep(old(Snapshot()), user, x)
      ensures files == old(files)
      ensures x.ExtractionRaised? ==> userData == old(userData)
      ensures x.Extracted? ==> userData == old(userData)[user := x.result]
    {
      replies := [SendText(AnalyzingText)];
      if x.ExtractionRaised? {
        replies := replies + [EditText(LinkApologyText)];
        assert replies == [SendText(AnalyzingText), EditText(LinkApologyText)];
        return;
      }
      var info := x.result;
      userData := userData[user := info];
      if info.None? {
        replies := replies + [EditText(LinkApologyText)];
        assert replies == [SendText(AnalyzingText), PromptOrApology(info)];
        return;
      }
      var formats := FormatsOf(info.value);
      if formats.None? {
        replies := replies + [EditText(LinkApologyText)];
        assert replies == [SendText(AnalyzingText), PromptOrApology(info)];
        return;
      }
      var videoFormats := FilterVideoFormats(formats.value);
      if videoFormats.None? {
        replies := replies + [EditText(LinkApologyText)];
        assert replies == [SendText(AnalyzingText), PromptOrApology(info)];
        return;
      }
      var payloads := BuildChoices(videoFormats.value);
      replies := replies + [EditPrompt(PromptText(info.value.title.GetOr("this video")), payloads)];
      assert replies == [SendText(AnalyzingText), PromptOrApology(info)];
    }

    method HandleButton(user: int, chat: int, choice: string, dl: DownloadOutcome, delivered: bool)
      returns (replies: seq<Reply>)
      modifies this
      ensures (Snapshot(), replies) == ButtonStep(old(Snapshot()), user, chat, choice, dl, delivered)
      ensures userData == old(userData)
    {
      ghost var s := Snapshot();
      replies := [AnswerQuery];
      var info := if user in userData then userData[user] else None;
      assert info == Stored(s, user);
      if !IsTruthy(info) {
        replies := replies + [EditText(ResendText)];
        assert replies == [AnswerQuery, EditText(ResendText)];
        return;
      }
      var title := info.value.title.GetOr("video");
      replies := replies + [EditText(StartingText(title))];
      var request := BuildRequest(chat, info.value.webpageUrl, info.value.id, choice);
      replies := replies + [RunDownload(request)];
      ghost var head := replies;
      assert head == [AnswerQuery, EditText(StartingText(title)), RunDownload(request)];
      ghost var d := Deliver(s, chat, info.value, choice, dl, delivered);
      assert ButtonStep(s, user, chat, choice, dl, delivered) == (d.0, head + d.1);
      var finalFilename := FinalFilename(chat, info.value.id.GetOr("video"), KindOf(choice));
      match dl {
        case DownloadRaised =>
          replies := replies + [EditText(DownloadErrorText)];
          return;
        case Wrote(ext) =>
          files := files + {Expand(request.outtmpl, ext)};
      }
      if finalFilename !in files || !delivered {
        // open() finds no file, or the send raises: the file stays on disk
        replies := replies + [EditText(DownloadErrorText)];
        return;
      }
      if KindOf(choice) == Audio {
        replies := replies + [SendAudio(finalFilename, title)];
      } else {
        replies := replies + [SendVideo(finalFilename)];
      }
      files := files - {finalFilename};
      replies := replies + [EditText(CompleteText)];
      assert replies == head + d.1;
    }
  }

  /**
   * A successful extraction replaces the user's record entirely and touches no other user's;
   * the choice prompt appears exactly when the filter neither meets a None format list nor
   * raises on a missing `format_id`; otherwise the apology replaces it, with the record stored all the same.
   */
  lemma LinkStoresInfo(s: State, user: int, info: Info)
    ensures var r := LinkStep(s, user, Extracted(Some(info)));
      && Stored(r.0, user) == Some(info)
      && (forall v :: v != user ==> Stored(r.0, v) == Stored(s, v))
      && r.0.files == s.files
      && |r.1| == 2 && r.1[0] == SendText(AnalyzingText)
      && (r.1[1].EditPrompt? <==> FormatsOf(info).Some? && !Raises(FormatsOf(info).value))
      && (!r.1[1].EditPrompt? ==> r.1[1] == EditText(LinkApologyText))
  {
    if FormatsOf(info).Some? {
      RankedProperties(FormatsOf(info).value);
    }
  }

  /** The replies of the `try` block after the download: one or two calls, no second download. */
  lemma DeliverReplies(s: State, chat: int, info: Info, choice: string, dl: DownloadOutcome, delivered: bool)
    ensures var d := Deliver(s, chat, info, choice, dl, delivered);
      && 1 <= |d.1| <= 2
      && (forall j :: 0 <= j < |d.1| ==> !d.1[j].RunDownload?)
      && (EditText(CompleteText) in d.1 <==> d.1[|d.1| - 1] == EditText(CompleteText))
      && (EditText(CompleteText) !in d.1 ==> d.1 == [EditText(DownloadErrorText)])
  {
  }

  /**
   * A press with a usable record answers, announces the download, and then issues the one
   * download the payload selects: the stored URL, the per-chat template, the selector and the
   * post-processing of its branch.
   */
  lemma PressIssuesRequest(s: State, user: int, chat: int, choice: string, dl: DownloadOutcome, delivered: bool)
    requires IsTruthy(Stored(s, user))
    ensures var info := Stored(s, user).value;
      var t := ButtonStep(s, user, chat, choice, dl, delivered).1;
      && |t| >= 4
      && t[..3] == [AnswerQuery, EditText(StartingText(info.title.GetOr("video"))),
                    RunDownload(BuildRequest(chat, info.webpageUrl, info.id, choice))]
      && t[3..] == Deliver(s, chat, info, choice, dl, delivered).1
      && (forall j :: 0 <= j < |t| && t[j].RunDownload? ==> j == 2)
  {
    var info := Stored(s, user).value;
    var t := ButtonStep(s, user, chat, choice, dl, delivered).1;
    var d := Deliver(s, chat, info, choice, dl, delivered);
    DeliverReplies(s, chat, info, choice, dl, delivered);
    var head := [AnswerQuery, EditText(StartingText(info.title.GetOr("video"))),
                 RunDownload(BuildRequest(chat, info.webpageUrl, info.id, choice))];
    assert t == head + d.1;
    assert t[3..] == d.1;
    assert forall j :: 3 <= j < |t| ==> t[j] == d.1[j - 3];
  }

  /** With a usable record, pressing two different payloads issues two different downloads. */
  lemma PressesAreDistinguished(s: State, user: int, chat: int, c1: string, c2: string, dl: DownloadOutcome, delivered: bool)
    requires IsTruthy(Stored(s, user)) && c1 != c2
    ensures ButtonStep(s, user, chat, c1, dl, delivered).1[2] != ButtonStep(s, user, chat, c2, dl, delivered).1[2]
  {
    PressIssuesRequest(s, user, chat, c1, dl, delivered);
    PressIssuesRequest(s, user, chat, c2, dl, delivered);
    var info := Stored(s, user).value;
    var r1 := BuildRequest(chat, info.webpageUrl, info.id, c1);
    var r2 := BuildRequest(chat, info.webpageUrl, info.id, c2);
    if r1 == r2 {
      SelectorInjective(c1, c2);
    }
  }

  /**
   * The prompt offers one payload per kept height, best first, at most four, then `AudioPayload`.
   * Pressing the m-th payload of a stored (non-empty) info issues one download of the stored URL
   * whose selector asks for exactly the m-th kept height and merges into MP4; pressing the last
   * issues the audio download with MP3 extraction.
   */
  lemma PromptChoices(s: State, user: int, info: Info, chat: int, dl: DownloadOutcome, delivered: bool)
    requires FormatsOf(info).Some? && Ranked(FormatsOf(info).value).Some?
    ensures var r := LinkStep(s, user, Extracted(Some(info)));
      var entries := Ranked(FormatsOf(info).value).value;
      var p := r.1[1].payloads;
      && r.1[1] == EditPrompt(PromptText(info.title.GetOr("this video")), p)
      && p == ChoicePayloads(entries)
      && |p| == |entries| + 1 <= 5
      && p[|entries|] == AudioPayload
      && (forall m, n :: 0 <= m < n < |p| ==> p[m] != p[n])
    ensures info != EmptyInfo ==>
      var s1 := LinkStep(s, user, Extracted(Some(info))).0;
      var entries := Ranked(FormatsOf(info).value).value;
      var p := ChoicePayloads(entries);
      var template := Template(chat, info.id.GetOr("video"));
      && (forall m :: 0 <= m < |entries| ==>
            var t := ButtonStep(s1, user, chat, p[m], dl, delivered).1;
            && |t| >= 3 && t[2].RunDownload?
            && t[2].request.url == info.webpageUrl
            && t[2].request.outtmpl == template
            && SplicedHeight(t[2].request.format) == Some(IntToString(entries[m].height))
            && DecimalValue(SplicedHeight(t[2].request.format).value) == entries[m].height
            && t[2].request.post == MergeIntoMp4)
      && (var t := ButtonStep(s1, user, chat, p[|entries|], dl, delivered).1;
          |t| >= 3 && t[2] == RunDownload(Request(info.webpageUrl, AudioSelector, template, ExtractAudioMp3)))
  {
    var fs := FormatsOf(info).value;
    RankedProperties(fs);
    var entries := Ranked(fs).value;
    assert DistinctHeights(entries);
    ChoicePayloadsShape(entries);
    var s1 := LinkStep(s, user, Extracted(Some(info))).0;
    assert Stored(s1, user) == Some(info);
    if info != EmptyInfo {
      var p := ChoicePayloads(entries);
      forall m | 0 <= m < |entries|
        ensures var t := ButtonStep(s1, user, chat, p[m], dl, delivered).1;
          && |t| >= 3 && t[2].RunDownload?
          && t[2].request.url == info.webpageUrl
          && t[2].request.outtmpl == Template(chat, info.id.GetOr("video"))
          && SplicedHeight(t[2].request.format) == Some(IntToString(entries[m].height))
          && DecimalValue(SplicedHeight(t[2].request.format).value) == entries[m].height
          && t[2].request.post == MergeIntoMp4
      {
        PressedHeight(s1, user, chat, info, entries[m].height, dl, delivered);
      }
      PressIssuesRequest(s1, user, chat, AudioPayload, dl, delivered);
    }
  }

  /** Pressing the payload `str(h)` of a stored info issues the video download for height h. */
  lemma PressedHeight(s: State, user: int, chat: int, info: Info, h: int, dl: DownloadOutcome, delivered: bool)
    requires Stored(s, user) == Some(info) && info != EmptyInfo
    ensures var t := ButtonStep(s, user, chat, IntToString(h), dl, delivered).1;
      && |t| >= 3 && t[2].RunDownload?
      && t[2].request.url == info.webpageUrl
      && t[2].request.outtmpl == Template(chat, info.id.GetOr("video"))
      && SplicedHeight(t[2].request.format) == Some(IntToString(h))
      && DecimalValue(SplicedHeight(t[2].request.format).value) == h
      && t[2].request.post == MergeIntoMp4
  {
    PressIssuesRequest(s, user, chat, IntToString(h), dl, delivered);
    HeightPayloadIsNotAudio(h);
    IntToStringRoundTrip(h);
  }

  /** If the extractor raises, the earlier record survives and the next press still uses it. */
  lemma RaisedLinkKeepsRecord(s: State, user: int, chat: int, choice: string, dl: DownloadOutcome, delivered: bool)
    ensures LinkStep(s, user, ExtractionRaised) == (s, [SendText(AnalyzingText), EditText(LinkApologyText)])
    ensures ButtonStep(LinkStep(s, user, ExtractionRaised).0, user, chat, choice, dl, delivered)
         == ButtonStep(s, user, chat, choice, dl, delivered)
  {
  }

  /** If the extractor returns None, None is stored, so the next press is stale and downloads nothing. */
  lemma NoneLinkMakesNextPressStale(s: State, user: int, chat: int, choice: string, dl: DownloadOutcome, delivered: bool)
    ensures var s1 := LinkStep(s, user, Extracted(None)).0;
      && LinkStep(s, user, Extracted(None)).1 == [SendText(AnalyzingText), EditText(LinkApologyText)]
      && ButtonStep(s1, user, chat, choice, dl, delivered) == (s1, [AnswerQuery, EditText(ResendText)])
  {
  }

  /** After a new link, what a press does no longer depends on the record it replaced. */
  lemma NewLinkDiscardsOldRecord(s1: State, s2: State, user: int, info: Info, chat: int, choice: string, dl: DownloadOutcome, delivered: bool)
    requires s1.files == s2.files
    ensures ButtonStep(LinkStep(s1, user, Extracted(Some(info))).0, user, chat, choice, dl, delivered).1
         == ButtonStep(LinkStep(s2, user, Extracted(Some(info))).0, user, chat, choice, dl, delivered).1
    ensures ButtonStep(LinkStep(s1, user, Extracted(Some(info))).0, user, chat, choice, dl, delivered).0.files
         == ButtonStep(LinkStep(s2, user, Extracted(Some(info))).0, user, chat, choice, dl, delivered).0.files
  {
  }

  /** A press without a usable record only answers and asks for the link again: no download, no change. */
  lemma StalePressAttemptsNothing(s: State, user: int, chat: int, choice: string, dl: DownloadOutcome, delivered: bool)
    requires !IsTruthy(Stored(s, user))
    ensures ButtonStep(s, user, chat, choice, dl, delivered) == (s, [AnswerQuery, EditText(ResendText)])
  {
  }

  /**
   * A press never changes the store (a successful download does not consume the record);
   * "Download complete!" is reported exactly when the download wrote the expected file and the
   * send succeeded; the local file is removed only then, and on every other path no file is removed.
   */
  lemma ButtonOutcome(s: State, user: int, chat: int, choice: string, dl: DownloadOutcome, delivered: bool)
    ensures var r := ButtonStep(s, user, chat, choice, dl, delivered);
      var info := Stored(s, user).GetOr(EmptyInfo);
      && r.0.userData == s.userData
      && r.1[0] == AnswerQuery
      && (EditText(CompleteText) in r.1 <==>
            IsTruthy(Stored(s, user)) && dl.Wrote? && delivered
            && ExpectedFile(chat, info, choice) in s.files + {WrittenFile(chat, info, choice, dl.ext)})
      && (EditText(CompleteText) in r.1 ==>
            r.0.files == (s.files + {WrittenFile(chat, info, choice, dl.ext)}) - {ExpectedFile(chat, info, choice)})
      && (EditText(CompleteText) !in r.1 ==> s.files <= r.0.files)
      && r.1[|r.1| - 1] in {EditText(CompleteText), EditText(DownloadErrorText), EditText(ResendText)}
    ensures var r := ButtonStep(s, user, chat, choice, dl, delivered);
      var info := Stored(s, user).GetOr(EmptyInfo);
      IsTruthy(Stored(s, user)) ==>
        && |r.1| >= 4
        && r.1[1] == EditText(StartingText(info.title.GetOr("video")))
        && r.1[2] == RunDownload(BuildRequest(chat, info.webpageUrl, info.id, choice))
        && (EditText(CompleteText) !in r.1 ==> r.1 == r.1[..3] + [EditText(DownloadErrorText)])
        && (forall j :: 0 <= j < |r.1| && r.1[j].RunDownload? ==> j == 2)
    ensures var r := ButtonStep(s, user, chat, choice, dl, delivered);
      !IsTruthy(Stored(s, user)) ==> forall j :: 0 <= j < |r.1| ==> !r.1[j].RunDownload?
  {
    if IsTruthy(Stored(s, user)) {
      PressIssuesRequest(s, user, chat, choice, dl, delivered);
      var info := Stored(s, user).value;
      var t := ButtonStep(s, user, chat, choice, dl, delivered).1;
      var d := Deliver(s, chat, info, choice, dl, delivered);
      DeliverReplies(s, chat, info, choice, dl, delivered);
      assert t == t[..3] + d.1;
    }
  }

  /**
   * When the downloader writes the extension the handler expects (and the id holds no `%`),
   * the handler finds the file: the outcome then rests on the send alone.
   */
  lemma ExpectedExtensionIsFound(s: State, user: int, chat: int, choice: string, delivered: bool)
    requires IsTruthy(Stored(s, user))
    requires '%' !in Stored(s, user).value.id.GetOr("video")
    ensures var info := Stored(s, user).value;
      var final := ExpectedFile(chat, info, choice);
      var r := ButtonStep(s, user, chat, choice, Wrote(Extension(KindOf(choice))), delivered);
      && (EditText(CompleteText) in r.1 <==> delivered)
      && (delivered ==> r.0.files == s.files - {final})
      && (!delivered ==> r.0.files == s.files + {final})
  {
    var info := Stored(s, user).value;
    FinalFilenameIsExpandedTemplate(chat, info.id.GetOr("video"), KindOf(choice));
  }

  /**
   * A video download that falls back to a non-MP4 `best` stream is written under another
   * extension: unless an earlier `.mp4` of that name is still on disk, the handler fails to open
   * the `.mp4` name, reports the error, and the written file stays.
   */
  lemma FallbackStreamIsLeftBehind(s: State, user: int, chat: int, choice: string, ext: string, delivered: bool)
    requires IsTruthy(Stored(s, user))
    requires '%' !in Stored(s, user).value.id.GetOr("video")
    requires choice != AudioPayload && ext != "mp4"
    requires ExpectedFile(chat, Stored(s, user).value, choice) !in s.files
    ensures var info := Stored(s, user).value;
      var r := ButtonStep(s, user, chat, choice, Wrote(ext), delivered);
      && r.1[|r.1| - 1] == EditText(DownloadErrorText)
      && IntToString(chat) + "_" + info.id.GetOr("video") + "." + ext in r.0.files
  {
    var info := Stored(s, user).value;
    ExpandedTemplateName(chat, info.id.GetOr("video"), ext, Video);
  }

  /**
   * A `.mp4` of the same name left on disk by an earlier failed send changes the fallback's
   * outcome: the handler opens the old file, sends it, removes it and reports success, while
   * the file just written stays.
   */
  lemma LeftoverFileIsSent(s: State, user: int, chat: int, choice: string, ext: string)
    requires IsTruthy(Stored(s, user))
    requires '%' !in Stored(s, user).value.id.GetOr("video")
    requires choice != AudioPayload && ext != "mp4"
    requires ExpectedFile(chat, Stored(s, user).value, choice) in s.files
    ensures var info := Stored(s, user).value;
      var final := ExpectedFile(chat, info, choice);
      var r := ButtonStep(s, user, chat, choice, Wrote(ext), true);
      && r.1[3..] == [SendVideo(final), EditText(CompleteText)]
      && final !in r.0.files
      && IntToString(chat) + "_" + info.id.GetOr("video") + "." + ext in r.0.files
  {
    var info := Stored(s, user).value;
    ExpandedTemplateName(chat, info.id.GetOr("video"), ext, Video);
  }
}
