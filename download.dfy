/**
 * The download request of `button_handler`: the output template, the format selector for
 * each branch of the choice, and the file name the handler then opens.
 */
module Download {
  import opened Optional
  import opened Decimal

  /** The yt-dlp field the template leaves open. */
  const ExtField := "%(ext)s"

  /** The output template `f'{chat_id}_{id}.%(ext)s'`. */
  function Template(chat: int, id: string): string {
    IntToString(chat) + "_" + id + "." + ExtField
  }

  /** The template with every `%(ext)s` replaced by `ext`, as the downloader fills it in. */
  function Expand(t: string, ext: string): string
    decreases |t|
  {
    if |t| >= |ExtField| && t[..|ExtField|] == ExtField then ext + Expand(t[|ExtField|..], ext)
    else if t == [] then []
    else [t[0]] + Expand(t[1..], ext)
  }

  lemma {:induction false} ExpandLiteralPrefix(p: string, rest: string, ext: string)
    requires '%' !in p
    ensures Expand(p + rest, ext) == p + Expand(rest, ext)
  {
    if p != [] {
      var t := p + rest;
      assert t[0] == p[0] && p[0] != '%' && ExtField[0] == '%';
      if |t| >= |ExtField| {
        assert t[..|ExtField|][0] == t[0];
      }
      assert Expand(t, ext) == [t[0]] + Expand(t[1..], ext);
      assert t[1..] == p[1..] + rest;
      ExpandLiteralPrefix(p[1..], rest, ext);
      assert p == [p[0]] + p[1..];
      assert [p[0]] + (p[1..] + Expand(rest, ext)) == p + Expand(rest, ext);
    } else {
      assert p + rest == rest;
    }
  }

  /** The callback payload of the "Audio Only" button; `button_handler` tests for it. */
  const AudioPayload := "audio"

  /** Which branch of `button_handler` a payload takes: `AudioPayload`, or anything else. */
  datatype Kind = Audio | Video

  function KindOf(choice: string): Kind {
    if choice == AudioPayload then Audio else Video
  }

  /** The extension the handler expects: mp3 after audio extraction, mp4 after merging. */
  function Extension(k: Kind): string {
    match k
    case Audio => "mp3"
    case Video => "mp4"
  }

  /** `final_filename`: `f'{chat_id}_{id}.mp3'` or `f'{chat_id}_{id}.mp4'`. */
  function FinalFilename(chat: int, id: string, k: Kind): string {
    IntToString(chat) + "_" + id + "." + Extension(k)
  }

  /** The name the handler opens is the template filled with the expected extension, when the id holds no `%`. */
  lemma FinalFilenameIsExpandedTemplate(chat: int, id: string, k: Kind)
    requires '%' !in id
    ensures FinalFilename(chat, id, k) == Expand(Template(chat, id), Extension(k))
  {
    IntToStringHasNoSeparator(chat);
    var p := IntToString(chat) + "_" + id + ".";
    assert Template(chat, id) == p + ExtField;
    ExpandLiteralPrefix(p, ExtField, Extension(k));
    assert ExtField[|ExtField|..] == [];
  }

  /** A string without `_` followed by `_` splits at that first `_`. */
  lemma SplitAtSeparator(a: string, x: string, b: string, y: string)
    requires '_' !in a && '_' !in b
    requires a + "_" + x == b + "_" + y
    ensures a == b && x == y
  {
    var s := a + "_" + x;
    assert forall j :: 0 <= j < |a| ==> s[j] == a[j] && s[j] != '_';
    assert forall j :: 0 <= j < |b| ==> s[j] == b[j] && s[j] != '_';
    assert s[|a|] == '_' && s[|b|] == '_';
    assert |a| == |b|;
    assert a == s[..|a|] && b == s[..|b|];
    assert x == s[|a| + 1..] && y == (b + "_" + y)[|b| + 1..];
  }

  /** Different (chat, id) pairs give different templates, so two chats never share a download name. */
  lemma TemplateInjective(c1: int, i1: string, c2: int, i2: string)
    requires Template(c1, i1) == Template(c2, i2)
    ensures c1 == c2 && i1 == i2
  {
    IntToStringHasNoSeparator(c1);
    IntToStringHasNoSeparator(c2);
    var t1, t2 := Template(c1, i1), Template(c2, i2);
    var n := |"." + ExtField|;
    assert t1[..|t1| - n] == IntToString(c1) + "_" + i1;
    assert t2[..|t2| - n] == IntToString(c2) + "_" + i2;
    SplitAtSeparator(IntToString(c1), i1, IntToString(c2), i2);
    IntToStringInjective(c1, c2);
  }

  /** Different (chat, id, kind) triples give different final file names. */
  lemma FinalFilenameInjective(c1: int, i1: string, k1: Kind, c2: int, i2: string, k2: Kind)
    requires FinalFilename(c1, i1, k1) == FinalFilename(c2, i2, k2)
    ensures c1 == c2 && i1 == i2 && k1 == k2
  {
    IntToStringHasNoSeparator(c1);
    IntToStringHasNoSeparator(c2);
    var f1, f2 := FinalFilename(c1, i1, k1), FinalFilename(c2, i2, k2);
    assert f1[|f1| - 1] == Extension(k1)[2] && f2[|f2| - 1] == Extension(k2)[2];
    assert f1[..|f1| - 4] == IntToString(c1) + "_" + i1;
    assert f2[..|f2| - 4] == IntToString(c2) + "_" + i2;
    SplitAtSeparator(IntToString(c1), i1, IntToString(c2), i2);
    IntToStringInjective(c1, c2);
  }

  /**
   * The downloader, choosing extension `ext`, writes `{chat}_{id}.{ext}`; that is the name the
   * handler opens exactly when `ext` is the extension it expects (the id holding no `%`).
   */
  lemma ExpandedTemplateName(chat: int, id: string, ext: string, k: Kind)
    requires '%' !in id
    ensures Expand(Template(chat, id), ext) == IntToString(chat) + "_" + id + "." + ext
    ensures Expand(Template(chat, id), ext) == FinalFilename(chat, id, k) <==> ext == Extension(k)
  {
    IntToStringHasNoSeparator(chat);
    var p := IntToString(chat) + "_" + id + ".";
    assert Template(chat, id) == p + ExtField;
    ExpandLiteralPrefix(p, ExtField, ext);
    assert ExtField[|ExtField|..] == [];
    assert (p + ext)[|p|..] == ext;
    assert (p + Extension(k))[|p|..] == Extension(k);
  }

  const AudioSelector := "bestaudio[ext=m4a]/bestaudio/best"
  const VideoSelectorPrefix := "bestvideo[ext=mp4][height="
  const VideoSelectorSuffix := "]+bestaudio[ext=m4a]/best[ext=mp4]/best"

  /** The yt-dlp format selector; any payload other than `AudioPayload` is spliced in verbatim. */
  function Selector(choice: string): string {
    if KindOf(choice) == Audio then AudioSelector else VideoSelectorPrefix + choice + VideoSelectorSuffix
  }

  /** Reads back the height filter of a video selector; None for any other selector. */
  function SplicedHeight(sel: string): Option<string> {
    var p, q := |VideoSelectorPrefix|, |VideoSelectorSuffix|;
    if |sel| >= p + q && sel[..p] == VideoSelectorPrefix && sel[|sel| - q..] == VideoSelectorSuffix
    then Some(sel[p..|sel| - q])
    else None
  }

  /** The selector carries exactly the payload it was built from: the audio selector carries none. */
  lemma SelectorRoundTrip(choice: string)
    ensures SplicedHeight(Selector(choice)) == if KindOf(choice) == Audio then None else Some(choice)
  {
    var sel := Selector(choice);
    if KindOf(choice) == Video {
      var p, q := |VideoSelectorPrefix|, |VideoSelectorSuffix|;
      assert sel[..p] == VideoSelectorPrefix;
      assert sel[|sel| - q..] == VideoSelectorSuffix;
      assert sel[p..|sel| - q] == choice;
    }
  }

  /** Different payloads give different selectors. */
  lemma SelectorInjective(c1: string, c2: string)
    requires Selector(c1) == Selector(c2)
    ensures c1 == c2
  {
    SelectorRoundTrip(c1);
    SelectorRoundTrip(c2);
  }

  /** The post-processing step of each branch. */
  datatype Postprocess = ExtractAudioMp3 | MergeIntoMp4

  /** The `ydl_opts` of one branch, with the URL passed to `download`. */
  datatype Request = Request(url: Option<string>, format: string, outtmpl: string, post: Postprocess)

  /**
   * The request `button_handler` builds for `choice`: `id` defaults to "video" when the
   * stored info has none.
   */
  function BuildRequest(chat: int, url: Option<string>, id: Option<string>, choice: string): (r: Request)
    ensures r.url == url
    ensures r.outtmpl == Template(chat, id.GetOr("video"))
    ensures KindOf(choice) == Audio ==> r.format == AudioSelector
    ensures SplicedHeight(r.format) == (if KindOf(choice) == Audio then None else Some(choice))
    ensures r.post == (if KindOf(choice) == Audio then ExtractAudioMp3 else MergeIntoMp4)
  {
    SelectorRoundTrip(choice);
    Request(url, Selector(choice), Template(chat, id.GetOr("video")),
      if KindOf(choice) == Audio then ExtractAudioMp3 else MergeIntoMp4)
  }
}
